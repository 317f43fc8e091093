/** The adaptation field (src/ts/ts_adaptation_field.c), with the EBP reader of src/ts/ts_ebp.c. */
module AdaptationFields {
  import opened Words
  import opened Bytestreams
  import Pcr

  type PrivateData = s: seq<byte> | |s| < 256

  datatype Ebp = Ebp(marker: bool, time: u64)

  const NO_EBP := Ebp(false, 0)

  const EBP_ID: seq<byte> := [0x45, 0x42, 0x50, 0x30]

  datatype AdaptationField = AdaptationField(
    discontinuity: bit,
    randomAccess: bit,
    priority: bit,
    pcrFlag: bit,
    opcrFlag: bit,
    splicingFlag: bit,
    privateFlag: bit,
    extensionFlag: bit,
    pcr: u64,
    opcr: u64,
    spliceCountdown: byte,
    ebp: Ebp,
    privateData: PrivateData)

  /** ts_adaptation_field_construct. */
  const EMPTY := AdaptationField(0, 0, 0, 0, 0, 0, 0, 0, 0, 0, 0, NO_EBP, [])

  /** ts_adaptation_field_size. */
  function Size(af: AdaptationField): nat {
    2 + (if af.pcrFlag == 1 then 6 else 0) + (if af.opcrFlag == 1 then 6 else 0)
    + (if af.splicingFlag == 1 then 1 else 0)
    + (if af.privateFlag == 1 then |af.privateData| + 1 else 0)
    + (if af.ebp.marker then 15 else 0)
  }

  // ---- packing ----

  function Flags(af: AdaptationField): seq<Field> {
    [Field(af.discontinuity, 0, 1), Field(af.randomAccess, 1, 1), Field(af.priority, 2, 1), Field(af.pcrFlag, 3, 1),
     Field(af.opcrFlag, 4, 1), Field(af.splicingFlag, 5, 1), Field(af.privateFlag, 6, 1), Field(af.extensionFlag, 7, 1)]
  }

  function Clock(flag: bit, value: u64): seq<byte> {
    if flag == 1 then Pcr.Encode(value) else []
  }

  function Splice(af: AdaptationField): seq<byte> {
    if af.splicingFlag == 1 then Be(af.spliceCountdown, 1) else []
  }

  /** The EBP record the packer writes: a tag, a length, an id, and flags that announce the time only. */
  function Record(time: u64): (bs: seq<byte>)
    ensures |bs| == 15
  {
    Be(0xdf, 1) + Be(13, 1) + EBP_ID + Be(0x08, 1) + Be(time, 8)
  }

  /** The private bytes with their length: a fixed EBP record, or the private data if there is any, whatever the
      private-data flag says. */
  function Private(af: AdaptationField): seq<byte> {
    if af.ebp.marker then Be(15, 1) + Record(af.ebp.time)
    else if af.privateData != [] then Be(|af.privateData|, 1) + af.privateData
    else []
  }

  function Stuffing(n: nat): (bs: seq<byte>)
    ensures |bs| == n
  {
    seq(n, i => 0xff)
  }

  /** Everything between the length byte and the stuffing. */
  function Body(af: AdaptationField): seq<byte> {
    Be(Pack(Flags(af), 8), 1) + Clock(af.pcrFlag, af.pcr) + Clock(af.opcrFlag, af.opcr) + Splice(af) + Private(af)
  }

  /** The field as written when `size` bytes are set aside for it. */
  function Encode(af: AdaptationField, size: u64): seq<byte> {
    if size == 1 then Be(0, 1)
    else Be(Sub64(size, 1), 1) + Body(af) + Stuffing(Sub64(size, Size(af)))
  }

  method PackField(af: AdaptationField, s: Bytestream, size: u64) returns (n: Status)
    requires s.Ok()
    modifies s
    ensures s.Ok() && s.buffered == s.valid == old(s.buffered)
    ensures s.Out() == old(s.Out()).Add(Encode(af, size)) && n == s.Status()
  {
    ghost var o, length := s.Out(), Be(Sub64(size, 1), 1);
    s.WriteNumber(Sub64(size, 1), 1);
    if size == 1 {
      return s.Status();
    }
    PackBody(af, s);
    AddAdd(o, length, Body(af));
    var left := Sub64(size, Size(af));
    ghost var total := left;
    while left > 0
      invariant s.Ok() && s.buffered == s.valid == old(s.buffered)
      invariant left <= total
      invariant s.Out() == o.Add(length + Body(af)).Add(Stuffing(total - left))
    {
      AddAdd(o.Add(length + Body(af)), Stuffing(total - left), Be(0xff, 1));
      assert Stuffing(total - left) + Be(0xff, 1) == Stuffing(total - left + 1);
      s.WriteNumber(0xff, 1);
      left := left - 1;
    }
    AddAdd(o, length + Body(af), Stuffing(total));
    n := s.Status();
  }

  /** The part of ts_adaptation_field_pack between the length byte and the stuffing. */
  method PackBody(af: AdaptationField, s: Bytestream)
    requires s.Ok() && s.valid == s.buffered
    modifies s
    ensures s.Ok() && s.buffered == s.valid == old(s.buffered)
    ensures s.Out() == old(s.Out()).Add(Body(af))
  {
    ghost var o := s.Out();
    s.WriteNumber(Pack(Flags(af), 8), 1);
    ghost var bs := Be(Pack(Flags(af), 8), 1);
    if af.pcrFlag == 1 {
      var n := Pcr.Pack(af.pcr, s);
    }
    AddMore(o, bs, Clock(af.pcrFlag, af.pcr), s.Out());
    bs := bs + Clock(af.pcrFlag, af.pcr);
    if af.opcrFlag == 1 {
      var n := Pcr.Pack(af.opcr, s);
    }
    AddMore(o, bs, Clock(af.opcrFlag, af.opcr), s.Out());
    bs := bs + Clock(af.opcrFlag, af.opcr);
    if af.splicingFlag == 1 {
      s.WriteNumber(af.spliceCountdown, 1);
    }
    AddMore(o, bs, Splice(af), s.Out());
    bs := bs + Splice(af);
    PackPrivate(af, s);
    AddMore(o, bs, Private(af), s.Out());
  }

  lemma AddMore(o: Output, bs: seq<byte>, more: seq<byte>, now: Output)
    requires now == o.Add(bs).Add(more) || (more == [] && now == o.Add(bs))
    ensures now == o.Add(bs + more)
  {
    AddAdd(o, bs, more);
    assert more == [] ==> bs + more == bs;
  }

  method PackPrivate(af: AdaptationField, s: Bytestream)
    requires s.Ok() && s.valid == s.buffered
    modifies s
    ensures s.Ok() && s.buffered == s.valid == old(s.buffered)
    ensures s.Out() == old(s.Out()).Add(Private(af))
  {
    ghost var o := s.Out();
    if af.ebp.marker {
      s.WriteNumber(15, 1);
      s.WriteNumber(0xdf, 1);
      AddAdd(o, Be(15, 1), Be(0xdf, 1));
      s.WriteNumber(13, 1);
      AddAdd(o, Be(15, 1) + Be(0xdf, 1), Be(13, 1));
      s.Write(EBP_ID);
      AddAdd(o, Be(15, 1) + Be(0xdf, 1) + Be(13, 1), EBP_ID);
      s.WriteNumber(0x08, 1);
      AddAdd(o, Be(15, 1) + Be(0xdf, 1) + Be(13, 1) + EBP_ID, Be(0x08, 1));
      s.WriteNumber(af.ebp.time, 8);
      AddAdd(o, Be(15, 1) + Be(0xdf, 1) + Be(13, 1) + EBP_ID + Be(0x08, 1), Be(af.ebp.time, 8));
      PrivateRecord(af.ebp.time);
    } else if af.privateData != [] {
      s.WriteNumber(|af.privateData|, 1);
      s.Write(af.privateData);
      AddAdd(o, Be(|af.privateData|, 1), af.privateData);
    } else {
      AddMore(o, [], [], o);
    }
  }

  lemma PrivateRecord(time: u64)
    ensures Be(15, 1) + Be(0xdf, 1) + Be(13, 1) + EBP_ID + Be(0x08, 1) + Be(time, 8) == Be(15, 1) + Record(time)
  {
    hide Be;
  }

  // ---- unpacking ----

  datatype Decoded = Decoded(status: Status, af: AdaptationField, rest: Input)

  /** ts_ebp_unpack, on a record that has just been constructed. */
  function DecodeEbp(r: Input): Ebp {
    if r.Number(1) != 0xdf || r.Drop(1).Drop(1).Bytes(4) != EBP_ID then NO_EBP
    else
      var r1 := r.Drop(1).Drop(1).Drop(4);
      var flags := r1.Number(1);
      var r2 := r1.Drop(1);
      var r3 := if ReadFlag(flags, 8, 7) == 1 then r2.Drop(1) else r2;
      var r4 := if ReadFlag(flags, 8, 2) == 1 then r3.Drop(1) else r3;
      var r5 := if ReadFlag(flags, 8, 3) == 1 then r4.Drop(2) else r4;
      Number64(r5);
      Ebp(true, if ReadFlag(flags, 8, 4) == 1 then r5.Number(8) else 0)
  }

  lemma Number64(r: Input)
    ensures r.Number(8) < 0x1_0000_0000_0000_0000
  {
    BeOfFromBe(r.Bytes(8));
    Pow2Values();
    Pow2Add(32, 32);
  }

  lemma Number8(r: Input)
    ensures r.Number(1) < 256
  {
    FromBeOne(r.Bytes(1));
  }

  function ReadByte(r: Input): (b: byte)
    ensures b == r.Number(1)
  {
    Number8(r);
    r.Number(1)
  }

  datatype Part = Part(af: AdaptationField, rest: Input)

  function FromFlags(flags: nat): AdaptationField {
    EMPTY.(discontinuity := ReadFlag(flags, 8, 0), randomAccess := ReadFlag(flags, 8, 1),
           priority := ReadFlag(flags, 8, 2), pcrFlag := ReadFlag(flags, 8, 3), opcrFlag := ReadFlag(flags, 8, 4),
           splicingFlag := ReadFlag(flags, 8, 5), privateFlag := ReadFlag(flags, 8, 6),
           extensionFlag := ReadFlag(flags, 8, 7))
  }

  function TakePcr(p: Part): Part {
    if p.af.pcrFlag == 1 then Part(p.af.(pcr := Pcr.Decode(p.rest)), p.rest.Drop(4).Drop(2)) else p
  }

  function TakeOpcr(p: Part): Part {
    if p.af.opcrFlag == 1 then Part(p.af.(opcr := Pcr.Decode(p.rest)), p.rest.Drop(4).Drop(2)) else p
  }

  function TakeSplice(p: Part): Part {
    if p.af.splicingFlag == 1 then Part(p.af.(spliceCountdown := ReadByte(p.rest)), p.rest.Drop(1)) else p
  }

  /** The clocks and the splice countdown, as the parser threads them. */
  function TakeTimes(a: AdaptationField, r: Input): Part {
    TakeSplice(TakeOpcr(TakePcr(Part(a, r))))
  }

  /** True when the private data length points past the end of the stream, which stops the parser. */
  predicate PrivateTooLong(p: Part) {
    p.af.privateFlag == 1 && ReadByte(p.rest) > p.rest.Drop(1).Size()
  }

  function TakePrivate(p: Part): Part {
    if p.af.privateFlag == 1 then
      var k := ReadByte(p.rest);
      var data := p.rest.Drop(1).Bytes(k);
      Part(p.af.(ebp := DecodeEbp(Open(data)), privateData := data), p.rest.Drop(1).Drop(k))
    else p
  }

  /** The rest of the field is skipped; the count is an unsigned difference. */
  function SkipRest(p: Part, len: nat, size: nat): Decoded {
    var rest := p.rest.Drop(Sub64(len, Sub64(size, p.rest.Size())));
    Decoded(Done(rest), p.af.(extensionFlag := 0), rest)
  }

  /** ts_adaptation_field_unpack into a field that has just been constructed. */
  function Decode(r0: Input): Decoded {
    var len := ReadByte(r0);
    var r := r0.Drop(1);
    if len == 0 then Decoded(Done(r), EMPTY, r)
    else
      var p := TakeTimes(FromFlags(r.Number(1)), r.Drop(1));
      if PrivateTooLong(p) then Decoded(Error, p.af, p.rest.Drop(1))
      else SkipRest(TakePrivate(p), len, r.Size())
  }

  method UnpackField(s: Bytestream) returns (n: Status, af: AdaptationField)
    requires s.Ok()
    modifies s
    ensures s.Ok() && Decoded(n, af, s.In()) == Decode(old(s.In()))
  {
    Number8(s.In());
    var len := s.ReadNumber(1);
    if len == 0 {
      return s.Status(), EMPTY;
    }
    var size := s.Size();
    var flags := s.ReadNumber(1);
    af := UnpackTimes(FromFlags(flags), s);
    var tooLong;
    tooLong, af := UnpackPrivate(af, s);
    if tooLong {
      return Error, af;
    }
    af := af.(extensionFlag := 0);
    var skipped := s.Read(Sub64(len, Sub64(size, s.Size())));
    n := s.Status();
  }

  /** The part of ts_adaptation_field_unpack that reads the clocks and the splice countdown. */
  method UnpackTimes(flagged: AdaptationField, s: Bytestream) returns (af: AdaptationField)
    requires s.Ok()
    modifies s
    ensures s.Ok() && Part(af, s.In()) == TakeTimes(flagged, old(s.In()))
  {
    af := flagged;
    ghost var p := TakePcr(Part(af, s.In()));
    if af.pcrFlag == 1 {
      var n, pcr := Pcr.Unpack(s);
      af := af.(pcr := pcr);
    }
    assert p == Part(af, s.In());
    p := TakeOpcr(p);
    if af.opcrFlag == 1 {
      var n, opcr := Pcr.Unpack(s);
      af := af.(opcr := opcr);
    }
    assert p == Part(af, s.In());
    if af.splicingFlag == 1 {
      Number8(s.In());
      var splice := s.ReadNumber(1);
      af := af.(spliceCountdown := splice);
    }
  }

  /** The part of ts_adaptation_field_unpack that reads the private data. */
  method UnpackPrivate(before: AdaptationField, s: Bytestream) returns (tooLong: bool, af: AdaptationField)
    requires s.Ok()
    modifies s
    ensures s.Ok() && tooLong == PrivateTooLong(Part(before, old(s.In())))
    ensures tooLong ==> af == before && s.In() == old(s.In()).Drop(1)
    ensures !tooLong ==> Part(af, s.In()) == TakePrivate(Part(before, old(s.In())))
  {
    af := before;
    if af.privateFlag == 1 {
      Number8(s.In());
      var k := s.ReadNumber(1);
      if k > s.Size() {
        return true, af;
      }
      var data := s.Read(k);
      af := af.(ebp := DecodeEbp(Open(data)), privateData := data);
    }
    tooLong := false;
  }

  // ---- properties ----

  /** Whether the size function counts the bytes that the private part of the packer writes. */
  predicate SizeAgrees(af: AdaptationField) {
    if af.ebp.marker then af.privateFlag == 1 && af.privateData == []
    else af.privateFlag == 1 <==> af.privateData != []
  }

  /** When a field set aside `size` bytes fills exactly those bytes. In every other case the stuffing count wraps or
      the private data is miscounted. */
  predicate Fits(af: AdaptationField, size: u64) {
    size == 1 || (Size(af) <= size && SizeAgrees(af))
  }

  lemma LengthExact(af: AdaptationField, size: u64)
    ensures |Encode(af, size)| == size <==> Fits(af, size)
  {
    BodyLength(af);
    if size != 1 {
      var head, body, stuffing := Be(Sub64(size, 1), 1), Body(af), Stuffing(Sub64(size, Size(af)));
      assert |Encode(af, size)| == |head| + |body| + |stuffing|;
    }
  }

  /** A field that announces private data but has none: one byte too few is written. */
  lemma MiscountedField()
    ensures
      var af := EMPTY.(privateFlag := 1);
      Size(af) == 3 && |Encode(af, 10)| == 9
  {
    var af := EMPTY.(privateFlag := 1);
    BodyLength(af);
    assert |Encode(af, 10)| == |Be(9, 1) + Body(af)| + |Stuffing(7)|;
  }

  /** How far the bytes written before the stuffing are from the bytes counted for them. */
  lemma BodyLength(af: AdaptationField)
    ensures 1 + |Body(af)| - Size(af) ==
            (if af.ebp.marker then 1 else if af.privateData != [] then 1 + |af.privateData| else 0)
            - (if af.privateFlag == 1 then 1 + |af.privateData| else 0)
  {
    PrivateLength(af);
    var flags, pcr, opcr, splice, data :=
      Be(Pack(Flags(af), 8), 1), Clock(af.pcrFlag, af.pcr), Clock(af.opcrFlag, af.opcr), Splice(af), Private(af);
    assert |Body(af)| == |flags| + |pcr| + |opcr| + |splice| + |data|;
  }

  lemma PrivateLength(af: AdaptationField)
    ensures |Private(af)| == if af.ebp.marker then 16 else if af.privateData != [] then 1 + |af.privateData| else 0
  {
  }

  /** The private data that is sent. */
  function Sent(af: AdaptationField): PrivateData {
    if af.ebp.marker then Record(af.ebp.time) else af.privateData
  }

  /** What survives a round trip: clocks are reduced, absent parts are zero, the extension is dropped, and the private
      data that was sent is searched for an EBP record. */
  function Norm(af: AdaptationField, size: u64): AdaptationField {
    if size == 1 then EMPTY
    else
      af.(pcr := if af.pcrFlag == 1 then af.pcr % Pcr.PCR_MODULUS else 0,
          opcr := if af.opcrFlag == 1 then af.opcr % Pcr.PCR_MODULUS else 0,
          spliceCountdown := if af.splicingFlag == 1 then af.spliceCountdown else 0,
          ebp := if af.privateFlag == 1 then DecodeEbp(Open(Sent(af))) else NO_EBP,
          privateData := if af.privateFlag == 1 then Sent(af) else [],
          extensionFlag := 0)
  }

  lemma FlagsReadBack(af: AdaptationField, tail: seq<byte>)
    ensures
      var w := Pack(Flags(af), 8);
      Open(Be(w, 1) + tail).Number(1) == w && Open(Be(w, 1) + tail).Drop(1) == Open(tail)
    ensures FromFlags(Pack(Flags(af), 8)) ==
            af.(pcr := 0, opcr := 0, spliceCountdown := 0, ebp := NO_EBP, privateData := [])
  {
    hide Be, Pack, Pow2;
    var fs := Flags(af);
    var w := Pack(fs, 8);
    PackBound(fs, 8);
    Pow2Values();
    ReadBackNumber(w, 1, tail);
    forall i: nat | i < 8
      ensures ReadFlag(w, 8, i) == fs[i].value
    {
      ReadAt(fs, 8, i, fs[i].value, i, 1);
    }
    assert ReadFlag(w, 8, 0) == fs[0].value && ReadFlag(w, 8, 1) == fs[1].value && ReadFlag(w, 8, 2) == fs[2].value;
    assert ReadFlag(w, 8, 3) == fs[3].value && ReadFlag(w, 8, 4) == fs[4].value && ReadFlag(w, 8, 5) == fs[5].value;
    assert ReadFlag(w, 8, 6) == fs[6].value && ReadFlag(w, 8, 7) == fs[7].value;
  }

  lemma PcrReadsBack(a: AdaptationField, value: u64, tail: seq<byte>)
    ensures TakePcr(Part(a, Open(Clock(a.pcrFlag, value) + tail))) ==
            Part(if a.pcrFlag == 1 then a.(pcr := value % Pcr.PCR_MODULUS) else a, Open(tail))
  {
    Pcr.RoundTrip(value, tail);
    assert [] + tail == tail;
  }

  lemma OpcrReadsBack(a: AdaptationField, value: u64, tail: seq<byte>)
    ensures TakeOpcr(Part(a, Open(Clock(a.opcrFlag, value) + tail))) ==
            Part(if a.opcrFlag == 1 then a.(opcr := value % Pcr.PCR_MODULUS) else a, Open(tail))
  {
    Pcr.RoundTrip(value, tail);
    assert [] + tail == tail;
  }

  lemma ByteReadsBack(b: byte, tail: seq<byte>)
    ensures ReadByte(Open(Be(b, 1) + tail)) == b && Open(Be(b, 1) + tail).Drop(1) == Open(tail)
  {
    Pow2Values();
    ReadBackNumber(b, 1, tail);
  }

  lemma SpliceReadsBack(a: AdaptationField, af: AdaptationField, tail: seq<byte>)
    requires a.splicingFlag == af.splicingFlag
    ensures TakeSplice(Part(a, Open(Splice(af) + tail))) ==
            Part(if a.splicingFlag == 1 then a.(spliceCountdown := af.spliceCountdown) else a, Open(tail))
  {
    ByteReadsBack(af.spliceCountdown, tail);
    assert [] + tail == tail;
  }

  lemma RecordBytes(time: u64)
    ensures Open(Record(time)).Number(1) == 0xdf
    ensures
      var r := Open(Record(time)).Drop(1);
      && r.Drop(1) == Open(EBP_ID + (Be(0x08, 1) + Be(time, 8)))
      && r.Drop(1).Bytes(4) == EBP_ID
      && r.Drop(1).Drop(4) == Open(Be(0x08, 1) + Be(time, 8))
  {
    hide Be;
    var t := EBP_ID + (Be(0x08, 1) + Be(time, 8));
    assert Record(time) == Be(0xdf, 1) + (Be(13, 1) + t);
    ByteReadsBack(0xdf, Be(13, 1) + t);
    ByteReadsBack(13, t);
    ReadBack(EBP_ID, Be(0x08, 1) + Be(time, 8));
  }

  lemma RecordTime(time: u64)
    ensures
      var r := Open(Be(0x08, 1) + Be(time, 8));
      r.Number(1) == 0x08 && r.Drop(1).Number(8) == time
  {
    hide Be, Pow2;
    ByteReadsBack(0x08, Be(time, 8));
    assert Be(time, 8) + [] == Be(time, 8);
    Pow2Values();
    Pow2Add(32, 32);
    ReadBackNumber(time, 8, []);
  }

  lemma RecordFlags()
    ensures ReadFlag(0x08, 8, 7) == 0 && ReadFlag(0x08, 8, 2) == 0 && ReadFlag(0x08, 8, 3) == 0
            && ReadFlag(0x08, 8, 4) == 1
  {
    Pow2Values();
  }

  /** The record the packer writes is read as an EBP record with the same time. */
  lemma RecordReadsBack(time: u64)
    ensures DecodeEbp(Open(Record(time))) == Ebp(true, time)
  {
    RecordBytes(time);
    RecordTime(time);
    RecordFlags();
    hide Be, Record, ReadFlag;
  }

  lemma PrivateIs(af: AdaptationField)
    requires SizeAgrees(af)
    ensures Private(af) == if af.privateFlag == 1 then Be(|Sent(af)|, 1) + Sent(af) else []
  {
  }

  lemma PrivateReadsBack(a: AdaptationField, af: AdaptationField, tail: seq<byte>)
    requires a.privateFlag == af.privateFlag && SizeAgrees(af)
    requires a.privateData == [] && a.ebp == NO_EBP
    ensures
      var p := Part(a, Open(Private(af) + tail));
      !PrivateTooLong(p) &&
      TakePrivate(p) == Part(a.(privateData := if a.privateFlag == 1 then Sent(af) else [],
                                ebp := if a.privateFlag == 1 then DecodeEbp(Open(Sent(af))) else NO_EBP), Open(tail))
  {
    PrivateIs(af);
    hide Be, Private, Sent;
    if af.privateFlag == 1 {
      var data := Sent(af);
      assert Be(|data|, 1) + data + tail == Be(|data|, 1) + (data + tail);
      ByteReadsBack(|data|, data + tail);
      ReadBack(data, tail);
    } else {
      assert [] + tail == tail;
    }
  }

  lemma SkipsStuffing(p: Part, len: nat, stuffing: seq<byte>, before: nat, tail: seq<byte>)
    requires p.rest == Open(stuffing + tail) && len == before + |stuffing| < 256
    requires before + |stuffing| + |tail| < 0x1_0000_0000_0000_0000
    ensures SkipRest(p, len, before + |stuffing| + |tail|) ==
            Decoded(Success, p.af.(extensionFlag := 0), Open(tail))
  {
    ReadBack(stuffing, tail);
  }

  lemma TimesReadBack(af: AdaptationField, tail: seq<byte>)
    ensures
      var a := FromFlags(Pack(Flags(af), 8));
      var input := Clock(af.pcrFlag, af.pcr) + (Clock(af.opcrFlag, af.opcr) + (Splice(af) + tail));
      TakeTimes(a, Open(input)) ==
      Part(Norm(af, 0).(ebp := NO_EBP, privateData := [], extensionFlag := af.extensionFlag), Open(tail))
  {
    FlagsReadBack(af, tail);
    var a0 := FromFlags(Pack(Flags(af), 8));
    var t2 := Splice(af) + tail;
    var t1 := Clock(af.opcrFlag, af.opcr) + t2;
    PcrReadsBack(a0, af.pcr, t1);
    var p1 := TakePcr(Part(a0, Open(Clock(af.pcrFlag, af.pcr) + t1)));
    OpcrReadsBack(p1.af, af.opcr, t2);
    var p2 := TakeOpcr(p1);
    SpliceReadsBack(p2.af, af, tail);
  }

  /** What follows the flags in a field. */
  function Fields(af: AdaptationField, tail: seq<byte>): seq<byte> {
    Clock(af.pcrFlag, af.pcr) + (Clock(af.opcrFlag, af.opcr) + (Splice(af) + (Private(af) + tail)))
  }

  lemma FieldsReadBack(af: AdaptationField, tail: seq<byte>)
    requires SizeAgrees(af)
    ensures
      var p := TakeTimes(FromFlags(Pack(Flags(af), 8)), Open(Fields(af, tail)));
      && !PrivateTooLong(p)
      && TakePrivate(p) == Part(Norm(af, 0).(extensionFlag := af.extensionFlag), Open(tail))
  {
    hide Be, Pack, Pow2;
    TimesReadBack(af, Private(af) + tail);
    var p := TakeTimes(FromFlags(Pack(Flags(af), 8)), Open(Fields(af, tail)));
    PrivateReadsBack(p.af, af, tail);
  }

  /** A field that fits the room set aside for it reads back in normal form, and exactly its bytes are consumed. */
  lemma RoundTrip(af: AdaptationField, size: u64, tail: seq<byte>)
    requires 0 < size <= 256 && Fits(af, size)
    requires |tail| + size < 0x1_0000_0000_0000_0000
    ensures Decode(Open(Encode(af, size) + tail)) == Decoded(Success, Norm(af, size), Open(tail))
  {
    if size == 1 {
      ByteReadsBack(0, tail);
    } else {
      LongFieldReadsBack(af, size, tail);
    }
  }

  lemma LongFieldReadsBack(af: AdaptationField, size: u64, tail: seq<byte>)
    requires 1 < size <= 256 && Fits(af, size)
    requires |tail| + size < 0x1_0000_0000_0000_0000
    ensures Decode(Open(Encode(af, size) + tail)) == Decoded(Success, Norm(af, size), Open(tail))
  {
    hide Be, Pack, Pow2, Clock, Splice, Private, TakeTimes, TakePrivate, PrivateTooLong, FromFlags, Size;
    var stuffing, w := Stuffing(Sub64(size, Size(af))), Pack(Flags(af), 8);
    var t := Fields(af, stuffing + tail);
    assert Encode(af, size) + tail == Be(size - 1, 1) + (Be(w, 1) + t) by {
      Regroup(Be(size - 1, 1), Be(w, 1), Clock(af.pcrFlag, af.pcr), Clock(af.opcrFlag, af.opcr), Splice(af),
              Private(af), stuffing, tail);
    }
    assert |Be(w, 1) + t| == size - 1 + |tail| by {
      LengthExact(af, size);
      assert |Be(size - 1, 1) + (Be(w, 1) + t)| == size + |tail|;
    }
    ByteReadsBack(size - 1, Be(w, 1) + t);
    FlagsReadBack(af, t);
    FieldsReadBack(af, stuffing + tail);
    SkipsStuffing(TakePrivate(TakeTimes(FromFlags(w), Open(t))), size - 1, stuffing, size - 1 - |stuffing|, tail);
  }

  lemma Regroup(a: seq<byte>, b: seq<byte>, c: seq<byte>, d: seq<byte>, e: seq<byte>, f: seq<byte>, g: seq<byte>,
                t: seq<byte>)
    ensures a + (b + c + d + e + f) + g + t == a + (b + (c + (d + (e + (f + (g + t))))))
  {
  }

  /** Packing what was unpacked gives the same bytes again, exactly when no extension was announced and the private data
      was not taken for an EBP record, or the field is the single byte that holds nothing. */
  lemma Repack(af: AdaptationField, size: u64)
    requires Fits(af, size)
    ensures Encode(Norm(af, size), size) == Encode(af, size) <==> Repacks(af, size)
  {
    if size != 1 {
      var n := Norm(af, size);
      if af.extensionFlag == 1 {
        FlagsTell(af, size);
        FlagsTell(n, size);
      } else if af.privateFlag == 1 && n.ebp.marker {
        LengthExact(af, size);
        LengthExact(n, size);
        SentIsNotEmpty(af);
      } else {
        SameBody(af);
      }
    }
  }

  lemma NormSize(af: AdaptationField)
    requires SizeAgrees(af)
    ensures
      var n := Norm(af, 0);
      1 + |Body(n)| <= Size(n) < 300
  {
    var n := Norm(af, 0);
    BodyLength(n);
    if n.ebp.marker {
      SentIsNotEmpty(af);
    }
    hide Body;
  }

  predicate EndsInStuffing(s: seq<byte>, k: nat) {
    256 <= k <= |s| && s[|s| - k..] == Stuffing(k)
  }

  /** A field that counts more than it writes does not become longer than its size, or ends in stuffing whose count has
      wrapped. */
  lemma OvercountedLength(n: AdaptationField, size: u64)
    requires size != 1 && 1 + |Body(n)| <= Size(n) < 300
    ensures |Encode(n, size)| <= size || EndsInStuffing(Encode(n, size), Sub64(size, Size(n)))
  {
    var head, k := Be(Sub64(size, 1), 1) + Body(n), Sub64(size, Size(n));
    assert Encode(n, size) == head + Stuffing(k) && |head| == 1 + |Body(n)|;
    StuffingCount(size, Size(n), |Body(n)|);
    hide Body, Size, Sub64, Be, Encode;
    SplitEnd(head, Stuffing(k));
  }

  lemma StuffingCount(size: u64, counted: nat, body: nat)
    requires 1 + body <= counted < 300
    ensures 1 + body + Sub64(size, counted) <= size || Sub64(size, counted) >= 256
  {
    if counted > size {
      assert Sub64(size, counted) == 0x1_0000_0000_0000_0000 + size - counted;
    } else {
      assert Sub64(size, counted) == size - counted;
    }
  }

  lemma SplitEnd(head: seq<byte>, end: seq<byte>)
    ensures (head + end)[|head + end| - |end|..] == end
  {
  }

  predicate Repacks(af: AdaptationField, size: u64) {
    size == 1 || (af.extensionFlag == 0 && !(af.privateFlag == 1 && DecodeEbp(Open(Sent(af))).marker))
  }

  /** A record that was found is not empty, so it is counted twice. */
  lemma SentIsNotEmpty(af: AdaptationField)
    requires DecodeEbp(Open(Sent(af))).marker
    ensures Sent(af) != []
  {
    assert Open([]).Number(1) == 0 by { FromBeOfZeros(1); }
  }

  /** The flags are the second byte of the field. */
  lemma FlagsTell(af: AdaptationField, size: u64)
    requires size != 1
    ensures |Encode(af, size)| >= 2 && FromFlags(Encode(af, size)[1]).extensionFlag == af.extensionFlag
  {
    var w := Pack(Flags(af), 8);
    FlagsReadBack(af, []);
    hide FromFlags, Flags, Pack, Pow2, Clock, Splice, Private;
    assert Be(w, 1) + [] == Be(w, 1);
    assert Body(af)[0] == Be(w, 1)[0] && Encode(af, size)[1] == Body(af)[0];
    FirstOfOne(w);
  }

  lemma FirstOfOne(w: nat)
    ensures Open(Be(w, 1)).Number(1) == Be(w, 1)[0]
  {
    FromBeOne(Be(w, 1));
    assert Be(w, 1)[..1] == Be(w, 1);
  }

  lemma SameBody(af: AdaptationField)
    requires SizeAgrees(af) && af.extensionFlag == 0 && !(af.privateFlag == 1 && DecodeEbp(Open(Sent(af))).marker)
    ensures Body(Norm(af, 0)) == Body(af) && Size(Norm(af, 0)) == Size(af)
  {
    Pcr.EncodeOfReduced(af.pcr);
    Pcr.EncodeOfReduced(af.opcr);
    if af.ebp.marker {
      RecordReadsBack(af.ebp.time);
    }
  }
}
