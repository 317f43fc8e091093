/** Packetized elementary stream packets (src/ts/ts_pes.c; section 2.4.3.6 of ISO/IEC 13818-1). */
module PesPackets {
  import opened Words
  import opened Bytestreams
  import P = TsPackets
  import AF = AdaptationFields

  datatype Pes = Pes(
    streamId: byte,
    scrambling: P.twobits,
    priority: bit,
    alignment: bit,
    copyright: bit,
    original: bit,
    ptsFlag: bit,
    dtsFlag: bit,
    pts: u64,
    dts: u64,
    data: seq<byte>,
    randomAccess: bit)

  /** ts_pes_construct. */
  const EMPTY := Pes(0, 0, 0, 0, 0, 0, 0, 0, 0, 0, [], 0)

  const STAMP_MODULUS := 0x2_0000_0000

  // ---- time stamps ----

  function HighFields(t: u64, ptsFlag: bit, dtsFlag: bit): seq<Field> {
    [Field(ptsFlag, 2, 1), Field(dtsFlag, 3, 1), Field(t / 0x4000_0000, 4, 3), Field(1, 7, 1)]
  }

  function LowFields(t: u64): seq<Field> {
    [Field(t / 0x8000, 0, 15), Field(1, 15, 1), Field(t, 16, 15), Field(1, 31, 1)]
  }

  function HighWord(t: u64, ptsFlag: bit, dtsFlag: bit): nat {
    Pack(HighFields(t, ptsFlag, dtsFlag), 8)
  }

  function LowWord(t: u64): nat {
    Pack(LowFields(t), 32)
  }

  /** The five bytes of a time stamp. */
  function Stamp(t: u64, ptsFlag: bit, dtsFlag: bit): seq<byte> {
    Be(HighWord(t, ptsFlag, dtsFlag), 1) + Be(LowWord(t), 4)
  }

  method PackStamp(t: u64, s: Bytestream, ptsFlag: bit, dtsFlag: bit)
    requires s.Ok()
    modifies s
    ensures s.Ok() && s.buffered == s.valid == old(s.buffered)
    ensures s.Out() == old(s.Out()).Add(Stamp(t, ptsFlag, dtsFlag))
  {
    hide Be, HighWord, LowWord;
    ghost var o := s.Out();
    s.WriteNumber(HighWord(t, ptsFlag, dtsFlag), 1);
    s.WriteNumber(LowWord(t), 4);
    AddAdd(o, Be(HighWord(t, ptsFlag, dtsFlag), 1), Be(LowWord(t), 4));
  }

  function ReadThree(v: nat): nat {
    ReadBits(v, 8, 4, 3)
  }

  function ReadFifteen(v: nat): nat {
    ReadBits(v, 16, 0, 15)
  }

  lemma StampInRange(a: nat, b: nat, c: nat)
    ensures (ReadThree(a) * 0x8000 + ReadFifteen(b)) * 0x8000 + ReadFifteen(c) < STAMP_MODULUS
  {
    Pow2Values();
  }

  function DecodeStamp(r: Input): u64 {
    var a, b, c := r.Number(1), r.Drop(1).Number(2), r.Drop(1).Drop(2).Number(2);
    StampInRange(a, b, c);
    (ReadThree(a) * 0x8000 + ReadFifteen(b)) * 0x8000 + ReadFifteen(c)
  }

  function AfterStamp(r: Input): Input {
    r.Drop(1).Drop(2).Drop(2)
  }

  method UnpackStamp(s: Bytestream) returns (n: Status, t: u64)
    requires s.Ok()
    modifies s
    ensures s.Ok() && t == DecodeStamp(old(s.In())) && s.In() == AfterStamp(old(s.In())) && n == Done(s.In())
  {
    hide ReadThree, ReadFifteen;
    var a := s.ReadNumber(1);
    var b := s.ReadNumber(2);
    var c := s.ReadNumber(2);
    StampInRange(a, b, c);
    t := (ReadThree(a) * 0x8000 + ReadFifteen(b)) * 0x8000 + ReadFifteen(c);
    n := s.Status();
  }

  // ---- packing ----

  predicate Video(id: byte) {
    0xe0 <= id < 0xf0
  }

  /** Padding and private_stream_2 packets have no header. */
  predicate Headerless(id: byte) {
    id == 0xbe || id == 0xbf
  }

  function HeaderSize(pes: Pes): nat {
    3 + (if pes.ptsFlag == 1 then 5 else 0) + (if pes.dtsFlag == 1 then 5 else 0)
  }

  function StartFields(id: byte): seq<Field> {
    [Field(1, 23, 1), Field(id, 24, 8)]
  }

  function FlagFields(pes: Pes): seq<Field> {
    [Field(0x02, 0, 2), Field(pes.alignment, 5, 1), Field(pes.ptsFlag, 8, 1), Field(pes.dtsFlag, 9, 1)]
  }

  function StartWord(id: byte): nat {
    Pack(StartFields(id), 32)
  }

  function FlagWord(pes: Pes): nat {
    Pack(FlagFields(pes), 16)
  }

  function PtsBytes(pes: Pes): seq<byte> {
    if pes.ptsFlag == 1 then Stamp(pes.pts, pes.ptsFlag, pes.dtsFlag) else []
  }

  function DtsBytes(pes: Pes): seq<byte> {
    if pes.dtsFlag == 1 then Stamp(pes.dts, 0, pes.dtsFlag) else []
  }

  function HeaderBytes(pes: Pes): seq<byte> {
    Be(FlagWord(pes), 2) + Be(HeaderSize(pes) - 3, 1) + PtsBytes(pes) + DtsBytes(pes)
  }

  /** The packet length as the source computes it, in an int; a video packet that is too long gets length zero. */
  function Length(pes: Pes): int {
    var len := Int32(HeaderSize(pes) + |pes.data|);
    if Video(pes.streamId) && len >= 0x1_0000 then 0 else len
  }

  predicate Refused(pes: Pes) {
    Length(pes) >= 0x1_0000
  }

  function Body(pes: Pes): seq<byte> {
    (if Headerless(pes.streamId) then [] else HeaderBytes(pes)) + pes.data
  }

  function Encode(pes: Pes): seq<byte> {
    Be(StartWord(pes.streamId), 4) + Be(Length(pes) % 0x1_0000, 2) + Body(pes)
  }

  method PackHeader(pes: Pes, s: Bytestream) returns (n: Status)
    requires s.Ok()
    modifies s
    ensures s.Ok() && s.buffered == s.valid == old(s.buffered) && n == s.Status()
    ensures s.Out() == old(s.Out()).Add(HeaderBytes(pes))
  {
    hide Be, FlagWord, Stamp;
    ghost var o := s.Out();
    ghost var bs := Be(FlagWord(pes), 2) + Be(HeaderSize(pes) - 3, 1);
    s.WriteNumber(FlagWord(pes), 2);
    s.WriteNumber(HeaderSize(pes) - 3, 1);
    AddAdd(o, Be(FlagWord(pes), 2), Be(HeaderSize(pes) - 3, 1));
    if pes.ptsFlag == 1 {
      PackStamp(pes.pts, s, pes.ptsFlag, pes.dtsFlag);
    }
    AF.AddMore(o, bs, PtsBytes(pes), s.Out());
    if pes.dtsFlag == 1 {
      PackStamp(pes.dts, s, 0, pes.dtsFlag);
    }
    AF.AddMore(o, bs + PtsBytes(pes), DtsBytes(pes), s.Out());
    n := s.Status();
  }

  /** ts_pes_pack_stream. A refused packet leaves its start code behind. */
  method PackPes(pes: Pes, s: Bytestream) returns (n: Status)
    requires s.Ok()
    modifies s
    ensures s.Ok() && s.buffered == old(s.buffered)
    ensures n == if Refused(pes) || !s.buffered then Error else Success
    ensures s.Out() == old(s.Out()).Add(if Refused(pes) then Be(StartWord(pes.streamId), 4) else Encode(pes))
  {
    hide Be, StartWord, HeaderBytes, HeaderSize;
    ghost var o := s.Out();
    ghost var start, length := Be(StartWord(pes.streamId), 4), Be(Length(pes) % 0x1_0000, 2);
    s.WriteNumber(StartWord(pes.streamId), 4);
    var len := Int32(HeaderSize(pes) + |pes.data|);
    if Video(pes.streamId) && len >= 0x1_0000 {
      len := 0;
    }
    if len >= 0x1_0000 {
      return Error;
    }
    s.WriteNumber(len % 0x1_0000, 2);
    AddAdd(o, start, length);
    if !Headerless(pes.streamId) {
      n := PackHeader(pes, s);
      if n == Error {
        return;
      }
    }
    ghost var header := if Headerless(pes.streamId) then [] else HeaderBytes(pes);
    AF.AddMore(o, start + length, header, s.Out());
    s.Write(pes.data);
    AddAdd(o, start + length + header, pes.data);
    assert start + length + header + pes.data == Encode(pes);
    n := s.Status();
  }

  // ---- unpacking ----

  datatype Decoded = Decoded(status: Status, pes: Pes)

  datatype Part = Part(ok: bool, pes: Pes, left: nat, rest: Input)

  function FromFlags(pes: Pes, v: nat): Pes {
    pes.(scrambling := ReadScrambling(v), priority := ReadFlag(v, 16, 4), alignment := ReadFlag(v, 16, 5),
         copyright := ReadFlag(v, 16, 6), original := ReadFlag(v, 16, 7), ptsFlag := ReadFlag(v, 16, 8),
         dtsFlag := ReadFlag(v, 16, 9))
  }

  function ReadScrambling(v: nat): P.twobits {
    Pow2Values();
    ReadBits(v, 16, 2, 2)
  }

  function TakePts(p: Part): Part {
    if !p.ok || p.pes.ptsFlag == 0 then p
    else
      var rest := AfterStamp(p.rest);
      if p.left < 5 || rest.Failed? then Part(false, p.pes, 0, rest)
      else Part(true, p.pes.(pts := DecodeStamp(p.rest)), p.left - 5, rest)
  }

  function TakeDts(p: Part): Part {
    if !p.ok || p.pes.dtsFlag == 0 then p
    else
      var rest := AfterStamp(p.rest);
      if p.left < 5 || rest.Failed? then Part(false, p.pes, 0, rest)
      else Part(true, p.pes.(dts := DecodeStamp(p.rest)), p.left - 5, rest)
  }

  /** The header of a packet that has one. */
  function DecodeHeader(pes: Pes, r: Input): Part {
    var v := r.Number(2);
    if ReadBits(v, 16, 0, 2) != 2 then Part(false, pes, 0, r.Drop(2))
    else
      SkipLeft(TakeDts(TakePts(Part(true, FromFlags(pes, v), AF.ReadByte(r.Drop(2)), r.Drop(2).Drop(1)))))
  }

  function SkipLeft(p: Part): Part {
    if !p.ok then p else Part(true, p.pes, 0, p.rest.Drop(p.left))
  }

  lemma SkipsLeft(p: Part)
    ensures SkipLeft(p).ok == p.ok
    ensures p.ok ==> SkipLeft(p) == Part(true, p.pes, 0, p.rest.Drop(p.left))
  {
  }

  predicate LengthBad(id: byte, len: nat, size: nat) {
    (!Video(id) && len == 0) || (len != 0 && len != size)
  }

  /** ts_pes_unpack_stream into a packet that has just been constructed; what it holds after an error is thrown away. */
  function Decode(r: Input): Decoded {
    var v := r.Number(4);
    if ReadBits(v, 32, 0, 24) != 1 then Decoded(Error, EMPTY)
    else
      var pes := EMPTY.(streamId := ReadId(v));
      var r2 := r.Drop(4).Drop(2);
      if LengthBad(pes.streamId, r.Drop(4).Number(2), r2.Size()) then Decoded(Error, EMPTY)
      else
        var p := if Headerless(pes.streamId) then Part(true, pes, 0, r2) else DecodeHeader(pes, r2);
        if !p.ok || p.rest.Failed? then Decoded(Error, EMPTY)
        else Decoded(Success, p.pes.(data := p.rest.rest))
  }

  /** Nothing is ever incomplete: a packet parses or it does not. */
  lemma DecodeStatus(r: Input)
    ensures Decode(r).status != Incomplete
  {
    hide DecodeHeader, ReadId, ReadBits;
  }

  function ReadId(v: nat): byte {
    Pow2Values();
    ReadBits(v, 32, 24, 8)
  }

  method UnpackPes(s: Bytestream) returns (n: Status, pes: Pes)
    requires s.Ok()
    modifies s
    ensures s.Ok() && n == Decode(old(s.In())).status && (n == Success ==> pes == Decode(old(s.In())).pes)
  {
    hide ReadBits, ReadId, DecodeHeader;
    pes := EMPTY;
    var v := s.ReadNumber(4);
    if ReadBits(v, 32, 0, 24) != 1 {
      return Error, pes;
    }
    pes := pes.(streamId := ReadId(v));
    var len := s.ReadNumber(2);
    if LengthBad(pes.streamId, len, s.Size()) {
      return Error, pes;
    }
    if !Headerless(pes.streamId) {
      var ok;
      ok, pes := UnpackHeader(pes, s);
      if !ok {
        return Error, pes;
      }
    }
    if !s.valid {
      return Error, pes;
    }
    pes := pes.(data := s.data[s.begin..s.end]);
    n := Success;
  }

  method UnpackHeader(before: Pes, s: Bytestream) returns (ok: bool, pes: Pes)
    requires s.Ok()
    modifies s
    ensures s.Ok()
    ensures var p := DecodeHeader(before, old(s.In())); ok == p.ok && (ok ==> pes == p.pes && s.In() == p.rest)
  {
    hide FromFlags, DecodeStamp, AfterStamp;
    pes := before;
    ghost var header := DecodeHeader(before, s.In());
    var v := s.ReadNumber(2);
    if ReadBits(v, 16, 0, 2) != 2 {
      return false, pes;
    }
    pes := FromFlags(pes, v);
    ghost var r := s.In();
    AF.Number8(r);
    var len := s.ReadNumber(1);
    ghost var p := TakePts(Part(true, pes, AF.ReadByte(r), s.In()));
    assert header == SkipLeft(TakeDts(p));
    hide DecodeHeader, SkipLeft;
    if pes.ptsFlag == 1 {
      var n, pts := UnpackStamp(s);
      if n == Error || len < 5 || !s.valid {
        return false, pes;
      }
      pes := pes.(pts := pts);
      len := len - 5;
    }
    assert p == Part(true, pes, len, s.In());
    hide TakePts;
    ghost var q := TakeDts(p);
    SkipsLeft(q);
    if pes.dtsFlag == 1 {
      var n, dts := UnpackStamp(s);
      if n == Error || len < 5 || !s.valid {
        return false, pes;
      }
      pes := pes.(dts := dts);
      len := len - 5;
    }
    assert q == Part(true, pes, len, s.In());
    hide TakeDts;
    var skipped := s.Read(len);
    ok := true;
  }

  // ---- properties ----

  lemma FirstWords(t: u64)
    ensures LowWord(t) < 0x1_0000_0000
    ensures Be(LowWord(t), 4) == Be(LowWord(t) / 0x1_0000, 2) + Be(LowWord(t) % 0x1_0000, 2)
  {
    var fs := LowFields(t);
    PackBound(fs, 32);
    Pow2Values();
    hide Pack;
    SplitFour(LowWord(t));
  }

  lemma SplitFour(w: nat)
    ensures Be(w, 4) == Be(w / 0x1_0000, 2) + Be(w % 0x1_0000, 2)
  {
    assert w / 256 / 256 == w / 0x1_0000;
    assert w % 0x1_0000 % 256 == w % 256 && w % 0x1_0000 / 256 % 256 == w / 256 % 256;
    assert Be(w, 4) == Be(w / 256 / 256, 2) + [w / 256 % 256] + [w % 256];
    assert Be(w % 0x1_0000, 2) == [w % 0x1_0000 / 256 % 256] + [w % 0x1_0000 % 256];
  }

  lemma LowWordReadsBack(t: u64)
    ensures ReadFifteen(LowWord(t) / 0x1_0000) == t / 0x8000 % 0x8000
    ensures ReadFifteen(LowWord(t) % 0x1_0000) == t % 0x8000
  {
    hide Pack, Pow2, ReadBits;
    var fs, w := LowFields(t), LowWord(t);
    Pow2Values();
    ReadLowAt(fs, 32, 0, t / 0x8000, 0, 15);
    ReadLowAt(fs, 32, 2, t, 16, 15);
    ReadBitsOfHigh(w / 0x1_0000, w % 0x1_0000, 16, 16, 0, 15);
    ReadBitsOfLow(w / 0x1_0000, w % 0x1_0000, 16, 16, 16, 15);
  }

  lemma HighWordReadsBack(t: u64, ptsFlag: bit, dtsFlag: bit)
    ensures HighWord(t, ptsFlag, dtsFlag) < 256 && ReadThree(HighWord(t, ptsFlag, dtsFlag)) == t / 0x4000_0000 % 8
  {
    hide Pack, Pow2, ReadBits;
    var fs := HighFields(t, ptsFlag, dtsFlag);
    Pow2Values();
    PackBound(fs, 8);
    ReadLowAt(fs, 8, 2, t / 0x4000_0000, 4, 3);
  }

  lemma JoinParts(t: nat)
    ensures ((t / 0x4000_0000 % 8) * 0x8000 + t / 0x8000 % 0x8000) * 0x8000 + t % 0x8000 == t % STAMP_MODULUS
  {
    DivDiv(t, 0x8000, 0x8000);
    DivDiv(t, 0x4000_0000, 8);
  }

  /** For every 64-bit value, whichever bits its shifts drop, a time stamp comes back modulo 2^33. */
  lemma StampRoundTrip(t: u64, ptsFlag: bit, dtsFlag: bit, tail: seq<byte>)
    ensures |Stamp(t, ptsFlag, dtsFlag)| == 5
    ensures DecodeStamp(Open(Stamp(t, ptsFlag, dtsFlag) + tail)) == t % STAMP_MODULUS
    ensures AfterStamp(Open(Stamp(t, ptsFlag, dtsFlag) + tail)) == Open(tail)
  {
    FirstWords(t);
    HighWordReadsBack(t, ptsFlag, dtsFlag);
    LowWordReadsBack(t);
    JoinParts(t);
    hide Be, HighWord, LowWord, ReadThree, ReadFifteen;
    var w := LowWord(t);
    var a, b, c := Be(HighWord(t, ptsFlag, dtsFlag), 1), Be(w / 0x1_0000, 2), Be(w % 0x1_0000, 2);
    assert Stamp(t, ptsFlag, dtsFlag) + tail == a + (b + (c + tail));
    Pow2Values();
    ReadBackNumber(HighWord(t, ptsFlag, dtsFlag), 1, b + (c + tail));
    ReadBackNumber(w / 0x1_0000, 2, c + tail);
    ReadBackNumber(w % 0x1_0000, 2, tail);
  }

  /** Exactly when packing refuses: a packet that is not video and whose length, taken as an int, reaches 65536. Below
      2 GB that is the length itself; beyond, the int wraps. */
  lemma RefusedExactly(pes: Pes)
    ensures
      var n := HeaderSize(pes) + |pes.data|;
      && (Refused(pes) <==> !Video(pes.streamId) && 0x1_0000 <= n % 0x1_0000_0000 < 0x8000_0000)
      && (n < 0x8000_0000 ==> (Refused(pes) <==> !Video(pes.streamId) && n >= 0x1_0000))
  {
  }

  /** What survives a round trip: the bits the packer writes as zero are zero, and stamps are reduced. */
  function Norm(pes: Pes): Pes {
    pes.(scrambling := 0, priority := 0, copyright := 0, original := 0, randomAccess := 0,
         pts := if pes.ptsFlag == 1 then pes.pts % STAMP_MODULUS else 0,
         dts := if pes.dtsFlag == 1 then pes.dts % STAMP_MODULUS else 0)
  }

  lemma StartReadsBack(id: byte)
    ensures StartWord(id) < 0x1_0000_0000 && ReadId(StartWord(id)) == id && ReadBits(StartWord(id), 32, 0, 24) == 1
  {
    hide Pack, Pow2;
    var fs, w := StartFields(id), StartWord(id);
    Pow2Values();
    PackBound(fs, 32);
    ReadAt(fs, 32, 1, id, 24, 8);
    ReadGap(fs, 32, 0, 23);
    ReadAt(fs, 32, 0, 1, 23, 1);
    TopTwentyFour(w);
  }

  /** A 24-bit prefix is its upper 23 bits and its last bit. */
  lemma TopTwentyFour(w: nat)
    requires w < 0x1_0000_0000
    ensures ReadBits(w, 32, 0, 24) == 2 * ReadBits(w, 32, 0, 23) + ReadBits(w, 32, 23, 1)
  {
    Pow2Values();
    Pow2Add(8, 1);
    Pow2Add(16, 7);
    DivModUnique(w / 512, Pow2(23), 0, w / 512);
    DivModUnique(w / 256, Pow2(24), 0, w / 256);
  }

  lemma FlagsReadBack(pes: Pes)
    ensures
      var w := FlagWord(pes);
      && w < 0x1_0000 && ReadBits(w, 16, 0, 2) == 2
      && FromFlags(EMPTY.(streamId := pes.streamId), w) ==
         EMPTY.(streamId := pes.streamId, alignment := pes.alignment, ptsFlag := pes.ptsFlag, dtsFlag := pes.dtsFlag)
  {
    hide Pack, Pow2, ReadBits;
    var fs := FlagFields(pes);
    Pow2Values();
    PackBound(fs, 16);
    ReadAt(fs, 16, 0, 0x02, 0, 2);
    ReadAt(fs, 16, 1, pes.alignment, 5, 1);
    ReadAt(fs, 16, 2, pes.ptsFlag, 8, 1);
    ReadAt(fs, 16, 3, pes.dtsFlag, 9, 1);
    ReadGap(fs, 16, 2, 2);
    ReadGap(fs, 16, 4, 1);
    ReadGap(fs, 16, 6, 1);
    ReadGap(fs, 16, 7, 1);
  }

  lemma PtsReadsBack(p: Part, pes: Pes, tail: seq<byte>)
    requires p.ok && p.pes.ptsFlag == pes.ptsFlag && p.rest == Open(PtsBytes(pes) + tail) && p.left >= |PtsBytes(pes)|
    requires p.pes.pts == 0
    ensures TakePts(p) == Part(true, p.pes.(pts := Norm(pes).pts), p.left - |PtsBytes(pes)|, Open(tail))
  {
    hide Stamp, DecodeStamp, AfterStamp;
    StampRoundTrip(pes.pts, pes.ptsFlag, pes.dtsFlag, tail);
    assert [] + tail == tail;
  }

  lemma DtsReadsBack(p: Part, pes: Pes, tail: seq<byte>)
    requires p.ok && p.pes.dtsFlag == pes.dtsFlag && p.rest == Open(DtsBytes(pes) + tail) && p.left >= |DtsBytes(pes)|
    requires p.pes.dts == 0
    ensures TakeDts(p) == Part(true, p.pes.(dts := Norm(pes).dts), p.left - |DtsBytes(pes)|, Open(tail))
  {
    hide Stamp, DecodeStamp, AfterStamp;
    StampRoundTrip(pes.dts, 0, pes.dtsFlag, tail);
    assert [] + tail == tail;
  }

  lemma StampSizes(pes: Pes)
    ensures |PtsBytes(pes)| + |DtsBytes(pes)| + 3 == HeaderSize(pes)
  {
    hide HighWord, LowWord, Be;
  }

  lemma HeaderReadsBack(pes: Pes)
    ensures DecodeHeader(EMPTY.(streamId := pes.streamId), Open(HeaderBytes(pes) + pes.data)) ==
            Part(true, Norm(pes).(data := []), 0, Open(pes.data))
  {
    hide Be, FlagWord, PtsBytes, DtsBytes, TakePts, TakeDts, FromFlags;
    var a, b, c, d := Be(FlagWord(pes), 2), Be(HeaderSize(pes) - 3, 1), PtsBytes(pes), DtsBytes(pes);
    assert HeaderBytes(pes) + pes.data == a + (b + (c + (d + pes.data)));
    FlagsReadBack(pes);
    Pow2Values();
    ReadBackNumber(FlagWord(pes), 2, b + (c + (d + pes.data)));
    AF.ByteReadsBack(HeaderSize(pes) - 3, c + (d + pes.data));
    StampSizes(pes);
    var start := FromFlags(EMPTY.(streamId := pes.streamId), FlagWord(pes));
    var p := Part(true, start, HeaderSize(pes) - 3, Open(c + (d + pes.data)));
    PtsReadsBack(p, pes, d + pes.data);
    DtsReadsBack(TakePts(p), pes, pes.data);
    assert Open(pes.data).Drop(0) == Open(pes.data);
  }

  /** The parser finds the length it expects: the packet is shorter than 65536, or is video and its length was written
      as zero, which happens when the int that counts it is 65536 or more, or is a multiple of 65536. Only packets of
      2 GB and more are neither refused nor covered by the first two cases. */
  predicate LengthAgrees(pes: Pes) {
    var n := HeaderSize(pes) + |pes.data|;
    n < 0x1_0000 || (Video(pes.streamId) && (Int32(n) >= 0x1_0000 || n % 0x1_0000 == 0))
  }

  /** The packets that can be read back: those with a header and a length the parser expects. The packer counts a header
      it does not write for the two stream ids that have none. */
  predicate ReadsBack(pes: Pes) {
    !Headerless(pes.streamId) && LengthAgrees(pes)
  }

  lemma LengthExact(pes: Pes)
    requires !Refused(pes)
    ensures LengthBad(pes.streamId, Length(pes) % 0x1_0000, |Body(pes)|) <==> !ReadsBack(pes)
  {
    HeaderLength(pes);
    var n := HeaderSize(pes) + |pes.data|;
    assert 3 <= HeaderSize(pes) <= 13;
    LowBitsOfInt(n);
    hide HeaderBytes, HeaderSize, Int32;
    if n < 0x1_0000 {
      assert Length(pes) % 0x1_0000 == n > 0;
    } else if Video(pes.streamId) && Int32(n) >= 0x1_0000 {
      assert Length(pes) % 0x1_0000 == 0;
    } else {
      assert n >= 0x8000_0000 && Length(pes) % 0x1_0000 == n % 0x1_0000 < |Body(pes)|;
    }
  }

  lemma LowBitsOfInt(n: nat)
    ensures Int32(n) % 0x1_0000 == n % 0x1_0000 && Int32(n) <= n && (n < 0x8000_0000 ==> Int32(n) == n)
  {
    var k := (n + 0x8000_0000) / 0x1_0000_0000;
    assert Int32(n) == n - k * 0x1_0000_0000 && n == Int32(n) + (k * 0x1_0000) * 0x1_0000;
  }

  /** A packet that is not refused reads back in normal form exactly when it has a header and the parser finds the
      length it expects; every other packet is an error. */
  lemma RoundTrip(pes: Pes)
    requires !Refused(pes)
    ensures Decode(Open(Encode(pes))) == if ReadsBack(pes) then Decoded(Success, Norm(pes)) else Decoded(Error, EMPTY)
  {
    hide Be, StartWord, ReadId, ReadBits, HeaderBytes, DecodeHeader, Norm, Length, LengthAgrees, LengthBad;
    var length := Length(pes) % 0x1_0000;
    var a, b := Be(StartWord(pes.streamId), 4), Be(length, 2);
    assert Encode(pes) == a + (b + Body(pes));
    StartReadsBack(pes.streamId);
    Pow2Values();
    ReadBackNumber(StartWord(pes.streamId), 4, b + Body(pes));
    ReadBackNumber(length, 2, Body(pes));
    LengthExact(pes);
    HeaderReadsBack(pes);
    if !Headerless(pes.streamId) {
      NormKeeps(pes);
    }
  }

  /** A packet of each stream id without a header: the packer counts three bytes that it does not write, and the parser
      finds the length wrong. */
  lemma NotReadBack()
    ensures
      var a, b := EMPTY.(streamId := 0xbe, data := [1]), EMPTY.(streamId := 0xbf, data := [1]);
      Decode(Open(Encode(a))) == Decode(Open(Encode(b))) == Decoded(Error, EMPTY)
  {
    hide Encode, Decode;
    RoundTrip(EMPTY.(streamId := 0xbe, data := [1]));
    RoundTrip(EMPTY.(streamId := 0xbf, data := [1]));
  }

  lemma HeaderLength(pes: Pes)
    ensures |HeaderBytes(pes)| == HeaderSize(pes)
  {
    hide Be, FlagWord;
    StampSizes(pes);
    hide PtsBytes, DtsBytes;
  }

  lemma NormKeeps(pes: Pes)
    ensures Norm(pes).(data := []).(data := pes.data) == Norm(pes)
  {
  }
}
