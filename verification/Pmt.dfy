/** The program map table (src/ts/ts_pmt.c). */
module ProgramMap {
  import opened Words
  import opened Bytestreams
  import P = TsPackets
  import AF = AdaptationFields
  import S = PsiSections
  import A = ProgramAssociation

  datatype Descriptor = Descriptor(tag: byte, data: AF.PrivateData)

  const NO_DESCRIPTOR := Descriptor(0, [])

  datatype PmtStream = PmtStream(streamType: byte, pid: P.Pid, descriptor: Descriptor)

  datatype Pmt = Pmt(
    id: nat,
    idExtension: nat,
    version: nat,
    pcrPid: P.Pid,
    descriptor: Descriptor,
    streams: seq<PmtStream>)

  /** ts_pmt_construct. */
  const EMPTY := Pmt(0, 0, 0, 0, NO_DESCRIPTOR, [])

  /** The section header every packed PMT has. */
  const SECTION := S.Psi(0x02, 0, 0x01, 0, 1, 0, 0)

  // ---- descriptors ----

  /** ts_pmt_descriptor_size: a descriptor with tag zero counts as absent. */
  function DescriptorSize(d: Descriptor): nat {
    if d.tag != 0 then |d.data| + 2 else 0
  }

  /** ts_pmt_descriptor_equal. */
  predicate DescriptorEqual(a: Descriptor, b: Descriptor) {
    (a.tag == 0 && b.tag == 0) || (a.tag == b.tag && a.data == b.data)
  }

  function DescriptorBytes(d: Descriptor): seq<byte> {
    if d.tag != 0 then Be(d.tag, 1) + Be(|d.data|, 1) + d.data else []
  }

  method PackDescriptor(d: Descriptor, s: Bytestream)
    requires s.Ok() && s.buffered && s.valid
    modifies s
    ensures s.Ok() && s.buffered && s.valid && s.Out() == old(s.Out()).Add(DescriptorBytes(d))
  {
    hide Be;
    ghost var o := s.Out();
    if d.tag != 0 {
      s.WriteNumber(d.tag, 1);
      s.WriteNumber(|d.data|, 1);
      AddAdd(o, Be(d.tag, 1), Be(|d.data|, 1));
      s.Write(d.data);
      AddAdd(o, Be(d.tag, 1) + Be(|d.data|, 1), d.data);
    } else {
      assert o.data + [] == o.data;
    }
  }

  // ---- packing ----

  function PidFields(pid: P.Pid): seq<Field> {
    [Field(0x07, 0, 3), Field(pid, 3, 13)]
  }

  function InfoFields(d: Descriptor): seq<Field> {
    [Field(0x0f, 0, 4), Field(0, 4, 2), Field(DescriptorSize(d), 6, 10)]
  }

  function PidWord(pid: P.Pid): nat {
    Pack(PidFields(pid), 16)
  }

  function InfoWord(d: Descriptor): nat {
    Pack(InfoFields(d), 16)
  }

  /** A PID and a descriptor, as both the table and each of its entries write them. */
  function Entry(pid: P.Pid, d: Descriptor): seq<byte> {
    Be(PidWord(pid), 2) + Be(InfoWord(d), 2) + DescriptorBytes(d)
  }

  function StreamBytes(st: PmtStream): seq<byte> {
    Be(st.streamType, 1) + Entry(st.pid, st.descriptor)
  }

  function StreamsBytes(sts: seq<PmtStream>): seq<byte> {
    if sts == [] then [] else StreamsBytes(sts[..|sts| - 1]) + StreamBytes(sts[|sts| - 1])
  }

  /** The data of the section. */
  function Data(pmt: Pmt): seq<byte> {
    Entry(pmt.pcrPid, pmt.descriptor) + StreamsBytes(pmt.streams)
  }

  function Encode(pmt: Pmt): seq<byte> {
    Be(0, 1) + S.Encode(SECTION, Data(pmt), 1)
  }

  method PackEntry(pid: P.Pid, d: Descriptor, s: Bytestream)
    requires s.Ok() && s.buffered
    modifies s
    ensures s.Ok() && s.buffered && s.valid && s.Out() == old(s.Out()).Add(Entry(pid, d))
  {
    hide Be, PidWord, InfoWord, DescriptorBytes;
    ghost var o := s.Out();
    s.WriteNumber(PidWord(pid), 2);
    s.WriteNumber(InfoWord(d), 2);
    AddAdd(o, Be(PidWord(pid), 2), Be(InfoWord(d), 2));
    PackDescriptor(d, s);
    AddAdd(o, Be(PidWord(pid), 2) + Be(InfoWord(d), 2), DescriptorBytes(d));
  }

  /** ts_pmt_pack_buffer into an empty buffer. A table whose section is too long is refused. */
  method PackPmt(pmt: Pmt, hasData: bool) returns (n: Status, bytes: seq<byte>)
    ensures if S.Refused(|Data(pmt)|) then n == Error else n == Success && bytes == Encode(pmt)
  {
    hide S.Encode, Entry, StreamBytes, Be, S.Refused;
    var s := new Bytestream.OfBuffer([], hasData);
    n := S.PackPointer(s);
    var data := new Bytestream.OfBuffer([], hasData);
    ghost var o := data.Out();
    PackEntry(pmt.pcrPid, pmt.descriptor, data);
    AddAdd(o, Entry(pmt.pcrPid, pmt.descriptor), []);
    for i := 0 to |pmt.streams|
      invariant data.Ok() && data.buffered && data.valid && s.Ok() && s.buffered && s.valid
      invariant s.Out() == Buffer(0, []).Add(Be(0, 1))
      invariant data.Out() == o.Add(Entry(pmt.pcrPid, pmt.descriptor)).Add(StreamsBytes(pmt.streams[..i]))
    {
      var st := pmt.streams[i];
      ghost var done := StreamsBytes(pmt.streams[..i]);
      data.WriteNumber(st.streamType, 1);
      PackEntry(st.pid, st.descriptor, data);
      AddAdd(o.Add(Entry(pmt.pcrPid, pmt.descriptor)).Add(done), Be(st.streamType, 1), Entry(st.pid, st.descriptor));
      assert StreamBytes(st) == Be(st.streamType, 1) + Entry(st.pid, st.descriptor) by { StreamBytesIs(st); }
      AddAdd(o.Add(Entry(pmt.pcrPid, pmt.descriptor)), done, StreamBytes(st));
      assert pmt.streams[..i + 1][..i] == pmt.streams[..i];
    }
    assert pmt.streams[..|pmt.streams|] == pmt.streams;
    AddAdd(o, Entry(pmt.pcrPid, pmt.descriptor), StreamsBytes(pmt.streams));
    assert data.data[data.begin..data.end] == Data(pmt) && s.Size() == 1;
    n := S.PackPsi(SECTION, s, data.data[data.begin..data.end]);
    AddAdd(Buffer(0, []), Be(0, 1), S.Encode(SECTION, Data(pmt), 1));
    bytes := s.data;
    assert [] + Encode(pmt) == Encode(pmt);
  }

  lemma StreamBytesIs(st: PmtStream)
    ensures StreamBytes(st) == Be(st.streamType, 1) + Entry(st.pid, st.descriptor)
  {
  }

  // ---- unpacking ----

  datatype DescriptorDecoded = DescriptorDecoded(ok: bool, descriptor: Descriptor, rest: Input)

  /** ts_pmt_descriptor_unpack: only the first descriptor of a loop of `len` bytes is kept. */
  function DecodeDescriptor(r: Input, len: nat): DescriptorDecoded {
    if len < 2 || len > r.Size() then DescriptorDecoded(false, NO_DESCRIPTOR, r)
    else
      var size := AF.ReadByte(r.Drop(1));
      var r2 := r.Drop(1).Drop(1);
      if size + 2 > len then DescriptorDecoded(false, NO_DESCRIPTOR, r2)
      else
        var rest := r2.Drop(size).Drop(len - size - 2);
        DescriptorDecoded(rest.Open?, Descriptor(AF.ReadByte(r), r2.Bytes(size)), rest)
  }

  method UnpackDescriptor(s: Bytestream, len: nat) returns (ok: bool, d: Descriptor)
    requires s.Ok()
    modifies s
    ensures s.Ok() && DescriptorDecoded(ok, d, s.In()) == DecodeDescriptor(old(s.In()), len)
  {
    d := NO_DESCRIPTOR;
    if len < 2 || len > s.Size() {
      return false, d;
    }
    AF.Number8(s.In());
    var tag := s.ReadNumber(1);
    AF.Number8(s.In());
    var size := s.ReadNumber(1);
    if size + 2 > len {
      return false, d;
    }
    var data := s.Read(size);
    d := Descriptor(tag, data);
    var skipped := s.Read(len - size - 2);
    ok := s.valid;
  }

  predicate EntryOk(v: nat) {
    ReadBits(v, 32, 0, 3) == 7 && ReadBits(v, 32, 16, 4) == 0x0f && ReadBits(v, 32, 20, 2) == 0
  }

  function InfoLength(v: nat): nat {
    ReadBits(v, 32, 22, 10)
  }

  datatype EntryDecoded = EntryDecoded(ok: bool, pid: P.Pid, descriptor: Descriptor, rest: Input)

  /** The 32-bit word with the PID and the length of the descriptor loop, and the loop. */
  function DecodeEntry(r: Input): EntryDecoded {
    var v := r.Number(4);
    if !EntryOk(v) then EntryDecoded(false, 0, NO_DESCRIPTOR, r.Drop(4))
    else if InfoLength(v) == 0 then EntryDecoded(true, A.ReadPid(v, 3), NO_DESCRIPTOR, r.Drop(4))
    else
      var d := DecodeDescriptor(r.Drop(4), InfoLength(v));
      EntryDecoded(d.ok, A.ReadPid(v, 3), d.descriptor, d.rest)
  }

  method UnpackEntry(s: Bytestream) returns (ok: bool, pid: P.Pid, d: Descriptor)
    requires s.Ok()
    modifies s
    ensures s.Ok() && EntryDecoded(ok, pid, d, s.In()) == DecodeEntry(old(s.In()))
  {
    hide EntryOk, InfoLength, A.ReadPid, DecodeDescriptor;
    d := NO_DESCRIPTOR;
    var v := s.ReadNumber(4);
    if !EntryOk(v) {
      return false, 0, d;
    }
    ok, pid := true, A.ReadPid(v, 3);
    var len := InfoLength(v);
    if len != 0 {
      ok, d := UnpackDescriptor(s, len);
    }
  }

  /** A word that was not there reads as zero, which no entry starts with. */
  lemma EntryNeedsFour(r: Input)
    ensures DecodeEntry(r).ok ==> r.Has(4)
    ensures DecodeEntry(r).rest.Size() <= r.Size()
    ensures DecodeEntry(r).ok ==> DecodeEntry(r).rest.Open? && DecodeEntry(r).rest.Size() + 4 <= r.Size()
  {
    if !r.Has(4) {
      FromBeOfZeros(4);
      Pow2Values();
      assert r.Number(4) == 0;
      DivModUnique(0, Pow2(29), 0, 0);
      assert ReadBits(0, 32, 0, 3) == 0;
    }
  }

  datatype StreamsDecoded = StreamsDecoded(ok: bool, streams: seq<PmtStream>)

  /** The loop over the entries: every turn consumes at least five bytes or fails. */
  function DecodeStreams(r: Input): StreamsDecoded
    decreases r.Size()
  {
    if r.Size() == 0 then StreamsDecoded(r.Open?, [])
    else
      var e := DecodeEntry(r.Drop(1));
      if !e.ok then StreamsDecoded(false, [])
      else
        EntryNeedsFour(r.Drop(1));
        var more := DecodeStreams(e.rest);
        StreamsDecoded(more.ok, [PmtStream(AF.ReadByte(r), e.pid, e.descriptor)] + more.streams)
  }

  /** However long the bytes are, the loop ends, and no table has more entries than fit five bytes each. */
  lemma {:induction false} FiveBytesEach(r: Input)
    ensures 5 * |DecodeStreams(r).streams| <= r.Size()
    decreases r.Size()
  {
    hide DecodeEntry, AF.ReadByte;
    if r.Size() > 0 {
      EntryNeedsFour(r.Drop(1));
      var e := DecodeEntry(r.Drop(1));
      if e.ok {
        FiveBytesEach(e.rest);
      }
    }
  }

  datatype Decoded = Decoded(status: Status, pmt: Pmt)

  /** The table in the data of a section. */
  function DecodeData(pmt: Pmt, r: Input): Decoded {
    var e := DecodeEntry(r);
    if !e.ok then Decoded(Error, pmt)
    else
      var sts := DecodeStreams(e.rest);
      if !sts.ok || pmt.id != 2 then Decoded(Error, pmt)
      else Decoded(Success, pmt.(pcrPid := e.pid, descriptor := e.descriptor, streams := sts.streams))
  }

  /** ts_pmt_unpack_stream. What a table holds after an error is not modelled: every caller throws it away. */
  function Decode(r: Input): Decoded {
    var r1 := S.DecodePointer(r);
    if r1.Failed? then Decoded(Incomplete, EMPTY)
    else
      var d := S.Decode(r1);
      if d.status != Success then Decoded(d.status, EMPTY)
      else
        var pmt := EMPTY.(id := d.psi.id, idExtension := d.psi.idExtension, version := d.psi.version);
        var size := d.psi.sectionLength;
        if size < 9 || d.rest.Size() + 5 < size then Decoded(Error, pmt)
        else DecodeData(pmt, Open(d.rest.Bytes(size - 9)))
  }

  method UnpackPmt(s: Bytestream) returns (n: Status, pmt: Pmt)
    requires s.Ok()
    modifies s
    ensures s.Ok()
    ensures n == Decode(old(s.In())).status && (n != Error ==> pmt == Decode(old(s.In())).pmt)
  {
    hide S.Decode, S.DecodePointer, DecodeEntry, AF.ReadByte;
    pmt := EMPTY;
    n := S.UnpackPointer(s);
    if n != Success {
      return;
    }
    var psi;
    S.SuccessMeansOpen(s.In());
    n, psi := S.UnpackPsi(s);
    if n != Success {
      return;
    }
    pmt := pmt.(id := psi.id, idExtension := psi.idExtension, version := psi.version);
    if psi.sectionLength < 9 || s.Size() + 5 < psi.sectionLength {
      return Error, pmt;
    }
    assert s.In().Bytes(psi.sectionLength - 9) == s.data[s.begin..s.begin + (psi.sectionLength - 9)];
    n, pmt := UnpackData(pmt, s.data[s.begin..s.begin + (psi.sectionLength - 9)]);
  }

  method UnpackData(header: Pmt, bytes: seq<byte>) returns (n: Status, pmt: Pmt)
    requires header.streams == []
    ensures n == DecodeData(header, Open(bytes)).status
    ensures n == Success ==> pmt == DecodeData(header, Open(bytes)).pmt
  {
    hide DecodeEntry, DecodeStreams;
    pmt := header;
    var data := new Bytestream(bytes);
    var ok, pid, d := UnpackEntry(data);
    if !ok {
      return Error, pmt;
    }
    var streams;
    ok, streams := UnpackStreams(data);
    pmt := pmt.(pcrPid := pid, descriptor := d, streams := streams);
    n := if !ok || pmt.id != 2 then Error else Success;
  }

  /** The loop of ts_pmt_unpack_stream. */
  method UnpackStreams(data: Bytestream) returns (ok: bool, streams: seq<PmtStream>)
    requires data.Ok()
    modifies data
    ensures ok == DecodeStreams(old(data.In())).ok
    ensures ok ==> streams == DecodeStreams(old(data.In())).streams
  {
    hide DecodeEntry, DecodeStreams, AF.ReadByte;
    streams := [];
    ghost var all := DecodeStreams(data.In());
    while data.Size() != 0
      invariant data.Ok() && all.ok == DecodeStreams(data.In()).ok
      invariant all.ok ==> all.streams == streams + DecodeStreams(data.In()).streams
      decreases data.In().Size()
    {
      ghost var r := data.In();
      EntryNeedsFour(r.Drop(1));
      ReadsByte(r);
      StreamsStep(r);
      var streamType := data.ReadNumber(1);
      var more, pid, d := UnpackEntry(data);
      if !more {
        return false, streams;
      }
      streams := streams + [PmtStream(streamType, pid, d)];
    }
    StreamsEnd(data.In());
    ok := data.valid;
  }

  lemma StreamsStep(r: Input)
    requires r.Size() > 0
    ensures
      var e, all := DecodeEntry(r.Drop(1)), DecodeStreams(r);
      if !e.ok then !all.ok
      else
        var more := DecodeStreams(e.rest);
        && all.ok == more.ok
        && forall start ::
             start + all.streams == start + [PmtStream(AF.ReadByte(r), e.pid, e.descriptor)] + more.streams
  {
    hide DecodeEntry;
  }

  lemma StreamsEnd(r: Input)
    requires r.Size() == 0
    ensures DecodeStreams(r) == StreamsDecoded(r.Open?, [])
  {
  }

  lemma ReadsByte(r: Input)
    ensures AF.ReadByte(r) == r.Number(1)
  {
  }

  // ---- properties ----

  function StreamsSize(sts: seq<PmtStream>): nat {
    if sts == [] then 0 else StreamsSize(sts[..|sts| - 1]) + 5 + DescriptorSize(sts[|sts| - 1].descriptor)
  }

  lemma {:induction false} StreamsLength(sts: seq<PmtStream>)
    ensures |StreamsBytes(sts)| == StreamsSize(sts)
  {
    if sts != [] {
      StreamsLength(sts[..|sts| - 1]);
    }
  }

  /** Exactly which tables are refused, by the sizes of their descriptors: four bytes for the table and five for each
      stream, besides the descriptors, must leave room for the header and checksum of a section. The int that counts
      them wraps at 2 GB. */
  lemma RefusedExactly(pmt: Pmt)
    ensures
      var n := 4 + DescriptorSize(pmt.descriptor) + StreamsSize(pmt.streams);
      && |Data(pmt)| == n
      && (S.Refused(n) <==> 1021 < (n + 9) % 0x1_0000_0000 < 0x8000_0000)
      && (n + 9 < 0x8000_0000 ==> (S.Refused(n) <==> n + 9 > 1021))
  {
    StreamsLength(pmt.streams);
    hide Be;
    S.RefusedWhenTooLong(Data(pmt));
  }

  /** A descriptor without a tag is written as nothing, so only an empty one comes back as it was. */
  predicate Normal(d: Descriptor) {
    d.tag == 0 ==> d.data == []
  }

  predicate NormalStreams(sts: seq<PmtStream>) {
    forall i :: 0 <= i < |sts| ==> Normal(sts[i].descriptor)
  }

  lemma DescriptorReadsBack(d: Descriptor, tail: seq<byte>)
    requires d.tag != 0
    ensures DecodeDescriptor(Open(DescriptorBytes(d) + tail), DescriptorSize(d)) ==
            DescriptorDecoded(true, d, Open(tail))
  {
    hide Be, AF.ReadByte;
    var a, b := Be(d.tag, 1), Be(|d.data|, 1);
    assert a + b + d.data + tail == a + (b + (d.data + tail));
    AF.ByteReadsBack(d.tag, b + (d.data + tail));
    AF.ByteReadsBack(|d.data|, d.data + tail);
    ReadBack(d.data, tail);
    assert tail[0..] == tail;
  }

  lemma PidWordReadsBack(pid: P.Pid)
    ensures PidWord(pid) < 0x1_0000 && ReadBits(PidWord(pid), 16, 0, 3) == 7 && ReadBits(PidWord(pid), 16, 3, 13) == pid
  {
    hide Pack, Pow2, ReadBits;
    var fs := PidFields(pid);
    Pow2Values();
    PackBound(fs, 16);
    ReadAt(fs, 16, 0, 0x07, 0, 3);
    ReadAt(fs, 16, 1, pid, 3, 13);
  }

  lemma InfoWordReadsBack(d: Descriptor)
    ensures
      var w := InfoWord(d);
      && w < 0x1_0000 && ReadBits(w, 16, 0, 4) == 0x0f && ReadBits(w, 16, 4, 2) == 0
      && ReadBits(w, 16, 6, 10) == DescriptorSize(d)
  {
    hide Pack, Pow2, ReadBits;
    var fs := InfoFields(d);
    Pow2Values();
    PackBound(fs, 16);
    ReadAt(fs, 16, 0, 0x0f, 0, 4);
    ReadAt(fs, 16, 1, 0, 4, 2);
    ReadAt(fs, 16, 2, DescriptorSize(d), 6, 10);
  }

  /** The two 16-bit words the packer writes are read as one 32-bit word. */
  lemma EntryWordReadsBack(pid: P.Pid, d: Descriptor, tail: seq<byte>)
    ensures
      var r := Open(Be(PidWord(pid), 2) + Be(InfoWord(d), 2) + tail);
      var v := r.Number(4);
      && r.Drop(4) == Open(tail) && EntryOk(v) && A.ReadPid(v, 3) == pid && InfoLength(v) == DescriptorSize(d)
  {
    hide Be, PidWord, InfoWord, Pow2, ReadBits;
    var hi, lo := PidWord(pid), InfoWord(d);
    var a, b := Be(hi, 2), Be(lo, 2);
    PidWordReadsBack(pid);
    InfoWordReadsBack(d);
    Pow2Values();
    ReadBack(a + b, tail);
    FromBeJoin(a, b);
    FromBeOfSmall(hi, 2);
    FromBeOfSmall(lo, 2);
    ReadBitsOfHigh(hi, lo, 16, 16, 0, 3);
    ReadBitsOfHigh(hi, lo, 16, 16, 3, 13);
    ReadBitsOfLow(hi, lo, 16, 16, 16, 4);
    ReadBitsOfLow(hi, lo, 16, 16, 20, 2);
    ReadBitsOfLow(hi, lo, 16, 16, 22, 10);
  }

  lemma EntryReadsBack(pid: P.Pid, d: Descriptor, tail: seq<byte>)
    requires Normal(d)
    ensures DecodeEntry(Open(Entry(pid, d) + tail)) == EntryDecoded(true, pid, d, Open(tail))
  {
    hide Be, PidWord, InfoWord, EntryOk, InfoLength, A.ReadPid, DecodeDescriptor;
    var bs := DescriptorBytes(d);
    assert Entry(pid, d) + tail == Be(PidWord(pid), 2) + Be(InfoWord(d), 2) + (bs + tail);
    EntryWordReadsBack(pid, d, bs + tail);
    if d.tag != 0 {
      DescriptorReadsBack(d, tail);
    } else {
      assert bs + tail == tail;
    }
  }

  lemma StreamReadsBack(st: PmtStream, tail: seq<byte>)
    requires Normal(st.descriptor)
    ensures
      var more := DecodeStreams(Open(tail));
      DecodeStreams(Open(StreamBytes(st) + tail)) == StreamsDecoded(more.ok, [st] + more.streams)
  {
    hide Be, DecodeEntry, Entry, AF.ReadByte;
    var a, b := Be(st.streamType, 1), Entry(st.pid, st.descriptor);
    assert StreamBytes(st) + tail == a + (b + tail);
    AF.ByteReadsBack(st.streamType, b + tail);
    EntryReadsBack(st.pid, st.descriptor, tail);
  }

  lemma {:induction false} StreamsReadBack(sts: seq<PmtStream>, tail: seq<byte>)
    requires NormalStreams(sts)
    ensures
      var more := DecodeStreams(Open(tail));
      DecodeStreams(Open(StreamsBytes(sts) + tail)) == StreamsDecoded(more.ok, sts + more.streams)
    decreases |sts|
  {
    hide DecodeStreams, StreamBytes;
    var more := DecodeStreams(Open(tail));
    if sts == [] {
      assert StreamsBytes(sts) + tail == tail && sts + more.streams == more.streams;
    } else {
      var init, st := sts[..|sts| - 1], sts[|sts| - 1];
      assert StreamsBytes(sts) + tail == StreamsBytes(init) + (StreamBytes(st) + tail);
      StreamsReadBack(init, StreamBytes(st) + tail);
      StreamReadsBack(st, tail);
      assert init + ([st] + more.streams) == sts + more.streams;
    }
  }

  lemma DataReadsBack(pmt: Pmt, header: Pmt)
    requires Normal(pmt.descriptor) && NormalStreams(pmt.streams) && header.id == 2
    ensures DecodeData(header, Open(Data(pmt))) ==
            Decoded(Success, header.(pcrPid := pmt.pcrPid, descriptor := pmt.descriptor, streams := pmt.streams))
  {
    hide DecodeEntry, Entry, StreamBytes;
    EntryReadsBack(pmt.pcrPid, pmt.descriptor, StreamsBytes(pmt.streams));
    StreamsReadBack(pmt.streams, []);
    assert StreamsBytes(pmt.streams) + [] == StreamsBytes(pmt.streams) && pmt.streams + [] == pmt.streams;
  }

  /** A table whose section is at most 1021 bytes long reads back with its clock PID, its descriptor and its streams in
      order; table id, extension and version are the constants of the packer. */
  lemma RoundTrip(pmt: Pmt)
    requires Normal(pmt.descriptor) && NormalStreams(pmt.streams) && |Data(pmt)| + 9 <= 1021
    ensures !S.Refused(|Data(pmt)|)
    ensures Decode(Open(Encode(pmt))) == Decoded(Success, Pmt(2, 1, 0, pmt.pcrPid, pmt.descriptor, pmt.streams))
  {
    hide S.Header, S.Decode, S.Crc.CrcBytes, S.Crc.Crc, Data, DecodeData, Be, S.DecodePointer;
    var data := Data(pmt);
    var section := S.Section(SECTION, data);
    var tail := S.Crc.CrcBytes(S.Crc.Crc(section)) + AF.Stuffing(S.Padding(1 + |section| + 4));
    assert S.Encode(SECTION, data, 1) == S.Header(SECTION, |data| + 9) + (data + tail);
    A.PointerReadsBack(S.Encode(SECTION, data, 1));
    S.WholeSection(SECTION, |data| + 9, data + tail);
    ReadBack(data, tail);
    DataReadsBack(pmt, EMPTY.(id := 2, idExtension := 1, version := 0));
  }
}
