/** Program specific information sections (src/ts/ts_psi.c; section 2.4.4 of ISO/IEC 13818-1). */
module PsiSections {
  import opened Words
  import opened Bytestreams
  import AF = AdaptationFields
  import Crc

  type tenbits = x: int | 0 <= x < 0x400
  type u16 = x: int | 0 <= x < 0x1_0000
  type fivebits = x: int | 0 <= x < 32

  datatype Psi = Psi(
    id: byte,
    sectionLength: tenbits,
    idExtension: u16,
    version: fivebits,
    current: bit,
    sectionNumber: byte,
    lastSectionNumber: byte)

  /** ts_psi_construct. */
  const EMPTY := Psi(0, 0, 0, 0, 0, 0, 0)

  const MAX_SECTION := 1021

  // ---- packing ----

  /** The section length of a section around n bytes of data, as the int the source keeps it in. */
  function SectionLength(n: nat): int {
    Int32(n + 9)
  }

  function LengthFields(length: int): seq<Field> {
    [Field(0x01, 0, 1), Field(0x00, 1, 1), Field(0x03, 2, 2), Field(0x00, 4, 2), Field(length % 0x400, 6, 10)]
  }

  function VersionFields(psi: Psi): seq<Field> {
    [Field(0x03, 0, 2), Field(psi.version, 2, 5), Field(psi.current, 7, 1)]
  }

  function LengthWord(length: int): nat {
    Pack(LengthFields(length), 16)
  }

  function VersionWord(psi: Psi): nat {
    Pack(VersionFields(psi), 8)
  }

  /** The eight bytes in front of the data. */
  function Header(psi: Psi, length: int): seq<byte> {
    Be(psi.id, 1) + Be(LengthWord(length), 2) + Be(psi.idExtension, 2) + Be(VersionWord(psi), 1)
    + Be(psi.sectionNumber, 1) + Be(psi.lastSectionNumber, 1)
  }

  /** The section up to its checksum. */
  function Section(psi: Psi, data: seq<byte>): seq<byte> {
    Header(psi, SectionLength(|data|)) + data
  }

  /** How many stuffing bytes take a stream of `size` bytes to the end of a packet with a four-byte header. */
  function Padding(size: nat): nat {
    (188 - (size + 4) % 188) % 188
  }

  predicate Refused(n: nat) {
    SectionLength(n) > MAX_SECTION
  }

  /** What packing appends to a stream that already holds `size` bytes. */
  function Encode(psi: Psi, data: seq<byte>, size: nat): seq<byte> {
    var section := Section(psi, data);
    section + Crc.CrcBytes(Crc.Crc(section)) + AF.Stuffing(Padding(size + |section| + 4))
  }

  /** ts_psi_pack_stream. Without a buffer the source's padding loop never ends (PaddingNeedsBuffer). */
  method PackPsi(psi: Psi, s: Bytestream, data: seq<byte>) returns (n: Status)
    requires s.Ok() && s.buffered
    modifies s
    ensures s.Ok() && s.buffered && (old(s.valid) || n == Success ==> s.valid)
    ensures if Refused(|data|) then n == Error && s.Out() == old(s.Out())
            else n == Success && s.Out() == old(s.Out()).Add(Encode(psi, data, old(s.Size())))
  {
    hide Crc.Crc;
    ghost var o, size := s.Out(), s.Size();
    var start := s.Size();
    var length := SectionLength(|data|);
    if length > MAX_SECTION {
      return Error;
    }
    PackHeader(psi, s, length);
    s.Write(data);
    ghost var section := Section(psi, data);
    AddAdd(o, Header(psi, length), data);
    var written := s.data[s.begin + start..];
    assert written == section;
    var crc := Crc.ComputeCrc(written);
    s.Write(Crc.CrcBytes(crc));
    AddAdd(o, section, Crc.CrcBytes(crc));
    Pad(s);
    AddAdd(o, section + Crc.CrcBytes(crc), AF.Stuffing(Padding(size + |section| + 4)));
    n := s.Status();
  }

  /** Stuffing up to the end of a packet. */
  method Pad(s: Bytestream)
    requires s.Ok() && s.buffered && s.valid
    modifies s
    ensures s.Ok() && s.buffered && s.valid && s.Out() == old(s.Out()).Add(AF.Stuffing(Padding(old(s.Size()))))
  {
    ghost var o, size, padded := s.Out(), s.Size(), 0;
    assert o == o.Add(AF.Stuffing(0)) by { assert o.data + AF.Stuffing(0) == o.data; }
    while (s.Size() + 4) % 188 != 0
      invariant s.Ok() && s.buffered && s.valid && padded <= Padding(size)
      invariant s.Size() == size + padded && s.Out() == o.Add(AF.Stuffing(padded))
      decreases Padding(size) - padded
    {
      s.WriteNumber(0xff, 1);
      AddAdd(o, AF.Stuffing(padded), Be(0xff, 1));
      assert AF.Stuffing(padded) + Be(0xff, 1) == AF.Stuffing(padded + 1);
      padded := padded + 1;
    }
  }

  method PackHeader(psi: Psi, s: Bytestream, length: int)
    requires s.Ok() && s.buffered
    modifies s
    ensures s.Ok() && s.buffered && s.valid && s.Out() == old(s.Out()).Add(Header(psi, length))
  {
    hide Be, LengthWord, VersionWord;
    ghost var o := s.Out();
    s.WriteNumber(psi.id, 1);
    s.WriteNumber(LengthWord(length), 2);
    ghost var bs := Be(psi.id, 1) + Be(LengthWord(length), 2);
    AddAdd(o, Be(psi.id, 1), Be(LengthWord(length), 2));
    s.WriteNumber(psi.idExtension, 2);
    AddAdd(o, bs, Be(psi.idExtension, 2));
    bs := bs + Be(psi.idExtension, 2);
    s.WriteNumber(VersionWord(psi), 1);
    AddAdd(o, bs, Be(VersionWord(psi), 1));
    bs := bs + Be(VersionWord(psi), 1);
    s.WriteNumber(psi.sectionNumber, 1);
    AddAdd(o, bs, Be(psi.sectionNumber, 1));
    bs := bs + Be(psi.sectionNumber, 1);
    s.WriteNumber(psi.lastSectionNumber, 1);
    AddAdd(o, bs, Be(psi.lastSectionNumber, 1));
  }

  /** ts_psi_pointer_pack. */
  method PackPointer(s: Bytestream) returns (n: Status)
    requires s.Ok()
    modifies s
    ensures s.Ok() && s.buffered == s.valid == old(s.buffered)
    ensures s.Out() == old(s.Out()).Add(Be(0, 1)) && n == s.Status()
  {
    s.WriteNumber(0, 1);
    n := s.Status();
  }

  // ---- unpacking ----

  datatype Decoded = Decoded(status: Status, psi: Psi, rest: Input)

  predicate LengthOk(v: nat) {
    ReadBits(v, 16, 0, 1) == 1 && ReadBits(v, 16, 1, 1) == 0 && ReadBits(v, 16, 2, 2) == 3 && ReadBits(v, 16, 4, 2) == 0
  }

  function ReadLength(v: nat): tenbits {
    Pow2Values();
    ReadBits(v, 16, 6, 10)
  }

  function ReadVersion(v: nat): fivebits {
    Pow2Values();
    ReadBits(v, 8, 2, 5)
  }

  function ReadU16(r: Input): (v: u16)
    ensures v == r.Number(2)
  {
    BeOfFromBe(r.Bytes(2));
    Pow2Values();
    r.Number(2)
  }

  /** The second half of ts_psi_unpack_stream, after the section length. */
  function DecodeRest(psi: Psi, r: Input): Decoded {
    var v := r.Drop(2).Number(1);
    var extended := psi.(idExtension := ReadU16(r));
    if ReadBits(v, 8, 0, 2) != 3 then Decoded(Error, extended, r.Drop(2).Drop(1))
    else
      var r3 := r.Drop(2).Drop(1);
      var last := r3.Drop(1).Drop(1);
      Decoded(if last.Open? then Success else Incomplete,
              extended.(version := ReadVersion(v), current := ReadFlag(v, 8, 7), sectionNumber := AF.ReadByte(r3),
                        lastSectionNumber := AF.ReadByte(r3.Drop(1))),
              last)
  }

  /** ts_psi_unpack_stream into a record that has just been constructed. A stuffing byte in place of a table id is
      accepted as it stands. */
  function Decode(r: Input): Decoded {
    var psi := EMPTY.(id := AF.ReadByte(r));
    var r2 := r.Drop(1).Drop(2);
    var v := r.Drop(1).Number(2);
    if psi.id == 0xff then Decoded(Success, psi, r.Drop(1))
    else if r2.Failed? then Decoded(Incomplete, psi, r2)
    else if !LengthOk(v) then Decoded(Error, psi, r2)
    else
      var sized := psi.(sectionLength := ReadLength(v));
      if sized.sectionLength < 9 then Decoded(Error, sized, r2)
      else if r2.Size() < sized.sectionLength then Decoded(Incomplete, sized, r2)
      else DecodeRest(sized, r2)
  }

  lemma SuccessMeansOpen(r: Input)
    ensures Decode(r).status == Success ==> Decode(r).rest.Open?
  {
    hide LengthOk, ReadLength, ReadVersion, ReadFlag;
    if r.Drop(1).Failed? {
      FromBeOfZeros(1);
    }
  }

  method UnpackPsi(s: Bytestream) returns (n: Status, psi: Psi)
    requires s.Ok()
    modifies s
    ensures s.Ok() && Decoded(n, psi, s.In()) == Decode(old(s.In()))
  {
    hide LengthOk, ReadLength, DecodeRest;
    psi := EMPTY;
    AF.Number8(s.In());
    var id := s.ReadNumber(1);
    psi := psi.(id := id);
    if id == 0xff {
      return Success, psi;
    }
    var v := s.ReadNumber(2);
    if !s.valid {
      return Incomplete, psi;
    }
    if !LengthOk(v) {
      return Error, psi;
    }
    psi := psi.(sectionLength := ReadLength(v));
    if psi.sectionLength < 9 {
      return Error, psi;
    }
    if s.Size() < psi.sectionLength {
      return Incomplete, psi;
    }
    n, psi := UnpackRest(psi, s);
  }

  method UnpackRest(sized: Psi, s: Bytestream) returns (n: Status, psi: Psi)
    requires s.Ok()
    modifies s
    ensures s.Ok() && Decoded(n, psi, s.In()) == DecodeRest(sized, old(s.In()))
  {
    psi := sized;
    ghost var r := s.In();
    assert ReadU16(r) == r.Number(2);
    var extension := s.ReadNumber(2);
    psi := psi.(idExtension := extension);
    var v := s.ReadNumber(1);
    if ReadBits(v, 8, 0, 2) != 3 {
      return Error, psi;
    }
    AF.Number8(s.In());
    var number := s.ReadNumber(1);
    AF.Number8(s.In());
    var last := s.ReadNumber(1);
    psi := psi.(version := ReadVersion(v), current := ReadFlag(v, 8, 7), sectionNumber := number,
                lastSectionNumber := last);
    n := if s.valid then Success else Incomplete;
  }

  /** ts_psi_pointer_unpack: the pointer counts bytes to skip. */
  function DecodePointer(r: Input): Input {
    r.Drop(1).Drop(AF.ReadByte(r))
  }

  method UnpackPointer(s: Bytestream) returns (n: Status)
    requires s.Ok()
    modifies s
    ensures s.Ok() && s.In() == DecodePointer(old(s.In())) && n == if s.In().Open? then Success else Incomplete
  {
    AF.Number8(s.In());
    var size := s.ReadNumber(1);
    var skipped := s.Read(size);
    n := if s.valid then Success else Incomplete;
  }

  // ---- properties ----

  /** Sections of up to 1021 bytes pass and larger ones are refused; the int that counts them wraps at 2 GB. */
  lemma RefusedWhenTooLong(data: seq<byte>)
    ensures Refused(|data|) <==> 1021 < (|data| + 9) % 0x1_0000_0000 < 0x8000_0000
    ensures |data| + 9 < 0x8000_0000 ==> (Refused(|data|) <==> |data| + 9 > 1021)
  {
  }

  /** The padding is shorter than a packet and ends the stream at a packet boundary, the packet header included. */
  lemma PaddingAligns(psi: Psi, data: seq<byte>, size: nat)
    ensures Padding(size + |Section(psi, data)| + 4) < 188
    ensures (size + |Encode(psi, data, size)| + 4) % 188 == 0
  {
    hide Section, Crc.Crc, Crc.CrcBytes;
    var n := size + |Section(psi, data)| + 4;
    assert |Encode(psi, data, size)| == |Section(psi, data)| + 4 + Padding(n);
    PaddingEnds(n);
  }

  /** Some number of stuffing bytes reaches the boundary exactly when there is a buffer to write them to: the loop that
      writes them ends then, and never otherwise. */
  lemma PaddingNeedsBuffer(o: Output)
    requires o.Buffer? ==> o.begin <= |o.data|
    ensures (exists n: nat :: (o.Add(AF.Stuffing(n)).Size() + 4) % 188 == 0) <==> o.Buffer?
  {
    if o.Buffer? {
      PaddingEnds(o.Size());
      assert (o.Add(AF.Stuffing(Padding(o.Size()))).Size() + 4) % 188 == 0;
    }
  }

  lemma PaddingEnds(n: nat)
    ensures (n + Padding(n) + 4) % 188 == 0
  {
    var q, r := (n + 4) / 188, (n + 4) % 188;
    if r == 0 {
      assert n + Padding(n) + 4 == q * 188;
    } else {
      assert n + Padding(n) + 4 == (q + 1) * 188;
    }
  }

  /** The section with its own checksum divides without remainder. */
  lemma SectionChecks(psi: Psi, data: seq<byte>, size: nat)
    ensures
      var n := |Section(psi, data)| + 4;
      n <= |Encode(psi, data, size)| && Crc.Crc(Encode(psi, data, size)[..n]) == 0
  {
    hide Crc.Crc, Crc.CrcBytes;
    var section := Section(psi, data);
    Crc.Residue(section);
    assert Encode(psi, data, size)[..|section| + 4] == section + Crc.CrcBytes(Crc.Crc(section));
  }

  lemma LengthReadsBack(length: int)
    ensures LengthWord(length) < 0x1_0000 && LengthOk(LengthWord(length))
    ensures ReadLength(LengthWord(length)) == length % 0x400
  {
    hide Pack, Be, Pow2, ReadBits;
    var fs := LengthFields(length);
    Pow2Values();
    PackBound(fs, 16);
    ReadAt(fs, 16, 0, 0x01, 0, 1);
    ReadAt(fs, 16, 1, 0x00, 1, 1);
    ReadAt(fs, 16, 2, 0x03, 2, 2);
    ReadAt(fs, 16, 3, 0x00, 4, 2);
    ReadAt(fs, 16, 4, length % 0x400, 6, 10);
  }

  lemma VersionReadsBack(psi: Psi)
    ensures VersionWord(psi) < 256 && ReadBits(VersionWord(psi), 8, 0, 2) == 3
    ensures ReadVersion(VersionWord(psi)) == psi.version && ReadFlag(VersionWord(psi), 8, 7) == psi.current
  {
    hide Pack, Be, Pow2, ReadBits;
    var fs := VersionFields(psi);
    Pow2Values();
    PackBound(fs, 8);
    ReadAt(fs, 8, 0, 0x03, 0, 2);
    ReadAt(fs, 8, 1, psi.version, 2, 5);
    ReadAt(fs, 8, 2, psi.current, 7, 1);
  }

  lemma U16ReadsBack(v: u16, tail: seq<byte>)
    ensures ReadU16(Open(Be(v, 2) + tail)) == v == Open(Be(v, 2) + tail).Number(2)
    ensures Open(Be(v, 2) + tail).Drop(2) == Open(tail)
  {
    Pow2Values();
    ReadBackNumber(v, 2, tail);
  }

  /** What the parser has done when it has read the length of a section. */
  lemma LengthParsed(psi: Psi, length: tenbits, tail: seq<byte>)
    requires psi.id != 0xff
    ensures
      var rest := Be(psi.idExtension, 2)
                  + (Be(VersionWord(psi), 1) + (Be(psi.sectionNumber, 1) + (Be(psi.lastSectionNumber, 1) + tail)));
      var sized := EMPTY.(id := psi.id, sectionLength := length);
      Decode(Open(Header(psi, length) + tail)) ==
      if length < 9 then Decoded(Error, sized, Open(rest))
      else if |tail| + 5 < length then Decoded(Incomplete, sized, Open(rest))
      else DecodeRest(sized, Open(rest))
  {
    hide Be, LengthWord, VersionWord, LengthOk, ReadLength, DecodeRest;
    var a, b, c, d, e, f := Be(psi.id, 1), Be(LengthWord(length), 2), Be(psi.idExtension, 2), Be(VersionWord(psi), 1),
      Be(psi.sectionNumber, 1), Be(psi.lastSectionNumber, 1);
    assert a + b + c + d + e + f + tail == a + (b + (c + (d + (e + (f + tail)))));
    AF.ByteReadsBack(psi.id, b + (c + (d + (e + (f + tail)))));
    LengthReadsBack(length);
    U16ReadsBack(LengthWord(length), c + (d + (e + (f + tail))));
  }

  /** A header reads back, with its section length, when the whole section is there. */
  lemma WholeSection(psi: Psi, length: tenbits, tail: seq<byte>)
    requires psi.id != 0xff && 9 <= length <= |tail| + 5
    ensures Decode(Open(Header(psi, length) + tail)) == Decoded(Success, psi.(sectionLength := length), Open(tail))
  {
    assert VersionWord(psi.(sectionLength := length)) == VersionWord(psi) by {
      assert VersionFields(psi.(sectionLength := length)) == VersionFields(psi);
    }
    hide Be, VersionWord, DecodeRest, Decode, Header;
    LengthParsed(psi, length, tail);
    RestReadsBack(psi.(sectionLength := length), tail);
    assert EMPTY.(id := psi.id, sectionLength := length) ==
           psi.(sectionLength := length, idExtension := 0, version := 0, current := 0, sectionNumber := 0,
                lastSectionNumber := 0);
  }

  /** A header of any table but 0xff, with the ten bits that are sent of any length: it is an error if the length does
      not cover header and checksum, incomplete if there is less than it says, and otherwise reads back, the data
      left. */
  lemma RoundTrip(psi: Psi, length: int, tail: seq<byte>)
    requires psi.id != 0xff
    ensures
      var sent := length % 0x400;
      var d := Decode(Open(Header(psi, length) + tail));
      if sent < 9 then d.status == Error
      else if |tail| + 5 < sent then d.status == Incomplete
      else d == Decoded(Success, psi.(sectionLength := sent), Open(tail))
  {
    SameHeader(psi, length);
    hide Header, Decode, DecodeRest, VersionWord;
    LengthParsed(psi, length % 0x400, tail);
    if 9 <= length % 0x400 <= |tail| + 5 {
      WholeSection(psi, length % 0x400, tail);
    }
  }

  lemma SameHeader(psi: Psi, length: int)
    ensures Header(psi, length) == Header(psi, length % 0x400)
  {
    assert LengthFields(length) == LengthFields(length % 0x400);
  }

  lemma RestReadsBack(psi: Psi, tail: seq<byte>)
    ensures
      var rest := Be(psi.idExtension, 2)
                  + (Be(VersionWord(psi), 1) + (Be(psi.sectionNumber, 1) + (Be(psi.lastSectionNumber, 1) + tail)));
      DecodeRest(psi.(idExtension := 0, version := 0, current := 0, sectionNumber := 0, lastSectionNumber := 0),
                 Open(rest)) ==
      Decoded(Success, psi, Open(tail))
  {
    hide Be, VersionWord, ReadVersion, ReadFlag;
    var d, e, f := Be(VersionWord(psi), 1), Be(psi.sectionNumber, 1), Be(psi.lastSectionNumber, 1);
    U16ReadsBack(psi.idExtension, d + (e + (f + tail)));
    VersionReadsBack(psi);
    AF.ByteReadsBack(VersionWord(psi), e + (f + tail));
    AF.ByteReadsBack(psi.sectionNumber, f + tail);
    AF.ByteReadsBack(psi.lastSectionNumber, tail);
  }
}
