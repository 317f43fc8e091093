/** The program association table (src/ts/ts_pat.c). */
module ProgramAssociation {
  import opened Words
  import opened Bytestreams
  import P = TsPackets
  import AF = AdaptationFields
  import S = PsiSections

  datatype Pat = Pat(id: nat, idExtension: nat, version: nat, programNumber: S.u16, programPid: P.Pid)

  /** ts_pat_construct. */
  const EMPTY := Pat(0, 0, 0, 0, 0)

  /** The section header every packed PAT has. */
  const SECTION := S.Psi(0x00, 0, 0x01, 0, 1, 0, 0)

  function Fields(pat: Pat): seq<Field> {
    [Field(pat.programNumber, 0, 16), Field(0x07, 16, 3), Field(pat.programPid, 19, 13)]
  }

  function Word(pat: Pat): nat {
    Pack(Fields(pat), 32)
  }

  /** The PAT in a fresh buffer. */
  function Encode(pat: Pat): seq<byte> {
    Be(0, 1) + S.Encode(SECTION, Be(Word(pat), 4), 1)
  }

  /** ts_pat_pack_buffer into an empty buffer, whose data pointer may or may not be set. */
  method PackPat(pat: Pat, hasData: bool) returns (n: Status, bytes: seq<byte>)
    ensures n == Success && bytes == Encode(pat)
  {
    hide S.Encode, Word;
    var s := new Bytestream.OfBuffer([], hasData);
    n := S.PackPointer(s);
    var data := new Bytestream.OfBuffer([], hasData);
    data.WriteNumber(Word(pat), 4);
    assert data.data[data.begin..data.end] == Be(Word(pat), 4) && s.Size() == 1;
    n := S.PackPsi(SECTION, s, data.data[data.begin..data.end]);
    AddAdd(Buffer(0, []), Be(0, 1), S.Encode(SECTION, Be(Word(pat), 4), 1));
    bytes := s.data;
    assert [] + Encode(pat) == Encode(pat);
  }

  datatype Decoded = Decoded(status: Status, pat: Pat)

  function ReadPid(v: nat, offset: nat): P.Pid
    requires offset + 13 <= 32
  {
    Pow2Values();
    ReadBits(v, 32, offset, 13)
  }

  function ReadProgram(v: nat): S.u16 {
    Pow2Values();
    ReadBits(v, 32, 0, 16)
  }

  /** ts_pat_unpack_stream into a table that has just been constructed. */
  function Decode(r: Input): Decoded {
    var r1 := S.DecodePointer(r);
    if r1.Failed? then Decoded(Incomplete, EMPTY)
    else
      var d := S.Decode(r1);
      if d.status != Success then Decoded(d.status, EMPTY)
      else
        var pat := EMPTY.(id := d.psi.id, idExtension := d.psi.idExtension, version := d.psi.version);
        var v := d.rest.Number(4);
        if ReadBits(v, 32, 16, 3) != 7 then Decoded(Error, pat)
        else
          var full := pat.(programNumber := ReadProgram(v), programPid := ReadPid(v, 19));
          if pat.id != 0 then Decoded(Error, full)
          else Decoded(Done(d.rest.Drop(4).Drop(4)), full)
  }

  method UnpackPat(s: Bytestream) returns (n: Status, pat: Pat)
    requires s.Ok()
    modifies s
    ensures s.Ok() && Decoded(n, pat) == Decode(old(s.In()))
  {
    hide S.Decode, S.DecodePointer;
    pat := EMPTY;
    n := S.UnpackPointer(s);
    if n != Success {
      return;
    }
    var psi;
    n, psi := S.UnpackPsi(s);
    if n != Success {
      return;
    }
    pat := pat.(id := psi.id, idExtension := psi.idExtension, version := psi.version);
    var v := s.ReadNumber(4);
    if ReadBits(v, 32, 16, 3) != 7 {
      return Error, pat;
    }
    pat := pat.(programNumber := ReadProgram(v), programPid := ReadPid(v, 19));
    var crc := s.ReadNumber(4);
    if pat.id != 0 {
      return Error, pat;
    }
    n := s.Status();
  }

  lemma WordReadsBack(pat: Pat)
    ensures
      var w := Word(pat);
      && w < 0x1_0000_0000 && ReadBits(w, 32, 16, 3) == 7
      && ReadProgram(w) == pat.programNumber && ReadPid(w, 19) == pat.programPid
  {
    hide Pack, Pow2, ReadBits;
    var fs := Fields(pat);
    Pow2Values();
    PackBound(fs, 32);
    ReadAt(fs, 32, 0, pat.programNumber, 0, 16);
    ReadAt(fs, 32, 1, 0x07, 16, 3);
    ReadAt(fs, 32, 2, pat.programPid, 19, 13);
  }

  lemma PointerReadsBack(tail: seq<byte>)
    ensures S.DecodePointer(Open(Be(0, 1) + tail)) == Open(tail)
  {
    AF.ByteReadsBack(0, tail);
  }

  /** A packed PAT reads back with its program; table id, extension and version are the constants of the packer. */
  lemma RoundTrip(pat: Pat)
    ensures Decode(Open(Encode(pat))) == Decoded(Success, Pat(0, 1, 0, pat.programNumber, pat.programPid))
  {
    hide S.Header, S.Decode, S.Crc.CrcBytes, S.Crc.Crc, Word, Be, ReadBits, ReadProgram, ReadPid, S.DecodePointer;
    var data := Be(Word(pat), 4);
    var crc := S.Crc.CrcBytes(S.Crc.Crc(S.Section(SECTION, data)));
    var tail := crc + AF.Stuffing(S.Padding(1 + |S.Section(SECTION, data)| + 4));
    assert S.Encode(SECTION, data, 1) == S.Header(SECTION, 13) + (data + tail);
    PointerReadsBack(S.Encode(SECTION, data, 1));
    S.WholeSection(SECTION, 13, data + tail);
    WordReadsBack(pat);
    Pow2Values();
    ReadBackNumber(Word(pat), 4, tail);
  }
}
