/** What the parsers make of bytes, in plain arithmetic: for any input, written by this library or not. The reference
    functions read bytes by their positions; nothing in them is shared with the parsers. */
module ParsedBytes {
  import opened Words
  import opened Bytestreams
  import Pcr
  import AF = AdaptationFields
  import P = TsPackets
  import S = PsiSections
  import A = ProgramAssociation
  import M = ProgramMap
  import E = PesPackets
  import R = Remultiplexing

  // ---- reading at a position ----

  lemma At1(bs: seq<byte>, k: nat)
    requires k + 1 <= |bs|
    ensures Open(bs[k..]).Number(1) == bs[k] && Open(bs[k..]).Drop(1) == Open(bs[k + 1..])
    ensures AF.ReadByte(Open(bs[k..])) == bs[k]
  {
    FromBeOne(bs[k..][..1]);
    assert bs[k..][1..] == bs[k + 1..];
  }

  function Two(a: nat, b: nat): nat {
    a * 0x100 + b
  }

  function Four(a: nat, b: nat, c: nat, d: nat): nat {
    a * 0x100_0000 + b * 0x1_0000 + c * 0x100 + d
  }

  lemma At2(bs: seq<byte>, k: nat)
    requires k + 2 <= |bs|
    ensures Open(bs[k..]).Number(2) == Two(bs[k], bs[k + 1]) && Open(bs[k..]).Drop(2) == Open(bs[k + 2..])
  {
    var w := bs[k..][..2];
    assert w == [bs[k], bs[k + 1]] && w[..1] == [bs[k]];
    FromBeOne(w[..1]);
    assert bs[k..][2..] == bs[k + 2..];
  }

  lemma At4(bs: seq<byte>, k: nat)
    requires k + 4 <= |bs|
    ensures Open(bs[k..]).Number(4) == Four(bs[k], bs[k + 1], bs[k + 2], bs[k + 3])
    ensures Open(bs[k..]).Drop(4) == Open(bs[k + 4..])
  {
    var w := bs[k..][..4];
    assert w == [bs[k], bs[k + 1], bs[k + 2], bs[k + 3]];
    assert w[..3] == [bs[k], bs[k + 1], bs[k + 2]] && w[..3][..2] == [bs[k], bs[k + 1]] && w[..3][..2][..1] == [bs[k]];
    FromBeOne([bs[k]]);
    assert FromBe([bs[k], bs[k + 1]]) == Two(bs[k], bs[k + 1]);
    assert FromBe([bs[k], bs[k + 1], bs[k + 2]]) == Two(bs[k], bs[k + 1]) * 256 + bs[k + 2];
    assert bs[k..][4..] == bs[k + 4..];
  }

  lemma TooShort(bs: seq<byte>, k: nat, n: nat)
    requires k <= |bs| < k + n
    ensures Open(bs[k..]).Number(n) == 0 && Open(bs[k..]).Drop(n) == Failed
  {
    FromBeOfZeros(n);
  }

  lemma Skip(bs: seq<byte>, k: nat, n: nat)
    requires k <= |bs|
    ensures Open(bs[k..]).Drop(n) == if k + n <= |bs| then Open(bs[k + n..]) else Failed
  {
    if k + n <= |bs| {
      assert bs[k..][n..] == bs[k + n..];
    }
  }

  lemma NothingRead(n: nat)
    ensures Failed.Number(n) == 0 && Failed.Drop(n) == Failed
  {
    FromBeOfZeros(n);
  }

  // ---- bits of words ----

  /** Bits of the first byte of two. */
  lemma HighBits(a: nat, b: nat, k: nat, m: nat)
    requires b < 256 && k > 0 && m > 0
    ensures Two(a, b) / (256 * k) % m == a / k % m
  {
    DivModUnique(Two(a, b), 256, a, b);
    DivDiv(Two(a, b), 256, k);
  }

  /** Bits of the second. */
  lemma LowBits(a: nat, b: nat, k: nat, m: nat, j: nat)
    requires k > 0 && m > 0 && k * m * j == 256 && b < 256
    ensures Two(a, b) / k % m == b / k % m
  {
    LowPart(a, b, k * m, j);
    BitsOfRemainder(Two(a, b), k, m);
    BitsOfRemainder(b, k, m);
  }

  lemma LowPart(a: nat, b: nat, n: nat, j: nat)
    requires n > 0 && n * j == 256
    ensures (a * 256 + b) % n == b % n
  {
    var q, r := b / n, b % n;
    assert a * (n * j) == (a * j) * n;
    Distribute2(a * j, q, n);
    DivModUnique(a * 256 + b, n, a * j + q, r);
  }

  lemma BitsOfRemainder(w: nat, k: nat, m: nat)
    requires k > 0 && m > 0
    ensures k * m > 0 && w / k % m == w % (k * m) / k
  {
    DivDiv(w, k, m);
    DivModUnique(w % (k * m), k, w / k % m, w % k);
  }

  // ---- PES packets ----

  /** Thirty-three bits in three parts, each with a marker bit behind it that is not looked at. */
  function StampAt(bs: seq<byte>, k: nat): (t: int)
    requires k + 5 <= |bs|
    ensures 0 <= t < 0x2_0000_0000
  {
    var a: int, b: int, c: int, d: int, e: int := bs[k], bs[k + 1], bs[k + 2], bs[k + 3], bs[k + 4];
    a / 2 % 8 * 0x4000_0000 + b * 0x40_0000 + c / 2 * 0x8000 + d * 0x80 + e / 2
  }

  lemma ThreeBits(v: nat)
    ensures E.ReadThree(v) == v / 2 % 8
  {
    Pow2Values();
  }

  lemma FifteenBits(a: byte, b: byte)
    ensures E.ReadFifteen(Two(a, b)) == a as int * 128 + b as int / 2
  {
    Pow2Values();
    DivModUnique(Two(a, b), 2, a as int * 128 + b as int / 2, b as int % 2);
  }

  /** Five bytes are read as a time stamp, whatever the marker bits. */
  lemma StampParsed(bs: seq<byte>, k: nat)
    requires k + 5 <= |bs|
    ensures E.DecodeStamp(Open(bs[k..])) == StampAt(bs, k) && E.AfterStamp(Open(bs[k..])) == Open(bs[k + 5..])
  {
    At1(bs, k);
    At2(bs, k + 1);
    At2(bs, k + 3);
    ThreeBits(bs[k]);
    FifteenBits(bs[k + 1], bs[k + 2]);
    FifteenBits(bs[k + 3], bs[k + 4]);
    hide FromBe, E.ReadThree, E.ReadFifteen, Two;
  }

  lemma StampMissing(bs: seq<byte>, k: nat)
    requires k <= |bs| < k + 5
    ensures E.AfterStamp(Open(bs[k..])).Failed?
  {
  }

  /** A packet that is accepted: the start code, a length that is right, or zero for video, and a header whose counted
      bytes hold the stamps and are there; two stream ids have no header. */
  predicate PesOk(bs: seq<byte>) {
    && |bs| >= 6 && bs[..3] == [0, 0, 1]
    && (if Two(bs[4], bs[5]) == 0 then 0xe0 <= bs[3] < 0xf0 else Two(bs[4], bs[5]) == |bs| - 6)
    && (bs[3] == 0xbe || bs[3] == 0xbf || HeaderOk(bs))
  }

  function PtsBit(b: int): int {
    b / 128 % 2
  }

  function DtsBit(b: int): int {
    b / 64 % 2
  }

  predicate HeaderOk(bs: seq<byte>)
    requires |bs| >= 6
  {
    |bs| >= 9 &&
    var flags: int, stamps: int, counted: int := bs[6], bs[7], bs[8];
    flags / 64 == 2 && 5 * PtsBit(stamps) + 5 * DtsBit(stamps) <= counted && 9 + counted <= |bs|
  }

  /** What the header's bits say. */
  function FlagsFrom(bs: seq<byte>): E.Pes
    requires |bs| >= 8
  {
    var flags: int, stamps: int := bs[6], bs[7];
    E.EMPTY.(streamId := bs[3], scrambling := flags / 16 % 4, priority := flags / 8 % 2, alignment := flags / 4 % 2,
             copyright := flags / 2 % 2, original := flags % 2, ptsFlag := PtsBit(stamps), dtsFlag := DtsBit(stamps))
  }

  /** What the header says: its bits, and the stamps. */
  function HeaderFrom(bs: seq<byte>): E.Pes
    requires |bs| >= 6 && HeaderOk(bs)
  {
    var pes := FlagsFrom(bs);
    pes.(pts := if pes.ptsFlag == 1 then StampAt(bs, 9) else 0,
         dts := if pes.dtsFlag == 1 then StampAt(bs, 9 + 5 * pes.ptsFlag) else 0)
  }

  /** What the packet is. The data begins behind all the bytes that the header counts. */
  function PesFrom(bs: seq<byte>): E.Pes
    requires PesOk(bs)
  {
    if bs[3] == 0xbe || bs[3] == 0xbf then E.EMPTY.(streamId := bs[3], data := bs[6..])
    else
      var counted: int := bs[8];
      HeaderFrom(bs).(data := bs[9 + counted..])
  }

  lemma HighFlag(a: byte, b: byte, offset: nat, k: nat)
    requires offset < 8 && Pow2(7 - offset) == k && Pow2(15 - offset) == 256 * k
    ensures ReadFlag(Two(a, b), 16, offset) == a as int / k % 2
  {
    HighBits(a, b, k, 2);
    Pow2Values();
    hide Two;
  }

  lemma LowFlag(a: byte, b: byte, offset: nat, k: nat, j: nat)
    requires 8 <= offset < 16 && Pow2(15 - offset) == k && k * 2 * j == 256 && k > 0
    ensures ReadFlag(Two(a, b), 16, offset) == b as int / k % 2
  {
    LowBits(a, b, k, 2, j);
    Pow2Values();
    hide Two;
  }

  lemma HighPair(a: byte, b: byte)
    ensures E.ReadScrambling(Two(a, b)) == a as int / 16 % 4 && ReadBits(Two(a, b), 16, 0, 2) == a as int / 64
  {
    HighBits(a, b, 16, 4);
    HighBits(a, b, 64, 4);
    Pow2Values();
    Pow2Fourteen();
    hide Two, Pow2;
  }

  lemma FlagBits(bs: seq<byte>)
    requires |bs| >= 8
    ensures E.FromFlags(E.EMPTY.(streamId := bs[3]), Two(bs[6], bs[7])) == FlagsFrom(bs)
    ensures var flags: int := bs[6]; ReadBits(Two(bs[6], bs[7]), 16, 0, 2) == flags / 64
  {
    Pow2Values();
    Pow2Fourteen();
    hide Pow2, Two, ReadBits, E.ReadScrambling;
    HighPair(bs[6], bs[7]);
    HighFlag(bs[6], bs[7], 4, 8);
    HighFlag(bs[6], bs[7], 5, 4);
    HighFlag(bs[6], bs[7], 6, 2);
    HighFlag(bs[6], bs[7], 7, 1);
    LowFlag(bs[6], bs[7], 8, 128, 1);
    LowFlag(bs[6], bs[7], 9, 64, 2);
  }

  lemma Pow2Fourteen()
    ensures Pow2(11) == 0x800 && Pow2(12) == 0x1000 && Pow2(14) == 0x4000
  {
    Pow2Values();
    Pow2Add(8, 3);
    Pow2Add(8, 4);
    Pow2Add(8, 6);
  }

  lemma PtsParsed(pes: E.Pes, left: nat, bs: seq<byte>, k: nat)
    requires k <= |bs|
    ensures
      E.TakePts(E.Part(true, pes, left, Open(bs[k..]))) ==
      if pes.ptsFlag == 0 then E.Part(true, pes, left, Open(bs[k..]))
      else if left >= 5 && k + 5 <= |bs| then E.Part(true, pes.(pts := StampAt(bs, k)), left - 5, Open(bs[k + 5..]))
      else E.Part(false, pes, 0, if k + 5 <= |bs| then Open(bs[k + 5..]) else Failed)
  {
    if k + 5 <= |bs| {
      StampParsed(bs, k);
    } else {
      StampMissing(bs, k);
    }
    hide E.DecodeStamp, E.AfterStamp, StampAt;
  }

  lemma DtsParsed(pes: E.Pes, left: nat, bs: seq<byte>, k: nat)
    requires k <= |bs|
    ensures
      E.TakeDts(E.Part(true, pes, left, Open(bs[k..]))) ==
      if pes.dtsFlag == 0 then E.Part(true, pes, left, Open(bs[k..]))
      else if left >= 5 && k + 5 <= |bs| then E.Part(true, pes.(dts := StampAt(bs, k)), left - 5, Open(bs[k + 5..]))
      else E.Part(false, pes, 0, if k + 5 <= |bs| then Open(bs[k + 5..]) else Failed)
  {
    if k + 5 <= |bs| {
      StampParsed(bs, k);
    } else {
      StampMissing(bs, k);
    }
    hide E.DecodeStamp, E.AfterStamp, StampAt;
  }

  lemma HeaderParsed(bs: seq<byte>)
    requires |bs| >= 6
    ensures
      var p := E.DecodeHeader(E.EMPTY.(streamId := bs[3]), Open(bs[6..]));
      if HeaderOk(bs) then
        var counted: int := bs[8];
        p == E.Part(true, HeaderFrom(bs), 0, Open(bs[9 + counted..]))
      else !p.ok || p.rest.Failed?
  {
    if |bs| < 8 {
      TooShort(bs, 6, 2);
      Pow2Fourteen();
      assert ReadBits(0, 16, 0, 2) == 0;
    } else {
      hide FromBe, ReadBits, Two, E.FromFlags, E.TakePts, E.TakeDts, E.SkipLeft, HeaderFrom;
      At2(bs, 6);
      FlagBits(bs);
      var pes := E.FromFlags(E.EMPTY.(streamId := bs[3]), Two(bs[6], bs[7]));
      if |bs| == 8 {
        TooShort(bs, 8, 1);
        MissingCount(pes);
      } else {
        At1(bs, 8);
        CountedParsed(bs);
      }
    }
  }

  lemma CountedParsed(bs: seq<byte>)
    requires |bs| >= 9
    ensures
      var counted: int, flags: int := bs[8], bs[6];
      var p := E.SkipLeft(E.TakeDts(E.TakePts(E.Part(true, FlagsFrom(bs), counted, Open(bs[9..])))));
      if HeaderOk(bs) then p == E.Part(true, HeaderFrom(bs), 0, Open(bs[9 + counted..]))
      else flags / 64 == 2 ==> !p.ok || p.rest.Failed?
  {
    hide E.TakePts, E.TakeDts, StampAt;
    var pes := FlagsFrom(bs);
    var counted: int := bs[8];
    StampsParsed(pes, bs);
    var used := 5 * pes.ptsFlag + 5 * pes.dtsFlag;
    if used <= counted && 9 + used <= |bs| {
      Skip(bs, 9 + used, counted - used);
    }
  }

  lemma MissingCount(pes: E.Pes)
    ensures var p := E.TakeDts(E.TakePts(E.Part(true, pes, 0, Failed))); !p.ok || p.rest.Failed?
  {
  }

  /** The stamps of a header are taken off the bytes it counts. */
  lemma StampsParsed(pes: E.Pes, bs: seq<byte>)
    requires |bs| >= 9
    ensures
      var counted: int := bs[8];
      var used := 5 * pes.ptsFlag + 5 * pes.dtsFlag;
      var p := E.TakeDts(E.TakePts(E.Part(true, pes, counted, Open(bs[9..]))));
      if used <= counted && 9 + used <= |bs| then
        p == E.Part(true, pes.(pts := if pes.ptsFlag == 1 then StampAt(bs, 9) else pes.pts,
                               dts := if pes.dtsFlag == 1 then StampAt(bs, 9 + 5 * pes.ptsFlag) else pes.dts),
                    counted - used, Open(bs[9 + used..]))
      else !p.ok
  {
    var counted: int := bs[8];
    PtsParsed(pes, counted, bs, 9);
    var p := E.TakePts(E.Part(true, pes, counted, Open(bs[9..])));
    if p.ok {
      DtsParsed(p.pes, p.left, bs, 9 + 5 * pes.ptsFlag);
    }
    hide E.TakePts, StampAt;
  }

  lemma StartBits(a: byte, b: byte, c: byte, d: byte)
    ensures ReadBits(Four(a, b, c, d), 32, 0, 24) == a as int * 0x1_0000 + b as int * 0x100 + c as int
    ensures E.ReadId(Four(a, b, c, d)) == d
  {
    Pow2Values();
    var x: int := a as int * 0x1_0000 + b as int * 0x100 + c as int;
    DivModUnique(Four(a, b, c, d), 256, x, d);
    hide Four, Pow2;
  }

  lemma ShortPes(bs: seq<byte>)
    requires |bs| < 6
    ensures E.Decode(Open(bs)) == E.Decoded(Error, E.EMPTY)
  {
    assert bs[0..] == bs;
    if |bs| < 4 {
      TooShort(bs, 0, 4);
      assert ReadBits(0, 32, 0, 24) == 0 by { Pow2Values(); }
    } else {
      At4(bs, 0);
      StartBits(bs[0], bs[1], bs[2], bs[3]);
      hide FromBe, ReadBits, E.ReadId, E.DecodeHeader, Four;
      TooShort(bs, 4, 2);
      NoHeader(bs[3]);
    }
  }

  lemma NoHeader(id: byte)
    ensures !E.DecodeHeader(E.EMPTY.(streamId := id), Failed).ok
  {
    NothingRead(2);
    Pow2Fourteen();
    assert ReadBits(0, 16, 0, 2) == 0;
  }

  /** The first six bytes. */
  lemma PesStart(bs: seq<byte>)
    requires |bs| >= 6
    ensures
      var r := Open(bs);
      && (ReadBits(r.Number(4), 32, 0, 24) == 1 <==> bs[..3] == [0, 0, 1])
      && E.ReadId(r.Number(4)) == bs[3] && r.Drop(4).Number(2) == Two(bs[4], bs[5])
      && r.Drop(4).Drop(2) == Open(bs[6..])
  {
    assert bs[0..] == bs && bs[..3] == [bs[0], bs[1], bs[2]];
    At4(bs, 0);
    At2(bs, 4);
    StartBits(bs[0], bs[1], bs[2], bs[3]);
    hide FromBe, ReadBits, E.ReadId, Four, Two;
  }

  /** For all bytes: a packet is accepted exactly when it is one, and is what its bytes say. */
  lemma PesParsed(bs: seq<byte>)
    ensures E.Decode(Open(bs)) == if PesOk(bs) then E.Decoded(Success, PesFrom(bs)) else E.Decoded(Error, E.EMPTY)
  {
    hide FromBe, ReadBits, E.ReadId, E.DecodeHeader, HeaderFrom, Two, HeaderOk;
    if |bs| < 6 {
      ShortPes(bs);
    } else {
      PesStart(bs);
      HeaderParsed(bs);
    }
  }

  /** A video packet with a time stamp and one more byte that its header counts: the byte is not data. */
  lemma CountedByteIsSkipped()
    ensures
      var bs := [0, 0, 1, 0xe0, 0, 0, 0x80, 0x80, 6, 0x21, 0, 1, 0, 1, 0xff, 0xaa];
      E.Decode(Open(bs)).status == Success && E.Decode(Open(bs)).pes.data == [0xaa]
  {
    var bs: seq<byte> := [0, 0, 1, 0xe0, 0, 0, 0x80, 0x80, 6, 0x21, 0, 1, 0, 1, 0xff, 0xaa];
    assert bs[..3] == [0, 0, 1] && bs[15..] == [0xaa] && |bs| == 16;
    assert bs[3] == 0xe0 && bs[4] == 0 && bs[5] == 0 && bs[6] == 0x80 && bs[7] == 0x80 && bs[8] == 6;
    assert PtsBit(0x80) == 1 && DtsBit(0x80) == 0;
    hide E.Decode, PtsBit, DtsBit, HeaderFrom;
    assert PesOk(bs);
    PesParsed(bs);
  }

  // ---- sections ----

  /** What comes behind the bytes that a pointer counts. */
  function Pointed(bs: seq<byte>): Input {
    if bs == [] then Failed
    else
      var count: int := bs[0];
      if 1 + count <= |bs| then Open(bs[1 + count..]) else Failed
  }

  lemma PointerParsed(bs: seq<byte>)
    ensures S.DecodePointer(Open(bs)) == Pointed(bs)
  {
    assert bs[0..] == bs;
    if bs == [] {
      TooShort(bs, 0, 1);
    } else {
      At1(bs, 0);
      var count: int := bs[0];
      Skip(bs, 1, count);
    }
  }

  /** A section header: incomplete if it, or what its length says, is not all there; an error if a fixed bit is wrong or
      the length too small; and a table id of 0xff is taken by itself. */
  function SectionFrom(bs: seq<byte>): S.Decoded {
    if bs == [] then S.Decoded(Incomplete, S.EMPTY, Failed)
    else if bs[0] == 0xff then S.Decoded(Success, S.EMPTY.(id := 0xff), Open(bs[1..]))
    else if |bs| < 3 then S.Decoded(Incomplete, S.EMPTY.(id := bs[0]), Failed)
    else
      var flags: int, low: int := bs[1], bs[2];
      var psi := S.EMPTY.(id := bs[0]);
      if flags / 16 != 0xb || flags / 4 % 4 != 0 then S.Decoded(Error, psi, Open(bs[3..]))
      else
        var length := flags % 4 * 256 + low;
        var sized := psi.(sectionLength := length);
        if length < 9 then S.Decoded(Error, sized, Open(bs[3..]))
        else if |bs| - 3 < length then S.Decoded(Incomplete, sized, Open(bs[3..]))
        else SectionRest(sized, bs)
  }

  function SectionRest(psi: S.Psi, bs: seq<byte>): S.Decoded
    requires |bs| >= 12
  {
    var version: int := bs[5];
    var extended := psi.(idExtension := Two(bs[3], bs[4]));
    if version / 64 != 3 then S.Decoded(Error, extended, Open(bs[6..]))
    else
      S.Decoded(Success, extended.(version := version / 2 % 32, current := version % 2, sectionNumber := bs[6],
                                   lastSectionNumber := bs[7]), Open(bs[8..]))
  }

  lemma LengthBits(a: byte, b: byte)
    ensures
      var flags: int, low: int := a, b;
      && (S.LengthOk(Two(a, b)) <==> flags / 16 == 0xb && flags / 4 % 4 == 0)
      && S.ReadLength(Two(a, b)) == flags % 4 * 256 + low
  {
    var flags: int, low: int := a, b;
    Pow2Values();
    Pow2Fourteen();
    HighBits(a, b, 128, 2);
    HighBits(a, b, 64, 2);
    HighBits(a, b, 16, 4);
    HighBits(a, b, 4, 4);
    DivModUnique(Two(a, b), 0x400, flags / 4, flags % 4 * 256 + low);
    DivModUnique(Two(a, b), 1, Two(a, b), 0);
    TopNibble(flags);
    hide Two, Pow2;
  }

  lemma TopNibble(x: int)
    requires 0 <= x < 256
    ensures x / 128 % 2 == 1 && x / 64 % 2 == 0 && x / 16 % 4 == 3 <==> x / 16 == 0xb
  {
    var n := x / 16;
    assert x / 128 == n / 8 && x / 64 == n / 4;
  }

  lemma VersionBits(v: byte)
    ensures
      var version: int := v;
      ReadBits(v, 8, 0, 2) == version / 64 && S.ReadVersion(v) == version / 2 % 32 && ReadFlag(v, 8, 7) == version % 2
  {
    Pow2Values();
  }

  lemma RestParsed(psi: S.Psi, bs: seq<byte>)
    requires |bs| >= 12
    ensures S.DecodeRest(psi, Open(bs[3..])) == SectionRest(psi, bs)
  {
    At2(bs, 3);
    At1(bs, 5);
    At1(bs, 6);
    At1(bs, 7);
    VersionBits(bs[5]);
    hide FromBe, ReadBits, ReadFlag, S.ReadVersion, Two;
  }

  /** For all bytes: the status of a section, its header and what is left are what the bytes say. */
  lemma SectionParsed(bs: seq<byte>)
    ensures S.Decode(Open(bs)) == SectionFrom(bs)
  {
    assert bs[0..] == bs;
    if bs == [] {
      TooShort(bs, 0, 1);
    } else {
      At1(bs, 0);
      if |bs| < 3 {
        TooShort(bs, 1, 2);
      } else {
        At2(bs, 1);
        LengthBits(bs[1], bs[2]);
        hide FromBe, S.LengthOk, S.ReadLength, S.DecodeRest, Two, SectionRest, AF.ReadByte;
        var flags: int, low: int := bs[1], bs[2];
        if flags % 4 * 256 + low <= |bs| - 3 && flags % 4 * 256 + low >= 9 {
          RestParsed(S.EMPTY.(id := bs[0], sectionLength := flags % 4 * 256 + low), bs);
        }
      }
    }
  }

  // ---- the program association table ----

  lemma PatBits(a: byte, b: byte, c: byte, d: byte)
    ensures
      var third: int, last: int := c, d;
      var v := Four(a, b, c, d);
      && ReadBits(v, 32, 16, 3) == third / 32 && A.ReadProgram(v) == Two(a, b)
      && A.ReadPid(v, 19) == third % 32 * 256 + last
  {
    var third: int, last: int := c, d;
    Pow2Values();
    var v := Four(a, b, c, d);
    DivModUnique(v, 0x1_0000, Two(a, b), Two(c, d));
    DivModUnique(v, 0x2000, Two(a, b) * 8 + third / 32, third % 32 * 256 + last);
    DivModUnique(Two(a, b) * 8 + third / 32, 8, Two(a, b), third / 32);
    DivModUnique(Two(a, b), 0x1_0000, 0, Two(a, b));
    DivModUnique(v, 1, v, 0);
    hide Pow2;
  }

  /** For all bytes: a PAT is incomplete if its pointer or its section is, and otherwise accepted exactly when its
      section is one, its table id is 0, the fixed bits of its first entry are right, and four more bytes follow. */
  lemma PatParsed(bs: seq<byte>)
    ensures
      var d, r := A.Decode(Open(bs)), Pointed(bs);
      if r.Failed? then d.status == Incomplete
      else
        var q := r.rest;
        if SectionFrom(q).status != Success then d.status == SectionFrom(q).status
        else if q[0] != 0 || |q| < 16 then d.status == Error
        else
          var version: int, third: int, last: int := q[5], q[10], q[11];
          if third / 32 != 7 then d.status == Error
          else
            d == A.Decoded(Success, A.Pat(0, Two(q[3], q[4]), version / 2 % 32, Two(q[8], q[9]),
                third % 32 * 256 + last))
  {
    hide FromBe, S.Decode, S.DecodePointer, A.ReadProgram, A.ReadPid, ReadBits, Four, Two;
    PointerParsed(bs);
    var r := Pointed(bs);
    if r.Open? {
      var q := r.rest;
      SectionParsed(q);
      if SectionFrom(q).status == Success && q[0] == 0 {
        At4(q, 8);
        Skip(q, 12, 4);
        PatBits(q[8], q[9], q[10], q[11]);
      }
    }
  }

  // ---- the program map table ----

  /** A descriptor in a loop of `length` bytes: the first one is taken, and the loop is passed over as a whole. */
  function DescriptorFrom(bs: seq<byte>, length: nat): M.DescriptorDecoded {
    if length < 2 || length > |bs| then M.DescriptorDecoded(false, M.NO_DESCRIPTOR, Open(bs))
    else
      var size: int := bs[1];
      if size + 2 > length then M.DescriptorDecoded(false, M.NO_DESCRIPTOR, Open(bs[2..]))
      else M.DescriptorDecoded(true, M.Descriptor(bs[0], bs[2..2 + size]), Open(bs[length..]))
  }

  /** For all bytes: also when other descriptors follow the first one in its loop. */
  lemma DescriptorParsed(bs: seq<byte>, length: nat)
    ensures M.DecodeDescriptor(Open(bs), length) == DescriptorFrom(bs, length)
  {
    hide FromBe, AF.ReadByte, Input.Drop, Input.Number;
    assert bs[0..] == bs;
    if 2 <= length <= |bs| {
      At1(bs, 0);
      At1(bs, 1);
      var size: int := bs[1];
      if size + 2 <= length {
        Skip(bs, 2, size);
        Skip(bs, 2 + size, length - size - 2);
        assert bs[2..][..size] == bs[2..2 + size];
      }
    }
  }

  /** A PID with a loop of descriptors. */
  function EntryFrom(bs: seq<byte>): M.EntryDecoded {
    if |bs| < 4 then M.EntryDecoded(false, 0, M.NO_DESCRIPTOR, Failed)
    else
      var first: int, second: int, third: int, last: int := bs[0], bs[1], bs[2], bs[3];
      if first / 32 != 7 || third / 16 != 0xf || third / 4 % 4 != 0 then
        M.EntryDecoded(false, 0, M.NO_DESCRIPTOR, Open(bs[4..]))
      else
        var pid, length := first % 32 * 256 + second, third % 4 * 256 + last;
        if length == 0 then M.EntryDecoded(true, pid, M.NO_DESCRIPTOR, Open(bs[4..]))
        else
          var d := DescriptorFrom(bs[4..], length);
          M.EntryDecoded(d.ok, pid, d.descriptor, d.rest)
  }

  lemma EntryBits(a: byte, b: byte, c: byte, d: byte)
    ensures
      var first: int, second: int, third: int, last: int := a, b, c, d;
      var v := Four(a, b, c, d);
      && (M.EntryOk(v) <==> first / 32 == 7 && third / 16 == 0xf && third / 4 % 4 == 0)
      && A.ReadPid(v, 3) == first % 32 * 256 + second && M.InfoLength(v) == third % 4 * 256 + last
  {
    var first: int, second: int, third: int, last: int := a, b, c, d;
    var v := Four(a, b, c, d);
    EntryHigh(a, b, c, d);
    EntryLow(a, b, c, d);
    hide Four;
  }

  lemma EntryHigh(a: byte, b: byte, c: byte, d: byte)
    ensures
      var first: int, second: int := a, b;
      var v := Four(a, b, c, d);
      ReadBits(v, 32, 0, 3) == first / 32 && A.ReadPid(v, 3) == first % 32 * 256 + second
  {
    var first: int, second: int := a, b;
    var v := Four(a, b, c, d);
    Pow2Values();
    Pow2Add(16, 13);
    DivModUnique(v, 0x2000_0000, first / 32, first % 32 * 0x100_0000 + second * 0x1_0000 + Two(c, d));
    DivModUnique(v, 0x1_0000, Two(a, b), Two(c, d));
    DivModUnique(Two(a, b), 0x2000, first / 32, first % 32 * 256 + second);
    hide Pow2;
  }

  lemma EntryLow(a: byte, b: byte, c: byte, d: byte)
    ensures
      var third: int, last: int := c, d;
      var v := Four(a, b, c, d);
      && ReadBits(v, 32, 16, 4) == third / 16 && ReadBits(v, 32, 20, 2) == third / 4 % 4
      && M.InfoLength(v) == third % 4 * 256 + last
  {
    var third: int, last: int := c, d;
    var v, n := Four(a, b, c, d), Two(a, b);
    Pow2Values();
    Pow2Fourteen();
    DivModUnique(v, 0x1000, n * 16 + third / 16, third % 16 * 256 + last);
    DivModUnique(n * 16 + third / 16, 16, n, third / 16);
    DivModUnique(v, 0x400, n * 64 + third / 4, third % 4 * 256 + last);
    DivModUnique(n * 64 + third / 4, 4, n * 16 + third / 16, third / 4 % 4);
    DivModUnique(v, 1, v, 0);
    hide Pow2;
  }

  lemma NoEntry(r: Input)
    requires !r.Has(4)
    ensures !M.EntryOk(r.Number(4))
  {
    FromBeOfZeros(4);
    Pow2Values();
    Pow2Add(16, 13);
    assert r.Number(4) == 0 && ReadBits(0, 32, 0, 3) == 0;
  }

  lemma EntryParsed(bs: seq<byte>)
    ensures M.DecodeEntry(Open(bs)) == EntryFrom(bs)
  {
    assert bs[0..] == bs;
    if |bs| < 4 {
      NoEntry(Open(bs));
    } else {
      At4(bs, 0);
      EntryBits(bs[0], bs[1], bs[2], bs[3]);
      hide FromBe, M.EntryOk, M.InfoLength, A.ReadPid, M.DecodeDescriptor, Four, DescriptorFrom;
      var third: int, last: int := bs[2], bs[3];
      DescriptorParsed(bs[4..], third % 4 * 256 + last);
    }
  }

  lemma EntryShrinks(bs: seq<byte>)
    ensures EntryFrom(bs).ok ==> EntryFrom(bs).rest.Open? && |EntryFrom(bs).rest.rest| + 4 <= |bs|
  {
  }

  /** Stream types with entries, to the end of the data. */
  function StreamsFrom(bs: seq<byte>): M.StreamsDecoded
    decreases |bs|
  {
    if bs == [] then M.StreamsDecoded(true, [])
    else
      var e := EntryFrom(bs[1..]);
      EntryShrinks(bs[1..]);
      if !e.ok then M.StreamsDecoded(false, [])
      else
        var more := StreamsFrom(e.rest.rest);
        M.StreamsDecoded(more.ok, [M.PmtStream(bs[0], e.pid, e.descriptor)] + more.streams)
  }

  lemma {:induction false} StreamsParsed(bs: seq<byte>)
    ensures M.DecodeStreams(Open(bs)) == StreamsFrom(bs)
    decreases |bs|
  {
    hide M.DecodeEntry, EntryFrom, AF.ReadByte;
    if bs != [] {
      assert bs[0..] == bs;
      At1(bs, 0);
      EntryParsed(bs[1..]);
      EntryShrinks(bs[1..]);
      var e := EntryFrom(bs[1..]);
      if e.ok {
        StreamsParsed(e.rest.rest);
      }
    }
  }

  /** For all bytes: a PMT is incomplete if its pointer or its section is, and otherwise accepted exactly when its
      section is one, its table id is 2, and its data, which is as long as the section says, is one entry and then
      streams. */
  lemma PmtParsed(bs: seq<byte>)
    ensures
      var d, r := M.Decode(Open(bs)), Pointed(bs);
      if r.Failed? then d.status == Incomplete
      else
        var q := r.rest;
        var section := SectionFrom(q);
        if section.status != Success then d.status == section.status
        else if q[0] != 2 then d.status == Error
        else
          var e := EntryFrom(q[8..section.psi.sectionLength - 1]);
          if !e.ok || !StreamsFrom(e.rest.rest).ok then d.status == Error
          else
            var version: int := q[5];
            d == M.Decoded(Success, M.Pmt(2, Two(q[3], q[4]), version / 2 % 32, e.pid, e.descriptor,
                                          StreamsFrom(e.rest.rest).streams))
  {
    hide FromBe, S.Decode, S.DecodePointer, M.DecodeEntry, M.DecodeStreams, EntryFrom, StreamsFrom, Two;
    PointerParsed(bs);
    var r := Pointed(bs);
    if r.Open? {
      var q := r.rest;
      SectionParsed(q);
      var section := SectionFrom(q);
      if section.status == Success && q[0] == 2 {
        var length := section.psi.sectionLength;
        assert section.rest.Bytes(length - 9) == q[8..][..length - 9] == q[8..length - 1];
        EntryParsed(q[8..length - 1]);
        EntryShrinks(q[8..length - 1]);
        var e := EntryFrom(q[8..length - 1]);
        if e.ok {
          StreamsParsed(e.rest.rest);
        }
      }
    }
  }

  /** Whatever follows a descriptor in its loop is passed over. */
  lemma RestOfLoopIsPassed(d: M.Descriptor, more: seq<byte>, tail: seq<byte>)
    requires d.tag != 0
    ensures M.DecodeDescriptor(Open([d.tag, |d.data|] + d.data + more + tail), M.DescriptorSize(d) + |more|) ==
            M.DescriptorDecoded(true, d, Open(tail))
  {
    var bs := [d.tag, |d.data|] + d.data + more + tail;
    var n := |d.data| + 2 + |more|;
    DescriptorParsed(bs, n);
    assert bs[1] == |d.data| && bs[0] == d.tag && bs[2..2 + |d.data|] == d.data && bs[n..] == tail;
  }

  // ---- clocks ----

  /** Any six bytes are read as a clock: 33 bits, six that are not looked at, and nine. */
  lemma ClockParsed(bs: seq<byte>)
    requires |bs| == 6
    ensures
      var a: int, b: int, c: int, d: int, e: int, f: int := bs[0], bs[1], bs[2], bs[3], bs[4], bs[5];
      R.ClockOf(bs) ==
      (a * 0x200_0000 + b * 0x2_0000 + c * 0x200 + d * 2 + e / 128) * 300 + (e % 2 * 256 + f)
  {
    hide FromBe, ReadBits, Four, Two;
    ClockReads(bs);
    ClockBits(bs[0], bs[1], bs[2], bs[3], bs[4], bs[5]);
  }

  lemma ClockReads(bs: seq<byte>)
    requires |bs| == 6
    ensures
      var v := Four(bs[0], bs[1], bs[2], bs[3]) * 0x1_0000 + Two(bs[4], bs[5]);
      R.ClockOf(bs) == ReadBits(v, 48, 0, 33) * 300 + ReadBits(v, 48, 39, 9)
  {
    hide FromBe, ReadBits, Four, Two;
    assert bs[0..] == bs;
    At4(bs, 0);
    At2(bs, 4);
  }

  lemma ClockBits(a: byte, b: byte, c: byte, d: byte, e: byte, f: byte)
    ensures
      var p: int, q: int, r: int, s: int, t: int, u: int := a, b, c, d, e, f;
      var v := Four(a, b, c, d) * 0x1_0000 + Two(e, f);
      && ReadBits(v, 48, 0, 33) == p * 0x200_0000 + q * 0x2_0000 + r * 0x200 + s * 2 + t / 128
      && ReadBits(v, 48, 39, 9) == t % 2 * 256 + u
  {
    var p: int, q: int, r: int, s: int, t: int, u: int := a, b, c, d, e, f;
    var w := Four(a, b, c, d);
    var v := w * 0x1_0000 + Two(e, f);
    var base := w * 2 + t / 128;
    Pow2Values();
    DivModUnique(v, 0x8000, base, t % 128 * 256 + u);
    DivModUnique(base, 0x2_0000_0000, 0, base);
    DivModUnique(v, 1, v, 0);
    DivModUnique(v, 0x200, w * 128 + t / 2, t % 2 * 256 + u);
    hide Pow2;
  }

  // ---- EBP records ----

  /** The time of a record: eight bytes behind those that its flags announce. */
  function EbpTime(d: seq<byte>): u64
    requires R.IsEbp(d)
  {
    var flags: int := if |d| > 6 then d[6] else 0;
    var at := 7 + flags % 2 + flags / 32 % 2 + 2 * (flags / 16 % 2);
    if flags / 8 % 2 == 1 && at + 8 <= |d| then TimeAt(d, at) else 0
  }

  function TimeAt(d: seq<byte>, at: nat): u64
    requires at + 8 <= |d|
  {
    TimeInRange(d, at);
    Four(d[at], d[at + 1], d[at + 2], d[at + 3]) * 0x1_0000_0000 + Four(d[at + 4], d[at + 5], d[at + 6], d[at + 7])
  }

  lemma TimeInRange(d: seq<byte>, at: nat)
    requires at + 8 <= |d|
    ensures Four(d[at], d[at + 1], d[at + 2], d[at + 3]) < 0x1_0000_0000
    ensures Four(d[at + 4], d[at + 5], d[at + 6], d[at + 7]) < 0x1_0000_0000
  {
  }

  lemma At8(d: seq<byte>, at: nat)
    requires at + 8 <= |d|
    ensures Open(d[at..]).Number(8) == TimeAt(d, at)
  {
    At4(d, at);
    At4(d, at + 4);
    Pow2Values();
    var a, b := d[at..at + 4], d[at + 4..at + 8];
    assert d[at..][..8] == a + b && d[at..][..4] == a && d[at + 4..][..4] == b;
    hide Four, Pow2;
    FromBeJoin(a, b);
    hide FromBe;
  }

  lemma EbpFlags(v: byte)
    ensures
      var flags: int := v;
      && ReadFlag(v, 8, 7) == flags % 2 && ReadFlag(v, 8, 2) == flags / 32 % 2
      && ReadFlag(v, 8, 3) == flags / 16 % 2 && ReadFlag(v, 8, 4) == flags / 8 % 2
  {
    Pow2Values();
  }

  lemma EbpStart(d: seq<byte>)
    requires R.IsEbp(d)
    ensures Open(d).Number(1) == 0xdf && Open(d).Drop(1).Drop(1).Bytes(4) == AF.EBP_ID
    ensures Open(d).Drop(1).Drop(1).Drop(4) == Open(d[6..])
  {
    R.EbpReads(d);
    assert d[0..] == d;
    Skip(d, 0, 1);
    Skip(d, 1, 1);
    Skip(d, 2, 4);
  }

  /** The reads behind the flags of a record. */
  lemma EbpReads(d: seq<byte>, flags: int)
    requires |d| > 6 && 0 <= flags < 256
    ensures
      var r2 := Open(d[7..]);
      var r3 := if flags % 2 == 1 then r2.Drop(1) else r2;
      var r4 := if flags / 32 % 2 == 1 then r3.Drop(1) else r3;
      var r5 := if flags / 16 % 2 == 1 then r4.Drop(2) else r4;
      var at := 7 + flags % 2 + flags / 32 % 2 + 2 * (flags / 16 % 2);
      r5.Number(8) == if at + 8 <= |d| then TimeAt(d, at) else 0
  {
    hide TimeAt, Input.Drop, Input.Number;
    var at3 := 7 + flags % 2;
    var at4 := at3 + flags / 32 % 2;
    var at5 := at4 + 2 * (flags / 16 % 2);
    DropOrNot(d, 7, 1, flags % 2 == 1);
    if at3 <= |d| {
      DropOrNot(d, at3, 1, flags / 32 % 2 == 1);
      if at4 <= |d| {
        DropOrNot(d, at4, 2, flags / 16 % 2 == 1);
      }
    }
    NothingRead(1);
    NothingRead(2);
    NothingRead(8);
    if at5 + 8 <= |d| {
      At8(d, at5);
    } else if at5 <= |d| {
      TooShort(d, at5, 8);
    }
  }

  lemma DropOrNot(d: seq<byte>, k: nat, n: nat, announced: bool)
    requires k <= |d|
    ensures
      var m := if announced then n else 0;
      (if announced then Open(d[k..]).Drop(n) else Open(d[k..])) == if k + m <= |d| then Open(d[k + m..]) else Failed
  {
    Skip(d, k, n);
  }

  /** For all bytes: what is taken for an EBP record, and its time, whatever else its flags announce. */
  lemma EbpParsed(d: seq<byte>)
    ensures AF.DecodeEbp(Open(d)) == if R.IsEbp(d) then AF.Ebp(true, EbpTime(d)) else AF.NO_EBP
  {
    hide ReadFlag, TimeAt, FromBe;
    if R.IsEbp(d) {
      EbpStart(d);
      if |d| > 6 {
        At1(d, 6);
        EbpFlags(d[6]);
        EbpReads(d, d[6]);
      } else {
        TooShort(d, 6, 1);
        EbpFlags(0);
      }
    } else {
      R.EbpIs(d);
    }
  }

  // ---- adaptation fields ----

  /** The flags byte of a field. */
  function FieldFlags(b: int): AF.AdaptationField {
    AF.EMPTY.(discontinuity := b / 128 % 2, randomAccess := b / 64 % 2, priority := b / 32 % 2, pcrFlag := b / 16 % 2,
              opcrFlag := b / 8 % 2, splicingFlag := b / 4 % 2, privateFlag := b / 2 % 2, extensionFlag := b % 2)
  }

  /** Where the clocks and the splice countdown end, counted from the length byte. */
  function OpcrAt(a: AF.AdaptationField): int {
    2 + 6 * a.pcrFlag
  }

  function SpliceAt(a: AF.AdaptationField): int {
    OpcrAt(a) + 6 * a.opcrFlag
  }

  function PrivateAt(a: AF.AdaptationField): int {
    SpliceAt(a) + a.splicingFlag
  }

  /** The clocks and the splice countdown, where the flags announce them. */
  function TimesFrom(a: AF.AdaptationField, bs: seq<byte>): AF.AdaptationField
    requires PrivateAt(a) <= |bs|
  {
    a.(pcr := if a.pcrFlag == 1 then R.ClockOf(bs[2..8]) else a.pcr,
       opcr := if a.opcrFlag == 1 then R.ClockOf(bs[OpcrAt(a)..OpcrAt(a) + 6]) else a.opcr,
       spliceCountdown := if a.splicingFlag == 1 then bs[SpliceAt(a)] else a.spliceCountdown)
  }

  lemma FieldFlagBits(b: byte)
    ensures AF.FromFlags(b) == FieldFlags(b)
  {
    Pow2Values();
  }

  lemma ClockAt(bs: seq<byte>, k: nat)
    requires k <= |bs|
    ensures k + 6 <= |bs| ==> Pcr.Decode(Open(bs[k..])) == R.ClockOf(bs[k..k + 6])
    ensures Open(bs[k..]).Drop(4).Drop(2) == if k + 6 <= |bs| then Open(bs[k + 6..]) else Failed
  {
    hide FromBe, ReadBits;
    Skip(bs, k, 4);
    if k + 4 <= |bs| {
      Skip(bs, k + 4, 2);
    }
    if k + 6 <= |bs| {
      var c := bs[k..k + 6];
      assert bs[k..][..4] == c[..4] && bs[k..][4..][..2] == c[4..][..2];
    }
  }

  lemma TimesParsed(a: AF.AdaptationField, bs: seq<byte>)
    requires |bs| >= 2
    ensures
      var p := AF.TakeTimes(a, Open(bs[2..]));
      p.af.privateFlag == a.privateFlag &&
      if PrivateAt(a) <= |bs| then p == AF.Part(TimesFrom(a, bs), Open(bs[PrivateAt(a)..])) else p.rest.Failed?
  {
    hide R.ClockOf, Pcr.Decode, AF.ReadByte, Input.Drop, Input.Number;
    ClockAt(bs, 2);
    NothingRead(1);
    NothingRead(2);
    NothingRead(4);
    if OpcrAt(a) <= |bs| {
      ClockAt(bs, OpcrAt(a));
      if SpliceAt(a) < |bs| {
        At1(bs, SpliceAt(a));
      } else if SpliceAt(a) == |bs| {
        TooShort(bs, SpliceAt(a), 1);
      }
    }
  }

  /** Where the private data ends, if it fits in the stream. */
  function PrivateEnd(a: AF.AdaptationField, bs: seq<byte>): int
    requires PrivateAt(a) < |bs|
  {
    var count: int := bs[PrivateAt(a)];
    PrivateAt(a) + 1 + count
  }

  function PrivateFrom(bs: seq<byte>, from: nat, to: nat): AF.PrivateData
    requires from <= to <= |bs| && to - from < 256
  {
    bs[from..to]
  }

  /** What a field is: its flags, but never an extension; clocks and countdown; private data, and the record in it. */
  function FieldFrom(a: AF.AdaptationField, bs: seq<byte>): AF.AdaptationField
    requires PrivateAt(a) <= |bs| && (a.privateFlag == 1 ==> PrivateAt(a) < |bs| && PrivateEnd(a, bs) <= |bs|)
  {
    var times := TimesFrom(a, bs).(extensionFlag := 0);
    if a.privateFlag == 0 then times
    else
      var data := PrivateFrom(bs, PrivateAt(a) + 1, PrivateEnd(a, bs));
      times.(privateData := data, ebp := if R.IsEbp(data) then AF.Ebp(true, EbpTime(data)) else AF.NO_EBP)
  }

  lemma PrivateParsed(p: AF.Part, bs: seq<byte>, k: nat)
    requires k <= |bs| && p.rest == Open(bs[k..]) && p.af.privateFlag == 1
    ensures
      if k == |bs| then !AF.PrivateTooLong(p) && AF.TakePrivate(p).rest.Failed?
      else
        var count: int := bs[k];
        if k + 1 + count > |bs| then AF.PrivateTooLong(p) && p.rest.Drop(1) == Open(bs[k + 1..])
        else
          var data := PrivateFrom(bs, k + 1, k + 1 + count);
          && !AF.PrivateTooLong(p)
          && AF.TakePrivate(p) ==
             AF.Part(p.af.(privateData := data, ebp := if R.IsEbp(data) then AF.Ebp(true, EbpTime(data))
                 else AF.NO_EBP),
                     Open(bs[k + 1 + count..]))
  {
    hide FromBe, AF.DecodeEbp, EbpTime, R.IsEbp;
    if k == |bs| {
      TooShort(bs, k, 1);
    } else {
      At1(bs, k);
      var count: int := bs[k];
      Skip(bs, k + 1, count);
      if k + 1 + count <= |bs| {
        assert bs[k + 1..][..count] == bs[k + 1..k + 1 + count];
        EbpParsed(bs[k + 1..k + 1 + count]);
      }
    }
  }

  /** The rest of a field of `len` bytes, read from a stream of `size` bytes behind the length, when `used` of them have
      been read. If too many have been, the count to skip wraps. */
  lemma RestSkipped(p: AF.Part, bs: seq<byte>, len: byte, end: nat)
    requires 1 <= end <= |bs| < 0x1_0000_0000_0000_0000 && p.rest == Open(bs[end..])
    ensures
      var d := AF.SkipRest(p, len, |bs| - 1);
      var n: int := len;
      if end <= 1 + n <= |bs| then d == AF.Decoded(Success, p.af.(extensionFlag := 0), Open(bs[1 + n..]))
      else d.status == Error && d.rest == Failed
  {
    var n: int := len;
    assert Sub64(|bs| - 1, |bs| - end) == end - 1;
    if end - 1 <= n {
      assert Sub64(n, end - 1) == n - (end - 1);
      Skip(bs, end, n - (end - 1));
    } else {
      assert Sub64(n, end - 1) == 0x1_0000_0000_0000_0000 + n - (end - 1);
    }
  }

  lemma RestFailed(p: AF.Part, len: nat, size: nat)
    requires p.rest.Failed?
    ensures AF.SkipRest(p, len, size).status == Error && AF.SkipRest(p, len, size).rest == Failed
  {
  }

  lemma LongFieldParsed(bs: seq<byte>)
    requires 2 <= |bs| < 0x1_0000_0000_0000_0000
    ensures
      var a, len: int := FieldFlags(bs[1]), bs[0];
      var p := AF.TakeTimes(a, Open(bs[2..]));
      var d :=
        if AF.PrivateTooLong(p) then AF.Decoded(Error, p.af, p.rest.Drop(1))
        else AF.SkipRest(AF.TakePrivate(p), bs[0], |bs| - 1);
      if PrivateAt(a) + a.privateFlag > |bs| then d.status == Error && d.rest == Failed
      else if a.privateFlag == 1 && PrivateEnd(a, bs) > |bs| then
        d.status == Error && d.rest == Open(bs[PrivateAt(a) + 1..])
      else if (if a.privateFlag == 1 then PrivateEnd(a, bs) else PrivateAt(a)) <= 1 + len <= |bs| then
        d == AF.Decoded(Success, FieldFrom(a, bs), Open(bs[1 + len..]))
      else d.status == Error && d.rest == Failed
  {
    hide FromBe, AF.TakeTimes, AF.SkipRest, FieldFlags, TimesFrom, AF.DecodeEbp, EbpTime, R.IsEbp;
    var a := FieldFlags(bs[1]);
    var p := AF.TakeTimes(a, Open(bs[2..]));
    TimesParsed(a, bs);
    if PrivateAt(a) > |bs| {
      NothingPrivate(p);
      RestFailed(AF.TakePrivate(p), bs[0], |bs| - 1);
    } else if a.privateFlag == 0 {
      RestSkipped(p, bs, bs[0], PrivateAt(a));
    } else {
      PrivateParsed(p, bs, PrivateAt(a));
      if PrivateAt(a) == |bs| {
        RestFailed(AF.TakePrivate(p), bs[0], |bs| - 1);
      } else if PrivateEnd(a, bs) <= |bs| {
        RestSkipped(AF.TakePrivate(p), bs, bs[0], PrivateEnd(a, bs));
      }
    }
  }

  lemma NothingPrivate(p: AF.Part)
    requires p.rest.Failed?
    ensures !AF.PrivateTooLong(p) && AF.TakePrivate(p).rest.Failed?
  {
    NothingRead(1);
    hide AF.DecodeEbp;
  }

  lemma NoFlagsLeft(len: nat)
    ensures
      var p := AF.TakeTimes(AF.FromFlags(0), Failed);
      !AF.PrivateTooLong(p) && AF.SkipRest(AF.TakePrivate(p), len, 0).status == Error
      && AF.SkipRest(AF.TakePrivate(p), len, 0).rest == Failed
  {
    hide AF.FromFlags, AF.TakeTimes, AF.SkipRest;
    ZeroFlags();
    EmptyTimes();
    RestFailed(AF.Part(AF.EMPTY, Failed), len, 0);
  }

  lemma ZeroFlags()
    ensures AF.FromFlags(0) == AF.EMPTY
  {
    Pow2Values();
  }

  lemma EmptyTimes()
    ensures AF.TakeTimes(AF.EMPTY, Failed) == AF.Part(AF.EMPTY, Failed)
  {
  }

  /** For all bytes: a field is accepted exactly when what its flags announce fits in its length, and that in the
      stream; then it is what its bytes say, and what is behind its length is left. When private data alone is too
      long for the stream, the stream stays as it is behind the count; in every other error it fails. */
  lemma FieldParsed(bs: seq<byte>)
    requires |bs| < 0x1_0000_0000_0000_0000
    ensures
      var d := AF.Decode(Open(bs));
      if bs == [] then d.status == Error && d.rest == Failed
      else if bs[0] == 0 then d == AF.Decoded(Success, AF.EMPTY, Open(bs[1..]))
      else if |bs| == 1 then d.status == Error && d.rest == Failed
      else
        var len: int, a := bs[0], FieldFlags(bs[1]);
        if PrivateAt(a) + a.privateFlag > |bs| then d.status == Error && d.rest == Failed
        else if a.privateFlag == 1 && PrivateEnd(a, bs) > |bs| then
          d.status == Error && d.rest == Open(bs[PrivateAt(a) + 1..])
        else if (if a.privateFlag == 1 then PrivateEnd(a, bs) else PrivateAt(a)) <= 1 + len <= |bs| then
          d == AF.Decoded(Success, FieldFrom(a, bs), Open(bs[1 + len..]))
        else d.status == Error && d.rest == Failed
  {
    assert bs[0..] == bs;
    if bs == [] {
      TooShort(bs, 0, 1);
    } else {
      At1(bs, 0);
      if |bs| == 1 {
        TooShort(bs, 1, 1);
        NoFlagsLeft(bs[0]);
      } else {
        At1(bs, 1);
        FieldFlagBits(bs[1]);
        hide FromBe, AF.FromFlags, AF.TakeTimes, AF.TakePrivate, AF.PrivateTooLong, AF.SkipRest, FieldFlags;
        LongFieldParsed(bs);
      }
    }
  }

  // ---- packets ----

  /** The header of a packet; the first byte is not looked at. */
  function PacketHeader(bs: seq<byte>): P.Packet
    requires |bs| >= 4
  {
    var b: int, c: int, d: int := bs[1], bs[2], bs[3];
    P.EMPTY.(errorIndicator := b / 128, unitStart := b / 64 % 2, priority := b / 32 % 2, pid := b % 32 * 256 + c,
             scrambling := d / 64, control := d / 16 % 4, counter := d % 16)
  }

  lemma PacketFlag(x: nat, q: nat, low: nat, k: nat)
    requires q < 256 && low < 0x1_0000 && k > 0
    ensures (x * 0x100_0000 + q * 0x1_0000 + low) / (0x1_0000 * k) == (x * 256 + q) / k
  {
    var w := x * 0x100_0000 + q * 0x1_0000 + low;
    DivModUnique(w, 0x1_0000, x * 256 + q, low);
    DivDiv(w, 0x1_0000, k);
  }

  lemma PacketHigh(a: byte, b: byte, c: byte, d: byte)
    ensures
      var q: int, r: int := b, c;
      var w := Four(a, b, c, d);
      && w / 0x80_0000 % 2 == q / 128 && w / 0x40_0000 % 2 == q / 64 % 2 && w / 0x20_0000 % 2 == q / 32 % 2
  {
    var p: int, q: int := a, b;
    var low := Two(c, d);
    PacketFlag(p, q, low, 128);
    PacketFlag(p, q, low, 64);
    PacketFlag(p, q, low, 32);
    LowBits(p, q, 128, 2, 1);
    LowBits(p, q, 64, 2, 2);
    LowBits(p, q, 32, 2, 4);
  }

  lemma PacketPid(a: byte, b: byte, c: byte, d: byte)
    ensures var q: int, r: int := b, c; Four(a, b, c, d) / 0x100 % 0x2000 == q % 32 * 256 + r
  {
    var p: int, q: int, r: int := a, b, c;
    DivModUnique(Four(a, b, c, d), 0x100, p * 0x1_0000 + q * 256 + r, d);
    DivModUnique(p * 0x1_0000 + q * 256 + r, 0x2000, p * 8 + q / 32, q % 32 * 256 + r);
  }

  lemma PacketBits(a: byte, b: byte, c: byte, d: byte)
    ensures P.FromHeader(Four(a, b, c, d)) == PacketHeader([a, b, c, d])
  {
    var w := Four(a, b, c, d);
    PacketHigh(a, b, c, d);
    PacketPid(a, b, c, d);
    PacketLow(w, a as int * 0x1_0000 + b as int * 256 + c as int, d);
    hide P.FromHeader, Four;
    R.HeaderFields(w);
  }

  lemma PacketLow(w: nat, high: nat, d: byte)
    requires w == high * 256 + d
    ensures var s: int := d; w / 64 % 4 == s / 64 && w / 16 % 4 == s / 16 % 4 && w % 16 == s % 16
  {
    var s: int := d;
    DivModUnique(w, 64, high * 4 + s / 64, s % 64);
    DivModUnique(high * 4 + s / 64, 4, high, s / 64);
    DivModUnique(w, 16, high * 16 + s / 16, s % 16);
    DivModUnique(high * 16 + s / 16, 4, high * 4 + s / 64, s / 16 % 4);
  }

  lemma PacketStart(bs: seq<byte>)
    requires |bs| >= 4
    ensures P.FromHeader(Open(bs).Number(4)) == PacketHeader(bs) && Open(bs).Drop(4) == Open(bs[4..])
  {
    hide P.FromHeader, FromBe, Four;
    assert bs[0..] == bs;
    At4(bs, 0);
    PacketBits(bs[0], bs[1], bs[2], bs[3]);
  }

  lemma PayloadParsed(p: P.Packet, bs: seq<byte>, used: nat)
    requires 4 <= used <= |bs| && PACKET_SIZE <= |bs| < 0x1_0000_0000_0000_0000
    ensures
      P.TakePayload(p, Open(bs[used..]), |bs|) ==
      if !p.HasPayload() then P.Decoded(Success, p, Open(bs[used..]))
      else if used <= PACKET_SIZE then
        P.Decoded(Success, p.(payload := bs[used..PACKET_SIZE]), Open(bs[PACKET_SIZE..]))
      else P.Decoded(Error, p.(payload := Zeros(Sub64(PACKET_SIZE, used))), Failed)
  {
    Difference(|bs|, |bs| - used);
    if used <= PACKET_SIZE {
      Difference(PACKET_SIZE, used);
      Skip(bs, used, PACKET_SIZE - used);
      assert bs[used..][..PACKET_SIZE - used] == bs[used..PACKET_SIZE];
    } else {
      assert Sub64(PACKET_SIZE, used) == 0x1_0000_0000_0000_0000 + PACKET_SIZE - used;
    }
  }

  const PACKET_SIZE := P.PACKET_SIZE

  /** For all bytes: fewer than 188 are incomplete and stay; otherwise the header is what its bytes say, a field is
      parsed if it is announced, and a payload, if it is announced, is the rest of the 188 bytes. A packet without a
      payload ends behind its field, and a field that is longer than its packet leaves no payload but an error. */
  lemma PacketParsed(bs: seq<byte>)
    requires |bs| < 0x1_0000_0000_0000_0000
    ensures
      var d := P.Decode(Open(bs));
      if |bs| < PACKET_SIZE then d == P.Decoded(Incomplete, P.EMPTY, Open(bs))
      else
        var p, len: int := PacketHeader(bs), bs[4];
        var f := AF.Decode(Open(bs[4..]));
        if p.control == 0 then d == P.Decoded(Success, p, Open(bs[4..]))
        else if p.control == 1 then
          d == P.Decoded(Success, p.(payload := bs[4..PACKET_SIZE]), Open(bs[PACKET_SIZE..]))
        else if f.status != Success then d.status == f.status && d.rest == f.rest
        else if p.control == 2 then
          5 + len <= |bs| && d == P.Decoded(Success, p.(field := f.af), Open(bs[5 + len..]))
        else if 5 + len <= PACKET_SIZE then
          d == P.Decoded(Success, p.(field := f.af, payload := bs[5 + len..PACKET_SIZE]), Open(bs[PACKET_SIZE..]))
        else d.status == Error && d.rest == Failed
  {
    hide P.FromHeader, FromBe, AF.Decode, P.TakePayload, PacketHeader, FieldFrom, FieldFlags;
    if |bs| >= PACKET_SIZE {
      PacketStart(bs);
      var p := PacketHeader(bs);
      if p.control <= 1 {
        PayloadParsed(p, bs, 4);
      } else {
        var f := AF.Decode(Open(bs[4..]));
        FieldLeaves(bs[4..]);
        if f.status == Success {
          var len: int := bs[4];
          assert bs[4..][1 + len..] == bs[5 + len..];
          PayloadParsed(p.(field := f.af), bs, 5 + len);
        }
      }
    }
  }

  /** A field that is accepted leaves what is behind its length. */
  lemma FieldLeaves(bs: seq<byte>)
    requires 0 < |bs| < 0x1_0000_0000_0000_0000
    ensures
      var d, len: int := AF.Decode(Open(bs)), bs[0];
      d.status == Success ==> 1 + len <= |bs| && d.rest == Open(bs[1 + len..])
  {
    FieldParsed(bs);
    hide AF.Decode, FieldFrom, FieldFlags;
  }
}
