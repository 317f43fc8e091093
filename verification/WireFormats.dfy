/** What the packed words look like byte by byte, in plain arithmetic, without the bit-field functions that both the
    packers and the parsers use. */
module WireFormats {
  import opened Words
  import AF = AdaptationFields
  import P = TsPackets
  import S = PsiSections
  import A = ProgramAssociation
  import M = ProgramMap
  import E = PesPackets
  import Pcr
  import Crc
  import V = ProgramUnits
  import T = StreamTable

  // ---- packing is adding ----

  /** The fields of a word, each shifted to its place, added up. */
  function Worth(fs: seq<Field>, size: nat): nat
    requires InWord(fs, size)
  {
    if fs == [] then 0
    else
      var f := fs[|fs| - 1];
      Worth(fs[..|fs| - 1], size) + WriteBits(f.value, size, f.offset, f.bits)
  }

  predicate InOrder(fs: seq<Field>) {
    forall i, j :: 0 <= i < j < |fs| ==> fs[i].offset + fs[i].bits <= fs[j].offset
  }

  lemma HalfIsMultiple(a: nat, m: nat)
    requires m > 0 && a % (2 * m) == 0
    ensures a % 2 == 0 && a / 2 % m == 0
  {
    var q := a / (2 * m);
    MulAssoc(q, 2, m);
    DivModUnique(a, 2, q * m, 0);
    DivModUnique(q * m, m, q, 0);
  }

  lemma {:induction false} OrAdds(a: nat, b: nat, k: nat)
    requires a % Pow2(k) == 0 && b < Pow2(k)
    ensures Or(a, b) == a + b
  {
    if k > 0 {
      HalfIsMultiple(a, Pow2(k - 1));
      OrAdds(a / 2, b / 2, k - 1);
      OrHalves(a, b);
    }
  }

  lemma Multiple(v: nat, j: nat, k: nat)
    requires k <= j
    ensures v * Pow2(j) % Pow2(k) == 0
  {
    hide Pow2;
    Pow2Add(j - k, k);
    MulAssoc(v, Pow2(j - k), Pow2(k));
    DivModUnique(v * Pow2(j), Pow2(k), v * Pow2(j - k), 0);
  }

  lemma Quotient(a: nat, m: nat)
    requires m > 0 && a % m == 0
    ensures a / m * m == a
  {
  }

  lemma MultipleDown(a: nat, j: nat, k: nat)
    requires a % Pow2(j) == 0 && k <= j
    ensures a % Pow2(k) == 0
  {
    hide Pow2;
    Quotient(a, Pow2(j));
    Multiple(a / Pow2(j), j, k);
  }

  lemma MultiplesAdd(a: nat, b: nat, m: nat)
    requires m > 0 && a % m == 0 && b % m == 0
    ensures (a + b) % m == 0
  {
    Distribute2(a / m, b / m, m);
    DivModUnique(a + b, m, a / m + b / m, 0);
  }

  /** ORing fields that stand one after another adds them. */
  lemma {:induction false} PackIsWorth(fs: seq<Field>, size: nat, end: nat)
    requires InWord(fs, size) && InOrder(fs) && end <= size
    requires forall i :: 0 <= i < |fs| ==> fs[i].offset + fs[i].bits <= end
    ensures Pack(fs, size) == Worth(fs, size) && Worth(fs, size) % Pow2(size - end) == 0
    decreases |fs|
  {
    if fs == [] {
      DivModUnique(0, Pow2(size - end), 0, 0);
    } else {
      hide Pow2, Or;
      var f, init := fs[|fs| - 1], fs[..|fs| - 1];
      var v, s := f.value % Pow2(f.bits), size - f.offset - f.bits;
      PackIsWorth(init, size, f.offset);
      ShiftedBelow(v, f.bits, s, size - f.offset);
      OrAdds(Worth(init, size), v * Pow2(s), size - f.offset);
      MultipleDown(Worth(init, size), size - f.offset, size - end);
      Multiple(v, s, size - end);
      MultiplesAdd(Worth(init, size), v * Pow2(s), Pow2(size - end));
    }
  }

  // ---- small words ----

  function Place(f: Field, size: nat): nat
    requires f.offset + f.bits <= size
  {
    WriteBits(f.value, size, f.offset, f.bits)
  }

  lemma Next(fs: seq<Field>, size: nat, n: nat)
    requires InWord(fs, size) && n < |fs|
    ensures Worth(fs[..n + 1], size) == Worth(fs[..n], size) + Place(fs[n], size)
  {
    assert fs[..n + 1][..n] == fs[..n];
  }

  lemma Three(fs: seq<Field>, size: nat)
    requires InWord(fs, size) && InOrder(fs) && |fs| == 3
    ensures Pack(fs, size) == Place(fs[0], size) + Place(fs[1], size) + Place(fs[2], size)
  {
    PackIsWorth(fs, size, size);
    assert fs[..0] == [] && fs[..3] == fs;
    hide Place, WriteBits;
    Next(fs, size, 0);
    Next(fs, size, 1);
    Next(fs, size, 2);
  }

  lemma Two(a: Field, b: Field, size: nat)
    requires InWord([a, b], size) && InOrder([a, b])
    ensures a.offset + a.bits <= size && b.offset + b.bits <= size
    ensures Pack([a, b], size) == Place(a, size) + Place(b, size)
  {
    var fs := [a, b];
    assert fs[0] == a && fs[1] == b;
    PackIsWorth(fs, size, size);
    assert fs[..0] == [] && fs[..2] == fs;
    hide Place, WriteBits;
    Next(fs, size, 0);
    Next(fs, size, 1);
  }

  lemma Four(fs: seq<Field>, size: nat)
    requires InWord(fs, size) && InOrder(fs) && |fs| == 4
    ensures Pack(fs, size) == Place(fs[0], size) + Place(fs[1], size) + Place(fs[2], size) + Place(fs[3], size)
  {
    PackIsWorth(fs, size, size);
    assert fs[..0] == [] && fs[..4] == fs;
    hide Place, WriteBits;
    Next(fs, size, 0);
    Next(fs, size, 1);
    Next(fs, size, 2);
    Next(fs, size, 3);
  }

  lemma Five(fs: seq<Field>, size: nat)
    requires InWord(fs, size) && InOrder(fs) && |fs| == 5
    ensures Pack(fs, size) ==
            Place(fs[0], size) + Place(fs[1], size) + Place(fs[2], size) + Place(fs[3], size) + Place(fs[4], size)
  {
    PackIsWorth(fs, size, size);
    assert fs[..0] == [] && fs[..5] == fs;
    hide Place, WriteBits;
    Next(fs, size, 0);
    Next(fs, size, 1);
    Next(fs, size, 2);
    Next(fs, size, 3);
    Next(fs, size, 4);
  }

  lemma EightOf(fs: seq<Field>, size: nat)
    requires InWord(fs, size) && InOrder(fs) && |fs| == 8
    ensures Pack(fs, size) ==
            Place(fs[0], size) + Place(fs[1], size) + Place(fs[2], size) + Place(fs[3], size) +
            Place(fs[4], size) + Place(fs[5], size) + Place(fs[6], size) + Place(fs[7], size)
  {
    PackIsWorth(fs, size, size);
    assert fs[..0] == [] && fs[..8] == fs;
    hide Place, WriteBits;
    Next(fs, size, 0);
    Next(fs, size, 1);
    Next(fs, size, 2);
    Next(fs, size, 3);
    Next(fs, size, 4);
    Next(fs, size, 5);
    Next(fs, size, 6);
    Next(fs, size, 7);
  }

  lemma Eight(a: Field, b: Field, c: Field, d: Field, e: Field, f: Field, g: Field, h: Field, size: nat)
    requires a.offset + a.bits <= b.offset && b.offset + b.bits <= c.offset && c.offset + c.bits <= d.offset
    requires d.offset + d.bits <= e.offset && e.offset + e.bits <= f.offset && f.offset + f.bits <= g.offset
    requires g.offset + g.bits <= h.offset && h.offset + h.bits <= size
    ensures InWord([a, b, c, d, e, f, g, h], size)
    ensures Pack([a, b, c, d, e, f, g, h], size) ==
            Place(a, size) + Place(b, size) + Place(c, size) + Place(d, size) +
            Place(e, size) + Place(f, size) + Place(g, size) + Place(h, size)
  {
    hide Pack, Place;
    EightOf([a, b, c, d, e, f, g, h], size);
  }

  lemma FourBytes(a: byte, b: byte, c: byte, d: byte)
    ensures Be(a * 0x100_0000 + b * 0x1_0000 + c * 0x100 + d, 4) == [a, b, c, d]
  {
    TwoBytes(a, b);
    var w := a * 0x100_0000 + b * 0x1_0000 + c * 0x100 + d;
    assert w / 256 == a * 0x1_0000 + b * 0x100 + c && w % 256 == d;
    assert w / 256 / 256 == a * 0x100 + b && w / 256 % 256 == c;
  }

  lemma TwoBytes(a: byte, b: byte)
    ensures Be(a * 0x100 + b, 2) == [a, b]
  {
    var w := a * 0x100 + b;
    assert w / 256 == a && w % 256 == b;
    assert Be(w / 256, 1) == [a];
  }

  /** The value of a field that fits its bits, moved up by a power of two that is written out. */
  lemma PlaceIs(f: Field, size: nat, bound: nat, factor: nat)
    requires f.offset + f.bits <= size && Pow2(f.bits) == bound && Pow2(size - f.offset - f.bits) == factor
    requires f.value < bound
    ensures Place(f, size) == f.value * factor
  {
    hide Pow2;
    DivModUnique(f.value, bound, 0, f.value);
  }

  // ---- the formats ----

  lemma HeaderWord(q: P.Packet)
    ensures Pack(P.Header(q), 32) ==
            0x47 * 0x100_0000 + q.errorIndicator * 0x80_0000 + q.unitStart * 0x40_0000 + q.priority * 0x20_0000 +
            q.pid * 0x100 + q.scrambling * 64 + q.control * 16 + q.counter
  {
    Pow2Values();
    Pow2More();
    hide Pow2, Pack, Place;
    var a, b := Field(0x47, 0, 8), Field(q.errorIndicator, 8, 1);
    var c, d := Field(q.unitStart, 9, 1), Field(q.priority, 10, 1);
    var e, f := Field(q.pid, 11, 13), Field(q.scrambling, 24, 2);
    var g, h := Field(q.control, 26, 2), Field(q.counter, 28, 4);
    PlaceIs(a, 32, 0x100, 0x100_0000);
    PlaceIs(b, 32, 2, 0x80_0000);
    PlaceIs(c, 32, 2, 0x40_0000);
    PlaceIs(d, 32, 2, 0x20_0000);
    PlaceIs(e, 32, 0x2000, 0x100);
    PlaceIs(f, 32, 4, 64);
    PlaceIs(g, 32, 4, 16);
    PlaceIs(h, 32, 16, 1);
    Eight(a, b, c, d, e, f, g, h, 32);
  }

  /** The four bytes in front of every packet (section 2.4.3.2 of ISO/IEC 13818-1). */
  lemma PacketHeader(p: P.Packet)
    ensures
      var q := P.Prepared(p);
      |P.Encode(p)| >= 4 &&
      P.Encode(p)[..4] ==
      [0x47, q.errorIndicator * 128 + q.unitStart * 64 + q.priority * 32 + q.pid / 256, q.pid % 256,
       q.scrambling * 64 + q.control * 16 + q.counter]
  {
    hide Pow2, Pack, Be, P.Prepared, P.FieldBytes, P.PayloadBytes;
    var q := P.Prepared(p);
    HeaderWord(q);
    FourBytes(0x47, q.errorIndicator * 128 + q.unitStart * 64 + q.priority * 32 + q.pid / 256, q.pid % 256,
              q.scrambling * 64 + q.control * 16 + q.counter);
  }

  lemma Pow2More()
    ensures Pow2(20) == 0x10_0000 && Pow2(21) == 0x20_0000 && Pow2(22) == 0x40_0000 && Pow2(23) == 0x80_0000
    ensures Pow2(12) == 0x1000 && Pow2(14) == 0x4000 && Pow2(17) == 0x2_0000
  {
    Pow2Values();
    Pow2Add(16, 4);
    Pow2Add(16, 5);
    Pow2Add(16, 6);
    Pow2Add(16, 7);
    Pow2Add(8, 4);
    Pow2Add(8, 6);
    Pow2Add(16, 1);
  }

  /** The flags of an adaptation field (section 2.4.3.4 of ISO/IEC 13818-1). */
  lemma FieldFlags(af: AF.AdaptationField)
    ensures Pack(AF.Flags(af), 8) ==
            af.discontinuity * 128 + af.randomAccess * 64 + af.priority * 32 + af.pcrFlag * 16 +
            af.opcrFlag * 8 + af.splicingFlag * 4 + af.privateFlag * 2 + af.extensionFlag
  {
    Pow2Values();
    hide Pow2, Pack, Place;
    var a, b := Field(af.discontinuity, 0, 1), Field(af.randomAccess, 1, 1);
    var c, d := Field(af.priority, 2, 1), Field(af.pcrFlag, 3, 1);
    var e, f := Field(af.opcrFlag, 4, 1), Field(af.splicingFlag, 5, 1);
    var g, h := Field(af.privateFlag, 6, 1), Field(af.extensionFlag, 7, 1);
    PlaceIs(a, 8, 2, 128);
    PlaceIs(b, 8, 2, 64);
    PlaceIs(c, 8, 2, 32);
    PlaceIs(d, 8, 2, 16);
    PlaceIs(e, 8, 2, 8);
    PlaceIs(f, 8, 2, 4);
    PlaceIs(g, 8, 2, 2);
    PlaceIs(h, 8, 2, 1);
    Eight(a, b, c, d, e, f, g, h, 8);
  }

  lemma LengthWordIs(length: int)
    ensures S.LengthWord(length) == 0xb000 + length % 0x400
  {
    Pow2Values();
    Pow2More();
    hide Pow2, Pack, Place;
    var fs := S.LengthFields(length);
    PlaceIs(fs[0], 16, 2, 0x8000);
    PlaceIs(fs[1], 16, 2, 0x4000);
    PlaceIs(fs[2], 16, 4, 0x1000);
    PlaceIs(fs[3], 16, 4, 0x400);
    PlaceIs(fs[4], 16, 0x400, 1);
    Five(fs, 16);
  }

  lemma VersionWordIs(psi: S.Psi)
    ensures S.VersionWord(psi) == 0xc0 + psi.version * 2 + psi.current
  {
    Pow2Values();
    hide Pow2, Pack, Place;
    var fs := S.VersionFields(psi);
    PlaceIs(fs[0], 8, 4, 64);
    PlaceIs(fs[1], 8, 32, 2);
    PlaceIs(fs[2], 8, 2, 1);
    Three(fs, 8);
  }

  lemma OneByte(a: byte)
    ensures Be(a, 1) == [a]
  {
    assert Be(a / 256, 0) == [];
  }

  /** The eight bytes in front of a section's data (section 2.4.4 of ISO/IEC 13818-1). */
  lemma SectionHeader(psi: S.Psi, length: int)
    ensures S.Header(psi, length) ==
            [psi.id, 0xb0 + length % 0x400 / 256, length % 256, psi.idExtension / 256, psi.idExtension % 256,
             0xc0 + psi.version * 2 + psi.current, psi.sectionNumber, psi.lastSectionNumber]
  {
    LengthWordIs(length);
    VersionWordIs(psi);
    hide Be, S.LengthWord, S.VersionWord;
    OneByte(psi.id);
    assert length % 0x400 % 256 == length % 256;
    TwoBytes(0xb0 + length % 0x400 / 256, length % 256);
    TwoBytes(psi.idExtension / 256, psi.idExtension % 256);
    OneByte(0xc0 + psi.version * 2 + psi.current);
    OneByte(psi.sectionNumber);
    OneByte(psi.lastSectionNumber);
  }

  lemma PatWordIs(pat: A.Pat)
    ensures A.Word(pat) == pat.programNumber * 0x1_0000 + 0xe000 + pat.programPid
  {
    Pow2Values();
    hide Pow2, Pack, Place;
    var fs := A.Fields(pat);
    PlaceIs(fs[0], 32, 0x1_0000, 0x1_0000);
    PlaceIs(fs[1], 32, 8, 0x2000);
    PlaceIs(fs[2], 32, 0x2000, 1);
    Three(fs, 32);
  }

  /** The entry of a program association table (section 2.4.4.3 of ISO/IEC 13818-1). */
  lemma PatEntry(pat: A.Pat)
    ensures Be(A.Word(pat), 4) ==
            [pat.programNumber / 256, pat.programNumber % 256, 0xe0 + pat.programPid / 256, pat.programPid % 256]
  {
    PatWordIs(pat);
    hide Be, A.Word;
    FourBytes(pat.programNumber / 256, pat.programNumber % 256, 0xe0 + pat.programPid / 256, pat.programPid % 256);
  }

  lemma PidWordIs(pid: P.Pid)
    ensures M.PidWord(pid) == 0xe000 + pid
  {
    Pow2Values();
    hide Pow2, Pack, Place;
    var a, b := Field(0x07, 0, 3), Field(pid, 3, 13);
    PlaceIs(a, 16, 8, 0x2000);
    PlaceIs(b, 16, 0x2000, 1);
    Two(a, b, 16);
  }

  lemma InfoWordIs(d: M.Descriptor)
    ensures M.InfoWord(d) == 0xf000 + M.DescriptorSize(d)
  {
    Pow2Values();
    Pow2More();
    hide Pow2, Pack, Place;
    var fs := M.InfoFields(d);
    PlaceIs(fs[0], 16, 16, 0x1000);
    PlaceIs(fs[1], 16, 4, 0x400);
    PlaceIs(fs[2], 16, 0x400, 1);
    Three(fs, 16);
  }

  /** A PID and a descriptor in a program map table (section 2.4.4.8 of ISO/IEC 13818-1). */
  lemma PmtEntry(pid: P.Pid, d: M.Descriptor)
    ensures
      var size := M.DescriptorSize(d);
      M.Entry(pid, d) ==
      [0xe0 + pid / 256, pid % 256, 0xf0 + size / 256, size % 256]
      + if d.tag == 0 then [] else [d.tag, |d.data|] + d.data
  {
    var size := M.DescriptorSize(d);
    PidWordIs(pid);
    InfoWordIs(d);
    hide Be, M.PidWord, M.InfoWord;
    TwoBytes(0xe0 + pid / 256, pid % 256);
    TwoBytes(0xf0 + size / 256, size % 256);
    OneByte(d.tag);
    OneByte(|d.data|);
  }

  lemma StampWords(t: u64, ptsFlag: bit, dtsFlag: bit)
    ensures E.HighWord(t, ptsFlag, dtsFlag) == ptsFlag * 32 + dtsFlag * 16 + t / 0x4000_0000 % 8 * 2 + 1
    ensures E.LowWord(t) == t / 0x8000 % 0x8000 * 0x2_0000 + 0x1_0000 + t % 0x8000 * 2 + 1
  {
    Pow2Values();
    Pow2More();
    hide Pow2, Pack;
    Four(E.HighFields(t, ptsFlag, dtsFlag), 8);
    Four(E.LowFields(t), 32);
  }

  /** The five bytes of a time stamp: 33 bits in three parts with a marker bit behind each (section 2.4.3.6 of ISO/IEC
      13818-1). */
  lemma StampBytes(t: u64, ptsFlag: bit, dtsFlag: bit)
    ensures E.Stamp(t, ptsFlag, dtsFlag) ==
            [ptsFlag * 32 + dtsFlag * 16 + t / 0x4000_0000 % 8 * 2 + 1,
             t / 0x40_0000 % 256, t / 0x8000 % 128 * 2 + 1, t / 128 % 256, t % 128 * 2 + 1]
  {
    StampWords(t, ptsFlag, dtsFlag);
    hide Be, E.HighWord, E.LowWord;
    FifteenBits(t / 0x8000);
    FifteenBits(t);
    assert t / 0x8000 / 128 == t / 0x40_0000;
    OneByte(ptsFlag * 32 + dtsFlag * 16 + t / 0x4000_0000 % 8 * 2 + 1);
    FourBytes(t / 0x40_0000 % 256, t / 0x8000 % 128 * 2 + 1, t / 128 % 256, t % 128 * 2 + 1);
  }

  lemma FifteenBits(t: nat)
    ensures t % 0x8000 * 2 + 1 == t / 128 % 256 * 256 + (t % 128 * 2 + 1)
  {
    DivDiv(t, 128, 256);
  }

  lemma StartWordIs(id: byte)
    ensures E.StartWord(id) == 0x100 + id
  {
    Pow2Values();
    Pow2More();
    hide Pow2, Pack, Place;
    var a, b := Field(1, 23, 1), Field(id, 24, 8);
    PlaceIs(a, 32, 2, 0x100);
    PlaceIs(b, 32, 0x100, 1);
    Two(a, b, 32);
  }

  lemma FlagWordIs(pes: E.Pes)
    ensures E.FlagWord(pes) == 0x8000 + pes.alignment * 0x400 + pes.ptsFlag * 0x80 + pes.dtsFlag * 0x40
  {
    Pow2Values();
    Pow2More();
    hide Pow2, Pack, Place;
    var fs := E.FlagFields(pes);
    PlaceIs(fs[0], 16, 4, 0x4000);
    PlaceIs(fs[1], 16, 2, 0x400);
    PlaceIs(fs[2], 16, 2, 0x80);
    PlaceIs(fs[3], 16, 2, 0x40);
    Four(fs, 16);
  }

  /** The time stamps of a PES header: a PTS is marked 2, or 3 if a DTS follows, and a DTS is marked 1. */
  lemma PesStamps(pes: E.Pes)
    ensures E.PtsBytes(pes) ==
            if pes.ptsFlag == 0 then []
            else
              [0x20 + pes.dtsFlag * 16 + pes.pts / 0x4000_0000 % 8 * 2 + 1, pes.pts / 0x40_0000 % 256,
               pes.pts / 0x8000 % 128 * 2 + 1, pes.pts / 128 % 256, pes.pts % 128 * 2 + 1]
    ensures E.DtsBytes(pes) ==
            if pes.dtsFlag == 0 then []
            else
              [0x10 + pes.dts / 0x4000_0000 % 8 * 2 + 1, pes.dts / 0x40_0000 % 256,
               pes.dts / 0x8000 % 128 * 2 + 1, pes.dts / 128 % 256, pes.dts % 128 * 2 + 1]
  {
    hide E.Stamp;
    StampBytes(pes.pts, pes.ptsFlag, pes.dtsFlag);
    StampBytes(pes.dts, 0, pes.dtsFlag);
  }

  lemma PesHeader(pes: E.Pes)
    ensures E.HeaderBytes(pes) ==
            [0x80 + pes.alignment * 4, pes.ptsFlag * 128 + pes.dtsFlag * 64, 5 * pes.ptsFlag + 5 * pes.dtsFlag]
            + E.PtsBytes(pes) + E.DtsBytes(pes)
  {
    assert E.HeaderSize(pes) - 3 == 5 * pes.ptsFlag + 5 * pes.dtsFlag;
    FlagWordIs(pes);
    hide Be, E.FlagWord, E.HeaderSize, E.PtsBytes, E.DtsBytes;
    TwoBytes(0x80 + pes.alignment * 4, pes.ptsFlag * 128 + pes.dtsFlag * 64);
    OneByte(5 * pes.ptsFlag + 5 * pes.dtsFlag);
  }

  /** A PES packet with a header, around its time stamps and its data (section 2.4.3.6 of ISO/IEC 13818-1). */
  lemma PesStart(pes: E.Pes)
    requires !E.Headerless(pes.streamId)
    ensures
      var length := E.Length(pes) % 0x1_0000;
      E.Encode(pes) ==
      [0, 0, 1, pes.streamId] + [length / 256, length % 256] +
      ([0x80 + pes.alignment * 4, pes.ptsFlag * 128 + pes.dtsFlag * 64, 5 * pes.ptsFlag + 5 * pes.dtsFlag]
       + E.PtsBytes(pes) + E.DtsBytes(pes) + pes.data)
  {
    var length := E.Length(pes) % 0x1_0000;
    StartWordIs(pes.streamId);
    PesHeader(pes);
    hide Be, E.StartWord, E.Length, E.HeaderBytes, E.PtsBytes, E.DtsBytes;
    FourBytes(0, 0, 1, pes.streamId);
    TwoBytes(length / 256, length % 256);
  }

  // ---- whole tables ----

  /** A section of a table: header, data, checksum and stuffing, behind a pointer of zero. */
  lemma TableBytes(psi: S.Psi, data: seq<byte>, length: int)
    requires length == S.SectionLength(|data|)
    ensures
      var section := S.Header(psi, length) + data;
      Be(0, 1) + S.Encode(psi, data, 1) ==
      [0] + section + Crc.CrcBytes(Crc.Crc(section)) + AF.Stuffing(S.Padding(1 + |section| + 4))
  {
    OneByte(0);
    hide Be, S.Header, Crc.Crc, Crc.CrcBytes;
    var section := S.Header(psi, length) + data;
    assert S.Section(psi, data) == section;
  }

  function PatSection(program: S.u16, pid: P.Pid): (bs: seq<byte>)
    ensures |bs| == 12
  {
    [0x00, 0xb0, 13, 0, 1, 0xc1, 0, 0, program / 256, program % 256, 0xe0 + pid / 256, pid % 256]
  }

  lemma PatSectionIs(pat: A.Pat)
    ensures S.Header(A.SECTION, 13) + Be(A.Word(pat), 4) == PatSection(pat.programNumber, pat.programPid)
  {
    hide Be, A.Word, S.Header;
    SectionHeader(A.SECTION, 13);
    PatEntry(pat);
  }

  lemma FourMore()
    ensures S.SectionLength(4) == 13 && S.Padding(17) == 167
  {
  }

  /** A packed PAT, byte by byte: current, version 0, section 0 of 0, and its one program (section 2.4.4.3 of ISO/IEC
      13818-1). */
  lemma PatBytes(pat: A.Pat)
    ensures
      var section := PatSection(pat.programNumber, pat.programPid);
      A.Encode(pat) == [0] + section + Crc.CrcBytes(Crc.Crc(section)) + AF.Stuffing(167)
  {
    hide Be, A.Word, S.Header, S.Encode, Crc.Crc, Crc.CrcBytes, S.SectionLength, S.Padding, PatSection, AF.Stuffing;
    PatSectionIs(pat);
    FourMore();
    TableBytes(A.SECTION, Be(A.Word(pat), 4), 13);
  }

  function PmtHeader(length: int): seq<byte>
    requires 0 <= length < 0x400
  {
    [2, 0xb0 + length / 256, length % 256, 0, 1, 0xc1, 0, 0]
  }

  lemma PmtLength(pmt: M.Pmt)
    requires !S.Refused(|M.Data(pmt)|) && |M.Data(pmt)| + 9 < 0x8000_0000
    ensures
      var length := 13 + M.DescriptorSize(pmt.descriptor) + M.StreamsSize(pmt.streams);
      length == |M.Data(pmt)| + 9 == S.SectionLength(|M.Data(pmt)|) && length <= 1021
  {
    M.RefusedExactly(pmt);
    hide M.Data, M.StreamsSize, M.DescriptorSize;
  }

  /** The header of a packed PMT, byte by byte, and what follows it (section 2.4.4.8 of ISO/IEC 13818-1). */
  lemma PmtBytes(pmt: M.Pmt)
    requires !S.Refused(|M.Data(pmt)|) && |M.Data(pmt)| + 9 < 0x8000_0000
    ensures
      var length := 13 + M.DescriptorSize(pmt.descriptor) + M.StreamsSize(pmt.streams);
      length <= 1021 &&
      var section := PmtHeader(length) + M.Data(pmt);
      M.Encode(pmt) ==
      [0] + section + Crc.CrcBytes(Crc.Crc(section)) + AF.Stuffing(S.Padding(1 + |section| + 4))
  {
    hide S.Header, S.Encode, Crc.Crc, Crc.CrcBytes, S.SectionLength, S.Padding, M.Data, M.StreamsSize, M.DescriptorSize,
      PmtHeader, AF.Stuffing;
    var length := 13 + M.DescriptorSize(pmt.descriptor) + M.StreamsSize(pmt.streams);
    PmtLength(pmt);
    PmtHeaderIs(length);
    TableBytes(M.SECTION, M.Data(pmt), length);
  }

  lemma PmtHeaderIs(length: int)
    requires 0 <= length < 0x400
    ensures S.Header(M.SECTION, length) == PmtHeader(length)
  {
    hide S.Header;
    SectionHeader(M.SECTION, length);
  }

  /** The unit with the PAT of a program: PID 0, no flags, and program number 1. */
  lemma PatUnitBytes(p: T.Program)
    requires 0 <= p.programPid < 0x2000
    ensures
      var u := V.PatUnit(p);
      var section := PatSection(1, p.programPid);
      && u.pid == 0 && u.randomAccess == 0 && u.pcrFlag == 0
      && u.data == [0] + section + Crc.CrcBytes(Crc.Crc(section)) + AF.Stuffing(167)
  {
    hide A.Encode, Crc.Crc, Crc.CrcBytes, PatSection;
    PatBytes(A.Pat(0, 1, 0, 1, p.programPid));
  }

  lemma CrcBytesOfPat()
    ensures Crc.CrcBytes(0xe8f9_5e7d) == [0xe8, 0xf9, 0x5e, 0x7d]
  {
  }

  lemma SectionOf256()
    ensures PatSection(1, 256) == [0x00, 0xb0, 0x0d, 0x00, 0x01, 0xc1, 0x00, 0x00, 0x00, 0x01, 0xe1, 0x00]
    ensures [0] + PatSection(1, 256) + [0xe8, 0xf9, 0x5e, 0x7d] ==
            [0, 0x00, 0xb0, 0x0d, 0x00, 0x01, 0xc1, 0x00, 0x00, 0x00, 0x01, 0xe1, 0x00, 0xe8, 0xf9, 0x5e, 0x7d]
  {
  }

  /** All the bytes of the PAT of a program on PID 256. */
  lemma PatOf256(p: T.Program)
    requires p.programPid == 256
    ensures V.PatUnit(p).data ==
            [0, 0x00, 0xb0, 0x0d, 0x00, 0x01, 0xc1, 0x00, 0x00, 0x00, 0x01, 0xe1, 0x00, 0xe8, 0xf9, 0x5e, 0x7d]
            + AF.Stuffing(167)
  {
    hide V.PatUnit, Crc.Crc, Crc.CrcBytes, PatSection, AF.Stuffing;
    PatUnitBytes(p);
    SectionOf256();
    Crc.PatValue();
    CrcBytesOfPat();
  }

  /** The unit with the PMT of a program: the program PID and no flags; its clock PID, or 0x1fff. */
  lemma PmtUnitIs(p: T.Program)
    requires 0 <= p.programPid < 0x2000 && 0 <= p.pcrPid < 0x2000
    ensures
      var u := V.PmtUnit(p);
      var pmt := V.PmtFor(p);
      && u.pid == p.programPid && u.randomAccess == 0 && u.pcrFlag == 0 && u.data == M.Encode(pmt)
      && pmt.pcrPid == (if p.pcrPid != 0 then p.pcrPid else 0x1fff) && pmt.descriptor == p.descriptor
      && |pmt.streams| == |p.streams|
      && forall i :: 0 <= i < |p.streams| ==>
                       && pmt.streams[i].streamType == p.streams[i].streamType
                       && pmt.streams[i].pid == p.streams[i].pid % 0x2000
                       && pmt.streams[i].descriptor == p.streams[i].descriptor
  {
    hide M.Encode;
  }

  // ---- clocks and records ----

  /** The six bytes of a clock: a base of 33 bits, six zero bits, an extension of nine (section 2.4.3.4 of ISO/IEC
      13818-1). */
  lemma ClockBytes(value: u64)
    ensures
      var base, ext := value / 300 % 0x2_0000_0000, value % 300;
      Pcr.Encode(value) ==
      [base / 0x200_0000, base / 0x2_0000 % 256, base / 0x200 % 256, base / 2 % 256, base % 2 * 128 + ext / 256,
          ext % 256]
  {
    hide Be, Pcr.Encode, Pcr.Word;
    var base, ext := value / 300 % 0x2_0000_0000, value % 300;
    Pcr.EncodeIsNumber(value);
    Pcr.WordBits(value);
    SixBytes(base, ext);
  }

  lemma SixBytes(base: nat, ext: nat)
    requires base < 0x2_0000_0000 && ext < 300
    ensures Be(base * 0x8000 + ext, 6) ==
            [base / 0x200_0000, base / 0x2_0000 % 256, base / 0x200 % 256, base / 2 % 256, base % 2 * 128 + ext / 256,
             ext % 256]
  {
    var w := base * 0x8000 + ext;
    var h := base / 2;
    DivModUnique(w, 0x1_0000, h, base % 2 * 0x8000 + ext);
    DivModUnique(w, 256, h * 256 + base % 2 * 128 + ext / 256, ext % 256);
    DivModUnique(h * 256 + base % 2 * 128 + ext / 256, 256, h, base % 2 * 128 + ext / 256);
    assert w / 256 / 256 == h;
    LastTwo(w);
    DivDiv(base, 2, 0x100_0000);
    DivDiv(base, 2, 0x1_0000);
    DivDiv(base, 2, 0x100);
    hide Be;
    FourOf(h);
  }

  lemma LastTwo(w: nat)
    ensures Be(w, 6) == Be(w / 256 / 256, 4) + [w / 256 % 256] + [w % 256]
  {
    assert Be(w, 6) == Be(w / 256, 5) + [w % 256] && Be(w / 256, 5) == Be(w / 256 / 256, 4) + [w / 256 % 256];
  }

  lemma FourOf(h: nat)
    requires h < 0x1_0000_0000
    ensures Be(h, 4) == [h / 0x100_0000, h / 0x1_0000 % 256, h / 0x100 % 256, h % 256]
  {
    var a, b, c, d := h / 0x100_0000, h / 0x1_0000 % 256, h / 0x100 % 256, h % 256;
    DivDiv(h, 0x100, 0x100);
    DivDiv(h, 0x1_0000, 0x100);
    FourBytes(a, b, c, d);
  }

  /** The EBP record that is written, and the length in front of it. */
  lemma RecordIs(af: AF.AdaptationField)
    requires af.ebp.marker
    ensures AF.Private(af) == [15, 0xdf, 13, 0x45, 0x42, 0x50, 0x30, 0x08] + Be(af.ebp.time, 8)
  {
    OneByte(15);
    OneByte(0xdf);
    OneByte(13);
    OneByte(0x08);
    hide Be;
  }

  /** The flags of a field, clocks and countdown where they are announced, and private data. */
  function FieldStart(af: AF.AdaptationField): seq<byte> {
    [af.discontinuity * 128 + af.randomAccess * 64 + af.priority * 32 + af.pcrFlag * 16 +
     af.opcrFlag * 8 + af.splicingFlag * 4 + af.privateFlag * 2 + af.extensionFlag]
    + (if af.pcrFlag == 1 then Pcr.Encode(af.pcr) else [])
    + (if af.opcrFlag == 1 then Pcr.Encode(af.opcr) else [])
    + (if af.splicingFlag == 1 then [af.spliceCountdown] else [])
    + (if af.privateFlag == 1 then [|af.privateData|] + af.privateData else [])
  }

  lemma BodyIs(af: AF.AdaptationField)
    requires AF.SizeAgrees(af) && !af.ebp.marker
    ensures AF.Body(af) == FieldStart(af)
  {
    FieldFlags(af);
    FlagsByte(af);
    OneByte(af.spliceCountdown);
    OneByte(|af.privateData|);
    hide Be, Pack, AF.Flags, Pcr.Encode;
  }

  /** The bytes of a field that is longer than one, in their order, with stuffing of 0xff. */
  lemma FieldOrder(af: AF.AdaptationField, size: u64)
    requires 1 < size <= 256 && AF.Fits(af, size) && !af.ebp.marker
    ensures AF.Size(af) <= size
    ensures AF.Encode(af, size) == [size - 1] + FieldStart(af) + seq(size - AF.Size(af), i => 0xff)
  {
    hide Be, AF.Body, FieldStart, AF.Size, Sub64, AF.SizeAgrees;
    BodyIs(af);
    OneByte(size - 1);
    Difference(size, 1);
    Difference(size, AF.Size(af));
    StuffingIs(size - AF.Size(af));
  }

  lemma StuffingIs(n: nat)
    ensures AF.Stuffing(n) == seq(n, i => 0xff)
  {
  }

  lemma FlagsByte(af: AF.AdaptationField)
    ensures Be(Pack(AF.Flags(af), 8), 1) == [Pack(AF.Flags(af), 8)]
  {
    FieldFlags(af);
    hide Be, Pack;
    OneByte(Pack(AF.Flags(af), 8));
  }
}
