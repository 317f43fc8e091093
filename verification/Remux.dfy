/** Which packets survive being unpacked and packed again, stated on their bytes. A program that reads a stream with
    this library and writes it again (examples/remux_packets.c) reproduces it when it consists of such packets and
    their continuity counters are those that a packet list gives them. */
module Remultiplexing {
  import opened Words
  import opened Bytestreams
  import Pcr
  import AF = AdaptationFields
  import opened P = TsPackets
  import opened PacketLists
  import opened PacketListProperties
  import W = WireFormats

  // ---- clocks ----

  /** Six bytes of a clock: 33 bits of base, six zero bits and nine bits of extension below 300. */
  predicate CanonicalClock(b: seq<byte>)
    requires |b| == 6
  {
    var high: int, low: int := b[4], b[5];
    high / 2 % 64 == 0 && high % 2 * 256 + low < 300
  }

  function ClockOf(b: seq<byte>): u64
    requires |b| == 6
  {
    Pcr.Decode(Open(b))
  }

  /** The two low bytes of a 48-bit word. */
  lemma LowBytes(n: nat, b: seq<byte>)
    requires b == Be(n, 6)
    ensures |b| == 6 && b[5] == n % 256 && b[4] == n / 256 % 256
  {
    assert Be(n, 6) == Be(n / 256, 5) + [n % 256] && Be(n / 256, 5) == Be(n / 256 / 256, 4) + [n / 256 % 256];
  }

  lemma ClockBits(n: nat)
    ensures n / 256 % 256 / 2 % 64 == n / 0x200 % 64
    ensures n / 256 % 256 % 2 * 256 + n % 256 == n % 0x200
  {
    var a, b, high, low := n / 0x8000, n / 0x200 % 64, n % 0x200 / 256, n % 256;
    Grouped(n);
    DivModUnique(n, 256, a * 128 + b * 2 + high, low);
    DivModUnique(n, 0x200, a * 64 + b, high * 256 + low);
    var c, d := a / 2, a % 2;
    DivModUnique(n / 256, 256, c, d * 128 + b * 2 + high);
    DivModUnique(d * 128 + b * 2 + high, 2, d * 64 + b, high);
    DivModUnique(d * 64 + b, 64, d, b);
  }

  lemma Grouped(n: nat)
    ensures n == n / 0x8000 * 0x8000 + n / 0x200 % 64 * 0x200 + n % 0x200 / 256 * 256 + n % 256
    ensures n % 0x200 / 256 < 2
  {
    DivDiv(n, 0x200, 64);
    DivDiv(n, 256, 2);
  }

  lemma ClockIsCanonical(value: u64)
    requires value < Pcr.PCR_MODULUS
    ensures |Pcr.Encode(value)| == 6 && CanonicalClock(Pcr.Encode(value))
    ensures ClockOf(Pcr.Encode(value)) == value
  {
    hide Be, Pcr.Encode, Pcr.Decode, Pcr.Word;
    var b, n := Pcr.Encode(value), Pcr.Word(value) % 0x1_0000_0000_0000;
    Pcr.RoundTrip(value, []);
    assert b + [] == b;
    Pcr.EncodeIsNumber(value);
    Pcr.WordBits(value);
    LowBytes(n, b);
    ClockBits(n);
    var base := value / 300 % 0x2_0000_0000;
    assert n == base * 0x8000 + value % 300;
    DivModUnique(n, 0x200, base * 64, value % 300);
    hide CanonicalClock;
    CanonicalIf(b, n, base);
  }

  lemma CanonicalIf(b: seq<byte>, n: nat, base: nat)
    requires |b| == 6 && b[5] == n % 256 && b[4] == n / 256 % 256
    requires n / 256 % 256 / 2 % 64 == n / 0x200 % 64 && n / 256 % 256 % 2 * 256 + n % 256 == n % 0x200
    requires n / 0x200 == base * 64 && n % 0x200 < 300
    ensures CanonicalClock(b)
  {
  }

  lemma ClockNumber(b: seq<byte>)
    requires |b| == 6
    ensures ClockOf(b) == ReadBits(FromBe(b), 48, 0, 33) * 300 + ReadBits(FromBe(b), 48, 39, 9)
  {
    hide FromBe, ReadBits;
    FromBeJoin(b[..4], b[4..]);
    Pow2Values();
    assert b[..4] + b[4..] == b && b[4..][..2] == b[4..];
  }

  lemma CanonicalNumber(b: seq<byte>) returns (base: nat, ext: nat)
    requires |b| == 6 && CanonicalClock(b)
    ensures FromBe(b) == base * 0x8000 + ext && base < 0x2_0000_0000 && ext < 300 && b == Be(FromBe(b), 6)
  {
    hide Be, FromBe, Pow2;
    var n := FromBe(b);
    BeOfFromBe(b);
    Pow2Values();
    LowBytes(n, b);
    ClockBits(n);
    assert n / 0x200 % 64 == 0;
    base, ext := n / 0x200 / 64, n % 0x200;
  }

  lemma EncodeOfParts(base: nat, ext: nat)
    requires base < 0x2_0000_0000 && ext < 300
    ensures base * 300 + ext < Pcr.PCR_MODULUS && Pcr.Encode(base * 300 + ext) == Be(base * 0x8000 + ext, 6)
  {
    hide Be, Pcr.Encode, Pcr.Word;
    var value := base * 300 + ext;
    DivModUnique(value, 300, base, ext);
    DivModUnique(base, 0x2_0000_0000, 0, base);
    Pcr.EncodeIsNumber(value);
    Pcr.WordBits(value);
  }

  lemma ClockParts(b: seq<byte>) returns (base: nat, ext: nat)
    requires |b| == 6 && CanonicalClock(b)
    ensures base < 0x2_0000_0000 && ext < 300 && ClockOf(b) == base * 300 + ext && b == Be(base * 0x8000 + ext, 6)
  {
    base, ext := CanonicalNumber(b);
    hide Be, FromBe, ClockOf, ReadBits, CanonicalClock;
    ClockNumber(b);
    Pcr.Slices48(base, ext);
  }

  lemma ClockReproduced(b: seq<byte>)
    requires |b| == 6 && CanonicalClock(b)
    ensures Pcr.Encode(ClockOf(b)) == b && ClockOf(b) < Pcr.PCR_MODULUS
  {
    hide Be, Pcr.Encode, ClockOf, CanonicalClock;
    var base, ext := ClockParts(b);
    EncodeOfParts(base, ext);
  }

  // ---- adaptation fields ----

  function OpcrAt(a: AF.AdaptationField): nat {
    1 + if a.pcrFlag == 1 then 6 else 0
  }

  function SpliceAt(a: AF.AdaptationField): nat {
    OpcrAt(a) + if a.opcrFlag == 1 then 6 else 0
  }

  function PrivateAt(a: AF.AdaptationField): nat {
    SpliceAt(a) + if a.splicingFlag == 1 then 1 else 0
  }

  predicate IsStuffing(s: seq<byte>) {
    forall i :: 0 <= i < |s| ==> s[i] == 0xff
  }

  /** Private data that the parser takes for an EBP record. */
  predicate IsEbp(d: seq<byte>) {
    |d| >= 6 && d[0] == 0xdf && d[2..6] == AF.EBP_ID
  }

  /** Private data with its length, which is neither empty nor an EBP record, and stuffing. */
  predicate CanonicalPrivate(s: seq<byte>) {
    s != [] && 0 < s[0] && 1 + s[0] as int <= |s| && !IsEbp(s[1..1 + s[0] as int]) && IsStuffing(s[1 + s[0] as int..])
  }

  /** What follows the length of a field: nothing, or flags that announce what is there and no extension, clocks in
      their normal form, private data, and stuffing. */
  predicate CanonicalField(f: seq<byte>) {
    f == [] ||
    var a := AF.FromFlags(f[0]);
    && a.extensionFlag == 0 && PrivateAt(a) <= |f|
    && (a.pcrFlag == 1 ==> CanonicalClock(f[1..7]))
    && (a.opcrFlag == 1 ==> CanonicalClock(f[OpcrAt(a)..OpcrAt(a) + 6]))
    && if a.privateFlag == 1 then CanonicalPrivate(f[PrivateAt(a)..]) else IsStuffing(f[PrivateAt(a)..])
  }

  /** The two reads by which the parser knows a record. */
  lemma EbpReads(d: seq<byte>)
    ensures |d| >= 6 ==> Open(d).Number(1) == d[0] && Open(d).Drop(1).Drop(1).Bytes(4) == d[2..6]
    ensures |d| < 6 ==> Open(d).Drop(1).Drop(1).Bytes(4) == Zeros(4)
  {
    if |d| >= 6 {
      FromBeOne(d[..1]);
      assert d[1..][1..] == d[2..] && d[2..][..4] == d[2..6];
    }
  }

  lemma EbpIs(d: seq<byte>)
    ensures AF.DecodeEbp(Open(d)).marker <==> IsEbp(d)
    ensures !IsEbp(d) ==> AF.DecodeEbp(Open(d)) == AF.NO_EBP
  {
    EbpReads(d);
    hide ReadFlag, FromBe;
    assert Zeros(4)[0] != AF.EBP_ID[0];
  }

  lemma FlagsAgain(w: byte)
    ensures Pack(AF.Flags(AF.FromFlags(w)), 8) == w
  {
    W.FieldFlags(AF.FromFlags(w));
    hide Pack, AF.Flags;
    Pow2Values();
    W.Pow2More();
    EightBits(w);
  }

  lemma EightBits(w: byte)
    ensures w == w / 128 % 2 * 128 + w / 64 % 2 * 64 + w / 32 % 2 * 32 + w / 16 % 2 * 16 +
                 w / 8 % 2 * 8 + w / 4 % 2 * 4 + w / 2 % 2 * 2 + w % 2
  {
    Halves(w, 1);
    Halves(w, 2);
    Halves(w, 4);
    Halves(w, 8);
    Halves(w, 16);
    Halves(w, 32);
    Halves(w, 64);
    assert w / 128 % 2 == w / 128;
  }

  lemma Halves(w: nat, k: nat)
    requires k > 0
    ensures w / k == 2 * (w / (2 * k)) + w / k % 2
  {
    DivDiv(w, k, 2);
  }

  lemma Parts(f: seq<byte>, a: nat, b: nat, c: nat, d: nat)
    requires a <= b <= c <= d <= |f|
    ensures f == f[..a] + (f[a..b] + (f[b..c] + (f[c..d] + f[d..])))
  {
  }

  lemma PartsOf(v: seq<byte>, w: seq<byte>, x: seq<byte>, y: seq<byte>, z: seq<byte>)
    ensures
      var f := v + (w + (x + (y + z)));
      var a, b, c, d := |v|, |v| + |w|, |v| + |w| + |x|, |v| + |w| + |x| + |y|;
      d <= |f| && f[..a] == v && f[a..b] == w && f[b..c] == x && f[c..d] == y && f[d..] == z
  {
  }

  function PrivateOf(s: seq<byte>): AF.PrivateData
    requires CanonicalPrivate(s)
  {
    s[1..1 + s[0] as int]
  }

  /** What the parser makes of a canonical field. */
  function FieldOf(f: seq<byte>): AF.AdaptationField
    requires CanonicalField(f)
  {
    if f == [] then AF.EMPTY
    else
      var a := AF.FromFlags(f[0]);
      a.(pcr := if a.pcrFlag == 1 then ClockOf(f[1..7]) else 0,
         opcr := if a.opcrFlag == 1 then ClockOf(f[OpcrAt(a)..OpcrAt(a) + 6]) else 0,
         spliceCountdown := if a.splicingFlag == 1 then f[SpliceAt(a)] else 0,
         privateData := if a.privateFlag == 1 then PrivateOf(f[PrivateAt(a)..]) else [])
  }

  lemma PrivateAgain(s: seq<byte>, flag: bit, data: AF.PrivateData)
    requires if flag == 1 then CanonicalPrivate(s) && data == PrivateOf(s) else IsStuffing(s) && data == []
    ensures
      var sent := if data != [] then Be(|data|, 1) + data else [];
      |sent| <= |s| && sent + AF.Stuffing(|s| - |sent|) == s
  {
    if flag == 1 {
      W.OneByte(s[0]);
      var k: int := s[0];
      assert s == [s[0]] + s[1..1 + k] + s[1 + k..];
      assert s[1 + k..] == AF.Stuffing(|s| - 1 - k);
    } else {
      assert s == AF.Stuffing(|s|);
    }
  }

  lemma ClockAgain(flag: bit, b: seq<byte>, value: u64)
    requires |b| == (if flag == 1 then 6 else 0) && (flag == 1 ==> CanonicalClock(b) && value == ClockOf(b))
    ensures AF.Clock(flag, value) == b
  {
    hide ClockOf, CanonicalClock, Pcr.Encode;
    if flag == 1 {
      ClockReproduced(b);
    }
  }

  lemma SameFlags(f: seq<byte>)
    requires CanonicalField(f) && f != []
    ensures Be(Pack(AF.Flags(FieldOf(f)), 8), 1) == [f[0]] && !FieldOf(f).ebp.marker
  {
    var a := AF.FromFlags(f[0]);
    assert AF.Flags(FieldOf(f)) == AF.Flags(a);
    FlagsAgain(f[0]);
    hide AF.Flags, Pack, Be;
    W.OneByte(f[0]);
  }

  lemma FieldParts(f: seq<byte>)
    requires CanonicalField(f) && f != []
    ensures
      var a, af := AF.FromFlags(f[0]), FieldOf(f);
      && AF.Clock(af.pcrFlag, af.pcr) == f[1..OpcrAt(a)]
      && AF.Clock(af.opcrFlag, af.opcr) == f[OpcrAt(a)..SpliceAt(a)]
      && AF.Splice(af) == f[SpliceAt(a)..PrivateAt(a)]
      && |AF.Private(af)| <= |f| - PrivateAt(a)
      && AF.Private(af) + AF.Stuffing(|f| - PrivateAt(a) - |AF.Private(af)|) == f[PrivateAt(a)..]
  {
    hide ClockOf, CanonicalClock, Be, CanonicalPrivate, IsStuffing, PrivateOf, AF.FromFlags, AF.Stuffing, AF.Clock;
    var a, af := AF.FromFlags(f[0]), FieldOf(f);
    SameFlags(f);
    ClockAgain(a.pcrFlag, f[1..OpcrAt(a)], af.pcr);
    ClockAgain(a.opcrFlag, f[OpcrAt(a)..SpliceAt(a)], af.opcr);
    if a.splicingFlag == 1 {
      W.OneByte(af.spliceCountdown);
    }
    PrivateAgain(f[PrivateAt(a)..], a.privateFlag, af.privateData);
  }

  lemma FieldSize(f: seq<byte>)
    requires CanonicalField(f) && f != []
    ensures
      var af := FieldOf(f);
      AF.Size(af) == 1 + PrivateAt(AF.FromFlags(f[0])) + |AF.Private(af)| && AF.SizeAgrees(af)
  {
    SameFlags(f);
    hide ClockOf, CanonicalClock, Be, IsStuffing, AF.FromFlags, ReadBits;
  }

  lemma Rejoin(a: seq<byte>, b: seq<byte>, c: seq<byte>, d: seq<byte>, e: seq<byte>, g: seq<byte>, h: seq<byte>)
    ensures a + (b + c + d + e + g) + h == a + (b + (c + (d + (e + (g + h)))))
  {
  }

  lemma FieldRoom(f: seq<byte>)
    requires CanonicalField(f) && f != [] && |f| < 256
    ensures
      var a, af := AF.FromFlags(f[0]), FieldOf(f);
      && 1 <= OpcrAt(a) <= SpliceAt(a) <= PrivateAt(a) && PrivateAt(a) + |AF.Private(af)| <= |f|
      && Sub64(|f| + 1, 1) == |f| && Sub64(|f| + 1, AF.Size(af)) == |f| - PrivateAt(a) - |AF.Private(af)|
      && AF.Fits(af, |f| + 1)
  {
    hide FieldOf, CanonicalField, AF.FromFlags, AF.Private, AF.Size, AF.SizeAgrees, AF.Clock, AF.Splice, AF.Stuffing,
      Sub64;
    FieldParts(f);
    FieldSize(f);
    Difference(|f| + 1, 1);
    Difference(|f| + 1, AF.Size(FieldOf(f)));
  }

  lemma EncodeLong(af: AF.AdaptationField, size: u64)
    requires size != 1
    ensures AF.Encode(af, size) ==
            Be(Sub64(size, 1), 1)
            + (Be(Pack(AF.Flags(af), 8), 1)
               + (AF.Clock(af.pcrFlag, af.pcr)
                  + (AF.Clock(af.opcrFlag, af.opcr)
                     + (AF.Splice(af) + (AF.Private(af) + AF.Stuffing(Sub64(size, AF.Size(af))))))))
  {
    hide Be, Pack, AF.Clock, AF.Splice, AF.Private, AF.Size, Sub64, AF.Stuffing;
    Rejoin(Be(Sub64(size, 1), 1), Be(Pack(AF.Flags(af), 8), 1), AF.Clock(af.pcrFlag, af.pcr),
           AF.Clock(af.opcrFlag, af.opcr), AF.Splice(af), AF.Private(af), AF.Stuffing(Sub64(size, AF.Size(af))));
  }

  lemma FieldWhole(f: seq<byte>)
    requires CanonicalField(f) && f != [] && |f| < 256
    ensures
      var a, af := AF.FromFlags(f[0]), FieldOf(f);
      PrivateAt(a) + |AF.Private(af)| <= |f| &&
      f == [f[0]] + (AF.Clock(af.pcrFlag, af.pcr) + (AF.Clock(af.opcrFlag, af.opcr) + (AF.Splice(af) + (AF.Private(af)
           + AF.Stuffing(|f| - PrivateAt(a) - |AF.Private(af)|)))))
  {
    hide FieldOf, CanonicalField, AF.FromFlags, AF.Clock, AF.Splice, AF.Private, OpcrAt, SpliceAt, PrivateAt,
      AF.Stuffing;
    var a := AF.FromFlags(f[0]);
    FieldRoom(f);
    FieldParts(f);
    Parts(f, 1, OpcrAt(a), SpliceAt(a), PrivateAt(a));
    assert f[..1] == [f[0]];
  }

  /** A canonical field is packed as it was. */
  lemma FieldReproduced(f: seq<byte>)
    requires CanonicalField(f) && |f| < 256
    ensures AF.Encode(FieldOf(f), |f| + 1) == Be(|f|, 1) + f && AF.Fits(FieldOf(f), |f| + 1)
  {
    if f != [] {
      hide FieldOf, CanonicalField, AF.FromFlags, AF.Clock, AF.Splice, AF.Private, AF.Size, AF.Fits, AF.Encode, Be,
        Pack, AF.Flags, Sub64, PrivateAt, AF.Stuffing;
      FieldRoom(f);
      FieldWhole(f);
      SameFlags(f);
      EncodeLong(FieldOf(f), |f| + 1);
    }
  }

  lemma ClocksAreNorm(f: seq<byte>)
    requires CanonicalField(f) && f != []
    ensures
      var af := FieldOf(f);
      && af.pcr == (if af.pcrFlag == 1 then af.pcr % Pcr.PCR_MODULUS else 0)
      && af.opcr == (if af.opcrFlag == 1 then af.opcr % Pcr.PCR_MODULUS else 0)
  {
    hide ClockOf, CanonicalClock, CanonicalPrivate, PrivateOf, IsStuffing, AF.FromFlags;
    var a := AF.FromFlags(f[0]);
    if a.pcrFlag == 1 {
      ClockIsReduced(f[1..7]);
    }
    if a.opcrFlag == 1 {
      ClockIsReduced(f[OpcrAt(a)..OpcrAt(a) + 6]);
    }
  }

  lemma ClockIsReduced(b: seq<byte>)
    requires |b| == 6 && CanonicalClock(b)
    ensures ClockOf(b) % Pcr.PCR_MODULUS == ClockOf(b)
  {
    ClockReproduced(b);
    hide ClockOf;
    DivModUnique(ClockOf(b), Pcr.PCR_MODULUS, 0, ClockOf(b));
  }

  lemma PrivateIsNorm(f: seq<byte>)
    requires CanonicalField(f) && f != []
    ensures
      var af := FieldOf(f);
      && !af.ebp.marker && af.ebp == AF.NO_EBP && af.extensionFlag == 0
      && (af.splicingFlag == 0 ==> af.spliceCountdown == 0)
      && (if af.privateFlag == 1 then AF.DecodeEbp(Open(af.privateData)) == AF.NO_EBP else af.privateData == [])
  {
    EbpIs(FieldOf(f).privateData);
    hide ClockOf, CanonicalClock, IsEbp, IsStuffing, ReadFlag;
  }

  /** And it is its own normal form. */
  lemma FieldIsNorm(f: seq<byte>)
    requires CanonicalField(f) && |f| < 256
    ensures AF.Norm(FieldOf(f), |f| + 1) == FieldOf(f)
  {
    if f != [] {
      hide FieldOf, CanonicalField, AF.DecodeEbp;
      ClocksAreNorm(f);
      PrivateIsNorm(f);
    }
  }

  // ---- and conversely ----

  lemma NormHasNoRecord(af: AF.AdaptationField, size: u64)
    requires AF.Fits(af, size) && AF.Norm(af, size) == af && size != 1
    ensures !af.ebp.marker && af.extensionFlag == 0 && AF.SizeAgrees(af)
    ensures af.privateFlag == 1 ==> !IsEbp(af.privateData)
    ensures af.pcrFlag == 1 ==> af.pcr < Pcr.PCR_MODULUS
    ensures af.opcrFlag == 1 ==> af.opcr < Pcr.PCR_MODULUS
  {
    EbpIs(af.privateData);
    hide AF.DecodeEbp, IsEbp;
  }

  lemma ClockSent(flag: bit, value: u64)
    requires flag == 1 ==> value < Pcr.PCR_MODULUS
    ensures |AF.Clock(flag, value)| == (if flag == 1 then 6 else 0)
    ensures flag == 1 ==> CanonicalClock(AF.Clock(flag, value))
  {
    hide CanonicalClock, Pcr.Encode;
    if flag == 1 {
      ClockIsCanonical(value);
    }
  }

  lemma PrivateSent(af: AF.AdaptationField, n: nat)
    requires !af.ebp.marker && AF.SizeAgrees(af) && (af.privateFlag == 1 ==> !IsEbp(af.privateData))
    ensures
      var s := AF.Private(af) + AF.Stuffing(n);
      if af.privateFlag == 1 then CanonicalPrivate(s) else IsStuffing(s)
  {
    hide Be, IsEbp;
    var data := af.privateData;
    if af.privateFlag == 1 {
      W.OneByte(|data|);
      var s := AF.Private(af) + AF.Stuffing(n);
      assert s[0] == |data| && s[1..1 + |data|] == data && s[1 + |data|..] == AF.Stuffing(n);
    }
  }

  lemma FlagsSent(af: AF.AdaptationField)
    ensures
      var w := Pack(AF.Flags(af), 8);
      && Be(w, 1) == [w] && w < 256
      && AF.FromFlags(w) == af.(pcr := 0, opcr := 0, spliceCountdown := 0, ebp := AF.NO_EBP, privateData := [])
  {
    AF.FlagsReadBack(af, []);
    PackBound(AF.Flags(af), 8);
    Pow2Values();
    hide Pack, AF.Flags, AF.FromFlags, Be, Pow2;
    W.OneByte(Pack(AF.Flags(af), 8));
  }

  lemma CanonicalParts(w: byte, c: seq<byte>, d: seq<byte>, e: seq<byte>, s: seq<byte>)
    requires
      var a := AF.FromFlags(w);
      && a.extensionFlag == 0
      && |c| == (if a.pcrFlag == 1 then 6 else 0) && (a.pcrFlag == 1 ==> CanonicalClock(c))
      && |d| == (if a.opcrFlag == 1 then 6 else 0) && (a.opcrFlag == 1 ==> CanonicalClock(d))
      && |e| == (if a.splicingFlag == 1 then 1 else 0)
      && if a.privateFlag == 1 then CanonicalPrivate(s) else IsStuffing(s)
    ensures CanonicalField([w] + (c + (d + (e + s))))
  {
    hide AF.FromFlags, CanonicalClock, CanonicalPrivate, IsStuffing;
    PartsOf([w], c, d, e, s);
  }

  lemma EncodeTail(af: AF.AdaptationField, size: u64)
    requires AF.Fits(af, size) && 1 < size
    ensures |AF.Encode(af, size)| == size
    ensures AF.Encode(af, size) == Be(size - 1, 1) + AF.Encode(af, size)[1..]
    ensures AF.Encode(af, size)[1..] ==
            Be(Pack(AF.Flags(af), 8), 1)
            + (AF.Clock(af.pcrFlag, af.pcr)
               + (AF.Clock(af.opcrFlag, af.opcr)
                  + (AF.Splice(af) + (AF.Private(af) + AF.Stuffing(Sub64(size, AF.Size(af)))))))
  {
    AF.LengthExact(af, size);
    EncodeLong(af, size);
    Difference(size, 1);
    hide AF.Encode, AF.Fits, AF.Size, Be, Pack, AF.Clock, AF.Splice, AF.Private, AF.Stuffing, Sub64;
  }

  lemma EmptyIsCanonical()
    ensures CanonicalField([])
  {
  }

  /** A field in normal form is packed to its length and canonical bytes. */
  lemma FieldIsCanonical(af: AF.AdaptationField, size: u64) returns (f: seq<byte>)
    requires AF.Fits(af, size) && AF.Norm(af, size) == af && 0 < size <= 256
    ensures AF.Encode(af, size) == [size - 1] + f && |f| == size - 1 && CanonicalField(f)
  {
    W.OneByte(size - 1);
    EncodeShort(af);
    hide AF.Encode, AF.Norm, AF.Fits, AF.Size, AF.SizeAgrees, Be, Pack, AF.Clock, AF.Private, AF.Stuffing, Sub64,
      AF.FromFlags, CanonicalClock, CanonicalPrivate, IsStuffing, IsEbp, CanonicalField;
    if size == 1 {
      f := [];
      EmptyIsCanonical();
    } else {
      f := AF.Encode(af, size)[1..];
      NormHasNoRecord(af, size);
      EncodeTail(af, size);
      FlagsSent(af);
      ClockSent(af.pcrFlag, af.pcr);
      ClockSent(af.opcrFlag, af.opcr);
      PrivateSent(af, Sub64(size, AF.Size(af)));
      CanonicalParts(Pack(AF.Flags(af), 8), AF.Clock(af.pcrFlag, af.pcr), AF.Clock(af.opcrFlag, af.opcr),
                     AF.Splice(af), AF.Private(af) + AF.Stuffing(Sub64(size, AF.Size(af))));
    }
  }

  lemma EncodeShort(af: AF.AdaptationField)
    ensures AF.Encode(af, 1) == Be(0, 1)
  {
  }

  // ---- packets ----

  function ControlOf(bs: seq<byte>): P.twobits
    requires |bs| == PACKET_SIZE
  {
    var b: int := bs[3];
    b / 16 % 4
  }

  /** The bytes of a packet with the sync byte and with just a payload, just a field that fills it, or both, the field
      being canonical. */
  predicate Canonical(bs: seq<byte>)
    requires |bs| == PACKET_SIZE
  {
    var control, length: int := ControlOf(bs), bs[4];
    && bs[0] == 0x47
    && (control == 1
        || (control == 2 && length == 183 && CanonicalField(bs[5..]))
        || (control == 3 && length < 183 && CanonicalField(bs[5..5 + length])))
  }

  /** What the parser makes of a canonical packet. */
  function PacketOf(bs: seq<byte>): Packet
    requires |bs| == PACKET_SIZE && Canonical(bs)
  {
    var p, length: int := P.FromHeader(FromBe(bs[..4])), bs[4];
    if ControlOf(bs) == 1 then p.(payload := bs[4..])
    else if ControlOf(bs) == 2 then p.(field := FieldOf(bs[5..]))
    else p.(field := FieldOf(bs[5..5 + length]), payload := bs[5 + length..])
  }

  lemma Telescope(w: nat, k: nat, m: nat)
    requires k > 0 && m > 0
    ensures w / k == m * (w / (k * m)) + w / k % m
  {
    DivDiv(w, k, m);
  }

  lemma HeaderSum(w: nat)
    requires w / 0x100_0000 == 0x47
    ensures w ==
            0x47 * 0x100_0000 + w / 0x80_0000 % 2 * 0x80_0000 + w / 0x40_0000 % 2 * 0x40_0000 +
            w / 0x20_0000 % 2 * 0x20_0000 + w / 0x100 % 0x2000 * 0x100 + w / 64 % 4 * 64 + w / 16 % 4 * 16 + w % 16
  {
    Telescope(w, 1, 16);
    Telescope(w, 16, 4);
    Telescope(w, 64, 4);
    Telescope(w, 256, 0x2000);
    Telescope(w, 0x20_0000, 2);
    Telescope(w, 0x40_0000, 2);
    Telescope(w, 0x80_0000, 2);
  }

  lemma FourNumber(b: seq<byte>)
    requires |b| == 4
    ensures FromBe(b) == b[0] as int * 0x100_0000 + b[1] as int * 0x1_0000 + b[2] as int * 0x100 + b[3] as int
  {
    assert b[..3][..2] == b[..2] && b[..2][..1] == b[..1] && b[..1][..0] == [];
    assert FromBe(b[..1]) == b[0] && FromBe(b[..2]) == FromBe(b[..1]) * 256 + b[1];
    assert FromBe(b[..3]) == FromBe(b[..2]) * 256 + b[2];
  }

  lemma HeaderNumber(b: seq<byte>)
    requires |b| == 4
    ensures
      var w, last: int := FromBe(b), b[3];
      w / 0x100_0000 == b[0] && w / 16 % 4 == last / 16 % 4
  {
    FourNumber(b);
    var w, rest: int := FromBe(b), b[3];
    var x: int := b[0] as int * 0x1_0000 + b[1] as int * 0x100 + b[2] as int;
    DivModUnique(w, 0x100_0000, b[0], b[1] as int * 0x1_0000 + b[2] as int * 0x100 + rest);
    DivModUnique(w, 16, x * 16 + rest / 16, rest % 16);
    DivModUnique(x * 16 + rest / 16, 4, x * 4 + rest / 64, rest / 16 % 4);
  }

  lemma HeaderFields(w: nat)
    ensures
      var p := P.FromHeader(w);
      && p.errorIndicator == w / 0x80_0000 % 2 && p.unitStart == w / 0x40_0000 % 2 && p.priority == w / 0x20_0000 % 2
      && p.pid == w / 0x100 % 0x2000 && p.scrambling == w / 64 % 4 && p.control == w / 16 % 4 && p.counter == w % 16
      && p.field == AF.EMPTY && p.payload == []
  {
    Pow2Values();
    W.Pow2More();
    hide Pow2;
  }

  lemma HeaderAgain(b: seq<byte>, q: Packet)
    requires |b| == 4 && b[0] == 0x47 && q.(field := AF.EMPTY, payload := []) == P.FromHeader(FromBe(b))
    ensures
      var last: int := b[3];
      Be(Pack(P.Header(q), 32), 4) == b && q.control == last / 16 % 4
  {
    hide Be, FromBe, Pack, P.Header, P.FromHeader;
    var w := FromBe(b);
    HeaderNumber(b);
    HeaderFields(w);
    HeaderSum(w);
    W.HeaderWord(q);
    BeOfFromBe(b);
  }

  lemma FieldlessSize(q: Packet)
    requires q.control == 1 && |q.payload| == PACKET_SIZE - 4
    ensures P.Prepared(q) == q
  {
  }

  lemma FieldfulPrepared(q: Packet)
    requires q.control / 2 == 1 && (q.HasPayload() <==> q.payload != [])
    ensures P.Prepared(q) == q
  {
  }

  lemma FieldIn(bs: seq<byte>, f: seq<byte>, payload: seq<byte>)
    requires |bs| == PACKET_SIZE && |f| + 5 <= PACKET_SIZE && bs[4] == |f|
    requires f == bs[5..5 + |f|] && payload == bs[5 + |f|..]
    ensures bs == bs[..4] + ([bs[4]] + f) + payload
  {
  }

  lemma EncodeWithField(q: Packet, f: seq<byte>, header: seq<byte>)
    requires P.Prepared(q) == q && q.HasField() && (q.HasPayload() <==> q.payload != [])
    requires |f| + |q.payload| == PACKET_SIZE - 5 && Be(Pack(P.Header(q), 32), 4) == header
    requires AF.Encode(q.field, |f| + 1) == Be(|f|, 1) + f && AF.Norm(q.field, |f| + 1) == q.field
    ensures P.Encode(q) == header + ([|f|] + f) + q.payload && P.Norm(q) == q
  {
    hide P.Prepared, P.Header, Pack, Be, AF.Encode, AF.Norm;
    W.OneByte(|f|);
    Difference(PACKET_SIZE - 4, |q.payload|);
  }

  lemma EncodeWithoutField(q: Packet, header: seq<byte>)
    requires P.Prepared(q) == q && q.control == 1 && Be(Pack(P.Header(q), 32), 4) == header && q.field == AF.EMPTY
    ensures P.Encode(q) == header + q.payload && P.Norm(q) == q
  {
    hide P.Prepared, P.Header, Pack, Be;
    assert header + [] + q.payload == header + q.payload;
  }

  /** A canonical packet is packed as it was, and is its own normal form. */
  lemma PacketReproduced(bs: seq<byte>)
    requires |bs| == PACKET_SIZE && Canonical(bs)
    ensures P.Encode(PacketOf(bs)) == bs && P.Norm(PacketOf(bs)) == PacketOf(bs) && P.Fits(PacketOf(bs))
  {
    var q, length: int := PacketOf(bs), bs[4];
    HeaderAgain(bs[..4], q);
    hide P.FromHeader, FromBe, Pack, P.Header, CanonicalField, FieldOf, AF.Encode, AF.Norm, P.Size, P.Prepared, Be,
      AF.Fits, P.Encode, P.Norm, P.Fits;
    if ControlOf(bs) == 1 {
      FieldlessSize(q);
      HeaderFields(FromBe(bs[..4]));
      EncodeWithoutField(q, bs[..4]);
    } else {
      var f := if ControlOf(bs) == 2 then bs[5..] else bs[5..5 + length];
      FieldfulPrepared(q);
      FieldReproduced(f);
      FieldIsNorm(f);
      FieldIn(bs, f, q.payload);
      EncodeWithField(q, f, bs[..4]);
    }
    P.Exactly188(q);
  }

  lemma NormIsPrepared(p: Packet)
    requires P.Fits(p) && P.Norm(p) == p
    ensures P.Prepared(p) == p && p.control != 0 && (p.HasPayload() <==> p.payload != [])
    ensures
      if p.HasField() then
        && Sub64(PACKET_SIZE - 4, |p.payload|) == PACKET_SIZE - 4 - |p.payload| > 0
        && AF.Fits(p.field, PACKET_SIZE - 4 - |p.payload|)
        && AF.Norm(p.field, PACKET_SIZE - 4 - |p.payload|) == p.field
      else p.control == 1 && |p.payload| == PACKET_SIZE - 4
  {
    hide AF.Norm, AF.Fits, AF.Size;
  }

  lemma ControlSent(p: Packet)
    requires P.Prepared(p) == p && |P.Encode(p)| == PACKET_SIZE
    ensures P.Encode(p)[0] == 0x47 && ControlOf(P.Encode(p)) == p.control
  {
    W.PacketHeader(p);
    hide P.Encode, P.Prepared;
    var bs := P.Encode(p);
    assert bs[0] == bs[..4][0] && bs[3] == bs[..4][3];
    DivModUnique(p.scrambling * 64 + p.control * 16 + p.counter, 16, p.scrambling * 4 + p.control, p.counter);
    DivModUnique(p.scrambling * 4 + p.control, 4, p.scrambling, p.control);
  }

  lemma CanonicalJoin(header: seq<byte>, f: seq<byte>, payload: seq<byte>)
    requires |header| == 4 && |f| + |payload| == PACKET_SIZE - 5 && CanonicalField(f) && header[0] == 0x47
    requires ControlOf(header + ([|f|] + f) + payload) == if payload == [] then 2 else 3
    ensures Canonical(header + ([|f|] + f) + payload)
  {
    hide CanonicalField, ControlOf;
    var bs := header + ([|f|] + f) + payload;
    assert bs[0] == header[0] && bs[4] == |f| && bs[5..5 + |f|] == f;
    assert payload == [] ==> bs[5..] == f;
  }

  lemma EncodeIs(p: Packet)
    requires P.Prepared(p) == p && (p.HasPayload() <==> p.payload != [])
    ensures InWord(P.Header(p), 32)
    ensures
      var header := Be(Pack(P.Header(p), 32), 4);
      && P.Encode(p) == header + P.FieldBytes(p) + p.payload && P.Encode(p)[0] == header[0]
      && (p.HasField() ==> P.FieldBytes(p) == AF.Encode(p.field, Sub64(PACKET_SIZE - 4, |p.payload|)))
  {
    assert InWord(P.Header(p), 32);
    hide P.Prepared, P.Header, AF.Encode, Be, Pack, Sub64;
  }

  /** What a packet in normal form is packed to is canonical. */
  lemma PacketIsCanonical(p: Packet)
    requires P.Fits(p) && P.Norm(p) == p
    ensures |P.Encode(p)| == PACKET_SIZE && Canonical(P.Encode(p))
  {
    hide P.Norm, P.Fits, P.Encode, P.Prepared, P.Header, P.FieldBytes, CanonicalField, AF.Encode, AF.Norm, AF.Fits, Be,
      Pack, ControlOf, Sub64;
    P.Exactly188(p);
    NormIsPrepared(p);
    ControlSent(p);
    EncodeIs(p);
    if p.HasField() {
      hide Canonical;
      var f := FieldIsCanonical(p.field, PACKET_SIZE - 4 - |p.payload|);
      CanonicalJoin(Be(Pack(P.Header(p), 32), 4), f, p.payload);
    }
  }

  /** For any 188 bytes, with any bytes behind them: the parser accepts them and packing what it made of them gives the
      same bytes again, if and only if they are canonical. Then the parser leaves exactly what is behind them. */
  lemma ReproducedExactly(bs: seq<byte>, tail: seq<byte>)
    requires |bs| == PACKET_SIZE && |tail| + PACKET_SIZE < 0x1_0000_0000_0000_0000
    ensures
      var d := P.Decode(Open(bs + tail));
      && (d.status == Success && P.Encode(d.packet) == bs <==> Canonical(bs))
      && (Canonical(bs) ==> d == P.Decoded(Success, PacketOf(bs), Open(tail)))
  {
    hide P.Decode, P.Encode, P.Norm, P.Fits, Canonical, PacketOf;
    var d := P.Decode(Open(bs + tail));
    if Canonical(bs) {
      PacketReproduced(bs);
      P.RoundTrip(PacketOf(bs), tail);
    }
    if d.status == Success && P.Encode(d.packet) == bs {
      P.Exactly188(d.packet);
      P.RoundTrip(d.packet, tail);
      PacketIsCanonical(d.packet);
    }
  }

  lemma PlainAccepted(bs: seq<byte>)
    requires |bs| == PACKET_SIZE && ControlOf(bs) == 1
    ensures P.Decode(Open(bs)).status == Success
  {
    HeaderNumber(bs[..4]);
    HeaderFields(FromBe(bs[..4]));
    Difference(PACKET_SIZE, PACKET_SIZE - 4);
    Difference(PACKET_SIZE, 4);
    hide FromBe, P.FromHeader, Sub64;
  }

  /** A null packet is canonical. Without its sync byte it is accepted all the same, but not reproduced. */
  lemma NullPackets(good: seq<byte>, bad: seq<byte>)
    requires good == [0x47, 0x1f, 0xff, 0x10] + AF.Stuffing(184) && bad == good[0 := 0x46]
    ensures |good| == |bad| == PACKET_SIZE && Canonical(good) && !Canonical(bad)
    ensures P.Decode(Open(bad)).status == Success && P.Encode(P.Decode(Open(bad)).packet) != bad
  {
    assert bad + [] == bad && ControlOf(bad) == ControlOf(good) == 1;
    PlainAccepted(bad);
    hide P.Decode, P.Encode, PacketOf;
    ReproducedExactly(bad, []);
  }

  // ---- streams ----

  predicate AllCanonical(bs: seq<byte>) {
    |bs| % PACKET_SIZE == 0 &&
    forall i :: 0 <= i < |bs| / PACKET_SIZE ==> CanonicalAt(bs, PACKET_SIZE * i)
  }

  predicate CanonicalAt(bs: seq<byte>, at: nat) {
    at + PACKET_SIZE <= |bs| && Canonical(bs[at..at + PACKET_SIZE])
  }

  lemma {:induction false} PacketsOfStream(bs: seq<byte>, n: nat) returns (ps: seq<Packet>)
    requires PACKET_SIZE * n <= |bs| && forall i :: 0 <= i < n ==> CanonicalAt(bs, PACKET_SIZE * i)
    ensures |ps| == n && Packable(ps) && NormAll(ps) == ps && EncodeAll(ps) == bs[..PACKET_SIZE * n]
  {
    hide P.Encode, P.Norm, P.Fits, Canonical, PacketOf;
    ps := [];
    if n > 0 {
      var init := PacketsOfStream(bs, n - 1);
      var at := PACKET_SIZE * (n - 1);
      assert CanonicalAt(bs, at);
      var p := PacketOf(bs[at..at + PACKET_SIZE]);
      PacketReproduced(bs[at..at + PACKET_SIZE]);
      ps := init + [p];
      assert ps[..n - 1] == init && NormAll(ps) == NormAll(init) + [p];
      assert bs[..at + PACKET_SIZE] == bs[..at] + bs[at..at + PACKET_SIZE];
    }
  }

  /** The packets are packed to these bytes, each to its own 188. */
  predicate SameBytes(ps: seq<Packet>, bs: seq<byte>) {
    |bs| == PACKET_SIZE * |ps| &&
    forall i :: 0 <= i < |ps| ==> P.Encode(ps[i]) == bs[PACKET_SIZE * i..PACKET_SIZE * i + PACKET_SIZE]
  }

  lemma SliceBehind(bs: seq<byte>, i: nat)
    requires PACKET_SIZE * (i + 2) <= |bs|
    ensures bs[PACKET_SIZE * (i + 1)..PACKET_SIZE * (i + 1) + PACKET_SIZE] ==
            bs[PACKET_SIZE..][PACKET_SIZE * i..PACKET_SIZE * i + PACKET_SIZE]
  {
    var at := PACKET_SIZE * i;
    assert PACKET_SIZE * (i + 1) == at + PACKET_SIZE;
    DropThenTake(bs, PACKET_SIZE, at, PACKET_SIZE);
  }

  lemma DropThenTake(bs: seq<byte>, d: nat, at: nat, n: nat)
    requires d + at + n <= |bs|
    ensures bs[at + d..at + d + n] == bs[d..][at..at + n]
  {
  }

  lemma CanonicalBehind(bs: seq<byte>)
    requires |bs| >= PACKET_SIZE
    ensures AllCanonical(bs) <==> Canonical(bs[..PACKET_SIZE]) && AllCanonical(bs[PACKET_SIZE..])
  {
    hide Canonical;
    var tail := bs[PACKET_SIZE..];
    assert bs[0..PACKET_SIZE] == bs[..PACKET_SIZE] && PACKET_SIZE * 0 == 0;
    forall i: nat | PACKET_SIZE * i + PACKET_SIZE <= |tail|
      ensures CanonicalAt(bs, PACKET_SIZE * (i + 1)) <==> CanonicalAt(tail, PACKET_SIZE * i)
    {
      SliceBehind(bs, i);
    }
    if Canonical(bs[..PACKET_SIZE]) && AllCanonical(tail) {
      forall i | 0 <= i < |bs| / PACKET_SIZE
        ensures CanonicalAt(bs, PACKET_SIZE * i)
      {
        if i > 0 {
          assert CanonicalAt(tail, PACKET_SIZE * (i - 1));
        }
      }
    }
    if AllCanonical(bs) {
      assert CanonicalAt(bs, PACKET_SIZE * 0);
      forall i | 0 <= i < |tail| / PACKET_SIZE
        ensures CanonicalAt(tail, PACKET_SIZE * i)
      {
        assert CanonicalAt(bs, PACKET_SIZE * (i + 1));
      }
    }
  }

  lemma SameBehind(p: Packet, ps: seq<Packet>, bs: seq<byte>)
    requires |bs| >= PACKET_SIZE
    ensures SameBytes([p] + ps, bs) <==> P.Encode(p) == bs[..PACKET_SIZE] && SameBytes(ps, bs[PACKET_SIZE..])
  {
    hide P.Encode;
    var all, tail := [p] + ps, bs[PACKET_SIZE..];
    assert all[0] == p && bs[0..PACKET_SIZE] == bs[..PACKET_SIZE] && PACKET_SIZE * 0 == 0;
    forall i: nat | i < |ps| && |bs| == PACKET_SIZE * |all|
      ensures bs[PACKET_SIZE * (i + 1)..PACKET_SIZE * (i + 1) + PACKET_SIZE] ==
              tail[PACKET_SIZE * i..PACKET_SIZE * i + PACKET_SIZE] && all[i + 1] == ps[i]
    {
      SliceBehind(bs, i);
    }
    if SameBytes(all, bs) {
      assert P.Encode(all[0]) == bs[PACKET_SIZE * 0..PACKET_SIZE * 0 + PACKET_SIZE];
      forall i | 0 <= i < |ps|
        ensures P.Encode(ps[i]) == tail[PACKET_SIZE * i..PACKET_SIZE * i + PACKET_SIZE]
      {
        assert P.Encode(all[i + 1]) == bs[PACKET_SIZE * (i + 1)..PACKET_SIZE * (i + 1) + PACKET_SIZE];
      }
    }
    if P.Encode(p) == bs[..PACKET_SIZE] && SameBytes(ps, tail) {
      forall i | 0 <= i < |all|
        ensures P.Encode(all[i]) == bs[PACKET_SIZE * i..PACKET_SIZE * i + PACKET_SIZE]
      {
        if i > 0 {
          assert P.Encode(ps[i - 1]) == tail[PACKET_SIZE * (i - 1)..PACKET_SIZE * (i - 1) + PACKET_SIZE];
        }
      }
    }
  }

  /** The packets of a stream, with their counters kept, are packed to the same bytes, each to its own 188, exactly when
      all of them are canonical. */
  lemma {:induction false} KeptExactly(bs: seq<byte>)
    requires |bs| < 0x1_0000_0000_0000_0000
    ensures SameBytes(DecodeAll(Open(bs)).packets, bs) <==> AllCanonical(bs)
    decreases |bs|
  {
    hide P.Encode, Canonical, PacketOf;
    if |bs| >= PACKET_SIZE {
      var head, tail := bs[..PACKET_SIZE], bs[PACKET_SIZE..];
      assert head + tail == bs;
      hide P.Decode, SameBytes, AllCanonical;
      ReproducedExactly(head, tail);
      CanonicalBehind(bs);
      KeptExactly(tail);
      var d := P.Decode(Open(bs));
      if d.status == Success {
        DecodeShrinks(Open(bs));
        SameBehind(d.packet, DecodeAll(d.rest).packets, bs);
      } else {
        NoPackets(bs);
      }
    }
  }

  lemma NoPackets(bs: seq<byte>)
    requires bs != []
    ensures !SameBytes([], bs)
  {
  }

  // ---- with the counters of a packet list ----

  predicate EqualUpToCounters(ps: seq<Packet>, qs: seq<Packet>) {
    |ps| == |qs| && forall i :: 0 <= i < |ps| ==> qs[i] == ps[i].(counter := qs[i].counter)
  }

  lemma OneUpToCounter(bs: seq<byte>, q: Packet)
    requires |bs| >= PACKET_SIZE && |bs| < 0x1_0000_0000_0000_0000 && P.Encode(q) == bs[..PACKET_SIZE]
    ensures
      var d := P.Decode(Open(bs));
      d.status == Success && d.packet.counter == q.counter && d.rest == Open(bs[PACKET_SIZE..])
  {
    hide P.Encode, P.Decode, P.Norm, P.Fits;
    assert bs == bs[..PACKET_SIZE] + bs[PACKET_SIZE..];
    P.Exactly188(q);
    P.RoundTrip(q, bs[PACKET_SIZE..]);
    NormKeepsCounter(q);
  }

  /** Packets that differ from those of a stream at most in their counters, and are packed to the stream, do not differ
      at all. */
  lemma {:induction false} SameBytesSameCounters(bs: seq<byte>, qs: seq<Packet>)
    requires |bs| < 0x1_0000_0000_0000_0000 && SameBytes(qs, bs)
    requires EqualUpToCounters(DecodeAll(Open(bs)).packets, qs)
    ensures qs == DecodeAll(Open(bs)).packets
    decreases |qs|
  {
    hide P.Encode, P.Decode;
    if qs != [] {
      var tail, rest := bs[PACKET_SIZE..], qs[1..];
      assert qs == [qs[0]] + rest;
      SameBehind(qs[0], rest, bs);
      OneUpToCounter(bs, qs[0]);
      var ps := DecodeAll(Open(bs)).packets;
      assert ps == [ps[0]] + DecodeAll(Open(tail)).packets;
      assert ps[1..] == DecodeAll(Open(tail)).packets;
      hide SameBytes;
      SameBytesSameCounters(tail, rest);
    }
  }

  /** A stream is unpacked and packed again, by a packet list with any counter table, to the same bytes, each packet to
      its own 188, exactly when all its packets are canonical and carry the counters that the list gives them. */
  lemma StreamExactly(cs: seq<Counter>, bs: seq<byte>)
    requires |bs| < 0x1_0000_0000_0000_0000
    ensures
      var ps := DecodeAll(Open(bs)).packets;
      SameBytes(NumberedAll(cs, ps), bs) <==> AllCanonical(bs) && CountersAgree(cs, ps)
  {
    hide SameBytes, AllCanonical, CountersAgree, DecodeAll;
    var ps := DecodeAll(Open(bs)).packets;
    NumberingKeeps(cs, ps);
    KeptExactly(bs);
    if SameBytes(NumberedAll(cs, ps), bs) {
      SameBytesSameCounters(bs, NumberedAll(cs, ps));
    }
  }

  /** Then nothing is left of the stream, and all the bytes are the same. */
  lemma StreamReproduced(cs: seq<Counter>, bs: seq<byte>)
    requires AllCanonical(bs) && CountersAgree(cs, DecodeAll(Open(bs)).packets) && |bs| < 0x1_0000_0000_0000_0000
    ensures
      var parsed := DecodeAll(Open(bs));
      parsed.rest == Open([]) && EncodeAll(NumberedAll(cs, parsed.packets)) == bs
  {
    hide Canonical, P.Decode, P.Encode, P.Norm, P.Fits;
    var n := |bs| / PACKET_SIZE;
    var ps := PacketsOfStream(bs, n);
    assert bs[..PACKET_SIZE * n] == bs;
    ListRoundTrip(ps);
    NumberingKeeps(cs, ps);
  }

  lemma CounterOf(bs: seq<byte>)
    requires |bs| == PACKET_SIZE && Canonical(bs) && ControlOf(bs) == 1
    ensures
      var last: int := bs[3];
      PacketOf(bs).counter == last % 16 && PacketOf(bs).HasPayload()
  {
    var b := bs[..4];
    FourNumber(b);
    HeaderNumber(b);
    HeaderFields(FromBe(b));
    var last: int := bs[3];
    assert last == b[3];
    DivModUnique(FromBe(b), 16, b[0] as int * 0x10_0000 + b[1] as int * 0x1000 + b[2] as int * 16 + last / 16,
        last % 16);
    hide FromBe, P.FromHeader;
  }

  lemma SecondCounter(p: Packet)
    requires p.HasPayload() && p.counter == 0
    ensures !CountersAgree([], [p, p])
  {
    assert [p, p][..1] == [p] && [p][..0] == [];
    assert Announced([p], p.pid) == 1 && Value([], p.pid) == 0;
    assert [p, p][1].counter == 0;
  }

  lemma TwoCanonical(good: seq<byte>)
    requires |good| == PACKET_SIZE && Canonical(good)
    ensures AllCanonical(good + good)
    ensures DecodeAll(Open(good + good)) == Parsed([PacketOf(good), PacketOf(good)], Open([]))
  {
    var bs := good + good;
    assert bs[..PACKET_SIZE] == good && bs[PACKET_SIZE..] == good;
    assert good[..PACKET_SIZE] == good && good[PACKET_SIZE..] == [] && good + [] == good;
    hide P.Decode, P.Encode, Canonical, PacketOf, AllCanonical;
    EmptyStream();
    CanonicalBehind(good);
    CanonicalBehind(bs);
    ReproducedExactly(good, good);
    ReproducedExactly(good, []);
    DecodeTwo(bs, good, PacketOf(good));
  }

  /** Two equal packets with a payload and counter 0 are canonical if one is, but a packet list gives the second another
      counter, so the stream is not reproduced. */
  lemma EqualPackets(bs: seq<byte>)
    requires |bs| == PACKET_SIZE && Canonical(bs) && ControlOf(bs) == 1 && PacketOf(bs).counter == 0
    ensures AllCanonical(bs + bs)
    ensures !SameBytes(NumberedAll([], DecodeAll(Open(bs + bs)).packets), bs + bs)
  {
    CounterOf(bs);
    hide Canonical, PacketOf, AllCanonical, SameBytes, DecodeAll, CountersAgree, ControlOf;
    TwoCanonical(bs);
    SecondCounter(PacketOf(bs));
    StreamExactly([], bs + bs);
  }

  /** Two equal null packets, for example. */
  lemma EqualNullPackets(good: seq<byte>)
    requires good == [0x47, 0x1f, 0xff, 0x10] + AF.Stuffing(184)
    ensures AllCanonical(good + good)
    ensures !SameBytes(NumberedAll([], DecodeAll(Open(good + good)).packets), good + good)
  {
    assert good[3] == 0x10 && ControlOf(good) == 1;
    NullPackets(good, good[0 := 0x46]);
    CounterOf(good);
    hide Canonical, PacketOf, AllCanonical, SameBytes, DecodeAll, AF.Stuffing;
    EqualPackets(good);
  }

  lemma EmptyStream()
    ensures AllCanonical([])
  {
  }

  lemma DecodeTwo(bs: seq<byte>, good: seq<byte>, p: Packet)
    requires good != [] && bs != []
    requires P.Decode(Open(bs)) == P.Decoded(Success, p, Open(good))
    requires P.Decode(Open(good)) == P.Decoded(Success, p, Open([]))
    ensures DecodeAll(Open(bs)) == Parsed([p, p], Open([]))
  {
    hide P.Decode;
    assert DecodeAll(Open([])) == Parsed([], Open([]));
    assert DecodeAll(Open(good)) == Parsed([p], Open([]));
  }

  /** The program of examples/remux_packets.c without the files: a stream is loaded into a new packet list and saved
      from it. hasData says whether the buffer it is read into holds memory, which it may not if the file is empty. */
  method Remultiplex(bytes: seq<byte>, hasData: bool) returns (n: Status, out: seq<byte>)
    requires bytes != [] ==> hasData
    ensures
      var parsed := DecodeAll(if hasData then Open(bytes) else Failed);
      if parsed.rest.Failed? then n == Error
      else n == Success && out == EncodeAll(NumberedAll([], parsed.packets))
  {
    hide DecodeAll, EncodeAll, NumberedAll;
    var input := new Bytestream.OfBuffer(bytes, hasData);
    var packets := new Packets();
    ghost var parsed := DecodeAll(input.In());
    var count := packets.Unpack(input);
    if count == -1 {
      return Error, [];
    }
    assert [] + parsed.packets == parsed.packets;
    out := PackToBytes(packets);
    n := Success;
  }
}
