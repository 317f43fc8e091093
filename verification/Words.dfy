/** Words built from bit fields, and their big-endian byte form (src/ts/bytestream.c).

    The source shifts, masks and ORs fields into 8- to 32-bit words. Words are modelled as naturals; `Or` is the
    bitwise operator, and a field is described exactly as the source describes it: value, offset from the most
    significant bit, and width. */
module Words {

  type byte = x: int | 0 <= x < 256

  /** A size_t or uint64_t. */
  type u64 = x: int | 0 <= x < 0x1_0000_0000_0000_0000

  /** A one-bit field. */
  type bit = x: int | 0 <= x < 2

  /** a - b as size_t subtraction: it wraps. */
  function Sub64(a: nat, b: nat): u64 {
    (a - b) % 0x1_0000_0000_0000_0000
  }

  lemma Difference(a: u64, b: nat)
    requires b <= a
    ensures Sub64(a, b) == a - b
  {
  }

  /** A size stored in an int: it wraps to a signed 32-bit value. */
  function Int32(n: int): int {
    (n + 0x8000_0000) % 0x1_0000_0000 - 0x8000_0000
  }

  function Pow2(n: nat): (p: nat)
    ensures p > 0
  {
    if n == 0 then 1 else 2 * Pow2(n - 1)
  }

  lemma {:induction false} Pow2Add(a: nat, b: nat)
    ensures Pow2(a + b) == Pow2(a) * Pow2(b)
  {
    if a > 0 {
      Pow2Add(a - 1, b);
      assert a + b - 1 == a - 1 + b;
    }
  }

  /** The widths the formats use, so that the solver sees numerals. */
  lemma Pow2Values()
    ensures Pow2(0) == 1 && Pow2(1) == 2 && Pow2(2) == 4 && Pow2(3) == 8 && Pow2(4) == 16 && Pow2(5) == 32
    ensures Pow2(6) == 64 && Pow2(7) == 128 && Pow2(8) == 0x100 && Pow2(9) == 0x200 && Pow2(10) == 0x400
    ensures Pow2(13) == 0x2000 && Pow2(15) == 0x8000 && Pow2(16) == 0x1_0000 && Pow2(24) == 0x100_0000
    ensures Pow2(32) == 0x1_0000_0000 && Pow2(33) == 0x2_0000_0000 && Pow2(48) == 0x1_0000_0000_0000
  {
    assert Pow2(10) == 0x400;
    Pow2Add(10, 3);
    Pow2Add(10, 5);
    Pow2Add(8, 8);
    Pow2Add(16, 8);
    Pow2Add(16, 16);
    Pow2Add(32, 1);
    Pow2Add(32, 16);
  }

  // ---- bitwise or, and the slices of a word ----

  /** Bitwise a | b. */
  function Or(a: nat, b: nat): nat
  {
    if a == 0 then b
    else if b == 0 then a
    else 2 * Or(a / 2, b / 2) + (if a % 2 == 1 || b % 2 == 1 then 1 else 0)
  }

  /** The n bits of w whose lowest bit is bit lo, read one bit at a time. */
  ghost function Slice(w: nat, lo: nat, n: nat): nat
    decreases lo, n
  {
    if lo > 0 then Slice(w / 2, lo - 1, n)
    else if n == 0 then 0
    else 2 * Slice(w / 2, 0, n - 1) + w % 2
  }

  lemma MulMono(a: nat, b: nat, c: nat)
    requires a <= b
    ensures a * c <= b * c
  {
  }

  lemma DivModUnique(w: nat, d: nat, q: nat, r: nat)
    requires r < d && w == q * d + r
    ensures w / d == q && w % d == r
  {
    if w / d < q {
      MulMono(w / d + 1, q, d);
      Distribute(w / d, d);
    }
    if q < w / d {
      MulMono(q + 1, w / d, d);
      Distribute(q, d);
    }
  }

  lemma DivDiv(w: nat, a: nat, b: nat)
    requires a > 0 && b > 0
    ensures a * b > 0 && (w / a) / b == w / (a * b)
    ensures w % (a * b) == (w / a % b) * a + w % a
  {
    TwoDigits(w, a, b, w / a, w % a, w / a / b, w / a % b);
    DivModUnique(w, a * b, w / a / b, (w / a % b) * a + w % a);
  }

  lemma ModOfProduct(b: nat, k: nat, m: nat)
    requires k > 0 && m > 0
    ensures k * m > 0 && (b * k) % (k * m) == (b % m) * k
  {
    DivDiv(b * k, k, m);
    DivModUnique(b * k, k, b, 0);
  }

  lemma TwoDigits(w: nat, a: nat, b: nat, k: nat, m: nat, q: nat, r: nat)
    requires m < a && r < b && w == k * a + m && k == q * b + r
    ensures w == q * (a * b) + (r * a + m) && r * a + m < a * b
  {
    Regroup(q, b, r, a, m);
    MulMono(r, b - 1, a);
    Distribute(b - 1, a);
  }

  lemma MulAssoc(a: nat, b: nat, c: nat)
    ensures a * (b * c) == (a * b) * c
  {
  }

  lemma Distribute(b: nat, a: nat)
    ensures (b + 1) * a == b * a + a
  {
  }

  lemma Regroup(q: nat, b: nat, r: nat, a: nat, m: nat)
    ensures (q * b + r) * a + m == q * (a * b) + (r * a + m)
  {
    assert (q * b + r) * a == (q * b) * a + r * a;
    assert (q * b) * a == q * (a * b);
  }

  lemma {:induction false} SliceIsShiftAndMask(w: nat, lo: nat, n: nat)
    ensures Slice(w, lo, n) == (w / Pow2(lo)) % Pow2(n)
    decreases lo, n
  {
    if lo > 0 {
      SliceIsShiftAndMask(w / 2, lo - 1, n);
      DivDiv(w, 2, Pow2(lo - 1));
    } else {
      LowSliceIsMask(w, n);
    }
  }

  lemma {:induction false} LowSliceIsMask(w: nat, n: nat)
    ensures Slice(w, 0, n) == w % Pow2(n)
  {
    if n > 0 {
      LowSliceIsMask(w / 2, n - 1);
      DivDiv(w, 2, Pow2(n - 1));
    }
  }

  lemma {:induction false} OrHalves(a: nat, b: nat)
    ensures Or(a, b) / 2 == Or(a / 2, b / 2)
    ensures Or(a, b) % 2 == (if a % 2 == 1 || b % 2 == 1 then 1 else 0)
  {
  }

  lemma {:induction false} SliceOr(a: nat, b: nat, lo: nat, n: nat)
    ensures Slice(Or(a, b), lo, n) == Or(Slice(a, lo, n), Slice(b, lo, n))
    decreases lo
  {
    if lo > 0 {
      OrHalves(a, b);
      SliceOr(a / 2, b / 2, lo - 1, n);
    } else {
      LowSliceOr(a, b, n);
    }
  }

  lemma {:induction false} LowSliceOr(a: nat, b: nat, n: nat)
    ensures Slice(Or(a, b), 0, n) == Or(Slice(a, 0, n), Slice(b, 0, n))
  {
    if n > 0 {
      LowSliceOr(a / 2, b / 2, n - 1);
      OrHalves(a, b);
      OrOfDigits(Slice(a / 2, 0, n - 1), a % 2, Slice(b / 2, 0, n - 1), b % 2);
    }
  }

  lemma OrOfDigits(a: nat, i: bit, b: nat, j: bit)
    ensures Or(2 * a + i, 2 * b + j) == 2 * Or(a, b) + (if i == 1 || j == 1 then 1 else 0)
  {
    assert (2 * a + i) / 2 == a && (2 * b + j) / 2 == b;
  }

  lemma {:induction false} OrBound(a: nat, b: nat, n: nat)
    requires a < Pow2(n) && b < Pow2(n)
    ensures Or(a, b) < Pow2(n)
  {
    if n > 0 {
      OrBound(a / 2, b / 2, n - 1);
      OrHalves(a, b);
    }
  }

  // ---- bytestream_read_bits and bytestream_write_bits ----

  function ReadBits(value: nat, size: nat, offset: nat, bits: nat): nat
    requires offset + bits <= size
  {
    (value / Pow2(size - offset - bits)) % Pow2(bits)
  }

  function ReadFlag(value: nat, size: nat, offset: nat): (b: bit)
    requires offset + 1 <= size
    ensures b == ReadBits(value, size, offset, 1)
  {
    Pow2Values();
    ReadBits(value, size, offset, 1)
  }

  function WriteBits(value: nat, size: nat, offset: nat, bits: nat): nat
    requires offset + bits <= size
  {
    (value % Pow2(bits)) * Pow2(size - offset - bits)
  }

  datatype Field = Field(value: nat, offset: nat, bits: nat)

  predicate InWord(fs: seq<Field>, size: nat) {
    forall i :: 0 <= i < |fs| ==> fs[i].offset + fs[i].bits <= size
  }

  predicate Disjoint(f: Field, offset: nat, bits: nat) {
    f.offset + f.bits <= offset || offset + bits <= f.offset
  }

  /** All the fields ORed into one word of the given size. */
  function Pack(fs: seq<Field>, size: nat): (w: nat)
    requires InWord(fs, size)
  {
    if fs == [] then 0
    else
      var f := fs[|fs| - 1];
      Or(Pack(fs[..|fs| - 1], size), WriteBits(f.value, size, f.offset, f.bits))
  }

  lemma {:induction false} PackBound(fs: seq<Field>, size: nat)
    requires InWord(fs, size)
    ensures Pack(fs, size) < Pow2(size)
  {
    if fs != [] {
      var f := fs[|fs| - 1];
      PackBound(fs[..|fs| - 1], size);
      WriteBound(f.value, size, f.offset, f.bits);
      OrBound(Pack(fs[..|fs| - 1], size), WriteBits(f.value, size, f.offset, f.bits), size);
    }
  }

  lemma WriteBound(value: nat, size: nat, offset: nat, bits: nat)
    requires offset + bits <= size
    ensures WriteBits(value, size, offset, bits) < Pow2(size)
  {
    var s := size - offset - bits;
    ShiftedBelow(value % Pow2(bits), bits, s, size);
  }

  lemma ShiftedBelow(v: nat, width: nat, shift: nat, n: nat)
    requires v < Pow2(width) && width + shift <= n
    ensures v * Pow2(shift) < Pow2(n)
  {
    Pow2Add(width, shift);
    Pow2Add(width + shift, n - width - shift);
    MulMono(v, Pow2(width) - 1, Pow2(shift));
    Distribute(Pow2(width) - 1, Pow2(shift));
    MulMono(1, Pow2(n - width - shift), Pow2(width + shift));
  }

  /** A written field has its own value in its own bits and zero everywhere else. */
  lemma SliceOfWrite(v: nat, width: nat, shift: nat, lo: nat, n: nat)
    requires v < Pow2(width)
    ensures lo == shift && n == width ==> Slice(v * Pow2(shift), lo, n) == v
    ensures lo + n <= shift || shift + width <= lo ==> Slice(v * Pow2(shift), lo, n) == 0
  {
    SliceIsShiftAndMask(v * Pow2(shift), lo, n);
    if lo == shift && n == width {
      DivModUnique(v * Pow2(shift), Pow2(lo), v, 0);
      DivModUnique(v, Pow2(n), 0, v);
    }
    if shift + width <= lo {
      ShiftedBelow(v, width, shift, lo);
      DivModUnique(v * Pow2(shift), Pow2(lo), 0, v * Pow2(shift));
      DivModUnique(0, Pow2(n), 0, 0);
    }
    if lo + n <= shift {
      LowBitsOfShifted(v, shift, lo, n);
    }
  }

  lemma LowBitsOfShifted(v: nat, shift: nat, lo: nat, n: nat)
    requires lo + n <= shift
    ensures (v * Pow2(shift) / Pow2(lo)) % Pow2(n) == 0
  {
    hide Pow2;
    Pow2Add(lo, shift - lo);
    Pow2Add(n, shift - lo - n);
    LowBitsOfProduct(v, Pow2(lo), Pow2(n), Pow2(shift - lo - n));
  }

  lemma LowBitsOfProduct(v: nat, a: nat, b: nat, c: nat)
    requires a > 0 && b > 0
    ensures (v * (a * (b * c)) / a) % b == 0
  {
    Rearrange(v, a, b, c);
    DivModUnique(v * (a * (b * c)), a, (v * c) * b, 0);
    DivModUnique((v * c) * b, b, v * c, 0);
  }

  lemma Rearrange(v: nat, a: nat, b: nat, c: nat)
    ensures v * (a * (b * c)) == ((v * c) * b) * a
  {
    assert v * (a * (b * c)) == (v * (b * c)) * a;
    assert v * (b * c) == (v * c) * b;
  }

  /** Bits that no field covers read as zero. */
  lemma {:induction false} ReadGap(fs: seq<Field>, size: nat, offset: nat, bits: nat)
    requires InWord(fs, size) && offset + bits <= size
    requires forall j :: 0 <= j < |fs| ==> Disjoint(fs[j], offset, bits)
    ensures ReadBits(Pack(fs, size), size, offset, bits) == 0
  {
    var lo := size - offset - bits;
    SliceIsShiftAndMask(Pack(fs, size), lo, bits);
    if fs == [] {
      DivModUnique(0, Pow2(lo), 0, 0);
      DivModUnique(0, Pow2(bits), 0, 0);
    } else {
      var f, init := fs[|fs| - 1], fs[..|fs| - 1];
      ReadGap(init, size, offset, bits);
      SliceIsShiftAndMask(Pack(init, size), lo, bits);
      SliceOfWrite(f.value % Pow2(f.bits), f.bits, size - f.offset - f.bits, lo, bits);
      SliceOr(Pack(init, size), WriteBits(f.value, size, f.offset, f.bits), lo, bits);
    }
  }

  /** For any set of fields that do not overlap, in any order and with any gaps, each reads back as its own value. */
  lemma {:induction false} ReadField(fs: seq<Field>, size: nat, i: nat)
    requires InWord(fs, size) && i < |fs|
    requires forall j :: 0 <= j < |fs| && j != i ==> Disjoint(fs[j], fs[i].offset, fs[i].bits)
    ensures ReadBits(Pack(fs, size), size, fs[i].offset, fs[i].bits) == fs[i].value % Pow2(fs[i].bits)
  {
    var g := fs[i];
    var lo := size - g.offset - g.bits;
    var f, init := fs[|fs| - 1], fs[..|fs| - 1];
    SliceIsShiftAndMask(Pack(fs, size), lo, g.bits);
    SliceIsShiftAndMask(Pack(init, size), lo, g.bits);
    SliceOfWrite(f.value % Pow2(f.bits), f.bits, size - f.offset - f.bits, lo, g.bits);
    SliceOr(Pack(init, size), WriteBits(f.value, size, f.offset, f.bits), lo, g.bits);
    if i == |fs| - 1 {
      ReadGap(init, size, g.offset, g.bits);
    } else {
      ReadField(init, size, i);
    }
  }

  /** Fields that lie inside the word and do not overlap. */
  predicate Separate(fs: seq<Field>, size: nat) {
    && InWord(fs, size)
    && forall i, j :: 0 <= i < |fs| && 0 <= j < |fs| && i != j ==> Disjoint(fs[j], fs[i].offset, fs[i].bits)
  }

  /** Separate fields whose values fit their own bits. */
  predicate Layout(fs: seq<Field>, size: nat) {
    Separate(fs, size) && forall i :: 0 <= i < |fs| ==> fs[i].value < Pow2(fs[i].bits)
  }

  lemma ReadAt(fs: seq<Field>, size: nat, i: nat, value: nat, offset: nat, bits: nat)
    requires Layout(fs, size) && i < |fs| && fs[i] == Field(value, offset, bits)
    ensures ReadBits(Pack(fs, size), size, offset, bits) == value
  {
    ReadField(fs, size, i);
    DivModUnique(value, Pow2(bits), 0, value);
  }

  /** A field that does not fit its bits keeps its low bits. */
  lemma ReadLowAt(fs: seq<Field>, size: nat, i: nat, value: nat, offset: nat, bits: nat)
    requires Separate(fs, size) && i < |fs| && fs[i] == Field(value, offset, bits)
    ensures ReadBits(Pack(fs, size), size, offset, bits) == value % Pow2(bits)
  {
    ReadField(fs, size, i);
  }

  // ---- big-endian numbers ----

  /** The low n bytes of v, most significant first: what writing an n-byte integer stores. */
  function Be(v: nat, n: nat): (bs: seq<byte>)
    ensures |bs| == n
  {
    if n == 0 then [] else Be(v / 256, n - 1) + [v % 256]
  }

  function FromBe(bs: seq<byte>): nat {
    if bs == [] then 0 else FromBe(bs[..|bs| - 1]) * 256 + bs[|bs| - 1]
  }

  lemma {:induction false} FromBeOfBe(v: nat, n: nat)
    ensures FromBe(Be(v, n)) == v % Pow2(8 * n)
  {
    if n > 0 {
      FromBeOfBe(v / 256, n - 1);
      assert Be(v, n)[..n - 1] == Be(v / 256, n - 1);
      Pow2Values();
      Pow2Add(8, 8 * (n - 1));
      DivDiv(v, 256, Pow2(8 * (n - 1)));
    }
  }

  lemma FromBeOfSmall(v: nat, n: nat)
    requires v < Pow2(8 * n)
    ensures FromBe(Be(v, n)) == v
  {
    FromBeOfBe(v, n);
    DivModUnique(v, Pow2(8 * n), 0, v);
  }

  lemma {:induction false} BeOfFromBe(bs: seq<byte>)
    ensures FromBe(bs) < Pow2(8 * |bs|)
    ensures Be(FromBe(bs), |bs|) == bs
  {
    if bs != [] {
      var init := bs[..|bs| - 1];
      BeOfFromBe(init);
      Pow2Values();
      Pow2Add(8 * |init|, 8);
      DivModUnique(FromBe(bs), 256, FromBe(init), bs[|bs| - 1]);
      assert bs == init + [bs[|bs| - 1]];
    }
  }

  lemma {:induction false} FromBeJoin(a: seq<byte>, b: seq<byte>)
    ensures FromBe(a + b) == FromBe(a) * Pow2(8 * |b|) + FromBe(b)
  {
    if b == [] {
      assert a + b == a;
    } else {
      var init := b[..|b| - 1];
      assert (a + b)[..|a + b| - 1] == a + init;
      FromBeJoin(a, init);
      Pow2Values();
      Pow2Add(8 * |init|, 8);
      MulAssoc(FromBe(a), Pow2(8 * |init|), 256);
    }
  }

  lemma FromBeOne(bs: seq<byte>)
    requires |bs| == 1
    ensures FromBe(bs) == bs[0]
  {
    assert bs[..0] == [];
  }

  /** Reading a field of the first of two words joined into one. */
  lemma ReadBitsOfHigh(hi: nat, lo: nat, m: nat, n: nat, offset: nat, bits: nat)
    requires lo < Pow2(n) && offset + bits <= m
    ensures ReadBits(hi * Pow2(n) + lo, m + n, offset, bits) == ReadBits(hi, m, offset, bits)
  {
    var k := m - offset - bits;
    Pow2Add(n, k);
    DropLow(hi, lo, Pow2(n), Pow2(k));
    assert m + n - offset - bits == n + k;
  }

  lemma DropLow(hi: nat, lo: nat, p: nat, k: nat)
    requires lo < p && k > 0
    ensures p * k > 0 && (hi * p + lo) / (p * k) == hi / k
  {
    DivModUnique(hi * p + lo, p, hi, lo);
    DivDiv(hi * p + lo, p, k);
  }

  /** Reading a field of the second of two words joined into one. */
  lemma ReadBitsOfLow(hi: nat, lo: nat, m: nat, n: nat, offset: nat, bits: nat)
    requires lo < Pow2(n) && m <= offset && offset + bits <= m + n
    ensures ReadBits(hi * Pow2(n) + lo, m + n, offset, bits) == ReadBits(lo, n, offset - m, bits)
  {
    var k, j := m + n - offset - bits, offset - m;
    Pow2Add(k, bits + j);
    Pow2Add(bits, j);
    assert k + (bits + j) == n && n - j - bits == k;
    JoinKeepsLow(hi, lo, Pow2(k), Pow2(bits), Pow2(j));
  }

  lemma JoinKeepsLow(hi: nat, lo: nat, k: nat, b: nat, j: nat)
    requires k > 0 && b > 0
    ensures ((hi * (k * (b * j)) + lo) / k) % b == (lo / k) % b
  {
    var q, r := lo / k, lo % k;
    Rearrange(hi, k, b, j);
    var u := (hi * j) * b + q;
    Distribute2((hi * j) * b, q, k);
    DivModUnique(hi * (k * (b * j)) + lo, k, u, r);
    Distribute2(hi * j, q / b, b);
    DivModUnique(u, b, hi * j + q / b, q % b);
  }

  lemma Distribute2(x: nat, y: nat, k: nat)
    ensures (x + y) * k == x * k + y * k
  {
  }
}
