/** The 48-bit program clock reference (src/ts/ts_pcr.c). */
module Pcr {
  import opened Words
  import opened Bytestreams

  const PCR_MODULUS := 300 * 0x2_0000_0000

  /** The 48 bits written for a value: a 33-bit base, six zero bits and a 9-bit extension. The left shift drops the
      bits above 64. */
  function Word(value: u64): (v: nat) {
    var base := value / 300;
    var ext := value - base * 300;
    (base * 0x8000) % 0x1_0000_0000_0000_0000 + ext % 0x200
  }

  function Encode(value: u64): seq<byte> {
    Be(Word(value) / 0x1_0000, 4) + Be(Word(value), 2)
  }

  function Decode(r: Input): u64 {
    Pow2Values();
    var v := r.Number(4) * 0x1_0000 + r.Drop(4).Number(2);
    ReadBits(v, 48, 0, 33) * 300 + ReadBits(v, 48, 39, 9)
  }

  method Pack(value: u64, s: Bytestream) returns (n: Status)
    requires s.Ok()
    modifies s
    ensures s.Ok() && s.Out() == old(s.Out()).Add(Encode(value)) && s.valid == s.buffered == old(s.buffered)
    ensures n == s.Status()
  {
    var base := value / 300;
    var ext := value - base * 300;
    var v := (base * 0x8000) % 0x1_0000_0000_0000_0000 + ext % 0x200;
    ghost var o := s.Out();
    s.WriteNumber(v / 0x1_0000, 4);
    s.WriteNumber(v, 2);
    AddAdd(o, Be(v / 0x1_0000, 4), Be(v, 2));
    n := s.Status();
  }

  method Unpack(s: Bytestream) returns (n: Status, value: u64)
    requires s.Ok()
    modifies s
    ensures s.Ok() && s.In() == old(s.In()).Drop(4).Drop(2)
    ensures value == Decode(old(s.In())) && n == Done(s.In())
  {
    var hi := s.ReadNumber(4);
    var lo := s.ReadNumber(2);
    var v := hi * 0x1_0000 + lo;
    Pow2Values();
    value := ReadBits(v, 48, 0, 33) * 300 + ReadBits(v, 48, 39, 9);
    n := s.Status();
  }

  /** The 48 bits that survive: base and extension, whatever the shift dropped. */
  lemma WordBits(value: u64)
    ensures Word(value) % 0x1_0000_0000_0000 == value / 300 % 0x2_0000_0000 * 0x8000 + value % 300
  {
    var base := value / 300;
    ModOfProduct(base, 0x8000, 0x2_0000_0000_0000);
    var x := base % 0x2_0000_0000_0000;
    assert Word(value) == x * 0x8000 + value % 300;
    hide Word;
    DivModUnique(Word(value), 0x8000, x, value % 300);
    DivDiv(Word(value), 0x8000, 0x2_0000_0000);
    LowBits(base);
  }

  lemma LowBits(n: nat)
    ensures n % 0x2_0000_0000_0000 % 0x2_0000_0000 == n % 0x2_0000_0000
  {
    var x := n % 0x2_0000_0000_0000;
    DivModUnique(n, 0x2_0000_0000, n / 0x2_0000_0000_0000 * 0x1_0000 + x / 0x2_0000_0000, x % 0x2_0000_0000);
  }

  /** What is written is that 48-bit number. */
  lemma EncodeIsNumber(value: u64)
    ensures Encode(value) == Be(Word(value) % 0x1_0000_0000_0000, 6)
  {
    var w := Word(value);
    Pow2Values();
    FromBeJoin(Be(w / 0x1_0000, 4), Be(w, 2));
    FromBeOfBe(w / 0x1_0000, 4);
    FromBeOfBe(w, 2);
    DivDiv(w, 0x1_0000, 0x1_0000_0000);
    BeOfFromBe(Encode(value));
  }

  lemma BaseAndExtension(value: nat)
    ensures (value / 300 % 0x2_0000_0000) * 300 + value % 300 == value % PCR_MODULUS
  {
    DivDiv(value, 300, 0x2_0000_0000);
  }

  /** What six bytes hold of a word. */
  lemma SixBytes(w: nat, tail: seq<byte>)
    ensures
      var r := Open(Be(w / 0x1_0000, 4) + Be(w, 2) + tail);
      r.Number(4) * 0x1_0000 + r.Drop(4).Number(2) == w % 0x1_0000_0000_0000 && r.Drop(4).Drop(2) == Open(tail)
  {
    Pow2Values();
    hide Be, Pow2;
    var a, b := Be(w / 0x1_0000, 4), Be(w, 2);
    assert a + b + tail == a + (b + tail);
    ReadBackNumber(w / 0x1_0000, 4, b + tail);
    ReadBackNumber(w, 2, tail);
    DivDiv(w, 0x1_0000, 0x1_0000_0000);
  }

  /** For every 64-bit value, including those whose shifted base overflows, a clock comes back modulo 300 * 2^33. */
  lemma RoundTrip(value: u64, tail: seq<byte>)
    ensures |Encode(value)| == 6
    ensures Decode(Open(Encode(value) + tail)) == value % PCR_MODULUS
    ensures Open(Encode(value) + tail).Drop(4).Drop(2) == Open(tail)
  {
    hide Be, Word, ReadBits;
    SixBytes(Word(value), tail);
    WordBits(value);
    Slices48(value / 300 % 0x2_0000_0000, value % 300);
    BaseAndExtension(value);
  }

  lemma Slices48(base: nat, ext: nat)
    requires base < 0x2_0000_0000 && ext < 0x200
    ensures ReadBits(base * 0x8000 + ext, 48, 0, 33) == base
    ensures ReadBits(base * 0x8000 + ext, 48, 39, 9) == ext
  {
    var v := base * 0x8000 + ext;
    Pow2Values();
    DivModUnique(v, Pow2(15), base, ext);
    DivModUnique(base, Pow2(33), 0, base);
    DivModUnique(v, Pow2(0), v, 0);
    DivModUnique(v, Pow2(9), base * 0x40, ext);
  }

  /** A decoded clock is in normal form: encoding it again gives the same bytes. */
  lemma EncodeOfReduced(value: u64)
    ensures Encode(value % PCR_MODULUS) == Encode(value)
  {
    DivDiv(value, 300, 0x2_0000_0000);
    var q, r := value / 300 % 0x2_0000_0000, value % 300;
    DivModUnique(value % PCR_MODULUS, 300, q, r);
    DivModUnique(q, 0x2_0000_0000, 0, q);
    EncodeIsNumber(value);
    EncodeIsNumber(value % PCR_MODULUS);
    WordBits(value);
    WordBits(value % PCR_MODULUS);
  }
}
