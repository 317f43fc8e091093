/** Bytes as they enter the checksum register: bit by bit. */
module RegisterBytes {
  import opened Words

  datatype Bits = Bits(h: bool, g: bool, f: bool, e: bool, d: bool, c: bool, b: bool, a: bool)

  function BitsOf(x: byte): Bits {
    var x1 := x / 2;
    var x2 := x1 / 2;
    var x3 := x2 / 2;
    var x4 := x3 / 2;
    var x5 := x4 / 2;
    var x6 := x5 / 2;
    var x7 := x6 / 2;
    Bits(x7 % 2 == 1, x6 % 2 == 1, x5 % 2 == 1, x4 % 2 == 1, x3 % 2 == 1, x2 % 2 == 1, x1 % 2 == 1, x % 2 == 1)
  }

  function Put(on: bool, high: nat): nat {
    (if on then 1 else 0) + 2 * high
  }

  function Value(x: Bits): byte {
    Put(x.a, Put(x.b, Put(x.c, Put(x.d, Put(x.e, Put(x.f, Put(x.g, Put(x.h, 0))))))))
  }

  lemma PutBack(n: nat)
    ensures Put(n % 2 == 1, n / 2) == n
  {
  }

  lemma PutHalves(on: bool, high: nat)
    ensures Put(on, high) / 2 == high && (Put(on, high) % 2 == 1 <==> on)
  {
  }

  lemma ValueOfBits(x: byte)
    ensures Value(BitsOf(x)) == x
  {
    hide Put;
    var x1 := x / 2;
    var x2 := x1 / 2;
    var x3 := x2 / 2;
    var x4 := x3 / 2;
    var x5 := x4 / 2;
    var x6 := x5 / 2;
    var x7 := x6 / 2;
    assert x7 / 2 == 0;
    PutBack(x);
    PutBack(x1);
    PutBack(x2);
    PutBack(x3);
    PutBack(x4);
    PutBack(x5);
    PutBack(x6);
    PutBack(x7);
  }

  lemma BitsOfValue(x: Bits)
    ensures BitsOf(Value(x)) == x
  {
    hide Put;
    var x7 := Put(x.h, 0);
    var x6 := Put(x.g, x7);
    var x5 := Put(x.f, x6);
    var x4 := Put(x.e, x5);
    var x3 := Put(x.d, x4);
    var x2 := Put(x.c, x3);
    var x1 := Put(x.b, x2);
    PutHalves(x.h, 0);
    PutHalves(x.g, x7);
    PutHalves(x.f, x6);
    PutHalves(x.e, x5);
    PutHalves(x.d, x4);
    PutHalves(x.c, x3);
    PutHalves(x.b, x2);
    PutHalves(x.a, x1);
  }

  function Register(x: Bits): bv8 {
    (if x.h then 0x80 else 0) | (if x.g then 0x40 else 0) | (if x.f then 0x20 else 0) | (if x.e then 0x10 else 0) |
    (if x.d then 0x08 else 0) | (if x.c then 0x04 else 0) | (if x.b then 0x02 else 0) | (if x.a then 0x01 else 0)
  }

  function BitsIn(r: bv8): Bits {
    Bits(r & 0x80 == 0x80, r & 0x40 == 0x40, r & 0x20 == 0x20, r & 0x10 == 0x10,
         r & 0x08 == 0x08, r & 0x04 == 0x04, r & 0x02 == 0x02, r & 0x01 == 0x01)
  }

  lemma BitsInRegister(x: Bits)
    ensures BitsIn(Register(x)) == x
  {
  }

  lemma RegisterOfBits(r: bv8)
    ensures Register(BitsIn(r)) == r
  {
  }

  function Reg(x: byte): bv8 {
    Register(BitsOf(x))
  }

  function Int(r: bv8): byte {
    Value(BitsIn(r))
  }

  lemma IntOfReg(x: byte)
    ensures Int(Reg(x)) == x
  {
    hide BitsOf, BitsIn, Value, Register;
    BitsInRegister(BitsOf(x));
    ValueOfBits(x);
  }

  lemma RegOfInt(r: bv8)
    ensures Reg(Int(r)) == r
  {
    hide BitsOf, BitsIn, Value, Register;
    BitsOfValue(BitsIn(r));
    RegisterOfBits(r);
  }
}

/** The CRC-32 of PSI sections (src/ts/ts_psi.c; Annex A of ISO/IEC 13818-1).

    The reference is the division itself: the message enters a 32-bit register one bit at a time, and each step
    multiplies the register by x and reduces it by the generator polynomial. */
module Crc {
  import opened Words
  import opened RegisterBytes

  const GENERATOR: bv32 := 0x04c1_1db7
  const INITIAL: bv32 := 0xffff_ffff

  // ---- words over the field of two elements; the proofs below only use the laws of these operations ----

  function Xor(a: bv32, b: bv32): bv32 {
    a ^ b
  }

  function Double(s: bv32): bv32 {
    s << 1
  }

  function Shl8(s: bv32): bv32 {
    s << 8
  }

  predicate Top(s: bv32) {
    s & 0x8000_0000 == 0x8000_0000
  }

  predicate Odd(s: bv32) {
    s & 1 == 1
  }

  /** The low 24 bits. */
  function Low(s: bv32): bv32 {
    s & 0x00ff_ffff
  }

  function TopByte(b: bv8): bv32 {
    (b as bv32) << 24
  }

  // ---- the division ----

  /** One step of the division when a zero bit comes in. */
  function Shift(s: bv32): bv32 {
    if Top(s) then Xor(Double(s), GENERATOR) else Double(s)
  }

  /** One step of the division. */
  function FeedBit(s: bv32, bit: bool): bv32 {
    if Top(s) != bit then Xor(Double(s), GENERATOR) else Double(s)
  }

  /** Feeds the n topmost bits of y. */
  function FeedBits(s: bv32, y: bv32, n: nat): bv32
    decreases n
  {
    if n == 0 then s else FeedBits(FeedBit(s, Top(y)), Double(y), n - 1)
  }

  function FeedByte(s: bv32, b: bv8): bv32 {
    FeedBits(s, TopByte(b), 8)
  }

  function FeedAll(s: bv32, data: seq<byte>): bv32 {
    if data == [] then s else FeedByte(FeedAll(s, data[..|data| - 1]), Reg(data[|data| - 1]))
  }

  function Crc(data: seq<byte>): bv32 {
    FeedAll(INITIAL, data)
  }

  // ---- the table ----

  const ROW_0: seq<bv32> := [
    0x0000_0000, 0x04c1_1db7, 0x0982_3b6e, 0x0d43_26d9,
    0x1304_76dc, 0x17c5_6b6b, 0x1a86_4db2, 0x1e47_5005,
    0x2608_edb8, 0x22c9_f00f, 0x2f8a_d6d6, 0x2b4b_cb61,
    0x350c_9b64, 0x31cd_86d3, 0x3c8e_a00a, 0x384f_bdbd]
  const ROW_1: seq<bv32> := [
    0x4c11_db70, 0x48d0_c6c7, 0x4593_e01e, 0x4152_fda9,
    0x5f15_adac, 0x5bd4_b01b, 0x5697_96c2, 0x5256_8b75,
    0x6a19_36c8, 0x6ed8_2b7f, 0x639b_0da6, 0x675a_1011,
    0x791d_4014, 0x7ddc_5da3, 0x709f_7b7a, 0x745e_66cd]
  const ROW_2: seq<bv32> := [
    0x9823_b6e0, 0x9ce2_ab57, 0x91a1_8d8e, 0x9560_9039,
    0x8b27_c03c, 0x8fe6_dd8b, 0x82a5_fb52, 0x8664_e6e5,
    0xbe2b_5b58, 0xbaea_46ef, 0xb7a9_6036, 0xb368_7d81,
    0xad2f_2d84, 0xa9ee_3033, 0xa4ad_16ea, 0xa06c_0b5d]
  const ROW_3: seq<bv32> := [
    0xd432_6d90, 0xd0f3_7027, 0xddb0_56fe, 0xd971_4b49,
    0xc736_1b4c, 0xc3f7_06fb, 0xceb4_2022, 0xca75_3d95,
    0xf23a_8028, 0xf6fb_9d9f, 0xfbb8_bb46, 0xff79_a6f1,
    0xe13e_f6f4, 0xe5ff_eb43, 0xe8bc_cd9a, 0xec7d_d02d]
  const ROW_4: seq<bv32> := [
    0x3486_7077, 0x3047_6dc0, 0x3d04_4b19, 0x39c5_56ae,
    0x2782_06ab, 0x2343_1b1c, 0x2e00_3dc5, 0x2ac1_2072,
    0x128e_9dcf, 0x164f_8078, 0x1b0c_a6a1, 0x1fcd_bb16,
    0x018a_eb13, 0x054b_f6a4, 0x0808_d07d, 0x0cc9_cdca]
  const ROW_5: seq<bv32> := [
    0x7897_ab07, 0x7c56_b6b0, 0x7115_9069, 0x75d4_8dde,
    0x6b93_dddb, 0x6f52_c06c, 0x6211_e6b5, 0x66d0_fb02,
    0x5e9f_46bf, 0x5a5e_5b08, 0x571d_7dd1, 0x53dc_6066,
    0x4d9b_3063, 0x495a_2dd4, 0x4419_0b0d, 0x40d8_16ba]
  const ROW_6: seq<bv32> := [
    0xaca5_c697, 0xa864_db20, 0xa527_fdf9, 0xa1e6_e04e,
    0xbfa1_b04b, 0xbb60_adfc, 0xb623_8b25, 0xb2e2_9692,
    0x8aad_2b2f, 0x8e6c_3698, 0x832f_1041, 0x87ee_0df6,
    0x99a9_5df3, 0x9d68_4044, 0x902b_669d, 0x94ea_7b2a]
  const ROW_7: seq<bv32> := [
    0xe0b4_1de7, 0xe475_0050, 0xe936_2689, 0xedf7_3b3e,
    0xf3b0_6b3b, 0xf771_768c, 0xfa32_5055, 0xfef3_4de2,
    0xc6bc_f05f, 0xc27d_ede8, 0xcf3e_cb31, 0xcbff_d686,
    0xd5b8_8683, 0xd179_9b34, 0xdc3a_bded, 0xd8fb_a05a]
  const ROW_8: seq<bv32> := [
    0x690c_e0ee, 0x6dcd_fd59, 0x608e_db80, 0x644f_c637,
    0x7a08_9632, 0x7ec9_8b85, 0x738a_ad5c, 0x774b_b0eb,
    0x4f04_0d56, 0x4bc5_10e1, 0x4686_3638, 0x4247_2b8f,
    0x5c00_7b8a, 0x58c1_663d, 0x5582_40e4, 0x5143_5d53]
  const ROW_9: seq<bv32> := [
    0x251d_3b9e, 0x21dc_2629, 0x2c9f_00f0, 0x285e_1d47,
    0x3619_4d42, 0x32d8_50f5, 0x3f9b_762c, 0x3b5a_6b9b,
    0x0315_d626, 0x07d4_cb91, 0x0a97_ed48, 0x0e56_f0ff,
    0x1011_a0fa, 0x14d0_bd4d, 0x1993_9b94, 0x1d52_8623]
  const ROW_A: seq<bv32> := [
    0xf12f_560e, 0xf5ee_4bb9, 0xf8ad_6d60, 0xfc6c_70d7,
    0xe22b_20d2, 0xe6ea_3d65, 0xeba9_1bbc, 0xef68_060b,
    0xd727_bbb6, 0xd3e6_a601, 0xdea5_80d8, 0xda64_9d6f,
    0xc423_cd6a, 0xc0e2_d0dd, 0xcda1_f604, 0xc960_ebb3]
  const ROW_B: seq<bv32> := [
    0xbd3e_8d7e, 0xb9ff_90c9, 0xb4bc_b610, 0xb07d_aba7,
    0xae3a_fba2, 0xaafb_e615, 0xa7b8_c0cc, 0xa379_dd7b,
    0x9b36_60c6, 0x9ff7_7d71, 0x92b4_5ba8, 0x9675_461f,
    0x8832_161a, 0x8cf3_0bad, 0x81b0_2d74, 0x8571_30c3]
  const ROW_C: seq<bv32> := [
    0x5d8a_9099, 0x594b_8d2e, 0x5408_abf7, 0x50c9_b640,
    0x4e8e_e645, 0x4a4f_fbf2, 0x470c_dd2b, 0x43cd_c09c,
    0x7b82_7d21, 0x7f43_6096, 0x7200_464f, 0x76c1_5bf8,
    0x6886_0bfd, 0x6c47_164a, 0x6104_3093, 0x65c5_2d24]
  const ROW_D: seq<bv32> := [
    0x119b_4be9, 0x155a_565e, 0x1819_7087, 0x1cd8_6d30,
    0x029f_3d35, 0x065e_2082, 0x0b1d_065b, 0x0fdc_1bec,
    0x3793_a651, 0x3352_bbe6, 0x3e11_9d3f, 0x3ad0_8088,
    0x2497_d08d, 0x2056_cd3a, 0x2d15_ebe3, 0x29d4_f654]
  const ROW_E: seq<bv32> := [
    0xc5a9_2679, 0xc168_3bce, 0xcc2b_1d17, 0xc8ea_00a0,
    0xd6ad_50a5, 0xd26c_4d12, 0xdf2f_6bcb, 0xdbee_767c,
    0xe3a1_cbc1, 0xe760_d676, 0xea23_f0af, 0xeee2_ed18,
    0xf0a5_bd1d, 0xf464_a0aa, 0xf927_8673, 0xfde6_9bc4]
  const ROW_F: seq<bv32> := [
    0x89b8_fd09, 0x8d79_e0be, 0x803a_c667, 0x84fb_dbd0,
    0x9abc_8bd5, 0x9e7d_9662, 0x933e_b0bb, 0x97ff_ad0c,
    0xafb0_10b1, 0xab71_0d06, 0xa632_2bdf, 0xa2f3_3668,
    0xbcb4_666d, 0xb875_7bda, 0xb536_5d03, 0xb1f7_40b4]

  /** The low four bits of an index. */
  function Column(i: bv8): (k: nat)
    ensures k < 16
  {
    var b := i & 0x0f;
    if b == 0 then 0
    else if b == 1 then 1
    else if b == 2 then 2
    else if b == 3 then 3
    else if b == 4 then 4
    else if b == 5 then 5
    else if b == 6 then 6
    else if b == 7 then 7
    else if b == 8 then 8
    else if b == 9 then 9
    else if b == 10 then 10
    else if b == 11 then 11
    else if b == 12 then 12
    else if b == 13 then 13
    else if b == 14 then 14
    else 15
  }

  function RowOf(i: bv8): (row: seq<bv32>)
    ensures |row| == 16
  {
    if i >> 4 == 0x0 then ROW_0
    else if i >> 4 == 0x1 then ROW_1
    else if i >> 4 == 0x2 then ROW_2
    else if i >> 4 == 0x3 then ROW_3
    else if i >> 4 == 0x4 then ROW_4
    else if i >> 4 == 0x5 then ROW_5
    else if i >> 4 == 0x6 then ROW_6
    else if i >> 4 == 0x7 then ROW_7
    else if i >> 4 == 0x8 then ROW_8
    else if i >> 4 == 0x9 then ROW_9
    else if i >> 4 == 0xa then ROW_A
    else if i >> 4 == 0xb then ROW_B
    else if i >> 4 == 0xc then ROW_C
    else if i >> 4 == 0xd then ROW_D
    else if i >> 4 == 0xe then ROW_E
    else ROW_F
  }

  /** ts_psi_crc_table, kept in rows of sixteen. */
  function Table(i: bv8): bv32 {
    RowOf(i)[Column(i)]
  }

  function Bit(i: bv8, mask: bv8, v: bv32): bv32 {
    if i & mask == mask then v else 0
  }

  function Xor8(a: bv32, b: bv32, c: bv32, d: bv32, e: bv32, f: bv32, g: bv32, h: bv32): bv32 {
    Xor(Xor(Xor(Xor(Xor(Xor(Xor(a, b), c), d), e), f), g), h)
  }

  /** The table entry as the sum of the entries of its bits. */
  function Sum(i: bv8): bv32 {
    Xor8(Bit(i, 0x01, 0x04c1_1db7), Bit(i, 0x02, 0x0982_3b6e), Bit(i, 0x04, 0x1304_76dc), Bit(i, 0x08, 0x2608_edb8),
         Bit(i, 0x10, 0x4c11_db70), Bit(i, 0x20, 0x9823_b6e0), Bit(i, 0x40, 0x3486_7077), Bit(i, 0x80, 0x690c_e0ee))
  }

  function LowSum(i: bv8): bv32 {
    Xor(Xor(Xor(Bit(i, 0x01, 0x04c1_1db7), Bit(i, 0x02, 0x0982_3b6e)), Bit(i, 0x04, 0x1304_76dc)),
        Bit(i, 0x08, 0x2608_edb8))
  }

  function HighSum(i: bv8): bv32 {
    Xor(Bit(i, 0x10, 0x4c11_db70),
        Xor(Bit(i, 0x20, 0x9823_b6e0), Xor(Bit(i, 0x40, 0x3486_7077), Bit(i, 0x80, 0x690c_e0ee))))
  }

  lemma SumOfHalves(i: bv8)
    ensures Sum(i) == Xor(LowSum(i), HighSum(i))
  {
    hide Xor, Bit;
    var l, e, f := LowSum(i), Bit(i, 0x10, 0x4c11_db70), Bit(i, 0x20, 0x9823_b6e0);
    var g, h := Bit(i, 0x40, 0x3486_7077), Bit(i, 0x80, 0x690c_e0ee);
    XorAssoc(l, e, Xor(f, Xor(g, h)));
    XorAssoc(Xor(l, e), f, Xor(g, h));
    XorAssoc(Xor(Xor(l, e), f), g, h);
  }

  lemma LowSumIs(i: bv8)
    ensures LowSum(i) == ROW_0[Column(i)]
  {
  }

  lemma HighSumIs(i: bv8)
    ensures HighSum(i) == RowOf(i)[0]
  {
  }

  /** A row is the first row plus its own first entry. */
  predicate RowAdds(row: seq<bv32>)
    requires |row| == 16
  {
    forall k :: 0 <= k < 16 ==> row[k] == Xor(ROW_0[k], row[0])
  }

  lemma Row0()
    ensures RowAdds(ROW_0)
  {
  }

  lemma Row1()
    ensures RowAdds(ROW_1)
  {
  }

  lemma Row2()
    ensures RowAdds(ROW_2)
  {
  }

  lemma Row3()
    ensures RowAdds(ROW_3)
  {
  }

  lemma Row4()
    ensures RowAdds(ROW_4)
  {
  }

  lemma Row5()
    ensures RowAdds(ROW_5)
  {
  }

  lemma Row6()
    ensures RowAdds(ROW_6)
  {
  }

  lemma Row7()
    ensures RowAdds(ROW_7)
  {
  }

  lemma Row8()
    ensures RowAdds(ROW_8)
  {
  }

  lemma Row9()
    ensures RowAdds(ROW_9)
  {
  }

  lemma RowA()
    ensures RowAdds(ROW_A)
  {
  }

  lemma RowB()
    ensures RowAdds(ROW_B)
  {
  }

  lemma RowC()
    ensures RowAdds(ROW_C)
  {
  }

  lemma RowD()
    ensures RowAdds(ROW_D)
  {
  }

  lemma RowE()
    ensures RowAdds(ROW_E)
  {
  }

  lemma RowF()
    ensures RowAdds(ROW_F)
  {
  }

  lemma RowOfAdds(i: bv8)
    ensures RowAdds(RowOf(i))
  {
    hide RowAdds;
    Row0();
    Row1();
    Row2();
    Row3();
    Row4();
    Row5();
    Row6();
    Row7();
    Row8();
    Row9();
    RowA();
    RowB();
    RowC();
    RowD();
    RowE();
    RowF();
  }

  lemma TableIsSum(i: bv8)
    ensures Table(i) == Sum(i)
  {
    hide Sum, LowSum, HighSum, Xor, Column, RowOf;
    SumOfHalves(i);
    LowSumIs(i);
    HighSumIs(i);
    RowOfAdds(i);
  }

  // ---- the laws ----

  lemma XorComm(a: bv32, b: bv32)
    ensures Xor(a, b) == Xor(b, a)
  {
  }

  lemma XorAssoc(a: bv32, b: bv32, c: bv32)
    ensures Xor(Xor(a, b), c) == Xor(a, Xor(b, c))
  {
  }

  lemma XorSelf(a: bv32)
    ensures Xor(a, a) == 0 && Xor(a, 0) == a
  {
  }

  lemma DoubleOfXor(a: bv32, b: bv32)
    ensures Double(Xor(a, b)) == Xor(Double(a), Double(b))
  {
  }

  lemma TopOfXor(a: bv32, b: bv32)
    ensures Top(Xor(a, b)) <==> Top(a) != Top(b)
  {
  }

  lemma OddOfDouble(s: bv32)
    ensures !Odd(Double(s)) && Odd(Xor(Double(s), GENERATOR))
  {
  }

  lemma DoubleInjective(a: bv32, b: bv32)
    requires Double(a) == Double(b) && a & 0x8000_0000 == b & 0x8000_0000
    ensures a == b
  {
  }

  lemma TopMask(s: bv32)
    ensures Top(s) <==> s & 0x8000_0000 == 0x8000_0000
    ensures !Top(s) <==> s & 0x8000_0000 == 0
  {
  }

  lemma XorCancel(a: bv32, b: bv32, c: bv32)
    requires Xor(a, b) == Xor(a, c)
    ensures b == c
  {
    hide Xor;
    XorAssoc(a, a, b);
    XorAssoc(a, a, c);
    XorSelf(a);
    XorComm(0, b);
    XorComm(0, c);
    XorSelf(b);
    XorSelf(c);
  }

  lemma XorSwap(x: bv32, y: bv32, g: bv32)
    ensures Xor(Xor(x, g), y) == Xor(Xor(x, y), g) && Xor(x, Xor(y, g)) == Xor(Xor(x, y), g)
    ensures Xor(Xor(x, g), Xor(y, g)) == Xor(x, y)
  {
    hide Xor;
    XorAssoc(x, g, y);
    XorComm(g, y);
    XorAssoc(x, y, g);
    XorAssoc(Xor(x, g), y, g);
    XorAssoc(Xor(x, y), g, g);
    XorSelf(g);
    XorSelf(Xor(x, y));
  }

  // ---- the step is linear, and a bijection ----

  lemma ShiftOfXor(a: bv32, b: bv32)
    ensures Shift(Xor(a, b)) == Xor(Shift(a), Shift(b))
  {
    hide Xor, Double, Top;
    TopOfXor(a, b);
    DoubleOfXor(a, b);
    XorSwap(Double(a), Double(b), GENERATOR);
  }

  lemma ShiftInjective(a: bv32, b: bv32)
    requires Shift(a) == Shift(b)
    ensures a == b
  {
    hide Xor, Double, Top, Odd;
    OddOfDouble(a);
    OddOfDouble(b);
    assert Top(a) == Top(b);
    if Top(a) {
      XorComm(Double(a), GENERATOR);
      XorComm(Double(b), GENERATOR);
      XorCancel(GENERATOR, Double(a), Double(b));
    }
    TopMask(a);
    TopMask(b);
    DoubleInjective(a, b);
  }

  function Shifts(s: bv32, n: nat): bv32
    decreases n
  {
    if n == 0 then s else Shifts(Shift(s), n - 1)
  }

  lemma {:induction false} ShiftsOfXor(a: bv32, b: bv32, n: nat)
    ensures Shifts(Xor(a, b), n) == Xor(Shifts(a, n), Shifts(b, n))
    decreases n
  {
    hide Xor, Shift;
    if n > 0 {
      ShiftOfXor(a, b);
      ShiftsOfXor(Shift(a), Shift(b), n - 1);
    }
  }

  lemma {:induction false} ShiftsInjective(a: bv32, b: bv32, n: nat)
    requires Shifts(a, n) == Shifts(b, n)
    ensures a == b
    decreases n
  {
    hide Shift;
    if n > 0 {
      ShiftsInjective(Shift(a), Shift(b), n - 1);
      ShiftInjective(a, b);
    }
  }

  lemma {:induction false} ShiftsCompose(s: bv32, m: nat, n: nat)
    ensures Shifts(Shifts(s, m), n) == Shifts(s, m + n)
    decreases m
  {
    hide Shift;
    if m > 0 {
      ShiftsCompose(Shift(s), m - 1, n);
    }
  }

  /** Bits below the top pass through eight steps unchanged but for the shift. */
  lemma EightLowShifts(y: bv32)
    requires Low(y) == y
    ensures Shifts(y, 8) == Shl8(y)
  {
    Doubles(y);
    TopsOfLow(y);
    hide Low, Shl8, Double, Top, Xor;
    var y4 := Double(Double(Double(Double(y))));
    assert Shifts(y, 4) == y4;
    assert Shifts(y4, 4) == Double(Double(Double(Double(y4))));
    ShiftsCompose(y, 4, 4);
  }

  lemma Doubles(y: bv32)
    ensures Double(y) == y << 1 && Double(y << 1) == y << 2 && Double(y << 2) == y << 3 && Double(y << 3) == y << 4
    ensures Double(y << 4) == y << 5 && Double(y << 5) == y << 6 && Double(y << 6) == y << 7
    ensures Double(y << 7) == Shl8(y)
  {
  }

  lemma TopsOfLow(y: bv32)
    requires Low(y) == y
    ensures !Top(y) && !Top(y << 1) && !Top(y << 2) && !Top(y << 3)
    ensures !Top(y << 4) && !Top(y << 5) && !Top(y << 6) && !Top(y << 7)
  {
  }

  // ---- eight bits at once ----

  /** The n topmost bits of y are all there is in y. */
  predicate Spent(y: bv32, n: nat)
    decreases n
  {
    if n == 0 then y == 0 else Spent(Double(y), n - 1)
  }

  /** Feeding bits one at a time is the same as adding them to the register first. */
  lemma {:induction false} FeedIsAddAndShift(s: bv32, y: bv32, n: nat)
    requires Spent(y, n)
    ensures FeedBits(s, y, n) == Shifts(Xor(s, y), n)
    decreases n
  {
    hide Xor, Double, Top, FeedBit, Shift;
    if n > 0 {
      FeedIsAddAndShift(FeedBit(s, Top(y)), Double(y), n - 1);
      OneBit(s, y);
    } else {
      XorSelf(s);
    }
  }

  lemma OneBit(s: bv32, y: bv32)
    ensures Xor(FeedBit(s, Top(y)), Double(y)) == Shift(Xor(s, y))
  {
    hide Xor, Double, Top;
    TopOfXor(s, y);
    DoubleOfXor(s, y);
    XorSwap(Double(s), Double(y), GENERATOR);
  }

  lemma ByteSpent(b: bv8)
    ensures Spent(TopByte(b), 8)
  {
    var y := TopByte(b);
    assert y << 1 << 1 << 1 << 1 << 1 << 1 << 1 << 1 == 0;
    assert Spent(y << 1 << 1 << 1 << 1, 4);
  }

  lemma FeedByteIs(s: bv32, b: bv8)
    ensures FeedByte(s, b) == Shifts(Xor(s, TopByte(b)), 8)
  {
    hide Spent, Shifts, FeedBits, Xor, TopByte;
    ByteSpent(b);
    FeedIsAddAndShift(s, TopByte(b), 8);
  }

  // ---- the table step ----

  lemma EightShifts(s: bv32)
    ensures Shifts(s, 8) == Shift(Shift(Shift(Shift(Shift(Shift(Shift(Shift(s))))))))
  {
    hide Shift;
    var t := Shift(Shift(Shift(Shift(s))));
    assert Shifts(s, 4) == t;
    assert Shifts(t, 4) == Shift(Shift(Shift(Shift(t))));
    ShiftsCompose(s, 4, 4);
  }

  lemma Basis()
    ensures Shifts(0x0100_0000, 8) == 0x04c1_1db7 && Shifts(0x0200_0000, 8) == 0x0982_3b6e
    ensures Shifts(0x0400_0000, 8) == 0x1304_76dc && Shifts(0x0800_0000, 8) == 0x2608_edb8
    ensures Shifts(0x1000_0000, 8) == 0x4c11_db70 && Shifts(0x2000_0000, 8) == 0x9823_b6e0
    ensures Shifts(0x4000_0000, 8) == 0x3486_7077 && Shifts(0x8000_0000, 8) == 0x690c_e0ee
    ensures Shifts(0, 8) == 0
  {
    hide Shifts;
    EightShifts(0x0100_0000);
    EightShifts(0x0200_0000);
    EightShifts(0x0400_0000);
    EightShifts(0x0800_0000);
    EightShifts(0x1000_0000);
    EightShifts(0x2000_0000);
    EightShifts(0x4000_0000);
    EightShifts(0x8000_0000);
    EightShifts(0);
  }

  lemma TopByteIsSum(i: bv8)
    ensures TopByte(i) ==
            Xor8(Bit(i, 0x01, 0x0100_0000), Bit(i, 0x02, 0x0200_0000),
                 Bit(i, 0x04, 0x0400_0000), Bit(i, 0x08, 0x0800_0000),
                 Bit(i, 0x10, 0x1000_0000), Bit(i, 0x20, 0x2000_0000),
                 Bit(i, 0x40, 0x4000_0000), Bit(i, 0x80, 0x8000_0000))
  {
  }

  lemma EightShiftsOfXor8(a: bv32, b: bv32, c: bv32, d: bv32, e: bv32, f: bv32, g: bv32, h: bv32)
    ensures Shifts(Xor8(a, b, c, d, e, f, g, h), 8) ==
            Xor8(Shifts(a, 8), Shifts(b, 8), Shifts(c, 8), Shifts(d, 8),
                 Shifts(e, 8), Shifts(f, 8), Shifts(g, 8), Shifts(h, 8))
  {
    hide Shifts, Xor;
    var x2 := Xor(a, b);
    var x3 := Xor(x2, c);
    var x4 := Xor(x3, d);
    var x5 := Xor(x4, e);
    var x6 := Xor(x5, f);
    var x7 := Xor(x6, g);
    ShiftsOfXor(a, b, 8);
    ShiftsOfXor(x2, c, 8);
    ShiftsOfXor(x3, d, 8);
    ShiftsOfXor(x4, e, 8);
    ShiftsOfXor(x5, f, 8);
    ShiftsOfXor(x6, g, 8);
    ShiftsOfXor(x7, h, 8);
  }

  lemma EightShiftsOfBit(i: bv8, mask: bv8, v: bv32, r: bv32)
    requires Shifts(v, 8) == r && Shifts(0, 8) == 0
    ensures Shifts(Bit(i, mask, v), 8) == Bit(i, mask, r)
  {
    hide Shifts;
  }

  /** Every entry of the table is the remainder of its index: 256 constants against the division. */
  lemma TableEntry(i: bv8)
    ensures Table(i) == Shifts(TopByte(i), 8)
  {
    hide Shifts, Table, TopByte, Xor8, Bit;
    TableIsSum(i);
    Basis();
    TopByteIsSum(i);
    EightShiftsOfBit(i, 0x01, 0x0100_0000, 0x04c1_1db7);
    EightShiftsOfBit(i, 0x02, 0x0200_0000, 0x0982_3b6e);
    EightShiftsOfBit(i, 0x04, 0x0400_0000, 0x1304_76dc);
    EightShiftsOfBit(i, 0x08, 0x0800_0000, 0x2608_edb8);
    EightShiftsOfBit(i, 0x10, 0x1000_0000, 0x4c11_db70);
    EightShiftsOfBit(i, 0x20, 0x2000_0000, 0x9823_b6e0);
    EightShiftsOfBit(i, 0x40, 0x4000_0000, 0x3486_7077);
    EightShiftsOfBit(i, 0x80, 0x8000_0000, 0x690c_e0ee);
    EightShiftsOfXor8(Bit(i, 0x01, 0x0100_0000), Bit(i, 0x02, 0x0200_0000),
                      Bit(i, 0x04, 0x0400_0000), Bit(i, 0x08, 0x0800_0000),
                      Bit(i, 0x10, 0x1000_0000), Bit(i, 0x20, 0x2000_0000),
                      Bit(i, 0x40, 0x4000_0000), Bit(i, 0x80, 0x8000_0000));
  }

  function Index(s: bv32, b: bv8): bv8 {
    ((s >> 24) as bv8) ^ b
  }

  /** One turn of the loop in ts_psi_crc. */
  function TableStep(s: bv32, b: bv8): bv32 {
    Xor(s << 8, Table(Index(s, b)))
  }

  lemma SplitRegister(s: bv32, b: bv8)
    ensures Xor(s, TopByte(b)) == Xor(TopByte(Index(s, b)), Low(s))
  {
    var t := (s >> 24) as bv8;
    assert Index(s, b) == t ^ b;
    TopAndLow(s);
    TopByteOfXor(t, b);
    hide Xor, TopByte, Index, Low;
    XorSwap(TopByte(t), TopByte(b), Low(s));
  }

  lemma TopAndLow(s: bv32)
    ensures s == Xor(TopByte((s >> 24) as bv8), Low(s))
  {
  }

  lemma TopByteOfXor(a: bv8, b: bv8)
    ensures TopByte(a ^ b) == Xor(TopByte(a), TopByte(b))
  {
  }

  lemma LowRegister(s: bv32)
    ensures Shl8(Low(s)) == s << 8 && Low(Low(s)) == Low(s)
  {
  }

  lemma TableStepIsDivision(s: bv32, b: bv8)
    ensures TableStep(s, b) == FeedByte(s, b)
  {
    var shifted := s << 8;
    SplitRegister(s, b);
    LowRegister(s);
    hide Shifts, Table, TopByte, Xor, Index, Low, Shl8, FeedByte;
    var i := Index(s, b);
    assert TableStep(s, b) == Xor(shifted, Table(i));
    FeedByteIs(s, b);
    ShiftsOfXor(TopByte(i), Low(s), 8);
    TableEntry(i);
    EightLowShifts(Low(s));
    XorComm(Table(i), shifted);
  }

  /** ts_psi_crc: the table-driven loop divides, for every byte string. */
  method ComputeCrc(data: seq<byte>) returns (crc: bv32)
    ensures crc == Crc(data)
  {
    hide Reg, TableStep, FeedByte;
    crc := INITIAL;
    for i := 0 to |data|
      invariant crc == Crc(data[..i])
    {
      TableStepIsDivision(crc, Reg(data[i]));
      assert data[..i + 1][..i] == data[..i];
      crc := TableStep(crc, Reg(data[i]));
    }
    assert data[..|data|] == data;
  }

  // ---- known answers ----

  /** The register starts with all bits set. */
  lemma EmptyValue()
    ensures Crc([]) == 0xffff_ffff
  {
  }

  lemma FeedOneMore(s: bv32, data: seq<byte>, k: nat)
    requires k < |data|
    ensures FeedAll(s, data[..k + 1]) == FeedByte(FeedAll(s, data[..k]), Reg(data[k]))
  {
    hide FeedByte, Reg;
    assert data[..k + 1][..k] == data[..k];
  }

  /** One turn, with the numbers filled in. */
  lemma Turn(data: seq<byte>, k: nat, s: bv32, i: bv8, t: bv32, r: bv32)
    requires k < |data| && Crc(data[..k]) == s
    requires Index(s, Reg(data[k])) == i && Table(i) == t && Xor(s << 8, t) == r
    ensures Crc(data[..k + 1]) == r
  {
    hide FeedByte, Reg, Table, Index, Xor;
    FeedOneMore(INITIAL, data, k);
    TableStepIsDivision(s, Reg(data[k]));
  }

  lemma CheckValue0(data: seq<byte>)
    requires |data| == 9 && data[0] == 0x31 && Crc(data[..0]) == 0xffff_ffff
    ensures Crc(data[..1]) == 0x9efb_cf93
  {
    hide FeedByte, FeedAll, Crc;
    Turn(data, 0, 0xffff_ffff, 0xce, 0x6104_3093, 0x9efb_cf93);
  }

  lemma CheckValue1(data: seq<byte>)
    requires |data| == 9 && data[1] == 0x32 && Crc(data[..1]) == 0x9efb_cf93
    ensures Crc(data[..2]) == 0x3fec_5e6a
  {
    hide FeedByte, FeedAll, Crc;
    Turn(data, 1, 0x9efb_cf93, 0xac, 0xc423_cd6a, 0x3fec_5e6a);
  }

  lemma CheckValue2(data: seq<byte>)
    requires |data| == 9 && data[2] == 0x33 && Crc(data[..2]) == 0x3fec_5e6a
    ensures Crc(data[..3]) == 0xd952_f164
  {
    hide FeedByte, FeedAll, Crc;
    Turn(data, 2, 0x3fec_5e6a, 0x0c, 0x350c_9b64, 0xd952_f164);
  }

  lemma CheckValue3(data: seq<byte>)
    requires |data| == 9 && data[3] == 0x34 && Crc(data[..3]) == 0xd952_f164
    ensures Crc(data[..4]) == 0xa695_c4aa
  {
    hide FeedByte, FeedAll, Crc;
    Turn(data, 3, 0xd952_f164, 0xed, 0xf464_a0aa, 0xa695_c4aa);
  }

  lemma CheckValue4(data: seq<byte>)
    requires |data| == 9 && data[4] == 0x35 && Crc(data[..4]) == 0xa695_c4aa
    ensures Crc(data[..5]) == 0xbd9a_b747
  {
    hide FeedByte, FeedAll, Crc;
    Turn(data, 4, 0xa695_c4aa, 0x93, 0x285e_1d47, 0xbd9a_b747);
  }

  lemma CheckValue5(data: seq<byte>)
    requires |data| == 9 && data[5] == 0x36 && Crc(data[..5]) == 0xbd9a_b747
    ensures Crc(data[..6]) == 0xd8f0_6c8f
  {
    hide FeedByte, FeedAll, Crc;
    Turn(data, 5, 0xbd9a_b747, 0x8b, 0x4247_2b8f, 0xd8f0_6c8f);
  }

  lemma CheckValue6(data: seq<byte>)
    requires |data| == 9 && data[6] == 0x37 && Crc(data[..6]) == 0xd8f0_6c8f
    ensures Crc(data[..7]) == 0x0d8a_14c4
  {
    hide FeedByte, FeedAll, Crc;
    Turn(data, 6, 0xd8f0_6c8f, 0xef, 0xfde6_9bc4, 0x0d8a_14c4);
  }

  lemma CheckValue7(data: seq<byte>)
    requires |data| == 9 && data[7] == 0x38 && Crc(data[..7]) == 0x0d8a_14c4
    ensures Crc(data[..8]) == 0x49e3_c2fb
  {
    hide FeedByte, FeedAll, Crc;
    Turn(data, 7, 0x0d8a_14c4, 0x35, 0xc3f7_06fb, 0x49e3_c2fb);
  }

  lemma CheckValue8(data: seq<byte>)
    requires |data| == 9 && data[8] == 0x39 && Crc(data[..8]) == 0x49e3_c2fb
    ensures Crc(data[..9]) == 0x0376_e6e7
  {
    hide FeedByte, FeedAll, Crc;
    Turn(data, 8, 0x49e3_c2fb, 0x70, 0xe0b4_1de7, 0x0376_e6e7);
  }

  /** The check value of this CRC, that of the nine digits "123456789". */
  lemma CheckValue()
    ensures Crc([0x31, 0x32, 0x33, 0x34, 0x35, 0x36, 0x37, 0x38, 0x39]) == 0x0376_e6e7
  {
    hide FeedByte, FeedAll, Table, Crc;
    EmptyValue();
    var data: seq<byte> := [0x31, 0x32, 0x33, 0x34, 0x35, 0x36, 0x37, 0x38, 0x39];
    assert data[..0] == [] && data[..9] == data;
    CheckValue0(data);
    CheckValue1(data);
    CheckValue2(data);
    CheckValue3(data);
    CheckValue4(data);
    CheckValue5(data);
    CheckValue6(data);
    CheckValue7(data);
    CheckValue8(data);
  }

  lemma PatValue0(data: seq<byte>)
    requires |data| == 12 && data[0] == 0x00 && Crc(data[..0]) == 0xffff_ffff
    ensures Crc(data[..1]) == 0x4e08_bfb4
  {
    hide FeedByte, FeedAll, Crc;
    Turn(data, 0, 0xffff_ffff, 0xff, 0xb1f7_40b4, 0x4e08_bfb4);
  }

  lemma PatValue1(data: seq<byte>)
    requires |data| == 12 && data[1] == 0xb0 && Crc(data[..1]) == 0x4e08_bfb4
    ensures Crc(data[..2]) == 0xbd89_e903
  {
    hide FeedByte, FeedAll, Crc;
    Turn(data, 1, 0x4e08_bfb4, 0xfe, 0xb536_5d03, 0xbd89_e903);
  }

  lemma PatValue2(data: seq<byte>)
    requires |data| == 12 && data[2] == 0x0d && Crc(data[..2]) == 0xbd89_e903
    ensures Crc(data[..3]) == 0x34d7_8e7e
  {
    hide FeedByte, FeedAll, Crc;
    Turn(data, 2, 0xbd89_e903, 0xb0, 0xbd3e_8d7e, 0x34d7_8e7e);
  }

  lemma PatValue3(data: seq<byte>)
    requires |data| == 12 && data[3] == 0x00 && Crc(data[..3]) == 0x34d7_8e7e
    ensures Crc(data[..4]) == 0x10b8_654c
  {
    hide FeedByte, FeedAll, Crc;
    Turn(data, 3, 0x34d7_8e7e, 0x34, 0xc736_1b4c, 0x10b8_654c);
  }

  lemma PatValue4(data: seq<byte>)
    requires |data| == 12 && data[4] == 0x01 && Crc(data[..4]) == 0x10b8_654c
    ensures Crc(data[..5]) == 0xf0b5_8ac7
  {
    hide FeedByte, FeedAll, Crc;
    Turn(data, 4, 0x10b8_654c, 0x11, 0x48d0_c6c7, 0xf0b5_8ac7);
  }

  lemma PatValue5(data: seq<byte>)
    requires |data| == 12 && data[5] == 0xc1 && Crc(data[..5]) == 0xf0b5_8ac7
    ensures Crc(data[..6]) == 0x6579_b727
  {
    hide FeedByte, FeedAll, Crc;
    Turn(data, 5, 0xf0b5_8ac7, 0x31, 0xd0f3_7027, 0x6579_b727);
  }

  lemma PatValue6(data: seq<byte>)
    requires |data| == 12 && data[6] == 0x00 && Crc(data[..6]) == 0x6579_b727
    ensures Crc(data[..7]) == 0xc2d7_8afc
  {
    hide FeedByte, FeedAll, Crc;
    Turn(data, 6, 0x6579_b727, 0x65, 0xbb60_adfc, 0xc2d7_8afc);
  }

  lemma PatValue7(data: seq<byte>)
    requires |data| == 12 && data[7] == 0x00 && Crc(data[..7]) == 0xc2d7_8afc
    ensures Crc(data[..8]) == 0x8382_57f7
  {
    hide FeedByte, FeedAll, Crc;
    Turn(data, 7, 0xc2d7_8afc, 0xc2, 0x5408_abf7, 0x8382_57f7);
  }

  lemma PatValue8(data: seq<byte>)
    requires |data| == 12 && data[8] == 0x00 && Crc(data[..8]) == 0x8382_57f7
    ensures Crc(data[..9]) == 0xe618_3137
  {
    hide FeedByte, FeedAll, Crc;
    Turn(data, 8, 0x8382_57f7, 0x83, 0x644f_c637, 0xe618_3137);
  }

  lemma PatValue9(data: seq<byte>)
    requires |data| == 12 && data[9] == 0x01 && Crc(data[..9]) == 0xe618_3137
    ensures Crc(data[..10]) == 0xc3df_417c
  {
    hide FeedByte, FeedAll, Crc;
    Turn(data, 9, 0xe618_3137, 0xe7, 0xdbee_767c, 0xc3df_417c);
  }

  lemma PatValue10(data: seq<byte>)
    requires |data| == 12 && data[10] == 0xe1 && Crc(data[..10]) == 0xc3df_417c
    ensures Crc(data[..11]) == 0x4ee0_f18e
  {
    hide FeedByte, FeedAll, Crc;
    Turn(data, 10, 0xc3df_417c, 0x22, 0x91a1_8d8e, 0x4ee0_f18e);
  }

  lemma PatValue11(data: seq<byte>)
    requires |data| == 12 && data[11] == 0x00 && Crc(data[..11]) == 0x4ee0_f18e
    ensures Crc(data[..12]) == 0xe8f9_5e7d
  {
    hide FeedByte, FeedAll, Crc;
    Turn(data, 11, 0x4ee0_f18e, 0x4e, 0x0808_d07d, 0xe8f9_5e7d);
  }

  /** The checksum of the section that names PID 256 for program 1. */
  lemma PatValue()
    ensures Crc([0x00, 0xb0, 0x0d, 0x00, 0x01, 0xc1, 0x00, 0x00, 0x00, 0x01, 0xe1, 0x00]) == 0xe8f9_5e7d
  {
    hide FeedByte, FeedAll, Table, Crc;
    EmptyValue();
    var data: seq<byte> := [0x00, 0xb0, 0x0d, 0x00, 0x01, 0xc1, 0x00, 0x00, 0x00, 0x01, 0xe1, 0x00];
    assert data[..0] == [] && data[..12] == data;
    PatValue0(data);
    PatValue1(data);
    PatValue2(data);
    PatValue3(data);
    PatValue4(data);
    PatValue5(data);
    PatValue6(data);
    PatValue7(data);
    PatValue8(data);
    PatValue9(data);
    PatValue10(data);
    PatValue11(data);
  }

  // ---- the residue ----

  /** The bytes a checksum is written as, as register bytes and as integers. */
  function ByteAt(crc: bv32, k: nat): bv8
    requires k < 4
  {
    if k == 0 then (crc >> 24) as bv8
    else if k == 1 then ((crc >> 16) & 0xff) as bv8
    else if k == 2 then ((crc >> 8) & 0xff) as bv8
    else (crc & 0xff) as bv8
  }

  function CrcBytes(crc: bv32): (bs: seq<byte>)
    ensures |bs| == 4
  {
    [Int(ByteAt(crc, 0)), Int(ByteAt(crc, 1)), Int(ByteAt(crc, 2)), Int(ByteAt(crc, 3))]
  }

  lemma {:induction false} FeedAllJoin(s: bv32, a: seq<byte>, b: seq<byte>)
    ensures FeedAll(s, a + b) == FeedAll(FeedAll(s, a), b)
    decreases |b|
  {
    hide Reg, FeedByte;
    if b == [] {
      assert a + b == a;
    } else {
      assert (a + b)[..|a + b| - 1] == a + b[..|b| - 1];
      FeedAllJoin(s, a, b[..|b| - 1]);
    }
  }

  lemma OwnTop(s: bv32)
    ensures Xor(s, TopByte((s >> 24) as bv8)) == Low(s) && Shl8(Low(s)) == Shl8(s) && Low(Low(s)) == Low(s)
    ensures ByteAt(s, 0) == (s >> 24) as bv8
  {
  }

  lemma FeedOwnTop(s: bv32)
    ensures FeedByte(s, ByteAt(s, 0)) == Shl8(s)
  {
    OwnTop(s);
    hide Shifts, FeedByte, Xor, TopByte, Low, Shl8, ByteAt;
    FeedByteIs(s, ByteAt(s, 0));
    EightLowShifts(Low(s));
  }

  lemma FeedFour(s: bv32, a: byte, b: byte, c: byte, d: byte)
    ensures FeedAll(s, [a, b, c, d]) ==
            FeedByte(FeedByte(FeedByte(FeedByte(s, Reg(a)), Reg(b)), Reg(c)), Reg(d))
  {
    hide Reg, FeedByte;
    assert [a, b, c, d][..3] == [a, b, c] && [a, b, c][..2] == [a, b] && [a, b][..1] == [a] && [a][..0] == [];
    assert FeedAll(s, [a]) == FeedByte(FeedAll(s, []), Reg(a));
    assert FeedAll(s, [a, b]) == FeedByte(FeedAll(s, [a]), Reg(b));
    assert FeedAll(s, [a, b, c]) == FeedByte(FeedAll(s, [a, b]), Reg(c));
  }

  lemma ShiftedBytes(s: bv32)
    ensures ByteAt(Shl8(s), 0) == ByteAt(s, 1) && ByteAt(Shl8(Shl8(s)), 0) == ByteAt(s, 2)
    ensures ByteAt(Shl8(Shl8(Shl8(s))), 0) == ByteAt(s, 3) && Shl8(Shl8(Shl8(Shl8(s)))) == 0
  {
  }

  /** A section followed by its own checksum has checksum zero. */
  lemma Residue(data: seq<byte>)
    ensures Crc(data + CrcBytes(Crc(data))) == 0
  {
    hide Reg, Int, FeedByte, FeedAll, ByteAt, Shl8;
    var s := Crc(data);
    var bs := CrcBytes(s);
    FeedAllJoin(INITIAL, data, bs);
    FeedFour(s, bs[0], bs[1], bs[2], bs[3]);
    RegOfInt(ByteAt(s, 0));
    RegOfInt(ByteAt(s, 1));
    RegOfInt(ByteAt(s, 2));
    RegOfInt(ByteAt(s, 3));
    ShiftedBytes(s);
    FeedOwnTop(s);
    FeedOwnTop(Shl8(s));
    FeedOwnTop(Shl8(Shl8(s)));
    FeedOwnTop(Shl8(Shl8(Shl8(s))));
  }

  // ---- burst errors ----

  function Down8(s: bv32): bv32 {
    s >> 8
  }

  /** Four bytes as one word. */
  function WordOf(a: bv8, b: bv8, c: bv8, d: bv8): bv32 {
    Xor(TopByte(a), Down8(Xor(TopByte(b), Down8(Xor(TopByte(c), Down8(TopByte(d)))))))
  }

  lemma DownIsLow(rest: bv32)
    ensures Low(Down8(rest)) == Down8(rest)
  {
  }

  lemma DownThenUp(rest: bv32)
    requires rest & 0xff == 0
    ensures Shl8(Down8(rest)) == rest
  {
  }

  lemma FeedThen(s: bv32, a: bv8, rest: bv32)
    requires rest & 0xff == 0
    ensures Xor(FeedByte(s, a), rest) == Shifts(Xor(s, Xor(TopByte(a), Down8(rest))), 8)
  {
    DownIsLow(rest);
    DownThenUp(rest);
    hide Shifts, FeedByte, TopByte, Xor, Down8, Low, Shl8;
    FeedByteIs(s, a);
    EightLowShifts(Down8(rest));
    ShiftsOfXor(Xor(s, TopByte(a)), Down8(rest), 8);
    XorAssoc(s, TopByte(a), Down8(rest));
  }

  lemma LowBytesClear(b: bv8, c: bv8, d: bv8)
    ensures TopByte(d) & 0xff == 0 && Xor(TopByte(c), Down8(TopByte(d))) & 0xff == 0
    ensures Xor(TopByte(b), Down8(Xor(TopByte(c), Down8(TopByte(d))))) & 0xff == 0
  {
  }

  /** Four bytes act on the register like one 32-bit word added to it. */
  lemma FourBytes(s: bv32, a: bv8, b: bv8, c: bv8, d: bv8)
    ensures FeedByte(FeedByte(FeedByte(FeedByte(s, a), b), c), d) == Shifts(Xor(s, WordOf(a, b, c, d)), 32)
  {
    LowBytesClear(b, c, d);
    hide Shifts, FeedByte, TopByte, Xor, Down8;
    var wd := TopByte(d);
    var wc := Xor(TopByte(c), Down8(wd));
    var wb := Xor(TopByte(b), Down8(wc));
    var x := Xor(s, WordOf(a, b, c, d));
    var s1 := FeedByte(s, a);
    var s2 := FeedByte(s1, b);
    var s3 := FeedByte(s2, c);
    FeedThen(s, a, wb);
    FeedThen(s1, b, wc);
    FeedThen(s2, c, wd);
    FeedByteIs(s3, d);
    ShiftsCompose(x, 8, 8);
    ShiftsCompose(x, 16, 8);
    ShiftsCompose(x, 24, 8);
  }

  lemma WordParts(a: bv8, b: bv8, c: bv8, d: bv8)
    ensures var w := WordOf(a, b, c, d);
            ByteAt(w, 0) == a && ByteAt(w, 1) == b && ByteAt(w, 2) == c && ByteAt(w, 3) == d
  {
  }

  lemma FeedByteInjective(s: bv32, t: bv32, b: bv8)
    requires FeedByte(s, b) == FeedByte(t, b)
    ensures s == t
  {
    hide Shifts, FeedByte, TopByte, Xor;
    FeedByteIs(s, b);
    FeedByteIs(t, b);
    ShiftsInjective(Xor(s, TopByte(b)), Xor(t, TopByte(b)), 8);
    XorComm(s, TopByte(b));
    XorComm(t, TopByte(b));
    XorCancel(TopByte(b), s, t);
  }

  lemma {:induction false} FeedAllInjective(s: bv32, t: bv32, data: seq<byte>)
    requires FeedAll(s, data) == FeedAll(t, data)
    ensures s == t
  {
    hide Reg, FeedByte;
    if data != [] {
      var init := data[..|data| - 1];
      FeedByteInjective(FeedAll(s, init), FeedAll(t, init), Reg(data[|data| - 1]));
      FeedAllInjective(s, t, init);
    }
  }

  lemma FourRegisterBytesInjective(s: bv32, a: bv8, b: bv8, c: bv8, d: bv8, a': bv8, b': bv8, c': bv8, d': bv8)
    requires FeedByte(FeedByte(FeedByte(FeedByte(s, a), b), c), d) ==
             FeedByte(FeedByte(FeedByte(FeedByte(s, a'), b'), c'), d')
    ensures a == a' && b == b' && c == c' && d == d'
  {
    hide FeedByte, Shifts, WordOf, Xor, ByteAt;
    FourBytes(s, a, b, c, d);
    FourBytes(s, a', b', c', d');
    ShiftsInjective(Xor(s, WordOf(a, b, c, d)), Xor(s, WordOf(a', b', c', d')), 32);
    XorCancel(s, WordOf(a, b, c, d), WordOf(a', b', c', d'));
    WordParts(a, b, c, d);
    WordParts(a', b', c', d');
  }

  lemma FourBytesInjective(s: bv32, a: seq<byte>, b: seq<byte>)
    requires |a| == |b| == 4 && FeedAll(s, a) == FeedAll(s, b)
    ensures a == b
  {
    hide FeedByte, FeedAll, Reg, Int;
    assert a == [a[0], a[1], a[2], a[3]] && b == [b[0], b[1], b[2], b[3]];
    FeedFour(s, a[0], a[1], a[2], a[3]);
    FeedFour(s, b[0], b[1], b[2], b[3]);
    FourRegisterBytesInjective(s, Reg(a[0]), Reg(a[1]), Reg(a[2]), Reg(a[3]),
                               Reg(b[0]), Reg(b[1]), Reg(b[2]), Reg(b[3]));
    forall i | 0 <= i < 4
      ensures a[i] == b[i]
    {
      IntOfReg(a[i]);
      IntOfReg(b[i]);
    }
  }

  /** Two byte strings that differ only inside a burst of at most four consecutive bytes have different checksums. */
  lemma BurstDetected(before: seq<byte>, a: seq<byte>, b: seq<byte>, after: seq<byte>)
    requires |a| == |b| <= 4 && a != b
    ensures Crc(before + a + after) != Crc(before + b + after)
  {
    hide FeedAll;
    var s := Crc(before);
    FeedAllJoin(INITIAL, before + a, after);
    FeedAllJoin(INITIAL, before + b, after);
    FeedAllJoin(INITIAL, before, a);
    FeedAllJoin(INITIAL, before, b);
    if Crc(before + a + after) == Crc(before + b + after) {
      FeedAllInjective(FeedAll(s, a), FeedAll(s, b), after);
      var pad := seq(4 - |a|, i => 0);
      FeedAllJoin(s, a, pad);
      FeedAllJoin(s, b, pad);
      FourBytesInjective(s, a + pad, b + pad);
      SamePrefix(a, b, pad);
    }
  }

  lemma SamePrefix(a: seq<byte>, b: seq<byte>, c: seq<byte>)
    requires |a| == |b| && a + c == b + c
    ensures a == b
  {
    assert a == (a + c)[..|a|];
  }
}
