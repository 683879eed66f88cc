/**
 The check value that `crc64Test` in src/crc64.c prints: the CRC of "123456789". A
 machine word is a 64-bit vector here, tied to the bits of `Word64`, so that the
 register's values are constants.
 */
module CrcCheck {
  import opened Basics
  import opened Crc64
  import opened Word64

  // ------------------------------------------------- a vector and its bits

  predicate Odd(x: bv64) { x & 1 == 1 }

  function Half(x: bv64): bv64 { x >> 1 }

  function Sum(x: bv64, y: bv64): bv64 { x ^ y }

  function Bits(x: bv64, k: nat): (s: seq<bool>)
    ensures |s| == k
    decreases k
  {
    if k == 0 then [] else [Odd(x)] + Bits(Half(x), k - 1)
  }

  function Word(x: bv64): Word64.Word { Bits(x, 64) }

  lemma {:induction false} XorBits(x: bv64, y: bv64, k: nat, i: nat)
    requires i < k
    ensures Bits(Sum(x, y), k)[i] == (Bits(x, k)[i] != Bits(y, k)[i])
    decreases k
  {
    hide Odd, Half, Sum;
    HalfSum(x, y);
    if i > 0 {
      XorBits(Half(x), Half(y), k - 1, i - 1);
    }
  }

  lemma HalfSum(x: bv64, y: bv64)
    ensures Odd(Sum(x, y)) == (Odd(x) != Odd(y))
    ensures Half(Sum(x, y)) == Sum(Half(x), Half(y))
  {
  }

  /** The `k` low bits set. */
  function Low(k: nat): bv64 {
    if k == 0 then 0 else Longer(Low(k - 1))
  }

  lemma {:induction false} SameLowBits(x: bv64, y: bv64, k: nat)
    requires Agree(x, y, Low(k))
    ensures Bits(x, k) == Bits(y, k)
    decreases k
  {
    hide Odd, Half, Agree, Low;
    if k > 0 {
      LowIs(k);
      LowHalf(x, y, Low(k - 1));
      SameLowBits(Half(x), Half(y), k - 1);
    }
  }

  predicate Agree(x: bv64, y: bv64, m: bv64) { (x ^ y) & m == 0 }

  function Longer(m: bv64): bv64 { (m << 1) | 1 }

  lemma LowIs(k: nat)
    requires k > 0
    ensures Low(k) == Longer(Low(k - 1))
  {
  }

  lemma LowHalf(x: bv64, y: bv64, m: bv64)
    requires Agree(x, y, Longer(m))
    ensures Odd(x) == Odd(y) && Agree(Half(x), Half(y), m)
  {
  }

  lemma Low63()
    ensures Low(63) == 0x7fff_ffff_ffff_ffff
  {
    assert Low(8) == 0xff;
    assert Low(16) == 0xffff;
    assert Low(24) == 0xff_ffff;
    assert Low(32) == 0xffff_ffff;
    assert Low(40) == 0xff_ffff_ffff;
    assert Low(48) == 0xffff_ffff_ffff;
    assert Low(56) == 0xff_ffff_ffff_ffff;
  }

  lemma ShiftBits(x: bv64)
    ensures Word(Double(x)) == Shl(Word(x), 1)
  {
    Low63();
    Folded(x);
    SameLowBits(Half(Double(x)), x, 63);
    FirstBits(x, 63);
    hide Odd, Half, Double;
    assert Bits(Double(x), 64) == [false] + Bits(Half(Double(x)), 63);
  }

  function Double(x: bv64): bv64 { x << 1 }

  lemma Folded(x: bv64)
    ensures !Odd(Double(x)) && Agree(Half(Double(x)), x, 0x7fff_ffff_ffff_ffff)
  {
  }

  lemma {:induction false} FirstBits(x: bv64, k: nat)
    ensures Bits(x, k) == Bits(x, k + 1)[..k]
    decreases k
  {
    hide Odd, Half;
    if k > 0 {
      FirstBits(Half(x), k - 1);
    }
  }

  // ---------------------------------------------------------- the register

  function Step(r: bv64, b: bool): bv64 {
    if Meets(r, 0x8000_0000_0000_0000) != b then Sum(Double(r), 0xad93_d235_94c9_35a9) else Double(r)
  }

  lemma StepIs(r: bv64, b: bool)
    ensures Word(Step(r, b)) == StepBit(Word(r), b)
  {
    hide Meets, Sum, Double, Odd, Half, POLY, Bits;
    var poly := 0xad93_d235_94c9_35a9;
    ShiftBits(r);
    TopBit(r);
    PolyBits();
    forall i | 0 <= i < 64 ensures Word(Sum(Double(r), poly))[i] == Xor(Shl(Word(r), 1), POLY)[i] {
      XorBits(Double(r), poly, 64, i);
    }
  }

  predicate Meets(x: bv64, m: bv64) { x & m != 0 }

  /** Bit `i` alone. */
  function Single(i: nat): bv64 {
    if i == 0 then 1 else Double(Single(i - 1))
  }

  lemma {:induction false} BitIs(x: bv64, k: nat, i: nat)
    requires i < k
    ensures Bits(x, k)[i] == Meets(x, Single(i))
    decreases k
  {
    hide Odd, Half, Double, Meets;
    if i == 0 {
      OddMeets(x);
    } else {
      BitIs(Half(x), k - 1, i - 1);
      HalfMeets(x, Single(i - 1));
    }
  }

  lemma OddMeets(x: bv64)
    ensures Odd(x) == Meets(x, 1)
  {
  }

  lemma HalfMeets(x: bv64, m: bv64)
    ensures Meets(Half(x), m) == Meets(x, Double(m))
  {
  }

  lemma TopBit(r: bv64)
    ensures Word(r)[63] == Meets(r, 0x8000_0000_0000_0000)
  {
    BitIs(r, 64, 63);
    Singles();
  }

  lemma Singles()
    ensures Single(8) == 0x100 && Single(16) == 0x1_0000 && Single(24) == 0x100_0000
    ensures Single(32) == 0x1_0000_0000 && Single(40) == 0x100_0000_0000
    ensures Single(48) == 0x1_0000_0000_0000 && Single(56) == 0x100_0000_0000_0000
    ensures Single(63) == 0x8000_0000_0000_0000
  {
    assert Single(8) == 0x100;
    assert Single(16) == 0x1_0000;
    assert Single(24) == 0x100_0000;
    assert Single(32) == 0x1_0000_0000;
    assert Single(40) == 0x100_0000_0000;
    assert Single(48) == 0x1_0000_0000_0000;
    assert Single(56) == 0x100_0000_0000_0000;
  }

  // ---- constants

  /** The same bits in a number and in a vector. */
  predicate SameBits(n: nat, x: bv64, k: nat)
    decreases k
  {
    k == 0 || ((n % 2 == 1 <==> Odd(x)) && SameBits(n / 2, Half(x), k - 1))
  }

  lemma PolyBits()
    ensures Word(0xad93_d235_94c9_35a9) == POLY
  {
    assert SameBits(0xad, 0xad, 8);
    assert SameBits(0xad93, 0xad93, 16);
    assert SameBits(0xad93_d235, 0xad93_d235, 32);
    assert SameBits(0xad93_d235_94c9, 0xad93_d235_94c9, 48);
    assert SameBits(0xad93_d235_94c9_35a9, 0xad93_d235_94c9_35a9, 64);
    ConstantIs(0xad93_d235_94c9_35a9, 0xad93_d235_94c9_35a9);
  }

  lemma ConstantIs(n: nat, x: bv64)
    requires SameBits(n, x, 64)
    ensures Word(x) == Constant(n)
  {
    hide Bits, Odd, Half, SameBits;
    forall i | 0 <= i < 64 ensures Bits(x, 64)[i] == Constant(n)[i] {
      NumberBit(n, x, 64, i);
    }
  }

  lemma {:induction false} NumberBit(n: nat, x: bv64, k: nat, i: nat)
    requires SameBits(n, x, k) && i < k
    ensures Bits(x, k)[i] == (n / Power2(i) % 2 == 1)
    decreases k
  {
    hide Odd, Half;
    if i > 0 {
      NumberBit(n / 2, Half(x), k - 1, i - 1);
      HalfThen(n, Power2(i - 1));
    }
  }

  lemma HalfThen(n: nat, p: nat)
    requires p > 0
    ensures n / (2 * p) == n / 2 / p
  {
    var q := n / 2 / p;
    var r := n / 2 % p;
    assert n / 2 == p * q + r;
    var e := n - 2 * (n / 2);
    assert n == (2 * p) * q + (2 * r + e);
    QuotientIs(n, 2 * p, q, 2 * r + e);
  }

  lemma QuotientIs(n: nat, p: nat, q: nat, r: nat)
    requires p > 0 && n == p * q + r && r < p
    ensures n / p == q
  {
    var d := n / p;
    assert n == p * d + n % p;
    if d < q {
      Grows(p, d + 1, q);
    } else if d > q {
      Grows(p, q + 1, d);
    }
  }

  lemma Grows(p: nat, a: nat, b: nat)
    requires a <= b
    ensures p * a <= p * b && p * a == p * (a - 1) + p
  {
  }

  // ------------------------------------------------------ the check value

  const CHECKED := "123456789"

  function Nibble(n: nat): (s: seq<bool>)
    ensures |s| == 4
  {
    [n % 2 == 1, n / 2 % 2 == 1, n / 4 % 2 == 1, n / 8 % 2 == 1]
  }

  function Byte(n: nat): Octet { Nibble(n % 16) + Nibble(n / 16) }

  function Bytes(s: string): (data: seq<Octet>)
    ensures |data| == |s|
  {
    seq(|s|, i requires 0 <= i < |s| => Byte(s[i] as int))
  }

  /** Four turns, the bits of `n` lowest first. */
  function Four(r: bv64, n: nat): bv64 {
    Step(Step(Step(Step(r, n % 2 == 1), n / 2 % 2 == 1), n / 4 % 2 == 1), n / 8 % 2 == 1)
  }

  lemma FourIs(r: bv64, n: nat)
    ensures Word(Four(r, n)) == StepAll(Word(r), Nibble(n))
  {
    hide Step, StepBit, Bits, Word;
    var s := Nibble(n);
    var r1 := Step(r, s[0]);
    var r2 := Step(r1, s[1]);
    var r3 := Step(r2, s[2]);
    StepIs(r, s[0]);
    StepIs(r1, s[1]);
    StepIs(r2, s[2]);
    StepIs(r3, s[3]);
    NoStep(Word(r));
    assert s[..1][..0] == [] && s[..2][..1] == s[..1] && s[..3][..2] == s[..2] && s[..4][..3] == s[..3];
    assert StepAll(Word(r), s[..1]) == Word(r1);
    assert StepAll(Word(r), s[..2]) == Word(r2);
    assert StepAll(Word(r), s[..3]) == Word(r3);
    assert s == s[..4];
  }

  lemma NextDigit(r: bv64, m: bv64, k: nat)
    requires k < 9 && Register(Zero(), Bytes(CHECKED)[..k]) == Word(r) && Four(r, k + 1) == m
    ensures Register(Zero(), Bytes(CHECKED)[..k + 1]) == Word(Four(m, 3))
  {
    hide Four, Word, StepBits, StepAll, Bytes, Nibble;
    var data := Bytes(CHECKED);
    var c := data[k];
    DigitIs(k);
    assert data[..k + 1][..k] == data[..k];
    OctetSteps(Word(r), c, 8);
    assert c[..8] == c;
    StepsAppend(Word(r), Nibble(k + 1), Nibble(3));
    FourIs(r, k + 1);
    FourIs(m, 3);
  }

  lemma DigitIs(k: nat)
    requires k < 9
    ensures Bytes(CHECKED)[k] == Nibble(k + 1) + Nibble(3)
  {
    hide Nibble;
    assert CHECKED[k] as int == 0x31 + k;
  }

  lemma NoDigits()
    ensures Register(Zero(), Bytes(CHECKED)[..0]) == Word(0)
  {
    assert Bytes(CHECKED)[..0] == [];
    forall i | 0 <= i < 64 ensures !Word(0)[i] {
      NoBits(64, i);
    }
  }

  lemma {:induction false} NoBits(k: nat, i: nat)
    requires i < k
    ensures !Bits(0, k)[i]
    decreases k
  {
    assert !Odd(0) && Half(0) == 0;
    if i > 0 {
      NoBits(k - 1, i - 1);
    }
  }

  // ---- the values the register takes, half a byte at a time

  lemma FirstValues()
    ensures Four(0, 1) == 0x81f6_7d11_dcff_10be
    ensures Four(0x81f6_7d11_dcff_10be, 3) == 0x5f9c_ef95_218e_83bf
    ensures Four(0x5f9c_ef95_218e_83bf, 2) == 0x545d_2b67_8c21_0e59
    ensures Four(0x545d_2b67_8c21_0e59, 3) == 0x69b7_195c_8a26_c087
    ensures Four(0x69b7_195c_8a26_c087, 3) == 0xec33_9e87_c3c8_4635
    ensures Four(0xec33_9e87_c3c8_4635, 3) == 0x358d_9e22_81df_3dab
  {
  }

  lemma MiddleValues()
    ensures Four(0x358d_9e22_81df_3dab, 4) == 0xf54a_301d_893a_ef19
    ensures Four(0xf54a_301d_893a_ef19, 3) == 0x0f84_a5b3_ba3c_9ac2
    ensures Four(0x0f84_a5b3_ba3c_9ac2, 5) == 0x8f08_5074_c26d_e265
    ensures Four(0x8f08_5074_c26d_e265, 3) == 0xb07e_39c4_c8a1_ae0f
    ensures Four(0xb07e_39c4_c8a1_ae0f, 6) == 0x6b7d_0de0_2c53_4db8
    ensures Four(0x6b7d_0de0_2c53_4db8, 3) == 0xc092_d54d_a490_95c5
  {
  }

  lemma LastValues()
    ensures Four(0xc092_d54d_a490_95c5, 7) == 0xff99_2284_f452_02ab
    ensures Four(0xff99_2284_f452_02ab, 3) == 0xa2b5_8c24_6cb2_41e2
    ensures Four(0xa2b5_8c24_6cb2_41e2, 8) == 0xf189_1b3c_3e49_65cc
    ensures Four(0xf189_1b3c_3e49_65cc, 3) == 0x43b6_17a8_cd04_3792
    ensures Four(0x43b6_17a8_cd04_3792, 9) == 0x57ff_eb20_760a_d468
    ensures Four(0x57ff_eb20_760a_d468, 3) == 0x539b_1d23_289b_6397
  {
  }

  lemma CheckedRegister()
    ensures Register(Zero(), Bytes(CHECKED)) == Word(0x539b_1d23_289b_6397)
  {
    hide Register, Word, Bytes, Four;
    FirstValues();
    MiddleValues();
    LastValues();
    NoDigits();
    NextDigit(0, 0x81f6_7d11_dcff_10be, 0);
    NextDigit(0x5f9c_ef95_218e_83bf, 0x545d_2b67_8c21_0e59, 1);
    NextDigit(0x69b7_195c_8a26_c087, 0xec33_9e87_c3c8_4635, 2);
    NextDigit(0x358d_9e22_81df_3dab, 0xf54a_301d_893a_ef19, 3);
    NextDigit(0x0f84_a5b3_ba3c_9ac2, 0x8f08_5074_c26d_e265, 4);
    NextDigit(0xb07e_39c4_c8a1_ae0f, 0x6b7d_0de0_2c53_4db8, 5);
    NextDigit(0xc092_d54d_a490_95c5, 0xff99_2284_f452_02ab, 6);
    NextDigit(0xa2b5_8c24_6cb2_41e2, 0xf189_1b3c_3e49_65cc, 7);
    NextDigit(0x43b6_17a8_cd04_3792, 0x57ff_eb20_760a_d468, 8);
    assert Bytes(CHECKED)[..9] == Bytes(CHECKED);
  }

  // ---- reflected

  /** The low bits of `x` are the mirror image of those of `y`. */
  predicate Mirrors(x: bv64, y: bv64, k: nat)
    decreases k
  {
    k == 0 || (Odd(x) == Meets(y, Single(k - 1)) && Mirrors(Half(x), y, k - 1))
  }

  lemma {:induction false} MirrorBits(x: bv64, y: bv64, k: nat, i: nat)
    requires Mirrors(x, y, k) && i < k <= 64
    ensures Bits(x, k)[i] == Word(y)[k - 1 - i]
    decreases k
  {
    hide Odd, Half, Meets, Single, Word;
    WordBits(y);
    if i == 0 {
      BitIs(y, 64, k - 1);
    } else {
      MirrorBits(Half(x), y, k - 1, i - 1);
    }
  }

  lemma LowerMirrors()
    ensures Mirrors(0x539b_1d23, 0xe9c6_d914_c4b8_d9ca, 32)
  {
    Singles();
    assert Mirrors(0x53, 0xe9c6_d914_c4b8_d9ca, 8);
    assert Mirrors(0x539b, 0xe9c6_d914_c4b8_d9ca, 16);
    assert Mirrors(0x53_9b1d, 0xe9c6_d914_c4b8_d9ca, 24);
  }

  lemma CheckMirrors()
    ensures Mirrors(0x539b_1d23_289b_6397, 0xe9c6_d914_c4b8_d9ca, 64)
  {
    Singles();
    LowerMirrors();
    assert Mirrors(0x53_9b1d_2328, 0xe9c6_d914_c4b8_d9ca, 40);
    assert Mirrors(0x539b_1d23_289b, 0xe9c6_d914_c4b8_d9ca, 48);
    assert Mirrors(0x53_9b1d_2328_9b63, 0xe9c6_d914_c4b8_d9ca, 56);
  }

  lemma CheckBits()
    ensures Word(0xe9c6_d914_c4b8_d9ca) == Constant(0xe9c6_d914_c4b8_d9ca)
  {
    assert SameBits(0xe9, 0xe9, 8);
    assert SameBits(0xe9c6, 0xe9c6, 16);
    assert SameBits(0xe9c6_d914, 0xe9c6_d914, 32);
    assert SameBits(0xe9c6_d914_c4b8, 0xe9c6_d914_c4b8, 48);
    assert SameBits(0xe9c6_d914_c4b8_d9ca, 0xe9c6_d914_c4b8_d9ca, 64);
    ConstantIs(0xe9c6_d914_c4b8_d9ca, 0xe9c6_d914_c4b8_d9ca);
  }

  /** The value `crc64Test` expects of "123456789". */
  lemma CheckValue()
    ensures Crc(Bytes("123456789")) == Constant(0xe9c6_d914_c4b8_d9ca)
  {
    hide Register, Word, Bytes, Reflect, Mirrors, Constant;
    CheckedRegister();
    CheckMirrors();
    CheckBits();
    var x, y := Word(0x539b_1d23_289b_6397), Word(0xe9c6_d914_c4b8_d9ca);
    ReflectReverses(x);
    forall i | 0 <= i < 64 ensures Reflect(x)[i] == y[i] {
      MirrorBits(0x539b_1d23_289b_6397, 0xe9c6_d914_c4b8_d9ca, 64, 63 - i);
      WordBits(0x539b_1d23_289b_6397);
    }
  }

  lemma WordBits(x: bv64)
    ensures Word(x) == Bits(x, 64)
  {
  }
}
