/**
 The bit-by-bit CRC-64 of src/crc64.c: the register loop, the bit reflection it ends
 with, and the linearity that lets the CRC of a concatenation be computed from the CRCs
 of its parts.
 */
module Crc64 {
  import opened Polynomials
  import opened Word64

  /** The Jones polynomial. */
  const POLY: Word := Constant(0xad93d23594c935a9)

  // ---------------------------------------------------------------- reflection

  /** Bit `i` of 0x5555..., 0x3333..., 0x0F0F... and so on: `k` ones, `k` zeros, over and over. */
  predicate BlockBit(i: nat, k: nat)
    requires k > 0
  {
    if i < k then true else !BlockBit(i - k, k)
  }

  function Blocks(k: nat): Word
    requires k > 0
  {
    seq(64, i requires i >= 0 => BlockBit(i, k))
  }

  /** One line of `crc_reflect`: neighbouring blocks of `k` bits trade places. */
  function SwapBlocks(x: Word, k: nat): Word
    requires 0 < k <= 64
  {
    Or(And(Shr(x, k), Blocks(k)), Shl(And(x, Blocks(k)), k))
  }

  /** `crc_reflect` for 64-bit data. */
  function Reflect(data: Word): Word {
    SwapBlocks(SwapBlocks(SwapBlocks(SwapBlocks(SwapBlocks(SwapBlocks(data, 1), 2), 4), 8), 16), 32)
  }

  /** The mirror image of index `i` inside its block of `k`. */
  function Mirror(i: nat, k: nat): nat
    requires k > 0
  {
    if i < k then k - 1 - i else k + Mirror(i - k, k)
  }

  /** `y` is `x` with every block of `k` bits reversed. */
  ghost predicate ReversedBlocks(x: Word, y: Word, k: nat)
    requires k > 0
  {
    forall i | 0 <= i < 64 :: Mirror(i, k) < 64 && y[i] == x[Mirror(i, k)]
  }

  /** The width of a word made of `pairs` pairs of blocks of `k` bits. */
  function PairsWidth(k: nat, pairs: nat): nat {
    if pairs == 0 then 0 else 2 * k + PairsWidth(k, pairs - 1)
  }

  lemma {:induction false} PairsWidthDoubles(k: nat, pairs: nat)
    ensures PairsWidth(k, 2 * pairs) == PairsWidth(2 * k, pairs)
  {
    if pairs > 0 {
      PairsWidthDoubles(k, pairs - 1);
      assert PairsWidth(k, 2 * pairs) == 2 * k + PairsWidth(k, 2 * pairs - 1);
    }
  }

  /** The index `SwapBlocks` takes bit `i` from is the one that completes the wider mirror. */
  lemma {:induction false} MirrorWidens(i: nat, k: nat, pairs: nat)
    requires k > 0 && i < PairsWidth(k, pairs)
    ensures BlockBit(i, k) ==> i + k < PairsWidth(k, pairs) && Mirror(i + k, k) == Mirror(i, 2 * k)
    ensures !BlockBit(i, k) ==> i >= k && Mirror(i - k, k) == Mirror(i, 2 * k)
  {
    if i >= 2 * k {
      MirrorWidens(i - 2 * k, k, pairs - 1);
      assert BlockBit(i, k) == !BlockBit(i - k, k) == BlockBit(i - 2 * k, k);
      if BlockBit(i, k) {
        assert Mirror(i + k, k) == k + Mirror(i, k) == 2 * k + Mirror(i - k, k);
      } else {
        assert Mirror(i - k, k) == k + Mirror(i - 2 * k, k) == 2 * k + Mirror(i - 3 * k, k);
      }
    } else if i < k {
      assert Mirror(i + k, k) == k + Mirror(i, k);
    } else {
      assert !BlockBit(i, k);
    }
  }

  lemma SwapWidens(x: Word, y: Word, k: nat, pairs: nat)
    requires 0 < k <= 32 && PairsWidth(k, pairs) == 64
    requires ReversedBlocks(x, y, k)
    ensures ReversedBlocks(x, SwapBlocks(y, k), 2 * k)
  {
    forall i | 0 <= i < 64
      ensures Mirror(i, 2 * k) < 64 && SwapBlocks(y, k)[i] == x[Mirror(i, 2 * k)]
    {
      MirrorWidens(i, k, pairs);
      if BlockBit(i, k) {
        assert SwapBlocks(y, k)[i] == y[i + k];
      } else {
        assert SwapBlocks(y, k)[i] == y[i - k];
      }
    }
  }

  /** The chain of swaps is exactly bit reversal. */
  lemma ReflectReverses(x: Word)
    ensures forall i | 0 <= i < 64 :: Reflect(x)[i] == x[63 - i]
  {
    hide SwapBlocks;
    var x1 := SwapBlocks(x, 1);
    var x2 := SwapBlocks(x1, 2);
    var x4 := SwapBlocks(x2, 4);
    var x8 := SwapBlocks(x4, 8);
    var x16 := SwapBlocks(x8, 16);
    NothingToMirror(x);
    PairsWidthDoubles(16, 1);
    PairsWidthDoubles(8, 2);
    PairsWidthDoubles(4, 4);
    PairsWidthDoubles(2, 8);
    PairsWidthDoubles(1, 16);
    SwapWidens(x, x, 1, 32);
    SwapWidens(x, x1, 2, 16);
    SwapWidens(x, x2, 4, 8);
    SwapWidens(x, x4, 8, 4);
    SwapWidens(x, x8, 16, 2);
    SwapWidens(x, x16, 32, 1);
    forall i | 0 <= i < 64 ensures Reflect(x)[i] == x[63 - i] {
      assert Mirror(i, 64) == 63 - i;
    }
  }

  lemma NothingToMirror(x: Word)
    ensures ReversedBlocks(x, x, 1)
  {
    forall i | 0 <= i < 64 ensures Mirror(i, 1) == i {
      MirrorOfOne(i);
    }
  }

  lemma {:induction false} MirrorOfOne(i: nat)
    ensures Mirror(i, 1) == i
  {
    if i > 0 { MirrorOfOne(i - 1); }
  }

  lemma ReflectLinear(x: Word, y: Word)
    ensures Reflect(Xor(x, y)) == Xor(Reflect(x), Reflect(y))
    ensures Reflect(Zero()) == Zero()
  {
    hide Reflect;
    ReflectReverses(x);
    ReflectReverses(y);
    ReflectReverses(Xor(x, y));
    ReflectReverses(Zero());
  }

  lemma ReflectShift(x: Word)
    ensures Reflect(Shl(x, 1)) == Shr(Reflect(x), 1)
    ensures Reflect(x)[0] == x[63]
  {
    hide Reflect;
    ReflectReverses(x);
    ReflectReverses(Shl(x, 1));
  }

  // ------------------------------------------------- the bit-by-bit reference

  /** A byte, lowest bit first. */
  type Octet = s: seq<bool> | |s| == 8 witness seq(8, i => false)

  /** One turn of the inner loop of `_crc64`. */
  function StepBit(crc: Word, input: bool): Word {
    if crc[63] != input then Xor(Shl(crc, 1), POLY) else Shl(crc, 1)
  }

  /** The first `n` turns for byte `c`, least significant bit first. */
  function StepBits(crc: Word, c: Octet, n: nat): Word
    requires n <= 8
  {
    if n == 0 then crc else StepBit(StepBits(crc, c, n - 1), c[n - 1])
  }

  /** The register after `data`, before it is reflected. */
  function Register(crc: Word, data: seq<Octet>): Word {
    if data == [] then crc else StepBits(Register(crc, data[..|data| - 1]), data[|data| - 1], 8)
  }

  /** What `_crc64` started at 0 returns for `data`. */
  function Crc(data: seq<Octet>): Word {
    Reflect(Register(Zero(), data))
  }

  // --------------------------------------------------- the register is a remainder

  /** x to the 64th and the polynomial. */
  function Generator(): Poly { POLY + [true] }

  /** The bits in the order they are sent: byte by byte, the lowest bit of each first. */
  function Sent(data: seq<Octet>): seq<bool> {
    if data == [] then [] else Sent(data[..|data| - 1]) + data[|data| - 1]
  }

  /** The polynomial of a message: the bit sent first has the highest power. */
  function Message(bits: seq<bool>): (p: Poly)
    ensures |p| == |bits|
  {
    seq(|bits|, i requires 0 <= i < |bits| => bits[|bits| - 1 - i])
  }

  /** What is divided: the message, and the register it started from, moved up. */
  function Dividend(crc: Word, bits: seq<bool>): Poly {
    Add(Shift(Message(bits), 64), Shift(crc, |bits|))
  }

  function StepAll(crc: Word, bits: seq<bool>): Word {
    if bits == [] then crc else StepBit(StepAll(crc, bits[..|bits| - 1]), bits[|bits| - 1])
  }

  /** The bits that left the register, with the input added. */
  function Quotient(crc: Word, bits: seq<bool>): Poly {
    if bits == [] then []
    else
      var n := |bits| - 1;
      [StepAll(crc, bits[..n])[63] != bits[n]] + Quotient(crc, bits[..n])
  }

  lemma DividendCoef(crc: Word, bits: seq<bool>, b: bool, i: nat)
    ensures Coef(Dividend(crc, bits + [b]), i) == ((i > 0 && Coef(Dividend(crc, bits), i - 1)) != (i == 64 && b))
  {
    var m, m', n := Message(bits), Message(bits + [b]), |bits|;
    assert m' == [b] + m;
    AddCoef(Shift(m', 64), Shift(crc, n + 1), i);
    ShiftCoef(m', 64, i);
    ShiftCoef(crc, n + 1, i);
    if i > 0 {
      AddCoef(Shift(m, 64), Shift(crc, n), i - 1);
      ShiftCoef(m, 64, i - 1);
      ShiftCoef(crc, n, i - 1);
    }
  }

  lemma TurnCoef(q: Poly, reg: Word, b: bool, i: nat)
    ensures
      var bit := reg[63] != b;
      Coef(Add(Mul([bit] + q, Generator()), StepBit(reg, b)), i)
        == ((i > 0 && Coef(Add(Mul(q, Generator()), reg), i - 1)) != (i == 64 && b))
  {
    var bit, g := reg[63] != b, Generator();
    AddCoef(Mul([bit] + q, g), StepBit(reg, b), i);
    MulCoef([bit] + q, g, i);
    assert ([bit] + q)[1..] == q;
    if i > 0 {
      AddCoef(Mul(q, g), reg, i - 1);
    }
    hide Mul, Add, POLY;
    assert Coef(g, i) == if i < 64 then POLY[i] else i == 64;
    assert Coef(StepBit(reg, b), i) == (i < 64 && ((i > 0 && reg[i - 1]) != (bit && POLY[i])));
  }

  lemma {:induction false} BitsDivide(crc: Word, bits: seq<bool>)
    ensures Division(Dividend(crc, bits), Generator(), Quotient(crc, bits), StepAll(crc, bits))
  {
    if bits == [] {
      forall i: nat ensures Coef(Dividend(crc, []), i) == Coef(Add(Mul([], Generator()), crc), i) {
        AddCoef(Shift(Message([]), 64), Shift(crc, 0), i);
        AddCoef(Mul([], Generator()), crc, i);
        ShiftCoef(Message([]), 64, i);
        ShiftCoef(crc, 0, i);
      }
    } else {
      var n := |bits| - 1;
      var front, b := bits[..n], bits[n];
      assert bits == front + [b];
      BitsDivide(crc, front);
      forall i: nat
        ensures Coef(Dividend(crc, bits), i) == Coef(Add(Mul(Quotient(crc, bits), Generator()), StepAll(crc, bits)), i)
      {
        DividendCoef(crc, front, b, i);
        TurnCoef(Quotient(crc, front), StepAll(crc, front), b, i);
      }
    }
  }

  lemma {:induction false} StepsAppend(crc: Word, a: seq<bool>, b: seq<bool>)
    ensures StepAll(crc, a + b) == StepAll(StepAll(crc, a), b)
  {
    hide StepBit;
    if b == [] {
      assert a + b == a;
    } else {
      assert (a + b)[..|a + b| - 1] == a + b[..|b| - 1];
      StepsAppend(crc, a, b[..|b| - 1]);
    }
  }

  lemma {:induction false} OctetSteps(crc: Word, c: Octet, n: nat)
    requires n <= 8
    ensures StepBits(crc, c, n) == StepAll(crc, c[..n])
  {
    hide StepBit;
    if n > 0 {
      OctetSteps(crc, c, n - 1);
      assert c[..n][..n - 1] == c[..n - 1];
    }
  }

  lemma {:induction false} RegisterSteps(crc: Word, data: seq<Octet>)
    ensures Register(crc, data) == StepAll(crc, Sent(data))
  {
    hide StepBit, StepBits, StepAll;
    if data != [] {
      var front, c := data[..|data| - 1], data[|data| - 1];
      RegisterSteps(crc, front);
      StepsAppend(crc, Sent(front), c);
      OctetSteps(Register(crc, front), c, 8);
      assert c[..8] == c;
    } else {
      NoStep(crc);
    }
  }

  lemma NoStep(crc: Word)
    ensures StepAll(crc, []) == crc
  {
  }

  /** The remainder of the message, by any quotient: there is only one. */
  ghost predicate IsRemainder(crc: Word, data: seq<Octet>, w: Word) {
    exists q :: Division(Dividend(crc, Sent(data)), Generator(), q, w)
  }

  /** The register is the remainder of the message polynomial, and the only word that is. */
  lemma RegisterIsRemainder(crc: Word, data: seq<Octet>, w: Word)
    ensures IsRemainder(crc, data, w) <==> w == Register(crc, data)
  {
    hide Division, Register, Quotient, StepAll, Dividend, Sent;
    var m := Dividend(crc, Sent(data));
    BitsDivide(crc, Sent(data));
    RegisterSteps(crc, data);
    var q, r := Quotient(crc, Sent(data)), Register(crc, data);
    assert Division(m, Generator(), q, r);
    if q' :| Division(m, Generator(), q', w) {
      assert Coef(Generator(), 64) && forall i: nat | i > 64 :: !Coef(Generator(), i);
      RemainderIsUnique(m, Generator(), 64, q, r, q', w);
    }
  }

  /** Bit `j` of byte `i` has the power it should have. */
  lemma {:induction false} SentAt(data: seq<Octet>, i: nat, j: nat)
    requires i < |data| && j < 8
    ensures |Sent(data)| == 8 * |data| && Sent(data)[8 * i + j] == data[i][j]
  {
    SentLength(data);
    var n := |data| - 1;
    SentLength(data[..n]);
    if i < n {
      SentAt(data[..n], i, j);
    }
  }

  lemma {:induction false} SentLength(data: seq<Octet>)
    ensures |Sent(data)| == 8 * |data|
  {
    if data != [] {
      SentLength(data[..|data| - 1]);
    }
  }

  /** `_crc64`: two nested loops over one register. */
  method CrcBitByBit(crc: Word, data: array<Octet>) returns (r: Word)
    ensures r == Reflect(Register(crc, data[..]))
    ensures exists w: Word :: IsRemainder(crc, data[..], w) && forall i | 0 <= i < 64 :: r[i] == w[63 - i]
  {
    hide Reflect, StepBit, IsRemainder;
    var reg := crc;
    for offset := 0 to data.Length
      invariant reg == Register(crc, data[..offset])
    {
      var c := data[offset];
      assert data[..offset + 1][..offset] == data[..offset];
      for i := 0 to 8
        invariant reg == StepBits(Register(crc, data[..offset]), c, i)
      {
        reg := Turn(reg, c[i]);
      }
    }
    assert data[..] == data[..data.Length];
    r := Reflect(reg);
    RegisterIsRemainder(crc, data[..], reg);
    ReflectReverses(reg);
  }

  /** The body of the inner loop. */
  method Turn(crc: Word, input: bool) returns (reg: Word)
    ensures reg == StepBit(crc, input)
  {
    var bit := crc[63];
    if input {
      bit := !bit;
    }
    reg := Shl(crc, 1);
    if bit {
      reg := Xor(reg, POLY);
    }
  }

  // ------------------------------------------- the reflected register is linear

  /** One turn of a reflected register without input. */
  function ZeroBit(poly: Word, x: Word): Word {
    if x[0] then Xor(Shr(x, 1), poly) else Shr(x, 1)
  }

  /** Appending `n` zero bits: the operator a matrix of src/crccombine.c stands for. */
  function Zeros(poly: Word, x: Word, n: nat): Word {
    if n == 0 then x else ZeroBit(poly, Zeros(poly, x, n - 1))
  }

  lemma ZeroBitXor(poly: Word, x: Word, y: Word)
    ensures ZeroBit(poly, Xor(x, y)) == Xor(ZeroBit(poly, x), ZeroBit(poly, y))
  {
  }

  lemma {:induction false} ZerosXor(poly: Word, x: Word, y: Word, n: nat)
    ensures Zeros(poly, Xor(x, y), n) == Xor(Zeros(poly, x, n), Zeros(poly, y, n))
  {
    hide Xor, ZeroBit;
    if n != 0 {
      ZerosXor(poly, x, y, n - 1);
      ZeroBitXor(poly, Zeros(poly, x, n - 1), Zeros(poly, y, n - 1));
    }
  }

  lemma {:induction false} ZerosAdd(poly: Word, x: Word, m: nat, n: nat)
    ensures Zeros(poly, Zeros(poly, x, m), n) == Zeros(poly, x, m + n)
  {
    hide ZeroBit;
    if n != 0 {
      ZerosAdd(poly, x, m, n - 1);
    }
  }

  /** A turn seen through reflection: what was in the register moves on as if by a zero bit. */
  lemma ReflectedTurn(crc: Word, input: bool)
    ensures Reflect(StepBit(crc, input)) == Xor(ZeroBit(Reflect(POLY), Reflect(crc)), if input then Reflect(POLY) else Zero())
  {
    hide Xor, Shl, Shr, Reflect;
    var p, s := Reflect(POLY), Shr(Reflect(crc), 1);
    ReflectLinear(Shl(crc, 1), POLY);
    ReflectShift(crc);
    XorSelf(s);
    XorSelf(Xor(s, p));
    XorCancel(s, p);
  }

  /**
   Running `n` turns from two registers in step: the difference of the two registers moves
   on as if by zero bits, whatever the input.
   */
  lemma {:induction false} TurnsKeepDifference(x: Word, y: Word, c: Octet, n: nat)
    requires n <= 8
    ensures Xor(Reflect(StepBits(x, c, n)), Reflect(StepBits(y, c, n)))
         == Zeros(Reflect(POLY), Xor(Reflect(x), Reflect(y)), n)
  {
    hide Xor, Reflect, StepBit, ZeroBit;
    if n != 0 {
      TurnsKeepDifference(x, y, c, n - 1);
      var p, q := StepBits(x, c, n - 1), StepBits(y, c, n - 1);
      var u := if c[n - 1] then Reflect(POLY) else Zero();
      ReflectedTurn(p, c[n - 1]);
      ReflectedTurn(q, c[n - 1]);
      var zp, zq := ZeroBit(Reflect(POLY), Reflect(p)), ZeroBit(Reflect(POLY), Reflect(q));
      XorSwap(zp, u, zq, u);
      XorSelf(u);
      XorSelf(Xor(zp, zq));
      ZeroBitXor(Reflect(POLY), Reflect(p), Reflect(q));
    }
  }

  lemma {:induction false} DataKeepsDifference(x: Word, y: Word, data: seq<Octet>)
    ensures Xor(Reflect(Register(x, data)), Reflect(Register(y, data)))
         == Zeros(Reflect(POLY), Xor(Reflect(x), Reflect(y)), 8 * |data|)
  {
    hide Xor, Reflect, ZeroBit;
    if data != [] {
      var init, c := data[..|data| - 1], data[|data| - 1];
      DataKeepsDifference(x, y, init);
      TurnsKeepDifference(Register(x, init), Register(y, init), c, 8);
      ZerosAdd(Reflect(POLY), Xor(Reflect(x), Reflect(y)), 8 * |init|, 8);
    }
  }

  lemma {:induction false} RegisterAppends(crc: Word, a: seq<Octet>, b: seq<Octet>)
    ensures Register(crc, a + b) == Register(Register(crc, a), b)
  {
    hide StepBits;
    if b == [] {
      assert a + b == a;
    } else {
      assert (a + b)[..|a + b| - 1] == a + b[..|b| - 1];
      RegisterAppends(crc, a, b[..|b| - 1]);
    }
  }

  /** The CRC of a concatenation depends on the two CRCs and the second length alone. */
  lemma CrcOfConcatenation(a: seq<Octet>, b: seq<Octet>)
    ensures Crc(a + b) == Xor(Zeros(Reflect(POLY), Crc(a), 8 * |b|), Crc(b))
  {
    hide Xor, Reflect, Zeros, Register;
    var x := Register(Zero(), a);
    ReflectLinear(Zero(), Zero());
    RegisterAppends(Zero(), a, b);
    DataKeepsDifference(x, Zero(), b);
    XorSelf(Reflect(x));
    XorCancel(Reflect(Register(x, b)), Reflect(Register(Zero(), b)));
  }
}
