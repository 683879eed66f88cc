/**
 src/crccombine.c: joining two CRCs with a cached table of matrices, row `k` of which
 appends 2^k zero bytes.
 */
module CrcCombine {
  import opened Basics
  import opened Word64
  import opened Crc64

  type Matrix = s: seq<Word> | |s| == 64 witness seq(64, i => Zero())

  // ------------------------------------------------------- matrix times vector

  function Pick(b: bool, column: Word): Word {
    if b then column else Zero()
  }

  /** The sum of the columns among the first `n` that `vec` selects. */
  function PartialProduct(mat: Matrix, vec: Word, n: nat): Word
    requires n <= 64
  {
    if n == 0 then Zero() else Xor(PartialProduct(mat, vec, n - 1), Pick(vec[n - 1], mat[n - 1]))
  }

  function Product(mat: Matrix, vec: Word): Word {
    PartialProduct(mat, vec, 64)
  }

  /** `vec & 15`. */
  function Nibble(vec: Word): (n: nat)
    ensures n < 16
  {
    (if vec[0] then 1 else 0) + (if vec[1] then 2 else 0) + (if vec[2] then 4 else 0) + (if vec[3] then 8 else 0)
  }

  /** The arms of the switch in `gf2_matrix_times_switch`. */
  function SwitchColumns(nibble: nat, m0: Word, m1: Word, m2: Word, m3: Word): Word
    requires nibble < 16
  {
    match nibble
    case 15 => Xor(Xor(Xor(m0, m1), m2), m3)
    case 14 => Xor(Xor(m1, m2), m3)
    case 13 => Xor(Xor(m0, m2), m3)
    case 12 => Xor(m2, m3)
    case 11 => Xor(Xor(m0, m1), m3)
    case 10 => Xor(m1, m3)
    case 9 => Xor(m0, m3)
    case 8 => m3
    case 7 => Xor(Xor(m0, m1), m2)
    case 6 => Xor(m1, m2)
    case 5 => Xor(m0, m2)
    case 4 => m2
    case 3 => Xor(m0, m1)
    case 2 => m1
    case 1 => m0
    case _ => Zero()
  }

  lemma SwitchSumsSelectedColumns(vec: Word, m0: Word, m1: Word, m2: Word, m3: Word)
    ensures SwitchColumns(Nibble(vec), m0, m1, m2, m3)
         == Xor(Xor(Xor(Pick(vec[0], m0), Pick(vec[1], m1)), Pick(vec[2], m2)), Pick(vec[3], m3))
  {
    hide Xor;
    XorSelf(m0);
    XorSelf(m1);
    XorSelf(m2);
    XorSelf(m3);
    XorSelf(Xor(m0, m1));
    XorSelf(Xor(m0, m2));
    XorSelf(Xor(m1, m2));
    XorSelf(Xor(Xor(m0, m1), m2));
    XorSelf(Zero());
  }

  /** Four columns at a time is the same sum. */
  lemma FourColumns(mat: Matrix, vec: Word, n: nat)
    requires n + 4 <= 64
    ensures PartialProduct(mat, vec, n + 4)
         == Xor(PartialProduct(mat, vec, n), SwitchColumns(Nibble(Shr(vec, n)), mat[n], mat[n + 1], mat[n + 2], mat[n + 3]))
  {
    var v := Shr(vec, n);
    assert v[0] == vec[n] && v[1] == vec[n + 1] && v[2] == vec[n + 2] && v[3] == vec[n + 3];
    hide Xor, Shr, SwitchColumns, Nibble;
    SwitchSumsSelectedColumns(v, mat[n], mat[n + 1], mat[n + 2], mat[n + 3]);
    var s := PartialProduct(mat, vec, n);
    var p0, p1, p2, p3 := Pick(v[0], mat[n]), Pick(v[1], mat[n + 1]), Pick(v[2], mat[n + 2]), Pick(v[3], mat[n + 3]);
    hide Pick;
    assert PartialProduct(mat, vec, n + 1) == Xor(s, p0);
    assert PartialProduct(mat, vec, n + 2) == Xor(Xor(s, p0), p1);
    assert PartialProduct(mat, vec, n + 3) == Xor(Xor(Xor(s, p0), p1), p2);
    XorAssoc(s, p0, p1);
    XorAssoc(s, Xor(p0, p1), p2);
    XorAssoc(s, Xor(Xor(p0, p1), p2), p3);
  }

  lemma {:induction false} NoColumnsLeft(mat: Matrix, vec: Word, n: nat, m: nat)
    requires n <= m <= 64
    requires forall i | n <= i < 64 :: !vec[i]
    ensures PartialProduct(mat, vec, m) == PartialProduct(mat, vec, n)
  {
    hide Xor;
    if n < m {
      NoColumnsLeft(mat, vec, n, m - 1);
      XorSelf(PartialProduct(mat, vec, m - 1));
    }
  }

  lemma ShrLaws(vec: Word, m: nat)
    requires m <= 64
    ensures Shr(vec, 0) == vec && Shr(vec, 64) == Zero()
    ensures m + 4 <= 64 ==> Shr(Shr(vec, m), 4) == Shr(vec, m + 4)
    ensures Shr(vec, m) == Zero() ==> forall i | m <= i < 64 :: !vec[i]
  {
    if Shr(vec, m) == Zero() {
      forall i | m <= i < 64 ensures !vec[i] {
        assert Shr(vec, m)[i - m] == vec[i];
      }
    }
  }

  /** `gf2_matrix_times_switch`. */
  method Times(mat: Matrix, vec: Word) returns (sum: Word)
    ensures sum == Product(mat, vec)
  {
    hide Xor, Shr, SwitchColumns, Nibble;
    sum := Zero();
    var v, m := vec, 0;
    ShrLaws(vec, 0);
    while v != Zero()
      invariant 0 <= m <= 64 && m % 4 == 0
      invariant v == Shr(vec, m)
      invariant sum == PartialProduct(mat, vec, m)
      decreases 64 - m
    {
      ShrLaws(vec, m);
      FourColumns(mat, vec, m);
      sum := Xor(sum, SwitchColumns(Nibble(v), mat[m], mat[m + 1], mat[m + 2], mat[m + 3]));
      v := Shr(v, 4);
      m := m + 4;
    }
    ShrLaws(vec, m);
    NoColumnsLeft(mat, vec, m, 64);
  }

  // ------------------------------------------------ matrices that append zeros

  /** Column `j` is where `n` zero bits take the word with bit `j` alone set. */
  ghost predicate Appends(mat: Matrix, poly: Word, n: nat) {
    forall j | 0 <= j < 64 :: mat[j] == Zeros(poly, Unit(j), n)
  }

  function LowBits(vec: Word, k: nat): Word {
    seq(64, i requires 0 <= i < 64 => i < k && vec[i])
  }

  lemma {:induction false} ZerosOfZero(poly: Word, n: nat)
    ensures Zeros(poly, Zero(), n) == Zero()
  {
    if n != 0 {
      ZerosOfZero(poly, n - 1);
      assert ZeroBit(poly, Zero()) == Zero();
    }
  }

  lemma {:induction false} PartialProductAppends(mat: Matrix, poly: Word, n: nat, vec: Word, k: nat)
    requires Appends(mat, poly, n) && k <= 64
    ensures PartialProduct(mat, vec, k) == Zeros(poly, LowBits(vec, k), n)
  {
    if k == 0 {
      assert LowBits(vec, 0) == Zero();
      ZerosOfZero(poly, n);
    } else {
      PartialProductAppends(mat, poly, n, vec, k - 1);
      var u := if vec[k - 1] then Unit(k - 1) else Zero();
      assert LowBits(vec, k) == Xor(LowBits(vec, k - 1), u);
      hide Xor, LowBits;
      ZerosXor(poly, LowBits(vec, k - 1), u, n);
      ZerosOfZero(poly, n);
    }
  }

  /** Multiplying by such a matrix appends the zeros to any word, not just to single bits. */
  lemma ProductAppends(mat: Matrix, poly: Word, n: nat, vec: Word)
    requires Appends(mat, poly, n)
    ensures Product(mat, vec) == Zeros(poly, vec, n)
  {
    PartialProductAppends(mat, poly, n, vec, 64);
    assert LowBits(vec, 64) == vec;
  }

  function Squared(mat: Matrix): Matrix {
    seq(64, j requires 0 <= j < 64 => Product(mat, mat[j]))
  }

  /** Squaring a matrix doubles the number of zeros it appends. */
  lemma SquaredAppends(mat: Matrix, poly: Word, n: nat)
    requires Appends(mat, poly, n)
    ensures Appends(Squared(mat), poly, 2 * n)
  {
    hide Product, Zeros;
    forall j | 0 <= j < 64 ensures Squared(mat)[j] == Zeros(poly, Unit(j), 2 * n) {
      ProductAppends(mat, poly, n, mat[j]);
      ZerosAdd(poly, Unit(j), n, n);
    }
  }

  /** The matrix for a single zero bit, as `init_combine_cache` first fills row 1. */
  function OneBit(poly: Word): Matrix {
    [poly] + seq(63, j requires 0 <= j < 63 => Unit(j))
  }

  lemma OneBitAppends(poly: Word)
    ensures Appends(OneBit(poly), poly, 1)
  {
    forall j | 0 <= j < 64 ensures OneBit(poly)[j] == Zeros(poly, Unit(j), 1) {
      assert Zeros(poly, Unit(j), 1) == ZeroBit(poly, Zeros(poly, Unit(j), 0)) == ZeroBit(poly, Unit(j));
      if j == 0 {
        assert Shr(Unit(0), 1) == Zero();
        XorSelf(poly);
      } else {
        assert Shr(Unit(j), 1) == Unit(j - 1);
      }
    }
  }

  // ------------------------------------------------------------ the static cache

  class Combiner {
    const cache: array2<Word>

    constructor ()
      ensures fresh(cache) && Zeroed()
    {
      cache := new Word[64, 64]((i, j) => Zero());
    }

    /** The static table before its first use. */
    ghost predicate Zeroed()
      reads this, cache
    {
      cache.Length0 == 64 && cache.Length1 == 64 && forall i, j | 0 <= i < 64 && 0 <= j < 64 :: cache[i, j] == Zero()
    }

    function Row(k: nat): (r: Matrix)
      requires cache.Length0 == 64 && cache.Length1 == 64 && k < 64
      reads cache
    {
      seq(64, j requires 0 <= j < 64 && cache.Length0 == 64 && cache.Length1 == 64 reads cache => cache[k, j])
    }

    /** Row `k` appends 2^k zero bytes. */
    ghost predicate Built(poly: Word)
      requires cache.Length0 == 64 && cache.Length1 == 64
      reads cache
    {
      forall k: nat | k < 64 :: Appends(Row(k), poly, 8 * Power2(k))
    }

    /** What holds between calls as long as every call uses the same polynomial. */
    ghost predicate Valid(poly: Word)
      reads this, cache
    {
      && cache.Length0 == 64 && cache.Length1 == 64
      && (cache[0, 0] != Zero() ==> Built(poly))
    }

    /** `gf2_matrix_square` with both arguments rows of the cache. */
    method SquareRow(dst: nat, src: nat)
      requires cache.Length0 == 64 && cache.Length1 == 64
      requires dst < 64 && src < 64 && dst != src
      modifies cache
      ensures Row(dst) == Squared(old(Row(src)))
      ensures forall k: nat | k < 64 && k != dst :: Row(k) == old(Row(k))
    {
      hide Product;
      var mat := Row(src);
      for n := 0 to 64
        invariant forall j | 0 <= j < n :: cache[dst, j] == Product(mat, mat[j])
        invariant forall k: nat, j | k < 64 && k != dst && 0 <= j < 64 :: cache[k, j] == old(cache[k, j])
      {
        assert cache[src, n] == mat[n];
        var p := Times(mat, cache[src, n]);
        cache[dst, n] := p;
      }
      assert Row(dst) == Squared(mat);
      forall k: nat | k < 64 && k != dst ensures Row(k) == old(Row(k)) {
      }
    }

    /** `init_combine_cache` for 64-bit CRCs. */
    method Init(poly: Word)
      requires cache.Length0 == 64 && cache.Length1 == 64
      modifies cache
      ensures Built(poly)
    {
      FirstRow(poly);
      OneBitAppends(poly);
      SquaredAppends(Row(1), poly, 1);
      SquareRow(0, 1);
      SquaredAppends(Row(0), poly, 2);
      SquareRow(1, 0);
      SquaredAppends(Row(1), poly, 4);
      SquareRow(0, 1);
      assert Power2(0) == 1;
      for cacheNum := 1 to 64
        invariant forall k: nat | k < cacheNum :: Appends(Row(k), poly, 8 * Power2(k))
      {
        SquaredAppends(Row(cacheNum - 1), poly, 8 * Power2(cacheNum - 1));
        SquareRow(cacheNum, cacheNum - 1);
        assert 8 * Power2(cacheNum) == 2 * (8 * Power2(cacheNum - 1));
      }
    }

    /** Fills row 1 with the matrix of a single zero bit. */
    method FirstRow(poly: Word)
      requires cache.Length0 == 64 && cache.Length1 == 64
      modifies cache
      ensures Row(1) == OneBit(poly)
    {
      cache[1, 0] := poly;
      var row := Unit(0);
      for n := 1 to 64
        invariant cache[1, 0] == poly
        invariant forall j | 1 <= j < n :: cache[1, j] == Unit(j - 1)
        invariant row == Unit(n - 1)
      {
        cache[1, n] := row;
        if n < 63 {
          assert Shl(Unit(n - 1), 1) == Unit(n);
        }
        row := Shl(row, 1);
      }
    }

    /** `crc64_combine` for 64-bit CRCs. */
    method Combine(crc1: Word, crc2: Word, len2: nat, poly: Word) returns (r: Word)
      requires Valid(poly)
      requires len2 < Power2(64)
      modifies cache
      ensures Valid(poly)
      ensures r == if len2 == 0 then crc1 else Xor(Zeros(poly, crc1, 8 * len2), crc2)
    {
      hide Xor, Zeros, Appends, Power2;
      if len2 == 0 {
        return crc1;
      }
      if cache[0, 0] == Zero() {
        Init(poly);
      }
      var crc := AppendZeroBytes(crc1, len2, poly);
      r := Xor(crc, crc2);
    }

    /** The loop of `crc64_combine`: one matrix for every bit of the length. */
    method AppendZeroBytes(crc1: Word, len2: nat, poly: Word) returns (crc: Word)
      requires cache.Length0 == 64 && cache.Length1 == 64 && Built(poly)
      requires len2 < Power2(64)
      ensures crc == Zeros(poly, crc1, 8 * len2)
    {
      hide Product, Zeros, ZeroBitCount, Power2, Appends;
      crc := crc1;
      var len: nat, cacheNum: nat := len2, 0;
      ghost var k: nat := 0;
      ZeroBitCountLaws(0, len);
      while len != 0
        invariant k <= 64 && cacheNum == k % 64
        invariant len < Power2(64 - k)
        invariant Zeros(poly, crc1, 8 * len2) == Zeros(poly, crc, ZeroBitCount(k, len))
        decreases len
      {
        HalfFits(len, 64 - k);
        ZeroBitCountLaws(k, len);
        if len % 2 == 1 {
          ProductAppends(Row(cacheNum), poly, 8 * Power2(k), crc);
          ZerosAdd(poly, crc, 8 * Power2(k), ZeroBitCount(k, len - 1));
          crc := Times(Row(cacheNum), crc);
        }
        len := len / 2;
        cacheNum := (cacheNum + 1) % 64;
        k := k + 1;
      }
      ZeroBitCountLaws(k, len);
      ZerosOfNone(poly, crc);
    }
  }

  lemma ZerosOfNone(poly: Word, x: Word)
    ensures Zeros(poly, x, 0) == x
  {
  }

  /** The zero bits still to append when `len` counts blocks of 2^k bytes. */
  function ZeroBitCount(k: nat, len: nat): nat {
    8 * Power2(k) * len
  }

  lemma ZeroBitCountLaws(k: nat, len: nat)
    ensures ZeroBitCount(0, len) == 8 * len && ZeroBitCount(k, 0) == 0
    ensures len > 0 ==> 8 * Power2(k) + ZeroBitCount(k, len - 1) == ZeroBitCount(k, len)
    ensures len % 2 == 0 ==> ZeroBitCount(k, len) == ZeroBitCount(k + 1, len / 2)
    ensures len % 2 == 1 ==> ZeroBitCount(k, len - 1) == ZeroBitCount(k + 1, len / 2)
  {
    assert Power2(0) == 1;
    TwiceAsWide(k, len / 2);
    if len > 0 {
      assert 8 * Power2(k) * len == 8 * Power2(k) * (len - 1) + 8 * Power2(k);
    }
  }

  lemma TwiceAsWide(k: nat, half: nat)
    ensures ZeroBitCount(k, 2 * half) == ZeroBitCount(k + 1, half)
  {
    assert Power2(k + 1) == 2 * Power2(k);
    assert 8 * Power2(k) * (2 * half) == 8 * (2 * Power2(k)) * half;
  }

  lemma HalfFits(len: nat, n: nat)
    requires 0 < len < Power2(n)
    ensures n > 0 && len / 2 < Power2(n - 1)
  {
  }

  /**
   Whatever the cache held before, combining the CRCs of two blocks gives the CRC of the
   two blocks in a row.
   */
  method CombineJoins(c: Combiner, a: array<Octet>, b: array<Octet>) returns (r: Word)
    requires c.Valid(Reflect(POLY))
    requires b.Length < Power2(64)
    modifies c.cache
    ensures c.Valid(Reflect(POLY))
    ensures r == Crc(a[..] + b[..])
  {
    hide Xor, Zeros, Reflect, Register, Combiner.Built;
    var crc1 := CrcBitByBit(Zero(), a);
    var crc2 := CrcBitByBit(Zero(), b);
    CrcOfConcatenation(a[..], b[..]);
    if b.Length == 0 {
      assert a[..] + b[..] == a[..];
    }
    r := c.Combine(crc1, crc2, b.Length, Reflect(POLY));
  }
}
