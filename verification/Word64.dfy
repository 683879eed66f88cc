/**
 A 64-bit machine word as its 64 bits, least significant first, and as a vector over
 GF(2): `Xor` is addition, shifts move the bits and drop what leaves the word.
 */
module Word64 {
  import opened Basics

  type Word = s: seq<bool> | |s| == 64 witness seq(64, i => false)

  /** The word a 64-bit constant denotes. */
  function Constant(n: nat): Word {
    seq(64, i requires 0 <= i < 64 => n / Power2(i) % 2 == 1)
  }

  function Zero(): Word { seq(64, i => false) }

  function Xor(x: Word, y: Word): Word { seq(64, i requires 0 <= i < 64 => x[i] != y[i]) }

  function And(x: Word, y: Word): Word { seq(64, i requires 0 <= i < 64 => x[i] && y[i]) }

  function Or(x: Word, y: Word): Word { seq(64, i requires 0 <= i < 64 => x[i] || y[i]) }

  function Shl(x: Word, k: nat): Word
    requires k <= 64
  {
    seq(k, i => false) + x[..64 - k]
  }

  function Shr(x: Word, k: nat): Word
    requires k <= 64
  {
    x[k..] + seq(k, i => false)
  }

  /** The word with bit `i` alone set. */
  function Unit(i: nat): Word
    requires i < 64
  {
    seq(64, j => j == i)
  }

  lemma XorAssoc(x: Word, y: Word, z: Word)
    ensures Xor(Xor(x, y), z) == Xor(x, Xor(y, z))
  {
  }

  lemma XorSelf(x: Word)
    ensures Xor(x, x) == Zero()
    ensures Xor(x, Zero()) == x && Xor(Zero(), x) == x
  {
  }

  /** Adding the same word twice changes nothing. */
  lemma XorCancel(x: Word, y: Word)
    ensures Xor(Xor(x, y), y) == x
  {
  }

  /** Four summands may be regrouped pairwise. */
  lemma XorSwap(a: Word, b: Word, c: Word, d: Word)
    ensures Xor(Xor(a, b), Xor(c, d)) == Xor(Xor(a, c), Xor(b, d))
  {
  }
}
