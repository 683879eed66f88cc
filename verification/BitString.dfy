/** Strings as bit sequences: bit 0 is the most significant bit of the first byte. */
module BitString {

  type Byte = b: seq<bool> | |b| == 8 witness [false, false, false, false, false, false, false, false]

  function Bits(s: seq<Byte>): (r: seq<bool>)
    ensures |r| == 8 * |s|
  {
    if s == [] then [] else Bits(s[..|s| - 1]) + s[|s| - 1]
  }

  lemma {:induction false} BitAt(s: seq<Byte>, i: nat)
    requires i < 8 * |s|
    ensures Bits(s)[i] == s[i / 8][i % 8]
  {
    var n := |s| - 1;
    if i < 8 * n {
      BitAt(s[..n], i);
    } else {
      assert i / 8 == n && i % 8 == i - 8 * n;
    }
  }

  lemma {:induction false} BitsAppend(a: seq<Byte>, b: seq<Byte>)
    ensures Bits(a + b) == Bits(a) + Bits(b)
  {
    if b == [] {
      assert a + b == a;
      assert Bits(a) + [] == Bits(a);
    } else {
      var n := |b| - 1;
      assert (a + b)[..|a| + n] == a + b[..n] && (a + b)[|a| + n] == b[n];
      BitsAppend(a, b[..n]);
      assert Bits(a) + (Bits(b[..n]) + b[n]) == Bits(a) + Bits(b[..n]) + b[n];
    }
  }

  /** The bits of a run of bytes are a run of bits. */
  lemma BitsOfPart(s: seq<Byte>, i: nat, j: nat)
    requires i <= j <= |s|
    ensures Bits(s[i..j]) == Bits(s)[8 * i..8 * j]
  {
    hide Bits;
    assert s == s[..j] + s[j..] && s[..j] == s[..i] + s[i..j];
    BitsAppend(s[..j], s[j..]);
    BitsAppend(s[..i], s[i..j]);
    var a, b, c := Bits(s[..i]), Bits(s[i..j]), Bits(s[j..]);
    assert (a + b + c)[|a|..|a| + |b|] == b;
  }

  /** The same with the bit positions named. */
  lemma BitsRun(s: seq<Byte>, i: nat, j: nat, a: nat, b: nat)
    requires i <= j <= |s| && a == 8 * i && b == 8 * j
    ensures b <= |Bits(s)| && Bits(s[i..j]) == Bits(s)[a..b] && |Bits(s[i..j])| == b - a
  {
    hide Bits;
    BitsOfPart(s, i, j);
  }

  lemma BitsOfOne(b: Byte)
    ensures Bits([b]) == b
  {
    assert [b][..0] == [];
  }

  // ------------------------------------------------------------------------ counting

  function CountTrue(bits: seq<bool>): nat {
    if bits == [] then 0 else CountTrue(bits[..|bits| - 1]) + if bits[|bits| - 1] then 1 else 0
  }

  lemma {:induction false} CountAppend(a: seq<bool>, b: seq<bool>)
    ensures CountTrue(a + b) == CountTrue(a) + CountTrue(b)
  {
    if b == [] {
      assert a + b == a;
    } else {
      var n := |b| - 1;
      assert (a + b)[..|a| + n] == a + b[..n];
      CountAppend(a, b[..n]);
    }
  }

  lemma {:induction false} CountNone(bits: seq<bool>)
    requires forall i | 0 <= i < |bits| :: !bits[i]
    ensures CountTrue(bits) == 0
  {
    if bits != [] {
      CountNone(bits[..|bits| - 1]);
    }
  }

  /** The number a bit sequence stands for, most significant bit first. */
  function Val(bits: seq<bool>): nat {
    if bits == [] then 0 else 2 * Val(bits[..|bits| - 1]) + if bits[|bits| - 1] then 1 else 0
  }

  /** The number of ones in the binary form of `n`. */
  function Pop(n: nat): nat {
    if n == 0 then 0 else n % 2 + Pop(n / 2)
  }

  lemma {:induction false} PopOfVal(bits: seq<bool>)
    ensures Pop(Val(bits)) == CountTrue(bits)
  {
    if bits != [] {
      PopOfVal(bits[..|bits| - 1]);
    }
  }
}
