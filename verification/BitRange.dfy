/** BITCOUNT and BITPOS over byte and bit ranges: clamping, edge masks and the search by words. */
module BitRange {
  import opened Basics
  import opened BitString
  import Popcount

  // -------------------------------------------------------------------------- ranges

  /** The first index of a range over `total` units, negative indexes counting from the end. */
  function From(start: int, total: nat): nat {
    if start >= 0 then start else if total + start < 0 then 0 else total + start
  }

  /** The last one: less than `total`, or -1. */
  function To(end: int, total: nat): (r: int)
    ensures -1 <= r < total
  {
    var e := if end >= 0 then end else if total + end < 0 then 0 else total + end;
    if e >= total then total - 1 else e
  }

  /** The bits a range stands for: from bit `lo` up to, not including, bit `hi`. */
  function Lo(s: seq<Byte>, start: int, isBit: bool): nat {
    if isBit then From(start, 8 * |s|) else 8 * From(start, |s|)
  }

  function Hi(s: seq<Byte>, end: int, isBit: bool): (r: nat)
    ensures r <= 8 * |s|
  {
    if isBit then To(end, 8 * |s|) + 1 else 8 * (To(end, |s|) + 1)
  }

  function Window(s: seq<Byte>, start: int, end: int, isBit: bool): seq<bool> {
    var lo, hi := Lo(s, start, isBit), Hi(s, end, isBit);
    if lo >= hi then [] else Bits(s)[lo..hi]
  }

  /**
   A unit lies in a range if it is between the two indexes, a negative one counting from the end.
   A last index before the string still selects the first unit.
   */
  predicate InRange(u: nat, start: int, end: int, total: nat) {
    && u < total && (if start < 0 then total + start else start) <= u
    && (u <= (if end < 0 then total + end else end) || (u == 0 && end < 0))
  }

  predicate Chosen(s: seq<Byte>, start: int, end: int, isBit: bool, p: nat) {
    if isBit then InRange(p, start, end, 8 * |s|) else InRange(p / 8, start, end, |s|)
  }

  lemma WindowIs(s: seq<Byte>, start: int, end: int, isBit: bool, p: nat)
    ensures Lo(s, start, isBit) <= p < Hi(s, end, isBit) <==> Chosen(s, start, end, isBit, p)
  {
  }

  /** A range that ends before the string is not empty: it is the first unit. */
  lemma RangeBeforeString(s: seq<Byte>, start: int, end: int, isBit: bool, p: nat)
    requires s != [] && start <= end < -(8 * |s|)
    ensures Chosen(s, start, end, isBit, p) <==> p < if isBit then 1 else 8
  {
  }

  /** The set bits of a range. */
  function Ones(s: seq<Byte>, start: int, end: int, isBit: bool): set<nat> {
    set p: nat | p < 8 * |s| && s[p / 8][p % 8] && Chosen(s, start, end, isBit, p)
  }

  function SetBetween(bits: seq<bool>, lo: nat, hi: nat): set<nat>
    requires hi <= |bits|
  {
    set p: nat | lo <= p < hi && bits[p]
  }

  lemma {:induction false} CountIsCard(bits: seq<bool>, lo: nat, hi: nat)
    requires lo <= hi <= |bits|
    ensures CountTrue(bits[lo..hi]) == |SetBetween(bits, lo, hi)|
    decreases hi
  {
    if lo == hi {
      assert SetBetween(bits, lo, hi) == {};
    } else {
      CountIsCard(bits, lo, hi - 1);
      OneMoreCounted(bits, lo, hi);
      OneMoreSet(bits, lo, hi);
      hide SetBetween, CountTrue;
    }
  }

  lemma OneMoreCounted(bits: seq<bool>, lo: nat, hi: nat)
    requires lo < hi <= |bits|
    ensures CountTrue(bits[lo..hi]) == CountTrue(bits[lo..hi - 1]) + if bits[hi - 1] then 1 else 0
  {
    assert bits[lo..hi][..hi - 1 - lo] == bits[lo..hi - 1];
  }

  lemma OneMoreSet(bits: seq<bool>, lo: nat, hi: nat)
    requires lo < hi <= |bits|
    ensures |SetBetween(bits, lo, hi)| == |SetBetween(bits, lo, hi - 1)| + if bits[hi - 1] then 1 else 0
  {
    var less := SetBetween(bits, lo, hi - 1);
    assert SetBetween(bits, lo, hi) == if bits[hi - 1] then less + {hi - 1} else less;
  }

  /** The ones of a window are the set bits of the range, each once. */
  lemma WindowCounts(s: seq<Byte>, start: int, end: int, isBit: bool)
    ensures CountTrue(Window(s, start, end, isBit)) == |Ones(s, start, end, isBit)|
  {
    hide Bits, Chosen, CountTrue;
    var lo, hi := Lo(s, start, isBit), Hi(s, end, isBit);
    hide Lo, Hi;
    forall p: nat ensures lo <= p < hi <==> Chosen(s, start, end, isBit, p) {
      WindowIs(s, start, end, isBit, p);
    }
    forall p: nat | p < 8 * |s| ensures Bits(s)[p] == s[p / 8][p % 8] {
      BitAt(s, p);
    }
    if lo >= hi {
      NoneCounted();
      assert Ones(s, start, end, isBit) == {};
    } else {
      CountIsCard(Bits(s), lo, hi);
      assert SetBetween(Bits(s), lo, hi) == Ones(s, start, end, isBit);
    }
  }

  // --------------------------------------------------------------------------- masks

  /** ~((1 << (8 - k)) - 1) & 0xFF: the first `k` bits of a byte. */
  function FirstMask(k: nat): Byte
    requires k < 8
  {
    seq(8, i => i < k)
  }

  /** (1 << (7 - k)) - 1: the bits after bit `k`. */
  function LastMask(k: nat): Byte
    requires k < 8
  {
    seq(8, i => i > k)
  }

  function And(a: Byte, b: Byte): Byte {
    seq(8, i requires 0 <= i < 8 => a[i] && b[i])
  }

  function Or(a: Byte, b: Byte): Byte {
    seq(8, i requires 0 <= i < 8 => a[i] || b[i])
  }

  function Not(a: Byte): Byte {
    seq(8, i requires 0 <= i < 8 => !a[i])
  }

  function Zero(): Byte {
    seq(8, i => false)
  }

  /** The masks as numbers: the expressions of the original. */
  lemma MaskValues(k: nat)
    requires k < 8
    ensures Val(FirstMask(k)) == 256 - Power2(8 - k)
    ensures Val(LastMask(k)) == Power2(7 - k) - 1
  {
    FirstMaskValue(k);
    LastMaskValue(k);
  }

  lemma FirstMaskValue(k: nat)
    requires k < 8
    ensures Val(FirstMask(k)) == 256 - Power2(8 - k)
  {
    hide Val, Power2;
    var ones, zeros := seq(k, i => true), seq(8 - k, i => false);
    assert FirstMask(k) == ones + zeros;
    ValOnes(ones);
    ValShift(ones, zeros);
    PowerSum(k, 8 - k);
    assert Power2(8) == 256 by { Power8(); }
    LessOne(Power2(k), Power2(8 - k));
  }

  lemma LessOne(a: nat, b: nat)
    requires a >= 1
    ensures (a - 1) * b == a * b - b
  {
  }

  lemma Power8()
    ensures Power2(8) == 256
  {
  }

  lemma LastMaskValue(k: nat)
    requires k < 8
    ensures Val(LastMask(k)) == Power2(7 - k) - 1
  {
    hide Val, Power2;
    var z, o := seq(k + 1, i => false), seq(7 - k, i => true);
    assert LastMask(k) == z + o;
    ValLeadingZeros(z, o);
    ValOnes(o);
  }

  lemma {:induction false} PowerSum(a: nat, b: nat)
    ensures Power2(a) * Power2(b) == Power2(a + b)
  {
    if a > 0 {
      PowerSum(a - 1, b);
    }
  }

  lemma {:induction false} ValOnes(bits: seq<bool>)
    requires forall i | 0 <= i < |bits| :: bits[i]
    ensures Val(bits) == Power2(|bits|) - 1 && Power2(|bits|) >= 1
  {
    if bits != [] {
      ValOnes(bits[..|bits| - 1]);
    }
  }

  lemma {:induction false} ValShift(bits: seq<bool>, zeros: seq<bool>)
    requires forall i | 0 <= i < |zeros| :: !zeros[i]
    ensures Val(bits + zeros) == Val(bits) * Power2(|zeros|)
  {
    if zeros == [] {
      assert bits + zeros == bits;
    } else {
      var n := |zeros| - 1;
      assert (bits + zeros)[..|bits| + n] == bits + zeros[..n];
      ValShift(bits, zeros[..n]);
    }
  }

  lemma {:induction false} ValLeadingZeros(zeros: seq<bool>, bits: seq<bool>)
    requires forall i | 0 <= i < |zeros| :: !zeros[i]
    ensures Val(zeros + bits) == Val(bits)
  {
    if bits != [] {
      var n := |bits| - 1;
      assert (zeros + bits)[..|zeros| + n] == zeros + bits[..n];
      ValLeadingZeros(zeros, bits[..n]);
    } else {
      assert zeros + bits == zeros;
      ValZeros(zeros);
    }
  }

  lemma {:induction false} ValZeros(zeros: seq<bool>)
    requires forall i | 0 <= i < |zeros| :: !zeros[i]
    ensures Val(zeros) == 0
  {
    if zeros != [] {
      ValZeros(zeros[..|zeros| - 1]);
    }
  }

  // ------------------------------------------------------------------------ BITCOUNT

  lemma CountFirst(b: Byte, k: nat)
    requires k < 8
    ensures CountTrue(And(b, FirstMask(k))) == CountTrue(b[..k])
  {
    var rest := seq(8 - k, i => false);
    assert And(b, FirstMask(k)) == b[..k] + rest;
    CountAppend(b[..k], rest);
    CountNone(rest);
  }

  lemma CountLast(b: Byte, k: nat)
    requires k < 8
    ensures CountTrue(And(b, LastMask(k))) == CountTrue(b[k + 1..])
  {
    var rest := seq(k + 1, i => false);
    assert And(b, LastMask(k)) == rest + b[k + 1..];
    CountAppend(rest, b[k + 1..]);
    CountNone(rest);
  }

  lemma NoMask(b: Byte)
    ensures And(b, FirstMask(0)) == Zero() && And(b, LastMask(7)) == Zero()
    ensures CountTrue(Zero()) == 0
  {
    CountNone(Zero());
  }

  /** The bytes that a bit range touches are the bits before it, the range and the bits after it. */
  lemma SplitBytes(s: seq<Byte>, i: nat, k: nat, j: nat, l: nat, a: nat, b: nat)
    requires i <= j < |s| && k < 8 && l < 8 && a == 8 * i && b == 8 * j && a + k <= b + l
    ensures b + 8 <= |Bits(s)|
    ensures Bits(s[i..j + 1]) == s[i][..k] + Bits(s)[a + k..b + l + 1] + s[j][l + 1..]
  {
    hide Bits;
    BitsRun(s, i, j + 1, a, b + 8);
    NamedByte(s, i, a);
    NamedByte(s, j, b);
    var all := Bits(s);
    CutFirst(all, a, k, b + 8, s[i]);
    CutLast(all, a + k, b, l, s[j]);
    Regroup(s[i][..k], all[a + k..b + l + 1], s[j][l + 1..]);
  }

  lemma Regroup(a: seq<bool>, b: seq<bool>, c: seq<bool>)
    ensures a + (b + c) == a + b + c
  {
  }

  lemma CutFirst(all: seq<bool>, a: nat, k: nat, e: nat, first: Byte)
    requires a + 8 <= e <= |all| && k < 8 && first == all[a..a + 8]
    ensures all[a..e] == first[..k] + all[a + k..e]
  {
    assert first[..k] == all[a..a + k];
  }

  lemma CutLast(all: seq<bool>, from: nat, b: nat, l: nat, last: Byte)
    requires b + 8 <= |all| && l < 8 && from <= b + l && last == all[b..b + 8]
    ensures all[from..b + 8] == all[from..b + l + 1] + last[l + 1..]
  {
    assert last[l + 1..] == all[b + l + 1..b + 8];
  }

  lemma NamedByte(s: seq<Byte>, i: nat, a: nat)
    requires i < |s| && a == 8 * i
    ensures a + 8 <= |Bits(s)| && Bits(s)[a..a + 8] == s[i]
  {
    hide Bits;
    BitsRun(s, i, i + 1, a, a + 8);
    BitsOfOne(s[i]);
    assert s[i..i + 1] == [s[i]];
  }

  lemma CountThree(a: seq<bool>, b: seq<bool>, c: seq<bool>)
    ensures CountTrue(a + b + c) == CountTrue(a) + CountTrue(b) + CountTrue(c)
  {
    CountAppend(a + b, c);
    CountAppend(a, b);
  }

  lemma CountPair(a: Byte, b: Byte)
    ensures CountTrue(Bits([a, b])) == CountTrue(a) + CountTrue(b)
  {
    assert [a, b] == [a] + [b];
    BitsAppend([a], [b]);
    BitsOfOne(a);
    BitsOfOne(b);
    CountAppend(a, b);
  }

  /** The bit branch after clamping: whole bytes, less what the edge masks select. */
  method CountBits(s: seq<Byte>, address: nat, lo: nat, hi: nat) returns (count: int)
    requires lo <= hi < 8 * |s|
    ensures count == CountTrue(Bits(s)[lo..hi + 1])
  {
    hide Bits, CountTrue;
    var firstMask, lastMask := FirstMask(lo % 8), LastMask(hi % 8);
    var start, end := lo / 8, hi / 8;
    count := Popcount.RedisPopcount(s[start..end + 1], address + start);
    ghost var a, b := 8 * start, 8 * end;
    assert lo == a + lo % 8 && hi == b + hi % 8;
    SplitBytes(s, start, lo % 8, end, hi % 8, a, b);
    CountThree(s[start][..lo % 8], Bits(s)[lo..hi + 1], s[end][hi % 8 + 1..]);
    CountFirst(s[start], lo % 8);
    CountLast(s[end], hi % 8);
    NoMask(s[start]);
    NoMask(s[end]);
    if firstMask != Zero() || lastMask != Zero() {
      var first, last := Zero(), Zero();
      if firstMask != Zero() {
        first := And(s[start], firstMask);
      }
      if lastMask != Zero() {
        last := And(s[end], lastMask);
      }
      MaskedOff(s[start], firstMask);
      MaskedOff(s[end], lastMask);
      var outside := Popcount.RedisPopcount([first, last], 0);
      CountPair(first, last);
      count := count - outside;
    } else {
      MaskedOff(s[start], firstMask);
      MaskedOff(s[end], lastMask);
    }
  }

  lemma MaskedOff(b: Byte, mask: Byte)
    ensures mask == Zero() ==> And(b, mask) == Zero()
  {
  }

  /** The conversion of negative and too large indexes. */
  method Clamp(start: int, end: int, total: nat) returns (first: nat, last: int)
    ensures first == From(start, total) && last == To(end, total)
  {
    var f := if start < 0 then total + start else start;
    last := if end < 0 then total + end else end;
    if f < 0 {
      f := 0;
    }
    if last < 0 {
      last := 0;
    }
    if last >= total {
      last := total - 1;
    }
    first := f;
  }

  /** BITCOUNT key start end [BYTE|BIT]; a missing key is the empty string. */
  method Bitcount(s: seq<Byte>, address: nat, start: int, end: int, isBit: bool) returns (count: int)
    ensures start < 0 && end < 0 && start > end ==> count == 0
    ensures !(start < 0 && end < 0 && start > end) ==> count == |Ones(s, start, end, isBit)|
  {
    hide Bits, CountTrue, Ones;
    WindowCounts(s, start, end, isBit);
    if start < 0 && end < 0 && start > end {
      return 0;
    }
    var total := if isBit then 8 * |s| else |s|;
    var first, last := Clamp(start, end, total);
    NoneCounted();
    if first > last {
      return 0;
    }
    if isBit {
      count := CountBits(s, address, first, last);
    } else {
      count := Popcount.RedisPopcount(s[first..last + 1], address + first);
      BitsOfPart(s, first, last + 1);
    }
  }

  lemma NoneCounted()
    ensures CountTrue([]) == 0
  {
  }
}
