/** BITPOS: the word-skipping search of `redisBitpos` and the three-part search of the command. */
module Bitpos {
  import opened BitString
  import opened BitRange
  import opened Basics

  /** The first position holding `bit`, or the length if there is none. */
  function Scan(bits: seq<bool>, bit: bool): (r: nat)
    ensures r <= |bits| && (r < |bits| ==> bits[r] == bit)
    ensures forall i | 0 <= i < r :: bits[i] != bit
  {
    if bits == [] || bits[0] == bit then 0
    else
      var r := 1 + Scan(bits[1..], bit);
      assert forall i | 0 < i < r :: bits[i] == bits[1..][i - 1];
      r
  }

  predicate Lacks(bits: seq<bool>, bit: bool) {
    forall i | 0 <= i < |bits| :: bits[i] != bit
  }

  /** The position with those two properties is the one the scan finds. */
  lemma ScanIs(bits: seq<bool>, bit: bool, r: nat)
    requires r <= |bits| && (r < |bits| ==> bits[r] == bit) && forall i | 0 <= i < r :: bits[i] != bit
    ensures Scan(bits, bit) == r
  {
  }

  lemma ScanAppend(a: seq<bool>, b: seq<bool>, bit: bool)
    ensures Scan(a + b, bit) == if Scan(a, bit) < |a| then Scan(a, bit) else |a| + Scan(b, bit)
  {
    hide Scan;
    var r := if Scan(a, bit) < |a| then Scan(a, bit) else |a| + Scan(b, bit);
    forall i | 0 <= i < r ensures (a + b)[i] != bit {
      if i >= |a| {
        assert (a + b)[i] == b[i - |a|];
      } else {
        assert i < Scan(a, bit);
      }
    }
    ScanIs(a + b, bit, r);
  }

  /** `redisBitpos` as a result: -1 when a one is sought and there is none; zeros follow the string. */
  function Answer(bits: seq<bool>, bit: bool): int {
    if bit && Scan(bits, bit) == |bits| then -1 else Scan(bits, bit)
  }

  // -------------------------------------------------------------------- redisBitpos

  function Fill(n: nat, b: bool): (r: seq<bool>)
    ensures |r| == n
  {
    seq(n, i => b)
  }

  lemma AllIsFill(bits: seq<bool>, b: bool)
    ensures AllAre(bits, b) <==> bits == Fill(|bits|, b)
  {
  }

  predicate AllAre(bits: seq<bool>, b: bool) {
    forall i | 0 <= i < |bits| :: bits[i] == b
  }

  /** What is left after `i` bytes that do not hold the bit. */
  ghost predicate Skipped(s: seq<Byte>, bit: bool, i: nat) {
    i <= |s| && Lacks(Bits(s[..i]), bit)
  }

  lemma SkipByte(s: seq<Byte>, bit: bool, i: nat)
    requires Skipped(s, bit, i) && i < |s| && AllAre(s[i], !bit)
    ensures Skipped(s, bit, i + 1)
  {
    hide Bits;
    assert s[..i + 1] == s[..i] + [s[i]];
    BitsAppend(s[..i], [s[i]]);
    BitsOfOne(s[i]);
  }

  lemma {:induction false} SkipBytes(s: seq<Byte>, bit: bool, i: nat, n: nat)
    requires Skipped(s, bit, i) && i + n <= |s| && AllAre(Bits(s[i..i + n]), !bit)
    ensures Skipped(s, bit, i + n)
  {
    hide Bits;
    assert s[..i + n] == s[..i] + s[i..i + n];
    BitsAppend(s[..i], s[i..i + n]);
  }

  /** Reading up to eight bytes, the first one most significant, zeros after the end. */
  method LoadWord(s: seq<Byte>, i: nat) returns (word: seq<bool>)
    requires i <= |s|
    ensures |word| == 64
    ensures
      var n := if |s| - i < 8 then |s| - i else 8;
      word[..8 * n] == Bits(s[i..i + n]) && AllAre(word[8 * n..], false)
  {
    hide Loading, Bits, Fill;
    word := Fill(64, false);
    var c := i;
    LoadStarts(s, i);
    for j := 0 to 8
      invariant i <= c <= |s| && Loading(s, i, c, j, word)
    {
      LoadStep(s, i, c, j, word);
      WordSize(s, i, c, j, word);
      word := word[8..] + if c < |s| then s[c] else Zero();
      if c < |s| {
        c := c + 1;
      }
    }
    LoadEnds(s, i, c, word);
    WordSize(s, i, c, 8, word);
  }

  lemma WordSize(s: seq<Byte>, i: nat, c: nat, j: nat, word: seq<bool>)
    requires Loading(s, i, c, j, word)
    ensures |word| == 64
  {
  }

  /** After `j` turns the last bytes of the word are those read, then zeros. */
  ghost predicate Loading(s: seq<Byte>, i: nat, c: nat, j: nat, word: seq<bool>) {
    && i <= c <= |s| && j <= 8 && |word| == 64
    && c - i <= j && (c - i < j ==> c == |s|)
    && word[64 - 8 * j..] == Bits(s[i..c]) + Zeros(8 * j - 8 * (c - i))
  }

  lemma LoadStarts(s: seq<Byte>, i: nat)
    requires i <= |s|
    ensures Loading(s, i, i, 0, Fill(64, false))
  {
    NoBits(s, i);
  }

  lemma LoadStep(s: seq<Byte>, i: nat, c: nat, j: nat, word: seq<bool>)
    requires Loading(s, i, c, j, word) && j < 8
    ensures
      var next := if c < |s| then s[c] else Zero();
      Loading(s, i, if c < |s| then c + 1 else c, j + 1, word[8..] + next)
  {
    hide Bits;
    var next := if c < |s| then s[c] else Zero();
    var got := Bits(s[i..c]);
    assert |got| == 8 * (c - i);
    Shifted(word, j, next);
    PadGrows(got, 8 * j, next, c < |s|);
    if c < |s| {
      Grown(s, i, c);
    }
  }

  lemma LoadEnds(s: seq<Byte>, i: nat, c: nat, word: seq<bool>)
    requires Loading(s, i, c, 8, word)
    ensures
      var n := if |s| - i < 8 then |s| - i else 8;
      c == i + n && word[..8 * n] == Bits(s[i..i + n]) && AllAre(word[8 * n..], false)
  {
    hide Bits;
    assert word[0..] == word;
    Padded(word, Bits(s[i..c]));
  }

  lemma Shifted(word: seq<bool>, j: nat, b: Byte)
    requires |word| == 64 && j < 8
    ensures (word[8..] + b)[64 - 8 * (j + 1)..] == word[64 - 8 * j..] + b
  {
  }

  lemma PadGrows(got: seq<bool>, n: nat, next: Byte, inside: bool)
    requires |got| <= n && (inside ==> |got| == n) && (!inside ==> next == Zero())
    ensures got + Zeros(n - |got|) + next == if inside then got + next + Zeros(0) else got + Zeros(n + 8 - |got|)
  {
  }

  lemma Padded(word: seq<bool>, got: seq<bool>)
    requires |word| == 64 && |got| <= 64 && word == got + Zeros(64 - |got|)
    ensures word[..|got|] == got && AllAre(word[|got|..], false)
  {
  }

  function Zeros(n: int): seq<bool> {
    if n <= 0 then [] else seq(n, i => false)
  }

  lemma NoBits(s: seq<Byte>, i: nat)
    requires i <= |s|
    ensures Bits(s[i..i]) == []
  {
  }

  lemma Grown(s: seq<Byte>, i: nat, c: nat)
    requires i <= c < |s|
    ensures Bits(s[i..c + 1]) == Bits(s[i..c]) + s[c]
  {
    hide Bits;
    assert s[i..c + 1] == s[i..c] + [s[c]];
    BitsAppend(s[i..c], [s[c]]);
    BitsOfOne(s[c]);
  }

  /** `redisBitpos` for a string that starts at `address`. */
  method RedisBitpos(s: seq<Byte>, address: nat, bit: bool) returns (pos: int)
    ensures pos == Answer(Bits(s), bit)
  {
    hide Bits, Scan, Skipped, Fill, Answer, Stopped;
    var i := 0;
    var found := false;
    NothingSkipped(s, bit);
    while !found && (address + i) % 8 != 0 && i < |s|
      invariant 0 <= i <= |s| && Skipped(s, bit, i)
      invariant found ==> i < |s| && !AllAre(s[i], !bit)
      decreases |s| - i, if found then 0 else 1
    {
      OtherByte(s[i], bit);
      if s[i] != Fill(8, !bit) {
        found := true;
      } else {
        SkipByte(s, bit, i);
        i := i + 1;
      }
    }
    if !found {
      while |s| - i >= 8 && Bits(s[i..i + 8]) == Fill(64, !bit)
        invariant 0 <= i <= |s| && Skipped(s, bit, i)
        decreases |s| - i
      {
        AllIsFill(Bits(s[i..i + 8]), !bit);
        SkipBytes(s, bit, i, 8);
        i := i + 8;
      }
    }
    StopsHere(s, bit, i, found);
    var word := LoadWord(s, i);
    ghost var n := if |s| - i < 8 then |s| - i else 8;
    AllIsFill(word, false);
    if bit && word == Fill(64, false) {
      NoOneLeft(s, i, n, word);
      return -1;
    }
    WordHas(s, bit, i, n, word);
    var j := 0;
    while word[j] != bit
      invariant 0 <= j < 64 && forall k | 0 <= k < j :: word[k] != bit
      decreases 64 - j
    {
      MoreToCome(word, bit, j);
      j := j + 1;
    }
    FoundInWord(s, bit, i, n, word, j);
    pos := 8 * i + j;
  }

  /** Where the skipping loops stop: fewer than eight bytes left, or the bit is in the next eight. */
  ghost predicate Stopped(s: seq<Byte>, bit: bool, i: nat)
    requires i <= |s|
  {
    |s| - i < 8 || !AllAre(Bits(s[i..i + 8]), !bit)
  }

  lemma StopsHere(s: seq<Byte>, bit: bool, i: nat, found: bool)
    requires i <= |s| && (found ==> i < |s| && !AllAre(s[i], !bit))
    requires !found ==> |s| - i < 8 || Bits(s[i..i + 8]) != Fill(64, !bit)
    ensures Stopped(s, bit, i)
  {
    hide Bits;
    if |s| - i >= 8 {
      AllIsFill(Bits(s[i..i + 8]), !bit);
      if found {
        NamedByte(s[i..i + 8], 0, 0);
        ByteInWord(Bits(s[i..i + 8]), s[i], !bit);
      }
    }
  }

  lemma ByteInWord(w: seq<bool>, b: Byte, v: bool)
    requires |w| >= 8 && w[0..8] == b && !AllAre(b, v)
    ensures !AllAre(w, v)
  {
    var k :| 0 <= k < 8 && b[k] != v;
    assert w[0..8][k] == w[k];
  }

  /** The word read at `i`. */
  ghost predicate Loaded(s: seq<Byte>, i: nat, n: nat, word: seq<bool>) {
    && i <= |s| && n == (if |s| - i < 8 then |s| - i else 8) && |word| == 64
    && word[..8 * n] == Bits(s[i..i + n]) && AllAre(word[8 * n..], false)
  }

  /** The bits of the string: skipped ones, those in the word, the rest. */
  lemma ThreeParts(s: seq<Byte>, i: nat, n: nat, word: seq<bool>)
    requires Loaded(s, i, n, word)
    ensures Bits(s) == Bits(s[..i]) + word[..8 * n] + Bits(s[i + n..])
  {
    hide Bits;
    assert s == s[..i] + s[i..i + n] + s[i + n..];
    BitsAppend(s[..i] + s[i..i + n], s[i + n..]);
    BitsAppend(s[..i], s[i..i + n]);
  }

  lemma NoOneLeft(s: seq<Byte>, i: nat, n: nat, word: seq<bool>)
    requires Loaded(s, i, n, word) && Skipped(s, true, i) && Stopped(s, true, i) && AllAre(word, false)
    ensures Answer(Bits(s), true) == -1
  {
    hide Bits, Scan;
    ThreeParts(s, i, n, word);
    assert AllAre(word[..8 * n], false);
    assert n < 8;
    assert s[i + n..] == [];
    NoBits(s, |s|);
    assert s[|s|..|s|] == [];
    assert Bits(s) == Bits(s[..i]) + word[..8 * n];
    ScanIs(Bits(s), true, |Bits(s)|);
  }

  lemma WordHas(s: seq<Byte>, bit: bool, i: nat, n: nat, word: seq<bool>)
    requires Loaded(s, i, n, word) && Stopped(s, bit, i) && (bit ==> word != Fill(64, false))
    ensures exists k :: 0 <= k < 64 && word[k] == bit
  {
    hide Bits;
    AllIsFill(word, false);
    if bit {
      var k :| 0 <= k < 64 && word[k] != false;
    } else if n < 8 {
      assert word[8 * n..][0] == word[8 * n];
    } else {
      assert word[..64] == word;
    }
  }

  lemma MoreToCome(word: seq<bool>, bit: bool, j: nat)
    requires |word| == 64 && j < 64 && (forall k | 0 <= k <= j :: word[k] != bit) && exists k :: 0 <= k < 64 && word[k] == bit
    ensures j + 1 < 64
  {
  }

  lemma FoundInWord(s: seq<Byte>, bit: bool, i: nat, n: nat, word: seq<bool>, j: nat)
    requires Loaded(s, i, n, word) && Skipped(s, bit, i)
    requires j < 64 && word[j] == bit && forall k | 0 <= k < j :: word[k] != bit
    ensures Answer(Bits(s), bit) == 8 * i + j
  {
    hide Bits, Scan;
    ThreeParts(s, i, n, word);
    if j < 8 * n {
      FoundInside(Bits(s[..i]), word, 8 * n, Bits(s[i + n..]), bit, j);
    } else {
      FoundPast(word, 8 * n, bit, j);
      assert s[i + n..] == [];
      NoBits(s, |s|);
      assert s[|s|..|s|] == [];
      assert Bits(s[..i]) + word[..8 * n] + [] == Bits(s[..i]) + word[..8 * n];
      NowhereBefore(Bits(s[..i]), word[..8 * n], bit);
    }
  }

  lemma FoundInside(skipped: seq<bool>, word: seq<bool>, n: nat, rest: seq<bool>, bit: bool, j: nat)
    requires Lacks(skipped, bit) && j < n <= |word| && word[j] == bit && forall k | 0 <= k < j :: word[k] != bit
    ensures Answer(skipped + word[..n] + rest, bit) == |skipped| + j
  {
    hide Scan;
    ScanIs(skipped + word[..n] + rest, bit, |skipped| + j);
  }

  lemma FoundPast(word: seq<bool>, n: nat, bit: bool, j: nat)
    requires n <= j < |word| && AllAre(word[n..], false) && word[j] == bit && forall k | 0 <= k < j :: word[k] != bit
    ensures !bit && j == n && Lacks(word[..n], bit)
  {
    assert word[n..][j - n] == word[j];
    assert word[n..][0] == word[n];
  }

  lemma NowhereBefore(a: seq<bool>, b: seq<bool>, bit: bool)
    requires Lacks(a, bit) && Lacks(b, bit) && !bit
    ensures Answer(a + b, bit) == |a| + |b|
  {
    hide Scan;
    ScanIs(a + b, bit, |a| + |b|);
  }

  lemma NothingSkipped(s: seq<Byte>, bit: bool)
    ensures Skipped(s, bit, 0)
  {
  }

  lemma OtherByte(b: Byte, bit: bool)
    ensures AllAre(b, !bit) <==> b == Fill(8, !bit)
  {
    AllIsFill(b, !bit);
  }

  // -------------------------------------------------------------------- the command

  /** What BITPOS answers for the bits `m` that start at bit `base` of the string. */
  function Result(base: nat, m: seq<bool>, bit: bool, endGiven: bool): int {
    if Scan(m, bit) < |m| then base + Scan(m, bit)
    else if bit || endGiven then -1
    else base + |m|
  }

  /** A byte with the bits before `k` and after `l` made uninteresting. */
  function Masked(b: Byte, k: nat, l: nat, bit: bool): Byte {
    seq(8, i requires 0 <= i < 8 => if i < k || i > l then !bit else b[i])
  }

  /** The edge expressions of the original. */
  lemma MaskedFirst(b: Byte, k: nat, bit: bool)
    requires k < 8
    ensures (if bit then And(b, Not(FirstMask(k))) else Or(b, FirstMask(k))) == Masked(b, k, 7, bit)
    ensures FirstMask(k) == Zero() <==> k == 0
  {
    assert k > 0 ==> FirstMask(k)[0] && !Zero()[0];
  }

  lemma MaskedLast(b: Byte, k: nat, l: nat, bit: bool)
    requires l < 8
    ensures
      var m := Masked(b, k, 7, bit);
      (if bit then And(m, Not(LastMask(l))) else Or(m, LastMask(l))) == Masked(b, k, l, bit)
    ensures LastMask(l) == Zero() <==> l == 7
    ensures Masked(b, 0, 7, bit) == b
  {
    assert l < 7 ==> LastMask(l)[7] && !Zero()[7];
  }

  /** The answer for one searched part, as the code adjusts it. */
  function Adjusted(pos: int, base: nat, size: nat, bit: bool, endGiven: bool): int {
    if endGiven && !bit && pos == size then -1 else if pos != -1 then pos + base else pos
  }

  lemma LastPart(base: nat, m: seq<bool>, bit: bool, endGiven: bool)
    ensures Adjusted(Answer(m, bit), base, |m|, bit, endGiven) == Result(base, m, bit, endGiven)
  {
  }

  /** Found in the first of two parts, or not there at all. */
  lemma FirstOfTwo(base: nat, a: seq<bool>, b: seq<bool>, bit: bool, endGiven: bool, size: nat)
    requires size > |a| && b != []
    ensures
      var pos := Answer(a, bit);
      if pos != -1 && pos != |a|
      then Adjusted(pos, base, size, bit, endGiven) == Result(base, a + b, bit, endGiven)
      else Result(base, a + b, bit, endGiven) == Result(base + |a|, b, bit, endGiven)
  {
    hide Scan;
    ScanAppend(a, b, bit);
  }

  /** The searched bits: the masked first byte, whole bytes, the masked last byte. */
  ghost function Searched(s: seq<Byte>, start: nat, end: nat, k: nat, l: nat, bit: bool): seq<bool>
    requires start <= end < |s| && k < 8 && l < 8
  {
    if start == end then Masked(s[start], k, l, bit)
    else Masked(s[start], k, 7, bit) + Bits(s[start + 1..end]) + Masked(s[end], 0, l, bit)
  }

  /** The middle and the end, once the first byte is done with. */
  ghost function AfterFirst(s: seq<Byte>, start: nat, end: nat, l: nat, bit: bool): seq<bool>
    requires start <= end < |s| && l < 8
  {
    Bits(s[start..end]) + Masked(s[end], 0, l, bit)
  }

  method FindFrom(s: seq<Byte>, address: nat, start: nat, end: nat, l: nat, bit: bool, endGiven: bool) returns (answer: int)
    requires start <= end < |s| && l < 8
    ensures answer == Result(8 * start, AfterFirst(s, start, end, l, bit), bit, endGiven)
  {
    hide Bits, Result, Answer, Masked, Scan;
    var bytes := end - start + 1;
    var lastMask := LastMask(l);
    var cur := if lastMask != Zero() then bytes - 1 else bytes;
    MaskedLast(s[end], 0, l, bit);
    ghost var last := Masked(s[end], 0, l, bit);
    ghost var middle := Bits(s[start..end]);
    var from := start;
    if cur > 0 {
      var pos := RedisBitpos(s[start..start + cur], address + start, bit);
      if bytes == cur || (pos != -1 && pos != 8 * cur) {
        answer := Adjusted(pos, 8 * start, 8 * bytes, bit, endGiven);
        if bytes == cur {
          WholeEnd(s, start, end);
          LastPart(8 * start, middle + s[end], bit, endGiven);
        } else {
          FirstOfTwo(8 * start, middle, last, bit, endGiven, 8 * bytes);
        }
        return;
      }
      FirstOfTwo(8 * start, middle, last, bit, endGiven, 8 * bytes);
      from := start + cur;
    } else {
      NoBits(s, start);
      assert middle + last == last;
    }
    var tmp := if bit then And(s[end], Not(lastMask)) else Or(s[end], lastMask);
    var pos := RedisBitpos([tmp], 0, bit);
    BitsOfOne(tmp);
    LastPart(8 * end, last, bit, endGiven);
    answer := Adjusted(pos, 8 * from, 8, bit, endGiven);
  }

  lemma WholeEnd(s: seq<Byte>, start: nat, end: nat)
    requires start <= end < |s|
    ensures Bits(s[start..end + 1]) == Bits(s[start..end]) + s[end]
  {
    Grown(s, start, end);
  }

  method FindMasked(s: seq<Byte>, address: nat, start: nat, end: nat, k: nat, l: nat, bit: bool, endGiven: bool)
    returns (answer: int)
    requires start <= end < |s| && k < 8 && l < 8
    ensures answer == Result(8 * start, Searched(s, start, end, k, l, bit), bit, endGiven)
  {
    hide Bits, Result, Answer, Masked, Scan;
    var bytes := end - start + 1;
    var firstMask, lastMask := FirstMask(k), LastMask(l);
    MaskedFirst(s[start], k, bit);
    MaskedLast(s[start], k, l, bit);
    MaskedLast(s[start], 0, 7, bit);
    if firstMask != Zero() {
      var tmp := if bit then And(s[start], Not(firstMask)) else Or(s[start], firstMask);
      if lastMask != Zero() && bytes == 1 {
        tmp := if bit then And(tmp, Not(lastMask)) else Or(tmp, lastMask);
      }
      var pos := RedisBitpos([tmp], 0, bit);
      BitsOfOne(tmp);
      if bytes == 1 || (pos != -1 && pos != 8) {
        answer := Adjusted(pos, 8 * start, 8 * bytes, bit, endGiven);
        if bytes == 1 {
          LastPart(8 * start, tmp, bit, endGiven);
        } else {
          SearchedSplits(s, start, end, k, l, bit);
          FirstOfTwo(8 * start, tmp, AfterFirst(s, start + 1, end, l, bit), bit, endGiven, 8 * bytes);
        }
        return;
      }
      SearchedSplits(s, start, end, k, l, bit);
      FirstOfTwo(8 * start, tmp, AfterFirst(s, start + 1, end, l, bit), bit, endGiven, 8 * bytes);
      answer := FindFrom(s, address, start + 1, end, l, bit, endGiven);
    } else {
      NoFirstMask(s, start, end, l, bit);
      answer := FindFrom(s, address, start, end, l, bit, endGiven);
    }
  }

  lemma SearchedSplits(s: seq<Byte>, start: nat, end: nat, k: nat, l: nat, bit: bool)
    requires start < end < |s| && k < 8 && l < 8
    ensures Searched(s, start, end, k, l, bit) == Masked(s[start], k, 7, bit) + AfterFirst(s, start + 1, end, l, bit)
    ensures AfterFirst(s, start + 1, end, l, bit) != []
  {
    hide Bits;
    Regroup(Masked(s[start], k, 7, bit), Bits(s[start + 1..end]), Masked(s[end], 0, l, bit));
  }

  lemma NoFirstMask(s: seq<Byte>, start: nat, end: nat, l: nat, bit: bool)
    requires start <= end < |s| && l < 8
    ensures Searched(s, start, end, 0, l, bit) == AfterFirst(s, start, end, l, bit)
  {
    hide Bits;
    MaskedLast(s[start], 0, 7, bit);
    if start == end {
      NoBits(s, start);
      assert [] + Masked(s[end], 0, l, bit) == Masked(s[end], 0, l, bit);
    } else {
      assert s[start..end] == [s[start]] + s[start + 1..end];
      BitsAppend([s[start]], s[start + 1..end]);
      BitsOfOne(s[start]);
    }
  }

  // ---- the masked bits stand for the range

  /** Uninteresting bits around a range change nothing but the offset. */
  lemma ScanPadded(pre: seq<bool>, w: seq<bool>, post: seq<bool>, bit: bool)
    requires Lacks(pre, bit) && Lacks(post, bit)
    ensures Scan(pre + w + post, bit)
         == if Scan(w, bit) < |w| then |pre| + Scan(w, bit) else |pre| + |w| + |post|
  {
    hide Scan;
    ScanAppend(pre + w, post, bit);
    ScanAppend(pre, w, bit);
    ScanIs(pre, bit, |pre|);
    ScanIs(post, bit, |post|);
  }

  lemma MaskedShape(b: Byte, k: nat, l: nat, bit: bool)
    requires k <= l + 1 <= 8
    ensures Masked(b, k, l, bit) == Fill(k, !bit) + b[k..l + 1] + Fill(7 - l, !bit)
  {
  }

  /** The searched bits are the range with uninteresting bits around it. */
  lemma SearchedIsRange(s: seq<Byte>, start: nat, end: nat, k: nat, l: nat, bit: bool, a: nat, b: nat)
    requires start <= end < |s| && k < 8 && l < 8 && a == 8 * start && b == 8 * end && a + k <= b + l
    ensures b + 8 <= |Bits(s)|
    ensures Searched(s, start, end, k, l, bit) == Fill(k, !bit) + Bits(s)[a + k..b + l + 1] + Fill(7 - l, !bit)
  {
    hide *;
    if start == end {
      SearchedInOne(s, start, k, l, bit, a);
    } else {
      SearchedInMany(s, start, end, k, l, bit, a, b);
    }
  }

  lemma SearchedInOne(s: seq<Byte>, start: nat, k: nat, l: nat, bit: bool, a: nat)
    requires start < |s| && k <= l < 8 && a == 8 * start
    ensures a + 8 <= |Bits(s)|
    ensures Searched(s, start, start, k, l, bit) == Fill(k, !bit) + Bits(s)[a + k..a + l + 1] + Fill(7 - l, !bit)
  {
    hide Bits, Masked, Fill;
    NamedByte(s, start, a);
    MaskedShape(s[start], k, l, bit);
    Inner(Bits(s), a, k, l + 1);
  }

  lemma SearchedInMany(s: seq<Byte>, start: nat, end: nat, k: nat, l: nat, bit: bool, a: nat, b: nat)
    requires start < end < |s| && k < 8 && l < 8 && a == 8 * start && b == 8 * end
    ensures b + 8 <= |Bits(s)|
    ensures Searched(s, start, end, k, l, bit) == Fill(k, !bit) + Bits(s)[a + k..b + l + 1] + Fill(7 - l, !bit)
  {
    hide Bits, Masked, Fill;
    NamedByte(s, start, a);
    NamedByte(s, end, b);
    MaskedShape(s[start], k, 7, bit);
    MaskedShape(s[end], 0, l, bit);
    BitsRun(s, start + 1, end, a + 8, b);
    RangeOfThree(Bits(s), a, k, b, l, s[start], s[end]);
    NoFill(!bit);
    Around(Fill(k, !bit), s[start][k..8], Bits(s[start + 1..end]), s[end][0..l + 1], Fill(7 - l, !bit), Fill(0, !bit));
  }

  lemma NoFill(bit: bool)
    ensures Fill(0, bit) == []
  {
  }

  lemma Inner(all: seq<bool>, a: nat, k: nat, m: nat)
    requires a + 8 <= |all| && k <= m <= 8
    ensures all[a..a + 8][k..m] == all[a + k..a + m]
  {
    var byte := all[a..a + 8];
    assert forall i | 0 <= i < 8 :: byte[i] == all[a + i];
  }

  lemma RangeOfThree(all: seq<bool>, a: nat, k: nat, b: nat, l: nat, first: Byte, last: Byte)
    requires a + 8 <= b && b + 8 <= |all| && k < 8 && l < 8 && first == all[a..a + 8] && last == all[b..b + 8]
    ensures all[a + k..b + l + 1] == first[k..8] + all[a + 8..b] + last[0..l + 1]
  {
    assert first[k..8] == all[a + k..a + 8];
    assert last[0..l + 1] == all[b..b + l + 1];
  }

  lemma Around(p: seq<bool>, x: seq<bool>, y: seq<bool>, z: seq<bool>, q: seq<bool>, none: seq<bool>)
    requires none == []
    ensures (p + x + none) + y + (none + z + q) == p + (x + y + z) + q
  {
  }

  /** What BITPOS promises: the first such bit of the range; -1 if there is none, or, searching a zero
      with no end given, the position just past the string. */
  function Position(s: seq<Byte>, bit: bool, start: int, end: int, isBit: bool, endGiven: bool): int {
    var w := Window(s, start, end, isBit);
    if w == [] then -1
    else if Scan(w, bit) < |w| then Lo(s, start, isBit) + Scan(w, bit)
    else if bit || endGiven then -1
    else 8 * |s|
  }

  /** A bit of the range with the value looked for. */
  predicate Hit(s: seq<Byte>, bit: bool, start: int, end: int, isBit: bool, p: nat) {
    p < 8 * |s| && s[p / 8][p % 8] == bit && Chosen(s, start, end, isBit, p)
  }

  /** `r` is the first hit; without one it is -1, or the end of the string if the range may go on. */
  ghost predicate IsFirstHit(s: seq<Byte>, bit: bool, start: int, end: int, isBit: bool, endGiven: bool, r: int) {
    if exists p: nat :: Hit(s, bit, start, end, isBit, p) then
      r >= 0 && Hit(s, bit, start, end, isBit, r) && forall p: nat | p < r :: !Hit(s, bit, start, end, isBit, p)
    else
      r == if bit || endGiven || (forall p: nat :: !Chosen(s, start, end, isBit, p)) then -1 else 8 * |s|
  }

  lemma HitIs(s: seq<Byte>, bit: bool, start: int, end: int, isBit: bool, p: nat)
    ensures Hit(s, bit, start, end, isBit, p) <==>
      Lo(s, start, isBit) <= p < Hi(s, end, isBit) && Bits(s)[p] == bit
  {
    hide Bits, Chosen, Lo, Hi;
    WindowIs(s, start, end, isBit, p);
    if p < 8 * |s| {
      BitAt(s, p);
    }
  }

  lemma PositionIsFirst(s: seq<Byte>, bit: bool, start: int, end: int, isBit: bool, endGiven: bool)
    ensures IsFirstHit(s, bit, start, end, isBit, endGiven, Position(s, bit, start, end, isBit, endGiven))
  {
    hide Bits, Scan, Chosen, Hit, Lo, Hi;
    var lo, hi := Lo(s, start, isBit), Hi(s, end, isBit);
    forall p: nat
      ensures Chosen(s, start, end, isBit, p) <==> lo <= p < hi
      ensures Hit(s, bit, start, end, isBit, p) <==> lo <= p < hi && Bits(s)[p] == bit
    {
      WindowIs(s, start, end, isBit, p);
      HitIs(s, bit, start, end, isBit, p);
    }
    if lo < hi {
      assert Chosen(s, start, end, isBit, lo);
      var w := Bits(s)[lo..hi];
      assert forall p | lo <= p < hi :: w[p - lo] == Bits(s)[p];
      if Scan(w, bit) < |w| {
        assert Hit(s, bit, start, end, isBit, lo + Scan(w, bit));
      }
    }
  }

  lemma ResultOfRange(s: seq<Byte>, start: nat, end: nat, k: nat, l: nat, bit: bool, endGiven: bool, lo: nat, hi: nat)
    requires start <= end < |s| && k < 8 && l < 8 && lo == 8 * start + k && hi == 8 * end + l + 1 && lo < hi
    requires endGiven || (k == 0 && l == 7)
    ensures hi <= |Bits(s)|
    ensures Result(8 * start, Searched(s, start, end, k, l, bit), bit, endGiven)
         == var w := Bits(s)[lo..hi];
            if Scan(w, bit) < |w| then lo + Scan(w, bit) else if bit || endGiven then -1 else hi
  {
    hide Bits, Scan, Searched;
    SearchedIsRange(s, start, end, k, l, bit, 8 * start, 8 * end);
    ScanPadded(Fill(k, !bit), Bits(s)[lo..hi], Fill(7 - l, !bit), bit);
  }

  /** The range of BITPOS converted, masked and searched. */
  method SearchRange(s: seq<Byte>, address: nat, bit: bool, start: int, end: int, isBit: bool, endGiven: bool)
    returns (answer: int)
    requires if endGiven then true else !isBit && end == |s| - 1
    ensures answer == Position(s, bit, start, end, isBit, endGiven)
  {
    hide Bits, Scan, Result, Searched, From, To;
    var total := if isBit then 8 * |s| else |s|;
    var first, last := Clamp(start, end, total);
    if first > last {
      return -1;
    }
    if isBit {
      answer := FindMasked(s, address, first / 8, last / 8, first % 8, last % 8, bit, endGiven);
      ResultOfRange(s, first / 8, last / 8, first % 8, last % 8, bit, endGiven, first, last + 1);
    } else {
      answer := FindMasked(s, address, first, last, 0, 7, bit, endGiven);
      ResultOfRange(s, first, last, 0, 7, bit, endGiven, 8 * first, 8 * last + 8);
      assert !endGiven ==> last == |s| - 1 by { ToTheEnd(|s|); }
    }
  }

  /** BITPOS key bit [start [end [BYTE|BIT]]]; a missing key is all zeros, without end. */
  method BitposCommand(key: Option<seq<Byte>>, address: nat, bit: bool, start: int, end: int, isBit: bool, endGiven: bool)
    returns (answer: int)
    requires isBit ==> endGiven
    ensures key.None? ==> answer == if bit then -1 else 0
    ensures key.Some? ==>
      IsFirstHit(key.value, bit, start, if endGiven then end else |key.value| - 1, isBit, endGiven, answer)
  {
    hide *;
    if key.None? {
      return if bit then -1 else 0;
    }
    var last := if endGiven then end else |key.value| - 1;
    answer := SearchRange(key.value, address, bit, start, last, isBit, endGiven);
    PositionIsFirst(key.value, bit, start, last, isBit, endGiven);
  }

  lemma ToTheEnd(total: nat)
    ensures To(total - 1, total) == total - 1
  {
  }
}
