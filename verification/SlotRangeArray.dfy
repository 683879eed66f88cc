/** The slot range array object of src/cluster.c, its iterator and its text form. */
module SlotRangeArray {
  import opened SlotRanges
  import opened Numbers
  import opened Basics

  // ------------------------------------------------------------------ the slots in order

  function Span(from: int, to: int): (s: seq<int>)
    ensures from <= to ==> |s| == to - from + 1 && forall i | 0 <= i < |s| :: s[i] == from + i
    ensures from > to ==> s == []
  {
    if from > to then [] else seq(to - from + 1, i => from + i)
  }

  function SlotsOf(rs: seq<Range>): seq<int> {
    if rs == [] then [] else Span(rs[0].start, rs[0].end) + SlotsOf(rs[1..])
  }

  lemma {:induction false} SlotsOfMembers(rs: seq<Range>, slot: int)
    ensures slot in SlotsOf(rs) <==> Holds(rs, slot)
  {
    if rs != [] {
      SlotsOfMembers(rs[1..], slot);
      assert rs == [rs[0]] + rs[1..];
      HoldsFront(rs[0], rs[1..], slot);
      if Covers(rs[0], slot) {
        assert Span(rs[0].start, rs[0].end)[slot - rs[0].start] == slot;
      }
    }
  }

  /** For a canonical array: exactly its slots, in ascending order. */
  lemma {:induction false} SlotsAscend(rs: seq<Range>)
    requires Canonical(rs)
    ensures forall i, j | 0 <= i < j < |SlotsOf(rs)| :: SlotsOf(rs)[i] < SlotsOf(rs)[j]
    ensures forall slot :: slot in SlotsOf(rs) <==> Holds(rs, slot)
  {
    forall slot ensures slot in SlotsOf(rs) <==> Holds(rs, slot) {
      SlotsOfMembers(rs, slot);
    }
    if rs != [] {
      TailHolds(rs, 0);
      SlotsAscend(rs[1..]);
      var first, rest := Span(rs[0].start, rs[0].end), SlotsOf(rs[1..]);
      forall j | 0 <= j < |rest| ensures rest[j] > rs[0].end {
        assert rest[j] in rest;
        TailHolds(rs, rest[j]);
      }
    }
  }

  // --------------------------------------------------------------------- the array

  class SlotArray {
    var ranges: array<Range>
    var num: nat

    ghost predicate Valid()
      reads this
    {
      num <= ranges.Length
    }

    ghost function View(): seq<Range>
      reads this, ranges
      requires Valid()
    {
      ranges[..num]
    }

    /** `slotRangeArrayCreate` followed by `slotRangeArraySet` for each range. */
    constructor (rs: seq<Range>)
      ensures Valid() && View() == rs && fresh(ranges)
    {
      var a := new Range[|rs|];
      for i := 0 to |rs|
        invariant a[..i] == rs[..i]
      {
        a[i] := rs[i];
      }
      ranges, num := a, |rs|;
      new;
      assert ranges[..num] == rs;
    }

    /** `slotRangeArraySortAndMerge`: `sorted` is the order the library sort leaves. */
    method SortAndMerge(sorted: seq<Range>)
      requires Valid() && SortOf(sorted, View())
      modifies `num, ranges
      ensures Valid() && num <= old(num)
      ensures View() == if old(num) <= 1 then old(View()) else Merge(sorted)
    {
      if num <= 1 {
        return;
      }
      SortKeepsAll(sorted, View());
      LibrarySort(sorted);
      var idx := MergeInPlace(ranges, num, sorted);
      num := idx + 1;
    }

    /** `slotRangeArrayNormalizeAndValidate`. */
    method NormalizeAndValidate(sorted: seq<Range>) returns (ok: bool)
      requires Valid() && SortOf(sorted, View())
      modifies `num, ranges
      ensures Valid() && (ok <==> Accepts(old(View()), sorted))
      ensures ok ==> View() == Merge(sorted)
    {
      hide Merge;
      if num <= 0 || num >= SLOTS {
        return false;
      }
      ghost var before := View();
      SortAndMerge(sorted);
      SingleIsMerged(before, sorted);
      ok := CheckRanges(ranges, num);
    }

    /** `slotRangeArrayIsEqual`, with the orders the sort leaves. */
    method IsEqual(other: SlotArray, sorted: seq<Range>, otherSorted: seq<Range>) returns (same: bool)
      requires Valid() && other.Valid() && other.ranges != ranges && other != this
      requires SortOf(sorted, View()) && SortOf(otherSorted, other.View())
      modifies `num, ranges, other`num, other.ranges
      ensures Valid() && other.Valid()
      ensures same <==> Merge(sorted) == Merge(otherSorted)
    {
      hide Merge;
      ghost var a, b := View(), other.View();
      SortAndMerge(sorted);
      SingleIsMerged(a, sorted);
      other.SortAndMerge(otherSorted);
      SingleIsMerged(b, otherSorted);
      if num != other.num {
        assert |View()| != |other.View()|;
        return false;
      }
      for i := 0 to num
        invariant ranges[..i] == other.ranges[..i]
      {
        if ranges[i].start != other.ranges[i].start || ranges[i].end != other.ranges[i].end {
          assert View()[i] != other.View()[i];
          return false;
        }
      }
      return true;
    }

    /** `slotRangeArrayAppend` to an array that holds something; capacity doubles when it is used up. */
    method Append(slot: Uint16)
      requires Valid() && num > 0 && Canonical(View()) && View()[num - 1].end < slot
      modifies this, ranges
      ensures Valid() && num > 0 && Canonical(View()) && View()[num - 1].end == slot
      ensures ranges == old(ranges) || fresh(ranges)
      ensures forall s :: Holds(View(), s) <==> old(Holds(View(), s)) || s == slot
    {
      ghost var before := View();
      var last := ranges[num - 1];
      if slot == last.end + 1 {
        ranges[num - 1] := Range(last.start, slot);
        assert View() == before[num - 1 := Range(last.start, slot)];
        Extended(before, slot);
        return;
      }
      if num >= ranges.Length {
        var bigger := new Range[ranges.Length * 2];
        for i := 0 to num
          modifies bigger
          invariant bigger[..i] == ranges[..i]
        {
          bigger[i] := ranges[i];
        }
        ranges := bigger;
      }
      assert View() == before;
      ranges[num] := Range(slot, slot);
      num := num + 1;
      assert View() == before + [Range(slot, slot)];
      forall s ensures Holds(View(), s) <==> Holds(before, s) || s == slot {
        HoldsAppend(before, Range(slot, slot), s);
      }
    }

    /** `slotRangeArrayContains`. */
    method Contains(slot: nat) returns (found: bool)
      requires Valid()
      ensures found <==> Holds(View(), slot)
    {
      for i := 0 to num
        invariant !Holds(ranges[..i], slot)
      {
        assert ranges[..i + 1] == ranges[..i] + [ranges[i]];
        HoldsAppend(ranges[..i], ranges[i], slot);
        if ranges[i].start <= slot && ranges[i].end >= slot {
          assert Covers(View()[i], slot);
          return true;
        }
      }
      return false;
    }

    /** The result of `qsort`. */
    method LibrarySort(sorted: seq<Range>)
      requires Valid() && |sorted| == num
      modifies ranges
      ensures View() == sorted
    {
      for i := 0 to num
        invariant ranges[..i] == sorted[..i]
      {
        ranges[i] := sorted[i];
      }
    }
  }

  /** The merge loop: a[0..idx] is merged, a[i..n] still as sorted. */
  method MergeInPlace(a: array<Range>, n: nat, ghost sorted: seq<Range>) returns (idx: nat)
    requires 1 < n <= a.Length && a[..n] == sorted
    modifies a
    ensures idx < n && a[..idx + 1] == Merge(sorted)
  {
    idx := 0;
    assert a[..1] == sorted[..1];
    assert a[1..n] == sorted[1..];
    for i := 1 to n
      invariant 0 <= idx < i
      invariant a[i..n] == sorted[i..]
      invariant MergeRest(a[..idx + 1], sorted[i..]) == Merge(sorted)
    {
      idx := MergeOne(a, n, i, idx, sorted);
    }
  }

  method MergeOne(a: array<Range>, n: nat, i: nat, at: nat, ghost sorted: seq<Range>) returns (idx: nat)
    requires at < i < n <= a.Length && |sorted| == n && a[i..n] == sorted[i..]
    modifies a
    ensures idx < i + 1 && a[i + 1..n] == sorted[i + 1..]
    ensures MergeRest(a[..idx + 1], sorted[i + 1..]) == old(MergeRest(a[..at + 1], sorted[i..]))
  {
    ghost var done, last := a[..at + 1], a[i..n];
    idx := at;
    assert last[0] == a[i] == sorted[i] && last[1..] == a[i + 1..n];
    assert sorted[i..][0] == sorted[i] && sorted[i..][1..] == sorted[i + 1..];
    if a[idx].end + 1 == a[i].start {
      a[idx] := Range(a[idx].start, a[i].end);
    } else {
      idx := idx + 1;
      a[idx] := a[i];
    }
    assert a[..idx + 1] == MergeStep(done, sorted[i]);
    assert a[i + 1..n] == last[1..];
  }

  /** A sort of one range is that range. */
  lemma SingleIsMerged(rs: seq<Range>, sorted: seq<Range>)
    requires SortOf(sorted, rs)
    ensures |rs| <= 1 ==> Merge(sorted) == rs
  {
    SortKeepsAll(sorted, rs);
    if |rs| == 1 {
      assert sorted[0] in multiset(sorted);
      assert sorted[0] in multiset(rs);
      assert rs[0] in rs;
    }
  }

  lemma Extended(rs: seq<Range>, slot: Uint16)
    requires rs != [] && Canonical(rs) && rs[|rs| - 1].end + 1 == slot
    ensures
      var r := rs[|rs| - 1 := Range(rs[|rs| - 1].start, slot)];
      Canonical(r) && forall s :: Holds(r, s) <==> Holds(rs, s) || s == slot
  {
    var n := |rs| - 1;
    var init, last, wide := rs[..n], rs[n], Range(rs[n].start, slot);
    assert rs == init + [last] && rs[n := wide] == init + [wide];
    forall s ensures Holds(rs[n := wide], s) <==> Holds(rs, s) || s == slot {
      HoldsAppend(init, last, s);
      HoldsAppend(init, wide, s);
    }
  }

  // ------------------------------------------------------------------------ checking

  lemma CoverSnoc(rs: seq<Range>, i: nat, slot: int)
    requires i < |rs|
    ensures Cover(rs[..i + 1], slot) == Cover(rs[..i], slot) + if Covers(rs[i], slot) then 1 else 0
    ensures Cover(rs[..i + 1], slot) <= Cover(rs, slot)
  {
    assert rs[..i + 1] == rs[..i] + [rs[i]];
    CoverAppend(rs[..i], [rs[i]], slot);
    CoverOne(rs[i], slot);
    assert rs == rs[..i + 1] + rs[i + 1..];
    CoverAppend(rs[..i + 1], rs[i + 1..], slot);
  }

  /** The used_slots array after the first `i` ranges and the slots before `j` of the next one. */
  predicate Marked(used: seq<bool>, rs: seq<Range>, i: nat, j: int)
    requires i <= |rs| && |used| == SLOTS
  {
    forall slot | 0 <= slot < SLOTS ::
      used[slot] <==> Cover(rs[..i], slot) > 0 || (i < |rs| && rs[i].start <= slot < j)
  }

  /** Marks the slots of range `i`, unless one is marked already. */
  method MarkRange(used: array<bool>, a: array<Range>, n: nat, i: nat) returns (ok: bool)
    requires i < n <= a.Length && used.Length == SLOTS && Marked(used[..], a[..n], i, a[i].start)
    requires a[i].start <= a[i].end < SLOTS
    modifies used
    ensures ok <==> forall slot | Covers(a[i], slot) :: Cover(a[..n][..i], slot) == 0
    ensures ok ==> Marked(used[..], a[..n], i + 1, if i + 1 < n then a[i + 1].start else 0)
  {
    ghost var rs := a[..n];
    for j := a[i].start to a[i].end + 1
      invariant Marked(used[..], rs, i, j)
      invariant forall slot | a[i].start <= slot < j :: Cover(rs[..i], slot) == 0
    {
      if used[j] {
        assert Covers(a[i], j);
        return false;
      }
      used[j] := true;
    }
    forall slot | 0 <= slot < SLOTS ensures used[slot] <==> Cover(rs[..i + 1], slot) > 0 {
      CoverSnoc(rs, i, slot);
    }
    return true;
  }

  /** The three checks of `slotRangeArrayNormalizeAndValidate`. */
  method CheckRanges(a: array<Range>, n: nat) returns (ok: bool)
    requires n <= a.Length
    ensures ok <==> Checked(a[..n])
  {
    hide Cover;
    ghost var rs := a[..n];
    var used := new bool[SLOTS](i => false);
    NoCover(rs);
    for i := 0 to n
      invariant Marked(used[..], rs, i, if i < n then a[i].start else 0)
      invariant InRange(rs[..i]) && Forward(rs[..i])
      invariant forall slot | 0 <= slot < SLOTS :: Cover(rs[..i], slot) <= 1
    {
      assert rs[..i + 1] == rs[..i] + [rs[i]] && rs[i] == a[i];
      if a[i].start >= SLOTS || a[i].end >= SLOTS {
        return false;
      }
      if a[i].start > a[i].end {
        return false;
      }
      var fresh' := MarkRange(used, a, n, i);
      if !fresh' {
        ghost var slot :| Covers(a[i], slot) && Cover(rs[..i], slot) != 0;
        CoverSnoc(rs, i, slot);
        return false;
      }
      ghost var marked := rs[..i + 1];
      forall slot | 0 <= slot < SLOTS ensures Cover(marked, slot) <= 1 {
        CoverSnoc(rs, i, slot);
      }
    }
    assert rs[..n] == rs;
    forall slot ensures Cover(rs, slot) <= 1 {
      OutsideCover(rs, slot);
    }
    return true;
  }

  lemma NoCover(rs: seq<Range>)
    ensures forall slot :: Cover(rs[..0], slot) == 0
  {
  }

  lemma {:induction false} OutsideCover(rs: seq<Range>, slot: int)
    requires InRange(rs)
    ensures !(0 <= slot < SLOTS) ==> Cover(rs, slot) == 0
  {
    if rs != [] {
      OutsideCover(rs[1..], slot);
    }
  }

  /** On valid arrays the equality test answers whether they hold the same slots. */
  lemma EqualIffSameSlots(a: seq<Range>, sortedA: seq<Range>, b: seq<Range>, sortedB: seq<Range>)
    requires Forward(a) && Disjoint(a) && SortOf(sortedA, a)
    requires Forward(b) && Disjoint(b) && SortOf(sortedB, b)
    ensures Merge(sortedA) == Merge(sortedB) <==> forall slot :: Holds(a, slot) <==> Holds(b, slot)
  {
    NormalizeIsCanonical(a, sortedA);
    NormalizeIsCanonical(b, sortedB);
    hide Merge, Holds, Canonical;
    if forall slot :: Holds(a, slot) <==> Holds(b, slot) {
      CanonicalIsUnique(Merge(sortedA), Merge(sortedB));
    }
  }

  // ------------------------------------------------------------------------ iterator

  class SlotIterator {
    const slots: SlotArray
    var rangeIndex: nat
    var cur: int

    ghost predicate Valid()
      reads this, slots, slots.ranges
    {
      && slots.Valid() && Forward(slots.View())
      && (rangeIndex < slots.num ==> Covers(slots.ranges[rangeIndex], cur))
      && (rangeIndex >= slots.num ==> cur == -1)
    }

    /** The slots from the current one on. */
    ghost function Rest(): seq<int>
      reads this, slots, slots.ranges
      requires Valid()
    {
      if rangeIndex >= slots.num then []
      else Span(cur, slots.ranges[rangeIndex].end) + SlotsOf(slots.View()[rangeIndex + 1..])
    }

    constructor (s: SlotArray)
      requires s.Valid() && Forward(s.View())
      ensures Valid() && slots == s && Rest() == SlotsOf(s.View())
      ensures cur == if Rest() == [] then -1 else Rest()[0]
    {
      slots, rangeIndex := s, 0;
      cur := if s.num > 0 then s.ranges[0].start else -1;
      new;
      if s.num > 0 {
        assert s.View()[0] == s.ranges[0];
      }
    }

    /** `slotRangeArrayNext`: one slot further, or -1 for ever. */
    method Next() returns (slot: int)
      requires Valid()
      modifies this
      ensures Valid() && Rest() == if old(Rest()) == [] then [] else old(Rest())[1..]
      ensures slot == cur == if Rest() == [] then -1 else Rest()[0]
    {
      if rangeIndex >= slots.num {
        return -1;
      }
      ghost var rs := slots.View();
      ghost var left := SlotsOf(rs[rangeIndex + 1..]);
      ghost var r := rs[rangeIndex];
      if cur < slots.ranges[rangeIndex].end {
        assert Span(cur, r.end)[1..] == Span(cur + 1, r.end);
        assert (Span(cur, r.end) + left)[1..] == Span(cur, r.end)[1..] + left;
        cur := cur + 1;
      } else {
        assert Span(cur, r.end) == [cur];
        assert ([cur] + left)[1..] == left;
        rangeIndex := rangeIndex + 1;
        if rangeIndex < slots.num {
          assert rs[rangeIndex..][0] == slots.ranges[rangeIndex] && rs[rangeIndex..][1..] == rs[rangeIndex + 1..];
          cur := slots.ranges[rangeIndex].start;
        } else {
          assert rs[rangeIndex..] == [];
          cur := -1;
        }
      }
      return cur;
    }
  }

  // ---------------------------------------------------------------------------- text

  const SPACE: Byte := 32
  const DASH: Byte := 45

  function PrintRange(start: nat, end: nat): Arg {
    Decimal(start) + [DASH] + Decimal(end)
  }

  function Print(rs: seq<Range>): Arg {
    if rs == [] then []
    else if |rs| == 1 then PrintRange(rs[0].start, rs[0].end)
    else PrintRange(rs[0].start, rs[0].end) + [SPACE] + Print(rs[1..])
  }

  /** Each range with a space after it. */
  function PrintEach(rs: seq<Range>): Arg {
    if rs == [] then []
    else PrintEach(rs[..|rs| - 1]) + PrintRange(rs[|rs| - 1].start, rs[|rs| - 1].end) + [SPACE]
  }

  /** `slotRangeArrayToString`: appends range by range and cuts the last space off. */
  method ToString(rs: seq<Range>) returns (s: Arg)
    ensures s == Print(rs)
  {
    s := [];
    if |rs| == 0 {
      return;
    }
    for i := 0 to |rs|
      invariant s == PrintEach(rs[..i])
    {
      assert rs[..i + 1][..i] == rs[..i];
      s := s + Decimal(rs[i].start) + [DASH] + Decimal(rs[i].end) + [SPACE];
    }
    assert rs[..|rs|] == rs;
    EachIsPrint(rs);
    s := s[..|s| - 1];
  }

  lemma {:induction false} PrintSnoc(rs: seq<Range>, r: Range)
    requires rs != []
    ensures Print(rs + [r]) == Print(rs) + [SPACE] + PrintRange(r.start, r.end)
  {
    assert (rs + [r])[1..] == rs[1..] + [r];
    if |rs| > 1 {
      PrintSnoc(rs[1..], r);
    } else {
      assert rs + [r] == [rs[0], r];
    }
  }

  lemma {:induction false} EachIsPrint(rs: seq<Range>)
    requires rs != []
    ensures PrintEach(rs) == Print(rs) + [SPACE]
  {
    var n := |rs| - 1;
    assert rs == rs[..n] + [rs[n]];
    if n > 0 {
      EachIsPrint(rs[..n]);
      PrintSnoc(rs[..n], rs[n]);
    }
  }

  /** sdssplitlen on a single byte. */
  function Split(s: Arg, sep: Byte): (r: seq<Arg>)
    ensures |r| > 0
  {
    if s == [] then [[]]
    else if s[0] == sep then [[]] + Split(s[1..], sep)
    else
      var r := Split(s[1..], sep);
      [[s[0]] + r[0]] + r[1..]
  }

  /** strchr. */
  function Find(s: Arg, b: Byte): (i: nat)
    ensures i <= |s| && (i < |s| ==> s[i] == b)
  {
    if s == [] || s[0] == b then 0 else 1 + Find(s[1..], b)
  }

  /** `string2ll`: decimal, no leading zero, no blanks. */
  function String2ll(s: Arg): Option<int> {
    if s == [] || |s| >= 21 then None
    else if s == [DIGIT0] then Some(0)
    else
      var d := if s[0] == DASH then s[1..] else s;
      if d == [] || d[0] == DIGIT0 || !Digits(d) then None
      else
        var v: int := ParseDigits(d, 0);
        if s[0] == DASH then (if v > LONG_MAX + 1 then None else Some(-v))
        else if v > LONG_MAX then None else Some(v)
  }

  /** The conversions of `slotRangeArraySet`: to int, then to unsigned short. */
  function Truncated(v: int): Uint16 {
    v % 65536
  }

  function ParseRange(part: Arg): Option<Range> {
    var i := Find(part, DASH);
    if i == |part| then None
    else
      var start, end := String2ll(part[..i]), String2ll(part[i + 1..]);
      if start.None? || end.None? then None else Some(Range(Truncated(start.value), Truncated(end.value)))
  }

  function ParseParts(parts: seq<Arg>): Option<seq<Range>> {
    if parts == [] then Some([])
    else
      var first, rest := ParseRange(parts[0]), ParseParts(parts[1..]);
      if first.None? || rest.None? then None else Some([first.value] + rest.value)
  }

  /** The parsing half of `slotRangeArrayFromString`. */
  function Parse(data: Arg): Option<seq<Range>> {
    if data == [] then None else ParseParts(Split(data, SPACE))
  }

  lemma {:induction false} SplitPart(a: Arg, rest: Arg, sep: Byte)
    requires sep !in a
    ensures Split(a, sep) == [a]
    ensures Split(a + [sep] + rest, sep) == [a] + Split(rest, sep)
  {
    if a == [] {
      assert a + [sep] + rest == [sep] + rest;
      assert ([sep] + rest)[1..] == rest;
    } else {
      SplitPart(a[1..], rest, sep);
      assert (a + [sep] + rest)[1..] == a[1..] + [sep] + rest;
      assert [a[0]] + a[1..] == a;
    }
  }

  lemma {:induction false} FindAfter(a: Arg, rest: Arg, b: Byte)
    requires b !in a
    ensures Find(a + [b] + rest, b) == |a|
  {
    if a == [] {
      assert (a + [b] + rest)[0] == b;
    } else {
      assert (a + [b] + rest)[1..] == a[1..] + [b] + rest;
      FindAfter(a[1..], rest, b);
    }
  }

  lemma DecimalReads(n: nat)
    requires n <= LONG_MAX
    ensures String2ll(Decimal(n)) == Some(n) && DASH !in Decimal(n) && SPACE !in Decimal(n)
  {
    DecimalIsDigits(n);
    ParseDecimal(n);
    CountIsShort(n);
    var d := Decimal(n);
    assert forall i | 0 <= i < |d| :: IsDigit(d[i]);
    if n == 0 {
      assert d == [DIGIT0];
    }
  }

  /** A printed pair of numbers is read back modulo 65536. */
  lemma PrintedRangeReads(start: nat, end: nat)
    requires start <= LONG_MAX && end <= LONG_MAX
    ensures ParseRange(PrintRange(start, end)) == Some(Range(Truncated(start), Truncated(end)))
    ensures SPACE !in PrintRange(start, end)
  {
    hide String2ll, Decimal;
    DecimalReads(start);
    DecimalReads(end);
    var a, b := Decimal(start), Decimal(end);
    FindAfter(a, b, DASH);
    var p := a + [DASH] + b;
    assert p[..|a|] == a && p[|a| + 1..] == b;
  }

  lemma {:induction false} PrintReads(rs: seq<Range>)
    requires rs != []
    ensures Print(rs) != [] && ParseParts(Split(Print(rs), SPACE)) == Some(rs)
  {
    hide ParseRange, PrintRange, Truncated;
    var r := rs[0];
    PrintedRangeReads(r.start, r.end);
    NoTruncation(r);
    SplitPart(PrintRange(r.start, r.end), Print(rs[1..]), SPACE);
    if |rs| > 1 {
      PrintReads(rs[1..]);
      assert ([PrintRange(r.start, r.end)] + Split(Print(rs[1..]), SPACE))[1..] == Split(Print(rs[1..]), SPACE);
      assert rs == [r] + rs[1..];
    } else {
      PrintedIsNotEmpty(r);
      OnePart(PrintRange(r.start, r.end));
      assert rs == [r] && [r] + [] == [r];
    }
  }

  lemma OnePart(part: Arg)
    ensures ParseParts([part]) == if ParseRange(part).None? then None else Some([ParseRange(part).value] + [])
  {
    assert [part][1..] == [];
  }

  lemma NoTruncation(r: Range)
    ensures Truncated(r.start) == r.start && Truncated(r.end) == r.end
  {
  }

  lemma PrintedIsNotEmpty(r: Range)
    ensures PrintRange(r.start, r.end) != []
  {
  }

  /** A canonical array in range has no more than half as many ranges as there are slots. */
  lemma {:induction false} CanonicalIsSmall(rs: seq<Range>, i: nat)
    requires Canonical(rs) && i < |rs|
    ensures rs[i].start >= 2 * i
  {
    if i > 0 {
      CanonicalIsSmall(rs, i - 1);
    }
  }

  /** Parsing and normalising what was printed returns the array. */
  lemma PrintParse(rs: seq<Range>, sorted: seq<Range>)
    requires rs != [] && Canonical(rs) && InRange(rs) && SortOf(sorted, rs)
    ensures Parse(Print(rs)) == Some(rs) && Accepts(rs, sorted) && Merge(sorted) == rs
  {
    PrintReads(rs);
    CanonicalIsSmall(rs, |rs| - 1);
    CanonicalIsDisjoint(rs);
    NormalizeAccepts(rs, sorted);
    NormalizeIsCanonical(rs, sorted);
    hide Merge, Holds;
    CanonicalIsUnique(Merge(sorted), rs);
  }
}
