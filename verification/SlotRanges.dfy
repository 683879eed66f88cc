/**
 Slot range arrays of src/cluster.c: sorting, merging and checking them in place, their
 canonical form, equality, appending and iteration.
 */
module SlotRanges {

  const SLOTS := 16384

  type Uint16 = x: int | 0 <= x < 65536

  datatype Range = Range(start: Uint16, end: Uint16)

  predicate Covers(r: Range, slot: int) {
    r.start <= slot <= r.end
  }

  /** How many ranges hold a slot. */
  function Cover(rs: seq<Range>, slot: int): nat {
    if rs == [] then 0 else (if Covers(rs[0], slot) then 1 else 0) + Cover(rs[1..], slot)
  }

  predicate Holds(rs: seq<Range>, slot: int) {
    exists i | 0 <= i < |rs| :: Covers(rs[i], slot)
  }

  predicate Forward(rs: seq<Range>) {
    forall i | 0 <= i < |rs| :: rs[i].start <= rs[i].end
  }

  predicate InRange(rs: seq<Range>) {
    forall i | 0 <= i < |rs| :: rs[i].start < SLOTS && rs[i].end < SLOTS
  }

  ghost predicate Disjoint(rs: seq<Range>) {
    forall slot :: Cover(rs, slot) <= 1
  }

  predicate SortedByStart(rs: seq<Range>) {
    forall i, j | 0 <= i < j < |rs| :: rs[i].start <= rs[j].start
  }

  /** What `qsort` may leave behind: any order of the same ranges with ascending starts. */
  predicate SortOf(sorted: seq<Range>, rs: seq<Range>) {
    SortedByStart(sorted) && multiset(sorted) == multiset(rs)
  }

  /** Ascending, with at least one free slot between neighbours. */
  predicate Canonical(rs: seq<Range>) {
    && Forward(rs)
    && forall i | 0 < i < |rs| :: rs[i - 1].end + 1 < rs[i].start
  }

  // ---------------------------------------------------------------------- counting

  lemma {:induction false} CoverAppend(a: seq<Range>, b: seq<Range>, slot: int)
    ensures Cover(a + b, slot) == Cover(a, slot) + Cover(b, slot)
  {
    if a == [] {
      assert a + b == b;
    } else {
      assert (a + b)[1..] == a[1..] + b;
      CoverAppend(a[1..], b, slot);
    }
  }

  lemma CoverOne(r: Range, slot: int)
    ensures Cover([r], slot) == if Covers(r, slot) then 1 else 0
  {
  }

  lemma {:induction false} CoverIsHolds(rs: seq<Range>, slot: int)
    ensures Cover(rs, slot) > 0 <==> Holds(rs, slot)
  {
    if rs != [] {
      CoverIsHolds(rs[1..], slot);
      if Holds(rs[1..], slot) {
        var i :| 0 <= i < |rs[1..]| && Covers(rs[1..][i], slot);
        assert Covers(rs[i + 1], slot);
      }
      if Holds(rs, slot) && !Covers(rs[0], slot) {
        var i :| 0 <= i < |rs| && Covers(rs[i], slot);
        assert Covers(rs[1..][i - 1], slot);
      }
    }
  }

  /** The order of the ranges does not matter. */
  lemma {:induction false} CoverOfSort(a: seq<Range>, b: seq<Range>, slot: int)
    requires multiset(a) == multiset(b)
    ensures Cover(a, slot) == Cover(b, slot)
  {
    if a == [] {
      assert |multiset(b)| == 0;
      assert b == [];
    } else {
      assert a[0] in multiset(b);
      var i :| 0 <= i < |b| && b[i] == a[0];
      assert a == [a[0]] + a[1..];
      assert b == b[..i] + [b[i]] + b[i + 1..];
      assert multiset(a) == multiset{a[0]} + multiset(a[1..]);
      assert multiset(b) == multiset(b[..i]) + multiset{b[i]} + multiset(b[i + 1..]);
      assert multiset(a[1..]) == multiset(b) - multiset{b[i]} == multiset(b[..i]) + multiset(b[i + 1..]);
      CoverOfSort(a[1..], b[..i] + b[i + 1..], slot);
      CoverAppend(b[..i], b[i + 1..], slot);
      CoverAppend(b[..i] + [b[i]], b[i + 1..], slot);
      CoverAppend(b[..i], [b[i]], slot);
      CoverOne(b[i], slot);
    }
  }

  lemma SortKeepsAll(sorted: seq<Range>, rs: seq<Range>)
    requires SortOf(sorted, rs)
    ensures Forward(sorted) <==> Forward(rs)
    ensures InRange(sorted) <==> InRange(rs)
    ensures Disjoint(sorted) <==> Disjoint(rs)
    ensures |sorted| == |rs|
  {
    SameMembers(sorted, rs);
    forall slot ensures Cover(sorted, slot) == Cover(rs, slot) {
      CoverOfSort(sorted, rs, slot);
    }
    assert Forward(sorted) <==> forall r | r in sorted :: r.start <= r.end;
    assert Forward(rs) <==> forall r | r in rs :: r.start <= r.end;
    assert InRange(sorted) <==> forall r | r in sorted :: r.start < SLOTS && r.end < SLOTS;
    assert InRange(rs) <==> forall r | r in rs :: r.start < SLOTS && r.end < SLOTS;
  }

  // ----------------------------------------------------------------------- merging

  /** The loop of `slotRangeArraySortAndMerge`: `done` is a[0..idx], `rest` what follows i. */
  function MergeRest(done: seq<Range>, rest: seq<Range>): seq<Range>
    requires done != []
    decreases rest
  {
    if rest == [] then done else MergeRest(MergeStep(done, rest[0]), rest[1..])
  }

  function MergeStep(done: seq<Range>, r: Range): (d: seq<Range>)
    requires done != []
    ensures d != []
  {
    var n := |done| - 1;
    if done[n].end + 1 == r.start then done[n := Range(done[n].start, r.end)] else done + [r]
  }

  function Merge(rs: seq<Range>): seq<Range> {
    if |rs| <= 1 then rs else MergeRest(rs[..1], rs[1..])
  }

  /** One merge step counts every slot as before. */
  lemma MergeStepCovers(done: seq<Range>, r: Range, slot: int)
    requires done != [] && Forward(done) && r.start <= r.end
    ensures Cover(MergeStep(done, r), slot) == Cover(done, slot) + if Covers(r, slot) then 1 else 0
    ensures Forward(MergeStep(done, r))
  {
    var n := |done| - 1;
    var init, last := done[..n], done[n];
    assert done == init + [last];
    CoverAppend(init, [last], slot);
    CoverOne(last, slot);
    CoverOne(r, slot);
    if last.end + 1 == r.start {
      var both := Range(last.start, r.end);
      assert done[n := both] == init + [both];
      CoverAppend(init, [both], slot);
      CoverOne(both, slot);
    } else {
      CoverAppend(done, [r], slot);
    }
  }

  lemma {:induction false} MergeRestCovers(done: seq<Range>, rest: seq<Range>, slot: int)
    requires done != [] && Forward(done) && Forward(rest)
    ensures Cover(MergeRest(done, rest), slot) == Cover(done, slot) + Cover(rest, slot)
    ensures Forward(MergeRest(done, rest))
    decreases rest
  {
    if rest != [] {
      MergeStepCovers(done, rest[0], slot);
      MergeRestCovers(MergeStep(done, rest[0]), rest[1..], slot);
    }
  }

  /** Merging forward ranges, in any order, keeps the number of times each slot is held. */
  lemma MergeCovers(rs: seq<Range>, slot: int)
    requires Forward(rs)
    ensures Cover(Merge(rs), slot) == Cover(rs, slot) && Forward(Merge(rs))
  {
    if |rs| > 1 {
      MergeRestCovers(rs[..1], rs[1..], slot);
      assert rs == rs[..1] + rs[1..];
      CoverAppend(rs[..1], rs[1..], slot);
    }
  }

  /** After merging, the starts still ascend and no two neighbours touch. */
  predicate Merged(rs: seq<Range>) {
    SortedByStart(rs) && forall i | 0 < i < |rs| :: rs[i - 1].end + 1 != rs[i].start
  }

  lemma MergeStepMerged(done: seq<Range>, r: Range)
    requires done != [] && Merged(done) && done[|done| - 1].start <= r.start
    ensures Merged(MergeStep(done, r))
    ensures MergeStep(done, r)[|MergeStep(done, r)| - 1].start <= r.start
  {
    var d, n := MergeStep(done, r), |done| - 1;
    forall i, j | 0 <= i < j < |d| ensures d[i].start <= d[j].start {
      if j == |done| && i < n {
        assert done[i].start <= done[n].start;
      }
    }
  }

  lemma {:induction false} MergeRestMerged(done: seq<Range>, rest: seq<Range>)
    requires done != [] && Merged(done) && SortedByStart(rest)
    requires rest != [] ==> done[|done| - 1].start <= rest[0].start
    ensures Merged(MergeRest(done, rest))
    decreases rest
  {
    if rest != [] {
      MergeStepMerged(done, rest[0]);
      MergeRestMerged(MergeStep(done, rest[0]), rest[1..]);
    }
  }

  lemma MergeIsMerged(rs: seq<Range>)
    requires SortedByStart(rs)
    ensures Merged(Merge(rs))
  {
    if |rs| > 1 {
      MergeRestMerged(rs[..1], rs[1..]);
    }
  }

  lemma {:induction false} CoverTwice(rs: seq<Range>, i: nat, j: nat, slot: int)
    requires i < j < |rs| && Covers(rs[i], slot) && Covers(rs[j], slot)
    ensures Cover(rs, slot) >= 2
  {
    if i == 0 {
      assert rs[1..][j - 1] == rs[j];
      CoverIsHolds(rs[1..], slot);
    } else {
      CoverTwice(rs[1..], i - 1, j - 1, slot);
    }
  }

  /** A merged list that passes the checks is canonical. */
  lemma CheckedIsCanonical(rs: seq<Range>)
    requires Merged(rs) && Forward(rs) && Disjoint(rs)
    ensures Canonical(rs)
  {
    forall i | 0 < i < |rs| ensures rs[i - 1].end + 1 < rs[i].start {
      if rs[i].start <= rs[i - 1].end {
        CoverTwice(rs, i - 1, i, rs[i].start);
      }
    }
  }

  predicate SlotsOk(r: Range) {
    r.start < SLOTS && r.end < SLOTS
  }

  lemma InRangeSnoc(rs: seq<Range>, r: Range)
    ensures InRange(rs + [r]) <==> InRange(rs) && SlotsOk(r)
  {
    assert forall i | 0 <= i < |rs| :: (rs + [r])[i] == rs[i];
    assert (rs + [r])[|rs|] == r;
  }

  lemma MergeStepInRange(done: seq<Range>, r: Range)
    requires done != [] && Forward(done) && r.start <= r.end
    ensures InRange(MergeStep(done, r)) <==> InRange(done) && SlotsOk(r)
  {
    hide InRange;
    var n := |done| - 1;
    assert done == done[..n] + [done[n]];
    InRangeSnoc(done[..n], done[n]);
    InRangeSnoc(done, r);
    var both := Range(done[n].start, r.end);
    assert done[n := both] == done[..n] + [both];
    InRangeSnoc(done[..n], both);
  }

  lemma {:induction false} MergeRestInRange(done: seq<Range>, rest: seq<Range>)
    requires done != [] && Forward(done) && Forward(rest)
    ensures InRange(MergeRest(done, rest)) <==> InRange(done) && InRange(rest)
    decreases rest
  {
    if rest != [] {
      MergeStepInRange(done, rest[0]);
      MergeStepCovers(done, rest[0], 0);
      hide MergeStep;
      MergeRestInRange(MergeStep(done, rest[0]), rest[1..]);
      assert rest == [rest[0]] + rest[1..];
      assert InRange(rest) <==> SlotsOk(rest[0]) && InRange(rest[1..]);
    }
  }

  lemma MergeInRange(rs: seq<Range>)
    requires Forward(rs)
    ensures InRange(Merge(rs)) <==> InRange(rs)
  {
    if |rs| > 1 {
      MergeRestInRange(rs[..1], rs[1..]);
      assert rs == rs[..1] + rs[1..];
    }
  }

  // ------------------------------------------------------------------- normalising

  /** The checks after the merge. */
  ghost predicate Checked(rs: seq<Range>) {
    InRange(rs) && Forward(rs) && Disjoint(rs)
  }

  /** Whether `slotRangeArrayNormalizeAndValidate` accepts. */
  ghost predicate Accepts(rs: seq<Range>, sorted: seq<Range>) {
    0 < |rs| < SLOTS && Checked(Merge(sorted))
  }

  /** For forward ranges: accepted exactly if in range and disjoint, whatever order sorting chose. */
  lemma NormalizeAccepts(rs: seq<Range>, sorted: seq<Range>)
    requires Forward(rs) && SortOf(sorted, rs)
    ensures Accepts(rs, sorted) <==> 0 < |rs| < SLOTS && InRange(rs) && Disjoint(rs)
  {
    SortKeepsAll(sorted, rs);
    MergeInRange(sorted);
    forall slot ensures Cover(Merge(sorted), slot) == Cover(sorted, slot) {
      MergeCovers(sorted, slot);
    }
    MergeCovers(sorted, 0);
  }

  /** And then the result is the canonical form of the same slots. */
  lemma NormalizeIsCanonical(rs: seq<Range>, sorted: seq<Range>)
    requires Forward(rs) && SortOf(sorted, rs) && Disjoint(rs)
    ensures Canonical(Merge(sorted))
    ensures forall slot :: Holds(Merge(sorted), slot) <==> Holds(rs, slot)
  {
    SortKeepsAll(sorted, rs);
    MergeIsMerged(sorted);
    MergeCovers(sorted, 0);
    forall slot ensures Cover(Merge(sorted), slot) == Cover(rs, slot) {
      MergeCovers(sorted, slot);
      CoverOfSort(sorted, rs, slot);
    }
    CheckedIsCanonical(Merge(sorted));
    forall slot ensures Holds(Merge(sorted), slot) <==> Holds(rs, slot) {
      CoverIsHolds(Merge(sorted), slot);
      CoverIsHolds(rs, slot);
    }
  }

  // --------------------------------------------------------- ranges that run backwards

  /** Whatever the input, what is accepted is canonical. */
  lemma AcceptedIsCanonical(rs: seq<Range>, sorted: seq<Range>)
    requires SortOf(sorted, rs) && Accepts(rs, sorted)
    ensures Canonical(Merge(sorted))
  {
    MergeIsMerged(sorted);
    CheckedIsCanonical(Merge(sorted));
  }

  predicate HoldsSnoc(rs: seq<Range>, r: Range, slot: int) {
    Holds(rs, slot) || Covers(r, slot)
  }

  lemma HoldsAppend(rs: seq<Range>, r: Range, slot: int)
    ensures Holds(rs + [r], slot) <==> Holds(rs, slot) || Covers(r, slot)
  {
    assert (rs + [r])[|rs|] == r;
    assert forall i | 0 <= i < |rs| :: (rs + [r])[i] == rs[i];
  }

  lemma HoldsFront(r: Range, rs: seq<Range>, slot: int)
    ensures Holds([r] + rs, slot) <==> Covers(r, slot) || Holds(rs, slot)
  {
    assert ([r] + rs)[0] == r;
    assert forall i | 0 <= i < |rs| :: ([r] + rs)[i + 1] == rs[i];
  }

  /** Not emptier than empty. */
  predicate Steady(r: Range) {
    r.start <= r.end + 1
  }

  /** A merge step adds no slot; between steady ranges it loses none. */
  lemma MergeStepHolds(done: seq<Range>, r: Range, slot: int)
    requires done != [] && done[|done| - 1].start <= r.start
    ensures Holds(MergeStep(done, r), slot) ==> HoldsSnoc(done, r, slot)
    ensures Steady(done[|done| - 1]) && Steady(r) && HoldsSnoc(done, r, slot) ==> Holds(MergeStep(done, r), slot)
  {
    hide Holds;
    var n := |done| - 1;
    var both := Range(done[n].start, r.end);
    assert done == done[..n] + [done[n]] && done[n := both] == done[..n] + [both];
    HoldsAppend(done[..n], done[n], slot);
    HoldsAppend(done[..n], both, slot);
    HoldsAppend(done, r, slot);
  }

  predicate AllSteady(rs: seq<Range>) {
    forall i | 0 <= i < |rs| :: Steady(rs[i])
  }

  lemma {:induction false} MergeRestHolds(done: seq<Range>, rest: seq<Range>, slot: int)
    requires done != [] && SortedByStart(rest) && (rest != [] ==> done[|done| - 1].start <= rest[0].start)
    ensures Holds(MergeRest(done, rest), slot) ==> Holds(done, slot) || Holds(rest, slot)
    ensures Steady(done[|done| - 1]) && AllSteady(rest) && (Holds(done, slot) || Holds(rest, slot))
      ==> Holds(MergeRest(done, rest), slot)
    decreases rest
  {
    hide Holds;
    if rest != [] {
      var r, left := rest[0], rest[1..];
      MergeStepHolds(done, r, slot);
      assert rest == [r] + left;
      HoldsFront(r, left, slot);
      var d := MergeStep(done, r);
      assert d[|d| - 1].start <= r.start;
      MergeRestHolds(d, left, slot);
    } else {
      HoldsNone(slot);
    }
  }

  lemma HoldsNone(slot: int)
    ensures !Holds([], slot)
  {
  }

  /** Merging only ever changes the last range of what is done. */
  lemma {:induction false} MergeRestPrefix(done: seq<Range>, rest: seq<Range>)
    requires done != []
    ensures
      var m, n := MergeRest(done, rest), |done| - 1;
      && n < |m| && m[..n] == done[..n] && m[n].start == done[n].start
      && (rest == [] || rest[0].start != done[n].end + 1 ==> m[n] == done[n])
    decreases rest
  {
    if rest != [] {
      var d, n := MergeStep(done, rest[0]), |done| - 1;
      MergeRestPrefix(d, rest[1..]);
      var m := MergeRest(d, rest[1..]);
      if |d| > |done| {
        assert m[..n] == m[..n + 1][..n] == d[..n + 1][..n];
        assert m[n] == m[..n + 1][n] == done[n];
      }
    }
  }

  /** The last range that runs backwards either fails the check or takes slots away. */
  lemma BackwardLoses(done: seq<Range>, rest: seq<Range>) returns (slot: int)
    requires done != [] && SortedByStart(rest) && rest != [] && done[|done| - 1].start <= rest[0].start
    requires SortedByStart(done) && !Steady(rest[0]) && Checked(MergeRest(done, rest))
    ensures Holds(done, slot) && !Holds(MergeRest(done, rest), slot)
  {
    var r, n, d := rest[0], |done| - 1, MergeStep(done, rest[0]);
    var m := MergeRest(done, rest);
    MergeRestPrefix(d, rest[1..]);
    assert rest[1..] != [] ==> rest[1..][0] == rest[1] && rest[0].start <= rest[1].start;
    assert m[|d| - 1] == d[|d| - 1];
    assert done[n].end + 1 == r.start;
    slot := done[n].end;
    assert Covers(done[n], slot);
    forall i | 0 <= i < |m| ensures !Covers(m[i], slot) {
      if i < n {
        assert m[i] == m[..n][i] == d[..n][i] == done[i];
        if Covers(m[i], slot) {
          assert Covers(m[i], m[n].start) && Covers(m[n], m[n].start);
          CoverTwice(m, i, n, m[n].start);
        }
      } else if i > n {
        LaterStarts(done, rest, i);
      }
    }
  }

  /** What comes after the merged range starts after the one that was merged in. */
  lemma LaterStarts(done: seq<Range>, rest: seq<Range>, i: nat)
    requires done != [] && rest != [] && SortedByStart(rest) && |MergeStep(done, rest[0])| == |done|
    requires |done| <= i < |MergeRest(done, rest)|
    ensures MergeRest(done, rest)[i].start >= rest[0].start
  {
    RestStarts(MergeStep(done, rest[0]), rest[1..], i, rest[0].start);
  }

  lemma {:induction false} RestStarts(done: seq<Range>, rest: seq<Range>, i: nat, from: int)
    requires done != [] && |done| <= i < |MergeRest(done, rest)| && forall j | 0 <= j < |rest| :: rest[j].start >= from
    ensures MergeRest(done, rest)[i].start >= from
    decreases rest
  {
    if rest != [] {
      var d := MergeStep(done, rest[0]);
      if |d| <= i {
        RestStarts(d, rest[1..], i, from);
      } else {
        MergeRestPrefix(d, rest[1..]);
        assert MergeRest(d, rest[1..])[i].start == d[i].start;
      }
    }
  }

  lemma {:induction false} SomeBackward(done: seq<Range>, rest: seq<Range>) returns (slot: int)
    requires done != [] && SortedByStart(rest) && rest != [] && done[|done| - 1].start <= rest[0].start
    requires SortedByStart(done) && !AllSteady(rest) && Checked(MergeRest(done, rest))
    ensures (Holds(done, slot) || Holds(rest, slot)) && !Holds(MergeRest(done, rest), slot)
    decreases rest
  {
    var r, left := rest[0], rest[1..];
    assert rest == [r] + left;
    if AllSteady(left) {
      slot := BackwardLoses(done, rest);
    } else {
      var d := MergeStep(done, r);
      MergeStepSorted(done, r);
      slot := SomeBackward(d, left);
      MergeStepHolds(done, r, slot);
      HoldsFront(r, left, slot);
    }
  }

  lemma MergeStepSorted(done: seq<Range>, r: Range)
    requires done != [] && SortedByStart(done) && done[|done| - 1].start <= r.start
    ensures SortedByStart(MergeStep(done, r))
    ensures MergeStep(done, r)[|MergeStep(done, r)| - 1].start <= r.start
  {
    var d, n := MergeStep(done, r), |done| - 1;
    forall i, j | 0 <= i < j < |d| ensures d[i].start <= d[j].start {
      if j == |done| && i < n {
        assert done[i].start <= done[n].start;
      }
    }
  }

  lemma SortKeepsSlots(sorted: seq<Range>, rs: seq<Range>, slot: int)
    requires SortOf(sorted, rs)
    ensures Holds(sorted, slot) <==> Holds(rs, slot)
    ensures AllSteady(sorted) <==> AllSteady(rs)
  {
    CoverOfSort(sorted, rs, slot);
    CoverIsHolds(sorted, slot);
    CoverIsHolds(rs, slot);
    assert forall r :: r in sorted <==> r in multiset(sorted);
    assert forall r :: r in rs <==> r in multiset(rs);
    assert AllSteady(sorted) <==> forall r | r in sorted :: Steady(r);
    assert AllSteady(rs) <==> forall r | r in rs :: Steady(r);
  }

  lemma SteadyKeepsSlots(sorted: seq<Range>, slot: int)
    requires SortedByStart(sorted) && AllSteady(sorted)
    ensures Holds(Merge(sorted), slot) <==> Holds(sorted, slot)
  {
    if |sorted| > 1 {
      MergeRestHolds(sorted[..1], sorted[1..], slot);
      assert sorted == [sorted[0]] + sorted[1..] && sorted[..1] == [sorted[0]];
      HoldsFront(sorted[0], sorted[1..], slot);
      HoldsFront(sorted[0], [], slot);
      assert [sorted[0]] + [] == [sorted[0]];
    }
  }

  lemma UnsteadyLosesSlot(sorted: seq<Range>) returns (slot: int)
    requires SortedByStart(sorted) && !AllSteady(sorted) && Checked(Merge(sorted)) && |sorted| > 0
    ensures Holds(sorted, slot) && !Holds(Merge(sorted), slot)
  {
    assert |sorted| > 1;
    var done, rest := sorted[..1], sorted[1..];
    MergeRestPrefix(done, rest);
    assert Steady(sorted[0]);
    assert sorted == done + rest;
    slot := SomeBackward(done, rest);
    assert sorted == [sorted[0]] + rest && done == [sorted[0]] + [];
    HoldsFront(sorted[0], rest, slot);
    HoldsFront(sorted[0], [], slot);
  }

  /**
   Accepted input keeps its slots exactly if no range ends more than one before its start:
   a range such as 10-5 after 2-9 is merged away together with the slots it should not touch.
   */
  lemma AcceptedKeepsSlots(rs: seq<Range>, sorted: seq<Range>)
    requires SortOf(sorted, rs) && Accepts(rs, sorted)
    ensures (forall slot :: Holds(Merge(sorted), slot) <==> Holds(rs, slot)) <==> AllSteady(rs)
  {
    SortKeepsSlots(sorted, rs, 0);
    if AllSteady(rs) {
      forall slot ensures Holds(Merge(sorted), slot) <==> Holds(rs, slot) {
        SteadyKeepsSlots(sorted, slot);
        SortKeepsSlots(sorted, rs, slot);
      }
    } else {
      assert |multiset(sorted)| == |multiset(rs)|;
      var slot := UnsteadyLosesSlot(sorted);
      SortKeepsSlots(sorted, rs, slot);
    }
  }

  lemma CanonicalIsDisjoint(rs: seq<Range>)
    requires Canonical(rs)
    ensures Disjoint(rs)
  {
    forall slot ensures Cover(rs, slot) <= 1 {
      CanonicalCover(rs, slot);
    }
  }

  lemma {:induction false} CanonicalCover(rs: seq<Range>, slot: int)
    requires Canonical(rs)
    ensures Cover(rs, slot) <= 1
  {
    if rs != [] {
      CanonicalCover(rs[1..], slot);
      TailHolds(rs, slot);
      CoverIsHolds(rs[1..], slot);
    }
  }

  /** 2-9 10-5 is accepted as 2-5. */
  lemma BackwardExample()
    ensures
      var rs := [Range(2, 9), Range(10, 5)];
      SortOf(rs, rs) && Accepts(rs, rs) && Merge(rs) == [Range(2, 5)] && Holds(rs, 7) && !Holds(Merge(rs), 7)
  {
    var rs := [Range(2, 9), Range(10, 5)];
    assert rs[1..] == [Range(10, 5)] && rs[..1] == [Range(2, 9)];
    assert MergeStep([Range(2, 9)], Range(10, 5)) == [Range(2, 5)];
    assert [Range(10, 5)][1..] == [];
    assert Merge(rs) == [Range(2, 5)];
    CanonicalIsDisjoint([Range(2, 5)]);
    assert Covers(rs[0], 7);
  }

  lemma MergeThree(p: Range, q: Range, r: Range)
    ensures Merge([p, q, r]) == MergeStep(MergeStep([p], q), r)
  {
    var rs := [p, q, r];
    assert rs[..1] == [p] && rs[1..] == [q, r] && [q, r][1..] == [r] && [r][1..] == [];
    var d := MergeStep([p], q);
    assert MergeRest(d, [r]) == MergeRest(MergeStep(d, r), []);
  }

  /** With backward ranges the verdict can depend on how the sort orders equal starts. */
  lemma OrderDecides()
    ensures
      var a, b := [Range(2, 9), Range(10, 5), Range(10, 12)], [Range(2, 9), Range(10, 12), Range(10, 5)];
      SortOf(a, a) && SortOf(b, a) && Accepts(a, a) && !Accepts(a, b)
  {
    hide Merge, Checked;
    FirstOrder(Range(2, 9), Range(10, 5), Range(10, 12));
    SecondOrder(Range(2, 9), Range(10, 5), Range(10, 12));
    SwapLast(Range(2, 9), Range(10, 5), Range(10, 12));
  }

  lemma SwapLast(p: Range, q: Range, r: Range)
    ensures multiset([p, q, r]) == multiset([p, r, q])
  {
    assert [p, q, r] == [p] + [q] + [r] && [p, r, q] == [p] + [r] + [q];
  }

  lemma FirstOrder(p: Range, q: Range, r: Range)
    requires p == Range(2, 9) && q == Range(10, 5) && r == Range(10, 12)
    ensures Checked(Merge([p, q, r]))
  {
    hide Merge, Cover;
    MergeThree(p, q, r);
    assert Merge([p, q, r]) == [Range(2, 5), r];
    CanonicalIsDisjoint([Range(2, 5), r]);
  }

  lemma SecondOrder(p: Range, q: Range, r: Range)
    requires p == Range(2, 9) && q == Range(10, 5) && r == Range(10, 12)
    ensures !Checked(Merge([p, r, q]))
  {
    hide Merge, Cover, Disjoint;
    MergeThree(p, r, q);
    assert Merge([p, r, q])[1] == q;
  }

  /** Two ranges with the same start: a backward one only together with copies of itself. */
  predicate Unmixed(rs: seq<Range>) {
    forall p, q | p in rs && q in rs && p.start == q.start && p != q :: p.start <= p.end
  }

  /** A second range that holds the start of the one before it is never merged away. */
  lemma TwinRejected(done: seq<Range>, rest: seq<Range>)
    requires done != [] && rest != [] && Covers(done[|done| - 1], rest[0].start)
    ensures !Checked(MergeRest(done, rest))
  {
    hide Cover;
    var d := done + [rest[0]];
    MergeRestPrefix(d, rest[1..]);
    var m, n := MergeRest(done, rest), |done|;
    assert m == MergeRest(d, rest[1..]);
    assert m[n - 1] == m[..n][n - 1] == done[n - 1];
    if Forward(m) {
      CoverTwice(m, n - 1, n, rest[0].start);
    }
  }

  lemma {:induction false} TwinsRejected(done: seq<Range>, rest: seq<Range>, i: nat)
    requires done != [] && SortedByStart(rest) && rest != [] && done[|done| - 1].start <= rest[0].start
    requires i + 1 < |rest| && rest[i].start == rest[i + 1].start && rest[i].start <= rest[i].end
    ensures !Checked(MergeRest(done, rest))
    decreases rest
  {
    hide Checked;
    var d := MergeStep(done, rest[0]);
    assert MergeRest(done, rest) == MergeRest(d, rest[1..]);
    assert rest[1..][0] == rest[1];
    if i == 0 {
      TwinRejected(d, rest[1..]);
    } else {
      assert d[|d| - 1].start <= rest[0].start <= rest[1].start;
      TwinsRejected(d, rest[1..], i - 1);
    }
  }

  /** Two neighbours with the same start, the first one forwards, are always rejected. */
  lemma NeighboursRejected(sorted: seq<Range>, i: nat)
    requires SortedByStart(sorted) && i + 1 < |sorted|
    requires sorted[i].start == sorted[i + 1].start && sorted[i].start <= sorted[i].end
    ensures !Checked(Merge(sorted))
  {
    hide Checked, MergeRest;
    assert Merge(sorted) == MergeRest(sorted[..1], sorted[1..]);
    if i == 0 {
      TwinRejected(sorted[..1], sorted[1..]);
    } else {
      TwinsRejected(sorted[..1], sorted[1..], i - 1);
    }
  }

  lemma SameMembers(a: seq<Range>, b: seq<Range>)
    requires multiset(a) == multiset(b)
    ensures |a| == |b| && forall r :: r in a <==> r in b
  {
    assert |a| == |multiset(a)| && |b| == |multiset(b)|;
    assert forall r :: r in a <==> r in multiset(a);
    assert forall r :: r in b <==> r in multiset(b);
  }

  lemma MixedRejected(sorted: seq<Range>, rs: seq<Range>, p: Range, q: Range)
    requires SortOf(sorted, rs) && Unmixed(rs) && p in rs && q in rs && p.start == q.start && p != q
    ensures !Checked(Merge(sorted))
  {
    SameMembers(sorted, rs);
    hide Checked, Merge;
    var i :| 0 <= i < |sorted| && sorted[i] == p;
    var j :| 0 <= j < |sorted| && sorted[j] == q;
    if i < j {
      StartsBetween(sorted, i, j);
      NeighboursRejected(sorted, i);
    } else {
      StartsBetween(sorted, j, i);
      NeighboursRejected(sorted, j);
    }
  }

  lemma StartsBetween(sorted: seq<Range>, i: nat, j: nat)
    requires SortedByStart(sorted) && i < j < |sorted| && sorted[i].start == sorted[j].start
    ensures sorted[i + 1].start == sorted[i].start
  {
    assert sorted[i].start <= sorted[i + 1].start;
    if i + 1 < j {
      assert sorted[i + 1].start <= sorted[j].start;
    }
  }

  lemma TailOf(a: seq<Range>)
    requires a != []
    ensures multiset(a[1..]) == multiset(a) - multiset{a[0]}
  {
    assert a == [a[0]] + a[1..];
  }

  predicate OneEach(a: seq<Range>) {
    forall p, q | p in a && q in a && p.start == q.start :: p == q
  }

  lemma SameFirst(a: seq<Range>, b: seq<Range>)
    requires SortedByStart(a) && SortedByStart(b) && a != [] && b != [] && OneEach(a) && forall r :: r in a <==> r in b
    ensures a[0] == b[0]
    ensures SortedByStart(a[1..]) && SortedByStart(b[1..]) && OneEach(a[1..])
  {
    assert b[0] in a && a[0] in b;
  }

  /** Where equal starts mean equal ranges there is only one order. */
  lemma {:induction false} OneOrder(a: seq<Range>, b: seq<Range>)
    requires SortedByStart(a) && SortedByStart(b) && multiset(a) == multiset(b) && OneEach(a)
    ensures a == b
  {
    hide SortedByStart, OneEach;
    SameMembers(a, b);
    if a != [] {
      SameFirst(a, b);
      TailOf(a);
      TailOf(b);
      OneOrder(a[1..], b[1..]);
      assert a == [a[0]] + a[1..] && b == [b[0]] + b[1..];
    }
  }

  /** Unless a backward range shares its start with another one, every sort gets the same verdict. */
  lemma OrderDoesNotMatter(rs: seq<Range>, a: seq<Range>, b: seq<Range>)
    requires SortOf(a, rs) && SortOf(b, rs) && Unmixed(rs)
    ensures Accepts(rs, a) <==> Accepts(rs, b)
  {
    hide Checked, Merge;
    if p, q :| p in rs && q in rs && p.start == q.start && p != q {
      MixedRejected(a, rs, p, q);
      MixedRejected(b, rs, p, q);
    } else {
      SameMembers(a, rs);
      OneOrder(a, b);
    }
  }

  // -------------------------------------------------------------- the form is unique

  lemma {:induction false} CanonicalAscends(rs: seq<Range>, i: nat, j: nat)
    requires Canonical(rs) && i < j < |rs|
    ensures rs[i].end + 1 < rs[j].start
  {
    if i + 1 < j {
      CanonicalAscends(rs, i, j - 1);
    }
  }

  lemma FirstIsLeast(rs: seq<Range>, slot: int)
    requires Canonical(rs) && rs != [] && Holds(rs, slot)
    ensures rs[0].start <= slot
    ensures slot > rs[0].end ==> Holds(rs[1..], slot) && slot > rs[0].end + 1
  {
    var i :| 0 <= i < |rs| && Covers(rs[i], slot);
    if i > 0 {
      CanonicalAscends(rs, 0, i);
      assert rs[1..][i - 1] == rs[i];
    }
  }

  lemma TailHolds(rs: seq<Range>, slot: int)
    requires Canonical(rs) && rs != []
    ensures Canonical(rs[1..])
    ensures Holds(rs[1..], slot) <==> Holds(rs, slot) && slot > rs[0].end
  {
    if Holds(rs[1..], slot) {
      var i :| 0 <= i < |rs[1..]| && Covers(rs[1..][i], slot);
      assert Covers(rs[i + 1], slot);
      CanonicalAscends(rs, 0, i + 1);
    }
    if Holds(rs, slot) {
      FirstIsLeast(rs, slot);
    }
  }

  /** Two canonical arrays of the same slots are the same array. */
  lemma {:induction false} CanonicalIsUnique(a: seq<Range>, b: seq<Range>)
    requires Canonical(a) && Canonical(b) && forall slot :: Holds(a, slot) <==> Holds(b, slot)
    ensures a == b
  {
    HoldsFirst(a);
    HoldsFirst(b);
    if a != [] {
      FirstIsLeast(a, b[0].start);
      FirstIsLeast(b, a[0].start);
      SameFirstEnd(a, b);
      SameFirstEnd(b, a);
      forall slot ensures Holds(a[1..], slot) <==> Holds(b[1..], slot) {
        TailHolds(a, slot);
        TailHolds(b, slot);
      }
      TailHolds(a, 0);
      TailHolds(b, 0);
      CanonicalIsUnique(a[1..], b[1..]);
    }
  }

  lemma HoldsFirst(rs: seq<Range>)
    requires Forward(rs)
    ensures rs != [] ==> Holds(rs, rs[0].start)
    ensures rs == [] ==> forall slot :: !Holds(rs, slot)
  {
    if rs != [] {
      assert Covers(rs[0], rs[0].start);
    }
  }

  lemma SameFirstEnd(a: seq<Range>, b: seq<Range>)
    requires Canonical(a) && Canonical(b) && forall slot :: Holds(a, slot) <==> Holds(b, slot)
    requires a != [] && b != [] && a[0].start == b[0].start
    ensures a[0].end >= b[0].end
  {
    if a[0].end < b[0].end {
      assert Covers(b[0], a[0].end + 1) && Holds(b, a[0].end + 1);
      FirstIsLeast(a, a[0].end + 1);
    }
  }
}
