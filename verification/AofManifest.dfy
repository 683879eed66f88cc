/**
 The manifest of src/aof.c: which BASE, INCR and HISTORY files make up the log, and the
 operations that change it.
 */
module AofManifest {

  /** `<prefix>.<seq>.base.<fmt>` and `<prefix>.<seq>.incr.aof`. */
  datatype Name = BaseName(seqNum: nat) | IncrName(seqNum: nat)

  /** `base` is also curr_base_file_seq. */
  datatype Manifest = Manifest(
    base: nat,
    incrs: seq<nat>,              // incr_aof_list, oldest first
    currIncr: nat,                // curr_incr_file_seq
    history: seq<Name>,           // history_aof_list
    dirty: bool)

  function IncrNames(incrs: seq<nat>): seq<Name> {
    seq(|incrs|, i requires 0 <= i < |incrs| => IncrName(incrs[i]))
  }

  /** `getNewBaseFileNameAndMarkPreAsHistory`. */
  function NewBase(m: Manifest): Manifest {
    m.(base := m.base + 1, history := [BaseName(m.base)] + m.history, dirty := true)
  }

  /** `getNewIncrAofName`. */
  function NewIncr(m: Manifest): Manifest {
    m.(incrs := m.incrs + [m.currIncr + 1], currIncr := m.currIncr + 1, dirty := true)
  }

  /** `markRewrittenIncrAofAsHistory` while the last file is open for writing. */
  function MarkRewritten(m: Manifest): Manifest {
    if m.incrs == [] then m
    else
      var last := |m.incrs| - 1;
      m.(incrs := m.incrs[last..], history := IncrNames(m.incrs[..last]) + m.history, dirty := true)
  }

  /** What loading a persisted manifest gives. */
  function Loaded(m: Manifest): Manifest {
    m.(currIncr := if m.incrs == [] then 0 else m.incrs[|m.incrs| - 1], dirty := false)
  }

  class ManifestObject {
    var base: nat
    var incrs: seq<nat>
    var currIncr: nat
    var history: seq<Name>
    var dirty: bool

    constructor (m: Manifest)
      ensures View() == m
    {
      base, incrs, currIncr, history, dirty := m.base, m.incrs, m.currIncr, m.history, m.dirty;
    }

    function View(): Manifest
      reads this
    {
      Manifest(base, incrs, currIncr, history, dirty)
    }

    method GetNewBase()
      modifies this
      ensures View() == NewBase(old(View()))
    {
      history := [BaseName(base)] + history;
      base := base + 1;
      dirty := true;
    }

    method GetNewIncr()
      modifies this
      ensures View() == NewIncr(old(View()))
    {
      currIncr := currIncr + 1;
      incrs := incrs + [currIncr];
      dirty := true;
    }

    /** Walks the list from its tail, past the file being written, moving one entry at a time. */
    method MarkRewrittenAsHistory()
      modifies this
      ensures View() == MarkRewritten(old(View()))
    {
      if incrs == [] {
        return;
      }
      ghost var all, before := incrs, history;
      ghost var last := |all| - 1;
      while |incrs| > 1
        invariant 1 <= |incrs| <= |all|
        invariant incrs == all[..|incrs| - 1] + all[last..]
        invariant history == IncrNames(all[|incrs| - 1..last]) + before
        invariant base == old(base) && currIncr == old(currIncr) && dirty == old(dirty)
      {
        var i := |incrs| - 2;
        assert incrs[i] == all[i];
        assert all[i..last] == [all[i]] + all[i + 1..last];
        history := [IncrName(incrs[i])] + history;
        incrs := incrs[..i] + incrs[i + 1..];
      }
      dirty := true;
    }
  }

  /** Sequence numbers rise, and nothing kept as history can be a live or a future name. */
  predicate WellFormed(m: Manifest) {
    && m.incrs != []
    && m.currIncr == m.incrs[|m.incrs| - 1]
    && (forall i, j | 0 <= i < j < |m.incrs| :: m.incrs[i] < m.incrs[j])
    && forall i | 0 <= i < |m.history| ::
         if m.history[i].BaseName? then m.history[i].seqNum < m.base else m.history[i].seqNum < m.incrs[0]
  }

  function LiveNames(m: Manifest): set<Name> {
    {BaseName(m.base)} + set i | 0 <= i < |m.incrs| :: IncrName(m.incrs[i])
  }

  lemma HistoryIsNotLive(m: Manifest)
    requires WellFormed(m)
    ensures forall i | 0 <= i < |m.history| :: m.history[i] !in LiveNames(m)
  {
    assert forall j | 0 <= j < |m.incrs| :: m.incrs[0] <= m.incrs[j];
  }

  lemma NewIncrKeepsWellFormed(m: Manifest)
    requires WellFormed(m)
    ensures WellFormed(NewIncr(m)) && WellFormed(NewIncr(m).(dirty := false))
    ensures IncrName(m.currIncr + 1) !in LiveNames(m) && m.currIncr + 1 !in m.incrs
  {
    assert forall j | 0 <= j < |m.incrs| :: m.incrs[j] <= m.currIncr;
  }

  /** After a rewrite everything but the new base and the open file is history, and only that. */
  lemma RewriteKeepsWellFormed(m: Manifest)
    requires WellFormed(m)
    ensures WellFormed(MarkRewritten(NewBase(m))) && WellFormed(MarkRewritten(NewBase(m)).(dirty := false))
    ensures BaseName(m.base + 1) !in LiveNames(m)
  {
    var m' := MarkRewritten(NewBase(m));
    var n := |m.incrs| - 1;
    forall i | 0 <= i < |m'.history|
      ensures if m'.history[i].BaseName? then m'.history[i].seqNum < m'.base else m'.history[i].seqNum < m'.incrs[0]
    {
      if i < n {
        assert m'.history[i] == IncrName(m.incrs[i]);
      } else if i > n {
        assert m'.history[i] == m.history[i - n - 1];
        assert m.incrs[0] <= m.incrs[n];
      }
    }
  }

  lemma DroppingHistoryKeepsWellFormed(m: Manifest, k: nat)
    requires WellFormed(m) && k <= |m.history|
    ensures WellFormed(m.(history := m.history[k..], dirty := true)) && LiveNames(m.(history := m.history[k..], dirty := true)) == LiveNames(m)
  {
  }
}
