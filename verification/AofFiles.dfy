/**
 What becomes of the files of a rewrite: none is forgotten, and a rewrite that goes well
 leaves only the new BASE file and the INCR file opened for it.
 */
module AofFiles {
  import opened AofManifest
  import opened AofLog
  import opened AofRewrite
  import opened Basics
  import AofLoad

  // ------------------------------------------------------------------- names

  function Names(m: Manifest): set<Name> {
    LiveNames(m) + set i | 0 <= i < |m.history| :: m.history[i]
  }

  /** The names the next rewrite will use. */
  function Spare(m: Manifest): set<Name> {
    {BaseName(m.base + 1), IncrName(m.currIncr + 1)}
  }

  lemma NewIncrNames(m: Manifest)
    ensures Names(NewIncr(m)) == Names(m) + {IncrName(m.currIncr + 1)}
  {
    var m' := NewIncr(m);
    forall n ensures n in LiveNames(m') <==> n in LiveNames(m) || n == IncrName(m.currIncr + 1) {
      if n == IncrName(m.currIncr + 1) {
        assert m'.incrs[|m.incrs|] == m.currIncr + 1;
      } else if n in LiveNames(m) && n.IncrName? {
        var i :| 0 <= i < |m.incrs| && n == IncrName(m.incrs[i]);
        assert m'.incrs[i] == m.incrs[i];
      }
    }
  }

  /** A finished rewrite forgets no name: what is no longer live is history. */
  lemma RewriteForgetsNone(m: Manifest)
    requires m.incrs != []
    ensures
      var m' := MarkRewritten(NewBase(m));
      && Names(m') == Names(m) + {BaseName(m.base + 1)}
      && LiveNames(m') == {BaseName(m.base + 1), IncrName(m.incrs[|m.incrs| - 1])}
      && |m'.history| == |m.history| + |m.incrs|
  {
    var m' := MarkRewritten(NewBase(m));
    assert m'.incrs == [m.incrs[|m.incrs| - 1]];
    forall n ensures n in Names(m') <==> n in Names(m) || n == BaseName(m.base + 1) {
      RewrittenName(m, n);
    }
    hide Names;
  }

  /** A name of a manifest, written out. */
  predicate IsName(m: Manifest, n: Name) {
    n == BaseName(m.base) || n in m.history || exists i | 0 <= i < |m.incrs| :: n == IncrName(m.incrs[i])
  }

  lemma NameIs(m: Manifest, n: Name)
    ensures n in Names(m) <==> IsName(m, n)
  {
  }

  lemma RewrittenName(m: Manifest, n: Name)
    requires m.incrs != []
    ensures n in Names(MarkRewritten(NewBase(m))) <==> n in Names(m) || n == BaseName(m.base + 1)
  {
    var m', last := MarkRewritten(NewBase(m)), |m.incrs| - 1;
    NameIs(m, n);
    NameIs(m', n);
    InHistory(m, n);
    assert m'.incrs == [m.incrs[last]];
    hide Names;
    if n == IncrName(m.incrs[last]) {
      assert m'.incrs[0] == m.incrs[last];
    }
  }

  lemma InHistory(m: Manifest, n: Name)
    requires m.incrs != []
    ensures
      var last := |m.incrs| - 1;
      n in MarkRewritten(NewBase(m)).history <==>
        n == BaseName(m.base) || n in m.history || (exists i | 0 <= i < last :: n == IncrName(m.incrs[i]))
  {
    var last := |m.incrs| - 1;
    var moved := IncrNames(m.incrs[..last]);
    assert n in moved <==> exists i | 0 <= i < last :: n == IncrName(m.incrs[i]) by {
      if n in moved {
        var i :| 0 <= i < |moved| && moved[i] == n;
        assert n == IncrName(m.incrs[i]);
      }
      if i :| 0 <= i < last && n == IncrName(m.incrs[i]) {
        assert moved[i] == n;
      }
    }
    assert MarkRewritten(NewBase(m)).history == moved + ([BaseName(m.base)] + m.history);
  }

  // ------------------------------------------------------- no file is forgotten

  /** Every file is named by the manifest, or has a name the next rewrite writes over. */
  predicate Accounted(files: Files, m: Manifest) {
    files.Keys <= Names(m) + Spare(m)
  }

  predicate Numbered(m: Manifest) {
    m.incrs != [] && m.currIncr == m.incrs[|m.incrs| - 1]
  }

  /** What the server may write with `m` in memory is accounted for by `d` on disk. */
  predicate Covers(d: Manifest, m: Manifest)
    requires m.incrs != []
  {
    Spare(m) + {IncrName(Last(m))} <= Names(d) + Spare(d)
  }

  predicate PhaseFollows(s: State) {
    match s.phase
    case Opened(am) => am == NewIncr(s.manifest)
    case OpenPersisted(am) => am == NewIncr(s.manifest).(dirty := false) && s.disk.manifest == am
    case Renamed(am) => am == MarkRewritten(NewBase(s.manifest))
    case DonePersisted(am) => am == MarkRewritten(NewBase(s.manifest)).(dirty := false) && s.disk.manifest == am
    case _ => true
  }

  ghost predicate NoneForgotten(s: State) {
    && Numbered(s.manifest) && Numbered(s.disk.manifest)
    && Accounted(s.disk.files, s.manifest) && Accounted(s.disk.files, s.disk.manifest)
    && Covers(s.disk.manifest, s.manifest) && PhaseFollows(s)
  }

  /** Manifests that name the same files. */
  predicate Alike(a: Manifest, b: Manifest) {
    a.base == b.base && a.incrs == b.incrs && a.currIncr == b.currIncr && a.history == b.history
  }

  lemma AlikeNames(a: Manifest, b: Manifest)
    requires Alike(a, b)
    ensures Names(a) == Names(b) && Spare(a) == Spare(b) && (Numbered(a) <==> Numbered(b))
  {
  }

  lemma LastIsNamed(m: Manifest)
    requires m.incrs != []
    ensures IncrName(Last(m)) in Names(m) && BaseName(m.base) in Names(m)
  {
    assert m.incrs[|m.incrs| - 1] == Last(m);
  }

  /** A file of a name that is accounted for changes nothing. */
  lemma AddedFile(files: Files, m: Manifest, n: Name, c: Content)
    requires Accounted(files, m) && n in Names(m) + Spare(m)
    ensures Accounted(files[n := c], m)
  {
  }

  /** The manifest of a next step accounts for all that its predecessor does. */
  predicate Succeeds(am: Manifest, m: Manifest)
    requires m.incrs != []
  {
    Numbered(am) && Names(m) + Spare(m) <= Names(am) + Spare(am)
  }

  lemma SuccessorAccounts(files: Files, am: Manifest, m: Manifest)
    requires m.incrs != [] && Succeeds(am, m) && Accounted(files, m)
    ensures Accounted(files, am) && Covers(am, m) && Covers(am, am)
  {
    LastIsNamed(m);
    LastIsNamed(am);
    hide Names;
  }

  lemma NewIncrSucceeds(m: Manifest)
    requires Numbered(m)
    ensures Succeeds(NewIncr(m), m) && Succeeds(NewIncr(m).(dirty := false), m)
  {
    NewIncrNames(m);
    AlikeNames(NewIncr(m), NewIncr(m).(dirty := false));
    hide Names;
  }

  lemma RewrittenSucceeds(m: Manifest)
    requires Numbered(m)
    ensures
      var am := MarkRewritten(NewBase(m));
      Succeeds(am, m) && Succeeds(am.(dirty := false), m)
  {
    var am := MarkRewritten(NewBase(m));
    RewriteForgetsNone(m);
    AlikeNames(am, am.(dirty := false));
    assert am.incrs == [m.incrs[|m.incrs| - 1]];
    hide Names;
  }

  lemma WritesKeepNames(s: State, cfg: AofLoad.Config, step: Step)
    requires NoneForgotten(s) && Enabled(cfg, s, step) && (step.Feed? || step.Flush? || step.StartRewrite?)
    ensures NoneForgotten(Next(cfg, s, step))
  {
    hide Names, Spare, AofFlush.Flush;
    LastIsNamed(s.manifest);
  }

  lemma OpenNewKeepsNames(s: State, cfg: AofLoad.Config, ok: bool)
    requires NoneForgotten(s) && Enabled(cfg, s, OpenNew(ok))
    ensures NoneForgotten(Next(cfg, s, OpenNew(ok)))
  {
    var n := IncrName(s.manifest.currIncr + 1);
    assert n in Spare(s.manifest);
    assert n in Names(s.disk.manifest) + Spare(s.disk.manifest);
    hide Names, Spare;
    AddedFile(s.disk.files, s.manifest, n, Log([]));
    AddedFile(s.disk.files, s.disk.manifest, n, Log([]));
    hide Accounted, Covers;
  }

  lemma OpenKeepsNames(s: State, cfg: AofLoad.Config, step: Step)
    requires NoneForgotten(s) && Enabled(cfg, s, step) && (step.PersistOpen? || step.UseNew?)
    ensures NoneForgotten(Next(cfg, s, step))
  {
    hide Names, Spare;
    var m := s.manifest;
    var am := NewIncr(m);
    NewIncrSucceeds(m);
    SuccessorAccounts(s.disk.files, am.(dirty := false), m);
    hide Accounted, Covers;
  }

  lemma RenameKeepsNames(s: State, cfg: AofLoad.Config, ok: bool)
    requires NoneForgotten(s) && Enabled(cfg, s, Rename(ok))
    ensures NoneForgotten(Next(cfg, s, Rename(ok)))
  {
    var n, c := BaseName(s.manifest.base + 1), Snapshot(s.child.value);
    assert MarkRewritten(NewBase(s.manifest)).base == s.manifest.base + 1;
    assert n in Spare(s.manifest);
    assert n in Names(s.disk.manifest) + Spare(s.disk.manifest);
    hide Names, Spare;
    AddedFile(s.disk.files, s.manifest, n, c);
    AddedFile(s.disk.files, s.disk.manifest, n, c);
    hide Accounted, Covers, MarkRewritten;
  }

  lemma FinishKeepsNames(s: State, cfg: AofLoad.Config, step: Step)
    requires NoneForgotten(s) && Enabled(cfg, s, step) && (step.PersistDone? || step.UseRewritten?)
    ensures NoneForgotten(Next(cfg, s, step))
  {
    hide Names, Spare;
    var m := s.manifest;
    var am := MarkRewritten(NewBase(m));
    RewrittenSucceeds(m);
    SuccessorAccounts(s.disk.files, am.(dirty := false), m);
    hide Accounted, Covers, MarkRewritten;
  }

  lemma ChildKeepsNames(s: State, cfg: AofLoad.Config, step: Step)
    requires NoneForgotten(s) && Enabled(cfg, s, step) && (step.Fork? || step.ChildExit? || step.UnlinkNewBase?)
    ensures NoneForgotten(Next(cfg, s, step))
  {
    hide Names, Spare;
  }

  lemma FirstDropped(m: Manifest)
    requires m.history != []
    ensures
      var m' := m.(history := m.history[1..], dirty := true);
      Names(m) - {m.history[0]} <= Names(m')
  {
    var m' := m.(history := m.history[1..], dirty := true);
    forall n | n in Names(m) && n != m.history[0] ensures n in Names(m') {
      if n !in LiveNames(m) {
        var i :| 0 <= i < |m.history| && m.history[i] == n;
        assert m'.history[i - 1] == n;
      }
    }
  }

  lemma DeleteKeepsNames(s: State, cfg: AofLoad.Config, step: Step)
    requires NoneForgotten(s) && Enabled(cfg, s, step) && (step.StartDelete? || step.DeleteOne? || step.PersistDelete?)
    ensures NoneForgotten(Next(cfg, s, step))
  {
    var m := s.manifest;
    AlikeNames(m, m.(dirty := false));
    LastIsNamed(m);
    if step.DeleteOne? {
      FirstDropped(m);
    }
    hide Names;
  }

  lemma CrashKeepsNames(s: State, cfg: AofLoad.Config)
    requires NoneForgotten(s) && Enabled(cfg, s, Crash)
    ensures NoneForgotten(Next(cfg, s, Crash))
  {
    var m := Loaded(s.disk.manifest);
    AlikeNames(s.disk.manifest, m);
    LastIsNamed(m);
    hide Names, Recover, AofLoad.Load;
  }

  lemma NextForgetsNone(s: State, cfg: AofLoad.Config, step: Step)
    requires NoneForgotten(s) && Enabled(cfg, s, step)
    ensures NoneForgotten(Next(cfg, s, step))
  {
    hide NoneForgotten, Next, Enabled;
    match step
    case Feed(_) | Flush(_) | StartRewrite(_) => WritesKeepNames(s, cfg, step);
    case OpenNew(ok) => OpenNewKeepsNames(s, cfg, ok);
    case PersistOpen(_) | UseNew => OpenKeepsNames(s, cfg, step);
    case Fork(_) | ChildExit(_) | UnlinkNewBase => ChildKeepsNames(s, cfg, step);
    case Rename(ok) => RenameKeepsNames(s, cfg, ok);
    case PersistDone(_) | UseRewritten => FinishKeepsNames(s, cfg, step);
    case StartDelete | DeleteOne | PersistDelete(_) => DeleteKeepsNames(s, cfg, step);
    case Crash => CrashKeepsNames(s, cfg);
  }

  /** A run of any steps that are possible, harmful ones included. */
  predicate AnyRun(cfg: AofLoad.Config, s: State, steps: seq<Step>)
    decreases steps
  {
    steps == [] || (Enabled(cfg, s, steps[0]) && AnyRun(cfg, Next(cfg, s, steps[0]), steps[1..]))
  }

  function AnyAfter(cfg: AofLoad.Config, s: State, steps: seq<Step>): State
    requires AnyRun(cfg, s, steps)
    decreases steps
  {
    if steps == [] then s else AnyAfter(cfg, Next(cfg, s, steps[0]), steps[1..])
  }

  lemma {:induction false} RunForgetsNone(cfg: AofLoad.Config, s: State, steps: seq<Step>)
    requires NoneForgotten(s) && AnyRun(cfg, s, steps)
    ensures NoneForgotten(AnyAfter(cfg, s, steps))
    decreases steps
  {
    hide NoneForgotten, Next, Enabled;
    if steps != [] {
      NextForgetsNone(s, cfg, steps[0]);
      RunForgetsNone(cfg, Next(cfg, s, steps[0]), steps[1..]);
    }
  }

  /**
   In every reachable state, whatever failed on the way: each file is named by the manifest on
   disk, to be loaded or to be deleted, or has one of the two names the next rewrite writes over.
   */
  lemma NoFileIsForgotten(cfg: AofLoad.Config, steps: seq<Step>)
    requires AnyRun(cfg, INITIAL, steps)
    ensures
      var s := AnyAfter(cfg, INITIAL, steps);
      forall n | n in s.disk.files ::
        && (n in LiveNames(s.disk.manifest) || n in s.disk.manifest.history || n in Spare(s.disk.manifest))
        && (n in LiveNames(s.manifest) || n in s.manifest.history || n in Spare(s.manifest))
  {
    InitialIsAccounted();
    hide INITIAL;
    RunForgetsNone(cfg, INITIAL, steps);
    hide AnyRun, AnyAfter;
  }

  lemma InitialIsAccounted()
    ensures NoneForgotten(INITIAL)
  {
    LastIsNamed(INITIAL.manifest);
  }

  // ------------------------------------------------------ a rewrite that goes well

  function Deletions(n: nat): seq<Step> {
    if n == 0 then [] else [DeleteOne] + Deletions(n - 1)
  }

  /** The loop of `aofDelHistoryFiles`: every history file goes, and no other. */
  lemma {:induction false} DeletesHistory(cfg: AofLoad.Config, s: State)
    requires s.phase.Deleting? && s.manifest.incrs != [] && s.disk.manifest.incrs != []
    ensures AnyRun(cfg, s, Deletions(|s.manifest.history|))
    ensures
      var r := AnyAfter(cfg, s, Deletions(|s.manifest.history|));
      && r.manifest == s.manifest.(history := [], dirty := s.manifest.dirty || s.manifest.history != [])
      && r == s.(manifest := r.manifest, disk := s.disk.(files := r.disk.files))
      && r.disk.files == s.disk.files - (set n | n in s.manifest.history)
    decreases |s.manifest.history|
  {
    var h := s.manifest.history;
    if h != [] {
      var s1 := Next(cfg, s, DeleteOne);
      DeletesHistory(cfg, s1);
      assert Deletions(|h|)[1..] == Deletions(|h| - 1);
      assert forall n :: n in h <==> n == h[0] || n in h[1..];
      assert s.disk.files - {h[0]} - (set n | n in h[1..]) == s.disk.files - (set n | n in h);
    } else {
      assert s.disk.files - (set n | n in h) == s.disk.files;
    }
  }

  lemma {:induction false} RunsOn(cfg: AofLoad.Config, s: State, a: seq<Step>, b: seq<Step>)
    requires AnyRun(cfg, s, a) && AnyRun(cfg, AnyAfter(cfg, s, a), b)
    ensures AnyRun(cfg, s, a + b) && AnyAfter(cfg, s, a + b) == AnyAfter(cfg, AnyAfter(cfg, s, a), b)
    decreases a
  {
    hide Next, Enabled;
    if a == [] {
      assert a + b == b;
    } else {
      assert (a + b)[1..] == a[1..] + b;
      RunsOn(cfg, Next(cfg, s, a[0]), a[1..], b);
    }
  }

  lemma OneRun(cfg: AofLoad.Config, s: State, step: Step)
    requires Enabled(cfg, s, step)
    ensures AnyRun(cfg, s, [step]) && AnyAfter(cfg, s, [step]) == Next(cfg, s, step)
  {
    hide Next, Enabled;
    assert [step][1..] == [];
  }

  const INSTALL := [Rename(true), PersistDone(Ok), UseRewritten]

  lemma Installs(cfg: AofLoad.Config, s: State)
    requires s.phase.Finishing? && s.child.Some? && s.manifest.incrs != [] && s.disk.manifest.incrs != []
    ensures AnyRun(cfg, s, INSTALL)
    ensures
      var am := MarkRewritten(NewBase(s.manifest)).(dirty := false);
      var files := s.disk.files[BaseName(am.base) := Snapshot(s.child.value)];
      AnyAfter(cfg, s, INSTALL) == s.(disk := Disk(files, am), manifest := am, child := None, phase := Deleting)
  {
    hide AnyRun, AnyAfter, Recover;
    var s1 := Next(cfg, s, Rename(true));
    var s2 := Next(cfg, s1, PersistDone(Ok));
    OneRun(cfg, s, Rename(true));
    OneRun(cfg, s1, PersistDone(Ok));
    OneRun(cfg, s2, UseRewritten);
    RunsOn(cfg, s, [Rename(true)], [PersistDone(Ok)]);
    RunsOn(cfg, s, [Rename(true)] + [PersistDone(Ok)], [UseRewritten]);
    assert INSTALL == [Rename(true)] + [PersistDone(Ok)] + [UseRewritten];
  }

  /** From the end of the child to the end of the clean-up. */
  function Finish(m: Manifest): seq<Step> {
    INSTALL + Deletions(|m.history| + |m.incrs|) + [PersistDelete(Ok)]
  }

  /** The files when it has gone well. */
  function Compacted(s: State): Files
    requires s.child.Some?
  {
    var am := MarkRewritten(NewBase(s.manifest));
    s.disk.files[BaseName(am.base) := Snapshot(s.child.value)] - set n | n in am.history
  }

  lemma FinishRuns(cfg: AofLoad.Config, s: State)
    requires s.phase.Finishing? && s.child.Some? && s.manifest.incrs != [] && s.disk.manifest.incrs != []
    ensures AnyRun(cfg, s, Finish(s.manifest))
    ensures
      var m := MarkRewritten(NewBase(s.manifest)).(history := [], dirty := false);
      AnyAfter(cfg, s, Finish(s.manifest))
        == s.(disk := Disk(Compacted(s), m), manifest := m, child := None, phase := Idle)
  {
    hide AnyRun, AnyAfter, Recover, Deletions;
    var m := s.manifest;
    var deletions := Deletions(|m.history| + |m.incrs|);
    Installs(cfg, s);
    RewriteForgetsNone(m);
    var s1 := AnyAfter(cfg, s, INSTALL);
    assert s1.manifest.incrs != [] && |s1.manifest.history| == |m.history| + |m.incrs|;
    DeletesHistory(cfg, s1);
    hide MarkRewritten;
    RunsOn(cfg, s, INSTALL, deletions);
    var s2 := AnyAfter(cfg, s1, deletions);
    OneRun(cfg, s2, PersistDelete(Ok));
    RunsOn(cfg, s, INSTALL + deletions, [PersistDelete(Ok)]);
  }

  /**
   On disk and in memory the manifest names the new BASE file and the current INCR file of `m` and
   no history; the first is what the child wrote, the second is as it was in `files`, and besides
   them only names the next rewrite writes over can exist.
   */
  predicate IsCompact(m: Manifest, written: seq<Command>, files: Files, r: State)
    requires m.incrs != []
  {
    var base, incr := BaseName(m.base + 1), IncrName(Last(m));
    && r.phase == Idle && r.child == None
    && r.manifest == r.disk.manifest == Manifest(m.base + 1, [Last(m)], m.currIncr, [], false)
    && base in r.disk.files && r.disk.files[base] == Snapshot(written)
    && (incr in r.disk.files <==> incr in files)
    && (incr in files ==> r.disk.files[incr] == files[incr])
    && r.disk.files.Keys <= {base, incr, BaseName(m.base + 2), IncrName(m.currIncr + 1)}
  }

  /** A rewrite whose steps go well leaves the log compact. */
  lemma RewriteCompacts(cfg: AofLoad.Config, s: State)
    requires NoneForgotten(s) && WellFormed(s.manifest) && s.phase.Finishing? && s.child.Some?
    ensures AnyRun(cfg, s, Finish(s.manifest))
    ensures IsCompact(s.manifest, s.child.value, s.disk.files, AnyAfter(cfg, s, Finish(s.manifest)))
  {
    hide *;
    IsNumbered(s);
    FinishRuns(cfg, s);
    RunForgetsNone(cfg, s, Finish(s.manifest));
    CompactedFiles(s);
    RewrittenIs(s.manifest);
    var r := AnyAfter(cfg, s, Finish(s.manifest));
    OnlySpare(r);
    CompactIs(s, r);
  }

  lemma CompactIs(s: State, r: State)
    requires WellFormed(s.manifest) && s.child.Some?
    requires
      var m := s.manifest;
      && r == s.(disk := Disk(Compacted(s), Manifest(m.base + 1, [Last(m)], m.currIncr, [], false)),
                 manifest := Manifest(m.base + 1, [Last(m)], m.currIncr, [], false), child := None, phase := Idle)
      && r.disk.files.Keys <= {BaseName(m.base + 1), IncrName(Last(m)), BaseName(m.base + 2), IncrName(m.currIncr + 1)}
    ensures IsCompact(s.manifest, s.child.value, s.disk.files, r)
  {
    CompactedFiles(s);
    hide Compacted;
  }

  lemma CompactedFiles(s: State)
    requires WellFormed(s.manifest) && s.child.Some?
    ensures
      var base, incr, files := BaseName(s.manifest.base + 1), IncrName(Last(s.manifest)), Compacted(s);
      && base in files && files[base] == Snapshot(s.child.value)
      && (incr in files <==> incr in s.disk.files)
      && (incr in s.disk.files ==> files[incr] == s.disk.files[incr])
  {
    NewestIsNotHistory(s.manifest);
    RewrittenIs(s.manifest);
    hide MarkRewritten, NewBase;
  }

  lemma RewrittenIs(m: Manifest)
    requires WellFormed(m)
    ensures
      var m' := MarkRewritten(NewBase(m));
      m' == Manifest(m.base + 1, [Last(m)], m.currIncr, m'.history, true)
  {
    assert MarkRewritten(NewBase(m)).incrs == [Last(m)];
  }

  lemma IsNumbered(s: State)
    requires NoneForgotten(s)
    ensures s.manifest.incrs != [] && s.disk.manifest.incrs != []
  {
  }

  lemma OnlySpare(s: State)
    requires NoneForgotten(s) && s.manifest.history == [] && |s.manifest.incrs| == 1
    ensures
      var m := s.manifest;
      s.disk.files.Keys <= {BaseName(m.base), IncrName(m.incrs[0]), BaseName(m.base + 1), IncrName(m.currIncr + 1)}
  {
  }

  lemma NewestIsNotHistory(m: Manifest)
    requires WellFormed(m)
    ensures
      var h := MarkRewritten(NewBase(m)).history;
      BaseName(m.base + 1) !in h && IncrName(Last(m)) !in h
  {
    RewriteKeepsWellFormed(m);
    var m' := MarkRewritten(NewBase(m));
    HistoryIsNotLive(m');
    assert m'.incrs[0] == Last(m);
  }
}
