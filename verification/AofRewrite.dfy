/**
 The background rewrite protocol of src/aof.c with a crash possible between any two steps.

 The dataset is the list of commands executed so far; a BASE file is a snapshot of it, an
 INCR file holds encoded commands byte by byte. Recovery is the loader of `AofLoad` applied
 to the files the manifest on disk names.
 */
module AofRewrite {
  import opened AofLog
  import opened Numbers
  import AofFlush
  import AofLoad
  import opened AofManifest
  import opened Basics

  datatype Content = Snapshot(cmds: seq<Command>) | Log(bytes: seq<Byte>)

  type Files = map<Name, Content>

  datatype Disk = Disk(files: Files, manifest: Manifest)

  /** Where the server is inside an operation that takes several steps. */
  datatype Phase =
    | Idle
    | Flushed                       // rewrite start: buffer flushed
    | Opened(am: Manifest)          // rewrite start: new INCR file created
    | OpenPersisted(am: Manifest)   // rewrite start: manifest written
    | Forking                       // rewrite start: new file in use
    | Finishing                     // the child exited with success
    | Renamed(am: Manifest)         // rewrite end: new BASE file in place
    | Abandoning(am: Manifest)      // rewrite end: manifest not written, new BASE file to be removed
    | DonePersisted(am: Manifest)   // rewrite end: manifest written
    | Deleting                      // removing history files
    | Exited                        // a flush ended the process

  /** `aof_fd`, and the fields `flushAppendOnlyFile` keeps about it. */
  datatype Fd = Fd(
    offset: nat,
    append: bool,                      // opened with O_APPEND
    size: nat,                         // aof_last_incr_size
    writeOk: bool,
    postponedStart: int)

  datatype State = State(
    disk: Disk,
    manifest: Manifest,                // server.aof_manifest
    fd: Fd,
    buf: seq<Byte>,                    // aof_buf
    child: Option<seq<Command>>,       // the dataset a running child was forked with
    phase: Phase,
    fed: seq<Command>,                 // every command fed: the dataset
    segs: Segments)      // the commands fed while INCR file n was current

  /** How writing the manifest ends; `Late` is a rename that worked followed by a failed directory fsync. */
  datatype Persist = Ok | Early | Late

  datatype Step =
    | Feed(cmd: Command)
    | Flush(env: AofFlush.Env)
    | StartRewrite(env: AofFlush.Env)
    | OpenNew(ok: bool)
    | PersistOpen(outcome: Persist)
    | UseNew
    | Fork(ok: bool)
    | ChildExit(ok: bool)
    | Rename(ok: bool)
    | PersistDone(outcome: Persist)
    | UnlinkNewBase
    | UseRewritten
    | StartDelete
    | DeleteOne
    | PersistDelete(outcome: Persist)
    | Crash

  // ---------------------------------------------------------------------- recovery

  /** The INCR part of `loadAppendOnlyFiles`: only the last file may be repaired. */
  function LoadIncrs(cfg: AofLoad.Config, files: Files, incrs: seq<nat>): Option<seq<Command>> {
    if incrs == [] then Some([])
    else if IncrName(incrs[0]) !in files || !files[IncrName(incrs[0])].Log? then None
    else
      var o := AofLoad.Load(cfg, files[IncrName(incrs[0])].bytes);
      var repaired := o.status == AofLoad.Truncated || o.status == AofLoad.BrokenRecovered;
      if o.status == AofLoad.Failed || (repaired && |incrs| > 1) then None
      else
        var rest := LoadIncrs(cfg, files, incrs[1..]);
        if rest.None? then None else Some(o.executed + rest.value)
  }

  /** `loadAppendOnlyFiles`: the dataset found on disk, or nothing if the server refuses to start. */
  function Recover(cfg: AofLoad.Config, disk: Disk): Option<seq<Command>> {
    var b := BaseName(disk.manifest.base);
    if b !in disk.files || !disk.files[b].Snapshot? then None
    else
      var rest := LoadIncrs(cfg, disk.files, disk.manifest.incrs);
      if rest.None? then None else Some(disk.files[b].cmds + rest.value)
  }

  // ------------------------------------------------------------------------- steps

  function Last(m: Manifest): nat
    requires m.incrs != []
  {
    m.incrs[|m.incrs| - 1]
  }

  function Bytes(files: Files, n: nat): seq<Byte> {
    if IncrName(n) in files && files[IncrName(n)].Log? then files[IncrName(n)].bytes else []
  }

  /** The current INCR file, its descriptor and the buffer, as `AofFlush` sees them. */
  function WriterOf(s: State): AofFlush.Writer
    requires s.manifest.incrs != []
  {
    AofFlush.Writer(Bytes(s.disk.files, Last(s.manifest)), s.fd.offset, s.fd.append, s.buf,
                    s.fd.size, s.fd.writeOk, s.fd.postponedStart)
  }

  function FdOf(w: AofFlush.Writer): Fd {
    Fd(w.offset, w.append, w.lastIncrSize, w.writeOk, w.postponedStart)
  }

  /** The state after a flush with outcome `f`, on the way to `phase`. */
  function WithWriter(s: State, f: AofFlush.Flushed, phase: Phase): State
    requires s.manifest.incrs != []
  {
    s.(disk := s.disk.(files := s.disk.files[IncrName(Last(s.manifest)) := Log(f.writer.file)]),
       buf := f.writer.buf, fd := FdOf(f.writer), phase := if f.exited then Exited else phase)
  }

  function SetManifest(d: Disk, m: Manifest): Disk {
    d.(manifest := m.(dirty := false))
  }

  predicate Accepts(cfg: AofLoad.Config, cmd: Command) {
    Encodable(cmd) && cfg.kindOf(cmd) == AofLoad.Plain
  }

  predicate Enabled(cfg: AofLoad.Config, s: State, step: Step) {
    s.manifest.incrs != [] && s.disk.manifest.incrs != [] &&
    match step
    case Feed(cmd) => s.phase.Idle? && Accepts(cfg, cmd)
    case Flush(_) => s.phase.Idle?
    case StartRewrite(e) => s.phase.Idle? && s.child.None? && e.force
    case OpenNew(_) => s.phase.Flushed?
    case PersistOpen(_) => s.phase.Opened?
    case UseNew => s.phase.OpenPersisted?
    case Fork(_) => s.phase.Forking?
    case ChildExit(_) => s.phase.Idle? && s.child.Some?
    case Rename(_) => s.phase.Finishing? && s.child.Some?
    case PersistDone(_) => s.phase.Renamed?
    case UnlinkNewBase => s.phase.Abandoning?
    case UseRewritten => s.phase.DonePersisted?
    case StartDelete => s.phase.Idle? && s.manifest.history != []
    case DeleteOne => s.phase.Deleting? && s.manifest.history != []
    case PersistDelete(_) => s.phase.Deleting? && s.manifest.history == []
    case Crash => Recover(cfg, s.disk).Some?
  }

  function Next(cfg: AofLoad.Config, s: State, step: Step): State
    requires Enabled(cfg, s, step)
  {
    match step
    case Feed(cmd) =>
      var n := Last(s.manifest);
      s.(buf := s.buf + Encode(cmd), fed := s.fed + [cmd], segs := s.segs[n := Seg(s.segs, n) + [cmd]])
    case Flush(e) => WithWriter(s, AofFlush.Flush(WriterOf(s), e), Idle)
    case StartRewrite(e) =>
      // the forced flush, whose outcome is not looked at
      WithWriter(s, AofFlush.Flush(WriterOf(s), e), Flushed)
    case OpenNew(ok) =>
      if !ok then s.(phase := Idle)
      else
        // O_TRUNC | O_CREAT
        var am := NewIncr(s.manifest);
        s.(disk := s.disk.(files := s.disk.files[IncrName(am.currIncr) := Log([])]),
           segs := s.segs[am.currIncr := []],
           phase := Opened(am))
    case PersistOpen(outcome) =>
      match outcome {
        case Ok => s.(disk := SetManifest(s.disk, s.phase.am), phase := OpenPersisted(s.phase.am.(dirty := false)))
        case Early => s.(phase := Idle)
        case Late => s.(disk := SetManifest(s.disk, s.phase.am), phase := Idle)
      }
    case UseNew =>
      s.(manifest := s.phase.am, fd := Fd(0, false, 0, s.fd.writeOk, s.fd.postponedStart), phase := Forking)
    case Fork(ok) => s.(child := if ok then Some(s.fed) else None, phase := Idle)
    case ChildExit(ok) => if ok then s.(phase := Finishing) else s.(child := None)
    case Rename(ok) =>
      if !ok then s.(child := None, phase := Idle)
      else
        var am := MarkRewritten(NewBase(s.manifest));
        s.(disk := s.disk.(files := s.disk.files[BaseName(am.base) := Snapshot(s.child.value)]), phase := Renamed(am))
    case PersistDone(outcome) =>
      match outcome {
        case Ok => s.(disk := SetManifest(s.disk, s.phase.am), phase := DonePersisted(s.phase.am.(dirty := false)))
        case Early => s.(phase := Abandoning(s.phase.am))
        case Late => s.(disk := SetManifest(s.disk, s.phase.am), phase := Abandoning(s.phase.am))
      }
    case UnlinkNewBase =>
      s.(disk := s.disk.(files := s.disk.files - {BaseName(s.phase.am.base)}), child := None, phase := Idle)
    case UseRewritten => s.(manifest := s.phase.am, child := None, phase := Deleting)
    case StartDelete => s.(phase := Deleting)
    case DeleteOne =>
      s.(disk := s.disk.(files := s.disk.files - {s.manifest.history[0]}),
         manifest := s.manifest.(history := s.manifest.history[1..], dirty := true))
    case PersistDelete(outcome) =>
      if outcome == Early || !s.manifest.dirty then s.(phase := Idle)
      else
        s.(disk := SetManifest(s.disk, s.manifest), phase := Idle,
           manifest := if outcome == Ok then s.manifest.(dirty := false) else s.manifest)
    case Crash =>
      // restart: load the manifest and the files, repair the last one, reopen it with O_APPEND
      var m := Loaded(s.disk.manifest);
      var n := Last(m);
      var o := AofLoad.Load(cfg, Bytes(s.disk.files, n));
      var bytes := Cut(Bytes(s.disk.files, n), o.length);
      State(s.disk.(files := s.disk.files[IncrName(n) := Log(bytes)]), m, FdOf(AofFlush.Opened(bytes, true)),
            [], None, Idle, Recover(cfg, s.disk).value, s.segs[n := o.executed])
  }

  function Cut(bytes: seq<Byte>, n: nat): seq<Byte> {
    if n <= |bytes| then bytes[..n] else bytes
  }

  // -------------------------------------------------------------------- the view

  type Segments = map<nat, seq<Command>>

  function Seg(segs: Segments, n: nat): seq<Command> {
    if n in segs then segs[n] else []
  }

  function Concat(segs: Segments, incrs: seq<nat>): seq<Command> {
    if incrs == [] then [] else Seg(segs, incrs[0]) + Concat(segs, incrs[1..])
  }

  predicate AllAccepted(cfg: AofLoad.Config, segs: Segments) {
    forall n | n in segs :: forall i | 0 <= i < |segs[n]| :: Accepts(cfg, segs[n][i])
  }

  /** INCR file `n` exists and holds the first bytes of what was fed to it. */
  predicate HoldsPart(files: Files, segs: Segments, n: nat) {
    && IncrName(n) in files && files[IncrName(n)].Log?
    && files[IncrName(n)].bytes <= EncodeAll(Seg(segs, n))
  }

  /** INCR file `n` exists and holds all that was fed to it. */
  predicate HoldsAll(files: Files, segs: Segments, n: nat) {
    HoldsPart(files, segs, n) && files[IncrName(n)].bytes == EncodeAll(Seg(segs, n))
  }

  /** The files `m` names exist, and all INCR files but the last are complete. */
  predicate FilesHold(m: Manifest, files: Files, segs: Segments) {
    && WellFormed(m)
    && BaseName(m.base) in files && files[BaseName(m.base)].Snapshot?
    && (forall i | 0 <= i < |m.incrs| :: HoldsPart(files, segs, m.incrs[i]))
    && (forall i | 0 <= i < |m.incrs| - 1 :: HoldsAll(files, segs, m.incrs[i]))
  }

  /** The dataset without what was fed to the last INCR file. */
  function Earlier(m: Manifest, files: Files, segs: Segments): seq<Command>
    requires FilesHold(m, files, segs)
  {
    files[BaseName(m.base)].cmds + Concat(segs, m.incrs[..|m.incrs| - 1])
  }

  /** The files `m` names are the dataset, up to the unwritten end of the last INCR file. */
  predicate Shows(m: Manifest, files: Files, segs: Segments, fed: seq<Command>) {
    FilesHold(m, files, segs) && fed == Earlier(m, files, segs) + Seg(segs, Last(m))
  }

  predicate SameLive(a: Manifest, b: Manifest) {
    a.base == b.base && a.incrs == b.incrs
  }

  /** File and buffer together are what was fed to the current INCR file, and its size is known. */
  predicate Current(s: State) {
    && s.manifest.incrs != []
    && AofFlush.Law(WriterOf(s), EncodeAll(Seg(s.segs, Last(s.manifest))))
    && (s.fd.append || s.fd.offset >= s.fd.size)
  }

  /** A running child's snapshot is the dataset without the current INCR file. */
  predicate ChildCovers(s: State) {
    s.manifest.incrs != [] && (s.child.Some? ==> s.child.value + Seg(s.segs, Last(s.manifest)) == s.fed)
  }

  predicate NewFileReady(s: State, n: nat) {
    && IncrName(n) in s.disk.files && s.disk.files[IncrName(n)] == Log([])
    && Seg(s.segs, n) == []
  }

  predicate NewBaseReady(s: State, am: Manifest) {
    && s.child.Some? && am.base == s.manifest.base + 1
    && BaseName(am.base) in s.disk.files && s.disk.files[BaseName(am.base)] == Snapshot(s.child.value)
  }

  predicate PhaseInv(s: State) {
    var D, M := s.disk.manifest, s.manifest;
    match s.phase
    case Idle => SameLive(D, M)
    case Flushed => SameLive(D, M) && s.child.None?
    case Opened(am) => SameLive(D, M) && am == NewIncr(M) && s.child.None? && NewFileReady(s, am.currIncr)
    case OpenPersisted(am) =>
      SameLive(D, am) && am == NewIncr(M).(dirty := false) && s.buf == [] && s.child.None? && NewFileReady(s, am.currIncr)
    case Forking => SameLive(D, M) && s.child.None? && M.incrs != [] && NewFileReady(s, Last(M))
    case Finishing => SameLive(D, M) && s.child.Some?
    case Renamed(am) => SameLive(D, M) && am == MarkRewritten(NewBase(M)) && NewBaseReady(s, am)
    case Abandoning(am) => SameLive(D, M) && am.base == M.base + 1
    case DonePersisted(am) => SameLive(D, am) && am == MarkRewritten(NewBase(M)).(dirty := false) && NewBaseReady(s, am)
    case Deleting => SameLive(D, M)
    case Exited => SameLive(D, M) && s.buf != []
  }

  ghost predicate Inv(cfg: AofLoad.Config, s: State) {
    && AllAccepted(cfg, s.segs)
    && WellFormed(s.disk.manifest)
    && Shows(s.manifest, s.disk.files, s.segs, s.fed)
    && (s.phase.Exited? || Current(s))
    && ChildCovers(s)
    && PhaseInv(s)
  }

  // ------------------------------------------------- recovery reads the view back

  lemma {:induction false} ConcatAppend(segs: Segments, a: seq<nat>, b: seq<nat>)
    ensures Concat(segs, a + b) == Concat(segs, a) + Concat(segs, b)
  {
    if a == [] {
      assert a + b == b;
    } else {
      assert (a + b)[1..] == a[1..] + b;
      ConcatAppend(segs, a[1..], b);
    }
  }

  lemma LoadOne(cfg: AofLoad.Config, files: Files, segs: Segments, n: nat)
    requires AllAccepted(cfg, segs) && HoldsPart(files, segs, n) && cfg.loadTruncated
    ensures
      var bytes := files[IncrName(n)].bytes;
      var o := AofLoad.Load(cfg, bytes);
      var done := Seg(segs, n)[..AofLoad.WholeCommands(Seg(segs, n), |bytes|)];
      && o.executed == done
      && o.length == |EncodeAll(done)| <= |bytes|
      && bytes[..o.length] == EncodeAll(done)
      && o.status in {AofLoad.Loaded, AofLoad.Empty, AofLoad.Truncated}
      && (bytes == EncodeAll(Seg(segs, n)) ==> o.status != AofLoad.Truncated && done == Seg(segs, n))
      && (o.status == AofLoad.Truncated <==> |bytes| != |EncodeAll(done)|)
  {
    var bytes := files[IncrName(n)].bytes;
    var cmds := Seg(segs, n);
    assert forall i | 0 <= i < |cmds| :: Accepts(cfg, cmds[i]);
    assert bytes == EncodeAll(cmds)[..|bytes|];
    AofLoad.LoadCutPlain(cfg, cmds, |bytes|);
    AofLoad.WholeOfWhole(cmds, |bytes|);
    if bytes == EncodeAll(cmds) {
      AofLoad.WholeOfAll(cmds);
      assert cmds[..|cmds|] == cmds;
    }
  }

  /** The commands of INCR file `n` that are wholly on disk. */
  function OnDisk(files: Files, segs: Segments, n: nat): seq<Command> {
    Seg(segs, n)[..AofLoad.WholeCommands(Seg(segs, n), |Bytes(files, n)|)]
  }

  lemma LoadsOnDisk(cfg: AofLoad.Config, files: Files, segs: Segments, n: nat)
    requires AllAccepted(cfg, segs) && HoldsPart(files, segs, n) && cfg.loadTruncated
    ensures IncrName(n) in files && files[IncrName(n)].Log?
    ensures
      var o := AofLoad.Load(cfg, files[IncrName(n)].bytes);
      && o.executed == OnDisk(files, segs, n)
      && o.status in {AofLoad.Loaded, AofLoad.Empty, AofLoad.Truncated}
      && (HoldsAll(files, segs, n) ==> o.status != AofLoad.Truncated && OnDisk(files, segs, n) == Seg(segs, n))
      && (o.status == AofLoad.Truncated <==> |Bytes(files, n)| != |EncodeAll(OnDisk(files, segs, n))|)
  {
    LoadOne(cfg, files, segs, n);
  }

  /** Complete files in front of any last file: what comes of the last one decides. */
  lemma {:induction false} LoadIncrsLast(cfg: AofLoad.Config, files: Files, segs: Segments, incrs: seq<nat>)
    requires AllAccepted(cfg, segs) && cfg.loadTruncated && incrs != []
    requires forall i | 0 <= i < |incrs| - 1 :: HoldsAll(files, segs, incrs[i])
    requires IncrName(incrs[|incrs| - 1]) in files && files[IncrName(incrs[|incrs| - 1])].Log?
    ensures
      var last := |incrs| - 1;
      var o := AofLoad.Load(cfg, Bytes(files, incrs[last]));
      LoadIncrs(cfg, files, incrs)
        == if o.status == AofLoad.Failed then None else Some(Concat(segs, incrs[..last]) + o.executed)
  {
    hide AofLoad.Load, OnDisk, HoldsPart, HoldsAll, AllAccepted, Seg;
    var last := |incrs| - 1;
    if last == 0 {
      var o := AofLoad.Load(cfg, Bytes(files, incrs[last]));
      assert incrs[1..] == [] && incrs[..0] == [];
      assert o.executed + [] == o.executed == [] + o.executed;
    } else {
      assert HoldsAll(files, segs, incrs[0]);
      AllIsPart(files, segs, incrs[0]);
      LoadsOnDisk(cfg, files, segs, incrs[0]);
      LoadIncrsLast(cfg, files, segs, incrs[1..]);
      assert incrs[..last][1..] == incrs[1..][..last - 1];
      assert incrs[1..][last - 1] == incrs[last];
      var o := AofLoad.Load(cfg, Bytes(files, incrs[last]));
      var first, rest := Seg(segs, incrs[0]), Concat(segs, incrs[1..][..last - 1]);
      assert first + (rest + o.executed) == first + rest + o.executed;
    }
  }

  lemma AllIsPart(files: Files, segs: Segments, n: nat)
    requires HoldsAll(files, segs, n)
    ensures HoldsPart(files, segs, n)
  {
  }

  /** Recovery from a disk that shows the dataset loses only what is not wholly in the last file. */
  lemma RecoverReadsView(cfg: AofLoad.Config, d: Disk, segs: Segments, fed: seq<Command>)
    requires cfg.loadTruncated && AllAccepted(cfg, segs) && Shows(d.manifest, d.files, segs, fed)
    ensures Recover(cfg, d) == Some(Earlier(d.manifest, d.files, segs) + OnDisk(d.files, segs, Last(d.manifest)))
  {
    hide AllAccepted, LoadIncrs, Concat, OnDisk, Seg, AofLoad.Load;
    var m := d.manifest;
    assert HoldsPart(d.files, segs, m.incrs[|m.incrs| - 1]);
    LoadsOnDisk(cfg, d.files, segs, Last(m));
    LoadIncrsLast(cfg, d.files, segs, m.incrs);
    hide FilesHold;
    var base, older := d.files[BaseName(m.base)].cmds, Concat(segs, m.incrs[..|m.incrs| - 1]);
    assert base + (older + OnDisk(d.files, segs, Last(m))) == base + older + OnDisk(d.files, segs, Last(m));
  }

  lemma ConcatSnoc(segs: Segments, m: Manifest)
    requires m.incrs != []
    ensures Concat(segs, m.incrs) == Concat(segs, m.incrs[..|m.incrs| - 1]) + Seg(segs, Last(m))
  {
    var last := |m.incrs| - 1;
    assert m.incrs == m.incrs[..last] + [Last(m)];
    ConcatAppend(segs, m.incrs[..last], [Last(m)]);
    assert Concat(segs, [Last(m)]) == Seg(segs, Last(m)) + Concat(segs, []);
  }

  // ----------------------------------------------------------- every step keeps it

  /** A late failure is a directory fsync that fails after the manifest was renamed into place. */
  predicate LateFailure(step: Step) {
    step == PersistOpen(Late) || step == PersistDone(Late)
  }

  /** A flush that leaves bytes behind a gap: O_APPEND is missing and a short write was taken back before. */
  predicate LeavesGap(s: State, step: Step) {
    s.manifest.incrs != [] && (step.Flush? || step.StartRewrite?) && AofFlush.Gaps(WriterOf(s), step.env)
  }

  /** The manifest with a new INCR file is written although the forced flush left bytes in the buffer. */
  predicate LeavesRest(s: State, step: Step) {
    step == PersistOpen(Ok) && s.buf != []
  }

  /** What must not happen for the log to stay complete; `AofFailures` looks at each of the three. */
  predicate Harmful(s: State, step: Step) {
    LateFailure(step) || LeavesGap(s, step) || LeavesRest(s, step)
  }

  lemma {:induction false} EncodeAllAppend(a: seq<Command>, b: seq<Command>)
    ensures EncodeAll(a + b) == EncodeAll(a) + EncodeAll(b)
  {
    hide Encode;
    if a == [] {
      assert a + b == b;
    } else {
      assert (a + b)[1..] == a[1..] + b;
      EncodeAllAppend(a[1..], b);
    }
  }

  lemma EncodeAllSnoc(a: seq<Command>, cmd: Command)
    ensures EncodeAll(a + [cmd]) == EncodeAll(a) + Encode(cmd)
  {
    hide Encode;
    EncodeAllAppend(a, [cmd]);
    assert EncodeAll([cmd]) == Encode(cmd) + EncodeAll([]);
  }

  /** Changing one segment that is last, and no other file or segment of the list. */
  lemma {:induction false} ConcatFrame(segs: Segments, segs': Segments, incrs: seq<nat>)
    requires forall i | 0 <= i < |incrs| :: Seg(segs, incrs[i]) == Seg(segs', incrs[i])
    ensures Concat(segs, incrs) == Concat(segs', incrs)
  {
    if incrs != [] {
      assert Seg(segs, incrs[0]) == Seg(segs', incrs[0]);
      forall i | 0 <= i < |incrs[1..]| ensures Seg(segs, incrs[1..][i]) == Seg(segs', incrs[1..][i]) {
        assert incrs[1..][i] == incrs[i + 1];
      }
      ConcatFrame(segs, segs', incrs[1..]);
    }
  }

  /** The view depends on nothing but the live files and their segments. */
  lemma HoldFrame(m: Manifest, m': Manifest, files: Files, files': Files, segs: Segments, segs': Segments)
    requires FilesHold(m, files, segs) && SameLive(m, m') && WellFormed(m')
    requires forall n | n in LiveNames(m) :: n in files' && (n in files ==> files'[n] == files[n])
    requires forall i | 0 <= i < |m.incrs| :: Seg(segs', m.incrs[i]) == Seg(segs, m.incrs[i])
    ensures FilesHold(m', files', segs') && Earlier(m', files', segs') == Earlier(m, files, segs)
    ensures Bytes(files', Last(m)) == Bytes(files, Last(m))
  {
    assert m.incrs != [];
    hide WellFormed;
    assert BaseName(m.base) in LiveNames(m);
    forall i | 0 <= i < |m.incrs|
      ensures HoldsPart(files', segs', m.incrs[i])
      ensures i < |m.incrs| - 1 ==> HoldsAll(files', segs', m.incrs[i])
    {
      assert IncrName(m.incrs[i]) in LiveNames(m);
      assert HoldsPart(files, segs, m.incrs[i]);
    }
    assert IncrName(Last(m)) in LiveNames(m);
    ConcatFrame(segs, segs', m.incrs[..|m.incrs| - 1]);
  }

  /** Replacing the last file and the last segment leaves everything before them in place. */
  lemma HoldNewLast(m: Manifest, files: Files, segs: Segments, bytes: seq<Byte>, seg: seq<Command>)
    requires FilesHold(m, files, segs) && bytes <= EncodeAll(seg)
    ensures
      var files', segs' := files[IncrName(Last(m)) := Log(bytes)], segs[Last(m) := seg];
      && FilesHold(m, files', segs')
      && Earlier(m, files', segs') == Earlier(m, files, segs)
      && Seg(segs', Last(m)) == seg && Bytes(files', Last(m)) == bytes
  {
    hide EncodeAll;
    var n, last := Last(m), |m.incrs| - 1;
    var files', segs' := files[IncrName(n) := Log(bytes)], segs[n := seg];
    assert forall i | 0 <= i < last :: m.incrs[i] != n;
    ConcatFrame(segs, segs', m.incrs[..last]);
    hide WellFormed;
    forall i | 0 <= i < |m.incrs|
      ensures HoldsPart(files', segs', m.incrs[i])
      ensures i < last ==> HoldsAll(files', segs', m.incrs[i])
    {
      assert HoldsPart(files, segs, m.incrs[i]);
    }
  }

  lemma AcceptedGrows(cfg: AofLoad.Config, segs: Segments, n: nat, cmd: Command)
    requires AllAccepted(cfg, segs) && Accepts(cfg, cmd)
    ensures AllAccepted(cfg, segs[n := Seg(segs, n) + [cmd]])
  {
  }

  lemma FeedKeepsShown(s: State, cmd: Command)
    requires Shows(s.manifest, s.disk.files, s.segs, s.fed) && Current(s)
    ensures
      var n := Last(s.manifest);
      var segs' := s.segs[n := Seg(s.segs, n) + [cmd]];
      && Shows(s.manifest, s.disk.files, segs', s.fed + [cmd])
      && Bytes(s.disk.files, n) + (s.buf + Encode(cmd)) == EncodeAll(Seg(segs', n))
  {
    hide Encode, EncodeAll, WellFormed, Earlier;
    var m, files, n := s.manifest, s.disk.files, Last(s.manifest);
    var seg, bytes := Seg(s.segs, n), Bytes(files, n);
    assert HoldsPart(files, s.segs, m.incrs[|m.incrs| - 1]);
    assert files[IncrName(n) := Log(bytes)] == files;
    EncodeAllSnoc(seg, cmd);
    assert bytes <= bytes + s.buf + Encode(cmd);
    assert bytes + (s.buf + Encode(cmd)) == bytes + s.buf + Encode(cmd);
    HoldNewLast(m, files, s.segs, bytes, seg + [cmd]);
    assert Earlier(m, files, s.segs) + seg + [cmd] == Earlier(m, files, s.segs) + (seg + [cmd]);
  }

  lemma FeedKeepsInv(cfg: AofLoad.Config, s: State, cmd: Command)
    requires Inv(cfg, s) && Enabled(cfg, s, Feed(cmd))
    ensures Inv(cfg, Next(cfg, s, Feed(cmd)))
  {
    hide Encode, EncodeAll, WellFormed, Shows, AllAccepted, Accepts;
    FeedKeepsShown(s, cmd);
    AcceptedGrows(cfg, s.segs, Last(s.manifest), cmd);
    var seg := Seg(s.segs, Last(s.manifest));
    if s.child.Some? {
      assert s.child.value + (seg + [cmd]) == s.child.value + seg + [cmd];
    }
  }

  /** Any part of what was fed may be in the current file. */
  lemma PartKeepsShown(m: Manifest, files: Files, segs: Segments, fed: seq<Command>, bytes: seq<Byte>)
    requires Shows(m, files, segs, fed) && bytes <= EncodeAll(Seg(segs, Last(m)))
    ensures
      var files' := files[IncrName(Last(m)) := Log(bytes)];
      Shows(m, files', segs, fed) && Bytes(files', Last(m)) == bytes
  {
    hide WellFormed, EncodeAll;
    HoldsSome(m, files, segs);
    var seg := Seg(segs, Last(m));
    HoldNewLast(m, files, segs, bytes, seg);
    SameSegments(m, files[IncrName(Last(m)) := Log(bytes)], segs, seg);
  }

  /** A flush that leaves no gap, whatever else happens to it. */
  lemma FlushKeepsShown(s: State, e: AofFlush.Env, phase: Phase)
    requires Shows(s.manifest, s.disk.files, s.segs, s.fed) && Current(s) && !AofFlush.Gaps(WriterOf(s), e)
    ensures
      var s' := WithWriter(s, AofFlush.Flush(WriterOf(s), e), phase);
      && Shows(s.manifest, s'.disk.files, s.segs, s.fed)
      && (s'.phase == phase && phase != Exited ==> Current(s'))
      && (s'.phase != phase ==> s'.phase == Exited && s'.buf != [])
  {
    hide FilesHold, Earlier, EncodeAll, AofFlush.Flush, AofFlush.Gaps;
    HoldsSome(s.manifest, s.disk.files, s.segs);
    var w, log := WriterOf(s), EncodeAll(Seg(s.segs, Last(s.manifest)));
    AofFlush.FlushWithoutGap(w, e, log);
    var f := AofFlush.Flush(w, e);
    PartKeepsShown(s.manifest, s.disk.files, s.segs, s.fed, f.writer.file);
  }

  lemma SameSegments(m: Manifest, files: Files, segs: Segments, seg: seq<Command>)
    requires m.incrs != [] && seg == Seg(segs, Last(m)) && FilesHold(m, files, segs[Last(m) := seg])
    ensures FilesHold(m, files, segs) && Earlier(m, files, segs) == Earlier(m, files, segs[Last(m) := seg])
  {
    hide WellFormed;
    var segs' := segs[Last(m) := seg];
    forall i | 0 <= i < |m.incrs|
      ensures HoldsPart(files, segs, m.incrs[i])
      ensures i < |m.incrs| - 1 ==> HoldsAll(files, segs, m.incrs[i])
    {
      assert HoldsPart(files, segs', m.incrs[i]);
    }
    ConcatFrame(segs, segs', m.incrs[..|m.incrs| - 1]);
  }

  lemma LiveExist(m: Manifest, files: Files, segs: Segments)
    requires FilesHold(m, files, segs)
    ensures LiveNames(m) <= files.Keys
  {
    forall i | 0 <= i < |m.incrs| ensures IncrName(m.incrs[i]) in files {
      assert HoldsPart(files, segs, m.incrs[i]);
    }
  }

  /** Same manifest, same segments, and no live file touched. */
  predicate Undisturbed(m: Manifest, files: Files, files': Files) {
    forall n | n in LiveNames(m) :: n in files' && (n in files ==> files'[n] == files[n])
  }

  lemma AddingKeeps(m: Manifest, files: Files, segs: Segments, name: Name, content: Content)
    requires FilesHold(m, files, segs) && name !in LiveNames(m)
    ensures Undisturbed(m, files, files[name := content])
  {
    hide HoldsPart, HoldsAll, WellFormed, LiveNames;
    LiveExist(m, files, segs);
  }

  lemma RemovingKeeps(m: Manifest, files: Files, segs: Segments, name: Name)
    requires FilesHold(m, files, segs) && name !in LiveNames(m)
    ensures Undisturbed(m, files, files - {name})
  {
    hide HoldsPart, HoldsAll, WellFormed, LiveNames;
    LiveExist(m, files, segs);
  }

  lemma UndisturbedKeepsShown(m: Manifest, m': Manifest, files: Files, files': Files, segs: Segments, fed: seq<Command>)
    requires Shows(m, files, segs, fed) && SameLive(m, m') && WellFormed(m') && Undisturbed(m, files, files')
    ensures Shows(m', files', segs, fed)
    ensures Bytes(files', Last(m)) == Bytes(files, Last(m))
  {
    hide HoldsPart, HoldsAll, WellFormed, Concat;
    HoldFrame(m, m', files, files', segs, segs);
  }

  lemma FlushKeepsInv(cfg: AofLoad.Config, s: State, step: Step)
    requires Inv(cfg, s) && Enabled(cfg, s, step) && (step.Flush? || step.StartRewrite?) && !LeavesGap(s, step)
    ensures Inv(cfg, Next(cfg, s, step))
  {
    hide EncodeAll, WellFormed, Shows, AllAccepted, AofFlush.Flush, AofFlush.Gaps, AofFlush.Law;
    FlushKeepsShown(s, step.env, if step.Flush? then Idle else Flushed);
  }

  // ---- rewrite start

  lemma NewFileKeepsShown(m: Manifest, files: Files, segs: Segments, fed: seq<Command>)
    requires Shows(m, files, segs, fed)
    ensures
      var n := m.currIncr + 1;
      && Shows(m, files[IncrName(n) := Log([])], segs[n := []], fed)
      && Bytes(files[IncrName(n) := Log([])], Last(m)) == Bytes(files, Last(m))
      && Last(m) != n
  {
    var n := m.currIncr + 1;
    assert forall i | 0 <= i < |m.incrs| :: m.incrs[i] <= m.currIncr;
    NewIncrKeepsWellFormed(m);
    hide HoldsPart, HoldsAll, WellFormed, LiveNames;
    AddingKeeps(m, files, segs, IncrName(n), Log([]));
    HoldFrame(m, m, files, files[IncrName(n) := Log([])], segs, segs[n := []]);
  }

  lemma OpenNewKeepsInv(cfg: AofLoad.Config, s: State, ok: bool)
    requires Inv(cfg, s) && Enabled(cfg, s, OpenNew(ok))
    ensures Inv(cfg, Next(cfg, s, OpenNew(ok)))
  {
    hide EncodeAll, WellFormed, Shows, Accepts;
    if ok {
      NewFileKeepsShown(s.manifest, s.disk.files, s.segs, s.fed);
    }
  }

  /** Once the old file is complete, the manifest with a new empty INCR file shows the same dataset. */
  lemma ShowsNewIncr(s: State, am: Manifest)
    requires Shows(s.manifest, s.disk.files, s.segs, s.fed) && Current(s) && s.buf == []
    requires SameLive(am, NewIncr(s.manifest)) && WellFormed(am)
    requires NewFileReady(s, s.manifest.currIncr + 1)
    ensures Shows(am, s.disk.files, s.segs, s.fed)
  {
    hide FilesHold, EncodeAll, Earlier, WellFormed;
    HoldsSome(s.manifest, s.disk.files, s.segs);
    HoldsNewIncr(s, am);
    EarlierOfNew(s.manifest, am, s.disk.files, s.segs);
    assert s.fed + [] == s.fed;
  }

  lemma EarlierOfNew(m: Manifest, am: Manifest, files: Files, segs: Segments)
    requires m.incrs != [] && SameLive(am, NewIncr(m)) && FilesHold(m, files, segs) && FilesHold(am, files, segs)
    ensures Earlier(am, files, segs) == Earlier(m, files, segs) + Seg(segs, Last(m))
  {
    hide HoldsPart, HoldsAll, WellFormed, Concat;
    assert am.incrs[..|am.incrs| - 1] == m.incrs;
    ConcatSnoc(segs, m);
    var base, older := files[BaseName(m.base)].cmds, Concat(segs, m.incrs[..|m.incrs| - 1]);
    assert base + older + Seg(segs, Last(m)) == base + (older + Seg(segs, Last(m)));
  }

  lemma HoldsNewIncr(s: State, am: Manifest)
    requires FilesHold(s.manifest, s.disk.files, s.segs) && Current(s) && s.buf == []
    requires SameLive(am, NewIncr(s.manifest)) && WellFormed(am)
    requires NewFileReady(s, s.manifest.currIncr + 1)
    ensures FilesHold(am, s.disk.files, s.segs)
  {
    var m, files, segs := s.manifest, s.disk.files, s.segs;
    hide WellFormed, EncodeAll;
    forall i | 0 <= i < |am.incrs|
      ensures HoldsPart(files, segs, am.incrs[i])
      ensures i < |am.incrs| - 1 ==> HoldsAll(files, segs, am.incrs[i])
    {
      if i < |m.incrs| {
        assert am.incrs[i] == m.incrs[i];
        assert HoldsPart(files, segs, m.incrs[i]);
        assert i == |m.incrs| - 1 ==> Bytes(files, m.incrs[i]) + [] == Bytes(files, m.incrs[i]);
      }
    }
  }

  lemma PersistOpenKeepsInv(cfg: AofLoad.Config, s: State, outcome: Persist)
    requires Inv(cfg, s) && Enabled(cfg, s, PersistOpen(outcome)) && !Harmful(s, PersistOpen(outcome))
    ensures Inv(cfg, Next(cfg, s, PersistOpen(outcome)))
  {
    hide EncodeAll, Earlier, HoldsPart, HoldsAll, AllAccepted, WellFormed;
    NewIncrKeepsWellFormed(s.manifest);
  }

  lemma UseNewKeepsInv(cfg: AofLoad.Config, s: State)
    requires Inv(cfg, s) && Enabled(cfg, s, UseNew)
    ensures Inv(cfg, Next(cfg, s, UseNew))
  {
    hide Earlier, HoldsPart, HoldsAll, AllAccepted, WellFormed;
    NewIncrKeepsWellFormed(s.manifest);
    ShowsNewIncr(s, s.phase.am);
    NothingEncoded();
  }

  lemma NothingEncoded()
    ensures EncodeAll([]) == []
  {
  }

  lemma ForkKeepsInv(cfg: AofLoad.Config, s: State, ok: bool)
    requires Inv(cfg, s) && Enabled(cfg, s, Fork(ok))
    ensures Inv(cfg, Next(cfg, s, Fork(ok)))
  {
    hide EncodeAll, Shows, AllAccepted, WellFormed;
    assert s.fed + [] == s.fed;
  }

  // ---- rewrite end

  lemma RenameKeepsInv(cfg: AofLoad.Config, s: State, ok: bool)
    requires Inv(cfg, s) && Enabled(cfg, s, Rename(ok))
    ensures Inv(cfg, Next(cfg, s, Rename(ok)))
  {
    hide EncodeAll, Earlier, HoldsPart, HoldsAll, AllAccepted, WellFormed, LiveNames, Undisturbed;
    if ok {
      var m, files := s.manifest, s.disk.files;
      RewriteKeepsWellFormed(m);
      AddingKeeps(m, files, s.segs, BaseName(m.base + 1), Snapshot(s.child.value));
      UndisturbedKeepsShown(m, m, files, files[BaseName(m.base + 1) := Snapshot(s.child.value)], s.segs, s.fed);
      hide Shows;
    }
  }

  /** The new BASE file and the INCR file opened when the child was forked are the whole dataset. */
  lemma ShowsRewritten(s: State, am: Manifest)
    requires Shows(s.manifest, s.disk.files, s.segs, s.fed) && ChildCovers(s) && NewBaseReady(s, am)
    requires SameLive(am, MarkRewritten(NewBase(s.manifest))) && WellFormed(am)
    ensures Shows(am, s.disk.files, s.segs, s.fed)
    ensures Last(am) == Last(s.manifest)
  {
    var m := s.manifest;
    assert am.incrs == [Last(m)];
    assert HoldsPart(s.disk.files, s.segs, m.incrs[|m.incrs| - 1]);
    assert am.incrs[..0] == [];
    assert s.child.value + [] == s.child.value;
  }

  lemma PersistDoneKeepsInv(cfg: AofLoad.Config, s: State, outcome: Persist)
    requires Inv(cfg, s) && Enabled(cfg, s, PersistDone(outcome)) && outcome != Late
    ensures Inv(cfg, Next(cfg, s, PersistDone(outcome)))
  {
    hide EncodeAll, Earlier, HoldsPart, HoldsAll, AllAccepted, WellFormed;
    RewriteKeepsWellFormed(s.manifest);
    hide Shows;
  }

  lemma UnlinkKeepsInv(cfg: AofLoad.Config, s: State)
    requires Inv(cfg, s) && Enabled(cfg, s, UnlinkNewBase)
    ensures Inv(cfg, Next(cfg, s, UnlinkNewBase))
  {
    hide EncodeAll, Earlier, HoldsPart, HoldsAll, AllAccepted, WellFormed, LiveNames, Undisturbed;
    var m, files := s.manifest, s.disk.files;
    RewriteKeepsWellFormed(m);
    RemovingKeeps(m, files, s.segs, BaseName(m.base + 1));
    UndisturbedKeepsShown(m, m, files, files - {BaseName(m.base + 1)}, s.segs, s.fed);
    hide Shows;
  }

  lemma UseRewrittenKeepsInv(cfg: AofLoad.Config, s: State)
    requires Inv(cfg, s) && Enabled(cfg, s, UseRewritten)
    ensures Inv(cfg, Next(cfg, s, UseRewritten))
  {
    hide EncodeAll, Earlier, HoldsPart, HoldsAll, AllAccepted, WellFormed;
    RewriteKeepsWellFormed(s.manifest);
    ShowsRewritten(s, s.phase.am);
    hide Shows;
  }

  lemma DeleteKeepsInv(cfg: AofLoad.Config, s: State)
    requires Inv(cfg, s) && Enabled(cfg, s, DeleteOne)
    ensures Inv(cfg, Next(cfg, s, DeleteOne))
  {
    hide EncodeAll, Earlier, HoldsPart, HoldsAll, AllAccepted, WellFormed, LiveNames, Undisturbed;
    var m, files := s.manifest, s.disk.files;
    HistoryIsNotLive(m);
    DroppingHistoryKeepsWellFormed(m, 1);
    var m' := m.(history := m.history[1..], dirty := true);
    RemovingKeeps(m, files, s.segs, m.history[0]);
    UndisturbedKeepsShown(m, m', files, files - {m.history[0]}, s.segs, s.fed);
    hide Shows;
  }

  // ---- crash

  /** Whatever the phase, the manifest on disk shows the dataset. */
  lemma DiskShows(cfg: AofLoad.Config, s: State)
    requires Inv(cfg, s)
    ensures Shows(s.disk.manifest, s.disk.files, s.segs, s.fed)
  {
    hide EncodeAll, AllAccepted, WellFormed, FilesHold, Earlier;
    var D := s.disk.manifest;
    if s.phase.OpenPersisted? {
      ShowsNewIncr(s, D);
    } else if s.phase.DonePersisted? {
      ShowsRewritten(s, D);
    } else {
      SameFilesUndisturbed(s.manifest, s.disk.files, s.segs);
      UndisturbedKeepsShown(s.manifest, D, s.disk.files, s.disk.files, s.segs, s.fed);
    }
  }

  lemma SameFilesUndisturbed(m: Manifest, files: Files, segs: Segments)
    requires FilesHold(m, files, segs)
    ensures Undisturbed(m, files, files)
  {
    LiveExist(m, files, segs);
  }

  /** What a restart finds, and leaves behind after repairing the last file. */
  lemma RestartShows(cfg: AofLoad.Config, s: State)
    requires AllAccepted(cfg, s.segs) && Shows(s.disk.manifest, s.disk.files, s.segs, s.fed) && cfg.loadTruncated
    ensures
      var D, files := s.disk.manifest, s.disk.files;
      var n := Last(D);
      var o := AofLoad.Load(cfg, Bytes(files, n));
      var files', segs' := files[IncrName(n) := Log(Cut(Bytes(files, n), o.length))], s.segs[n := o.executed];
      && Recover(cfg, s.disk).Some?
      && Shows(D, files', segs', Recover(cfg, s.disk).value)
      && Bytes(files', n) == EncodeAll(Seg(segs', n))
  {
    var D, files := s.disk.manifest, s.disk.files;
    var n := Last(D);
    assert HoldsPart(files, s.segs, D.incrs[|D.incrs| - 1]);
    LoadOne(cfg, files, s.segs, n);
    RecoverReadsView(cfg, s.disk, s.segs, s.fed);
    var o := AofLoad.Load(cfg, Bytes(files, n));
    var done := OnDisk(files, s.segs, n);
    hide HoldsPart, HoldsAll, AllAccepted, AofLoad.Load, Recover, EncodeAll, WellFormed, Earlier, Concat;
    assert o.executed == done && Cut(Bytes(files, n), o.length) == EncodeAll(done);
    HoldNewLast(D, files, s.segs, EncodeAll(done), done);
  }

  lemma PrefixAccepted(cfg: AofLoad.Config, segs: Segments, n: nat, k: nat)
    requires AllAccepted(cfg, segs) && k <= |Seg(segs, n)|
    ensures AllAccepted(cfg, segs[n := Seg(segs, n)[..k]])
  {
  }

  lemma CrashKeepsInv(cfg: AofLoad.Config, s: State)
    requires Inv(cfg, s) && cfg.loadTruncated && Enabled(cfg, s, Crash)
    ensures Inv(cfg, Next(cfg, s, Crash))
  {
    hide EncodeAll, AllAccepted, Earlier, AofLoad.Load, Recover, HoldsPart, HoldsAll;
    var D, files := s.disk.manifest, s.disk.files;
    var n := Last(D);
    DiskShows(cfg, s);
    RestartShows(cfg, s);
    var o := AofLoad.Load(cfg, Bytes(files, n));
    var files', segs' := files[IncrName(n) := Log(Cut(Bytes(files, n), o.length))], s.segs[n := o.executed];
    RestartAccepted(cfg, s);
    assert SameLive(D, Loaded(D)) && WellFormed(Loaded(D));
    hide WellFormed, FilesHold;
    SameFilesUndisturbed(D, files', segs');
    UndisturbedKeepsShown(D, Loaded(D), files', files', segs', Recover(cfg, s.disk).value);
    assert Bytes(files', n) + [] == Bytes(files', n);
  }

  lemma RestartAccepted(cfg: AofLoad.Config, s: State)
    requires AllAccepted(cfg, s.segs) && Shows(s.disk.manifest, s.disk.files, s.segs, s.fed) && cfg.loadTruncated
    ensures
      var n := Last(s.disk.manifest);
      AllAccepted(cfg, s.segs[n := AofLoad.Load(cfg, Bytes(s.disk.files, n)).executed])
  {
    var D, files := s.disk.manifest, s.disk.files;
    var n := Last(D);
    assert HoldsPart(files, s.segs, D.incrs[|D.incrs| - 1]);
    LoadOne(cfg, files, s.segs, n);
    hide AllAccepted, AofLoad.Load;
    PrefixAccepted(cfg, s.segs, n, AofLoad.WholeCommands(Seg(s.segs, n), |Bytes(files, n)|));
  }

  // ------------------------------------------------------------------------- runs

  lemma NextKeepsInv(cfg: AofLoad.Config, s: State, step: Step)
    requires Inv(cfg, s) && cfg.loadTruncated && Enabled(cfg, s, step) && !Harmful(s, step)
    ensures Inv(cfg, Next(cfg, s, step))
  {
    match step
    case Feed(cmd) => FeedKeepsInv(cfg, s, cmd);
    case Flush(_) => FlushKeepsInv(cfg, s, step);
    case StartRewrite(_) => FlushKeepsInv(cfg, s, step);
    case OpenNew(ok) => OpenNewKeepsInv(cfg, s, ok);
    case PersistOpen(outcome) => PersistOpenKeepsInv(cfg, s, outcome);
    case UseNew => UseNewKeepsInv(cfg, s);
    case Fork(ok) => ForkKeepsInv(cfg, s, ok);
    case Rename(ok) => RenameKeepsInv(cfg, s, ok);
    case PersistDone(outcome) => PersistDoneKeepsInv(cfg, s, outcome);
    case UnlinkNewBase => UnlinkKeepsInv(cfg, s);
    case UseRewritten => UseRewrittenKeepsInv(cfg, s);
    case DeleteOne => DeleteKeepsInv(cfg, s);
    case Crash => CrashKeepsInv(cfg, s);
    case _ => RestKeepsInv(cfg, s, step);
  }

  lemma RestKeepsInv(cfg: AofLoad.Config, s: State, step: Step)
    requires Inv(cfg, s) && Enabled(cfg, s, step)
    requires step.ChildExit? || step.StartDelete? || step.PersistDelete?
    ensures Inv(cfg, Next(cfg, s, step))
  {
    hide EncodeAll, AllAccepted, FilesHold, Earlier;
    if step.PersistDelete? {
      SameFilesUndisturbed(s.manifest, s.disk.files, s.segs);
      assert WellFormed(s.manifest) by { HoldsIsWellFormed(s.manifest, s.disk.files, s.segs); }
      UndisturbedKeepsShown(s.manifest, s.manifest.(dirty := false), s.disk.files, s.disk.files, s.segs, s.fed);
    }
  }

  lemma HoldsSome(m: Manifest, files: Files, segs: Segments)
    requires FilesHold(m, files, segs)
    ensures m.incrs != []
  {
  }

  lemma HoldsIsWellFormed(m: Manifest, files: Files, segs: Segments)
    requires FilesHold(m, files, segs)
    ensures WellFormed(m)
  {
  }

  /** A run in which every step is possible and none is harmful. */
  predicate Runs(cfg: AofLoad.Config, s: State, steps: seq<Step>)
    decreases steps
  {
    steps == [] ||
    (Enabled(cfg, s, steps[0]) && !Harmful(s, steps[0]) && Runs(cfg, Next(cfg, s, steps[0]), steps[1..]))
  }

  function After(cfg: AofLoad.Config, s: State, steps: seq<Step>): State
    requires Runs(cfg, s, steps)
    decreases steps
  {
    if steps == [] then s else After(cfg, Next(cfg, s, steps[0]), steps[1..])
  }

  lemma {:induction false} RunKeepsInv(cfg: AofLoad.Config, s: State, steps: seq<Step>)
    requires Inv(cfg, s) && cfg.loadTruncated && Runs(cfg, s, steps)
    ensures Inv(cfg, After(cfg, s, steps))
    decreases steps
  {
    hide Inv, Next, Enabled;
    if steps != [] {
      NextKeepsInv(cfg, s, steps[0]);
      RunKeepsInv(cfg, Next(cfg, s, steps[0]), steps[1..]);
    }
  }

  /** The first start on an empty dataset: an empty BASE file and an empty INCR file. */
  const INITIAL := State(
    Disk(map[BaseName(1) := Snapshot([]), IncrName(1) := Log([])], Manifest(1, [1], 1, [], false)),
    Manifest(1, [1], 1, [], false), Fd(0, true, 0, true, 0), [], None, Idle, [], map[])

  lemma InitialInv(cfg: AofLoad.Config)
    ensures Inv(cfg, INITIAL)
  {
    var s := INITIAL;
    assert HoldsPart(s.disk.files, s.segs, 1);
    assert s.manifest.incrs[..0] == [];
  }

  /** Commands fed to the current INCR file of the manifest on disk that are not wholly in it. */
  function Unwritten(s: State): nat
    requires s.disk.manifest.incrs != []
  {
    var n := Last(s.disk.manifest);
    |Seg(s.segs, n)| - AofLoad.WholeCommands(Seg(s.segs, n), |Bytes(s.disk.files, n)|)
  }

  /** What a restart from the disk of `s` gives: the dataset less the last commands not wholly written. */
  ghost predicate Recoverable(cfg: AofLoad.Config, s: State) {
    && LiveNames(s.disk.manifest) <= s.disk.files.Keys
    && s.disk.manifest.incrs != [] && Unwritten(s) <= |s.fed|
    && Recover(cfg, s.disk) == Some(s.fed[..|s.fed| - Unwritten(s)])
  }

  lemma InvIsRecoverable(cfg: AofLoad.Config, s: State)
    requires Inv(cfg, s) && cfg.loadTruncated
    ensures Recoverable(cfg, s)
  {
    hide FilesHold, Recover, AofLoad.WholeCommands, WellFormed, LiveNames, PhaseInv, AllAccepted, Earlier;
    DiskShows(cfg, s);
    var D, files := s.disk.manifest, s.disk.files;
    LiveExist(D, files, s.segs);
    RecoverReadsView(cfg, s.disk, s.segs, s.fed);
    HoldsSome(D, files, s.segs);
    var earlier, seg := Earlier(D, files, s.segs), Seg(s.segs, Last(D));
    assert s.fed[..|s.fed| - Unwritten(s)] == earlier + OnDisk(files, s.segs, Last(D));
  }

  /**
   In every reachable state, whatever step the server is at: every file the manifest on disk
   names exists, and restarting from the disk gives the dataset less exactly the last commands
   that are not yet wholly written.
   */
  lemma AlwaysRecoverable(cfg: AofLoad.Config, steps: seq<Step>)
    requires cfg.loadTruncated && Runs(cfg, INITIAL, steps)
    ensures Recoverable(cfg, After(cfg, INITIAL, steps))
  {
    hide Inv, Recoverable, After, Runs, INITIAL;
    InitialInv(cfg);
    RunKeepsInv(cfg, INITIAL, steps);
    InvIsRecoverable(cfg, After(cfg, INITIAL, steps));
  }

  /** While nothing is buffered, a restart loses nothing. */
  lemma NothingBufferedNothingLost(cfg: AofLoad.Config, steps: seq<Step>)
    requires cfg.loadTruncated && Runs(cfg, INITIAL, steps)
    requires After(cfg, INITIAL, steps).buf == []
    ensures Recover(cfg, After(cfg, INITIAL, steps).disk) == Some(After(cfg, INITIAL, steps).fed)
  {
    hide Inv, After, Runs, INITIAL, Recover, AofLoad.WholeCommands, EncodeAll;
    InitialInv(cfg);
    RunKeepsInv(cfg, INITIAL, steps);
    var s := After(cfg, INITIAL, steps);
    InvIsRecoverable(cfg, s);
    LastIsComplete(cfg, s);
    AofLoad.WholeOfAll(Seg(s.segs, Last(s.disk.manifest)));
    assert s.fed[..|s.fed|] == s.fed;
  }

  lemma LastIsComplete(cfg: AofLoad.Config, s: State)
    requires Inv(cfg, s) && s.buf == []
    ensures s.disk.manifest.incrs != []
    ensures Bytes(s.disk.files, Last(s.disk.manifest)) == EncodeAll(Seg(s.segs, Last(s.disk.manifest)))
  {
    hide FilesHold, Shows, AllAccepted, Earlier, EncodeAll, WellFormed, NewBaseReady;
    var n := Last(s.manifest);
    assert Bytes(s.disk.files, n) + [] == Bytes(s.disk.files, n);
    NothingEncoded();
    LastOfNew(s.manifest);
  }

  lemma LastOfNew(m: Manifest)
    ensures Last(NewIncr(m)) == NewIncr(m).currIncr
    ensures MarkRewritten(NewBase(m)).incrs != [] ==> m.incrs != [] && Last(MarkRewritten(NewBase(m))) == Last(m)
  {
  }
}
