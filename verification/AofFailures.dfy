/**
 What the three kinds of harmful steps of a rewrite do to a restart: a directory fsync that
 fails after a rename, bytes written behind a gap, and a rewrite that starts with a buffer
 the forced flush could not empty.
 */
module AofFailures {
  import opened AofLog
  import opened Numbers
  import AofFlush
  import AofLoad
  import opened AofManifest
  import opened AofRewrite
  import opened Basics

  // ---------------------------------------------------------------- building runs

  lemma {:induction false} RunsAppend(cfg: AofLoad.Config, s: State, a: seq<Step>, b: seq<Step>)
    requires Runs(cfg, s, a) && Runs(cfg, After(cfg, s, a), b)
    ensures Runs(cfg, s, a + b) && After(cfg, s, a + b) == After(cfg, After(cfg, s, a), b)
    decreases a
  {
    hide Next, Enabled;
    if a == [] {
      assert a + b == b;
    } else {
      assert (a + b)[1..] == a[1..] + b;
      RunsAppend(cfg, Next(cfg, s, a[0]), a[1..], b);
    }
  }

  lemma NoSteps(cfg: AofLoad.Config, s: State)
    ensures Runs(cfg, s, []) && After(cfg, s, []) == s
  {
  }

  lemma OneStep(cfg: AofLoad.Config, s: State, step: Step, rest: seq<Step>)
    requires Enabled(cfg, s, step) && !Harmful(s, step) && Runs(cfg, Next(cfg, s, step), rest)
    ensures Runs(cfg, s, [step] + rest) && After(cfg, s, [step] + rest) == After(cfg, Next(cfg, s, step), rest)
  {
    assert ([step] + rest)[1..] == rest;
  }

  /** A write that works, and one that is cut short after a byte and then taken back. */
  const COMPLETE := AofFlush.Env(true, AofFlush.No, false, 0, [], true)
  const TAKEN_BACK := AofFlush.Env(false, AofFlush.No, false, 0, [AofFlush.Wrote(1), AofFlush.WriteError], true)

  lemma CompleteEmpties(w: AofFlush.Writer)
    ensures
      var f := AofFlush.Flush(w, COMPLETE);
      !f.exited && f.writer.buf == [] && (w.buf != [] ==> AofFlush.Writes(w, COMPLETE) && !AofFlush.TookBack(w, COMPLETE))
  {
  }

  lemma CompleteFlush(w: AofFlush.Writer)
    requires AofFlush.Aligned(w)
    ensures
      var f := AofFlush.Flush(w, COMPLETE);
      && !f.exited && f.writer.buf == [] && f.writer.file == w.file + w.buf && f.writer.append == w.append
      && f.writer.lastIncrSize == w.lastIncrSize + |w.buf| && AofFlush.Aligned(f.writer)
  {
    assert w.buf[..|w.buf|] == w.buf;
    AofFlush.AlignedWriteAppends(w, w.buf);
  }

  lemma TakenBackFlush(w: AofFlush.Writer)
    requires AofFlush.Aligned(w) && |w.buf| > 1 && w.lastIncrSize == |w.file|
    ensures
      var f := AofFlush.Flush(w, TAKEN_BACK);
      !f.exited && f.writer == w.(offset := |w.file| + 1, writeOk := false, postponedStart := 0)
  {
    assert TAKEN_BACK.writes[1..] == [AofFlush.WriteError];
    assert AofFlush.Written(|w.buf| - 1, [AofFlush.WriteError]) == (0, true);
    assert AofFlush.Written(|w.buf|, TAKEN_BACK.writes) == (1, true);
    var w1 := AofFlush.WriteAt(w, w.buf[..1]);
    AofFlush.AlignedWriteAppends(w, w.buf[..1]);
    assert w1.file[..|w.file|] == w.file;
  }

  predicate Ready(s: State) {
    s.manifest.incrs != [] && s.disk.manifest.incrs != []
  }

  /** The steps of a rewrite that starts well, up to the use of the new INCR file. */
  const OPENING := [StartRewrite(COMPLETE), OpenNew(true), PersistOpen(Ok), UseNew]

  lemma OpeningRuns(cfg: AofLoad.Config, s: State)
    requires Ready(s) && s.phase.Idle? && s.child.None? && AofFlush.Aligned(WriterOf(s))
    ensures Runs(cfg, s, OPENING)
    ensures
      var r := After(cfg, s, OPENING);
      && Ready(r) && r.phase.Forking? && r.buf == [] && r.fed == s.fed
      && r.fd == Fd(0, false, 0, r.fd.writeOk, r.fd.postponedStart)
  {
    hide Recover, Runs, After, Encode, Bytes, Loaded, AofLoad.Load, AofFlush.Flush, AofFlush.Written;
    CompleteFlush(WriterOf(s));
    var s1 := Next(cfg, s, StartRewrite(COMPLETE));
    var s2 := Next(cfg, s1, OpenNew(true));
    var s3 := Next(cfg, s2, PersistOpen(Ok));
    var s4 := Next(cfg, s3, UseNew);
    assert [StartRewrite(COMPLETE)] + [OpenNew(true), PersistOpen(Ok), UseNew] == OPENING;
    assert [OpenNew(true)] + [PersistOpen(Ok), UseNew] == [OpenNew(true), PersistOpen(Ok), UseNew];
    assert [PersistOpen(Ok)] + [UseNew] == [PersistOpen(Ok), UseNew];
    assert [UseNew] + [] == [UseNew];
    NoSteps(cfg, s4);
    OneStep(cfg, s3, UseNew, []);
    OneStep(cfg, s2, PersistOpen(Ok), [UseNew]);
    OneStep(cfg, s1, OpenNew(true), [PersistOpen(Ok), UseNew]);
    OneStep(cfg, s, StartRewrite(COMPLETE), [OpenNew(true), PersistOpen(Ok), UseNew]);
  }

  // -------------------------------------------------------------- bytes behind a gap

  /** The current file ends with a whole command. */
  predicate EndsWhole(s: State) {
    s.manifest.incrs != [] &&
    var n := Last(s.manifest);
    |Bytes(s.disk.files, n)| == |EncodeAll(OnDisk(s.disk.files, s.segs, n))|
  }

  /** Such a file holds exactly the commands that are wholly in it. */
  lemma WholeFile(cfg: AofLoad.Config, s: State)
    requires AllAccepted(cfg, s.segs) && cfg.loadTruncated && Ready(s) && EndsWhole(s)
    requires HoldsPart(s.disk.files, s.segs, Last(s.manifest))
    ensures
      var n := Last(s.manifest);
      && Bytes(s.disk.files, n) == EncodeAll(OnDisk(s.disk.files, s.segs, n))
      && AofLoad.Load(cfg, Bytes(s.disk.files, n)).executed == OnDisk(s.disk.files, s.segs, n)
      && (forall i | 0 <= i < |OnDisk(s.disk.files, s.segs, n)| :: Accepts(cfg, OnDisk(s.disk.files, s.segs, n)[i]))
  {
    var n := Last(s.manifest);
    var bytes, cmds := Bytes(s.disk.files, n), Seg(s.segs, n);
    LoadOne(cfg, s.disk.files, s.segs, n);
    assert bytes[..|bytes|] == bytes;
    assert forall i | 0 <= i < |cmds| :: Accepts(cfg, cmds[i]);
  }

  /** The disk after its last INCR file was replaced: the load of that file decides. */
  lemma RecoverNewLast(cfg: AofLoad.Config, d: Disk, segs: Segments, fed: seq<Command>, bytes: seq<Byte>)
    requires cfg.loadTruncated && AllAccepted(cfg, segs) && Shows(d.manifest, d.files, segs, fed)
    ensures
      var o := AofLoad.Load(cfg, bytes);
      Recover(cfg, d.(files := d.files[IncrName(Last(d.manifest)) := Log(bytes)]))
        == if o.status == AofLoad.Failed then None else Some(Earlier(d.manifest, d.files, segs) + o.executed)
  {
    hide AllAccepted, LoadIncrs, Concat, AofLoad.Load, Seg, EncodeAll;
    var m := d.manifest;
    var n, last := Last(m), |m.incrs| - 1;
    var files' := d.files[IncrName(n) := Log(bytes)];
    assert forall i | 0 <= i < last :: m.incrs[i] != n;
    hide WellFormed;
    forall i | 0 <= i < last ensures HoldsAll(files', segs, m.incrs[i]) {
      assert HoldsAll(d.files, segs, m.incrs[i]);
    }
    LoadIncrsLast(cfg, files', segs, m.incrs);
    var o := AofLoad.Load(cfg, bytes);
    var base, older := d.files[BaseName(m.base)].cmds, Concat(segs, m.incrs[..last]);
    assert base + (older + o.executed) == base + older + o.executed;
  }

  /**
   After a flush that leaves a gap behind a whole command, a restart is refused; only if the
   server may drop a corrupt tail and this one is small enough does it start, and then it has
   lost everything since the short write that was taken back.
   */
  lemma GapRefusesRestart(cfg: AofLoad.Config, s: State, step: Step)
    requires Inv(cfg, s) && cfg.loadTruncated && Enabled(cfg, s, step) && LeavesGap(s, step) && EndsWhole(s)
    ensures
      var s', n := Next(cfg, s, step), Last(s.manifest);
      var tail := |Bytes(s'.disk.files, n)| - |Bytes(s.disk.files, n)|;
      && tail > 0
      && Recover(cfg, s'.disk)
         == if cfg.corruptTailMax > 0 && tail < cfg.corruptTailMax then Recover(cfg, s.disk) else None
  {
    hide Recover, AofLoad.Load, EncodeAll, AllAccepted, FilesHold, Earlier, AofFlush.Flush, AofFlush.Written, OnDisk, WellFormed;
    var n, files := Last(s.manifest), s.disk.files;
    DiskShows(cfg, s);
    PartOfLast(s.manifest, files, s.segs);
    WholeFile(cfg, s);
    var done, w := OnDisk(files, s.segs, n), WriterOf(s);
    AofFlush.FlushWithGap(w, step.env);
    var k := AofFlush.Written(|w.buf|, step.env.writes).0;
    var bad := AofFlush.Gap(w.offset - |w.file|) + w.buf[..k];
    var file' := AofFlush.Flush(w, step.env).writer.file;
    assert file' == EncodeAll(done) + bad;
    AofLoad.LoadThenBad(cfg, done, bad);
    RecoverNewLast(cfg, s.disk, s.segs, s.fed, file');
    RecoverReadsView(cfg, s.disk, s.segs, s.fed);
  }

  lemma PartOfLast(m: Manifest, files: Files, segs: Segments)
    requires FilesHold(m, files, segs)
    ensures m.incrs != [] && HoldsPart(files, segs, Last(m))
  {
    assert HoldsPart(files, segs, m.incrs[|m.incrs| - 1]);
  }

  /** Where no corrupt tail may be dropped: a flush leaves a disk to restart from exactly if it leaves no gap. */
  lemma FlushRecoverable(cfg: AofLoad.Config, s: State, step: Step)
    requires Inv(cfg, s) && cfg.loadTruncated && cfg.corruptTailMax == 0 && EndsWhole(s)
    requires Enabled(cfg, s, step) && (step.Flush? || step.StartRewrite?)
    ensures Recover(cfg, Next(cfg, s, step).disk).Some? <==> !LeavesGap(s, step)
  {
    hide Inv, Recover, LeavesGap, Next, Enabled;
    if LeavesGap(s, step) {
      GapRefusesRestart(cfg, s, step);
    } else {
      FlushKeepsInv(cfg, s, step);
      InvIsRecoverable(cfg, Next(cfg, s, step));
    }
  }

  /** Every server can get there: one short write that is taken back after a rewrite started. */
  lemma GapIsReachable(cfg: AofLoad.Config, cmd: Command)
    requires cfg.loadTruncated && cfg.corruptTailMax == 0 && Accepts(cfg, cmd)
    ensures
      var steps := OPENING + [Fork(true), Feed(cmd), Flush(TAKEN_BACK)];
      && Runs(cfg, INITIAL, steps) && Enabled(cfg, After(cfg, INITIAL, steps), Flush(COMPLETE))
      && var r := Next(cfg, After(cfg, INITIAL, steps), Flush(COMPLETE));
      && r.buf == [] && Recover(cfg, r.disk).None?
  {
    hide *;
    InitialInv(cfg);
    InitialIsReady();
    OpeningRuns(cfg, INITIAL);
    RunKeepsInv(cfg, INITIAL, OPENING);
    var s := After(cfg, INITIAL, OPENING);
    TakeBackRuns(cfg, s, cmd);
    RunsAppend(cfg, INITIAL, OPENING, [Fork(true), Feed(cmd), Flush(TAKEN_BACK)]);
    var r := After(cfg, s, [Fork(true), Feed(cmd), Flush(TAKEN_BACK)]);
    RunKeepsInv(cfg, s, [Fork(true), Feed(cmd), Flush(TAKEN_BACK)]);
    CompleteLeavesGap(cfg, r);
    GapRefusesRestart(cfg, r, Flush(COMPLETE));
  }

  lemma InitialIsReady()
    ensures Ready(INITIAL) && INITIAL.phase.Idle? && INITIAL.child.None? && AofFlush.Aligned(WriterOf(INITIAL))
  {
  }

  /** On a new file: one command is fed and its first byte is written and taken back. */
  lemma TakeBackRuns(cfg: AofLoad.Config, s: State, cmd: Command)
    requires Inv(cfg, s) && Ready(s) && s.phase.Forking? && s.buf == [] && Accepts(cfg, cmd)
    requires s.fd == Fd(0, false, 0, s.fd.writeOk, s.fd.postponedStart)
    ensures
      var steps := [Fork(true), Feed(cmd), Flush(TAKEN_BACK)];
      && Runs(cfg, s, steps)
      && var r := After(cfg, s, steps);
      && Ready(r) && r.phase.Idle? && r.buf != [] && Bytes(r.disk.files, Last(r.manifest)) == []
      && !r.fd.append && r.fd.offset == 1
  {
    hide Recover, Runs, After, AofLoad.Load, AofFlush.Flush, AofFlush.Written, Shows, AllAccepted, Encode, Accepts;
    var s1 := Next(cfg, s, Fork(true));
    var s2 := Next(cfg, s1, Feed(cmd));
    EncodedIsLong(cmd);
    assert s2.buf == Encode(cmd);
    TakenBackFlush(WriterOf(s2));
    var s3 := Next(cfg, s2, Flush(TAKEN_BACK));
    assert [Fork(true)] + [Feed(cmd), Flush(TAKEN_BACK)] == [Fork(true), Feed(cmd), Flush(TAKEN_BACK)];
    assert [Feed(cmd)] + [Flush(TAKEN_BACK)] == [Feed(cmd), Flush(TAKEN_BACK)];
    assert [Flush(TAKEN_BACK)] + [] == [Flush(TAKEN_BACK)];
    NoSteps(cfg, s3);
    OneStep(cfg, s2, Flush(TAKEN_BACK), []);
    OneStep(cfg, s1, Feed(cmd), [Flush(TAKEN_BACK)]);
    OneStep(cfg, s, Fork(true), [Feed(cmd), Flush(TAKEN_BACK)]);
  }

  lemma EncodedIsLong(cmd: Command)
    ensures |Encode(cmd)| > 1
  {
  }

  lemma CompleteLeavesGap(cfg: AofLoad.Config, s: State)
    requires Ready(s) && s.phase.Idle? && s.buf != [] && Bytes(s.disk.files, Last(s.manifest)) == []
    requires !s.fd.append && s.fd.offset == 1
    ensures Enabled(cfg, s, Flush(COMPLETE)) && LeavesGap(s, Flush(COMPLETE)) && EndsWhole(s)
    ensures Next(cfg, s, Flush(COMPLETE)).buf == []
  {
    hide Recover, AofFlush.Flush, AofFlush.Writes, AofFlush.TookBack, Encode;
    CompleteEmpties(WriterOf(s));
    var cmds := Seg(s.segs, Last(s.manifest));
    AofLoad.WholeOfNothing(cmds);
    NothingEncoded();
    assert cmds[..0] == [];
  }

  // ---- a gap inside a command

  /** "abc#", the log of that one argument up to its first letter, and what comes after. */
  const ARGUMENT: Arg := [97, 98, 99, 35]
  const HEAD: Arg := [42, 49, 13, 10] + [36, 52, 13, 10] + [97]
  const TAIL: Arg := [98, 99, 35, 13, 10]

  /** The first nine bytes stay, the next three are taken back, then everything is written. */
  const NINE := AofFlush.Env(false, AofFlush.No, false, 0, [AofFlush.Wrote(9), AofFlush.WriteError], false)
  const THREE := AofFlush.Env(false, AofFlush.No, false, 0, [AofFlush.Wrote(3), AofFlush.WriteError], true)

  lemma ArgumentEncoded()
    ensures Encode([ARGUMENT]) == HEAD + TAIL
  {
    assert EncodeArgs([ARGUMENT]) == EncodeArg(ARGUMENT) + EncodeArgs([]);
    assert Decimal(1) == [49] && Decimal(4) == [52];
    assert EncodeArg(ARGUMENT) == [36, 52, 13, 10] + ARGUMENT + [13, 10];
  }

  lemma GappedFile()
    ensures
      var steps := [AofFlush.FeedStep(HEAD + TAIL), AofFlush.FlushStep(NINE), AofFlush.FlushStep(THREE), AofFlush.FlushStep(COMPLETE)];
      var run := AofFlush.Run(AofFlush.Opened([], false), steps);
      !run.exited && run.writer.buf == [] && run.writer.file == HEAD + [0, 0, 0] + TAIL
  {
    var w0 := AofFlush.Opened([], false);
    var w1 := w0.(buf := HEAD + TAIL);
    assert w0.buf + (HEAD + TAIL) == w1.buf;
    assert NINE.writes[1..] == [AofFlush.WriteError] && THREE.writes[1..] == [AofFlush.WriteError];
    assert AofFlush.Written(5, [AofFlush.WriteError]) == AofFlush.Written(2, [AofFlush.WriteError]) == (0, true);
    assert AofFlush.Written(14, NINE.writes) == (9, true);
    assert AofFlush.Written(5, THREE.writes) == (3, true);
    assert w1.buf[..9] == HEAD && w1.buf[9..] == TAIL;
    var w2 := AofFlush.Flush(w1, NINE).writer;
    assert w2 == AofFlush.Writer(HEAD, 9, false, TAIL, 9, false, 0);
    var w3 := AofFlush.Flush(w2, THREE).writer;
    assert w3 == w2.(offset := 12);
    CompleteEmpties(w3);
    AofFlush.FlushWithGap(w3, COMPLETE);
    assert AofFlush.Gap(3) == [0, 0, 0] && TAIL[..5] == TAIL;
    ThreeFlushes(w1, AofFlush.FlushStep(NINE), AofFlush.FlushStep(THREE), AofFlush.FlushStep(COMPLETE));
    var a, b, c, d := AofFlush.FeedStep(HEAD + TAIL), AofFlush.FlushStep(NINE), AofFlush.FlushStep(THREE), AofFlush.FlushStep(COMPLETE);
    assert [a, b, c, d][1..] == [b, c, d];
  }

  lemma ThreeFlushes(w: AofFlush.Writer, a: AofFlush.Step, b: AofFlush.Step, c: AofFlush.Step)
    requires a.FlushStep? && b.FlushStep? && c.FlushStep?
    requires !AofFlush.Flush(w, a.env).exited && !AofFlush.Flush(AofFlush.Flush(w, a.env).writer, b.env).exited
    ensures AofFlush.Run(w, [a, b, c]) == AofFlush.Flush(AofFlush.Flush(AofFlush.Flush(w, a.env).writer, b.env).writer, c.env)
  {
    hide AofFlush.Flush;
    assert [a, b, c][1..] == [b, c] && [b, c][1..] == [c] && [c][1..] == [];
    var f := AofFlush.Flush(w, a.env);
    var g := AofFlush.Flush(f.writer, b.env);
    var h := AofFlush.Flush(g.writer, c.env);
    assert AofFlush.Run(h.writer, []) == AofFlush.Flushed(h.writer, false);
    assert AofFlush.Run(g.writer, [c]) == h;
    assert AofFlush.Run(f.writer, [b, c]) == h;
  }

  /**
   Where an earlier short write could not be taken back, a gap can lie inside a command, and the
   load may then accept the file with other bytes in the argument: `EndsWhole` is needed above.
   */
  lemma GapInsideCommand(cfg: AofLoad.Config)
    requires cfg.kindOf([[97, 0, 0, 0]]) == AofLoad.Plain
    ensures Encode([ARGUMENT]) == HEAD + TAIL
    ensures AofLoad.Load(cfg, HEAD + [0, 0, 0] + TAIL) == AofLoad.Outcome(AofLoad.Loaded, [[[97, 0, 0, 0]]], 17)
  {
    ArgumentEncoded();
    var file := HEAD + [0, 0, 0] + TAIL;
    var args: Arg := [36, 52, 13, 10] + [97, 0, 0, 0, 98, 99, 35, 13, 10];
    assert file == [42, 49, 13, 10] + args;
    var note: Arg := [35, 13, 10];
    assert file[14..] == note;
    ReadOneArgument(args);
    ReadOneCommand(file, args);
    ReadNote(note);
    hide ReadCommand, ReadArgs, ReadArg, AofLoad.Load;
    LoadsNoted(cfg, file, note);
  }

  lemma ReadOneArgument(args: Arg)
    requires args == [36, 52, 13, 10] + [97, 0, 0, 0, 98, 99, 35, 13, 10]
    ensures ReadArg(args) == ArgRead([97, 0, 0, 0], 10)
  {
    hide LineLength, ParseInt;
    var body: Arg := [97, 0, 0, 0, 98, 99, 35, 13, 10];
    assert Decimal(4) == [52];
    assert Header(DOLLAR, 4) == [36, 52, 13, 10];
    assert args == Header(DOLLAR, 4) + body;
    ReadHeader(DOLLAR, 4, body);
    assert args[4..8] == [97, 0, 0, 0];
  }

  lemma ReadOneCommand(file: Arg, args: Arg)
    requires file == [42, 49, 13, 10] + args && |args| == 13 && ReadArg(args) == ArgRead([97, 0, 0, 0], 10)
    ensures ReadCommand(file) == Read([[97, 0, 0, 0]], 14)
  {
    hide LineLength, ParseInt, ReadArg;
    assert Decimal(1) == [49];
    assert Header(STAR, 1) == [42, 49, 13, 10];
    ReadHeader(STAR, 1, args);
    assert ReadArgs(args[10..], 0) == ArgsRead([], 0);
    assert [[97, 0, 0, 0]] + [] == [[97, 0, 0, 0]];
    assert ReadArgs(args, 1) == ArgsRead([[97, 0, 0, 0]], 10);
    assert file[4..] == args && file[0] == STAR && file[1] == 49;
  }

  lemma ReadNote(note: Arg)
    requires note == [35, 13, 10]
    ensures ReadCommand(note) == Annotation(3)
  {
    LineStopsAtLf([35, 13], [], LINE_MAX - 1);
    assert [35, 13] + [LF] + [] == note;
  }

  lemma LoadsNoted(cfg: AofLoad.Config, file: Arg, note: Arg)
    requires cfg.kindOf([[97, 0, 0, 0]]) == AofLoad.Plain && |file| == 17 && note == file[14..]
    requires ReadCommand(file) == Read([[97, 0, 0, 0]], 14) && ReadCommand(note) == Annotation(3)
    ensures AofLoad.Load(cfg, file) == AofLoad.Outcome(AofLoad.Loaded, [[[97, 0, 0, 0]]], 17)
  {
    hide ReadCommand;
    AofLoad.ReadNothing();
    var l := AofLoad.Advance(cfg, AofLoad.START, [[97, 0, 0, 0]], 14);
    assert [] + [[[97, 0, 0, 0]]] == [[[97, 0, 0, 0]]];
    assert note[3..] == [];
    assert AofLoad.LoadRest(cfg, [], l, 17) == AofLoad.CleanEnd(cfg, l, 17);
    assert AofLoad.LoadRest(cfg, note, l, 17) == AofLoad.LoadRest(cfg, [], l, 17);
  }

  // ------------------------------------------------------- directory fsync failures

  /**
   At the end of a rewrite, a directory fsync that fails after the rename makes the handler
   remove a BASE file that the manifest on disk already names. A restart is possible after
   `PersistDone` and the clean-up that follows it exactly when the failure is not of that kind.
   */
  lemma LateFailureLosesBase(cfg: AofLoad.Config, s: State, outcome: Persist)
    requires Inv(cfg, s) && cfg.loadTruncated && Enabled(cfg, s, PersistDone(outcome)) && outcome != Ok
    ensures
      var s1 := Next(cfg, s, PersistDone(outcome));
      var s2 := Next(cfg, s1, UnlinkNewBase);
      Recover(cfg, s2.disk).Some? <==> outcome != Late
  {
    if outcome == Early {
      PersistDoneKeepsInv(cfg, s, outcome);
      var s1 := Next(cfg, s, PersistDone(outcome));
      UnlinkKeepsInv(cfg, s1);
      var s2 := Next(cfg, s1, UnlinkNewBase);
      DiskShows(cfg, s2);
      RecoverReadsView(cfg, s2.disk, s2.segs, s2.fed);
    }
  }

  /** The rest of a rewrite that goes well, up to the new BASE file being in place. */
  const CLOSING := [Fork(true), ChildExit(true), Rename(true)]

  lemma ClosingRuns(cfg: AofLoad.Config, s: State)
    requires Ready(s) && s.phase.Forking?
    ensures Runs(cfg, s, CLOSING)
    ensures var r := After(cfg, s, CLOSING); Ready(r) && r.phase.Renamed?
  {
    hide Recover, Runs, After, Encode, Bytes, Loaded, AofLoad.Load;
    var s1 := Next(cfg, s, Fork(true));
    var s2 := Next(cfg, s1, ChildExit(true));
    var s3 := Next(cfg, s2, Rename(true));
    assert [Fork(true)] + [ChildExit(true), Rename(true)] == CLOSING;
    assert [ChildExit(true)] + [Rename(true)] == [ChildExit(true), Rename(true)];
    assert [Rename(true)] + [] == [Rename(true)];
    NoSteps(cfg, s3);
    OneStep(cfg, s2, Rename(true), []);
    OneStep(cfg, s1, ChildExit(true), [Rename(true)]);
    OneStep(cfg, s, Fork(true), [ChildExit(true), Rename(true)]);
  }

  /** Any idle server reaches the point where the late failure above can happen. */
  lemma LateFailureIsReachable(cfg: AofLoad.Config, s: State)
    requires Ready(s) && s.phase.Idle? && s.child.None? && AofFlush.Aligned(WriterOf(s))
    ensures Runs(cfg, s, OPENING + CLOSING)
    ensures Enabled(cfg, After(cfg, s, OPENING + CLOSING), PersistDone(Late))
  {
    hide Recover, Next, AofLoad.Load;
    OpeningRuns(cfg, s);
    ClosingRuns(cfg, After(cfg, s, OPENING));
    hide Runs, After, OPENING, CLOSING;
    RunsAppend(cfg, s, OPENING, CLOSING);
  }

  /**
   The same failure when a rewrite starts: the manifest on disk already lists the new INCR
   file, the server goes on writing the one before it.
   */
  ghost predicate LateOpened(cfg: AofLoad.Config, s: State) {
    var n := s.manifest.currIncr + 1;
    && s.phase.Idle? && AllAccepted(cfg, s.segs)
    && Shows(s.manifest, s.disk.files, s.segs, s.fed) && Current(s)
    && s.disk.manifest.base == s.manifest.base && s.disk.manifest.incrs == s.manifest.incrs + [n]
    && NewFileReady(s, n) && n !in s.manifest.incrs
  }

  lemma LateOpenStarts(cfg: AofLoad.Config, s: State)
    requires Inv(cfg, s) && Enabled(cfg, s, PersistOpen(Late))
    ensures LateOpened(cfg, Next(cfg, s, PersistOpen(Late)))
  {
    hide WellFormed, EncodeAll, FilesHold, AllAccepted, Earlier;
    HoldsIsWellFormed(s.manifest, s.disk.files, s.segs);
    NewIncrKeepsWellFormed(s.manifest);
    hide Shows;
  }

  lemma LateOpenContinues(cfg: AofLoad.Config, s: State, step: Step)
    requires LateOpened(cfg, s) && Enabled(cfg, s, step) && (step.Feed? || step.Flush?) && !LeavesGap(s, step)
    requires Next(cfg, s, step).phase.Idle?
    ensures LateOpened(cfg, Next(cfg, s, step))
  {
    hide Encode, EncodeAll, WellFormed, Shows, AllAccepted, Accepts, AofFlush.Flush, AofFlush.Gaps;
    if step.Feed? {
      FeedKeepsShown(s, step.cmd);
      AcceptedGrows(cfg, s.segs, Last(s.manifest), step.cmd);
    } else {
      FlushKeepsShown(s, step.env, Idle);
    }
  }

  lemma {:induction false} LoadIncrsThenEmpty(cfg: AofLoad.Config, files: Files, segs: Segments, incrs: seq<nat>, n: nat)
    requires AllAccepted(cfg, segs) && cfg.loadTruncated && incrs != []
    requires forall i | 0 <= i < |incrs| :: HoldsPart(files, segs, incrs[i])
    requires forall i | 0 <= i < |incrs| - 1 :: HoldsAll(files, segs, incrs[i])
    requires HoldsAll(files, segs, n) && Seg(segs, n) == []
    ensures
      var k := |incrs| - 1;
      LoadIncrs(cfg, files, incrs + [n])
        == if |Bytes(files, incrs[k])| == |EncodeAll(OnDisk(files, segs, incrs[k]))|
           then Some(Concat(segs, incrs[..k]) + OnDisk(files, segs, incrs[k])) else None
  {
    hide AofLoad.Load, OnDisk, HoldsPart, HoldsAll, AllAccepted, Seg, EncodeAll;
    LoadsOnDisk(cfg, files, segs, incrs[0]);
    assert (incrs + [n])[1..] == incrs[1..] + [n];
    var k, first := |incrs| - 1, OnDisk(files, segs, incrs[0]);
    if k == 0 {
      assert incrs[1..] + [n] == [n];
      assert incrs[..0] == [] && [] + first == first == first + [];
      LoadsEmpty(cfg, files, segs, n);
    } else {
      assert HoldsAll(files, segs, incrs[0]);
      assert incrs[1..][k - 1] == incrs[k];
      LoadIncrsThenEmpty(cfg, files, segs, incrs[1..], n);
      assert incrs[..k][1..] == incrs[1..][..k - 1];
      var rest, tail := Concat(segs, incrs[1..][..k - 1]), OnDisk(files, segs, incrs[k]);
      assert first + (rest + tail) == first + rest + tail;
    }
  }

  lemma LoadsEmpty(cfg: AofLoad.Config, files: Files, segs: Segments, n: nat)
    requires AllAccepted(cfg, segs) && cfg.loadTruncated && HoldsAll(files, segs, n) && Seg(segs, n) == []
    ensures LoadIncrs(cfg, files, [n]) == Some([])
  {
    hide AofLoad.Load, OnDisk, AllAccepted, EncodeAll;
    LoadsOnDisk(cfg, files, segs, n);
    var o := AofLoad.Load(cfg, files[IncrName(n)].bytes);
    assert o.executed + [] == [];
    assert [n][1..] == [];
    assert LoadIncrs(cfg, files, []) == Some([]);
  }

  /**
   After such a failure the server can restart exactly while its current file ends with a whole
   command, and then it has all that is in its files.
   */
  lemma LateOpenRecovery(cfg: AofLoad.Config, s: State)
    requires LateOpened(cfg, s) && cfg.loadTruncated
    ensures
      var n := Last(s.manifest);
      Recover(cfg, s.disk)
        == if EndsWhole(s) then Some(Earlier(s.manifest, s.disk.files, s.segs) + OnDisk(s.disk.files, s.segs, n)) else None
  {
    hide AofLoad.Load, OnDisk, AllAccepted, EncodeAll, LoadIncrs, WellFormed, Concat;
    NothingEncoded();
    assert HoldsAll(s.disk.files, s.segs, s.manifest.currIncr + 1);
    HoldsSome(s.manifest, s.disk.files, s.segs);
    hide HoldsPart, HoldsAll;
    var m := s.manifest;
    LoadIncrsThenEmpty(cfg, s.disk.files, s.segs, m.incrs, m.currIncr + 1);
    var base, older := s.disk.files[BaseName(m.base)].cmds, Concat(s.segs, m.incrs[..|m.incrs| - 1]);
    assert base + (older + OnDisk(s.disk.files, s.segs, Last(m))) == base + older + OnDisk(s.disk.files, s.segs, Last(m));
  }

  // ------------------------------------- rewrites that start with a buffer left over

  /**
   The manifest with the new INCR file makes the current one not the last: whatever the forced
   flush left in the buffer, a restart is then possible exactly if the current file ends with a
   whole command, and it gives what it gave before.
   */
  lemma RestRecovery(cfg: AofLoad.Config, s: State)
    requires Inv(cfg, s) && cfg.loadTruncated && Enabled(cfg, s, PersistOpen(Ok))
    ensures Recover(cfg, Next(cfg, s, PersistOpen(Ok)).disk) == if EndsWhole(s) then Recover(cfg, s.disk) else None
  {
    hide AofLoad.Load, OnDisk, AllAccepted, EncodeAll, Recover, WellFormed, FilesHold, Earlier;
    DiskShows(cfg, s);
    RecoverReadsView(cfg, s.disk, s.segs, s.fed);
    LateOpenStarts(cfg, s);
    var late := Next(cfg, s, PersistOpen(Late));
    LateOpenRecovery(cfg, late);
    assert Next(cfg, s, PersistOpen(Ok)).disk == late.disk;
    SameEarlier(s);
  }

  lemma SameEarlier(s: State)
    requires FilesHold(s.manifest, s.disk.files, s.segs) && FilesHold(s.disk.manifest, s.disk.files, s.segs)
    requires SameLive(s.disk.manifest, s.manifest)
    ensures Earlier(s.manifest, s.disk.files, s.segs) == Earlier(s.disk.manifest, s.disk.files, s.segs)
  {
  }

  /** Steps that are possible, harmful or not. */
  predicate Can(cfg: AofLoad.Config, s: State, steps: seq<Step>)
    decreases steps
  {
    steps == [] || (Enabled(cfg, s, steps[0]) && Can(cfg, Next(cfg, s, steps[0]), steps[1..]))
  }

  function Reached(cfg: AofLoad.Config, s: State, steps: seq<Step>): State
    requires Can(cfg, s, steps)
    decreases steps
  {
    if steps == [] then s else Reached(cfg, Next(cfg, s, steps[0]), steps[1..])
  }

  lemma CanOne(cfg: AofLoad.Config, s: State, step: Step, rest: seq<Step>)
    requires Enabled(cfg, s, step) && Can(cfg, Next(cfg, s, step), rest)
    ensures Can(cfg, s, [step] + rest) && Reached(cfg, s, [step] + rest) == Reached(cfg, Next(cfg, s, step), rest)
  {
    assert ([step] + rest)[1..] == rest;
  }

  lemma CanNone(cfg: AofLoad.Config, s: State)
    ensures Can(cfg, s, []) && Reached(cfg, s, []) == s
  {
  }

  /** The commands in the buffer when the current file ends with a whole command. */
  function Rest(s: State): seq<Command>
    requires s.manifest.incrs != []
  {
    var n := Last(s.manifest);
    Seg(s.segs, n)[AofLoad.WholeCommands(Seg(s.segs, n), |Bytes(s.disk.files, n)|)..]
  }

  lemma BufferIsRest(cfg: AofLoad.Config, s: State)
    requires Inv(cfg, s) && cfg.loadTruncated && EndsWhole(s) && !s.phase.Exited?
    ensures s.buf == EncodeAll(Rest(s)) && forall i | 0 <= i < |Rest(s)| :: Accepts(cfg, Rest(s)[i])
  {
    hide AofLoad.Load, WellFormed, FilesHold, Earlier, EncodeAll, AofLoad.WholeCommands;
    var n := Last(s.manifest);
    PartOfLast(s.manifest, s.disk.files, s.segs);
    WholeFile(cfg, s);
    var seg, done := Seg(s.segs, n), OnDisk(s.disk.files, s.segs, n);
    assert seg == done + Rest(s);
    EncodeAllAppend(done, Rest(s));
    assert s.buf == EncodeAll(seg)[|EncodeAll(done)|..];
    assert forall i | 0 <= i < |seg| :: Accepts(cfg, seg[i]);
  }

  /** The rest of a rewrite that goes well, with the buffer written to the new file on the way. */
  const SWITCHING := [PersistOpen(Ok), UseNew, Fork(true), Flush(COMPLETE)]
  const ENDING := [ChildExit(true), Rename(true), PersistDone(Ok)]
  const FINISHING := SWITCHING + ENDING

  lemma SwitchingRuns(cfg: AofLoad.Config, s: State)
    requires Ready(s) && s.phase.Opened? && s.phase.am == NewIncr(s.manifest)
    requires Bytes(s.disk.files, s.phase.am.currIncr) == []
    ensures Can(cfg, s, SWITCHING)
    ensures
      var r, n := Reached(cfg, s, SWITCHING), s.phase.am.currIncr;
      && Ready(r) && r.phase.Idle? && r.child == Some(s.fed) && Last(r.manifest) == n
      && IncrName(n) in r.disk.files && r.disk.files[IncrName(n)] == Log(s.buf)
  {
    hide Recover, Can, Reached, Encode, Loaded, AofLoad.Load, AofFlush.Flush, AofFlush.Written, Harmful;
    var s1 := Next(cfg, s, PersistOpen(Ok));
    var s2 := Next(cfg, s1, UseNew);
    var s3 := Next(cfg, s2, Fork(true));
    CompleteFlush(WriterOf(s3));
    assert [] + s.buf == s.buf;
    var s4 := Next(cfg, s3, Flush(COMPLETE));
    CanNone(cfg, s4);
    assert [Flush(COMPLETE)] + [] == [Flush(COMPLETE)];
    assert [Fork(true)] + [Flush(COMPLETE)] == [Fork(true), Flush(COMPLETE)];
    assert [UseNew] + [Fork(true), Flush(COMPLETE)] == [UseNew, Fork(true), Flush(COMPLETE)];
    assert [PersistOpen(Ok)] + [UseNew, Fork(true), Flush(COMPLETE)] == SWITCHING;
    CanOne(cfg, s3, Flush(COMPLETE), []);
    CanOne(cfg, s2, Fork(true), [Flush(COMPLETE)]);
    CanOne(cfg, s1, UseNew, [Fork(true), Flush(COMPLETE)]);
    CanOne(cfg, s, PersistOpen(Ok), [UseNew, Fork(true), Flush(COMPLETE)]);
  }

  lemma EndingRuns(cfg: AofLoad.Config, s: State)
    requires Ready(s) && s.phase.Idle? && s.child.Some?
    ensures Can(cfg, s, ENDING)
    ensures
      var d := Reached(cfg, s, ENDING).disk;
      && d.manifest.incrs == [Last(s.manifest)]
      && d.files == s.disk.files[BaseName(d.manifest.base) := Snapshot(s.child.value)]
  {
    hide Recover, Can, Reached, Encode, Loaded, AofLoad.Load, AofFlush.Flush, AofFlush.Written, Harmful;
    var s1 := Next(cfg, s, ChildExit(true));
    var s2 := Next(cfg, s1, Rename(true));
    var s3 := Next(cfg, s2, PersistDone(Ok));
    CanNone(cfg, s3);
    assert [PersistDone(Ok)] + [] == [PersistDone(Ok)];
    assert [Rename(true)] + [PersistDone(Ok)] == [Rename(true), PersistDone(Ok)];
    assert [ChildExit(true)] + [Rename(true), PersistDone(Ok)] == ENDING;
    CanOne(cfg, s2, PersistDone(Ok), []);
    CanOne(cfg, s1, Rename(true), [PersistDone(Ok)]);
    CanOne(cfg, s, ChildExit(true), [Rename(true), PersistDone(Ok)]);
  }

  lemma {:induction false} CanAppend(cfg: AofLoad.Config, s: State, a: seq<Step>, b: seq<Step>)
    requires Can(cfg, s, a) && Can(cfg, Reached(cfg, s, a), b)
    ensures Can(cfg, s, a + b) && Reached(cfg, s, a + b) == Reached(cfg, Reached(cfg, s, a), b)
    decreases a
  {
    hide Next, Enabled;
    if a == [] {
      assert a + b == b;
    } else {
      assert (a + b)[1..] == a[1..] + b;
      CanAppend(cfg, Next(cfg, s, a[0]), a[1..], b);
    }
  }

  /** Where those steps lead. */
  lemma FinishingRuns(cfg: AofLoad.Config, s: State)
    requires Ready(s) && s.phase.Opened? && s.phase.am == NewIncr(s.manifest)
    requires Bytes(s.disk.files, s.phase.am.currIncr) == []
    ensures Can(cfg, s, FINISHING)
    ensures
      var d, n := Reached(cfg, s, FINISHING).disk, s.phase.am.currIncr;
      && d.manifest.incrs == [n] && IncrName(n) in d.files && d.files[IncrName(n)] == Log(s.buf)
      && BaseName(d.manifest.base) in d.files && d.files[BaseName(d.manifest.base)] == Snapshot(s.fed)
  {
    hide Can, Reached, SWITCHING, ENDING;
    SwitchingRuns(cfg, s);
    EndingRuns(cfg, Reached(cfg, s, SWITCHING));
    CanAppend(cfg, s, SWITCHING, ENDING);
  }

  /**
   If the rewrite is then finished, a restart runs the commands left over twice: the snapshot of
   the child has them, and so has the new INCR file.
   */
  lemma RestIsDoubled(cfg: AofLoad.Config, s: State)
    requires Inv(cfg, s) && cfg.loadTruncated && s.phase.Opened? && EndsWhole(s)
    ensures Can(cfg, s, FINISHING)
    ensures s.buf == EncodeAll(Rest(s))
    ensures Recover(cfg, Reached(cfg, s, FINISHING).disk) == Some(s.fed + Rest(s))
  {
    hide AofLoad.Load, WellFormed, FilesHold, Earlier, EncodeAll, OnDisk, Rest, Reached, Can, FINISHING, AllAccepted;
    HoldsSome(s.manifest, s.disk.files, s.segs);
    BufferIsRest(cfg, s);
    FinishingRuns(cfg, s);
    var d, n := Reached(cfg, s, FINISHING).disk, s.phase.am.currIncr;
    AofLoad.LoadWhole(cfg, Rest(s));
    assert [n][1..] == [];
    assert LoadIncrs(cfg, d.files, []) == Some([]);
    assert Rest(s) + [] == Rest(s);
    assert LoadIncrs(cfg, d.files, [n]) == Some(Rest(s));
  }

  /** A forced flush that fails at once, and one that leaves a byte that cannot be taken back. */
  const NOTHING_WRITTEN := AofFlush.Env(true, AofFlush.No, false, 0, [AofFlush.WriteError], true)
  const BYTE_WRITTEN := AofFlush.Env(true, AofFlush.No, false, 0, [AofFlush.Wrote(1), AofFlush.WriteError], false)

  lemma FailedFlushes(w: AofFlush.Writer)
    requires |w.buf| > 1 && w.file == [] && w.append && w.lastIncrSize == 0
    ensures
      var f := AofFlush.Flush(w, NOTHING_WRITTEN);
      !f.exited && f.writer.file == [] && f.writer.buf == w.buf
    ensures
      var f := AofFlush.Flush(w, BYTE_WRITTEN);
      !f.exited && |f.writer.file| == 1
  {
    assert NOTHING_WRITTEN.writes[0] == AofFlush.WriteError;
    assert AofFlush.Written(|w.buf|, NOTHING_WRITTEN.writes) == (0, true);
    assert BYTE_WRITTEN.writes[1..] == [AofFlush.WriteError];
    assert AofFlush.Written(|w.buf| - 1, [AofFlush.WriteError]) == (0, true);
    assert AofFlush.Written(|w.buf|, BYTE_WRITTEN.writes) == (1, true);
    AofFlush.AlignedWriteAppends(w, w.buf[..1]);
    AofFlush.WritesNothing(w);
    assert w.buf[..0] == [];
  }

  /** One command, and a rewrite that starts with it in the buffer. */
  function Starting(cmd: Command, e: AofFlush.Env): seq<Step> {
    [Feed(cmd), StartRewrite(e), OpenNew(true)]
  }

  lemma StartingRuns(cfg: AofLoad.Config, cmd: Command, e: AofFlush.Env)
    requires Accepts(cfg, cmd) && (e == NOTHING_WRITTEN || e == BYTE_WRITTEN)
    ensures Runs(cfg, INITIAL, Starting(cmd, e))
    ensures
      var r := After(cfg, INITIAL, Starting(cmd, e));
      && Ready(r) && r.phase.Opened? && r.fed == [cmd] && Seg(r.segs, Last(r.manifest)) == [cmd]
      && (e == NOTHING_WRITTEN ==> Bytes(r.disk.files, Last(r.manifest)) == [] && r.buf == Encode(cmd))
      && (e == BYTE_WRITTEN ==> |Bytes(r.disk.files, Last(r.manifest))| == 1)
  {
    hide Recover, Runs, After, Encode, Loaded, AofLoad.Load, AofFlush.Flush, AofFlush.Written, Accepts;
    var s1 := Next(cfg, INITIAL, Feed(cmd));
    EncodedIsLong(cmd);
    assert s1.buf == Encode(cmd) && [] + [cmd] == [cmd];
    FailedFlushes(WriterOf(s1));
    var s2 := Next(cfg, s1, StartRewrite(e));
    var s3 := Next(cfg, s2, OpenNew(true));
    assert [Feed(cmd)] + [StartRewrite(e), OpenNew(true)] == Starting(cmd, e);
    assert [StartRewrite(e)] + [OpenNew(true)] == [StartRewrite(e), OpenNew(true)];
    assert [OpenNew(true)] + [] == [OpenNew(true)];
    NoSteps(cfg, s3);
    OneStep(cfg, s2, OpenNew(true), []);
    OneStep(cfg, s1, StartRewrite(e), [OpenNew(true)]);
    OneStep(cfg, INITIAL, Feed(cmd), [StartRewrite(e), OpenNew(true)]);
  }

  /** Every command can be doubled in this way. */
  lemma DoubledIsReachable(cfg: AofLoad.Config, cmd: Command)
    requires cfg.loadTruncated && Accepts(cfg, cmd)
    ensures Runs(cfg, INITIAL, Starting(cmd, NOTHING_WRITTEN))
    ensures
      var s := After(cfg, INITIAL, Starting(cmd, NOTHING_WRITTEN));
      Can(cfg, s, FINISHING) && s.fed == [cmd] && Recover(cfg, Reached(cfg, s, FINISHING).disk) == Some([cmd, cmd])
  {
    hide *;
    InitialInv(cfg);
    StartingRuns(cfg, cmd, NOTHING_WRITTEN);
    RunKeepsInv(cfg, INITIAL, Starting(cmd, NOTHING_WRITTEN));
    var s := After(cfg, INITIAL, Starting(cmd, NOTHING_WRITTEN));
    assert Ready(s) ==> s.manifest.incrs != [] by { ReadyHasIncr(s); }
    EmptyEndsWhole(s, cmd);
    RestIsDoubled(cfg, s);
    assert [cmd] + [cmd] == [cmd, cmd];
  }

  lemma ReadyHasIncr(s: State)
    ensures Ready(s) ==> s.manifest.incrs != []
  {
  }

  lemma EmptyEndsWhole(s: State, cmd: Command)
    requires s.manifest.incrs != [] && Bytes(s.disk.files, Last(s.manifest)) == [] && Seg(s.segs, Last(s.manifest)) == [cmd]
    ensures EndsWhole(s) && Rest(s) == [cmd]
  {
    hide Encode;
    AofLoad.WholeOfNothing([cmd]);
    NothingEncoded();
    assert [cmd][..0] == [] && [cmd][0..] == [cmd];
  }

  /** And a byte that cannot be taken back is enough for both refusals above. */
  lemma RefusalIsReachable(cfg: AofLoad.Config, cmd: Command)
    requires cfg.loadTruncated && Accepts(cfg, cmd)
    ensures Runs(cfg, INITIAL, Starting(cmd, BYTE_WRITTEN))
    ensures
      var s := After(cfg, INITIAL, Starting(cmd, BYTE_WRITTEN));
      && Enabled(cfg, s, PersistOpen(Ok)) && Recover(cfg, Next(cfg, s, PersistOpen(Ok)).disk).None?
      && Enabled(cfg, s, PersistOpen(Late)) && Recover(cfg, Next(cfg, s, PersistOpen(Late)).disk).None?
  {
    hide Runs, After, Starting, BYTE_WRITTEN, Inv, Recover, AofLoad.Load, Shows, EndsWhole, INITIAL, AofFlush.Flush, Harmful;
    InitialInv(cfg);
    StartingRuns(cfg, cmd, BYTE_WRITTEN);
    RunKeepsInv(cfg, INITIAL, Starting(cmd, BYTE_WRITTEN));
    var s := After(cfg, INITIAL, Starting(cmd, BYTE_WRITTEN));
    ByteIsNotWhole(s, cmd);
    RestRecovery(cfg, s);
    assert Next(cfg, s, PersistOpen(Ok)).disk == Next(cfg, s, PersistOpen(Late)).disk;
  }

  lemma ByteIsNotWhole(s: State, cmd: Command)
    requires s.manifest.incrs != [] && |Bytes(s.disk.files, Last(s.manifest))| == 1 && Seg(s.segs, Last(s.manifest)) == [cmd]
    ensures !EndsWhole(s)
  {
    EncodedIsLong(cmd);
    hide Encode;
    NothingEncoded();
    assert [cmd][..0] == [];
  }
}
