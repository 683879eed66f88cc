/**
 `loadSingleAppendOnlyFile`: replaying a log into a fake client, with the recovery it
 offers for a log that ends in the middle of a command or of a MULTI block.
 */
module AofLoad {
  import opened AofLog
  import opened Numbers

  /** What the command table says about a command. */
  datatype Kind = Unknown | Multi | Exec | Plain

  datatype Config = Config(
    kindOf: Command -> Kind,
    loadTruncated: bool,        // aof-load-truncated
    corruptTailMax: nat)        // aof-load-corrupt-tail-max-size

  // ------------------------------------------------------------ the fake client

  /** Executed commands, and those queued since MULTI while a MULTI block is open. */
  datatype Client = Client(executed: seq<Command>, multi: bool, queued: seq<Command>)

  const FRESH := Client([], false, [])

  function RunCommand(c: Client, cmd: Command, kind: Kind): Client {
    if c.multi && kind != Exec then c.(queued := c.queued + [cmd])
    else
      match kind
      case Multi => Client(c.executed, true, [])
      case Exec => if c.multi then Client(c.executed + c.queued, false, []) else c.(executed := c.executed + [cmd])
      case _ => c.(executed := c.executed + [cmd])
  }

  // ------------------------------------------------------------------- the loop

  /** The loop variables of the loader. */
  datatype Loader = Loader(client: Client, validUpTo: nat, validBeforeMulti: nat)

  const START := Loader(FRESH, 0, 0)

  /** What one command, whose encoding ends at `end`, does to the loop variables. */
  function Advance(cfg: Config, l: Loader, cmd: Command, end: nat): Loader {
    var kind := cfg.kindOf(cmd);
    Loader(
      RunCommand(l.client, cmd, kind),
      if cfg.loadTruncated || cfg.corruptTailMax > 0 then end else l.validUpTo,
      if kind == Multi then l.validUpTo else l.validBeforeMulti)
  }

  datatype Status = Loaded | Truncated | BrokenRecovered | Failed | Empty

  /** The verdict, what was executed, and how long the file is afterwards. */
  datatype Outcome = Outcome(status: Status, executed: seq<Command>, length: nat)

  function UnexpectedEnd(cfg: Config, l: Loader, fileSize: nat): Outcome {
    if cfg.loadTruncated then Outcome(Truncated, l.client.executed, l.validUpTo)
    else Outcome(Failed, l.client.executed, fileSize)
  }

  function BadFormat(cfg: Config, l: Loader, fileSize: nat): Outcome {
    if cfg.corruptTailMax > 0 && fileSize - l.validUpTo < cfg.corruptTailMax
    then Outcome(BrokenRecovered, l.client.executed, l.validUpTo)
    else Outcome(Failed, l.client.executed, fileSize)
  }

  /** A clean end of file; inside MULTI it counts as an unexpected one, back to before the MULTI. */
  function CleanEnd(cfg: Config, l: Loader, fileSize: nat): Outcome {
    if l.client.multi then UnexpectedEnd(cfg, l.(validUpTo := l.validBeforeMulti), fileSize)
    else Outcome(Loaded, l.client.executed, fileSize)
  }

  /** What ends the loop: the end of the file, an unknown command or an unreadable one. */
  function Verdict(cfg: Config, r: ReadResult, l: Loader, fileSize: nat): Outcome {
    match r
    case AtEnd => CleanEnd(cfg, l, fileSize)
    case Short => UnexpectedEnd(cfg, l, fileSize)
    case Malformed => BadFormat(cfg, l, fileSize)
    case _ => Outcome(Failed, l.client.executed, fileSize)
  }

  /** The load loop with the bytes `s` still to read. */
  function LoadRest(cfg: Config, s: Arg, l: Loader, fileSize: nat): Outcome
    requires |s| <= fileSize
    decreases |s|
  {
    var r := ReadCommand(s);
    if r.Annotation? then LoadRest(cfg, s[r.size..], l, fileSize)
    else if r.Read? && cfg.kindOf(r.cmd) != Unknown then
      LoadRest(cfg, s[r.size..], Advance(cfg, l, r.cmd, fileSize - (|s| - r.size)), fileSize)
    else Verdict(cfg, r, l, fileSize)
  }

  function Load(cfg: Config, file: Arg): Outcome {
    if file == [] then Outcome(Empty, [], 0) else LoadRest(cfg, file, START, |file|)
  }

  /** `loadSingleAppendOnlyFile`: a loop over a file position. */
  method LoadFile(cfg: Config, file: Arg) returns (o: Outcome)
    ensures o == Load(cfg, file)
    ensures forall cmds, k | IsCutLog(cfg, file, cmds, k) ::
      o.executed == Unmarked(cfg, Complete(cfg, cmds[..WholeCommands(cmds, k)]))
  {
    hide *;
    forall cmds, k | IsCutLog(cfg, file, cmds, k)
      ensures Load(cfg, file).executed == Unmarked(cfg, Complete(cfg, cmds[..WholeCommands(cmds, k)]))
    {
      CutLogRuns(cfg, file, cmds, k);
    }
    if file == [] {
      LoadsNothing(cfg);
      return Outcome(Empty, [], 0);
    }
    var pos: nat, l := 0, START;
    AtStart(cfg, file);
    var r := NextCommand(file, pos);
    while r.Annotation? || (r.Read? && cfg.kindOf(r.cmd) != Unknown)
      invariant pos <= |file| && At(cfg, file, pos, l) && r == ReadCommand(file[pos..])
      decreases |file| - pos
    {
      AtNext(cfg, file, pos, l, r);
      pos := pos + r.size;
      if r.Read? {
        l := Advance(cfg, l, r.cmd, pos);
      }
      r := NextCommand(file, pos);
    }
    AtLast(cfg, file, pos, l, r);
    o := Verdict(cfg, r, l, |file|);
  }

  lemma LoadsNothing(cfg: Config)
    ensures Load(cfg, []) == Outcome(Empty, [], 0)
  {
  }

  /** What is left to read at `pos` decides the outcome. */
  ghost predicate At(cfg: Config, file: Arg, pos: nat, l: Loader)
    requires pos <= |file|
  {
    LoadRest(cfg, file[pos..], l, |file|) == Load(cfg, file)
  }

  lemma AtStart(cfg: Config, file: Arg)
    requires file != []
    ensures At(cfg, file, 0, START)
  {
    assert file[0..] == file;
  }

  lemma AtNext(cfg: Config, file: Arg, pos: nat, l: Loader, r: ReadResult)
    requires pos <= |file| && At(cfg, file, pos, l) && r == ReadCommand(file[pos..])
    requires r.Annotation? || (r.Read? && cfg.kindOf(r.cmd) != Unknown)
    ensures 0 < r.size && pos + r.size <= |file|
    ensures At(cfg, file, pos + r.size, if r.Read? then Advance(cfg, l, r.cmd, pos + r.size) else l)
  {
    hide ReadCommand, Advance, Load, LoadRest;
    LoadTurn(cfg, file[pos..], l, |file|);
    assert file[pos..][r.size..] == file[pos + r.size..];
  }

  lemma AtLast(cfg: Config, file: Arg, pos: nat, l: Loader, r: ReadResult)
    requires pos <= |file| && At(cfg, file, pos, l) && r == ReadCommand(file[pos..])
    requires !r.Annotation? && !(r.Read? && cfg.kindOf(r.cmd) != Unknown)
    ensures Verdict(cfg, r, l, |file|) == Load(cfg, file)
  {
    hide ReadCommand, Advance, Load, LoadRest;
    LoadTurn(cfg, file[pos..], l, |file|);
  }

  /** One turn of the loop. */
  lemma LoadTurn(cfg: Config, s: Arg, l: Loader, fileSize: nat)
    requires |s| <= fileSize
    ensures
      var r := ReadCommand(s);
      LoadRest(cfg, s, l, fileSize)
        == if r.Annotation? then LoadRest(cfg, s[r.size..], l, fileSize)
           else if r.Read? && cfg.kindOf(r.cmd) != Unknown
           then LoadRest(cfg, s[r.size..], Advance(cfg, l, r.cmd, fileSize - (|s| - r.size)), fileSize)
           else Verdict(cfg, r, l, fileSize)
  {
  }

  /** The body of the loop up to the command lookup: the count line, then a loop over the arguments. */
  method NextCommand(file: Arg, pos: nat) returns (r: ReadResult)
    requires pos <= |file|
    ensures r == ReadCommand(file[pos..])
  {
    hide ReadArg, LineLength, ParseInt;
    var s := file[pos..];
    var n := LineLength(s, LINE_MAX - 1);
    if n == 0 { return AtEnd; }
    if s[0] == HASH { return Annotation(n); }
    if s[0] != STAR { return Malformed; }
    if n == 1 || s[1] == 0 {
      return if LineHitsEnd(s) then Short else ReadError;
    }
    var argc := ParseInt(s[1..n]);
    if argc < 1 { return Malformed; }
    var args := ArgumentLoop(s[n..], argc);
    match args
    case ArgsRead(argv, size) => r := Read(argv, n + size);
    case ArgsShort => r := Short;
    case ArgsMalformed => r := Malformed;
  }

  /** The loop over the arguments of one command. */
  method ArgumentLoop(s: Arg, argc: nat) returns (r: ArgsResult)
    ensures r == ReadArgs(s, argc)
  {
    hide ReadArg, ReadArgs;
    var argv, at := [], 0;
    assert s[0..] == s;
    PrependNothing(ReadArgs(s, argc));
    for j := 0 to argc
      invariant |argv| == j && 0 <= at <= |s|
      invariant ReadArgs(s, argc) == Prepend(argv, at, ReadArgs(s[at..], argc - j))
    {
      var one := ReadArg(s[at..]);
      ReadArgsStep(argv, at, s[at..], argc - j);
      match one
      case ArgShort => return ArgsShort;
      case ArgMalformed => return ArgsMalformed;
      case ArgRead(arg, size) =>
        assert s[at..][size..] == s[at + size..];
        argv := argv + [arg];
        at := at + size;
    }
    NoMoreArgs(s[at..]);
    assert argv + [] == argv;
    r := ArgsRead(argv, at);
  }

  lemma NoMoreArgs(s: Arg)
    ensures ReadArgs(s, 0) == ArgsRead([], 0)
  {
  }

  lemma PrependNothing(r: ArgsResult)
    ensures Prepend([], 0, r) == r
  {
    if r.ArgsRead? {
      assert [] + r.args == r.args;
    }
  }

  /** The result once `args` have been read from `size` bytes in front. */
  function Prepend(args: seq<Arg>, size: nat, r: ArgsResult): ArgsResult {
    match r
    case ArgsRead(more, n) => ArgsRead(args + more, size + n)
    case other => other
  }

  lemma ReadArgsStep(args: seq<Arg>, size: nat, s: Arg, count: nat)
    requires count > 0
    ensures Prepend(args, size, ReadArgs(s, count)) ==
      match ReadArg(s)
      case ArgShort => ArgsShort
      case ArgMalformed => ArgsMalformed
      case ArgRead(arg, n) => Prepend(args + [arg], size + n, ReadArgs(s[n..], count - 1))
  {
    match ReadArg(s)
    case ArgRead(arg, n) =>
      match ReadArgs(s[n..], count - 1) {
        case ArgsRead(more, m) => assert args + ([arg] + more) == args + [arg] + more;
        case _ =>
      }
    case _ =>
  }

  // ---------------------------------------------------- logs cut at any byte

  predicate Loadable(cfg: Config, cmds: seq<Command>) {
    forall i | 0 <= i < |cmds| :: Encodable(cmds[i]) && cfg.kindOf(cmds[i]) != Unknown
  }

  /** How many commands lie wholly within the first `k` bytes. */
  function WholeCommands(cmds: seq<Command>, k: nat): (w: nat)
    ensures w <= |cmds|
  {
    if cmds == [] || k < |Encode(cmds[0])| then 0 else 1 + WholeCommands(cmds[1..], k - |Encode(cmds[0])|)
  }

  /** The loop variables after running `cmds`, whose encoding starts at offset `at`. */
  function RunAll(cfg: Config, l: Loader, cmds: seq<Command>, at: nat): Loader
    decreases cmds
  {
    if cmds == [] then l
    else
      var end := at + |Encode(cmds[0])|;
      RunAll(cfg, Advance(cfg, l, cmds[0], end), cmds[1..], end)
  }

  lemma EncodeNotEmpty(cmd: Command)
    ensures |Encode(cmd)| > 0
  {
  }

  /**
   The heart of recovery: from any loop state, a log cut at any byte runs exactly the
   commands wholly before the cut and then reports the end it found there.
   */
  lemma {:induction false} LoadCutRest(cfg: Config, cmds: seq<Command>, k: nat, l: Loader, fileSize: nat)
    requires Loadable(cfg, cmds) && k <= |EncodeAll(cmds)| && k <= fileSize
    ensures
      var done := cmds[..WholeCommands(cmds, k)];
      var l' := RunAll(cfg, l, done, fileSize - k);
      LoadRest(cfg, EncodeAll(cmds)[..k], l, fileSize)
        == if k == |EncodeAll(done)| then CleanEnd(cfg, l', fileSize) else UnexpectedEnd(cfg, l', fileSize)
  {
    hide Encode, ReadCommand, Advance, CleanEnd, UnexpectedEnd;
    var s := EncodeAll(cmds)[..k];
    if k == 0 {
      ReadNothing();
      if cmds != [] {
        EncodeNotEmpty(cmds[0]);
      }
    } else {
      var e, more := Encode(cmds[0]), EncodeAll(cmds[1..]);
      if k < |e| {
        assert s == e[..k];
        ReadCut(cmds[0], k);
      } else {
        var cut := more[..k - |e|];
        assert s == e + cut;
        ReadEncoded(cmds[0], cut);
        assert s[|e|..] == cut;
        var end := fileSize - (k - |e|);
        LoadCutRest(cfg, cmds[1..], k - |e|, Advance(cfg, l, cmds[0], end), fileSize);
        var w := WholeCommands(cmds, k);
        assert cmds[..w][1..] == cmds[1..][..w - 1];
        assert EncodeAll(cmds[..w]) == e + EncodeAll(cmds[..w][1..]);
      }
    }
  }

  lemma ReadNothing()
    ensures ReadCommand([]) == AtEnd
  {
  }

  /** With truncation allowed, the verdict on a log cut after `k` bytes. */
  lemma LoadCut(cfg: Config, cmds: seq<Command>, k: nat)
    requires Loadable(cfg, cmds) && k <= |EncodeAll(cmds)| && cfg.loadTruncated
    ensures
      var done := cmds[..WholeCommands(cmds, k)];
      var l := RunAll(cfg, START, done, 0);
      Load(cfg, EncodeAll(cmds)[..k])
        == if k == 0 then Outcome(Empty, [], 0)
           else if k != |EncodeAll(done)| then Outcome(Truncated, l.client.executed, l.validUpTo)
           else if l.client.multi then Outcome(Truncated, l.client.executed, l.validBeforeMulti)
           else Outcome(Loaded, l.client.executed, k)
  {
    LoadCutRest(cfg, cmds, k, START, k);
  }

  lemma {:induction false} RunAllOffset(cfg: Config, l: Loader, cmds: seq<Command>, at: nat)
    requires cfg.loadTruncated
    ensures RunAll(cfg, l, cmds, at).validUpTo == if cmds == [] then l.validUpTo else at + |EncodeAll(cmds)|
    decreases cmds
  {
    hide Encode;
    if cmds != [] {
      var end := at + |Encode(cmds[0])|;
      RunAllOffset(cfg, Advance(cfg, l, cmds[0], end), cmds[1..], end);
      if cmds[1..] == [] {
        assert EncodeAll(cmds) == Encode(cmds[0]) + EncodeAll([]);
      }
    }
  }

  lemma {:induction false} WholeOfWhole(cmds: seq<Command>, k: nat)
    ensures
      var done := cmds[..WholeCommands(cmds, k)];
      && |EncodeAll(done)| <= |EncodeAll(cmds)|
      && EncodeAll(cmds)[..|EncodeAll(done)|] == EncodeAll(done)
      && WholeCommands(cmds, |EncodeAll(done)|) == |done|
      && |EncodeAll(done)| <= k
  {
    hide Encode;
    if cmds != [] && k >= |Encode(cmds[0])| {
      var e := Encode(cmds[0]);
      WholeOfWhole(cmds[1..], k - |e|);
      var w := WholeCommands(cmds, k);
      assert cmds[..w][1..] == cmds[1..][..w - 1];
      assert EncodeAll(cmds[..w]) == e + EncodeAll(cmds[..w][1..]);
    } else {
      assert cmds[..WholeCommands(cmds, k)] == [];
      WholeOfNothing(cmds);
    }
  }

  /** The last MULTI, or -1. */
  function LastMulti(cfg: Config, cmds: seq<Command>): (m: int)
    ensures -1 <= m < |cmds|
  {
    var n := |cmds| - 1;
    if cmds == [] then -1 else if cfg.kindOf(cmds[n]) == Multi then n else LastMulti(cfg, cmds[..n])
  }

  lemma {:induction false} RunAllSnoc(cfg: Config, l: Loader, cmds: seq<Command>, c: Command, at: nat)
    ensures RunAll(cfg, l, cmds + [c], at)
         == Advance(cfg, RunAll(cfg, l, cmds, at), c, at + |EncodeAll(cmds)| + |Encode(c)|)
    decreases cmds
  {
    hide Encode, Advance;
    if cmds == [] {
      assert cmds + [c] == [c] && [c][1..] == [];
    } else {
      assert (cmds + [c])[1..] == cmds[1..] + [c];
      var end := at + |Encode(cmds[0])|;
      RunAllSnoc(cfg, Advance(cfg, l, cmds[0], end), cmds[1..], c, end);
    }
  }

  /** Where a log ends inside a MULTI block: the mark is the last MULTI, and nothing was executed since. */
  lemma {:induction false} OpenBlock(cfg: Config, cmds: seq<Command>)
    requires cfg.loadTruncated && RunAll(cfg, START, cmds, 0).client.multi
    ensures
      var l, m := RunAll(cfg, START, cmds, 0), LastMulti(cfg, cmds);
      && m >= 0 && l.validBeforeMulti == |EncodeAll(cmds[..m])|
      && RunAll(cfg, START, cmds[..m], 0).client.executed == l.client.executed
  {
    hide Encode, EncodeAll;
    NothingRun(cfg);
    var n := |cmds| - 1;
    var front, c := cmds[..n], cmds[n];
    assert cmds == front + [c];
    RunAllSnoc(cfg, START, front, c, 0);
    RunAllOffset(cfg, START, front, 0);
    hide RunAll;
    if cfg.kindOf(c) != Multi {
      OpenBlock(cfg, front);
      assert front[..LastMulti(cfg, front)] == cmds[..LastMulti(cfg, front)];
    }
  }

  lemma {:induction false} WholeOfPrefix(cmds: seq<Command>, m: nat)
    requires m <= |cmds|
    ensures WholeCommands(cmds, |EncodeAll(cmds[..m])|) == m && |EncodeAll(cmds[..m])| <= |EncodeAll(cmds)|
  {
    hide Encode;
    if m == 0 {
      assert cmds[..0] == [];
      WholeOfNothing(cmds);
    } else {
      WholeOfPrefix(cmds[1..], m - 1);
      assert cmds[..m][1..] == cmds[1..][..m - 1];
    }
  }

  /** The commands a repaired log is left with: a clean end inside MULTI goes back to before the last one. */
  function Left(cfg: Config, cmds: seq<Command>, k: nat): seq<Command> {
    var done := cmds[..WholeCommands(cmds, k)];
    if k == |EncodeAll(done)| && LastMulti(cfg, done) >= 0 then done[..LastMulti(cfg, done)] else done
  }

  /**
   Loading a repaired file again executes the same commands. It needs another repair if and
   only if what is left ends inside a MULTI block: after a cut inside a command of the block,
   or after a clean end inside a block with another MULTI in it.
   */
  lemma ReloadAfterRepair(cfg: Config, cmds: seq<Command>, k: nat)
    requires Loadable(cfg, cmds) && k <= |EncodeAll(cmds)| && cfg.loadTruncated
    requires Load(cfg, EncodeAll(cmds)[..k]).status == Truncated
    ensures
      var o, left := Load(cfg, EncodeAll(cmds)[..k]), Left(cfg, cmds, k);
      && o.length == |EncodeAll(left)| <= k
      && var again := Load(cfg, EncodeAll(cmds)[..o.length]);
      && again.executed == o.executed
      && (again.status == Truncated <==> RunAll(cfg, START, left, 0).client.multi)
  {
    hide Load, RunAll, EncodeAll, WholeCommands, LastMulti;
    var done := cmds[..WholeCommands(cmds, k)];
    WholeOfWhole(cmds, k);
    LoadCut(cfg, cmds, k);
    RunAllOffset(cfg, START, done, 0);
    NothingRun(cfg);
    if k == |EncodeAll(done)| {
      OpenBlock(cfg, done);
      var m := LastMulti(cfg, done);
      assert done[..m] == cmds[..m];
      WholeOfPrefix(cmds, m);
      WholeOfPrefix(done, m);
    }
    var left := Left(cfg, cmds, k);
    LoadCut(cfg, cmds, |EncodeAll(left)|);
    assert |EncodeAll(left)| == 0 ==> left == [] by {
      if left != [] { EncodeAllNotEmpty(left); }
    }
  }

  const MULTI: Command := [[109, 117, 108, 116, 105]]
  const PING: Command := [[112, 105, 110, 103]]

  /** MULTI and the first byte of PING: the repaired log is MULTI alone, to be repaired again. */
  lemma RepairedTwice(cfg: Config)
    requires cfg.loadTruncated && cfg.kindOf(MULTI) == Multi && cfg.kindOf(PING) == Plain
    ensures
      var log, k := EncodeAll([MULTI, PING]), |Encode(MULTI)| + 1;
      && k <= |log|
      && Load(cfg, log[..k]) == Outcome(Truncated, [], |Encode(MULTI)|)
      && Load(cfg, log[..|Encode(MULTI)|]) == Outcome(Truncated, [], 0)
  {
    hide Encode, Load;
    var cmds, n := [MULTI, PING], |Encode(MULTI)|;
    EncodeNotEmpty(MULTI);
    assert |Encode(PING)| > 1 by { LongEnough(PING); }
    assert cmds[1..] == [PING] && [PING][1..] == [] && cmds[..1] == [MULTI] && [MULTI][1..] == [];
    assert EncodeAll([PING]) == Encode(PING) + EncodeAll([]);
    assert EncodeAll(cmds) == Encode(MULTI) + EncodeAll([PING]);
    assert EncodeAll([MULTI]) == Encode(MULTI) + EncodeAll([]);
    assert WholeCommands([PING], 1) == 0 && WholeCommands(cmds, n + 1) == 1;
    assert WholeCommands([PING], 0) == 0 && WholeCommands(cmds, n) == 1;
    assert RunAll(cfg, START, [MULTI], 0) == Loader(Client([], true, []), n, 0);
    LoadCut(cfg, cmds, n + 1);
    LoadCut(cfg, cmds, n);
  }

  lemma LongEnough(cmd: Command)
    ensures |Encode(cmd)| > 1
  {
  }

  lemma EncodeAllNotEmpty(cmds: seq<Command>)
    requires cmds != []
    ensures |EncodeAll(cmds)| > 0
  {
    EncodeNotEmpty(cmds[0]);
  }

  lemma NothingRun(cfg: Config)
    ensures RunAll(cfg, START, [], 0) == START && EncodeAll([]) == []
  {
  }

  // ------------------------------------------------------------------ transactions

  /** MULTI only outside a block and EXEC only inside one; the log may end inside. */
  predicate Blocks(cfg: Config, cmds: seq<Command>, open: bool) {
    cmds == [] ||
    match cfg.kindOf(cmds[0])
    case Multi => !open && Blocks(cfg, cmds[1..], true)
    case Exec => open && Blocks(cfg, cmds[1..], false)
    case _ => Blocks(cfg, cmds[1..], open)
  }

  /** The commands without the markers. */
  function Unmarked(cfg: Config, cmds: seq<Command>): seq<Command> {
    if cmds == [] then []
    else
      var rest := Unmarked(cfg, cmds[1..]);
      if cfg.kindOf(cmds[0]) == Multi || cfg.kindOf(cmds[0]) == Exec then rest else [cmds[0]] + rest
  }

  /** The last command that is a marker is a MULTI. */
  predicate EndsInside(cfg: Config, cmds: seq<Command>) {
    cmds != [] &&
    var n := |cmds| - 1;
    cfg.kindOf(cmds[n]) == Multi || (cfg.kindOf(cmds[n]) != Exec && EndsInside(cfg, cmds[..n]))
  }

  /** The commands before a block that is still open at the end. */
  function Complete(cfg: Config, cmds: seq<Command>): seq<Command> {
    if EndsInside(cfg, cmds) && LastMulti(cfg, cmds) >= 0 then cmds[..LastMulti(cfg, cmds)] else cmds
  }

  lemma {:induction false} UnmarkedAppends(cfg: Config, a: seq<Command>, b: seq<Command>)
    ensures Unmarked(cfg, a + b) == Unmarked(cfg, a) + Unmarked(cfg, b)
  {
    if a == [] {
      assert a + b == b;
    } else {
      assert (a + b)[1..] == a[1..] + b;
      UnmarkedAppends(cfg, a[1..], b);
    }
  }

  /** Whether a block is open after `cmds`, begun inside one or not. */
  function OpenAfter(cfg: Config, cmds: seq<Command>, open: bool): bool {
    if cmds == [] then open
    else
      var kind := cfg.kindOf(cmds[0]);
      OpenAfter(cfg, cmds[1..], kind == Multi || (open && kind != Exec))
  }

  lemma {:induction false} BlocksAppend(cfg: Config, a: seq<Command>, b: seq<Command>, open: bool)
    ensures Blocks(cfg, a + b, open) <==> Blocks(cfg, a, open) && Blocks(cfg, b, OpenAfter(cfg, a, open))
    ensures OpenAfter(cfg, a + b, open) == OpenAfter(cfg, b, OpenAfter(cfg, a, open))
    decreases a
  {
    if a == [] {
      assert a + b == b;
    } else {
      assert (a + b)[1..] == a[1..] + b;
      var kind := cfg.kindOf(a[0]);
      BlocksAppend(cfg, a[1..], b, kind == Multi || (open && kind != Exec));
    }
  }

  lemma NothingAfter(cmd: Command)
    ensures var one: seq<Command> := [cmd]; one[1..] == []
  {
  }

  lemma {:induction false} OpenIsInside(cfg: Config, cmds: seq<Command>)
    ensures OpenAfter(cfg, cmds, false) <==> EndsInside(cfg, cmds)
    ensures EndsInside(cfg, cmds) ==> LastMulti(cfg, cmds) >= 0
  {
    if cmds != [] {
      var n := |cmds| - 1;
      assert cmds == cmds[..n] + [cmds[n]];
      BlocksAppend(cfg, cmds[..n], [cmds[n]], false);
      OpenIsInside(cfg, cmds[..n]);
      NothingAfter(cmds[n]);
      var open, kind := OpenAfter(cfg, cmds[..n], false), cfg.kindOf(cmds[n]);
      assert OpenAfter(cfg, [cmds[n]], open) == (kind == Multi || (open && kind != Exec));
    }
  }

  /** The fake client after a log of blocks: what it has run, and what it holds of an open one. */
  predicate Describes(cfg: Config, cmds: seq<Command>, c: Client) {
    && c.multi == EndsInside(cfg, cmds)
    && c.executed == Unmarked(cfg, Complete(cfg, cmds))
    && (c.multi ==> c.queued == cmds[LastMulti(cfg, cmds) + 1..] && NoMarkers(cfg, c.queued))
  }

  lemma MultiDescribed(cfg: Config, front: seq<Command>, cmd: Command, c: Client)
    requires Describes(cfg, front, c) && !c.multi && cfg.kindOf(cmd) == Multi
    ensures Describes(cfg, front + [cmd], RunCommand(c, cmd, Multi))
  {
    var cmds := front + [cmd];
    assert cmds[..|front|] == front && cmds[|front| + 1..] == [];
  }

  lemma ExecDescribed(cfg: Config, front: seq<Command>, cmd: Command, c: Client)
    requires Describes(cfg, front, c) && c.multi && cfg.kindOf(cmd) == Exec
    ensures Describes(cfg, front + [cmd], RunCommand(c, cmd, Exec))
  {
    hide Unmarked, LastMulti, EndsInside, NoMarkers;
    OpenIsInside(cfg, front);
    LastIsMulti(cfg, front);
    UnmarkedBlock(cfg, front, LastMulti(cfg, front), c.queued);
    UnmarkedAppends(cfg, front, [cmd]);
    OneUnmarked(cfg, cmd);
    ExecEnds(cfg, front, cmd);
    assert Unmarked(cfg, front) + [] == Unmarked(cfg, front);
  }

  lemma ExecEnds(cfg: Config, front: seq<Command>, cmd: Command)
    requires cfg.kindOf(cmd) == Exec
    ensures !EndsInside(cfg, front + [cmd])
  {
  }

  lemma UnmarkedBlock(cfg: Config, cmds: seq<Command>, m: nat, queued: seq<Command>)
    requires m < |cmds| && cfg.kindOf(cmds[m]) == Multi && queued == cmds[m + 1..] && NoMarkers(cfg, queued)
    ensures Unmarked(cfg, cmds) == Unmarked(cfg, cmds[..m]) + queued
  {
    hide Unmarked;
    assert cmds == cmds[..m] + ([cmds[m]] + queued);
    UnmarkedAppends(cfg, cmds[..m], [cmds[m]] + queued);
    UnmarkedAppends(cfg, [cmds[m]], queued);
    NothingMarked(cfg, queued);
    OneUnmarked(cfg, cmds[m]);
    assert [] + queued == queued;
  }

  lemma OneUnmarked(cfg: Config, cmd: Command)
    ensures Unmarked(cfg, [cmd]) == if cfg.kindOf(cmd) == Multi || cfg.kindOf(cmd) == Exec then [] else [cmd]
  {
    NothingAfter(cmd);
  }

  lemma QueuedDescribed(cfg: Config, front: seq<Command>, cmd: Command, c: Client)
    requires Describes(cfg, front, c) && c.multi && cfg.kindOf(cmd) != Multi && cfg.kindOf(cmd) != Exec
    ensures Describes(cfg, front + [cmd], c.(queued := c.queued + [cmd]))
  {
    hide Unmarked, LastMulti, EndsInside;
    OpenIsInside(cfg, front);
    LastOfMore(cfg, front, cmd);
    var cmds, m := front + [cmd], LastMulti(cfg, front);
    assert cmds[..m] == front[..m] && cmds[m + 1..] == front[m + 1..] + [cmd];
    OneMorePlain(cfg, c.queued, cmd);
    hide NoMarkers;
  }

  lemma OneMorePlain(cfg: Config, cmds: seq<Command>, cmd: Command)
    requires NoMarkers(cfg, cmds) && cfg.kindOf(cmd) != Multi && cfg.kindOf(cmd) != Exec
    ensures NoMarkers(cfg, cmds + [cmd])
  {
  }

  lemma LastOfMore(cfg: Config, front: seq<Command>, cmd: Command)
    requires cfg.kindOf(cmd) != Multi
    ensures LastMulti(cfg, front + [cmd]) == LastMulti(cfg, front)
    ensures cfg.kindOf(cmd) != Exec ==> EndsInside(cfg, front + [cmd]) == EndsInside(cfg, front)
  {
    assert (front + [cmd])[..|front|] == front;
  }

  lemma RunDescribed(cfg: Config, front: seq<Command>, cmd: Command, c: Client)
    requires Describes(cfg, front, c) && !c.multi && cfg.kindOf(cmd) != Multi && cfg.kindOf(cmd) != Exec
    ensures Describes(cfg, front + [cmd], c.(executed := c.executed + [cmd]))
  {
    hide Unmarked, LastMulti, NoMarkers;
    LastOfMore(cfg, front, cmd);
    UnmarkedAppends(cfg, front, [cmd]);
    OneUnmarked(cfg, cmd);
  }

  lemma PlainDescribed(cfg: Config, front: seq<Command>, cmd: Command, c: Client)
    requires Describes(cfg, front, c) && cfg.kindOf(cmd) != Multi && cfg.kindOf(cmd) != Exec
    ensures Describes(cfg, front + [cmd], RunCommand(c, cmd, cfg.kindOf(cmd)))
  {
    hide Describes;
    if c.multi {
      QueuedDescribed(cfg, front, cmd, c);
    } else {
      RunDescribed(cfg, front, cmd, c);
    }
  }

  lemma {:induction false} ClientAfter(cfg: Config, cmds: seq<Command>)
    requires Blocks(cfg, cmds, false)
    ensures Describes(cfg, cmds, RunAll(cfg, START, cmds, 0).client)
  {
    NothingRun(cfg);
    hide Encode, EncodeAll, RunAll, RunCommand;
    if cmds == [] {
      NothingOpen(cfg);
    } else {
      hide Describes;
      var n := |cmds| - 1;
      var front, c := cmds[..n], cmds[n];
      assert cmds == front + [c];
      BlocksAppend(cfg, front, [c], false);
      OpenIsInside(cfg, front);
      ClientAfter(cfg, front);
      RunAllSnoc(cfg, START, front, c, 0);
      var client := RunAll(cfg, START, front, 0).client;
      assert client.multi == OpenAfter(cfg, front, false) by { IsOpen(cfg, front, client); }
      if cfg.kindOf(c) == Multi {
        MultiDescribed(cfg, front, c, client);
      } else if cfg.kindOf(c) == Exec {
        ExecDescribed(cfg, front, c, client);
      } else {
        PlainDescribed(cfg, front, c, client);
      }
    }
  }

  lemma IsOpen(cfg: Config, cmds: seq<Command>, c: Client)
    requires Describes(cfg, cmds, c)
    ensures c.multi == OpenAfter(cfg, cmds, false)
  {
    OpenIsInside(cfg, cmds);
  }

  predicate NoMarkers(cfg: Config, cmds: seq<Command>) {
    forall i | 0 <= i < |cmds| :: cfg.kindOf(cmds[i]) != Multi && cfg.kindOf(cmds[i]) != Exec
  }

  lemma {:induction false} NothingMarked(cfg: Config, cmds: seq<Command>)
    requires NoMarkers(cfg, cmds)
    ensures Unmarked(cfg, cmds) == cmds
  {
    if cmds != [] {
      NothingMarked(cfg, cmds[1..]);
    }
  }

  lemma {:induction false} LastIsMulti(cfg: Config, cmds: seq<Command>)
    requires LastMulti(cfg, cmds) >= 0
    ensures cfg.kindOf(cmds[LastMulti(cfg, cmds)]) == Multi
  {
    var n := |cmds| - 1;
    if cfg.kindOf(cmds[n]) != Multi {
      LastIsMulti(cfg, cmds[..n]);
    }
  }

  /**
   Transactions, cut at any byte and whatever the configuration: what is executed is what lies
   wholly before the cut, less a block still open there, in order and without the markers.
   */
  lemma TransactionsRun(cfg: Config, cmds: seq<Command>, k: nat)
    requires Loadable(cfg, cmds) && Blocks(cfg, cmds, false) && k <= |EncodeAll(cmds)|
    ensures
      var done := cmds[..WholeCommands(cmds, k)];
      Load(cfg, EncodeAll(cmds)[..k]).executed == Unmarked(cfg, Complete(cfg, done))
  {
    hide EncodeAll, LoadRest, RunAll, Blocks, Unmarked, LastMulti, EndsInside;
    var w := WholeCommands(cmds, k);
    var done := cmds[..w];
    if k == 0 {
      WholeOfNothing(cmds);
      NothingOpen(cfg);
    } else {
      assert cmds == done + cmds[w..];
      BlocksAppend(cfg, done, cmds[w..], false);
      LoadCutRest(cfg, cmds, k, START, k);
      WholeOfWhole(cmds, k);
      ClientFrom(cfg, done, k);
      ClientAfter(cfg, done);
    }
  }

  /** The file is a log of transactions, the last of which may be open, cut at a byte. */
  predicate IsCutLog(cfg: Config, file: Arg, cmds: seq<Command>, k: nat) {
    Loadable(cfg, cmds) && Blocks(cfg, cmds, false) && k <= |EncodeAll(cmds)| && file == EncodeAll(cmds)[..k]
  }

  lemma CutLogRuns(cfg: Config, file: Arg, cmds: seq<Command>, k: nat)
    requires IsCutLog(cfg, file, cmds, k)
    ensures Load(cfg, file).executed == Unmarked(cfg, Complete(cfg, cmds[..WholeCommands(cmds, k)]))
  {
    TransactionsRun(cfg, cmds, k);
  }

  lemma NothingOpen(cfg: Config)
    ensures Complete(cfg, []) == [] && Unmarked(cfg, []) == []
  {
  }

  /** Where a log starts in its file makes no difference to what is executed. */
  lemma ClientFrom(cfg: Config, cmds: seq<Command>, k: nat)
    ensures RunAll(cfg, START, cmds, k).client == RunAll(cfg, START, cmds, 0).client
  {
    SameClient(cfg, START, START, cmds, k, 0);
  }

  lemma {:induction false} SameClient(cfg: Config, l: Loader, m: Loader, cmds: seq<Command>, a: nat, b: nat)
    requires l.client == m.client
    ensures RunAll(cfg, l, cmds, a).client == RunAll(cfg, m, cmds, b).client
    decreases cmds
  {
    hide Encode, RunCommand;
    if cmds != [] {
      var x, y := a + |Encode(cmds[0])|, b + |Encode(cmds[0])|;
      SameClient(cfg, Advance(cfg, l, cmds[0], x), Advance(cfg, m, cmds[0], y), cmds[1..], x, y);
    }
  }

  /** A whole log that ends outside a block loads and executes all its commands. */
  lemma BlocksLoad(cfg: Config, cmds: seq<Command>)
    requires Loadable(cfg, cmds) && Blocks(cfg, cmds, false) && !EndsInside(cfg, cmds)
    ensures
      var o := Load(cfg, EncodeAll(cmds));
      o.executed == Unmarked(cfg, cmds) && o.status == if cmds == [] then Empty else Loaded
  {
    hide EncodeAll, LoadRest, RunAll, Blocks, Unmarked, LastMulti, EndsInside;
    var k := |EncodeAll(cmds)|;
    WholeOfAll(cmds);
    assert cmds[..|cmds|] == cmds && EncodeAll(cmds)[..k] == EncodeAll(cmds);
    TransactionsRun(cfg, cmds, k);
    NothingRun(cfg);
    if cmds != [] {
      EncodeAllNotEmpty(cmds);
      LoadCutRest(cfg, cmds, k, START, k);
      ClientAfter(cfg, cmds);
    }
  }

  // ----------------------------------------------------- logs without MULTI

  predicate NoMulti(cfg: Config, cmds: seq<Command>) {
    forall i | 0 <= i < |cmds| :: cfg.kindOf(cmds[i]) == Plain
  }

  lemma {:induction false} RunPlain(cfg: Config, l: Loader, cmds: seq<Command>, at: nat)
    requires NoMulti(cfg, cmds) && !l.client.multi
    ensures
      var l' := RunAll(cfg, l, cmds, at);
      && l'.client == Client(l.client.executed + cmds, false, l.client.queued)
      && (cfg.loadTruncated ==> l'.validUpTo == if cmds == [] then l.validUpTo else at + |EncodeAll(cmds)|)
    decreases cmds
  {
    hide Encode;
    if cmds != [] {
      var end := at + |Encode(cmds[0])|;
      RunPlain(cfg, Advance(cfg, l, cmds[0], end), cmds[1..], end);
      assert l.client.executed + [cmds[0]] + cmds[1..] == l.client.executed + cmds;
      if cmds[1..] == [] {
        assert EncodeAll(cmds) == Encode(cmds[0]) + EncodeAll([]);
      }
    }
  }

  /**
   Without MULTI: exactly the commands wholly before the cut are executed; where a truncated
   log may be loaded, the file is left exactly as long as their encodings.
   */
  lemma LoadCutPlain(cfg: Config, cmds: seq<Command>, k: nat)
    requires Loadable(cfg, cmds) && NoMulti(cfg, cmds) && k <= |EncodeAll(cmds)|
    ensures
      var done := cmds[..WholeCommands(cmds, k)];
      var o := Load(cfg, EncodeAll(cmds)[..k]);
      && o.executed == done
      && o.status == (if k == 0 then Empty else if k == |EncodeAll(done)| then Loaded
                      else if cfg.loadTruncated then Truncated else Failed)
      && o.length == if cfg.loadTruncated then |EncodeAll(done)| else k
  {
    hide RunAll, LoadRest, EncodeAll;
    var done := cmds[..WholeCommands(cmds, k)];
    RunPlain(cfg, START, done, 0);
    if k == 0 {
      WholeOfNothing(cmds);
      NothingRun(cfg);
    } else {
      LoadCutRest(cfg, cmds, k, START, k);
      NothingRun(cfg);
      assert [] + done == done;
    }
  }

  lemma ReadBad(bad: Arg)
    requires bad != [] && bad[0] != STAR && bad[0] != HASH
    ensures ReadCommand(bad) == Malformed
  {
  }

  /** A log with something behind it that starts neither a command nor an annotation. */
  lemma {:induction false} LoadRestThenBad(cfg: Config, cmds: seq<Command>, bad: Arg, l: Loader, fileSize: nat)
    requires Loadable(cfg, cmds) && bad != [] && bad[0] != STAR && bad[0] != HASH
    requires |EncodeAll(cmds)| + |bad| <= fileSize
    ensures LoadRest(cfg, EncodeAll(cmds) + bad, l, fileSize)
         == BadFormat(cfg, RunAll(cfg, l, cmds, fileSize - |EncodeAll(cmds)| - |bad|), fileSize)
  {
    hide Encode, Advance, BadFormat, ReadCommand;
    if cmds == [] {
      assert EncodeAll(cmds) + bad == bad;
      ReadBad(bad);
    } else {
      var e, more := Encode(cmds[0]), EncodeAll(cmds[1..]) + bad;
      assert EncodeAll(cmds) + bad == e + more;
      ReadEncoded(cmds[0], more);
      assert (e + more)[|e|..] == more;
      LoadRestThenBad(cfg, cmds[1..], bad, Advance(cfg, l, cmds[0], fileSize - |more|), fileSize);
    }
  }

  /** Such a file is refused, or cut back to the log where the damage is small enough to be dropped. */
  lemma LoadThenBad(cfg: Config, cmds: seq<Command>, bad: Arg)
    requires Loadable(cfg, cmds) && NoMulti(cfg, cmds) && cfg.loadTruncated
    requires bad != [] && bad[0] != STAR && bad[0] != HASH
    ensures
      var size := |EncodeAll(cmds)|;
      Load(cfg, EncodeAll(cmds) + bad)
        == if cfg.corruptTailMax > 0 && |bad| < cfg.corruptTailMax then Outcome(BrokenRecovered, cmds, size)
           else Outcome(Failed, cmds, size + |bad|)
  {
    hide LoadRest, RunAll, EncodeAll;
    var size := |EncodeAll(cmds)|;
    LoadRestThenBad(cfg, cmds, bad, START, size + |bad|);
    RunPlain(cfg, START, cmds, 0);
    NothingRun(cfg);
    assert [] + cmds == cmds;
  }

  lemma WholeOfNothing(cmds: seq<Command>)
    ensures WholeCommands(cmds, 0) == 0
  {
    if cmds != [] {
      EncodeNotEmpty(cmds[0]);
    }
  }

  lemma {:induction false} WholeOfAll(cmds: seq<Command>)
    ensures WholeCommands(cmds, |EncodeAll(cmds)|) == |cmds|
  {
    hide Encode;
    if cmds != [] {
      WholeOfAll(cmds[1..]);
    }
  }

  /** Loading undoes encoding. */
  lemma LoadWhole(cfg: Config, cmds: seq<Command>)
    requires Loadable(cfg, cmds) && NoMulti(cfg, cmds)
    ensures Load(cfg, EncodeAll(cmds)).executed == cmds
    ensures Load(cfg, EncodeAll(cmds)).status in {Loaded, Empty}
  {
    hide Load, WholeCommands, EncodeAll;
    WholeOfAll(cmds);
    LoadCutPlain(cfg, cmds, |EncodeAll(cmds)|);
    assert cmds[..|cmds|] == cmds;
    assert EncodeAll(cmds)[..|EncodeAll(cmds)|] == EncodeAll(cmds);
  }

  // ------------------------------------------------------------------- annotations

  /** What a log may hold: commands, and lines that start with '#'. */
  datatype Line = Entry(cmd: Command) | Note(text: Arg)

  predicate GoodLine(cfg: Config, line: Line) {
    match line
    case Entry(cmd) => Encodable(cmd) && cfg.kindOf(cmd) != Unknown
    case Note(text) => LF !in text && |text| + 2 < LINE_MAX
  }

  function BytesOf(line: Line): Arg {
    match line
    case Entry(cmd) => Encode(cmd)
    case Note(text) => [HASH] + text + [LF]
  }

  function AllBytes(lines: seq<Line>): Arg {
    if lines == [] then [] else BytesOf(lines[0]) + AllBytes(lines[1..])
  }

  function Commands(lines: seq<Line>): seq<Command> {
    if lines == [] then [] else (if lines[0].Entry? then [lines[0].cmd] else []) + Commands(lines[1..])
  }

  lemma ReadsNote(text: Arg, rest: Arg)
    requires LF !in text && |text| + 2 < LINE_MAX
    ensures ReadCommand([HASH] + text + [LF] + rest) == Annotation(|text| + 2)
  {
    var a := [HASH] + text;
    LineStopsAtLf(a, rest, LINE_MAX - 1);
  }

  lemma {:induction false} NotedRest(cfg: Config, lines: seq<Line>, l: Loader, fileSize: nat) returns (r: Loader)
    requires (forall i | 0 <= i < |lines| :: GoodLine(cfg, lines[i])) && |AllBytes(lines)| <= fileSize
    ensures LoadRest(cfg, AllBytes(lines), l, fileSize) == CleanEnd(cfg, r, fileSize)
    ensures r.client == RunAll(cfg, l, Commands(lines), 0).client
    decreases lines
  {
    hide Encode, ReadCommand, CleanEnd, RunCommand;
    if lines == [] {
      ReadNothing();
      return l;
    }
    assert GoodLine(cfg, lines[0]);
    var first, more := BytesOf(lines[0]), AllBytes(lines[1..]);
    assert (first + more)[|first|..] == more;
    match lines[0]
    case Note(text) =>
      ReadsNote(text, more);
      r := NotedRest(cfg, lines[1..], l, fileSize);
      assert [] + Commands(lines[1..]) == Commands(lines[1..]);
    case Entry(cmd) =>
      ReadEncoded(cmd, more);
      var l' := Advance(cfg, l, cmd, fileSize - |more|);
      r := NotedRest(cfg, lines[1..], l', fileSize);
      var cmds := Commands(lines);
      assert cmds[1..] == Commands(lines[1..]);
      SameClient(cfg, l', Advance(cfg, l, cmd, |Encode(cmd)|), cmds[1..], 0, |Encode(cmd)|);
  }

  /** Annotations change nothing: the commands between them are executed as if they stood alone. */
  lemma NotesAreSkipped(cfg: Config, lines: seq<Line>)
    requires forall i | 0 <= i < |lines| :: GoodLine(cfg, lines[i])
    requires Commands(lines) != []
    ensures
      var o, plain := Load(cfg, AllBytes(lines)), Load(cfg, EncodeAll(Commands(lines)));
      o.executed == plain.executed && o.status == plain.status
  {
    hide Encode, EncodeAll, LoadRest, RunAll, Load, Commands, AllBytes, Loadable, GoodLine, WholeCommands;
    var cmds := Commands(lines);
    CommandsAreLoadable(cfg, lines);
    NotEmptyBytes(cfg, lines);
    LoadStarts(cfg, AllBytes(lines));
    var r := NotedRest(cfg, lines, START, |AllBytes(lines)|);
    var k := |EncodeAll(cmds)|;
    EncodeAllNotEmpty(cmds);
    LoadStarts(cfg, EncodeAll(cmds));
    WholeOfAll(cmds);
    assert cmds[..|cmds|] == cmds && EncodeAll(cmds)[..k] == EncodeAll(cmds);
    LoadCutRest(cfg, cmds, k, START, k);
  }

  lemma LoadStarts(cfg: Config, file: Arg)
    requires file != []
    ensures Load(cfg, file) == LoadRest(cfg, file, START, |file|)
  {
  }

  lemma {:induction false} CommandsAreLoadable(cfg: Config, lines: seq<Line>)
    requires forall i | 0 <= i < |lines| :: GoodLine(cfg, lines[i])
    ensures Loadable(cfg, Commands(lines))
  {
    if lines != [] {
      assert GoodLine(cfg, lines[0]);
      CommandsAreLoadable(cfg, lines[1..]);
    }
  }

  lemma NotEmptyBytes(cfg: Config, lines: seq<Line>)
    requires Commands(lines) != []
    ensures AllBytes(lines) != []
  {
    if lines[0].Entry? {
      EncodeNotEmpty(lines[0].cmd);
    }
  }
}
