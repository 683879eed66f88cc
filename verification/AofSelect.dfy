/**
 `feedAppendOnlyFile` and the SELECT commands it inserts: the database a command was fed
 for is the database it runs in when any one incremental file is replayed from a fresh
 client, across rewrites, failed rewrites and switching the log off and on.
 */
module AofSelect {
  import opened AofLog
  import opened Numbers
  import opened AofLoad

  /** What one piece of the log is for; `tag` is the database id the command was fed with, or -1. */
  datatype Entry = SelectDb(db: nat) | RunIn(tag: int, cmd: Command)

  /** The bytes of "SELECT". */
  const SELECT_NAME: Arg := [83, 69, 76, 69, 67, 84]

  predicate IsSelect(cmd: Command) { |cmd| == 2 && cmd[0] == SELECT_NAME }

  function CommandOf(e: Entry): Command {
    match e
    case SelectDb(db) => [SELECT_NAME, Decimal(db)]
    case RunIn(_, cmd) => cmd
  }

  function CommandsOf(es: seq<Entry>): seq<Command> {
    seq(|es|, i requires 0 <= i < |es| => CommandOf(es[i]))
  }

  /** What one call of `feedAppendOnlyFile` adds. */
  function FeedEntries(selectedDb: int, dictid: int, cmd: Command): seq<Entry>
    requires dictid >= -1
  {
    (if dictid != -1 && dictid != selectedDb then [SelectDb(dictid)] else []) + [RunIn(dictid, cmd)]
  }

  function SelectedAfter(selectedDb: int, dictid: int): int {
    if dictid != -1 then dictid else selectedDb
  }

  // ------------------------------------------------------------ feeding the bytes

  datatype Mode = Off | On | WaitRewrite

  class Feeder {
    var mode: Mode
    var childIsAof: bool          // child_type == CHILD_TYPE_AOF
    var selectedDb: int           // aof_selected_db
    var buf: seq<Byte>            // aof_buf

    predicate Accumulates()
      reads this
    {
      mode == On || (mode == WaitRewrite && childIsAof)
    }

    /** `feedAppendOnlyFile` without timestamp annotations. */
    method Feed(dictid: int, argv: Command)
      requires dictid >= -1
      modifies this`buf, this`selectedDb
      ensures selectedDb == SelectedAfter(old(selectedDb), dictid)
      ensures buf == if Accumulates() then old(buf) + EncodeAll(CommandsOf(FeedEntries(old(selectedDb), dictid, argv))) else old(buf)
    {
      hide Encode;
      var bytes := [];
      if dictid != -1 && dictid != selectedDb {
        var seldb := Decimal(dictid);
        bytes := [STAR, DIGIT0 + 2, CR, LF]
               + ([DOLLAR, DIGIT0 + 6, CR, LF] + SELECT_NAME + [CR, LF])
               + ([DOLLAR] + Decimal(|seldb|) + [CR, LF] + seldb + [CR, LF]);
        SelectIsEncoded(dictid);
        assert bytes == Encode(CommandOf(SelectDb(dictid)));
        selectedDb := dictid;
      }
      ghost var fed := FeedEntries(old(selectedDb), dictid, argv);
      bytes := CatGenericCommand(bytes, argv);
      FeedEncodes(old(selectedDb), dictid, argv);
      if Accumulates() {
        buf := buf + bytes;
      }
    }
  }

  /** The literal text written for SELECT is the encoding of that command. */
  lemma SelectIsEncoded(db: nat)
    ensures Encode([SELECT_NAME, Decimal(db)])
         == [STAR, DIGIT0 + 2, CR, LF]
          + ([DOLLAR, DIGIT0 + 6, CR, LF] + SELECT_NAME + [CR, LF])
          + ([DOLLAR] + Decimal(|Decimal(db)|) + [CR, LF] + Decimal(db) + [CR, LF])
  {
    assert Header(STAR, 2) == [STAR, DIGIT0 + 2, CR, LF];
    assert Header(DOLLAR, 6) == [DOLLAR, DIGIT0 + 6, CR, LF];
    assert EncodeArg(SELECT_NAME) == [DOLLAR, DIGIT0 + 6, CR, LF] + SELECT_NAME + [CR, LF];
    var seldb := Decimal(db);
    assert EncodeArg(seldb) == [DOLLAR] + Decimal(|seldb|) + [CR, LF] + seldb + [CR, LF];
    hide EncodeArg, Header, Decimal;
    TwoArgs(SELECT_NAME, seldb);
  }

  lemma TwoArgs(a: Arg, b: Arg)
    ensures Encode([a, b]) == Header(STAR, 2) + EncodeArg(a) + EncodeArg(b)
  {
    hide EncodeArg, Header;
    assert [a, b][1..] == [b];
    assert [b][1..] == [];
    assert EncodeArgs([b]) == EncodeArg(b) + EncodeArgs([]);
    assert EncodeArgs([a, b]) == EncodeArg(a) + EncodeArg(b);
  }

  lemma FeedEncodes(selectedDb: int, dictid: int, cmd: Command)
    requires dictid >= -1
    ensures EncodeAll(CommandsOf(FeedEntries(selectedDb, dictid, cmd)))
         == (if dictid != -1 && dictid != selectedDb then Encode([SELECT_NAME, Decimal(dictid)]) else []) + Encode(cmd)
  {
    hide Encode;
    var cs := CommandsOf(FeedEntries(selectedDb, dictid, cmd));
    assert EncodeAll([cmd]) == Encode(cmd) + EncodeAll([]);
    if dictid != -1 && dictid != selectedDb {
      assert cs == [[SELECT_NAME, Decimal(dictid)], cmd];
      assert cs[1..] == [cmd];
    } else {
      assert cs == [cmd];
    }
  }

  // ------------------------------------------------------------ replaying entries

  /** The database selected after replaying `es` from `db`. */
  function DbAfter(db: nat, es: seq<Entry>): nat
    decreases es
  {
    if es == [] then db else DbAfter(if es[0].SelectDb? then es[0].db else db, es[1..])
  }

  /** Every command fed with a database id runs in that database, replaying from `db`. */
  predicate Consistent(db: nat, es: seq<Entry>)
    decreases es
  {
    es == [] ||
    match es[0]
    case SelectDb(d) => Consistent(d, es[1..])
    case RunIn(tag, _) => (tag == -1 || tag == db) && Consistent(db, es[1..])
  }

  lemma {:induction false} ReplayAppend(db: nat, a: seq<Entry>, b: seq<Entry>)
    ensures DbAfter(db, a + b) == DbAfter(DbAfter(db, a), b)
    ensures Consistent(db, a + b) <==> Consistent(db, a) && Consistent(DbAfter(db, a), b)
    decreases a
  {
    if a == [] {
      assert a + b == b;
    } else {
      assert (a + b)[1..] == a[1..] + b;
      ReplayAppend(if a[0].SelectDb? then a[0].db else db, a[1..], b);
    }
  }

  lemma FeedIsConsistent(db: nat, selectedDb: int, dictid: int, cmd: Command)
    requires dictid >= -1 && (selectedDb == -1 || selectedDb == db)
    ensures var es := FeedEntries(selectedDb, dictid, cmd);
      && Consistent(db, es)
      && (SelectedAfter(selectedDb, dictid) == -1 || SelectedAfter(selectedDb, dictid) == DbAfter(db, es))
  {
    var es := FeedEntries(selectedDb, dictid, cmd);
    if dictid != -1 && dictid != selectedDb {
      assert es[1..] == [RunIn(dictid, cmd)];
      assert es[1..][1..] == [];
      assert DbAfter(db, es) == DbAfter(dictid, es[1..]) == DbAfter(dictid, es[1..][1..]);
    } else {
      assert es[1..] == [];
    }
  }

  // ------------------------------------------------------------------ the machine

  /** One log at a time: `file` then `buf` is what the current incremental file will hold. */
  datatype Server = Server(
    mode: Mode,
    child: bool,
    selectedDb: int,
    closed: seq<seq<Entry>>,       // files no longer written to
    file: seq<Entry>,
    buf: seq<Entry>)

  datatype Step =
    | Feed(dictid: int, cmd: Command)
    | Flush(n: nat)                          // the first n entries reach the file
    | StartRewrite(n: nat, openOk: bool, forkOk: bool)
    | RewriteFails
    | RewriteSucceeds
    | SwitchOff(n: nat)
    | SwitchOn

  predicate Enabled(s: Server, step: Step) {
    match step
    case Feed(dictid, cmd) => dictid >= -1
    case Flush(n) => n <= |s.buf|
    case StartRewrite(n, _, _) => n <= |s.buf| && !s.child && s.mode != Off
    case RewriteFails => s.child
    case RewriteSucceeds => s.child
    case SwitchOff(n) => n <= |s.buf| && s.mode != Off
    case SwitchOn => s.mode == Off && !s.child
  }

  function FlushFirst(s: Server, n: nat): Server
    requires n <= |s.buf|
  {
    s.(file := s.file + s.buf[..n], buf := s.buf[n..])
  }

  function Next(s: Server, step: Step): Server
    requires Enabled(s, step)
  {
    match step
    case Feed(dictid, cmd) =>
      var more := if s.mode == On || (s.mode == WaitRewrite && s.child)
                  then FeedEntries(s.selectedDb, dictid, cmd) else [];
      s.(selectedDb := SelectedAfter(s.selectedDb, dictid), buf := s.buf + more)
    case Flush(n) => FlushFirst(s, n)
    case StartRewrite(n, openOk, forkOk) =>
      // aof_selected_db is cleared first, then the forced flush, then the new file
      var s1 := FlushFirst(s.(selectedDb := -1), n);
      if !openOk then s1
      else s1.(closed := s1.closed + [s1.file], file := [], child := forkOk)
    case RewriteFails =>
      // while waiting for the first rewrite, the temporary file and the buffer are dropped
      if s.mode == WaitRewrite then s.(child := false, file := [], buf := []) else s.(child := false)
    case RewriteSucceeds => s.(child := false, mode := if s.mode == WaitRewrite then On else s.mode)
    case SwitchOff(n) =>
      var s1 := FlushFirst(s, n);
      s1.(mode := Off, selectedDb := -1, closed := s1.closed + [s1.file], file := [], buf := [], child := false)
    case SwitchOn => s.(mode := WaitRewrite)
  }

  /** The forced flush of a rewrite start took everything. */
  predicate ForcedFlushWorks(s: Server, step: Step) {
    step.StartRewrite? ==> step.n == |s.buf|
  }

  ghost predicate Inv(s: Server) {
    && (forall i | 0 <= i < |s.closed| :: Consistent(0, s.closed[i]))
    && Consistent(0, s.file + s.buf)
    && (s.mode == WaitRewrite && !s.child ==> s.file == [] && s.buf == [])
    && (s.mode == Off ==> !s.child && s.file == [] && s.buf == [])
    && (s.mode == On || s.child ==> s.selectedDb == -1 || s.selectedDb == DbAfter(0, s.file + s.buf))
  }

  lemma FlushFirstKeeps(s: Server, n: nat)
    requires n <= |s.buf|
    ensures FlushFirst(s, n).file + FlushFirst(s, n).buf == s.file + s.buf
    ensures Inv(s) ==> Consistent(0, FlushFirst(s, n).file)
    ensures n == |s.buf| ==> FlushFirst(s, n).buf == []
  {
    var f := FlushFirst(s, n);
    assert s.buf[..n] + s.buf[n..] == s.buf;
    assert f.file + f.buf == s.file + s.buf;
    ReplayAppend(0, f.file, f.buf);
  }

  lemma NextKeepsInv(s: Server, step: Step)
    requires Inv(s) && Enabled(s, step) && ForcedFlushWorks(s, step)
    ensures Inv(Next(s, step))
  {
    match step
    case Feed(dictid, cmd) =>
      var more := FeedEntries(s.selectedDb, dictid, cmd);
      if s.mode == On || (s.mode == WaitRewrite && s.child) {
        FeedIsConsistent(DbAfter(0, s.file + s.buf), s.selectedDb, dictid, cmd);
        assert s.file + (s.buf + more) == s.file + s.buf + more;
        ReplayAppend(0, s.file + s.buf, more);
      } else {
        assert s.buf + [] == s.buf;
      }
    case Flush(n) =>
      FlushFirstKeeps(s, n);
      if s.buf == [] {
        assert s.file + s.buf[..n] == s.file;
      }
    case StartRewrite(n, openOk, forkOk) =>
      FlushFirstKeeps(s.(selectedDb := -1), n);
      if s.mode == WaitRewrite {
        assert s.file + s.buf[..n] == [];
      }
      assert [] + s.buf[n..] == [];
    case RewriteFails =>
    case RewriteSucceeds =>
    case SwitchOff(n) =>
      FlushFirstKeeps(s, n);
    case SwitchOn =>
  }

  predicate Reaches(s: Server, steps: seq<Step>)
    decreases steps
  {
    steps == [] ||
    (Enabled(s, steps[0]) && ForcedFlushWorks(s, steps[0]) && Reaches(Next(s, steps[0]), steps[1..]))
  }

  function After(s: Server, steps: seq<Step>): Server
    requires Reaches(s, steps)
    decreases steps
  {
    if steps == [] then s else After(Next(s, steps[0]), steps[1..])
  }

  const INITIAL := Server(On, false, -1, [], [], [])

  /** Every reachable state: each file, closed or current, replays every command in its own database. */
  lemma {:induction false} RunKeepsInv(s: Server, steps: seq<Step>)
    requires Inv(s) && Reaches(s, steps)
    ensures Inv(After(s, steps))
    decreases steps
  {
    hide Inv, Next, Enabled;
    if steps != [] {
      NextKeepsInv(s, steps[0]);
      RunKeepsInv(Next(s, steps[0]), steps[1..]);
    }
  }

  lemma EveryFileIsConsistent(steps: seq<Step>, file: seq<Entry>)
    requires Reaches(INITIAL, steps)
    requires file in After(INITIAL, steps).closed || file == After(INITIAL, steps).file
    ensures Consistent(0, file)
  {
    RunKeepsInv(INITIAL, steps);
    var s := After(INITIAL, steps);
    ReplayAppend(0, s.file, s.buf);
  }

  // ----------------------------------------- when the forced flush does not work

  /** The first command with a database id comes after a SELECT or belongs to database 0. */
  predicate StartsInDb0(es: seq<Entry>) {
    es == [] || es[0].SelectDb? || es[0].tag == 0 || (es[0].tag == -1 && StartsInDb0(es[1..]))
  }

  lemma {:induction false} LeftoverConsistent(db: nat, es: seq<Entry>)
    requires Consistent(db, es) && db != 0
    ensures Consistent(0, es) <==> StartsInDb0(es)
  {
    if es != [] && es[0].RunIn? && es[0].tag == -1 {
      LeftoverConsistent(db, es[1..]);
    }
  }

  /**
   A rewrite start whose forced flush leaves entries in the buffer sends them to the new file.
   The new file is still right exactly when they came from database 0 or bring their own SELECT.
   */
  lemma LeftoverGoesToNewFile(s: Server, n: nat)
    requires Inv(s) && Enabled(s, StartRewrite(n, true, true))
    ensures
      var s' := Next(s, StartRewrite(n, true, true));
      s'.file == [] && s'.buf == s.buf[n..]
      && (Consistent(0, s'.file + s'.buf) <==> DbAfter(0, s.file + s.buf[..n]) == 0 || StartsInDb0(s.buf[n..]))
  {
    FlushFirstKeeps(s, n);
    var f := FlushFirst(s, n);
    ReplayAppend(0, f.file, f.buf);
    var db := DbAfter(0, f.file);
    assert [] + f.buf == f.buf;
    if db != 0 {
      LeftoverConsistent(db, f.buf);
    }
  }

  /** Two commands in database 1, the second still in the buffer when a rewrite starts on a full disk. */
  lemma LeftoverRunsElsewhere(a: Command, b: Command)
    ensures
      var steps := [Feed(1, a), Flush(2), Feed(1, b)];
      && Reaches(INITIAL, steps)
      && var s := After(INITIAL, steps);
      && Enabled(s, StartRewrite(0, true, true))
      && var r := Next(s, StartRewrite(0, true, true));
      && r.file + r.buf == [RunIn(1, b)] && !Consistent(0, r.file + r.buf)
  {
    hide Consistent;
    var s1 := Next(INITIAL, Feed(1, a));
    assert s1.buf == [SelectDb(1), RunIn(1, a)];
    var s2 := Next(s1, Flush(2));
    assert s2.buf == [] && s2.file == [SelectDb(1), RunIn(1, a)];
    var s3 := Next(s2, Feed(1, b));
    assert s3.buf == [RunIn(1, b)];
    var t := [Feed(1, a), Flush(2), Feed(1, b)];
    assert t[1..] == [Flush(2), Feed(1, b)] && t[1..][1..] == [Feed(1, b)] && t[1..][1..][1..] == [];
    assert Reaches(s3, []) && After(s3, []) == s3;
    assert Reaches(s2, [Feed(1, b)]) && After(s2, [Feed(1, b)]) == s3;
    assert Reaches(s1, [Flush(2), Feed(1, b)]) && After(s1, [Flush(2), Feed(1, b)]) == s3;
    var r := Next(s3, StartRewrite(0, true, true));
    assert s3.buf[0..] == s3.buf;
    assert r.file + r.buf == [RunIn(1, b)];
    NotInDb0(b);
  }

  lemma NotInDb0(b: Command)
    ensures !Consistent(0, [RunIn(1, b)])
  {
  }

  // -------------------------------------------------- down to the bytes on disk

  /** A fresh client running decoded commands, SELECT included: which database each one meets. */
  function Databases(db: nat, cmds: seq<Command>): seq<nat>
    decreases cmds
  {
    if cmds == [] then []
    else
      var n := if IsSelect(cmds[0]) then ParseInt(cmds[0][1]) else 0;
      [db] + Databases(if IsSelect(cmds[0]) && n >= 0 then n else db, cmds[1..])
  }

  predicate PlainEntries(es: seq<Entry>) {
    forall i | 0 <= i < |es| :: es[i].RunIn? ==> !IsSelect(es[i].cmd)
  }

  lemma {:induction false} DatabasesOfEntries(db: nat, es: seq<Entry>, i: nat)
    requires Consistent(db, es) && PlainEntries(es) && i < |es|
    ensures |Databases(db, CommandsOf(es))| == |es|
    ensures es[i].RunIn? && es[i].tag != -1 ==> Databases(db, CommandsOf(es))[i] == es[i].tag
    decreases es
  {
    var cs := CommandsOf(es);
    assert cs[1..] == CommandsOf(es[1..]);
    if es[0].SelectDb? {
      ParseNumber(es[0].db, []);
      assert Decimal(es[0].db) + [] == Decimal(es[0].db);
    }
    var db' := if es[0].SelectDb? then es[0].db else db;
    if i > 0 {
      DatabasesOfEntries(db', es[1..], i - 1);
    } else if |es| > 1 {
      DatabasesOfEntries(db', es[1..], 0);
    } else {
      assert Databases(db', cs[1..]) == [];
    }
  }

  /**
   Cut one incremental file at any byte and replay what the loader finds: every command that
   was fed with a database id runs in that database.
   */
  lemma ReplayRunsInFedDatabase(cfg: Config, es: seq<Entry>, k: nat, i: nat)
    requires Consistent(0, es) && PlainEntries(es)
    requires Loadable(cfg, CommandsOf(es)) && NoMulti(cfg, CommandsOf(es))
    requires k <= |EncodeAll(CommandsOf(es))|
    requires i < |Load(cfg, EncodeAll(CommandsOf(es))[..k]).executed|
    ensures
      var executed := Load(cfg, EncodeAll(CommandsOf(es))[..k]).executed;
      && |Databases(0, executed)| == |executed| <= |es|
      && executed[i] == CommandOf(es[i])
      && (es[i].RunIn? && es[i].tag != -1 ==> Databases(0, executed)[i] == es[i].tag)
  {
    hide Load, EncodeAll, Databases;
    var cs := CommandsOf(es);
    LoadCutPlain(cfg, cs, k);
    var w := WholeCommands(cs, k);
    assert cs[..w] == CommandsOf(es[..w]);
    assert es[..w] + es[w..] == es;
    ReplayAppend(0, es[..w], es[w..]);
    DatabasesOfEntries(0, es[..w], i);
  }
}
