/**
 The append-only log as bytes: the command encoder of src/aof.c and the loader that
 replays a log file, including one that was cut short at an arbitrary byte.
 */
module AofLog {
  import opened Numbers

  /** A command is its argument vector. */
  type Command = seq<Arg>

  const LF: Byte := 10
  const CR: Byte := 13
  const HASH: Byte := 35
  const DOLLAR: Byte := 36
  const STAR: Byte := 42

  /** AOF_ANNOTATION_LINE_MAX_LEN: the size of the line buffer, terminator included. */
  const LINE_MAX := 1024

  /** What the encoder is ever given: at least one argument, counts that fit their C types. */
  predicate Encodable(cmd: Command) {
    && 1 <= |cmd| <= INT_MAX
    && forall i | 0 <= i < |cmd| :: |cmd[i]| <= LONG_MAX
  }

  // ------------------------------------------------------------------- encoder

  function Header(kind: Byte, n: nat): Arg {
    [kind] + Decimal(n) + [CR, LF]
  }

  function EncodeArg(arg: Arg): Arg {
    Header(DOLLAR, |arg|) + arg + [CR, LF]
  }

  function EncodeArgs(args: seq<Arg>): Arg {
    if args == [] then [] else EncodeArg(args[0]) + EncodeArgs(args[1..])
  }

  /** What `catAppendOnlyGenericCommand` appends. */
  function Encode(cmd: Command): Arg {
    Header(STAR, |cmd|) + EncodeArgs(cmd)
  }

  function EncodeAll(cmds: seq<Command>): Arg {
    if cmds == [] then [] else Encode(cmds[0]) + EncodeAll(cmds[1..])
  }

  lemma {:induction false} EncodeArgsSnoc(args: seq<Arg>, arg: Arg)
    ensures EncodeArgs(args + [arg]) == EncodeArgs(args) + EncodeArg(arg)
  {
    if args == [] {
      assert args + [arg] == [arg];
      assert EncodeArgs([arg]) == EncodeArg(arg) + EncodeArgs([]);
    } else {
      assert (args + [arg])[1..] == args[1..] + [arg];
      EncodeArgsSnoc(args[1..], arg);
    }
  }

  lemma NoArgs()
    ensures EncodeArgs([]) == []
  {
  }

  /** `catAppendOnlyGenericCommand`: one pass over the arguments, appending to `dst`. */
  method CatGenericCommand(dst: Arg, cmd: Command) returns (r: Arg)
    ensures r == dst + Encode(cmd)
  {
    hide Header, EncodeArgs;
    r := dst + Header(STAR, |cmd|);
    ghost var start := r;
    NoArgs();
    for j := 0 to |cmd|
      invariant r == start + EncodeArgs(cmd[..j])
    {
      ghost var before := r;
      r := r + Header(DOLLAR, |cmd[j]|);
      r := r + cmd[j];
      r := r + [CR, LF];
      assert r == before + EncodeArg(cmd[j]);
      EncodeArgsSnoc(cmd[..j], cmd[j]);
      assert cmd[..j + 1] == cmd[..j] + [cmd[j]];
    }
    assert cmd[..|cmd|] == cmd;
  }

  // -------------------------------------------------------------------- reader

  /** How many bytes `fgets` takes: through the first LF, to the end, or `room` bytes. */
  function LineLength(s: Arg, room: nat): (n: nat)
    ensures n <= |s| && n <= room
    ensures n == 0 ==> s == [] || room == 0
  {
    if s == [] || room == 0 then 0
    else if s[0] == LF then 1
    else 1 + LineLength(s[1..], room - 1)
  }

  /** True when `fgets` stopped because the file ended. */
  predicate LineHitsEnd(s: Arg) {
    var n := LineLength(s, LINE_MAX - 1);
    n == |s| < LINE_MAX - 1 && (n > 0 ==> s[n - 1] != LF)
  }

  datatype ArgResult =
    | ArgRead(arg: Arg, size: nat)
    | ArgShort
    | ArgMalformed

  /** One turn of the argument loop of `loadSingleAppendOnlyFile`. */
  function ReadArg(s: Arg): (r: ArgResult)
    ensures r.ArgRead? ==> r.size <= |s|
  {
    var n := LineLength(s, LINE_MAX - 1);
    if n == 0 then ArgShort
    else if s[0] != DOLLAR then ArgMalformed
    else
      var parsed := ParseInt(s[1..n]);
      var len := if parsed < 0 then parsed + 0x1_0000_0000_0000_0000 else parsed;
      if len < 0 || |s| - n < len then ArgShort
      else if |s| - n - len < 2 then ArgShort
      else ArgRead(s[n..n + len], n + len + 2)
  }

  datatype ArgsResult =
    | ArgsRead(args: seq<Arg>, size: nat)
    | ArgsShort
    | ArgsMalformed

  function ReadArgs(s: Arg, count: nat): (r: ArgsResult)
    ensures r.ArgsRead? ==> r.size <= |s| && |r.args| == count
  {
    if count == 0 then ArgsRead([], 0)
    else
      match ReadArg(s)
      case ArgShort => ArgsShort
      case ArgMalformed => ArgsMalformed
      case ArgRead(arg, size) =>
        match ReadArgs(s[size..], count - 1)
        case ArgsRead(args, more) => ArgsRead([arg] + args, size + more)
        case other => other
  }

  datatype ReadResult =
    | AtEnd                               // end of file between commands
    | Annotation(size: nat)               // a line starting with '#'
    | Read(cmd: Command, size: nat)
    | Short                               // end of file inside a command
    | ReadError                           // unusable line, but not at the end of the file
    | Malformed                           // not the expected format

  /** One turn of the main loop of `loadSingleAppendOnlyFile`, up to the command lookup. */
  function ReadCommand(s: Arg): (r: ReadResult)
    ensures r.Annotation? || r.Read? ==> 0 < r.size <= |s|
  {
    var n := LineLength(s, LINE_MAX - 1);
    if n == 0 then AtEnd
    else if s[0] == HASH then Annotation(n)
    else if s[0] != STAR then Malformed
    else if n == 1 || s[1] == 0 then (if LineHitsEnd(s) then Short else ReadError)
    else
      var argc := ParseInt(s[1..n]);
      if argc < 1 then Malformed
      else
        match ReadArgs(s[n..], argc)
        case ArgsRead(args, size) => Read(args, n + size)
        case ArgsShort => Short
        case ArgsMalformed => Malformed
  }

  // --------------------------------------------------------------- header lines

  lemma {:induction false} LineStopsAtLf(a: Arg, rest: Arg, room: nat)
    requires LF !in a && |a| < room
    ensures LineLength(a + [LF] + rest, room) == |a| + 1
  {
    var s := a + [LF] + rest;
    if a != [] {
      assert s[0] == a[0];
      assert s[1..] == a[1..] + [LF] + rest;
      LineStopsAtLf(a[1..], rest, room - 1);
    }
  }

  lemma {:induction false} LineRunsToEnd(a: Arg, room: nat)
    requires LF !in a && |a| <= room
    ensures LineLength(a, room) == |a|
  {
    if a != [] {
      LineRunsToEnd(a[1..], room - 1);
    }
  }

  lemma HeaderHasNoEarlyLf(kind: Byte, n: nat)
    requires kind != LF && n <= LONG_MAX
    ensures Header(kind, n) == [kind] + Decimal(n) + [CR] + [LF]
    ensures LF !in [kind] + Decimal(n) + [CR]
    ensures |Header(kind, n)| == |Decimal(n)| + 3 <= 22
  {
    DecimalIsDigits(n);
    CountIsShort(n);
  }

  /** A whole header is one line and its number is read back. */
  lemma ReadHeader(kind: Byte, n: nat, rest: Arg)
    requires kind != LF && n <= LONG_MAX
    ensures LineLength(Header(kind, n) + rest, LINE_MAX - 1) == |Header(kind, n)|
    ensures |Header(kind, n)| >= 2
    ensures ParseInt((Header(kind, n) + rest)[1..|Header(kind, n)|]) == n
    ensures (Header(kind, n) + rest)[|Header(kind, n)|..] == rest
  {
    HeaderHasNoEarlyLf(kind, n);
    var line := [kind] + Decimal(n) + [CR];
    assert Header(kind, n) + rest == line + [LF] + rest;
    LineStopsAtLf(line, rest, LINE_MAX - 1);
    assert (Header(kind, n) + rest)[1..|Header(kind, n)|] == Decimal(n) + [CR, LF];
    ParseNumber(n, [CR, LF]);
  }

  /** A header cut before its line feed is a last line that ends with the file. */
  lemma ReadCutHeader(kind: Byte, n: nat, k: nat)
    requires kind != LF && n <= LONG_MAX && 0 < k < |Header(kind, n)|
    ensures var s := Header(kind, n)[..k];
      && LineLength(s, LINE_MAX - 1) == k
      && LineHitsEnd(s)
      && s[1..] == (Decimal(n) + [CR])[..k - 1]
  {
    HeaderHasNoEarlyLf(kind, n);
    var line := [kind] + Decimal(n) + [CR];
    var s := Header(kind, n)[..k];
    assert s == line[..k];
    assert forall i | 0 <= i < k :: s[i] in line;
    LineRunsToEnd(s, LINE_MAX - 1);
  }

  // ---------------------------------------------------------- reading arguments

  lemma ReadEncodedArg(arg: Arg, rest: Arg)
    requires |arg| <= LONG_MAX
    ensures ReadArg(EncodeArg(arg) + rest) == ArgRead(arg, |EncodeArg(arg)|)
  {
    var h := Header(DOLLAR, |arg|);
    var s := EncodeArg(arg) + rest;
    var tail := arg + [CR, LF] + rest;
    assert s == h + tail;
    ReadHeader(DOLLAR, |arg|, tail);
    assert s[|h|..|h| + |arg|] == arg;
  }

  lemma ReadCutArg(arg: Arg, k: nat)
    requires |arg| <= LONG_MAX && k < |EncodeArg(arg)|
    ensures ReadArg(EncodeArg(arg)[..k]) == ArgShort
  {
    var h := Header(DOLLAR, |arg|);
    var s := EncodeArg(arg)[..k];
    if k == 0 {
    } else if k < |h| {
      assert s == h[..k];
      ReadCutHeader(DOLLAR, |arg|, k);
    } else {
      var tail := (arg + [CR, LF])[..k - |h|];
      assert s == h + tail;
      ReadHeader(DOLLAR, |arg|, tail);
    }
  }

  lemma {:induction false} ReadEncodedArgs(args: seq<Arg>, rest: Arg)
    requires forall i | 0 <= i < |args| :: |args[i]| <= LONG_MAX
    ensures ReadArgs(EncodeArgs(args) + rest, |args|) == ArgsRead(args, |EncodeArgs(args)|)
  {
    hide ReadArg, EncodeArg;
    if args != [] {
      var more := EncodeArgs(args[1..]) + rest;
      var e := EncodeArg(args[0]);
      assert EncodeArgs(args) + rest == e + more;
      ReadEncodedArg(args[0], more);
      assert (e + more)[|e|..] == more;
      ReadEncodedArgs(args[1..], rest);
      assert [args[0]] + args[1..] == args;
    }
  }

  lemma {:induction false} ReadCutArgs(args: seq<Arg>, k: nat)
    requires forall i | 0 <= i < |args| :: |args[i]| <= LONG_MAX
    requires k < |EncodeArgs(args)|
    ensures ReadArgs(EncodeArgs(args)[..k], |args|) == ArgsShort
  {
    hide ReadArg, EncodeArg;
    var e := EncodeArg(args[0]);
    var more := EncodeArgs(args[1..]);
    assert EncodeArgs(args) == e + more;
    if k < |e| {
      assert (e + more)[..k] == e[..k];
      ReadCutArg(args[0], k);
    } else {
      var cut := more[..k - |e|];
      assert (e + more)[..k] == e + cut;
      ReadEncodedArg(args[0], cut);
      assert (e + cut)[|e|..] == cut;
      ReadCutArgs(args[1..], k - |e|);
    }
  }

  // ----------------------------------------------------------- reading commands

  /** Reading undoes writing, whatever bytes the arguments hold. */
  lemma ReadEncoded(cmd: Command, rest: Arg)
    requires Encodable(cmd)
    ensures ReadCommand(Encode(cmd) + rest) == Read(cmd, |Encode(cmd)|)
  {
    var h := Header(STAR, |cmd|);
    var tail := EncodeArgs(cmd) + rest;
    assert Encode(cmd) + rest == h + tail;
    ReadHeader(STAR, |cmd|, tail);
    ReadEncodedArgs(cmd, rest);
    DecimalIsDigits(|cmd|);
    assert (h + tail)[1] == Decimal(|cmd|)[0];
  }

  /** A command cut anywhere inside is reported as an unexpected end of file, never as another command. */
  lemma ReadCut(cmd: Command, k: nat)
    requires Encodable(cmd) && 0 < k < |Encode(cmd)|
    ensures ReadCommand(Encode(cmd)[..k]) == Short
  {
    hide EncodeArgs;
    var h := Header(STAR, |cmd|);
    var s := Encode(cmd)[..k];
    if k < |h| {
      assert s == h[..k];
      ReadCutHeader(STAR, |cmd|, k);
      if k > 1 {
        DecimalIsDigits(|cmd|);
        var digits := Decimal(|cmd|) + [CR];
        assert s[1..k] == digits[..k - 1];
        assert s[1] == digits[0];
        ParseCutNumber(|cmd|, [CR], k - 1);
        assert s[k..] == [];
      }
    } else {
      var tail := EncodeArgs(cmd)[..k - |h|];
      assert s == h + tail;
      ReadHeader(STAR, |cmd|, tail);
      DecimalIsDigits(|cmd|);
      assert s[1] == Decimal(|cmd|)[0];
      ReadCutArgs(cmd, k - |h|);
    }
  }
}
