/**
 ACL selectors: the command bitmap, the allowed first arguments and the rule log that must
 be able to rebuild both.
 */
module Acl {
  import opened AclRules
  import opened Basics
  import opened SdsSplit

  /** USER_COMMAND_BITS_COUNT, and the id no command gets. */
  const COUNT := 1024
  const RESERVED := 1023

  // --------------------------------------------------------------- the command table

  datatype Sub = Sub(name: string, id: nat, categories: set<string>)

  datatype Command = Command(name: string, id: nat, categories: set<string>, subs: seq<Sub>)

  datatype Table = Table(commands: seq<Command>, categories: set<string>)

  function LowerChar(c: char): char {
    if 'A' <= c <= 'Z' then c + (32 as char) else c
  }

  function Lower(s: string): (r: string)
    ensures |r| == |s|
  {
    seq(|s|, i requires 0 <= i < |s| => LowerChar(s[i]))
  }

  /** A name without blanks, quotes, bars and capitals. */
  predicate PlainName(s: string) {
    Word(s) && Clean(s) && '|' !in s && Lower(s) == s
  }

  predicate IsSubId(t: Table, id: nat) {
    exists c | c in t.commands :: exists s | s in c.subs :: s.id == id
  }

  predicate PlainCommand(c: Command) {
    PlainName(c.name) && c.name[0] != '@' && c.id < RESERVED &&
    forall s | s in c.subs :: PlainName(s.name) && s.id < RESERVED
  }

  predicate WellFormed(t: Table) {
    && (forall c | c in t.commands :: PlainCommand(c))
    && (forall c | c in t.commands :: !IsSubId(t, c.id))
    && (forall c | c in t.categories :: PlainName(c))
  }

  /** dictFetchValue on the command table. */
  function Find(commands: seq<Command>, name: string): (r: Option<Command>)
    ensures r.Some? ==> r.value in commands && r.value.name == name
    ensures r.None? ==> forall c | c in commands :: c.name != name
  {
    if commands == [] then None
    else if commands[0].name == name then Some(commands[0])
    else Find(commands[1..], name)
  }

  function FindSub(subs: seq<Sub>, name: string): (r: Option<Sub>)
    ensures r.Some? ==> r.value in subs && r.value.name == name
    ensures r.None? ==> forall s | s in subs :: s.name != name
  {
    if subs == [] then None
    else if subs[0].name == name then Some(subs[0])
    else FindSub(subs[1..], name)
  }

  /** The first '|', or the end. */
  function Bar(s: string): (i: nat)
    ensures i <= |s| && '|' !in s[..i] && (i < |s| ==> s[i] == '|')
  {
    if s == "" || s[0] == '|' then 0
    else
      var i := 1 + Bar(s[1..]);
      assert s[..i] == [s[0]] + s[1..][..i - 1];
      i
  }

  /** The last '|' of a text that has one. */
  function LastBar(s: string): (i: nat)
    requires '|' in s
    ensures i < |s| && s[i] == '|' && '|' !in s[i + 1..]
  {
    var n := |s| - 1;
    if s[n] == '|' then n
    else
      assert s == s[..n] + [s[n]];
      var i := LastBar(s[..n]);
      assert s[i + 1..] == s[..n][i + 1..] + [s[n]];
      i
  }

  datatype Target = Whole(cmd: Command) | Part(parent: Command, sub: Sub)

  function FullName(target: Target): string {
    match target
    case Whole(c) => c.name
    case Part(c, s) => c.name + "|" + s.name
  }

  /** `ACLLookupCommand`: one level of subcommands, and an exact number of parts. */
  function Lookup(t: Table, name: string): Option<Target> {
    var i := Bar(name);
    match Find(t.commands, name[..i])
    case None => None
    case Some(c) =>
      if i == |name| then Some(Whole(c))
      else if '|' in name[i + 1..] || c.subs == [] then None
      else
        match FindSub(c.subs, name[i + 1..])
        case None => None
        case Some(s) => Some(Part(c, s))
  }

  // ------------------------------------------------------------------ what a rule does

  /** Sets the bits `ids` to `allow` and forgets the first arguments of `clear`; or allows one first argument. */
  datatype Effect = Permit(ids: set<nat>, clear: set<nat>, allow: bool) | AddFirst(id: nat, arg: string)

  function SubIds(subs: seq<Sub>): set<nat> {
    set s | s in subs :: s.id
  }

  function CommandIds(c: Command): set<nat> {
    {c.id} + SubIds(c.subs)
  }

  /** The bits and first arguments the commands `cs` lose or gain with category `cat`. */
  function CategoryIds(cs: seq<Command>, cat: string): set<nat> {
    if cs == [] then {}
    else
      CategoryIds(cs[..|cs| - 1], cat) + CategoryIdsOf(cs[|cs| - 1], cat)
  }

  function CategoryIdsOf(c: Command, cat: string): set<nat> {
    (if cat in c.categories then CommandIds(c) else {}) + CategorySubs(c.subs, cat)
  }

  function CategorySubs(subs: seq<Sub>, cat: string): set<nat> {
    set s | s in subs && cat in s.categories :: s.id
  }

  function CategoryClears(cs: seq<Command>, cat: string): set<nat> {
    if cs == [] then {}
    else CategoryClears(cs[..|cs| - 1], cat) + CategoryClearsOf(cs[|cs| - 1], cat)
  }

  function CategoryClearsOf(c: Command, cat: string): set<nat> {
    (if cat in c.categories then {c.id} else {}) + CategorySubs(c.subs, cat)
  }

  function TargetEffect(target: Target, allow: bool): Effect {
    match target
    case Whole(c) => Permit(CommandIds(c), {c.id}, allow)
    case Part(_, s) => Permit({s.id}, {s.id}, allow)
  }

  /** The effect of the rule `name`, in lower case, or nothing if it is not a rule. */
  function EffectOf(t: Table, allow: bool, name: string): Option<Effect> {
    if name != "" && name[0] == '@' then
      if name[1..] in t.categories
      then Some(Permit(CategoryIds(t.commands, name[1..]), CategoryClears(t.commands, name[1..]), allow))
      else None
    else
      match Lookup(t, name)
      case Some(target) => Some(TargetEffect(target, allow))
      case None => FirstArgument(t, allow, name)
  }

  /** "+command|argument" for a command that has no subcommands. */
  function FirstArgument(t: Table, allow: bool, name: string): Option<Effect> {
    var i := Bar(name);
    if !allow || i >= |name| - 1 || '|' in name[i + 1..] then None
    else
      match Find(t.commands, name[..i])
      case None => None
      case Some(c) => if c.subs == [] then Some(AddFirst(c.id, name[i + 1..])) else None
  }

  datatype Error = NoEntry | Child | Invalid

  datatype Decision =
    | Reset(all: bool)                    // +@all, allcommands, -@all, nocommands
    | Rule(word: string, effect: Effect)
    | Reject(error: Error)
    | Elsewhere                           // about keys or channels: leaves the command part alone

  function Sign(allow: bool): string {
    if allow then "+" else "-"
  }

  /** The error for a name that is not a rule. */
  function ErrorOf(t: Table, allow: bool, name: string): Error {
    if !allow || '|' !in name || (name[0] == '@') then NoEntry
    else
      match Lookup(t, name[..LastBar(name)])
      case None => NoEntry
      case Some(Part(_, _)) => Child
      case Some(Whole(_)) => if LastBar(name) == |name| - 1 then Invalid else NoEntry
  }

  /** The branches of `ACLSetSelector`, for `op` in lower case. */
  function Classify(t: Table, op: string): Decision {
    if op == "allcommands" || op == "+@all" then Reset(true)
    else if op == "nocommands" || op == "-@all" then Reset(false)
    else if op == "" then Reject(Invalid)
    else if op[0] == '+' || op[0] == '-' then
      match EffectOf(t, op[0] == '+', op[1..]) {
        case Some(e) => Rule(op, e)
        case None => Reject(ErrorOf(t, op[0] == '+', op[1..]))
      }
    else if op[0] in "~%&" || op == "allkeys" || op == "resetkeys" || op == "allchannels" || op == "resetchannels"
    then Elsewhere
    else Reject(Invalid)
  }

  function ErrorIn(d: Decision): Option<Error> {
    if d.Reject? then Some(d.error) else None
  }

  // ----------------------------------------------------------------- the state of a selector

  /** `first` holds the allowed first arguments in lower case: they are compared without case. */
  datatype View = View(bits: seq<bool>, first: seq<set<string>>, text: string, all: bool)

  function SetBits(bits: seq<bool>, ids: set<nat>, value: bool): (r: seq<bool>)
    ensures |r| == |bits|
  {
    seq(|bits|, i requires 0 <= i < |bits| => if i in ids then value else bits[i])
  }

  function Clear(first: seq<set<string>>, ids: set<nat>): (r: seq<set<string>>)
    ensures |r| == |first|
  {
    seq(|first|, i requires 0 <= i < |first| => if i in ids then {} else first[i])
  }

  function Add(first: seq<set<string>>, id: nat, arg: string): (r: seq<set<string>>)
    ensures |r| == |first|
  {
    seq(|first|, i requires 0 <= i < |first| => if i == id then first[i] + {arg} else first[i])
  }

  function Applied(v: View, e: Effect): View {
    match e
    case Permit(ids, clear, allow) =>
      v.(bits := SetBits(v.bits, ids, allow), first := Clear(v.first, clear), all := v.all && (allow || ids == {}))
    case AddFirst(id, arg) => v.(first := Add(v.first, id, arg))
  }

  function Blank(all: bool): View {
    View(seq(COUNT, i => all), seq(COUNT, i => {}), "", all)
  }

  /** The log after a new rule, followed only while it is tidy. */
  function Logged(text: string, word: string): string {
    if word == "" || !Tidy(text) then text else Join(Updated(Words(text), word))
  }

  /** The state after an accepted or rejected operation. */
  function Step(v: View, d: Decision): View {
    match d
    case Reset(all) => Blank(all)
    case Rule(word, e) => Applied(v, e).(text := Logged(v.text, word))
    case _ => v
  }

  /** Applying operations one after the other, any of which may be refused. */
  function History(t: Table, v: View, ops: seq<string>): View
    decreases ops
  {
    if ops == [] then v else History(t, Step(v, Classify(t, Lower(ops[0]))), ops[1..])
  }

  /**
   The test of `ACLDescribeSelectorCommandRules`: the log can be split, and from +@all or -@all,
   as the reserved bit says, its rules lead to the same bitmap; here also to the same first
   arguments and the same log, which the original does not compare.
   */
  ghost predicate Rebuilds(t: Table, v: View)
    requires |v.bits| == COUNT
  {
    && SplitArgs(v.text).Some?
    && var r := History(t, Blank(v.bits[RESERVED]), SplitArgs(v.text).value);
    && r.bits == v.bits && r.first == v.first && r.text == v.text
  }

  // ------------------------------------------------------ the log, location by location

  predicate IsRule(t: Table, w: string) {
    Word(w) && Clean(w) && Lower(w) == w && Classify(t, w).Rule?
  }

  predicate AllRules(t: Table, words: seq<string>) {
    forall i | 0 <= i < |words| :: IsRule(t, words[i])
  }

  function EffectIn(t: Table, w: string): Effect
    requires IsRule(t, w)
  {
    Classify(t, w).effect
  }

  predicate TouchesBit(e: Effect, i: nat) {
    e.Permit? && i in e.ids
  }

  predicate TouchesFirst(e: Effect, i: nat, a: string) {
    if e.Permit? then i in e.clear else i == e.id && a == e.arg
  }

  /** The last rule that touches a bit decides it. */
  function BitAfter(t: Table, start: bool, words: seq<string>, i: nat): bool
    requires AllRules(t, words)
  {
    if words == [] then start
    else
      var n := |words| - 1;
      var e := EffectIn(t, words[n]);
      if TouchesBit(e, i) then e.allow else BitAfter(t, start, words[..n], i)
  }

  /** The last rule that touches a first argument decides whether it is allowed. */
  function FirstAfter(t: Table, words: seq<string>, i: nat, a: string): bool
    requires AllRules(t, words)
  {
    if words == [] then false
    else
      var n := |words| - 1;
      var e := EffectIn(t, words[n]);
      if TouchesFirst(e, i, a) then e.AddFirst? else FirstAfter(t, words[..n], i, a)
  }

  ghost predicate BitsFollow(t: Table, v: View)
    requires |v.bits| == COUNT && AllRules(t, Words(v.text))
  {
    forall i | 0 <= i < COUNT :: v.bits[i] == BitAfter(t, v.bits[RESERVED], Words(v.text), i)
  }

  ghost predicate FirstFollow(t: Table, v: View)
    requires |v.first| == COUNT && AllRules(t, Words(v.text))
  {
    forall i, a | 0 <= i < COUNT :: a in v.first[i] <==> FirstAfter(t, Words(v.text), i, a)
  }

  predicate GoodLog(t: Table, text: string) {
    Tidy(text) && Canonical(Words(text)) && AllRules(t, Words(text))
  }

  ghost predicate Good(t: Table, v: View) {
    && |v.bits| == COUNT && |v.first| == COUNT
    && GoodLog(t, v.text)
    && BitsFollow(t, v) && FirstFollow(t, v)
    && (v.all ==> forall i | 0 <= i < COUNT :: v.bits[i])
  }

  // ---------------------------------------------------- a dropped rule leaves no trace

  lemma {:induction false} CategoryIdsBelow(t: Table, cs: seq<Command>, cat: string)
    requires WellFormed(t) && forall c | c in cs :: c in t.commands
    ensures RESERVED !in CategoryIds(cs, cat)
  {
    if cs != [] {
      var n := |cs| - 1;
      assert cs[n] in t.commands;
      CategoryIdsBelow(t, cs[..n], cat);
    }
  }

  lemma ReservedUntouched(t: Table, w: string)
    requires WellFormed(t) && IsRule(t, w)
    ensures !TouchesBit(EffectIn(t, w), RESERVED)
  {
    hide IsSubId;
    var name := w[1..];
    if name != "" && name[0] == '@' {
      CategoryIdsBelow(t, t.commands, name[1..]);
    }
  }

  lemma BarOfPlain(s: string)
    requires '|' !in s
    ensures Bar(s) == |s|
  {
  }

  /** A name that another one drops without being equal is that name, a bar and a bar-free rest. */
  lemma DroppedIsPart(t: Table, w: string, x: string)
    requires WellFormed(t) && IsRule(t, w) && IsRule(t, x) && Drops(w[1..], x[1..]) && w[1..] != x[1..]
    ensures
      var name, other := w[1..], x[1..];
      && '|' !in name && (name == "" || name[0] != '@') && other != "" && other[0] != '@'
      && Bar(other) == |name| < |other| && other[..|name|] == name
      && Find(t.commands, name).Some?
  {
    hide CategoryIds, CategoryClears, IsSubId, Lower, FindSub, TargetEffect;
    var name, other := w[1..], x[1..];
    assert other[|name|] == '|';
    assert Bar(other) <= |name|;
  }

  /** A rule touches every bit a rule it drops touches. */
  lemma DroppedBits(t: Table, w: string, x: string, i: nat)
    requires WellFormed(t) && IsRule(t, w) && IsRule(t, x) && Drops(w[1..], x[1..])
    requires TouchesBit(EffectIn(t, x), i)
    ensures TouchesBit(EffectIn(t, w), i)
  {
    hide CategoryIds, CategoryClears, IsSubId, WellFormed, Lower;
    var name := w[1..];
    if x[1..] != name {
      DroppedIsPart(t, w, x);
      BarOfPlain(name);
      assert name[..|name|] == name;
    }
  }

  /** And every first argument, except those of subcommands, which never have any. */
  lemma DroppedFirst(t: Table, w: string, x: string, i: nat, a: string)
    requires WellFormed(t) && IsRule(t, w) && IsRule(t, x) && Drops(w[1..], x[1..])
    requires TouchesFirst(EffectIn(t, x), i, a) && !IsSubId(t, i)
    ensures TouchesFirst(EffectIn(t, w), i, a)
  {
    hide CategoryIds, CategoryClears, WellFormed, Lower;
    var name := w[1..];
    if x[1..] != name {
      DroppedIsPart(t, w, x);
      BarOfPlain(name);
      assert name[..|name|] == name;
    }
  }

  lemma {:induction false} SubNeverAdded(t: Table, words: seq<string>, i: nat, a: string)
    requires WellFormed(t) && AllRules(t, words) && IsSubId(t, i)
    ensures !FirstAfter(t, words, i, a)
  {
    hide CategoryIds, CategoryClears, IsSubId, Lower, FindSub;
    if words != [] {
      var n := |words| - 1;
      assert IsRule(t, words[n]);
      SubNeverAdded(t, words[..n], i, a);
    }
  }

  lemma {:induction false} DropKeepsBit(t: Table, words: seq<string>, w: string, start: bool, i: nat)
    requires WellFormed(t) && AllRules(t, words) && AllWords(words) && IsRule(t, w)
    requires !TouchesBit(EffectIn(t, w), i)
    ensures AllRules(t, Kept(words, w[1..]))
    ensures BitAfter(t, start, Kept(words, w[1..]), i) == BitAfter(t, start, words, i)
  {
    hide IsRule, WellFormed, Drops, TouchesBit, Classify;
    RuleIsWord(t, w);
    if words != [] {
      var n := |words| - 1;
      var last, init := words[n], words[..n];
      assert IsRule(t, last);
      DropKeepsBit(t, init, w, start, i);
      assert words == init + [last];
      KeptAppend(init, [last], w[1..]);
      var kept := Kept(init, w[1..]);
      assert Kept([last], w[1..]) == if Drops(w[1..], last[1..]) then [] else [last];
      if Drops(w[1..], last[1..]) {
        if TouchesBit(EffectIn(t, last), i) {
          DroppedBits(t, w, last, i);
        }
        assert kept + [] == kept;
      } else {
        assert (kept + [last])[..|kept|] == kept;
      }
    }
  }

  lemma {:induction false} DropKeepsFirst(t: Table, words: seq<string>, w: string, i: nat, a: string)
    requires WellFormed(t) && AllRules(t, words) && AllWords(words) && IsRule(t, w)
    requires !TouchesFirst(EffectIn(t, w), i, a)
    ensures AllRules(t, Kept(words, w[1..]))
    ensures !IsSubId(t, i) ==> FirstAfter(t, Kept(words, w[1..]), i, a) == FirstAfter(t, words, i, a)
  {
    hide IsRule, WellFormed, Drops, TouchesFirst, Classify, IsSubId;
    RuleIsWord(t, w);
    if words != [] {
      var n := |words| - 1;
      var last, init := words[n], words[..n];
      assert IsRule(t, last);
      DropKeepsFirst(t, init, w, i, a);
      assert words == init + [last];
      KeptAppend(init, [last], w[1..]);
      var kept := Kept(init, w[1..]);
      assert Kept([last], w[1..]) == if Drops(w[1..], last[1..]) then [] else [last];
      if Drops(w[1..], last[1..]) {
        if TouchesFirst(EffectIn(t, last), i, a) && !IsSubId(t, i) {
          DroppedFirst(t, w, last, i, a);
        }
        assert kept + [] == kept;
      } else {
        assert (kept + [last])[..|kept|] == kept;
      }
    }
  }

  // ------------------------------------------------------ every operation keeps the log good

  lemma LogAfter(t: Table, text: string, w: string)
    requires WellFormed(t) && GoodLog(t, text) && IsRule(t, w)
    ensures
      var text' := Join(Updated(Words(text), w));
      GoodLog(t, text') && Words(text') == Kept(Words(text), w[1..]) + [w]
  {
    hide IsRule, Drops, WellFormed, Kept, Words, Join, Canonical;
    var words := Words(text);
    assert Word(w) by { RuleIsWord(t, w); }
    UpdateKeepsCanonical(words, w);
    WordsOfJoin(Updated(words, w));
    var kept := Kept(words, w[1..]);
    KeptIsPart(words, w[1..]);
    forall i | 0 <= i < |kept| ensures IsRule(t, kept[i]) {
      assert kept[i] in kept;
      assert kept[i] in words;
    }
  }

  lemma RuleIsWord(t: Table, w: string)
    requires IsRule(t, w)
    ensures Word(w)
  {
  }

  lemma RuleKeepsBits(t: Table, v: View, w: string, i: nat)
    requires WellFormed(t) && |v.bits| == COUNT && GoodLog(t, v.text) && BitsFollow(t, v) && IsRule(t, w) && i < COUNT
    ensures
      var kept := Kept(Words(v.text), w[1..]) + [w];
      && AllRules(t, kept)
      && Applied(v, EffectIn(t, w)).bits[i] == BitAfter(t, v.bits[RESERVED], kept, i)
  {
    hide IsRule, Classify, WellFormed, Words, Canonical;
    RuleIsWord(t, w);
    var words := Words(v.text);
    LogAfter(t, v.text, w);
    var kept := Kept(words, w[1..]);
    assert (kept + [w])[..|kept|] == kept;
    if !TouchesBit(EffectIn(t, w), i) {
      DropKeepsBit(t, words, w, v.bits[RESERVED], i);
    }
  }

  lemma RuleKeepsFirst(t: Table, v: View, w: string, i: nat, a: string)
    requires WellFormed(t) && |v.first| == COUNT && GoodLog(t, v.text) && FirstFollow(t, v) && IsRule(t, w) && i < COUNT
    ensures
      var kept := Kept(Words(v.text), w[1..]) + [w];
      && AllRules(t, kept)
      && (a in Applied(v, EffectIn(t, w)).first[i] <==> FirstAfter(t, kept, i, a))
  {
    hide IsRule, Classify, WellFormed, Words, Canonical, IsSubId;
    RuleIsWord(t, w);
    var words := Words(v.text);
    LogAfter(t, v.text, w);
    var kept := Kept(words, w[1..]);
    assert (kept + [w])[..|kept|] == kept;
    if !TouchesFirst(EffectIn(t, w), i, a) {
      DropKeepsFirst(t, words, w, i, a);
      if IsSubId(t, i) {
        SubNeverAdded(t, words, i, a);
        SubNeverAdded(t, kept, i, a);
      }
    }
  }

  lemma RuleKeepsGood(t: Table, v: View, w: string)
    requires WellFormed(t) && Good(t, v) && IsRule(t, w)
    ensures Good(t, Step(v, Classify(t, w)))
  {
    hide IsRule, Classify, WellFormed, Words, Canonical, Updated, Join, Kept;
    var e := EffectIn(t, w);
    var v' := Step(v, Classify(t, w));
    ClassifiedAs(t, w);
    LogAfter(t, v.text, w);
    ReservedUntouched(t, w);
    assert v'.bits[RESERVED] == v.bits[RESERVED];
    forall i | 0 <= i < COUNT ensures v'.bits[i] == BitAfter(t, v'.bits[RESERVED], Words(v'.text), i) {
      RuleKeepsBits(t, v, w, i);
    }
    forall i, a | 0 <= i < COUNT ensures a in v'.first[i] <==> FirstAfter(t, Words(v'.text), i, a) {
      RuleKeepsFirst(t, v, w, i, a);
    }
  }

  lemma ClassifiedAs(t: Table, w: string)
    requires IsRule(t, w)
    ensures Classify(t, w) == Rule(w, EffectIn(t, w)) && w != ""
  {
  }

  /** An operation without blanks and quotes, in lower case, keeps the state good whatever it is. */
  lemma StepKeepsGood(t: Table, v: View, op: string)
    requires WellFormed(t) && Good(t, v) && Lower(op) == op && Clean(op) && NUL !in op
    ensures Good(t, Step(v, Classify(t, op)))
  {
    hide WellFormed;
    if Classify(t, op).Rule? {
      RuleKeepsGood(t, v, op);
    } else if Classify(t, op).Reset? {
      BlankIsGood(t, Classify(t, op).all);
    }
  }

  lemma BlankIsGood(t: Table, all: bool)
    ensures Good(t, Blank(all)) && Blank(all).bits[RESERVED] == all && Blank(all).text == ""
  {
  }

  // -------------------------------------------------------------------- the rebuild

  /** Replaying a canonical log on top of its first part gives the whole log again. */
  lemma {:induction false} ReplayGood(t: Table, v: View, words: seq<string>, all: seq<string>)
    requires WellFormed(t) && Good(t, v) && AllWords(all) && Canonical(all) && AllRules(t, all)
    requires all == Words(v.text) + words
    ensures
      var r := History(t, v, words);
      Good(t, r) && Words(r.text) == all && r.bits[RESERVED] == v.bits[RESERVED]
    decreases words
  {
    hide Good, IsRule, Classify, WellFormed, Words, Join, Kept, Drops;
    assert GoodLog(t, v.text) by { LogIsGood(t, v); }
    if words == [] {
      assert Words(v.text) + [] == Words(v.text);
      GoodSizes(t, v);
    } else {
      var w, k := words[0], |Words(v.text)|;
      assert all[k] == w;
      ReplayOne(t, v, w, all, k);
      RuleIsLower(t, w);
      var v' := Step(v, Classify(t, w));
      assert all == Words(v'.text) + words[1..];
      ReplayGood(t, v', words[1..], all);
    }
  }

  lemma RuleIsLower(t: Table, w: string)
    requires IsRule(t, w)
    ensures Lower(w) == w && NUL !in w && ErrorIn(Classify(t, w)).None?
  {
  }

  lemma LogIsGood(t: Table, v: View)
    requires Good(t, v)
    ensures GoodLog(t, v.text)
  {
  }

  lemma GoodSizes(t: Table, v: View)
    requires Good(t, v)
    ensures |v.bits| == COUNT && |v.first| == COUNT
  {
  }

  lemma ReplayOne(t: Table, v: View, w: string, all: seq<string>, k: nat)
    requires WellFormed(t) && Good(t, v) && AllWords(all) && Canonical(all) && AllRules(t, all)
    requires k < |all| && all[k] == w && Words(v.text) == all[..k]
    ensures
      var v' := Step(v, Classify(t, w));
      Good(t, v') && Words(v'.text) == all[..k] + [w] && v'.bits[RESERVED] == v.bits[RESERVED]
  {
    hide IsRule, Classify, WellFormed, Words, Join, Kept, Drops, FirstFollow, BitsFollow;
    assert IsRule(t, all[k]);
    RuleKeepsGood(t, v, w);
    ClassifiedAs(t, w);
    LogAfter(t, v.text, w);
    ReservedUntouched(t, w);
    NothingDropped(all[..k], w[1..]);
  }

  /** The two selectors a good log stands for are the same. */
  lemma SameLogSameView(t: Table, v: View, r: View)
    requires Good(t, v) && Good(t, r) && Words(v.text) == Words(r.text) && v.bits[RESERVED] == r.bits[RESERVED]
    ensures v.bits == r.bits && v.first == r.first && v.text == r.text
  {
    hide IsRule, Words, Canonical, BitAfter, FirstAfter;
    JoinOfWords(v.text);
    JoinOfWords(r.text);
    forall i | 0 <= i < COUNT ensures v.first[i] == r.first[i] {
      assert forall a :: a in v.first[i] <==> a in r.first[i];
    }
  }

  /** The rules of a good log are the arguments it splits into. */
  lemma LogSplits(t: Table, text: string)
    requires GoodLog(t, text)
    ensures SplitArgs(text) == Some(Words(text))
  {
    hide Words, Join, Split, SplitArgs, Canonical;
    var words := Words(text);
    forall i | 0 <= i < |words| ensures CleanWord(words[i]) {
      RuleIsClean(t, words[i]);
    }
    SplitOfJoin(words);
    JoinOfWords(text);
  }

  lemma RuleIsClean(t: Table, w: string)
    requires IsRule(t, w)
    ensures CleanWord(w)
  {
    hide EffectOf, ErrorOf;
  }

  /** The log of a good state passes the test: nothing of the selector is lost. */
  lemma LogRebuilds(t: Table, v: View)
    requires WellFormed(t) && Good(t, v)
    ensures |v.bits| == COUNT && Rebuilds(t, v)
  {
    hide Good, WellFormed, History, Words, SplitArgs;
    LogIsGood(t, v);
    GoodSizes(t, v);
    LogSplits(t, v.text);
    var all := v.bits[RESERVED];
    BlankIsGood(t, all);
    NoWords();
    assert [] + Words(v.text) == Words(v.text);
    ReplayGood(t, Blank(all), Words(v.text), Words(v.text));
    SameLogSameView(t, v, History(t, Blank(all), Words(v.text)));
  }

  lemma NoWords()
    ensures Words("") == []
  {
  }

  // ------------------------------------------------------------------ whole histories

  lemma {:induction false} HistoryIsGood(t: Table, v: View, ops: seq<string>)
    requires WellFormed(t) && Good(t, v) && forall i | 0 <= i < |ops| :: Clean(ops[i]) && NUL !in ops[i]
    ensures Good(t, History(t, v, ops))
    decreases ops
  {
    hide Good, WellFormed, Classify, Words, Clean;
    if ops != [] {
      LowerAddsNothing(ops[0]);
      LowerTwice(ops[0]);
      StepKeepsGood(t, v, Lower(ops[0]));
      HistoryIsGood(t, Step(v, Classify(t, Lower(ops[0]))), ops[1..]);
    }
  }

  lemma LowerTwice(s: string)
    ensures Lower(Lower(s)) == Lower(s)
  {
  }

  lemma LowerAddsNothing(s: string)
    ensures ' ' in Lower(s) <==> ' ' in s
    ensures NUL in Lower(s) <==> NUL in s
    ensures Clean(s) ==> Clean(Lower(s))
  {
    forall i | 0 <= i < |s| ensures (Lower(s)[i] == ' ' <==> s[i] == ' ') && (Lower(s)[i] == NUL <==> s[i] == NUL) {
    }
  }

  /** After any operations without blanks and quotes on a new selector, the log rebuilds the selector. */
  lemma EveryHistoryRebuilds(t: Table, ops: seq<string>)
    requires WellFormed(t) && forall i | 0 <= i < |ops| :: Clean(ops[i]) && NUL !in ops[i]
    ensures |History(t, Blank(false), ops).bits| == COUNT && Rebuilds(t, History(t, Blank(false), ops))
  {
    hide Good, WellFormed, History, Rebuilds, Clean;
    BlankIsGood(t, false);
    HistoryIsGood(t, Blank(false), ops);
    LogRebuilds(t, History(t, Blank(false), ops));
  }

  // ------------------------------------------------- operations with blanks or quotes

  /** No command allows the first argument `a`. */
  ghost predicate Missing(v: View, a: string) {
    forall i | 0 <= i < |v.first| :: a !in v.first[i]
  }

  /** The operation does not allow the first argument `a` for any command. */
  predicate Harmless(t: Table, op: string, a: string) {
    var d := Classify(t, Lower(op));
    !(d.Rule? && d.effect.AddFirst? && d.effect.arg == a)
  }

  lemma {:induction false} HarmlessKeepsMissing(t: Table, v: View, ops: seq<string>, a: string)
    requires Missing(v, a) && forall op | op in ops :: Harmless(t, op, a)
    ensures Missing(History(t, v, ops), a)
    decreases ops
  {
    hide Classify, Tidy;
    if ops != [] {
      assert ops[0] in ops;
      HarmlessKeepsMissing(t, Step(v, Classify(t, Lower(ops[0]))), ops[1..], a);
    }
  }

  /** An allowed first argument is what follows the bar of the operation. */
  lemma ArgumentIsRest(t: Table, op: string)
    requires Classify(t, op).Rule? && Classify(t, op).effect.AddFirst?
    ensures
      var i := Bar(op[1..]);
      op != "" && i < |op| - 1 && Classify(t, op).effect.arg == op[1..][i + 1..]
  {
    hide CategoryIds, CategoryClears;
  }

  lemma CleanIsHarmless(t: Table, op: string, a: string)
    requires Clean(op) && !Clean(a)
    ensures Harmless(t, op, a)
  {
    hide Classify, Lower;
    LowerAddsNothing(op);
    var d := Classify(t, Lower(op));
    if d.Rule? && d.effect.AddFirst? {
      ArgumentIsRest(t, Lower(op));
    }
  }

  lemma ShortIsHarmless(t: Table, op: string, a: string)
    requires |op| <= |a|
    ensures Harmless(t, op, a)
  {
    hide Classify;
    var d := Classify(t, Lower(op));
    if d.Rule? && d.effect.AddFirst? {
      ArgumentIsRest(t, Lower(op));
    }
  }

  /** An operation on the same command with a shorter argument. */
  lemma ShorterIsHarmless(t: Table, start: string, x: string, a: string)
    requires |x| < |a| && |start| > 1 && start[|start| - 1] == '|'
    ensures Harmless(t, start + x, a)
  {
    hide Classify;
    var op := Lower(start + x);
    var d := Classify(t, op);
    if d.Rule? && d.effect.AddFirst? {
      ArgumentIsRest(t, op);
      var n := |start| - 2;
      assert op[1..][n] == '|';
      var i := Bar(op[1..]);
      if i < n {
        RestHasNoBar(t, op);
        assert false;
      }
    }
  }

  lemma RestHasNoBar(t: Table, op: string)
    requires Classify(t, op).Rule? && Classify(t, op).effect.AddFirst?
    ensures '|' !in Classify(t, op).effect.arg
  {
    hide CategoryIds, CategoryClears;
  }

  lemma FoundIsPlain(t: Table, name: string)
    requires WellFormed(t) && Find(t.commands, name).Some?
    ensures PlainCommand(Find(t.commands, name).value)
  {
    hide PlainCommand, IsSubId, PlainName;
  }

  lemma LookupIsClean(t: Table, name: string)
    requires WellFormed(t)
    ensures
      var i := Bar(name);
      && (Lookup(t, name).Some? ==> Clean(name))
      && (Find(t.commands, name[..i]).Some? ==> Clean(name[..i]) && Find(t.commands, name[..i]).value.id < RESERVED)
  {
    hide WellFormed, Lower, Find, FindSub, Bar;
    var i := Bar(name);
    if Find(t.commands, name[..i]).Some? {
      FoundIsPlain(t, name[..i]);
      assert Clean(name[..i]);
      if i == |name| {
        assert name[..i] == name;
      } else {
        assert name == name[..i] + "|" + name[i + 1..];
      }
    }
  }

  lemma CategoryIsClean(t: Table, name: string)
    requires WellFormed(t) && name != ""
    ensures name[0] == '@' && name[1..] in t.categories ==> Clean(name)
  {
    hide IsSubId, PlainCommand;
    assert name == [name[0]] + name[1..];
  }

  /** Only a first argument can bring a blank or a quote into the log. */
  lemma UncleanIsArgument(t: Table, op: string)
    requires WellFormed(t) && Classify(t, op).Rule? && !Clean(op)
    ensures
      var e := Classify(t, op).effect;
      var i := Bar(op[1..]);
      && e.AddFirst? && !Clean(e.arg) && e.id < RESERVED
      && op != "" && i < |op| - 1 && op == op[..i + 2] + e.arg && Clean(op[..i + 2]) && op[i + 1] == '|'
      && !Space(op[0])
  {
    hide EffectOf, WellFormed, Clean, Classify;
    RuleHasEffect(t, op);
    var name := op[1..];
    assert op == [op[0]] + name;
    assert !Clean(name) by { CleanParts([op[0]], name); }
    UncleanEffect(t, op[0] == '+', name);
    var i := Bar(name);
    assert op[..i + 2] == [op[0]] + (name[..i] + "|");
    CleanParts([op[0]], name[..i] + "|");
    CleanParts(name[..i], "|");
    assert name == (name[..i] + "|") + name[i + 1..];
    CleanParts(name[..i] + "|", name[i + 1..]);
  }

  lemma RuleHasEffect(t: Table, op: string)
    requires Classify(t, op).Rule?
    ensures op != "" && (op[0] == '+' || op[0] == '-')
    ensures EffectOf(t, op[0] == '+', op[1..]) == Some(Classify(t, op).effect)
  {
    hide EffectOf, ErrorOf;
  }

  lemma CleanParts(a: string, b: string)
    ensures Clean(a + b) <==> Clean(a) && Clean(b)
    ensures Clean("+") && Clean("-") && Clean("|")
  {
    assert (a + b)[..|a|] == a;
    assert (a + b)[|a|..] == b;
  }

  lemma UncleanEffect(t: Table, allow: bool, name: string)
    requires WellFormed(t) && EffectOf(t, allow, name).Some? && !Clean(name)
    ensures
      var e, i := EffectOf(t, allow, name).value, Bar(name);
      e.AddFirst? && e.id < RESERVED && i < |name| - 1 && Clean(name[..i]) && e.arg == name[i + 1..]
  {
    hide CategoryIds, CategoryClears, Lookup, Find, Clean, WellFormed, Bar;
    LookupIsClean(t, name);
    if name != "" {
      CategoryIsClean(t, name);
    }
  }

  /** The arguments a rule with an unclean first argument `a` splits into never allow `a` again. */
  lemma PiecesAreHarmless(t: Table, start: string, a: string)
    requires Clean(start) && |start| > 1 && start[|start| - 1] == '|' && !Space(start[0])
    requires !Clean(a) && SplitArgs(start + a).Some?
    ensures forall w | w in SplitArgs(start + a).value :: Harmless(t, w, a)
  {
    hide Harmless, Clean, Space;
    CleanStart(start, a);
    assert (start + a)[0] == start[0];
    UncleanShrinks(a);
    var (x, rest) := Token(a, Bare).value;
    assert Token(start + a, Bare) == Some((start + x, rest));
    ShorterIsHarmless(t, start, x, a);
    ArgumentsFit(rest);
    forall w | w in SplitArgs(rest).value ensures Harmless(t, w, a) {
      ShortIsHarmless(t, w, a);
    }
  }

  /** The same with clean rules in front. */
  lemma LogIsHarmless(t: Table, kept: seq<string>, start: string, a: string)
    requires AllRules(t, kept)
    requires Clean(start) && |start| > 1 && start[|start| - 1] == '|' && !Space(start[0])
    requires !Clean(a) && SplitArgs(Join(kept + [start + a])).Some?
    ensures forall w | w in SplitArgs(Join(kept + [start + a])).value :: Harmless(t, w, a)
  {
    hide Harmless, Clean, Space, Join, SplitArgs, IsRule;
    var op := start + a;
    assert Join([op]) == op by { JoinOne(op); }
    if kept == [] {
      assert kept + [op] == [op];
      PiecesAreHarmless(t, start, a);
    } else {
      forall i | 0 <= i < |kept| ensures CleanWord(kept[i]) && Harmless(t, kept[i], a) {
        RuleIsClean(t, kept[i]);
        CleanIsHarmless(t, kept[i], a);
      }
      JoinAppend(kept, [op]);
      CleanWordsFirst(kept, op);
      PiecesAreHarmless(t, start, a);
    }
  }

  lemma JoinOne(w: string)
    ensures Join([w]) == w
  {
  }

  /**
   An accepted operation leaves a log that rebuilds the selector exactly when it has no blank
   and no quote: a first argument with one is split or stripped, and comes back shorter.
   */
  lemma RebuildsIffClean(t: Table, v: View, op: string)
    requires WellFormed(t) && Good(t, v) && Lower(op) == op && Classify(t, op).Rule? && NUL !in op
    ensures
      var v' := Step(v, Classify(t, op));
      |v'.bits| == COUNT && (Rebuilds(t, v') <==> Clean(op))
  {
    hide Classify, History, Words, BitsFollow, FirstFollow, IsSubId, SplitArgs, Clean, WellFormed;
    var v' := Step(v, Classify(t, op));
    if Clean(op) {
      StepKeepsGood(t, v, op);
      LogRebuilds(t, v');
    } else {
      UncleanIsArgument(t, op);
      RuleIsItsWord(t, op);
      var e, i := Classify(t, op).effect, Bar(op[1..]);
      assert e.arg in v'.first[e.id];
      if SplitArgs(v'.text).Some? {
        KeptAreRules(t, v.text, op[1..]);
        LogIsHarmless(t, Kept(Words(v.text), op[1..]), op[..i + 2], e.arg);
        HarmlessKeepsMissing(t, Blank(v'.bits[RESERVED]), SplitArgs(v'.text).value, e.arg);
      }
    }
  }

  // ---- which operations the original notices

  /**
   The assertions and the comparison of `ACLDescribeSelectorCommandRules`: the log can be split,
   none of its rules is refused, and they lead to the same bitmap.
   */
  ghost predicate Passes(t: Table, v: View)
    requires |v.bits| == COUNT
  {
    && SplitArgs(v.text).Some?
    && AllAccepted(t, SplitArgs(v.text).value)
    && History(t, Blank(v.bits[RESERVED]), SplitArgs(v.text).value).bits == v.bits
  }

  predicate AllAccepted(t: Table, ops: seq<string>) {
    forall op | op in ops :: !Classify(t, Lower(op)).Reject?
  }

  lemma {:induction false} HistoryAppends(t: Table, v: View, a: seq<string>, b: seq<string>)
    ensures History(t, v, a + b) == History(t, History(t, v, a), b)
    decreases a
  {
    hide Step, Classify;
    if a == [] {
      assert a + b == b;
    } else {
      assert (a + b)[1..] == a[1..] + b;
      HistoryAppends(t, Step(v, Classify(t, Lower(a[0]))), a[1..], b);
    }
  }

  /** The bits after a history depend on the bits before it alone. */
  lemma {:induction false} SameBits(t: Table, u: View, v: View, ops: seq<string>)
    requires u.bits == v.bits
    ensures History(t, u, ops).bits == History(t, v, ops).bits
    decreases ops
  {
    hide Classify, Logged;
    if ops != [] {
      var d := Classify(t, Lower(ops[0]));
      SameBits(t, Step(u, d), Step(v, d), ops[1..]);
    }
  }

  lemma GoodPasses(t: Table, v: View)
    requires WellFormed(t) && Good(t, v)
    ensures |v.bits| == COUNT && Passes(t, v)
  {
    hide Good, WellFormed, History, SplitArgs, Classify, Words;
    LogRebuilds(t, v);
    LogIsGood(t, v);
    LogSplits(t, v.text);
    var words := Words(v.text);
    forall w | w in words ensures !Classify(t, Lower(w)).Reject? {
      RuleIsLower(t, w);
    }
  }

  /** A clean rule is never made redundant by an unclean one. */
  lemma {:induction false} UncleanDropsNothing(words: seq<string>, name: string)
    requires AllWords(words) && AllClean(words) && !Clean(name)
    ensures Kept(words, name) == words
  {
    if words != [] {
      UncleanDropsNothing(words[1..], name);
      var other := words[0][1..];
      assert Clean(other);
    }
  }

  lemma UncleanLog(t: Table, v: View, op: string)
    requires WellFormed(t) && Good(t, v) && Classify(t, op).Rule? && !Clean(op) && NUL !in op
    ensures
      var v' := Step(v, Classify(t, op));
      && v'.bits == v.bits && v'.text == Join(Words(v.text) + [op]) && AllRules(t, Words(v.text))
  {
    hide Classify, Words, Join, Clean, WellFormed, BitsFollow, FirstFollow, Canonical, IsRule, Drops;
    UncleanIsArgument(t, op);
    RuleIsItsWord(t, op);
    var words := Words(v.text);
    forall i | 0 <= i < |words| ensures CleanWord(words[i]) {
      RuleIsClean(t, words[i]);
    }
    assert op == [op[0]] + op[1..];
    CleanParts([op[0]], op[1..]);
    assert Clean([op[0]]) by { SignIsClean(t, op); }
    UncleanDropsNothing(words, op[1..]);
  }

  lemma SignIsClean(t: Table, op: string)
    requires Classify(t, op).Rule? && op != ""
    ensures Clean([op[0]])
  {
    hide EffectOf, ErrorOf;
  }

  lemma SplitOfLog(t: Table, words: seq<string>, op: string)
    requires AllRules(t, words)
    ensures SplitArgs(Join(words + [op]))
         == match SplitArgs(op) { case None => None case Some(ws) => Some(words + ws) }
  {
    hide IsRule, SplitArgs, Join;
    JoinOne(op);
    if words == [] {
      assert words + [op] == [op];
      assert SplitArgs(op).Some? ==> [] + SplitArgs(op).value == SplitArgs(op).value;
    } else {
      forall i | 0 <= i < |words| ensures CleanWord(words[i]) {
        RuleIsClean(t, words[i]);
      }
      JoinAppend(words, [op]);
      CleanWordsFirst(words, op);
    }
  }

  /**
   The original notices the loss after exactly these accepted operations: those with a blank or
   a quote that cannot be split, or of which a piece is refused, or whose pieces change a bit.
   */
  lemma PassesExactly(t: Table, v: View, op: string)
    requires WellFormed(t) && Good(t, v) && Lower(op) == op && Classify(t, op).Rule? && NUL !in op
    ensures
      var v' := Step(v, Classify(t, op));
      && |v'.bits| == COUNT
      && (Passes(t, v') <==>
            Clean(op) ||
            (SplitArgs(op).Some? && AllAccepted(t, SplitArgs(op).value) && History(t, v, SplitArgs(op).value).bits == v.bits))
  {
    hide Good, WellFormed, Classify, SplitArgs, History, Clean, Step, AllAccepted, Words, Join;
    var v' := Step(v, Classify(t, op));
    if Clean(op) {
      StepKeepsGood(t, v, op);
      GoodPasses(t, v');
    } else {
      GoodSizes(t, v);
      UncleanLog(t, v, op);
      var words := Words(v.text);
      SplitOfLog(t, words, op);
      if SplitArgs(op).Some? {
        var ws := SplitArgs(op).value;
        GoodPasses(t, v);
        LogIsGood(t, v);
        LogSplits(t, v.text);
        var start := Blank(v.bits[RESERVED]);
        HistoryAppends(t, start, words, ws);
        SameBits(t, History(t, start, words), v, ws);
        AcceptedAppends(t, words, ws);
      }
    }
  }

  lemma AcceptedAppends(t: Table, a: seq<string>, b: seq<string>)
    ensures AllAccepted(t, a + b) <==> AllAccepted(t, a) && AllAccepted(t, b)
  {
    hide Classify;
    assert forall w | w in a :: w in a + b;
    assert forall w | w in b :: w in a + b;
  }

  // ---- an example

  /** A table of one command, and "+select|a b". */
  const EXAMPLE := Table([Command("select", 5, {}, [])], {})

  lemma BlankExample()
    ensures
      var op := "+select|a b";
      && WellFormed(EXAMPLE) && Classify(EXAMPLE, op) == Rule(op, AddFirst(5, "a b"))
      && var v := Step(Blank(false), Classify(EXAMPLE, op));
      && |v.bits| == COUNT && !Rebuilds(EXAMPLE, v) && !Passes(EXAMPLE, v)
  {
    hide *;
    ExampleIsPlain();
    ExampleText();
    ExampleClassified();
    BlankIsGood(EXAMPLE, false);
    RebuildsIffClean(EXAMPLE, Blank(false), "+select|a b");
    PassesExactly(EXAMPLE, Blank(false), "+select|a b");
    ExampleSplits();
    ExampleRefused();
  }

  lemma ExampleIsPlain()
    ensures WellFormed(EXAMPLE)
  {
    var c := EXAMPLE.commands[0];
    assert PlainCommand(c);
  }

  lemma ExampleText()
    ensures var op := "+select|a b"; Lower(op) == op && NUL !in op && !Clean(op)
  {
    assert "+select|a b"[9] == ' ';
  }

  lemma ExampleEffect()
    ensures EffectOf(EXAMPLE, true, "select|a b") == Some(AddFirst(5, "a b"))
  {
    hide Bar, CategoryIds, CategoryClears, Lower;
    var name := "select|a b";
    assert name[..6] == "select" && name[7..] == "a b" && '|' !in "select" && name[6] == '|';
    BarIs(name, 6);
    assert Find(EXAMPLE.commands, "select") == Some(EXAMPLE.commands[0]);
  }

  lemma ExampleClassified()
    ensures var op := "+select|a b"; Classify(EXAMPLE, op) == Rule(op, AddFirst(5, "a b"))
  {
    hide EffectOf, ErrorOf;
    ExampleEffect();
    assert "+select|a b"[1..] == "select|a b";
    assert "+select|a b"[1] == 's' && "allcommands"[0] == 'a' && "nocommands"[0] == 'n';
  }

  lemma BarIs(s: string, n: nat)
    requires n < |s| && s[n] == '|' && '|' !in s[..n]
    ensures Bar(s) == n
  {
  }

  lemma ExampleSplits()
    ensures SplitArgs("+select|a b") == Some(["+select|a", "b"])
  {
    hide SplitArgs, Token;
    var a, b := "+select|a", "b";
    assert "+select|a b" == a + " " + b;
    CleanWordFirst(a, b);
    CleanWordFirst(b, "");
    assert [a] + [b] == [a, b];
  }

  lemma ExampleRefused()
    ensures !AllAccepted(EXAMPLE, ["+select|a", "b"])
  {
    var ws := ["+select|a", "b"];
    assert ws[1] in ws;
    assert Lower("b") == "b";
    assert Classify(EXAMPLE, "b").Reject?;
  }

  lemma KeptAreRules(t: Table, text: string, name: string)
    requires GoodLog(t, text)
    ensures AllRules(t, Kept(Words(text), name))
  {
    hide IsRule, Drops, Words, Canonical;
    KeptIsPart(Words(text), name);
    var kept := Kept(Words(text), name);
    forall i | 0 <= i < |kept| ensures IsRule(t, kept[i]) {
      assert kept[i] in kept;
    }
  }

  lemma RuleIsItsWord(t: Table, op: string)
    requires Classify(t, op).Rule?
    ensures Classify(t, op).word == op && op != ""
  {
  }
}
