/**
 What the operations on a selector mean for the bitmap and the first arguments, said in terms
 of the command table: which bits a name stands for, and that no other bit changes.
 */
module AclMeaning {
  import opened AclRules
  import opened Basics
  import opened Acl

  // --------------------------------------------------------------------- what is named

  /** The bits of a command: its own and those of its subcommands. */
  predicate BitOf(c: Command, i: nat) {
    i == c.id || exists s | s in c.subs :: s.id == i
  }

  predicate IsSub(t: Table, name: string, c: Command, s: Sub) {
    name == c.name + "|" + s.name && Find(t.commands, c.name) == Some(c) && FindSub(c.subs, s.name) == Some(s)
  }

  /** A first argument of a command that has no subcommands. */
  predicate IsArgument(t: Table, name: string, c: Command, arg: string) {
    && name == c.name + "|" + arg && Find(t.commands, c.name) == Some(c)
    && c.subs == [] && arg != "" && '|' !in arg
  }

  predicate IsCategory(t: Table, name: string) {
    name != "" && name[0] == '@' && name != "@all" && name[1..] in t.categories
  }

  /** The bits of a category: those of its commands, and those of its subcommands. */
  predicate BitOfCategory(t: Table, cat: string, i: nat) {
    || (exists c | c in t.commands :: cat in c.categories && BitOf(c, i))
    || SubOfCategory(t, cat, i)
  }

  predicate SubOfCategory(t: Table, cat: string, i: nat) {
    exists c | c in t.commands :: exists s | s in c.subs :: cat in s.categories && s.id == i
  }

  predicate ClearedByCategory(t: Table, cat: string, i: nat) {
    || (exists c | c in t.commands :: cat in c.categories && c.id == i)
    || SubOfCategory(t, cat, i)
  }

  // ---------------------------------------------------------------------- what changes

  /** The part of a selector that decides what may be executed. */
  datatype Permissions = Permissions(bits: seq<bool>, first: seq<set<string>>)

  ghost predicate Sized(p: Permissions) {
    |p.bits| == COUNT && |p.first| == COUNT
  }

  /** "+name" and "-name" of a command: its bits take the value, its first arguments are forgotten. */
  ghost predicate CommandChanged(c: Command, value: bool, p: Permissions, q: Permissions)
    requires Sized(p) && Sized(q)
  {
    forall i: nat | i < COUNT ::
      q.bits[i] == (if BitOf(c, i) then value else p.bits[i]) && q.first[i] == (if i == c.id then {} else p.first[i])
  }

  /** Of a subcommand: its bit alone. */
  ghost predicate SubChanged(s: Sub, value: bool, p: Permissions, q: Permissions)
    requires Sized(p) && Sized(q)
  {
    forall i: nat | i < COUNT ::
      q.bits[i] == (if i == s.id then value else p.bits[i]) && q.first[i] == (if i == s.id then {} else p.first[i])
  }

  ghost predicate CategoryChanged(t: Table, cat: string, value: bool, p: Permissions, q: Permissions)
    requires Sized(p) && Sized(q)
  {
    forall i: nat | i < COUNT ::
      && q.bits[i] == (if BitOfCategory(t, cat, i) then value else p.bits[i])
      && q.first[i] == (if ClearedByCategory(t, cat, i) then {} else p.first[i])
  }

  /** Of a first argument: no bit. */
  ghost predicate ArgumentAdded(c: Command, arg: string, p: Permissions, q: Permissions)
    requires Sized(p) && Sized(q)
  {
    && q.bits == p.bits
    && forall i: nat | i < COUNT :: q.first[i] == if i == c.id then p.first[i] + {arg} else p.first[i]
  }

  ghost predicate AllChanged(value: bool, q: Permissions)
    requires Sized(q)
  {
    forall i: nat | i < COUNT :: q.bits[i] == value && q.first[i] == {}
  }

  ghost predicate RuleObeyed(t: Table, allow: bool, name: string, p: Permissions, q: Permissions)
    requires Sized(p) && Sized(q)
  {
    && (forall c | Find(t.commands, name) == Some(c) :: CommandChanged(c, allow, p, q))
    && (forall c, s | IsSub(t, name, c, s) :: SubChanged(s, allow, p, q))
    && (IsCategory(t, name) ==> CategoryChanged(t, name[1..], allow, p, q))
    && (forall c, arg | allow && IsArgument(t, name, c, arg) :: ArgumentAdded(c, arg, p, q))
  }

  /** "+name" and "-name" are rules for these names and no others. */
  predicate Known(t: Table, allow: bool, name: string) {
    || Find(t.commands, name).Some?
    || (exists c | c in t.commands :: exists s | s in c.subs :: IsSub(t, name, c, s))
    || IsCategory(t, name)
    || (allow && exists c | c in t.commands :: |name| > |c.name| && IsArgument(t, name, c, name[|c.name| + 1..]))
  }

  predicate AllowsAll(op: string) { op == "+@all" || op == "allcommands" }

  predicate DeniesAll(op: string) { op == "-@all" || op == "nocommands" }

  predicate Signed(op: string) { op != "" && (op[0] == '+' || op[0] == '-') }

  /** An operation in lower case did what it says. */
  ghost predicate Obeyed(t: Table, op: string, p: Permissions, q: Permissions)
    requires Sized(p) && Sized(q)
  {
    if AllowsAll(op) || DeniesAll(op) then AllChanged(AllowsAll(op), q)
    else if Signed(op) && Known(t, op[0] == '+', op[1..]) then RuleObeyed(t, op[0] == '+', op[1..], p, q)
    else q == p
  }

  /** The operations that are no error. */
  predicate Accepted(t: Table, op: string) {
    || AllowsAll(op) || DeniesAll(op)
    || (Signed(op) && Known(t, op[0] == '+', op[1..]))
    || (op != "" && op[0] in "~%&") || op in {"allkeys", "resetkeys", "allchannels", "resetchannels"}
  }

  // ------------------------------------------------------------------------- the proof

  function PermissionsOf(v: View): Permissions {
    Permissions(v.bits, v.first)
  }

  lemma {:induction false} CategoryBits(cs: seq<Command>, cat: string, i: nat)
    ensures i in CategoryIds(cs, cat) <==>
      (exists c | c in cs :: cat in c.categories && BitOf(c, i)) || (exists c | c in cs :: exists s | s in c.subs :: cat in s.categories && s.id == i)
    ensures i in CategoryClears(cs, cat) <==>
      (exists c | c in cs :: cat in c.categories && c.id == i) || (exists c | c in cs :: exists s | s in c.subs :: cat in s.categories && s.id == i)
  {
    if cs != [] {
      var n := |cs| - 1;
      CategoryBits(cs[..n], cat, i);
      assert forall c :: c in cs <==> c in cs[..n] || c == cs[n];
    }
  }

  lemma BarOfName(a: string, b: string)
    requires '|' !in a
    ensures Bar(a + "|" + b) == |a| && (a + "|" + b)[..|a|] == a && (a + "|" + b)[|a| + 1..] == b
  {
    var s := a + "|" + b;
    assert s[..|a|] == a;
    BarIs(s, |a|);
  }

  lemma CommandEffect(t: Table, allow: bool, name: string, c: Command)
    requires WellFormed(t) && Find(t.commands, name) == Some(c)
    ensures EffectOf(t, allow, name) == Some(Permit(CommandIds(c), {c.id}, allow))
  {
    hide IsSubId, CategoryIds, CategoryClears, FindSub;
    FoundIsPlain(t, name);
    hide WellFormed;
    BarOfPlain(name);
    assert name[..|name|] == name;
  }

  lemma SubEffect(t: Table, allow: bool, name: string, c: Command, s: Sub)
    requires WellFormed(t) && IsSub(t, name, c, s)
    ensures EffectOf(t, allow, name) == Some(Permit({s.id}, {s.id}, allow))
  {
    hide IsSubId, CategoryIds, CategoryClears, Bar;
    FoundIsPlain(t, c.name);
    hide WellFormed;
    BarOfName(c.name, s.name);
    assert '|' !in s.name;
    assert name[0] == c.name[0];
  }

  lemma ArgumentEffect(t: Table, name: string, c: Command, arg: string)
    requires WellFormed(t) && IsArgument(t, name, c, arg)
    ensures EffectOf(t, true, name) == Some(AddFirst(c.id, arg))
  {
    hide IsSubId, CategoryIds, CategoryClears, Bar, FindSub;
    FoundIsPlain(t, c.name);
    hide WellFormed;
    BarOfName(c.name, arg);
    assert name[0] == c.name[0];
  }

  lemma CategoryEffect(t: Table, allow: bool, name: string)
    requires IsCategory(t, name)
    ensures EffectOf(t, allow, name)
         == Some(Permit(CategoryIds(t.commands, name[1..]), CategoryClears(t.commands, name[1..]), allow))
  {
    hide CategoryIds, CategoryClears;
  }

  /** Whatever is a rule has one of the four forms. */
  lemma RuleIsKnown(t: Table, allow: bool, name: string)
    requires WellFormed(t) && EffectOf(t, allow, name).Some? && name != "@all"
    ensures Known(t, allow, name)
  {
    hide IsSubId, CategoryIds, CategoryClears, Bar, WellFormed;
    if !(name != "" && name[0] == '@') {
      var i := Bar(name);
      var c := Find(t.commands, name[..i]).value;
      if i == |name| {
        assert name[..i] == name;
      } else {
        assert name == c.name + "|" + name[i + 1..];
        if c.subs != [] {
          var s := FindSub(c.subs, name[i + 1..]).value;
          assert IsSub(t, name, c, s);
        }
      }
    }
  }

  lemma KnownIsRule(t: Table, allow: bool, name: string)
    requires WellFormed(t) && Known(t, allow, name)
    ensures EffectOf(t, allow, name).Some? && name != "@all"
  {
    hide EffectOf, IsSubId, IsSub, IsArgument;
    if Find(t.commands, name).Some? {
      CommandEffect(t, allow, name, Find(t.commands, name).value);
      FoundIsPlain(t, name);
    } else if c, s :| c in t.commands && s in c.subs && IsSub(t, name, c, s) {
      SubEffect(t, allow, name, c, s);
      NotAll(t, name, c, s.name);
    } else if IsCategory(t, name) {
      CategoryEffect(t, allow, name);
    } else {
      var c :| c in t.commands && |name| > |c.name| && IsArgument(t, name, c, name[|c.name| + 1..]);
      ArgumentEffect(t, name, c, name[|c.name| + 1..]);
      NotAll(t, name, c, name[|c.name| + 1..]);
    }
  }

  lemma NotAll(t: Table, name: string, c: Command, rest: string)
    requires (exists s :: IsSub(t, name, c, s) && s.name == rest) || IsArgument(t, name, c, rest)
    ensures name != "@all"
  {
    assert name == c.name + "|" + rest;
    assert name[|c.name|] == '|';
  }

  /** Applying the effect of a name does what the name stands for. */
  lemma EffectObeys(t: Table, allow: bool, name: string, v: View)
    requires WellFormed(t) && |v.bits| == COUNT && |v.first| == COUNT && EffectOf(t, allow, name).Some?
    ensures
      var q := PermissionsOf(Applied(v, EffectOf(t, allow, name).value));
      Sized(q) && RuleObeyed(t, allow, name, PermissionsOf(v), q)
  {
    hide EffectOf, IsSub, IsArgument, IsCategory, WellFormed, CategoryIds, CategoryClears, BitOfCategory, ClearedByCategory;
    var p, q := PermissionsOf(v), PermissionsOf(Applied(v, EffectOf(t, allow, name).value));
    forall c | Find(t.commands, name) == Some(c) ensures CommandChanged(c, allow, p, q) {
      CommandEffect(t, allow, name, c);
    }
    forall c, s | IsSub(t, name, c, s) ensures SubChanged(s, allow, p, q) {
      SubEffect(t, allow, name, c, s);
    }
    if IsCategory(t, name) {
      CategoryEffect(t, allow, name);
      assert name != "" by { CategoryHasName(t, name); }
      forall i: nat | i < COUNT
        ensures i in CategoryIds(t.commands, name[1..]) <==> BitOfCategory(t, name[1..], i)
        ensures i in CategoryClears(t.commands, name[1..]) <==> ClearedByCategory(t, name[1..], i)
      {
        BitsOfCategory(t, name[1..], i);
      }
    }
    forall c, arg | allow && IsArgument(t, name, c, arg) ensures ArgumentAdded(c, arg, p, q) {
      ArgumentEffect(t, name, c, arg);
    }
  }

  lemma CategoryHasName(t: Table, name: string)
    requires IsCategory(t, name)
    ensures name != ""
  {
  }

  lemma BitsOfCategory(t: Table, cat: string, i: nat)
    ensures i in CategoryIds(t.commands, cat) <==> BitOfCategory(t, cat, i)
    ensures i in CategoryClears(t.commands, cat) <==> ClearedByCategory(t, cat, i)
  {
    hide BitOf, CategoryIds, CategoryClears;
    CategoryBits(t.commands, cat, i);
  }

  /** Every operation, accepted or not, does what it says, and is refused exactly if it says nothing. */
  lemma OperationObeyed(t: Table, v: View, op: string)
    requires WellFormed(t) && |v.bits| == COUNT && |v.first| == COUNT
    ensures
      var q := PermissionsOf(Step(v, Classify(t, op)));
      Sized(q) && Obeyed(t, op, PermissionsOf(v), q)
    ensures Classify(t, op).Reject? <==> !Accepted(t, op)
  {
    hide EffectOf, WellFormed, RuleObeyed, Known, ErrorOf, Applied, Logged;
    if !AllowsAll(op) && !DeniesAll(op) && Signed(op) {
      var allow, name := op[0] == '+', op[1..];
      assert op == [op[0]] + name;
      assert name != "@all";
      if EffectOf(t, allow, name).Some? {
        RuleIsKnown(t, allow, name);
        EffectObeys(t, allow, name, v);
      } else if Known(t, allow, name) {
        KnownIsRule(t, allow, name);
      }
    }
  }

  /** A command or a subcommand that was found, allowed or denied. */
  ghost predicate TargetChanged(target: Target, value: bool, p: Permissions, q: Permissions)
    requires Sized(p) && Sized(q)
  {
    match target
    case Whole(c) => CommandChanged(c, value, p, q)
    case Part(_, s) => SubChanged(s, value, p, q)
  }

  lemma TargetObeyed(v: View, target: Target, allow: bool, word: string)
    requires |v.bits| == COUNT && |v.first| == COUNT
    ensures
      var q := PermissionsOf(Step(v, Rule(word, TargetEffect(target, allow))));
      Sized(q) && TargetChanged(target, allow, PermissionsOf(v), q)
  {
    hide Logged;
  }

  // ------------------------------------------------- the flag that allows every command

  lemma IdsAreBits(t: Table, allow: bool, name: string, i: nat)
    requires WellFormed(t) && EffectOf(t, allow, name).Some? && EffectOf(t, allow, name).value.Permit?
    requires i in EffectOf(t, allow, name).value.ids
    ensures i < COUNT
  {
    hide CategoryIds, CategoryClears, IsSubId, Bar;
    if name != "" && name[0] == '@' {
      CategoryBits(t.commands, name[1..], i);
    }
  }

  predicate FlagAfter(op: string, was: bool, bits: seq<bool>)
    requires |bits| == COUNT
  {
    AllowsAll(op) || (!DeniesAll(op) && was && forall i | 0 <= i < COUNT :: bits[i])
  }

  /** The flag stands for the whole bitmap: a selector has it if it was allowed everything and nothing was denied since. */
  lemma FlagFollows(t: Table, v: View, op: string)
    requires WellFormed(t) && |v.bits| == COUNT && |v.first| == COUNT
    requires v.all ==> forall i | 0 <= i < COUNT :: v.bits[i]
    ensures
      var q := Step(v, Classify(t, op));
      |q.bits| == COUNT && (q.all <==> FlagAfter(op, v.all, q.bits))
  {
    hide EffectOf, WellFormed, Logged, ErrorOf;
    var q := Step(v, Classify(t, op));
    if Classify(t, op).Rule? && Classify(t, op).effect.Permit? && !Classify(t, op).effect.allow {
      var ids := Classify(t, op).effect.ids;
      if i :| i in ids {
        IdsAreBits(t, op[0] == '+', op[1..], i);
        assert !q.bits[i];
      }
    }
  }

  // ------------------------------------------------------------------------- the errors

  /** "+sub|rest" of something that is itself a subcommand. */
  predicate UnderSub(t: Table, op: string) {
    && Signed(op) && op[0] == '+' && '|' in op[1..] && op[1] != '@'
    && exists c | c in t.commands :: exists s | s in c.subs :: IsSub(t, op[1..][..LastBar(op[1..])], c, s)
  }

  /** "+command|" without anything after the bar. */
  predicate EmptySub(t: Table, op: string) {
    Signed(op) && op[0] == '+' && |op| > 2 && op[|op| - 1] == '|' && Find(t.commands, op[1..|op| - 1]).Some?
  }

  function ErrorFor(t: Table, op: string): Error {
    if UnderSub(t, op) then Child else if !Signed(op) || EmptySub(t, op) then Invalid else NoEntry
  }

  lemma LookupIsWhole(t: Table, name: string)
    requires WellFormed(t)
    ensures Lookup(t, name).Some? && Lookup(t, name).value.Whole? <==> Find(t.commands, name).Some?
    ensures Lookup(t, name).Some? && Lookup(t, name).value.Part? <==>
      exists c | c in t.commands :: exists s | s in c.subs :: IsSub(t, name, c, s)
  {
    hide IsSubId, WellFormed, Bar, Lower;
    if Find(t.commands, name).Some? {
      FoundIsPlain(t, name);
      BarOfPlain(name);
      assert name[..|name|] == name;
    }
    if c, s :| c in t.commands && s in c.subs && IsSub(t, name, c, s) {
      FoundIsPlain(t, c.name);
      BarOfName(c.name, s.name);
    }
    if Lookup(t, name).Some? {
      var i := Bar(name);
      var c := Find(t.commands, name[..i]).value;
      if i == |name| {
        assert name[..i] == name;
      } else {
        assert IsSub(t, name, c, Lookup(t, name).value.sub);
      }
    }
  }

  /** Which error a refused operation gets. */
  lemma ErrorIs(t: Table, op: string)
    requires WellFormed(t) && Classify(t, op).Reject?
    ensures Classify(t, op).error == ErrorFor(t, op)
  {
    hide EffectOf, WellFormed, Lookup, LastBar, IsSub;
    if Signed(op) && op[0] == '+' {
      var name := op[1..];
      assert op == ['+'] + name;
      if '|' in name {
        var at := LastBar(name);
        LookupIsWhole(t, name[..at]);
        if op[|op| - 1] == '|' {
          LastIsLast(name);
          assert op[1..|op| - 1] == name[..at];
        } else {
          assert name[|name| - 1] != '|';
        }
        if Find(t.commands, name[..at]).Some? {
          FoundIsPlain(t, name[..at]);
          assert at > 0 && name[..at][0] == name[0];
        }
        assert EmptySub(t, op) <==> at == |name| - 1 && Find(t.commands, name[..at]).Some?;
      }
    }
  }

  lemma LastIsLast(s: string)
    requires s != "" && s[|s| - 1] == '|'
    ensures LastBar(s) == |s| - 1
  {
  }
}
