/** The selector object: the operations of src/acl.c, changing the bitmap, the first arguments and the log in place. */
module AclSelector {
  import opened AclRules
  import opened SdsSplit
  import opened Acl
  import opened AclMeaning
  import opened Basics

  function LowerSet(args: seq<string>): set<string> {
    set s | s in args :: Lower(s)
  }

  function LowerSets(first: seq<seq<string>>): (r: seq<set<string>>)
    ensures |r| == |first|
  {
    seq(|first|, i requires 0 <= i < |first| => LowerSet(first[i]))
  }

  lemma SetBitsTwice(bits: seq<bool>, a: set<nat>, b: set<nat>, value: bool)
    ensures SetBits(SetBits(bits, a, value), b, value) == SetBits(bits, a + b, value)
  {
  }

  lemma ClearTwice(first: seq<set<string>>, a: set<nat>, b: set<nat>)
    ensures Clear(Clear(first, a), b) == Clear(first, a + b)
  {
  }

  lemma NothingChanges(bits: seq<bool>, first: seq<set<string>>, value: bool)
    ensures SetBits(bits, {}, value) == bits && Clear(first, {}) == first
  {
  }

  lemma OneListChanged(first: seq<seq<string>>, id: nat, args: seq<string>)
    requires id < |first|
    ensures LowerSets(first[id := args]) == LowerSets(first)[id := LowerSet(args)]
  {
  }

  lemma AddAgain(first: seq<set<string>>, id: nat, arg: string)
    requires id < |first| && arg in first[id]
    ensures Add(first, id, arg) == first
  {
    assert first[id] + {arg} == first[id];
  }

  lemma NoArguments()
    ensures LowerSet([]) == {}
  {
  }

  lemma LowerSetAppend(args: seq<string>, s: string)
    ensures LowerSet(args + [s]) == LowerSet(args) + {Lower(s)}
  {
  }

  class Selector {
    const table: Table
    var allowed: array<bool>            // allowed_commands, one entry per bit
    var firstArgs: array<seq<string>>   // allowed_firstargs
    var rules: array<char>              // command_rules
    var rulesLen: nat
    var all: bool                       // SELECTOR_FLAG_ALLCOMMANDS

    ghost predicate Valid()
      reads this, allowed, firstArgs, rules
    {
      && WellFormed(table)
      && allowed.Length == COUNT && firstArgs.Length == COUNT
      && rulesLen < rules.Length && Holds(rules, rules[..rulesLen])
    }

    ghost function First(): (r: seq<set<string>>)
      reads this, firstArgs
      ensures |r| == firstArgs.Length
    {
      LowerSets(firstArgs[..])
    }

    ghost function Text(): string
      reads this, rules
      requires rulesLen < rules.Length
    {
      rules[..rulesLen]
    }

    ghost function State(): View
      reads this, allowed, firstArgs, rules
      requires Valid()
    {
      View(allowed[..], First(), Text(), all)
    }

    /** What the selector allows. */
    ghost function Permits(): Permissions
      reads this, allowed, firstArgs
    {
      Permissions(allowed[..], First())
    }

    constructor (t: Table)
      requires WellFormed(t)
      ensures Valid() && table == t && State() == Blank(false)
      ensures fresh(allowed) && fresh(firstArgs) && fresh(rules)
    {
      table := t;
      allowed := new bool[COUNT](i => false);
      firstArgs := new seq<string>[COUNT](i => []);
      rules := new char[1](i => NUL);
      rulesLen, all := 0, false;
      new;
      NoArguments();
      assert First() == Blank(false).first;
      assert allowed[..] == Blank(false).bits;
    }

    /** `ACLSetSelectorCommandBit`. */
    method SetCommandBit(id: nat, value: bool)
      requires allowed.Length == COUNT
      modifies allowed, `all
      ensures allowed[..] == SetBits(old(allowed[..]), {id}, value)
      ensures all == if id < COUNT then old(all) && value else old(all)
    {
      if id >= COUNT {
        return;
      }
      allowed[id] := value;
      if !value {
        all := false;
      }
    }

    /** `ACLResetFirstArgsForCommand`. */
    method ResetFirstArgsForCommand(id: nat)
      requires id < firstArgs.Length
      modifies firstArgs
      ensures First() == Clear(old(First()), {id})
    {
      ghost var before := firstArgs[..];
      firstArgs[id] := [];
      assert firstArgs[..] == before[id := []];
      OneListChanged(before, id, []);
      NoArguments();
    }

    /** `ACLChangeSelectorPerm`: a command and its subcommands. */
    method ChangeSelectorPerm(id: nat, subs: seq<Sub>, allow: bool)
      requires allowed.Length == COUNT && firstArgs.Length == COUNT
      requires id < COUNT && forall s | s in subs :: s.id < COUNT
      modifies allowed, firstArgs, `all
      ensures allowed[..] == SetBits(old(allowed[..]), {id} + SubIds(subs), allow)
      ensures First() == Clear(old(First()), {id})
      ensures all == (old(all) && allow)
    {
      ghost var bits := allowed[..];
      SetCommandBit(id, allow);
      ResetFirstArgsForCommand(id);
      assert {id} + SubIds(subs[..0]) == {id};
      for k := 0 to |subs|
        invariant allowed[..] == SetBits(bits, {id} + SubIds(subs[..k]), allow)
        invariant First() == Clear(old(First()), {id})
        invariant all == (old(all) && allow)
      {
        assert subs[k] in subs;
        SetCommandBit(subs[k].id, allow);
        SetBitsTwice(bits, {id} + SubIds(subs[..k]), {subs[k].id}, allow);
        assert subs[..k + 1] == subs[..k] + [subs[k]];
        assert {id} + SubIds(subs[..k + 1]) == {id} + SubIds(subs[..k]) + {subs[k].id};
      }
      assert subs[..|subs|] == subs;
    }

    /** `ACLSetSelectorCommandBitsForCategory` on the subcommands of one command. */
    method SetSubBitsForCategory(subs: seq<Sub>, cat: string, value: bool)
      requires allowed.Length == COUNT && firstArgs.Length == COUNT
      requires forall s | s in subs :: s.id < COUNT
      modifies allowed, firstArgs, `all
      ensures allowed[..] == SetBits(old(allowed[..]), CategorySubs(subs, cat), value)
      ensures First() == Clear(old(First()), CategorySubs(subs, cat))
      ensures all == (old(all) && (value || CategorySubs(subs, cat) == {}))
    {
      ghost var bits, first := allowed[..], First();
      NothingChanges(bits, first, value);
      assert CategorySubs(subs[..0], cat) == {};
      for k := 0 to |subs|
        invariant allowed[..] == SetBits(bits, CategorySubs(subs[..k], cat), value)
        invariant First() == Clear(first, CategorySubs(subs[..k], cat))
        invariant all == (old(all) && (value || CategorySubs(subs[..k], cat) == {}))
      {
        ghost var done := CategorySubs(subs[..k], cat);
        assert subs[..k + 1] == subs[..k] + [subs[k]];
        assert subs[k] in subs;
        if cat in subs[k].categories {
          ChangeSelectorPerm(subs[k].id, [], value);
          assert {subs[k].id} + SubIds([]) == {subs[k].id};
          SetBitsTwice(bits, done, {subs[k].id}, value);
          ClearTwice(first, done, {subs[k].id});
          assert CategorySubs(subs[..k + 1], cat) == done + {subs[k].id};
        } else {
          assert CategorySubs(subs[..k + 1], cat) == done;
        }
      }
      assert subs[..|subs|] == subs;
    }

    /** `ACLSetSelectorCommandBitsForCategory` on one command of the table. */
    method SetCommandForCategory(c: Command, cat: string, value: bool)
      requires allowed.Length == COUNT && firstArgs.Length == COUNT && PlainCommand(c)
      modifies allowed, firstArgs, `all
      ensures allowed[..] == SetBits(old(allowed[..]), CategoryIdsOf(c, cat), value)
      ensures First() == Clear(old(First()), CategoryClearsOf(c, cat))
      ensures all == (old(all) && (value || CategoryIdsOf(c, cat) == {}))
    {
      ghost var bits, first := allowed[..], First();
      ghost var ids, clears: set<nat> := {}, {};
      NothingChanges(bits, first, value);
      if cat in c.categories {
        ChangeSelectorPerm(c.id, c.subs, value);
        ids, clears := CommandIds(c), {c.id};
      }
      SetSubBitsForCategory(c.subs, cat, value);
      SetBitsTwice(bits, ids, CategorySubs(c.subs, cat), value);
      ClearTwice(first, clears, CategorySubs(c.subs, cat));
    }

    /** `ACLSetSelectorCommandBitsForCategory`. */
    method SetBitsForCategory(cat: string, value: bool)
      requires Valid()
      modifies allowed, firstArgs, `all
      ensures allowed[..] == SetBits(old(allowed[..]), CategoryIds(table.commands, cat), value)
      ensures First() == Clear(old(First()), CategoryClears(table.commands, cat))
      ensures all == (old(all) && (value || CategoryIds(table.commands, cat) == {}))
    {
      ghost var bits, first := allowed[..], First();
      var cs := table.commands;
      NothingChanges(bits, first, value);
      for k := 0 to |cs|
        invariant allowed[..] == SetBits(bits, CategoryIds(cs[..k], cat), value)
        invariant First() == Clear(first, CategoryClears(cs[..k], cat))
        invariant all == (old(all) && (value || CategoryIds(cs[..k], cat) == {}))
      {
        assert cs[k] in table.commands;
        SetCommandForCategory(cs[k], cat, value);
        SetBitsTwice(bits, CategoryIds(cs[..k], cat), CategoryIdsOf(cs[k], cat), value);
        ClearTwice(first, CategoryClears(cs[..k], cat), CategoryClearsOf(cs[k], cat));
        assert cs[..k + 1][..k] == cs[..k];
      }
      assert cs[..|cs|] == cs;
    }

    /** `ACLAddAllowedFirstArg`: not again if it is there in any case. */
    method AddAllowedFirstArg(id: nat, sub: string)
      requires id < firstArgs.Length
      modifies firstArgs
      ensures First() == Add(old(First()), id, Lower(sub))
      ensures forall i | 0 <= i < firstArgs.Length && i != id :: firstArgs[i] == old(firstArgs[i])
      ensures firstArgs[id] == old(firstArgs[id]) || (firstArgs[id] == old(firstArgs[id]) + [sub] && Lower(sub) !in old(First())[id])
    {
      ghost var before := firstArgs[..];
      var items := 0;
      while items < |firstArgs[id]|
        invariant 0 <= items <= |firstArgs[id]|
        invariant Lower(sub) !in LowerSet(firstArgs[id][..items])
        invariant firstArgs[..] == before
      {
        if Lower(firstArgs[id][items]) == Lower(sub) {
          assert Lower(sub) in LowerSet(firstArgs[id]);
          AddAgain(First(), id, Lower(sub));
          return;
        }
        assert firstArgs[id][..items + 1] == firstArgs[id][..items] + [firstArgs[id][items]];
        LowerSetAppend(firstArgs[id][..items], firstArgs[id][items]);
        items := items + 1;
      }
      assert firstArgs[id][..items] == firstArgs[id];
      LowerSetAppend(firstArgs[id], sub);
      firstArgs[id] := firstArgs[id] + [sub];
      assert firstArgs[..] == before[id := before[id] + [sub]];
      OneListChanged(before, id, before[id] + [sub]);
    }

    /** sdscat of a blank and the new rule. */
    method AppendRule(word: string)
      requires rulesLen < rules.Length && Holds(rules, Text()) && NUL !in word
      modifies `rules, `rulesLen
      ensures fresh(rules) && rulesLen < rules.Length && Holds(rules, Text())
      ensures Text() == old(Text()) + (if old(Text()) == "" then "" else " ") + word
    {
      var text := rules[..rulesLen] + (if rulesLen > 0 then " " else "") + word;
      var grown := new char[|text| + 1](i => NUL);
      for i := 0 to |text|
        invariant grown[..i] == text[..i]
        invariant grown[|text|] == NUL
      {
        grown[i] := text[i];
      }
      assert text[..|text|] == text;
      rules, rulesLen := grown, |text|;
    }

    /** `ACLUpdateCommandRules`. */
    method UpdateCommandRules(rule: string, allow: bool)
      requires rulesLen < rules.Length && Holds(rules, Text()) && Tidy(Text()) && NUL !in rule
      modifies rules, `rules, `rulesLen
      ensures fresh(rules) && rulesLen < rules.Length && Holds(rules, Text())
      ensures Text() == Join(Updated(Words(old(Text())), Sign(allow) + Lower(rule)))
    {
      var newRule := Lower(rule);
      LowerAddsNothing(rule);
      ghost var words := Words(Text());
      rulesLen := RemoveCommandRule(rules, newRule, Text());
      AppendRule(Sign(allow) + newRule);
      Appended(Kept(words, newRule), Sign(allow) + newRule);
      assert (Sign(allow) + newRule)[1..] == newRule;
    }

    /** +@all and -@all: every bit, the log and the first arguments at once. */
    method ResetAll(value: bool)
      requires Valid()
      modifies this, allowed, firstArgs
      ensures Valid() && State() == Blank(value)
      ensures allowed == old(allowed) && firstArgs == old(firstArgs) && fresh(rules)
    {
      var bits, first := allowed, firstArgs;
      for i := 0 to COUNT
        modifies bits
        invariant forall j | 0 <= j < i :: bits[j] == value
      {
        bits[i] := value;
      }
      all := value;
      for i := 0 to COUNT
        modifies first
        invariant forall j | 0 <= j < i :: first[j] == []
      {
        first[i] := [];
      }
      NoArguments();
      rules := new char[1](i => NUL);
      rulesLen := 0;
      assert First() == Blank(value).first;
      assert allowed[..] == Blank(value).bits;
    }

    /** `ACLChangeSelectorPerm` and `ACLUpdateCommandRules` for a command that was found. */
    method ChangeAndLog(target: Target, name: string, allow: bool)
      requires Valid() && Tidy(Text()) && NUL !in name && PlainTarget(target)
      modifies this, allowed, firstArgs, rules
      ensures Valid() && State() == Step(old(State()), Rule(Sign(allow) + Lower(name), TargetEffect(target, allow)))
      ensures allowed == old(allowed) && firstArgs == old(firstArgs) && fresh(rules)
      ensures Sized(Permits()) && old(Sized(Permits())) && TargetChanged(target, allow, old(Permits()), Permits())
    {
      TargetObeyed(State(), target, allow, Sign(allow) + Lower(name));
      assert PermissionsOf(State()) == Permits();
      hide WellFormed, PlainName, Tidy, TargetChanged, Sized;
      match target {
        case Whole(c) => ChangeSelectorPerm(c.id, c.subs, allow);
        case Part(_, s) =>
          ChangeSelectorPerm(s.id, [], allow);
          assert {s.id} + SubIds([]) == {s.id};
      }
      UpdateCommandRules(name, allow);
    }

    /** The branch for "+name", where `name` is not a category. */
    method AllowCommand(name: string) returns (error: Option<Error>)
      requires Valid() && Tidy(Text()) && NUL !in name && (name == "" || name[0] != '@')
      modifies this, allowed, firstArgs, rules
      ensures Valid() && State() == Step(old(State()), Classify(table, "+" + Lower(name)))
      ensures error == ErrorIn(Classify(table, "+" + Lower(name)))
      ensures allowed == old(allowed) && firstArgs == old(firstArgs) && (rules == old(rules) || fresh(rules))
    {
      hide Classify, WellFormed, Tidy, Lookup, EffectOf, Applied, Lower, Join, Words, Updated, Add, LowerSets, TargetEffect, LastBar;
      var low := Lower(name);
      LowerKeepsBars(name);
      if '|' !in name {
        var target := Lookup(table, low);
        ClassifyWithoutBar(table, true, low);
        if target.None? {
          return Some(NoEntry);
        }
        FoundTarget(table, low);
        LowerTwice(name);
        LowerAddsNothing(name);
        ChangeAndLog(target.value, FullName(target.value), true);
      } else {
        var at := LastBar(name);
        SameLastBar(name);
        var copy, sub := low[..at], name[at + 1..];
        var target := Lookup(table, copy);
        ClassifyWithBar(table, low);
        if target.None? {
          return Some(NoEntry);
        } else if target.value.Part? {
          return Some(Child);
        } else if sub == "" {
          return Some(Invalid);
        } else if target.value.cmd.subs != [] {
          var exact := Lookup(table, low);
          if exact.None? {
            return Some(NoEntry);
          }
          FoundTarget(table, low);
          ChangeAndLog(exact.value, name, true);
        } else {
          FoundTarget(table, copy);
          LowerOfRest(name, at + 1);
          AddAllowedFirstArg(target.value.cmd.id, sub);
          UpdateCommandRules(name, true);
          RuleApplied(old(State()), "+" + low, target.value.cmd.id, low[at + 1..]);
        }
      }
      error := None;
    }

    /** The branch for "-name", where `name` is not a category. */
    method DenyCommand(name: string) returns (error: Option<Error>)
      requires Valid() && Tidy(Text()) && NUL !in name && (name == "" || name[0] != '@')
      modifies this, allowed, firstArgs, rules
      ensures Valid() && State() == Step(old(State()), Classify(table, "-" + Lower(name)))
      ensures error == ErrorIn(Classify(table, "-" + Lower(name)))
      ensures allowed == old(allowed) && firstArgs == old(firstArgs) && (rules == old(rules) || fresh(rules))
    {
      hide Classify, WellFormed, Tidy, Lookup, EffectOf, Applied, Lower, Join, Words;
      var low := Lower(name);
      LowerKeepsBars(name);
      ClassifyDeny(table, low);
      var target := Lookup(table, low);
      if target.None? {
        return Some(NoEntry);
      }
      FoundTarget(table, low);
      LowerTwice(name);
      LowerAddsNothing(name);
      ChangeAndLog(target.value, FullName(target.value), false);
      error := None;
    }

    /** `ACLSetSelectorCategory`. */
    method SetCategory(name: string, allow: bool) returns (error: Option<Error>)
      requires Valid() && Tidy(Text()) && NUL !in name && name != "" && name[0] == '@' && Lower(name) != "@all"
      modifies this, allowed, firstArgs, rules
      ensures Valid() && State() == Step(old(State()), Classify(table, Sign(allow) + Lower(name)))
      ensures error == ErrorIn(Classify(table, Sign(allow) + Lower(name)))
      ensures allowed == old(allowed) && firstArgs == old(firstArgs) && (rules == old(rules) || fresh(rules))
    {
      hide Classify, WellFormed, Tidy, EffectOf, Lower, Join, Words, CategoryIds, CategoryClears;
      var low := Lower(name);
      LowerKeepsBars(name);
      ClassifyCategory(table, allow, low);
      if low[1..] !in table.categories {
        return Some(NoEntry);
      }
      UpdateCommandRules(name, allow);
      SetBitsForCategory(low[1..], allow);
      error := None;
    }

    /** `ACLSetSelector` for operations on commands; key and channel operations leave this state alone. */
    method SetSelector(op: string) returns (error: Option<Error>)
      requires Valid() && Tidy(Text()) && NUL !in op
      modifies this, allowed, firstArgs, rules
      ensures Valid() && State() == Step(old(State()), Classify(table, Lower(op)))
      ensures error == ErrorIn(Classify(table, Lower(op)))
      ensures allowed == old(allowed) && firstArgs == old(firstArgs) && (rules == old(rules) || fresh(rules))
      ensures Sized(Permits()) && old(Sized(Permits()))
      ensures Obeyed(table, Lower(op), old(Permits()), Permits())
      ensures (old(all) ==> forall i | 0 <= i < COUNT :: old(Permits()).bits[i]) ==>
        (all <==> FlagAfter(Lower(op), old(all), Permits().bits))
      ensures error.None? <==> Accepted(table, Lower(op))
      ensures error.Some? ==> error.value == ErrorFor(table, Lower(op))
    {
      OperationObeyed(table, State(), Lower(op));
      if all ==> forall i | 0 <= i < COUNT :: State().bits[i] {
        FlagFollows(table, State(), Lower(op));
      }
      if Classify(table, Lower(op)).Reject? {
        ErrorIs(table, Lower(op));
      }
      assert PermissionsOf(State()) == Permits();
      hide FlagAfter, Obeyed, Accepted, Sized, ErrorFor, Classify, WellFormed, Tidy, Join, Words, Step, Lower;
      var low := Lower(op);
      LowerOfFirst(op);
      ClassifyOther(table, low);
      if low == "allcommands" || low == "+@all" {
        ResetAll(true);
        StepResets(old(State()), true);
        error := None;
      } else if low == "nocommands" || low == "-@all" {
        ResetAll(false);
        StepResets(old(State()), false);
        error := None;
      } else if op == "" {
        assert low == "";
        StepRejects(State(), Classify(table, low));
        error := Some(Invalid);
      } else if op[0] == '+' && (|op| == 1 || op[1] != '@') {
        error := AllowCommand(op[1..]);
      } else if op[0] == '-' && (|op| == 1 || op[1] != '@') {
        error := DenyCommand(op[1..]);
      } else if op[0] == '+' || op[0] == '-' {
        error := SetCategory(op[1..], op[0] == '+');
      } else {
        StepRejects(State(), Classify(table, low));
        error := ErrorIn(Classify(table, low));
      }
    }

    /** A new selector after +@all or -@all. */
    static method Started(t: Table, start: bool) returns (s: Selector)
      requires WellFormed(t)
      ensures fresh(s) && fresh(s.allowed) && fresh(s.firstArgs) && fresh(s.rules)
      ensures s.Valid() && s.table == t && s.State() == Blank(start)
    {
      hide WellFormed, Classify, Lower, Step;
      s := new Selector(t);
      StartsBlank(t, start);
      var error := s.SetSelector(Sign(start) + "@all");
    }

    /**
     `ACLDescribeSelectorCommandRules`: a second selector replays the log. No rule of the log is
     refused and the bitmaps agree, so neither the assertion nor the panic of the original is reached.
     */
    method DescribeCommandRules() returns (description: string, matches: bool)
      requires Valid() && Good(table, State())
      ensures matches
      ensures description == Sign(allowed[RESERVED]) + "@all" + (if Text() == "" then "" else " " + Text())
    {
      hide WellFormed, Good, Classify, Lower, Words, Join, Split, Step, Blank;
      ghost var v := State();
      LogIsGood(table, v);
      var error: Option<Error>;
      var start := allowed[RESERVED];
      var fake := Started(table, start);
      BlankIsGood(table, start);
      assert fake.State().text == fake.Text();
      NoWords();
      LogSplits(table, Text());
      var argv := SplitArgs(rules[..rulesLen]).value;
      for i := 0 to |argv|
        invariant fake.Valid() && fake.table == table && Good(table, fake.State())
        invariant fresh(fake) && fresh(fake.allowed) && fresh(fake.firstArgs) && fresh(fake.rules)
        invariant Words(fake.Text()) == argv[..i]
        invariant fake.allowed[RESERVED] == start
      {
        LogIsGood(table, fake.State());
        ghost var f := fake.State();
        RuleIsLower(table, argv[i]);
        ReplayOne(table, f, argv[i], argv, i);
        error := fake.SetSelector(argv[i]);
        assert error.None?;
        assert fake.State().bits[RESERVED] == fake.allowed[RESERVED];
        assert argv[..i + 1] == argv[..i] + [argv[i]];
      }
      assert argv[..|argv|] == argv;
      SameLogSameView(table, v, fake.State());
      matches := fake.allowed[..] == allowed[..];
      description := Sign(start) + "@all" + (if rulesLen > 0 then " " + rules[..rulesLen] else "");
    }
  }

  lemma Appended(kept: seq<string>, word: string)
    requires AllWords(kept)
    ensures Join(kept + [word]) == Join(kept) + (if Join(kept) == "" then "" else " ") + word
  {
    WordsOfJoin(kept);
    if kept == [] {
      assert kept + [word] == [word];
    } else {
      JoinAppend(kept, [word]);
    }
  }

  predicate PlainTarget(target: Target) {
    match target
    case Whole(c) => PlainCommand(c)
    case Part(c, s) => PlainCommand(c) && s in c.subs
  }

  lemma LowerKeepsBars(s: string)
    ensures |Lower(s)| == |s|
    ensures forall i | 0 <= i < |s| :: (Lower(s)[i] == '|' <==> s[i] == '|') && (Lower(s)[i] == '@' <==> s[i] == '@')
    ensures '|' in Lower(s) <==> '|' in s
  {
    forall i | 0 <= i < |s| ensures (Lower(s)[i] == '|' <==> s[i] == '|') && (Lower(s)[i] == '@' <==> s[i] == '@') {
    }
  }

  lemma LowerOfRest(s: string, i: nat)
    requires i <= |s|
    ensures |Lower(s)| == |s| && Lower(s)[i..] == Lower(s[i..])
  {
  }

  lemma LowerOfFirst(s: string)
    ensures |Lower(s)| == |s|
    ensures s != "" && s[0] in "+-" ==> Lower(s) == [s[0]] + Lower(s[1..])
    ensures s != "" ==> (Lower(s)[0] == '+' <==> s[0] == '+') && (Lower(s)[0] == '-' <==> s[0] == '-')
    ensures |s| > 1 ==> (Lower(s)[1] == '@' <==> s[1] == '@')
  {
  }

  lemma SameLastBar(s: string)
    requires '|' in s
    ensures '|' in Lower(s) && LastBar(Lower(s)) == LastBar(s)
  {
    LowerKeepsBars(s);
    assert forall i | LastBar(s) < i < |s| :: s[i] == s[LastBar(s) + 1..][i - LastBar(s) - 1];
    var low := Lower(s);
    assert forall i | LastBar(low) < i < |s| :: low[i] == low[LastBar(low) + 1..][i - LastBar(low) - 1];
  }

  lemma FoundTarget(t: Table, name: string)
    requires WellFormed(t) && Lookup(t, name).Some?
    ensures PlainTarget(Lookup(t, name).value) && FullName(Lookup(t, name).value) == name
    ensures Lookup(t, name).value.Whole? <==> '|' !in name
  {
    hide IsSubId, PlainName;
    var i := Bar(name);
    if i == |name| {
      assert name[..i] == name;
    } else {
      assert name == name[..i] + "|" + name[i + 1..];
    }
  }

  lemma ClassifyWithoutBar(t: Table, allow: bool, low: string)
    requires '|' !in low && (low == "" || low[0] != '@')
    ensures Classify(t, Sign(allow) + low) == match Lookup(t, low) {
      case None => Reject(NoEntry)
      case Some(target) => Rule(Sign(allow) + low, TargetEffect(target, allow))
    }
  {
    hide Lookup, TargetEffect, CategoryIds, CategoryClears;
    SignedIsNotReset(t, allow, low);
    BarOfPlain(low);
  }

  /** With a sign in front, and no category behind it, only the effect of the name matters. */
  lemma SignedIsNotReset(t: Table, allow: bool, low: string)
    requires low != "@all"
    ensures Classify(t, Sign(allow) + low) == match EffectOf(t, allow, low) {
      case None => Reject(ErrorOf(t, allow, low))
      case Some(e) => Rule(Sign(allow) + low, e)
    }
  {
    hide EffectOf, ErrorOf;
    var op := Sign(allow) + low;
    assert op[1..] == low;
    assert "+@all"[1..] == "@all" && "-@all"[1..] == "@all";
    assert op[0] != "allcommands"[0] && op[0] != "nocommands"[0];
  }

  lemma ClassifyDeny(t: Table, low: string)
    requires low == "" || low[0] != '@'
    ensures Classify(t, "-" + low) == match Lookup(t, low) {
      case None => Reject(NoEntry)
      case Some(target) => Rule("-" + low, TargetEffect(target, false))
    }
  {
    hide Lookup, TargetEffect, CategoryIds, CategoryClears;
    SignedIsNotReset(t, false, low);
  }

  lemma ClassifyCategory(t: Table, allow: bool, low: string)
    requires low != "" && low[0] == '@' && low != "@all"
    ensures Classify(t, Sign(allow) + low) ==
      if low[1..] in t.categories
      then Rule(Sign(allow) + low, Permit(CategoryIds(t.commands, low[1..]), CategoryClears(t.commands, low[1..]), allow))
      else Reject(NoEntry)
  {
    hide CategoryIds, CategoryClears, Lookup;
    SignedIsNotReset(t, allow, low);
  }

  /** The decisions of the branch for "+command|something". */
  lemma ClassifyWithBar(t: Table, low: string)
    requires WellFormed(t) && '|' in low && low[0] != '@'
    ensures
      var at := LastBar(low);
      Classify(t, "+" + low) == match Lookup(t, low[..at]) {
        case None => Reject(NoEntry)
        case Some(Part(_, _)) => Reject(Child)
        case Some(Whole(c)) =>
          if at == |low| - 1 then Reject(Invalid)
          else if c.subs == [] then Rule("+" + low, AddFirst(c.id, low[at + 1..]))
          else
            match Lookup(t, low)
            case None => Reject(NoEntry)
            case Some(target) => Rule("+" + low, TargetEffect(target, true))
      }
  {
    hide TargetEffect, CategoryIds, CategoryClears, Classify, Find, FindSub, Bar, LastBar, Lookup, FirstArgument;
    SignedIsNotReset(t, true, low);
    if '|' in low[..LastBar(low)] {
      TwoBars(t, low);
    } else {
      OneBar(t, low);
    }
  }

  lemma TwoBars(t: Table, low: string)
    requires '|' in low && '|' in low[..LastBar(low)]
    ensures Lookup(t, low).None? && FirstArgument(t, true, low).None?
    ensures Lookup(t, low[..LastBar(low)]).Some? ==> Lookup(t, low[..LastBar(low)]).value.Part?
  {
    hide Find, FindSub, Bar, LastBar;
    BarAndLastBar(low);
  }

  lemma OneBar(t: Table, low: string)
    requires WellFormed(t) && '|' in low && '|' !in low[..LastBar(low)]
    ensures
      var at := LastBar(low);
      match Lookup(t, low[..at])
      case None => Lookup(t, low).None? && FirstArgument(t, true, low).None?
      case Some(target) =>
        && target.Whole?
        && (at == |low| - 1 ==> Lookup(t, low).None? && FirstArgument(t, true, low).None?)
        && (target.cmd.subs != [] ==> FirstArgument(t, true, low).None?)
        && (target.cmd.subs == [] ==> Lookup(t, low).None?)
        && (target.cmd.subs == [] && at < |low| - 1 ==> FirstArgument(t, true, low) == Some(AddFirst(target.cmd.id, low[at + 1..])))
  {
    hide Find, FindSub, Bar, LastBar, WellFormed;
    BarAndLastBar(low);
    if LastBar(low) == |low| - 1 {
      NoEmptySub(t, low);
    }
  }

  lemma NoEmptySub(t: Table, low: string)
    requires WellFormed(t) && low != "" && low[|low| - 1] == '|'
    ensures Lookup(t, low).None?
  {
    hide IsSubId;
  }

  lemma BarAndLastBar(low: string)
    requires '|' in low
    ensures
      var at := LastBar(low);
      && ('|' !in low[..at] ==> Bar(low) == at && low[..at][..at] == low[..at] && Bar(low[..at]) == at)
      && ('|' in low[..at] ==> Bar(low) < at && '|' in low[Bar(low) + 1..] && Bar(low[..at]) < at)
  {
    var at, i := LastBar(low), Bar(low);
    assert i < at ==> low[i + 1..][at - i - 1] == '|' && low[..at][i] == '|';
  }

  lemma RuleApplied(v: View, word: string, id: nat, arg: string)
    requires Tidy(v.text) && word != ""
    ensures Step(v, Rule(word, AddFirst(id, arg)))
         == v.(first := Add(v.first, id, arg), text := Join(Updated(Words(v.text), word)))
  {
  }

  lemma StepResets(v: View, all: bool)
    requires Tidy(v.text)
    ensures Step(v, Reset(all)) == Blank(all)
  {
  }

  lemma StepRejects(v: View, d: Decision)
    requires Tidy(v.text) && (d.Reject? || d.Elsewhere?)
    ensures Step(v, d) == v
  {
  }

  /** Where no sign stands in front. */
  lemma ClassifyOther(t: Table, low: string)
    ensures low == "allcommands" || low == "+@all" ==> Classify(t, low) == Reset(true)
    ensures low == "nocommands" || low == "-@all" ==> Classify(t, low) == Reset(false)
    ensures low == "" ==> Classify(t, low) == Reject(Invalid)
    ensures low != "" && low[0] != '+' && low[0] != '-' && low != "allcommands" && low != "nocommands"
      ==> Classify(t, low).Reject? || Classify(t, low).Elsewhere?
  {
    hide EffectOf, ErrorOf;
  }

  lemma StartsBlank(t: Table, all: bool)
    ensures Lower(Sign(all) + "@all") == Sign(all) + "@all"
    ensures Classify(t, Sign(all) + "@all") == Reset(all)
    ensures forall v: View | Tidy(v.text) :: Step(v, Reset(all)) == Blank(all)
    ensures NUL !in Sign(all) + "@all" && Tidy("")
  {
    hide EffectOf, ErrorOf, CategoryIds, CategoryClears;
    assert (Sign(all) + "@all") == if all then "+@all" else "-@all";
  }

  /** `ACLGetCommandID`: ids in order of first use, the reserved one skipped. */
  class CommandIdTable {
    var ids: map<string, nat>
    var nextId: nat

    ghost predicate Valid()
      reads this
    {
      && nextId == (if |ids| < RESERVED then |ids| else |ids| + 1)
      && (forall n | n in ids :: ids[n] < nextId && ids[n] != RESERVED)
      && (forall a, b | a in ids && b in ids && ids[a] == ids[b] :: a == b)
    }

    constructor ()
      ensures Valid() && ids == map[]
    {
      ids, nextId := map[], 0;
    }

    /** Different names get different ids, and no id is the reserved bit. */
    method GetCommandId(name: string) returns (id: nat)
      requires Valid()
      modifies this
      ensures Valid() && Lower(name) in ids && id == ids[Lower(name)] && id != RESERVED
      ensures forall n | n in old(ids) :: n in ids && ids[n] == old(ids)[n]
      ensures ids.Keys == old(ids).Keys + {Lower(name)}
      ensures |ids| <= RESERVED ==> id < RESERVED
    {
      hide Lower;
      var low := Lower(name);
      if low in ids {
        return ids[low];
      }
      id := nextId;
      ids := ids[low := id];
      nextId := nextId + 1;
      if nextId == COUNT - 1 {
        nextId := nextId + 1;
      }
    }
  }
}
