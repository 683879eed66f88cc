/**
 The normalised rule log of an ACL selector: the text kept in `command_rules`, the rules it
 stands for, and the in-place removal of rules that a new rule makes redundant.
 */
module AclRules {

  const NUL := '\0'

  // ------------------------------------------------------------------------- text

  /** The words of a text separated by single spaces; the empty text has none. */
  function Words(text: string): (r: seq<string>) {
    if text == "" then [] else Split(text)
  }

  function Split(text: string): (r: seq<string>)
    ensures |r| > 0
  {
    if text == "" then [""]
    else if text[0] == ' ' then [""] + Split(text[1..])
    else
      var r := Split(text[1..]);
      [[text[0]] + r[0]] + r[1..]
  }

  function Join(words: seq<string>): string {
    if words == [] then ""
    else if |words| == 1 then words[0]
    else words[0] + " " + Join(words[1..])
  }

  /** A word of the log: not empty, and without the separator and the terminator. */
  predicate Word(w: string) {
    w != "" && ' ' !in w && NUL !in w
  }

  predicate AllWords(words: seq<string>) {
    forall i | 0 <= i < |words| :: Word(words[i])
  }

  /** No leading, trailing or double space. */
  predicate Tidy(text: string) {
    AllWords(Words(text))
  }

  lemma SplitWord(w: string, rest: string)
    requires ' ' !in w
    ensures Split(w) == [w]
    ensures Split(w + " " + rest) == [w] + Split(rest)
  {
    if w == "" {
      assert w + " " + rest == " " + rest;
      assert (" " + rest)[1..] == rest;
    } else {
      SplitWord(w[1..], rest);
      assert (w + " " + rest)[1..] == w[1..] + " " + rest;
      assert [w[0]] + w[1..] == w;
    }
  }

  /** Splitting undoes joining. */
  lemma {:induction false} WordsOfJoin(words: seq<string>)
    requires AllWords(words)
    ensures Words(Join(words)) == words
    ensures words != [] ==> Split(Join(words)) == words && Join(words) != ""
    ensures NUL !in Join(words)
  {
    if words != [] {
      assert Word(words[0]);
      SplitWord(words[0], Join(words[1..]));
      if |words| > 1 {
        WordsOfJoin(words[1..]);
        assert words == [words[0]] + words[1..];
      }
    }
  }

  /** Joining undoes splitting. */
  lemma {:induction false} JoinOfWords(text: string)
    ensures Join(Words(text)) == text
    ensures Join(Split(text)) == text
  {
    if text != "" {
      JoinOfWords(text[1..]);
      var r := Split(text[1..]);
      assert text == [text[0]] + text[1..];
      if text[0] == ' ' {
        assert ([""] + r)[1..] == r;
      } else {
        assert ([[text[0]] + r[0]] + r[1..])[1..] == r[1..];
        if |r| > 1 {
          assert [text[0]] + (r[0] + " " + Join(r[1..])) == [text[0]] + r[0] + " " + Join(r[1..]);
        }
      }
    }
  }

  lemma {:induction false} JoinAppend(a: seq<string>, b: seq<string>)
    requires a != [] && b != []
    ensures Join(a + b) == Join(a) + " " + Join(b)
  {
    assert (a + b)[1..] == a[1..] + b;
    if |a| == 1 {
      assert a + b == [a[0]] + b;
    } else {
      JoinAppend(a[1..], b);
      assert a[0] + " " + (Join(a[1..]) + " " + Join(b)) == a[0] + " " + Join(a[1..]) + " " + Join(b);
    }
  }

  // ---------------------------------------------------------------- which rules go

  /** A new rule named `name` makes a rule named `other` redundant: same name, or that name and '|'. */
  predicate Drops(name: string, other: string) {
    other == name || (|other| > |name| && other[..|name|] == name && other[|name|] == '|')
  }

  /** The first character of a word is the sign. */
  function Kept(words: seq<string>, name: string): (r: seq<string>)
    requires AllWords(words)
    ensures AllWords(r)
  {
    if words == [] then []
    else
      var rest := Kept(words[1..], name);
      if Drops(name, words[0][1..]) then rest else [words[0]] + rest
  }

  lemma {:induction false} KeptAppend(a: seq<string>, b: seq<string>, name: string)
    requires AllWords(a) && AllWords(b)
    ensures Kept(a + b, name) == Kept(a, name) + Kept(b, name)
  {
    if a == [] {
      assert a + b == b;
    } else {
      assert (a + b)[1..] == a[1..] + b;
      KeptAppend(a[1..], b, name);
    }
  }

  // ------------------------------------------------------- the NUL-terminated buffer

  /** The buffer starts with `text` and a terminator. */
  predicate Holds(buf: array<char>, text: string)
    reads buf
  {
    |text| < buf.Length && buf[..|text|] == text && buf[|text|] == NUL && NUL !in text
  }

  method StrLen(buf: array<char>, from: nat, ghost text: string) returns (n: nat)
    requires Holds(buf, text) && from <= |text|
    ensures n == |text| - from
  {
    n := 0;
    while buf[from + n] != NUL
      invariant from + n <= |text|
      decreases |text| - n
    {
      assert buf[..|text|][from + n] == text[from + n];
      n := n + 1;
    }
  }

  /** strchr(buf + from, ' '): the first space, or none. */
  method FindSpace(buf: array<char>, from: nat, ghost text: string) returns (at: int)
    requires Holds(buf, text) && from <= |text|
    ensures -1 <= at < |text|
    ensures at == -1 ==> ' ' !in text[from..]
    ensures at >= 0 ==> from <= at && text[at] == ' ' && ' ' !in text[from..at]
  {
    var i := from;
    while buf[i] != NUL && buf[i] != ' '
      invariant from <= i <= |text|
      invariant ' ' !in text[from..i]
      decreases |text| - i
    {
      assert buf[..|text|][i] == text[i];
      i := i + 1;
    }
    assert i < |text| ==> buf[..|text|][i] == text[i];
    at := if buf[i] == ' ' then i else -1;
  }

  /** memmove to a lower position of the same buffer. */
  method MoveDown(buf: array<char>, to: nat, from: nat, n: nat)
    requires to <= from && from + n <= buf.Length
    modifies buf
    ensures buf[..to] == old(buf[..to])
    ensures buf[to..to + n] == old(buf[from..from + n])
  {
    for i := 0 to n
      invariant buf[..to] == old(buf[..to])
      invariant buf[to..to + i] == old(buf[from..from + i])
      invariant buf[to + i..] == old(buf[to + i..])
    {
      assert old(buf[to + i..])[from - to] == old(buf[from + i]);
      assert buf[to + i..][from - to] == buf[from + i];
      buf[to + i] := buf[from + i];
      assert old(buf[from..from + i + 1]) == old(buf[from..from + i]) + [old(buf[from + i])];
      assert buf[to..to + i + 1] == buf[to..to + i] + [buf[to + i]];
    }
  }

  /** memcmp of the first `n` characters. */
  method SamePrefix(buf: array<char>, from: nat, name: string, n: nat) returns (same: bool)
    requires n <= |name| && from + n <= buf.Length
    ensures same <==> buf[from..from + n] == name[..n]
  {
    for i := 0 to n
      invariant buf[from..from + i] == name[..i]
    {
      if buf[from + i] != name[i] {
        assert buf[from..from + n][i] != name[..n][i];
        return false;
      }
      assert buf[from..from + i + 1] == buf[from..from + i] + [buf[from + i]];
    }
    return true;
  }

  /** The test of one existing rule against the new one. */
  method Redundant(buf: array<char>, from: nat, end: nat, name: string, ghost text: string) returns (drop: bool)
    requires Holds(buf, text) && from <= end <= |text|
    ensures drop <==> Drops(name, text[from..end])
  {
    var existingLen := end - from;
    var n := if existingLen < |name| then existingLen else |name|;
    var same := SamePrefix(buf, from, name, n);
    assert buf[from..from + n] == text[from..end][..n] by {
      assert forall i | 0 <= i < n :: buf[from + i] == buf[..|text|][from + i] == text[from..end][i];
    }
    if same {
      assert existingLen > |name| ==> buf[from + |name|] == buf[..|text|][from + |name|] == text[from..end][|name|];
      drop := existingLen == |name| || (existingLen > |name| && buf[from + |name|] == '|');
    } else {
      drop := false;
    }
  }

  /** What comes before the rules that are left, when there are any. */
  ghost function Lead(kept: seq<string>): string {
    if kept == [] then "" else Join(kept) + " "
  }

  /** What comes after a rule. */
  ghost function Tail(rest: seq<string>): string {
    if rest == [] then "" else " " + Join(rest)
  }

  /** Where the rules `rest` start in the text of `kept` and `rest`. */
  ghost function Position(kept: seq<string>, rest: seq<string>): nat {
    if rest == [] then |Join(kept)| else |Lead(kept)|
  }

  lemma JoinFirst(rest: seq<string>)
    requires rest != []
    ensures Join(rest) == rest[0] + Tail(rest[1..])
  {
    if |rest| > 1 {
      assert rest[0] + " " + Join(rest[1..]) == rest[0] + (" " + Join(rest[1..]));
    }
  }

  lemma JoinLead(kept: seq<string>, rest: seq<string>)
    ensures rest != [] ==> Join(kept + rest) == Lead(kept) + Join(rest)
    ensures rest == [] ==> Join(kept + rest) == Join(kept)
  {
    if rest == [] {
      assert kept + rest == kept;
    } else if kept == [] {
      assert kept + rest == rest;
    } else {
      JoinAppend(kept, rest);
    }
  }

  lemma Shape(kept: seq<string>, rest: seq<string>)
    requires rest != []
    ensures Join(kept + rest) == Lead(kept) + rest[0] + Tail(rest[1..])
  {
    hide Join, Lead, Tail;
    JoinLead(kept, rest);
    JoinFirst(rest);
    assert Lead(kept) + (rest[0] + Tail(rest[1..])) == Lead(kept) + rest[0] + Tail(rest[1..]);
  }

  /** Cutting the next rule out, with the space after it, or before it when it is the last one. */
  lemma CutRule(kept: seq<string>, rest: seq<string>)
    requires rest != []
    ensures
      var lead, tail, left := Lead(kept), Tail(rest[1..]), rest[1..];
      if |rest| > 1
      then Join(kept + left) == lead + tail[1..] && Position(kept, left) == |lead|
      else
        var q := if lead == "" then 0 else |lead| - 1;
        Join(kept + left) == lead[..q] && Position(kept, left) == q
  {
    JoinLead(kept, rest[1..]);
    NothingJoined();
    hide Join;
  }

  lemma NothingJoined()
    ensures Join([]) == ""
  {
  }

  lemma PassRule(kept: seq<string>, rest: seq<string>)
    requires rest != []
    ensures kept + [rest[0]] + rest[1..] == kept + rest
    ensures Position(kept + [rest[0]], rest[1..]) == |Lead(kept)| + |rest[0]| + if |rest| > 1 then 1 else 0
  {
    if kept != [] {
      JoinAppend(kept, [rest[0]]);
    } else {
      assert kept + [rest[0]] == [rest[0]];
    }
  }

  lemma KeptStep(kept: seq<string>, rest: seq<string>, name: string)
    requires AllWords(rest) && rest != []
    ensures kept + Kept(rest, name)
         == if Drops(name, rest[0][1..]) then kept + Kept(rest[1..], name) else kept + [rest[0]] + Kept(rest[1..], name)
  {
  }

  lemma Ends(words: seq<string>, name: string)
    ensures Position([], words) == 0
    ensures words + Kept([], name) == words
  {
  }

  /** The buffer after the end of its text, terminator included, moved down. */
  lemma HoldsMoved(buf: array<char>, text: string, to: nat, from: nat)
    requires to <= from <= |text| < buf.Length && NUL !in text
    requires buf[..to] == text[..to] && buf[to..to + (|text| - from + 1)] == text[from..] + [NUL]
    ensures Holds(buf, text[..to] + text[from..])
  {
    var n := |text| - from;
    assert buf[to..to + (n + 1)][n] == buf[to + n];
    assert buf[..to + n] == buf[..to] + buf[to..to + (n + 1)][..n];
  }

  /** The rule that starts at `existing`, and the part of the text to overwrite if it goes. */
  method NextRule(buf: array<char>, existing: nat, ghost lead: string, ghost word: string, ghost tail: string)
    returns (copyPosition: nat, ruleEnd: nat, copyEnd: nat)
    requires Holds(buf, lead + word + tail) && existing == |lead|
    requires Word(word) && (tail == "" || tail[0] == ' ')
    ensures copyPosition == if tail == "" && lead != "" then |lead| - 1 else |lead|
    ensures ruleEnd == |lead| + |word|
    ensures copyEnd == if tail == "" then ruleEnd else ruleEnd + 1
  {
    ghost var text := lead + word + tail;
    ghost var end := |lead| + |word|;
    copyPosition := existing;
    var space := FindSpace(buf, existing + 1, text);
    assert tail != "" ==> text[end] == ' ' && text[existing + 1..][end - existing - 1] == ' ';
    assert forall i | existing < i < end :: text[i] == word[i - existing];
    if space == -1 {
      var n := StrLen(buf, existing + 1, text);
      ruleEnd := existing + 1 + n;
      if copyPosition != 0 {
        copyPosition := copyPosition - 1;
      }
    } else {
      ruleEnd := space;
    }
    assert ruleEnd < |text| ==> buf[..|text|][ruleEnd] == text[ruleEnd];
    copyEnd := if buf[ruleEnd] == ' ' then ruleEnd + 1 else ruleEnd;
  }

  /** memmove of the text from `from` on, terminator included, to `to`. */
  method Overwrite(buf: array<char>, to: nat, from: nat, ghost text: string)
    requires Holds(buf, text) && to <= from <= |text|
    modifies buf
    ensures Holds(buf, text[..to] + text[from..])
  {
    var n := StrLen(buf, from, text);
    assert buf[from..from + (n + 1)] == text[from..] + [NUL] by {
      assert buf[from..from + n] == buf[..|text|][from..];
    }
    assert buf[..to] == buf[..|text|][..to];
    MoveDown(buf, to, from, n + 1);
    HoldsMoved(buf, text, to, from);
  }

  /**
   Removes from the rules in `buf`, in place, every rule the new rule `name` makes redundant.
   The result is the old text split on spaces, filtered and joined again.
   */
  method RemoveCommandRule(buf: array<char>, name: string, ghost before: string) returns (len: nat)
    requires Holds(buf, before) && Tidy(before)
    modifies buf
    ensures len < buf.Length && Holds(buf, buf[..len])
    ensures buf[..len] == Join(Kept(Words(before), name))
    ensures Tidy(buf[..len])
  {
    hide Words, Split, Join, Kept, Drops, Lead, Tail, Position, Holds, Word, AllWords;
    ghost var words := Words(before);
    ghost var kept, rest: seq<string> := [], words;
    ghost var text := before;
    JoinOfWords(before);
    assert [] + words == words;
    assert [] + Kept(words, name) == Kept(words, name);
    var existing := 0;
    Ends(words, name);
    AtEnd(buf, kept, rest, existing);
    while buf[existing] != NUL
      invariant AllWords(rest)
      invariant Kept(words, name) == kept + Kept(rest, name)
      invariant Holds(buf, text) && text == Join(kept + rest)
      invariant existing == Position(kept, rest) < buf.Length
      invariant rest != [] ==> existing == |Lead(kept)|
      invariant buf[existing] == NUL <==> rest == []
      decreases |rest|
    {
      Shape(kept, rest);
      CutRule(kept, rest);
      PassRule(kept, rest);
      KeptStep(kept, rest, name);
      ghost var lead, word, tail, left := Lead(kept), rest[0], Tail(rest[1..]), rest[1..];
      WordsLeft(rest);
      var copyPosition, ruleEnd, copyEnd := NextRule(buf, existing, lead, word, tail);
      Slices(lead, word, tail);
      var drop := Redundant(buf, existing + 1, ruleEnd, name, text);
      if drop {
        Overwrite(buf, copyPosition, copyEnd, text);
        text, rest := Join(kept + left), left;
        existing := copyPosition;
      } else {
        kept, rest := kept + [word], left;
        existing := copyEnd;
      }
      AtEnd(buf, kept, rest, existing);
    }
    Ends(kept, name);
    JoinLead(kept, rest);
    KeptWords(words, name);
    WordsOfJoin(kept);
    len := Length(buf, text);
  }

  lemma Slices(lead: string, word: string, tail: string)
    requires word != ""
    ensures
      var text, end := lead + word + tail, |lead| + |word|;
      && text[|lead| + 1..end] == word[1..]
      && (tail != "" ==> text[..|lead|] + text[end + 1..] == lead + tail[1..])
      && (tail == "" && lead != "" ==> text[..|lead| - 1] + text[end..] == lead[..|lead| - 1])
      && (tail == "" && lead == "" ==> text[..0] + text[end..] == "")
  {
  }

  lemma WordsLeft(rest: seq<string>)
    requires AllWords(rest) && rest != []
    ensures Word(rest[0]) && rest[0] != "" && AllWords(rest[1..])
    ensures Tail(rest[1..]) == "" <==> |rest| == 1
    ensures |rest| > 1 ==> Tail(rest[1..])[0] == ' '
  {
  }

  lemma KeptWords(words: seq<string>, name: string)
    requires AllWords(words)
    ensures AllWords(Kept(words, name))
  {
  }

  lemma AtEnd(buf: array<char>, kept: seq<string>, rest: seq<string>, at: nat)
    requires Holds(buf, Join(kept + rest)) && at == Position(kept, rest) && AllWords(rest)
    ensures at < buf.Length && (buf[at] == NUL <==> rest == [])
    ensures rest != [] ==> at == |Lead(kept)|
  {
    var text := Join(kept + rest);
    JoinLead(kept, rest);
    if rest != [] {
      Shape(kept, rest);
      assert Word(rest[0]);
      assert text[at] == rest[0][0];
      assert buf[..|text|][at] == text[at];
    }
  }

  method Length(buf: array<char>, ghost text: string) returns (len: nat)
    requires Holds(buf, text)
    ensures len < buf.Length && buf[..len] == text
  {
    len := StrLen(buf, 0, text);
  }

  // ------------------------------------------------------------------- the rule list

  /** The rules after adding one: those it makes redundant go, the new one comes last. */
  function Updated(words: seq<string>, word: string): seq<string>
    requires AllWords(words) && word != ""
  {
    Kept(words, word[1..]) + [word]
  }

  /** No rule of the list would be dropped by a later one. */
  predicate Canonical(words: seq<string>)
    requires AllWords(words)
  {
    forall i, j | 0 <= i < j < |words| :: !Drops(words[j][1..], words[i][1..])
  }

  /** What is kept is part of the old list and holds nothing redundant; nothing else is lost. */
  lemma {:induction false} KeptIsPart(words: seq<string>, name: string)
    requires AllWords(words)
    ensures forall w | w in Kept(words, name) :: w in words && !Drops(name, w[1..])
    ensures forall w | w in words && !Drops(name, w[1..]) :: w in Kept(words, name)
  {
    hide Drops;
    if words != [] {
      KeptIsPart(words[1..], name);
      assert words == [words[0]] + words[1..];
    }
  }

  lemma {:induction false} KeptIsCanonical(words: seq<string>, name: string)
    requires AllWords(words) && Canonical(words)
    ensures Canonical(Kept(words, name))
  {
    hide Drops;
    if words != [] {
      var first, left := words[0], words[1..];
      assert forall i | 0 <= i < |left| :: left[i] == words[i + 1];
      KeptIsCanonical(left, name);
      KeptIsPart(left, name);
      var rest := Kept(left, name);
      forall j | 0 <= j < |rest| ensures !Drops(rest[j][1..], first[1..]) {
        assert rest[j] in rest;
        assert rest[j] in left;
      }
    }
  }

  lemma UpdateKeepsCanonical(words: seq<string>, word: string)
    requires AllWords(words) && Canonical(words) && Word(word)
    ensures AllWords(Updated(words, word)) && Canonical(Updated(words, word))
  {
    hide Drops;
    KeptIsPart(words, word[1..]);
    KeptIsCanonical(words, word[1..]);
    var kept := Kept(words, word[1..]);
    assert forall i | 0 <= i < |kept| :: kept[i] in kept;
  }

  /** Adding a rule that makes none redundant. */
  lemma {:induction false} NothingDropped(words: seq<string>, name: string)
    requires AllWords(words) && forall i | 0 <= i < |words| :: !Drops(name, words[i][1..])
    ensures Kept(words, name) == words
  {
    if words != [] {
      NothingDropped(words[1..], name);
    }
  }
}
