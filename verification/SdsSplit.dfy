/**
 `sdssplitargs`: a line cut into arguments at blanks, with quoted parts. The rule log of a
 selector is read back with it.
 */
module SdsSplit {
  import opened AclRules
  import opened Basics

  datatype Quoting = Bare | Single | Double

  /** isspace: skipped in front of an argument and allowed after a closing quote. */
  predicate Space(c: char) {
    Separator(c) || c == 11 as char || c == 12 as char
  }

  /** What ends an argument outside quotes. */
  predicate Separator(c: char) {
    c == ' ' || c == '\n' || c == '\r' || c == '\t'
  }

  predicate Quote(c: char) {
    c == '\"' || c == '\''
  }

  predicate HexDigit(c: char) {
    '0' <= c <= '9' || 'a' <= c <= 'f' || 'A' <= c <= 'F'
  }

  function HexValue(c: char): (n: nat)
    requires HexDigit(c)
    ensures n < 16
  {
    if c <= '9' then c as int - '0' as int
    else if c <= 'F' then c as int - 'A' as int + 10
    else c as int - 'a' as int + 10
  }

  function Escaped(c: char): char {
    if c == 'n' then '\n' else if c == 'r' then '\r' else if c == 't' then '\t'
    else if c == 'b' then 8 as char else if c == 'a' then 7 as char else c
  }

  predicate HexEscape(s: string) {
    |s| > 3 && s[0] == '\\' && s[1] == 'x' && HexDigit(s[2]) && HexDigit(s[3])
  }

  function Prepend(c: char, r: Option<(string, string)>): Option<(string, string)> {
    match r
    case None => None
    case Some((w, rest)) => Some(([c] + w, rest))
  }

  /** One argument, read in the given state, and the line after it; nothing for an unbalanced quote. */
  function Token(s: string, q: Quoting): (r: Option<(string, string)>)
    ensures r.Some? ==> |r.value.0| + |r.value.1| <= |s| && (s != "" ==> |r.value.1| < |s|)
    decreases |s|
  {
    if s == "" then (if q.Bare? then Some(("", "")) else None)
    else
      match q
      case Bare =>
        if Separator(s[0]) then Some(("", s[1..]))
        else if s[0] == '\"' then Token(s[1..], Double)
        else if s[0] == '\'' then Token(s[1..], Single)
        else Prepend(s[0], Token(s[1..], Bare))
      case Double =>
        if HexEscape(s) then Prepend((HexValue(s[2]) * 16 + HexValue(s[3])) as char, Token(s[4..], Double))
        else if s[0] == '\\' && |s| > 1 then Prepend(Escaped(s[1]), Token(s[2..], Double))
        else if s[0] == '\"' then Closed(s[1..])
        else Prepend(s[0], Token(s[1..], Double))
      case Single =>
        if s[0] == '\\' && |s| > 1 && s[1] == '\'' then Prepend('\'', Token(s[2..], Single))
        else if s[0] == '\'' then Closed(s[1..])
        else Prepend(s[0], Token(s[1..], Single))
  }

  /** After a closing quote the line ends or goes on with a blank. */
  function Closed(s: string): Option<(string, string)> {
    if s != "" && !Space(s[0]) then None else Some(("", s))
  }

  function SplitArgs(s: string): Option<seq<string>>
    decreases |s|
  {
    if s == "" then Some([])
    else if Space(s[0]) then SplitArgs(s[1..])
    else
      match Token(s, Bare)
      case None => None
      case Some((w, rest)) =>
        match SplitArgs(rest)
        case None => None
        case Some(ws) => Some([w] + ws)
  }

  // ------------------------------------------------------------- text without quotes

  /** Nothing in the text means anything to the splitter. */
  predicate Clean(s: string) {
    forall i | 0 <= i < |s| :: !Separator(s[i]) && !Quote(s[i])
  }

  /** A word that comes back as it is: clean, and not starting with a blank. */
  predicate CleanWord(w: string) {
    w != "" && !Space(w[0]) && Clean(w)
  }

  predicate AllClean(words: seq<string>) {
    forall i | 0 <= i < |words| :: CleanWord(words[i])
  }

  /** A clean start of an argument is copied. */
  lemma {:induction false} CleanStart(w: string, s: string)
    requires Clean(w)
    ensures Token(w + s, Bare) ==
            match Token(s, Bare) { case None => None case Some((x, rest)) => Some((w + x, rest)) }
  {
    if w == "" {
      assert w + s == s;
      assert Token(s, Bare).Some? ==> "" + Token(s, Bare).value.0 == Token(s, Bare).value.0;
    } else {
      assert (w + s)[1..] == w[1..] + s;
      CleanStart(w[1..], s);
      if Token(s, Bare).Some? {
        var x := Token(s, Bare).value.0;
        assert [w[0]] + (w[1..] + x) == w + x;
      }
    }
  }

  /** The arguments of a line that starts with a clean word. */
  lemma CleanWordFirst(w: string, s: string)
    requires CleanWord(w)
    ensures SplitArgs(w) == Some([w])
    ensures SplitArgs(w + " " + s) == match SplitArgs(s) { case None => None case Some(ws) => Some([w] + ws) }
  {
    CleanStart(w, "");
    assert w + "" == w;
    assert Token(w, Bare) == Some((w, ""));
    assert SplitArgs("") == Some([]);
    assert [w] + [] == [w];
    CleanStart(w, " " + s);
    assert w + (" " + s) == w + " " + s;
    assert (" " + s)[1..] == s;
    assert Token(" " + s, Bare) == Some(("", s));
  }

  /** Clean words in front of a line are its first arguments. */
  lemma {:induction false} CleanWordsFirst(words: seq<string>, s: string)
    requires AllClean(words) && words != []
    ensures SplitArgs(Join(words) + " " + s) == match SplitArgs(s) { case None => None case Some(ws) => Some(words + ws) }
  {
    assert CleanWord(words[0]);
    if |words| == 1 {
      CleanWordFirst(words[0], s);
      assert words == [words[0]];
    } else {
      var rest := words[1..];
      assert AllClean(rest);
      CleanWordsFirst(rest, s);
      CleanWordFirst(words[0], Join(rest) + " " + s);
      assert words[0] + " " + (Join(rest) + " " + s) == Join(words) + " " + s;
      if SplitArgs(s).Some? {
        assert [words[0]] + (rest + SplitArgs(s).value) == words + SplitArgs(s).value;
      }
    }
  }

  /** Splitting a line of clean words undoes joining them. */
  lemma {:induction false} SplitOfJoin(words: seq<string>)
    requires AllClean(words)
    ensures SplitArgs(Join(words)) == Some(words)
  {
    if words != [] {
      assert CleanWord(words[0]);
      if |words| == 1 {
        CleanWordFirst(words[0], "");
        assert words == [words[0]];
      } else {
        assert AllClean(words[1..]);
        SplitOfJoin(words[1..]);
        CleanWordFirst(words[0], Join(words[1..]));
        assert words == [words[0]] + words[1..];
      }
    }
  }

  // ------------------------------------------------------------- text that is not clean

  /** A blank or a quote is read without giving a character. */
  lemma {:induction false} UncleanShrinks(s: string)
    requires !Clean(s) && Token(s, Bare).Some?
    ensures |Token(s, Bare).value.0| + |Token(s, Bare).value.1| < |s|
  {
    if !Separator(s[0]) && !Quote(s[0]) {
      assert s == [s[0]] + s[1..];
      UncleanShrinks(s[1..]);
    }
  }

  /** No argument is longer than the line. */
  lemma {:induction false} ArgumentsFit(s: string)
    requires SplitArgs(s).Some?
    ensures forall w | w in SplitArgs(s).value :: |w| <= |s|
    decreases |s|
  {
    if s == "" {
    } else if Space(s[0]) {
      ArgumentsFit(s[1..]);
    } else {
      var (w, rest) := Token(s, Bare).value;
      ArgumentsFit(rest);
    }
  }
}
