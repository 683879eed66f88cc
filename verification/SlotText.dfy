/** Which texts `slotRangeArrayFromString` can read, and what it makes of them. */
module SlotText {
  import opened Basics
  import opened Numbers
  import opened SlotRanges
  import opened SlotRangeArray

  // -------------------------------------------------------------------- numbers

  /** A number as `ll2string` prints it. */
  function Text(v: int): Arg {
    if v >= 0 then Decimal(v) else [DASH] + Decimal(-v)
  }

  predicate IsLong(v: int) { -LONG_MAX - 1 <= v <= LONG_MAX }

  lemma {:induction false} DigitsAreDecimal(d: Arg)
    requires d != [] && Digits(d) && d[0] != DIGIT0
    ensures Decimal(ParseDigits(d, 0)) == d && ParseDigits(d, 0) > 0
  {
    var n := |d| - 1;
    var front, last := d[..n], [d[n]];
    assert d == front + last && IsDigit(d[n]) && last[1..] == [];
    ParseDigitsAppend(front, last, 0);
    var v := ParseDigits(front, 0);
    assert ParseDigits(last, v) == 10 * v + (d[n] - DIGIT0);
    if n == 0 {
      assert front == [] && d == last;
    } else {
      DigitsAreDecimal(front);
      Shifted(v, d[n] - DIGIT0);
    }
  }

  lemma Shifted(v: nat, c: nat)
    requires v > 0 && c < 10
    ensures Decimal(10 * v + c) == Decimal(v) + [DIGIT0 + c]
  {
    assert (10 * v + c) / 10 == v && (10 * v + c) % 10 == c;
  }

  lemma ShortText(v: int)
    requires IsLong(v)
    ensures 1 <= |Text(v)| <= 20
  {
    var n: nat := if v >= 0 then v else -v;
    DecimalIsDigits(n);
    CountIsShort(n);
  }

  /** `string2ll` reads a text exactly if it is how a 64-bit number is printed, and as that number. */
  lemma ReadsExactly(s: Arg, v: int)
    ensures String2ll(s) == Some(v) <==> IsLong(v) && s == Text(v)
  {
    if String2ll(s).Some? {
      ReadIsText(s);
    }
    if IsLong(v) && s == Text(v) {
      TextReads(v);
    }
  }

  lemma ReadIsText(s: Arg)
    requires String2ll(s).Some?
    ensures IsLong(String2ll(s).value) && s == Text(String2ll(s).value)
  {
    if s != [DIGIT0] {
      var d := if s[0] == DASH then s[1..] else s;
      DigitsAreDecimal(d);
      hide Decimal;
      assert s[0] == DASH ==> s == [DASH] + d;
    }
  }

  lemma TextReads(v: int)
    requires IsLong(v)
    ensures String2ll(Text(v)) == Some(v)
  {
    if v >= 0 {
      DecimalReads(v);
    } else {
      var d := Decimal(-v);
      DecimalIsDigits(-v);
      ParseDecimal(-v);
      ShortText(v);
      hide Decimal;
      assert ([DASH] + d)[1..] == d;
    }
  }

  // --------------------------------------------------------------------- ranges

  /** What stands on both sides of the dash. */
  datatype Pair = Pair(start: nat, end: int)

  predicate Fits(p: Pair) { IsLong(p.start) && IsLong(p.end) }

  function PairText(p: Pair): Arg {
    Decimal(p.start) + [DASH] + Text(p.end)
  }

  function RangeOf(p: Pair): Range {
    Range(Truncated(p.start), Truncated(p.end))
  }

  lemma {:induction false} FindIsFirst(s: Arg, b: Byte)
    ensures b !in s[..Find(s, b)]
  {
    if s != [] && s[0] != b {
      FindIsFirst(s[1..], b);
      assert s[..Find(s, b)] == [s[0]] + s[1..][..Find(s[1..], b)];
    }
  }

  lemma PairReads(p: Pair)
    requires Fits(p)
    ensures ParseRange(PairText(p)) == Some(RangeOf(p)) && SPACE !in PairText(p)
  {
    hide String2ll, Decimal, Truncated;
    DecimalReads(p.start);
    TextReads(p.end);
    TextIsPlain(p.end);
    var a, b := Decimal(p.start), Text(p.end);
    FindAfter(a, b, DASH);
    var s := a + [DASH] + b;
    assert s[..|a|] == a && s[|a| + 1..] == b;
  }

  lemma TextIsPlain(v: int)
    requires IsLong(v)
    ensures SPACE !in Text(v)
  {
    var n: nat := if v >= 0 then v else -v;
    DecimalIsDigits(n);
    var d := Decimal(n);
    assert forall i | 0 <= i < |d| :: IsDigit(d[i]);
    hide Decimal;
  }

  /** A part is read exactly if it is two such numbers around a dash, the first one not negative. */
  lemma ReadPart(part: Arg)
    requires ParseRange(part).Some?
    ensures exists p :: Fits(p) && part == PairText(p) && ParseRange(part).value == RangeOf(p)
  {
    hide String2ll, Decimal, Truncated;
    var i := Find(part, DASH);
    var a, b := part[..i], part[i + 1..];
    FindIsFirst(part, DASH);
    ReadIsText(a);
    ReadIsText(b);
    var p := Pair(String2ll(a).value, String2ll(b).value);
    assert part == a + [DASH] + b;
    assert Fits(p) && part == PairText(p);
  }

  // ---------------------------------------------------------------------- lists

  function ListText(ps: seq<Pair>): Arg {
    if ps == [] then []
    else if |ps| == 1 then PairText(ps[0])
    else PairText(ps[0]) + [SPACE] + ListText(ps[1..])
  }

  function RangesOf(ps: seq<Pair>): seq<Range> {
    seq(|ps|, i requires 0 <= i < |ps| => RangeOf(ps[i]))
  }

  predicate AllFit(ps: seq<Pair>) { forall p | p in ps :: Fits(p) }

  lemma {:induction false} ListReads(ps: seq<Pair>)
    requires ps != [] && AllFit(ps)
    ensures ListText(ps) != [] && ParseParts(Split(ListText(ps), SPACE)) == Some(RangesOf(ps))
  {
    hide ParseRange, PairText, RangeOf;
    PairReads(ps[0]);
    PairIsNotEmpty(ps[0]);
    SplitPart(PairText(ps[0]), ListText(ps[1..]), SPACE);
    if |ps| > 1 {
      ListReads(ps[1..]);
      assert ([PairText(ps[0])] + Split(ListText(ps[1..]), SPACE))[1..] == Split(ListText(ps[1..]), SPACE);
      assert RangesOf(ps) == [RangeOf(ps[0])] + RangesOf(ps[1..]);
    } else {
      OnePart(PairText(ps[0]));
      assert RangesOf(ps) == [RangeOf(ps[0])] + [];
    }
  }

  lemma PairIsNotEmpty(p: Pair)
    ensures PairText(p) != []
  {
  }

  function Joined(parts: seq<Arg>): Arg
    requires parts != []
  {
    if |parts| == 1 then parts[0] else parts[0] + [SPACE] + Joined(parts[1..])
  }

  lemma {:induction false} SplitJoins(s: Arg)
    ensures Joined(Split(s, SPACE)) == s
  {
    if s != [] {
      SplitJoins(s[1..]);
      var r := Split(s[1..], SPACE);
      if s[0] == SPACE {
        JoinedAfterSpace(r);
      } else {
        JoinedWith(s[0], r);
      }
      hide Joined;
      assert s == [s[0]] + s[1..];
    }
  }

  lemma JoinedAfterSpace(r: seq<Arg>)
    requires r != []
    ensures Joined([[]] + r) == [SPACE] + Joined(r)
  {
    assert ([[]] + r)[1..] == r;
  }

  lemma JoinedWith(b: Byte, r: seq<Arg>)
    requires r != []
    ensures Joined([[b] + r[0]] + r[1..]) == [b] + Joined(r)
  {
    var r' := [[b] + r[0]] + r[1..];
    assert r'[1..] == r[1..];
    if |r| > 1 {
      var rest := Joined(r[1..]);
      assert ([b] + r[0]) + [SPACE] + rest == [b] + (r[0] + [SPACE] + rest);
    }
  }

  lemma {:induction false} ReadParts(parts: seq<Arg>) returns (ps: seq<Pair>)
    requires parts != [] && ParseParts(parts).Some?
    ensures ps != [] && AllFit(ps) && Joined(parts) == ListText(ps) && ParseParts(parts).value == RangesOf(ps)
  {
    hide ParseRange, PairText, RangeOf;
    ReadPart(parts[0]);
    var p :| Fits(p) && parts[0] == PairText(p) && ParseRange(parts[0]).value == RangeOf(p);
    if |parts| == 1 {
      ps := [p];
      OnePart(parts[0]);
      assert parts == [parts[0]];
      assert RangesOf(ps) == [RangeOf(p)] + [];
    } else {
      var rest := ReadParts(parts[1..]);
      ps := [p] + rest;
      assert ps[1..] == rest;
      assert RangesOf(ps) == [RangeOf(p)] + RangesOf(rest);
    }
  }

  /** The text of `ps` stands for `rs`. */
  predicate Denotes(data: Arg, ps: seq<Pair>, rs: seq<Range>) {
    ps != [] && AllFit(ps) && data == ListText(ps) && rs == RangesOf(ps)
  }

  /**
   The texts that are read are exactly the lists, with one space between, of two printed 64-bit
   numbers around a dash, the first not negative; the ranges are these numbers modulo 65536.
   */
  lemma ParsesExactly(data: Arg, rs: seq<Range>)
    ensures Parse(data) == Some(rs) <==> exists ps :: Denotes(data, ps, rs)
  {
    hide ParseParts, Split, ListText, RangesOf;
    if Parse(data) == Some(rs) {
      var ps := ReadParts(Split(data, SPACE));
      SplitJoins(data);
      assert Denotes(data, ps, rs);
    }
    if ps :| Denotes(data, ps, rs) {
      ListReads(ps);
    }
  }
}
