/** Bytes, and decimal numbers written and read as bytes. */
module Numbers {

  type Byte = x: int | 0 <= x < 256

  type Arg = seq<Byte>

  const DIGIT0: Byte := 48

  const INT_MAX := 0x7fff_ffff
  const LONG_MAX := 0x7fff_ffff_ffff_ffff

  /** `ll2string` for a count. */
  function Decimal(n: nat): Arg {
    if n < 10 then [DIGIT0 + n] else Decimal(n / 10) + [DIGIT0 + n % 10]
  }

  predicate IsDigit(b: Byte) { DIGIT0 <= b <= DIGIT0 + 9 }

  predicate IsSpace(b: Byte) { b == 32 || 9 <= b <= 13 }

  function ParseDigits(s: Arg, acc: nat): nat {
    if s == [] || !IsDigit(s[0]) then acc else ParseDigits(s[1..], 10 * acc + (s[0] - DIGIT0))
  }

  /** `atoi` and `strtol` in base 10, for values that fit. */
  function ParseInt(s: Arg): int {
    if s == [] then 0
    else if IsSpace(s[0]) then ParseInt(s[1..])
    else if s[0] == 43 then ParseDigits(s[1..], 0)
    else if s[0] == 45 then 0 - ParseDigits(s[1..], 0)
    else ParseDigits(s, 0)
  }

  // ---------------------------------------------------------------- round trip

  predicate Digits(s: Arg) { forall i | 0 <= i < |s| :: IsDigit(s[i]) }

  lemma {:induction false} DecimalIsDigits(n: nat)
    ensures |Decimal(n)| >= 1 && Digits(Decimal(n))
    ensures n > 0 ==> Decimal(n)[0] != DIGIT0
  {
    if n >= 10 { DecimalIsDigits(n / 10); }
  }

  lemma {:induction false} ParseDigitsAppend(a: Arg, b: Arg, acc: nat)
    requires Digits(a)
    ensures ParseDigits(a + b, acc) == ParseDigits(b, ParseDigits(a, acc))
  {
    if a == [] {
      assert a + b == b;
    } else {
      assert (a + b)[1..] == a[1..] + b;
      assert IsDigit(a[0]);
      ParseDigitsAppend(a[1..], b, 10 * acc + (a[0] - DIGIT0));
    }
  }

  lemma {:induction false} ParseDecimal(n: nat)
    ensures ParseDigits(Decimal(n), 0) == n
  {
    DecimalIsDigits(n);
    if n < 10 {
      assert Decimal(n)[1..] == [];
    } else {
      DecimalIsDigits(n / 10);
      ParseDecimal(n / 10);
      var last := [DIGIT0 + n % 10];
      ParseDigitsAppend(Decimal(n / 10), last, 0);
      assert last[1..] == [];
      assert ParseDigits(last, n / 10) == n;
    }
  }

  /** A number followed by anything but a digit is read back. */
  lemma ParseNumber(n: nat, rest: Arg)
    requires rest == [] || !IsDigit(rest[0])
    ensures ParseInt(Decimal(n) + rest) == n
  {
    DecimalIsDigits(n);
    ParseDecimal(n);
    ParseDigitsAppend(Decimal(n), rest, 0);
    var s := Decimal(n) + rest;
    assert IsDigit(Decimal(n)[0]);
    assert s[0] == Decimal(n)[0];
  }

  lemma {:induction false} ParseDigitsGrows(s: Arg, acc: nat)
    ensures ParseDigits(s, acc) >= acc
  {
    if s != [] && IsDigit(s[0]) {
      ParseDigitsGrows(s[1..], 10 * acc + (s[0] - DIGIT0));
    }
  }

  /** A count cut short after at least one digit is still a count. */
  lemma ParseCutNumber(n: nat, rest: Arg, k: nat)
    requires n > 0 && 1 <= k <= |Decimal(n) + rest|
    ensures ParseInt((Decimal(n) + rest)[..k]) >= 1
  {
    DecimalIsDigits(n);
    var s := (Decimal(n) + rest)[..k];
    assert s[0] == Decimal(n)[0];
    assert IsDigit(Decimal(n)[0]);
    ParseDigitsGrows(s[1..], s[0] - DIGIT0);
  }

  function Power10(k: nat): nat {
    if k == 0 then 1 else 10 * Power10(k - 1)
  }

  lemma {:induction false} DecimalLength(n: nat, k: nat)
    requires k >= 1 && n < Power10(k)
    ensures |Decimal(n)| <= k
  {
    if n >= 10 {
      DecimalLength(n / 10, k - 1);
    }
  }

  lemma CountIsShort(n: nat)
    requires n <= LONG_MAX + 1
    ensures |Decimal(n)| <= 19
  {
    assert Power10(5) == 100000;
    assert Power10(10) == 100000 * Power10(5);
    assert Power10(15) == 100000 * Power10(10);
    assert Power10(19) == 10000 * Power10(15);
    DecimalLength(n, 19);
  }
}
