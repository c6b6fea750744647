/**
 Decimal text of non-negative integers, as JavaScript produces it when a
 Number is concatenated to a string (`"" + 7 == "7"`, `"" + 31 == "31"`),
 together with a reader that recovers the number from the front of a string.
 */
module Decimal {
  import opened Options

  predicate IsDigit(c: char) {
    '0' <= c <= '9'
  }

  predicate AllDigits(s: string) {
    forall i :: 0 <= i < |s| ==> IsDigit(s[i])
  }

  function DigitValue(c: char): nat
    requires IsDigit(c)
  {
    c as int - '0' as int
  }

  function DigitChar(d: nat): (c: char)
    requires d < 10
    ensures IsDigit(c) && DigitValue(c) == d
  {
    ('0' as int + d) as char
  }

  /** The shortest decimal spelling of `n`: at least one digit, no leading zero. */
  function NatToString(n: nat): (s: string)
    ensures |s| >= 1 && AllDigits(s)
    ensures |s| > 1 ==> s[0] != '0'
    ensures n < 10 <==> |s| == 1
  {
    if n < 10 then [DigitChar(n)] else NatToString(n / 10) + [DigitChar(n % 10)]
  }

  /** The number a string of digits denotes, most significant digit first. */
  function ValueOf(ds: string): nat
    requires AllDigits(ds)
  {
    if |ds| == 0 then 0 else 10 * ValueOf(ds[..|ds| - 1]) + DigitValue(ds[|ds| - 1])
  }

  /** Length of the longest prefix of `s` made of digits. */
  function DigitSpan(s: string): (k: nat)
    ensures k <= |s| && AllDigits(s[..k])
    ensures k < |s| ==> !IsDigit(s[k])
  {
    if |s| == 0 || !IsDigit(s[0]) then 0 else 1 + DigitSpan(s[1..])
  }

  /**
   Reads a non-empty run of digits from the front of `s`, as `NatToString`
   writes it (no leading zero unless the number is 0); returns its value and
   what follows.
   */
  function ReadNumber(s: string): Option<(nat, string)>
  {
    var k := DigitSpan(s);
    if k == 0 || (k > 1 && s[0] == '0') then None else Some((ValueOf(s[..k]), s[k..]))
  }

  lemma {:induction false} ValueOfNatToString(n: nat)
    ensures ValueOf(NatToString(n)) == n
  {
    if n >= 10 {
      var s := NatToString(n);
      assert s[..|s| - 1] == NatToString(n / 10);
      ValueOfNatToString(n / 10);
    }
  }

  lemma {:induction false} DigitSpanAppend(ds: string, rest: string)
    requires AllDigits(ds)
    ensures DigitSpan(ds + rest) == |ds| + DigitSpan(rest)
  {
    if |ds| > 0 {
      assert (ds + rest)[1..] == ds[1..] + rest;
      DigitSpanAppend(ds[1..], rest);
    } else {
      assert ds + rest == rest;
    }
  }

  /** Reading back the text of `n` gives `n`, provided a non-digit (or nothing) follows it. */
  lemma ReadNumberNatToString(n: nat, rest: string)
    requires rest == [] || !IsDigit(rest[0])
    ensures ReadNumber(NatToString(n) + rest) == Some((n, rest))
  {
    var s := NatToString(n);
    DigitSpanAppend(s, rest);
    assert DigitSpan(rest) == 0;
    assert (s + rest)[..|s|] == s;
    assert (s + rest)[|s|..] == rest;
    ValueOfNatToString(n);
  }

  /** A number from 10 to 99 is spelled with its tens digit and its units digit. */
  lemma NatToStringTwoDigits(n: nat)
    requires 10 <= n < 100
    ensures NatToString(n) == [DigitChar(n / 10), DigitChar(n % 10)]
  {
  }

  /** A run of digits without a leading zero is the text of its own value. */
  lemma {:induction false} CanonicalDigits(ds: string)
    requires |ds| >= 1 && AllDigits(ds)
    requires |ds| > 1 ==> ds[0] != '0'
    ensures NatToString(ValueOf(ds)) == ds
    decreases |ds|
  {
    var c := ds[|ds| - 1];
    if |ds| == 1 {
      assert DigitChar(DigitValue(c)) == c;
    } else {
      var init := ds[..|ds| - 1];
      assert init[0] == ds[0];
      CanonicalDigits(init);
      LeadingDigitPositive(init);
      var n := ValueOf(ds);
      assert n == 10 * ValueOf(init) + DigitValue(c);
      assert n / 10 == ValueOf(init) && n % 10 == DigitValue(c);
      assert DigitChar(DigitValue(c)) == c;
      assert ds == init + [c];
    }
  }

  /** A run of digits led by a non-zero digit denotes a positive number. */
  lemma {:induction false} LeadingDigitPositive(ds: string)
    requires |ds| >= 1 && AllDigits(ds) && ds[0] != '0'
    ensures ValueOf(ds) >= 1
    decreases |ds|
  {
    if |ds| > 1 {
      var init := ds[..|ds| - 1];
      assert init[0] == ds[0];
      LeadingDigitPositive(init);
    }
  }

  /** Whatever `ReadNumber` accepts is the text of the number it returns, followed by the rest. */
  lemma ReadNumberCanonical(s: string)
    requires ReadNumber(s).Some?
    ensures s == NatToString(ReadNumber(s).value.0) + ReadNumber(s).value.1
  {
    var k := DigitSpan(s);
    assert s[..k][0] == s[0];
    CanonicalDigits(s[..k]);
    assert s == s[..k] + s[k..];
  }

  /** Distinct numbers have distinct texts: the partner of `NatToString`, read back by `ValueOf`. */
  lemma NatToStringInjective(a: nat, b: nat)
    requires NatToString(a) == NatToString(b)
    ensures a == b
  {
    ValueOfNatToString(a);
    ValueOfNatToString(b);
  }
}
