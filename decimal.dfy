/** Decimal numerals: `Number.prototype.toString()` and the en-US form of
    `Number.prototype.toLocaleString()` (digits grouped in threes by commas),
    for non-negative integers, with the reading back of a digit string. */
module Decimal {
  import opened Text

  function DigitChar(d: nat): (c: char)
    requires d < 10
    ensures IsDigit(c) && c as int - '0' as int == d
  {
    ('0' as int + d) as char
  }

  function DigitValue(c: char): (d: nat)
    requires IsDigit(c)
    ensures d < 10 && DigitChar(d) == c
  {
    c as int - '0' as int
  }

  predicate AllDigits(s: string) {
    forall i :: 0 <= i < |s| ==> IsDigit(s[i])
  }

  /** `n.toString()`: the shortest decimal numeral of n. */
  function DecimalString(n: nat): (r: string)
    ensures |r| >= 1 && AllDigits(r)
    ensures r[0] == '0' <==> n == 0
    ensures |r| == 1 <==> n < 10
  {
    if n < 10 then [DigitChar(n)] else DecimalString(n / 10) + [DigitChar(n % 10)]
  }

  /** The value of a string of decimal digits. */
  function DigitsValue(s: string): nat
    requires AllDigits(s)
  {
    if s == [] then 0 else DigitsValue(s[..|s| - 1]) * 10 + DigitValue(s[|s| - 1])
  }

  /** Reading the numeral back gives the number. */
  lemma {:induction false} DecimalRoundTrip(n: nat)
    ensures DigitsValue(DecimalString(n)) == n
  {
    var r := DecimalString(n);
    if n >= 10 {
      DecimalRoundTrip(n / 10);
      assert r[..|r| - 1] == DecimalString(n / 10);
    }
  }

  /** Distinct numbers have distinct numerals. */
  lemma DecimalInjective(a: nat, b: nat)
    ensures DecimalString(a) == DecimalString(b) ==> a == b
  {
    DecimalRoundTrip(a);
    DecimalRoundTrip(b);
  }

  /** Three digits with leading zeros: a group after a thousands separator. */
  function Pad3(k: nat): (r: string)
    requires k < 1000
    ensures |r| == 3 && AllDigits(r) && DigitsValue(r) == k
  {
    var r := [DigitChar(k / 100), DigitChar((k / 10) % 10), DigitChar(k % 10)];
    assert r[..2][..1] == [r[0]] && r[..2][..1][..0] == [];
    assert DigitsValue(r[..2][..1]) == k / 100;
    assert DigitsValue(r[..2]) == (k / 100) * 10 + (k / 10) % 10;
    r
  }

  /** The numeral of a number of at least four digits is the numeral of its
      thousands followed by its last three digits. */
  lemma DecimalThousands(n: nat)
    requires n >= 1000
    ensures DecimalString(n) == DecimalString(n / 1000) + Pad3(n % 1000)
  {
    assert (n / 10) / 10 == n / 100;
    assert (n / 100) / 10 == n / 1000;
    assert (n % 1000) / 100 == (n / 100) % 10;
    assert ((n % 1000) / 10) % 10 == (n / 10) % 10;
    assert (n % 1000) % 10 == n % 10;
    calc {
      DecimalString(n);
      DecimalString(n / 10) + [DigitChar(n % 10)];
      DecimalString(n / 100) + [DigitChar((n / 10) % 10)] + [DigitChar(n % 10)];
      DecimalString(n / 1000) + [DigitChar((n / 100) % 10)] + [DigitChar((n / 10) % 10)] + [DigitChar(n % 10)];
    }
  }

  /** Below 1000 the numeral has at most three digits. */
  lemma ShortDecimal(n: nat)
    requires n < 1000
    ensures |DecimalString(n)| <= 3
  {
    if n >= 10 {
      assert n / 10 < 100;
      if n / 10 >= 10 {
        assert (n / 10) / 10 < 10;
      }
    }
  }

  /** Commas at every fourth place from the right, digits elsewhere: the
      en-US grouping of a numeral into threes. */
  predicate GroupedInThrees(r: string) {
    forall i :: 0 <= i < |r| ==> (r[i] == ',' <==> (|r| - i) % 4 == 0) && (r[i] != ',' ==> IsDigit(r[i]))
  }

  /** Short numerals are grouped trivially. */
  lemma ShortGrouped(r: string)
    requires 1 <= |r| <= 3 && AllDigits(r)
    ensures GroupedInThrees(r)
  {
  }

  /** Appending a comma and three digits keeps the grouping and the
      leading digit. */
  lemma GroupedStep(g: string, p: string)
    requires GroupedInThrees(g) && |g| >= 1 && IsDigit(g[0]) && |p| == 3 && AllDigits(p)
    ensures GroupedInThrees(g + "," + p) && (g + "," + p)[0] == g[0]
  {
    var r := g + "," + p;
    forall i | 0 <= i < |r| ensures (r[i] == ',' <==> (|r| - i) % 4 == 0) && (r[i] != ',' ==> IsDigit(r[i])) {
      if i < |g| {
        assert r[i] == g[i] && |r| - i == (|g| - i) + 4;
      } else if i > |g| {
        assert r[i] == p[i - |g| - 1];
      }
    }
  }

  /** Grouped text holds only digits and commas. */
  lemma GroupedChars(r: string)
    requires GroupedInThrees(r)
    ensures forall c :: c in r ==> IsDigit(c) || c == ','
  {
    forall c | c in r ensures IsDigit(c) || c == ',' {
      var i :| 0 <= i < |r| && r[i] == c;
    }
  }

  /** `n.toLocaleString()` in the en-US locale: groups of three digits
      separated by commas. Counted from the right, every fourth character is
      a comma and every other one a digit (`GroupedInThrees`), so the leading
      group has one to three digits and every later group exactly three. */
  function GroupedDecimal(n: nat): (r: string)
    ensures |r| >= 1 && IsDigit(r[0])
    ensures GroupedInThrees(r)
    ensures forall c :: c in r ==> IsDigit(c) || c == ','
  {
    var r :=
      (if n < 1000 then
         ShortDecimal(n);
         ShortGrouped(DecimalString(n));
         DecimalString(n)
       else
         var g := GroupedDecimal(n / 1000);
         var p := Pad3(n % 1000);
         GroupedStep(g, p);
         g + "," + p);
    GroupedChars(r);
    r
  }

  /** Removing the separators gives back the plain numeral. */
  lemma {:induction false} GroupedUngroups(n: nat)
    ensures StripCommas(GroupedDecimal(n)) == DecimalString(n)
  {
    if n < 1000 {
      StripCommasIdentity(DecimalString(n));
    } else {
      var g := GroupedDecimal(n / 1000);
      GroupedUngroups(n / 1000);
      StripCommasAppend(g + ",", Pad3(n % 1000));
      StripCommasAppend(g, ",");
      StripCommasIdentity(Pad3(n % 1000));
      DecimalThousands(n);
    }
  }

  /** A separator appears exactly from four digits on; below that the grouped
      form is the plain numeral. */
  lemma GroupedHasComma(n: nat)
    ensures ',' in GroupedDecimal(n) <==> n >= 1000
    ensures n < 1000 ==> GroupedDecimal(n) == DecimalString(n)
  {
    if n >= 1000 {
      var g := GroupedDecimal(n / 1000);
      assert (g + "," + Pad3(n % 1000))[|g|] == ',';
    }
  }
}
