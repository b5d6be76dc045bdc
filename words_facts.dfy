/** How the ordinal words end, band by band, and the agreement between the
    ordinal words and the ordinal suffix of the numeral. */
module WordsFacts {
  import opened Text
  import opened Decimal
  import opened NumberWords

  /** The last two characters of a text: the ordinal ending. */
  function LastTwo(s: string): (r: string)
    ensures |s| >= 2 ==> |r| == 2
    ensures |s| < 2 ==> r == s
  {
    if |s| < 2 then s else s[|s| - 2..]
  }

  /** Prepending text keeps the ending. */
  lemma LastTwoAppend(p: string, s: string)
    requires |s| >= 2
    ensures LastTwo(p + s) == LastTwo(s)
  {
    assert (p + s)[|p + s| - 2..] == s[|s| - 2..];
  }

  /** The suffix the suffix converter gives n. */
  function Suffix(n: nat): (s: string)
    ensures |s| == 2
  {
    SuffixFor(n % 100, n % 10)
  }

  /** Numbers with the same last two digits take the same suffix. */
  lemma SuffixOfLastTwoDigits(a: nat, b: nat)
    requires a % 100 == b % 100
    ensures Suffix(a) == Suffix(b)
  {
    LastDigitOfLastTwo(a);
    LastDigitOfLastTwo(b);
  }

  /** The last digit is the last digit of the last two. */
  lemma LastDigitOfLastTwo(a: nat)
    ensures a % 10 == (a % 100) % 10
  {
    var q, r := a / 100, a % 100;
    var t, u := r / 10, r % 10;
    assert a == 100 * q + r;
    assert r == 10 * t + u;
    assert a == 10 * (10 * q + t) + u;
    ModTen(10 * q + t, u);
  }

  lemma ModTen(k: nat, u: nat)
    requires u < 10
    ensures (10 * k + u) % 10 == u
  {
  }

  /** Below a hundred the suffix is chosen by the number and its last digit. */
  lemma SuffixBelowHundred(n: nat)
    requires n < 100
    ensures Suffix(n) == SuffixFor(n, n % 10)
  {
    assert n % 100 == n;
  }

  /** The ending of each ordinal ones word is the suffix of its digit, after
      any tens digit but 1. */
  lemma OnesEnding(d: nat, t: nat)
    requires 1 <= d < 10 && !(11 <= t <= 13)
    ensures LastTwo(OrdinalOnes[d]) == SuffixFor(t, d)
  {
    if d == 1 {
      assert OrdinalOnes[1] == "first";
    } else if d == 2 {
      assert OrdinalOnes[2] == "second";
    } else if d == 3 {
      assert OrdinalOnes[3] == "third";
    } else {
      assert OrdinalOnes[d][|OrdinalOnes[d]| - 2..] == "th";
    }
  }

  /** The teens and the round tens of the ordinal table end in "th". */
  lemma TeensAndTensEnding()
    ensures forall d :: 0 <= d < 10 ==> LastTwo(OrdinalTeens[d]) == "th"
    ensures forall d :: 2 <= d < 10 ==> LastTwo(OrdinalTens[d]) == "th"
  {
  }

  /** Ten to nineteen: the ordinal word ends in "th", and so does the
      suffix, since the last digit is 0 or the last two are 11 to 13. */
  lemma EndingTeens(n: nat)
    requires 10 <= n < 20
    ensures LastTwo(NumberToOrdinal(n)) == Suffix(n)
  {
    assert NumberToOrdinal(n) == OrdinalTeens[n - 10];
    assert Suffix(n) == "th" by {
      assert n % 100 == n && n % 10 == n - 10;
    }
    TeensAndTensEnding();
  }

  /** The round tens end in "th", and their suffix is "th". */
  lemma EndingRoundTens(n: nat)
    requires 20 <= n < 100 && n % 10 == 0
    ensures LastTwo(NumberToOrdinal(n)) == Suffix(n)
  {
    assert NumberToOrdinal(n) == OrdinalTens[n / 10];
    assert Suffix(n) == "th";
    TeensAndTensEnding();
  }

  /** One to nine: the ordinal ones word ends in the suffix of its digit. */
  lemma EndingOnes(n: nat)
    requires 1 <= n < 10
    ensures LastTwo(NumberToOrdinal(n)) == Suffix(n)
  {
    assert NumberToOrdinal(n) == OrdinalOnes[n];
    OnesEnding(n, n);
    SuffixBelowHundred(n);
  }

  /** The hyphenated ordinals: a stem followed by the ordinal ones word. */
  lemma HyphenatedShape(n: nat)
    requires 20 <= n < 100 && n % 10 != 0
    ensures NumberToOrdinal(n) == ReplaceFirst(OrdinalTens[n / 10], "ieth", "y-") + OrdinalOnes[n % 10]
  {
  }

  /** Twenty-one to ninety-nine outside the round tens: the ending of the
      ordinal ones word. */
  lemma EndingHyphenated(n: nat)
    requires 20 <= n < 100 && n % 10 != 0
    ensures LastTwo(NumberToOrdinal(n)) == Suffix(n)
  {
    HyphenatedShape(n);
    LastTwoAppend(ReplaceFirst(OrdinalTens[n / 10], "ieth", "y-"), OrdinalOnes[n % 10]);
    OnesEnding(n % 10, n);
    SuffixBelowHundred(n);
  }

  /** Below a hundred. */
  lemma EndingBelowHundred(n: nat)
    requires n < 100
    ensures LastTwo(NumberToOrdinal(n)) == Suffix(n)
  {
    if n == 0 {
      assert LastTwo("zeroth") == "th";
    } else if n < 10 {
      EndingOnes(n);
    } else if n < 20 {
      EndingTeens(n);
    } else if n % 10 == 0 {
      EndingRoundTens(n);
    } else {
      EndingHyphenated(n);
    }
  }

  /** A round group ends in "th": "a hundredth", "two thousandth". */
  lemma EndingRound(n: nat, head: string)
    requires n % 10 == 0 && NumberToOrdinal(n) == head + "th"
    ensures LastTwo(NumberToOrdinal(n)) == Suffix(n)
  {
    LastTwoAppend(head, "th");
  }

  /** Otherwise the ordinal ends with the ordinal of a remainder that has the
      same last two digits. */
  lemma EndingOfRest(n: nat, head: string, rem: nat)
    requires rem % 100 == n % 100 && NumberToOrdinal(n) == head + NumberToOrdinal(rem)
    requires LastTwo(NumberToOrdinal(rem)) == Suffix(rem)
    ensures LastTwo(NumberToOrdinal(n)) == Suffix(n)
  {
    assert |NumberToOrdinal(rem)| >= 2;
    LastTwoAppend(head, NumberToOrdinal(rem));
    SuffixOfLastTwoDigits(rem, n);
  }

  /** A remainder by a thousand keeps the last two digits. */
  lemma ThousandRemainder(n: nat)
    ensures (n % 1000) % 100 == n % 100
    ensures n % 1000 == 0 ==> n % 10 == 0
  {
    var r := n % 1000;
    assert r == 100 * (r / 100) + r % 100;
    assert n == 100 * (10 * (n / 1000) + r / 100) + r % 100;
  }

  /** A remainder by a million keeps the last two digits. */
  lemma MillionRemainder(n: nat)
    ensures (n % 1000000) % 100 == n % 100
    ensures n % 1000000 == 0 ==> n % 10 == 0
  {
    var r := n % 1000000;
    assert r == 100 * (r / 100) + r % 100;
    assert n == 100 * (10000 * (n / 1000000) + r / 100) + r % 100;
  }

  /** A remainder by a hundred keeps the last two digits. */
  lemma HundredRemainder(n: nat)
    ensures (n % 100) % 100 == n % 100
    ensures n % 100 == 0 ==> n % 10 == 0
  {
    assert n == 10 * (10 * (n / 100)) + n % 100;
  }

  /** The hundreds band. */
  lemma EndingHundreds(n: nat)
    requires 100 <= n < 1000
    requires LastTwo(NumberToOrdinal(n % 100)) == Suffix(n % 100)
    ensures LastTwo(NumberToOrdinal(n)) == Suffix(n)
  {
    OrdinalHundredsShape(n);
    var head := if n / 100 == 1 then "a hundred" else OrdinalOnes[n / 100] + " hundred";
    HundredRemainder(n);
    if n % 100 == 0 {
      EndingRound(n, head);
    } else {
      EndingOfRest(n, head + " and ", n % 100);
    }
  }

  /** The thousands band. */
  lemma EndingThousands(n: nat)
    requires 1000 <= n < 1000000
    requires LastTwo(NumberToOrdinal(n % 1000)) == Suffix(n % 1000)
    ensures LastTwo(NumberToOrdinal(n)) == Suffix(n)
  {
    OrdinalThousandsShape(n);
    ThousandRemainder(n);
    var head := if n / 1000 == 1 then "a thousand" else NumberToWords(n / 1000) + " thousand";
    if n % 1000 == 0 {
      EndingRound(n, head);
    } else {
      EndingOfRest(n, head + " ", n % 1000);
    }
  }

  /** The millions band. */
  lemma EndingMillions(n: nat)
    requires 1000000 <= n < Billion
    requires LastTwo(NumberToOrdinal(n % 1000000)) == Suffix(n % 1000000)
    ensures LastTwo(NumberToOrdinal(n)) == Suffix(n)
  {
    OrdinalMillionsShape(n);
    MillionRemainder(n);
    var head := if n / 1000000 == 1 then "a million" else NumberToWords(n / 1000000) + " million";
    if n % 1000000 == 0 {
      EndingRound(n, head);
    } else {
      EndingOfRest(n, head + " ", n % 1000000);
    }
  }

  /** Below a billion the ordinal words end in the suffix of the number. */
  lemma {:induction false} OrdinalEnding(n: nat)
    requires n < Billion
    ensures LastTwo(NumberToOrdinal(n)) == Suffix(n)
  {
    if n < 100 {
      EndingBelowHundred(n);
    } else if n < 1000 {
      OrdinalEnding(n % 100);
      EndingHundreds(n);
    } else if n < 1000000 {
      OrdinalEnding(n % 1000);
      EndingThousands(n);
    } else {
      OrdinalEnding(n % 1000000);
      EndingMillions(n);
    }
  }

  /** Below a billion the ordinal words and the numeral with suffix end in the
      same two letters: "twenty-first" and "21st", "a thousand second
      hundredth" and "1,200th". */
  lemma SuffixAgreesWithWords(n: nat)
    requires n < Billion
    ensures LastTwo(NumberToOrdinal(n)) == LastTwo(NumberToOrdinalSuffix(n))
  {
    OrdinalEnding(n);
  }

  /** From a billion on the ordinal converter appends "th" to every numeral,
      so the two converters agree exactly where the suffix is "th"
      (a billion and one is "1000000001th" but "1,000,000,001st"). */
  lemma SuffixFromBillion(n: nat)
    requires n >= Billion
    ensures LastTwo(NumberToOrdinal(n)) == "th"
    ensures LastTwo(NumberToOrdinal(n)) == LastTwo(NumberToOrdinalSuffix(n))
            <==> 11 <= n % 100 <= 13 || !(1 <= n % 10 <= 3)
  {
    LastTwoAppend(DecimalString(n), "th");
  }
}
