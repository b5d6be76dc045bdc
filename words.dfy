/** English words for non-negative integers: the cardinal form
    (`numberToWords`), the ordinal form (`numberToOrdinal`) and the numeral
    with an ordinal suffix (`numberToOrdinalSuffix`). */
module NumberWords {
  import opened Text
  import opened Decimal

  /** The word tables of the cardinal converter; index i of `CardinalTens`
      names i * 10, and the empty entries are never used. */
  const CardinalOnes: seq<string> :=
    ["", "one", "two", "three", "four", "five", "six", "seven", "eight", "nine"]
  const CardinalTeens: seq<string> :=
    ["ten", "eleven", "twelve", "thirteen", "fourteen", "fifteen", "sixteen", "seventeen", "eighteen", "nineteen"]
  const CardinalTens: seq<string> :=
    ["", "", "twenty", "thirty", "forty", "fifty", "sixty", "seventy", "eighty", "ninety"]

  /** The word tables of the ordinal converter, laid out the same way. */
  const OrdinalOnes: seq<string> :=
    ["", "first", "second", "third", "fourth", "fifth", "sixth", "seventh", "eighth", "ninth"]
  const OrdinalTeens: seq<string> :=
    ["tenth", "eleventh", "twelfth", "thirteenth", "fourteenth", "fifteenth",
     "sixteenth", "seventeenth", "eighteenth", "nineteenth"]
  const OrdinalTens: seq<string> :=
    ["", "", "twentieth", "thirtieth", "fortieth", "fiftieth",
     "sixtieth", "seventieth", "eightieth", "ninetieth"]

  /** Every entry of the cardinal tables that the converter uses is a plain
      word. */
  lemma CardinalTablesPlain()
    ensures forall d :: 1 <= d < 10 ==> IsPlainWord(CardinalOnes[d])
    ensures forall d :: 0 <= d < 10 ==> IsPlainWord(CardinalTeens[d])
    ensures forall d :: 2 <= d < 10 ==> IsPlainWord(CardinalTens[d])
  {
  }

  /** The largest number the converters spell out is one below this. */
  const Billion: nat := 1000000000

  /** `numberToWords`: the cardinal English words of n, band by band; from a
      billion on, the plain numeral. */
  function NumberToWords(n: nat): (r: string)
    ensures |r| > 0
    ensures n >= Billion ==> r == DecimalString(n)
  {
    if n == 0 then "zero"
    else if n < 10 then CardinalOnes[n]
    else if n < 20 then CardinalTeens[n - 10]
    else if n < 100 then
      CardinalTens[n / 10] + (if n % 10 != 0 then "-" + CardinalOnes[n % 10] else "")
    else if n < 1000 then
      var hundreds := n / 100;
      var remainder := n % 100;
      var hundredText := if hundreds == 1 then "a hundred" else CardinalOnes[hundreds] + " hundred";
      hundredText + (if remainder != 0 then " and " + NumberToWords(remainder) else "")
    else if n < 1000000 then
      var thousands := n / 1000;
      var remainder := n % 1000;
      var thousandText := if thousands == 1 then "a thousand" else NumberToWords(thousands) + " thousand";
      thousandText + (if remainder != 0 then " " + NumberToWords(remainder) else "")
    else if n < Billion then
      var millions := n / 1000000;
      var remainder := n % 1000000;
      var millionText := if millions == 1 then "a million" else NumberToWords(millions) + " million";
      millionText + (if remainder != 0 then " " + NumberToWords(remainder) else "")
    else
      DecimalString(n)
  }

  /** Whether `pat` occurs in s at position i. */
  predicate OccursAt(s: string, pat: string, i: int) {
    0 <= i && i + |pat| <= |s| && s[i..i + |pat|] == pat
  }

  /** The position of the first occurrence of `pat` in s at or after `from`. */
  function FirstOccurrence(s: string, pat: string, from: nat): (k: int)
    requires from <= |s|
    decreases |s| - from
    ensures k == -1 || from <= k <= |s|
    ensures k >= 0 ==> OccursAt(s, pat, k)
    ensures forall i :: from <= i && (k < 0 || i < k) ==> !OccursAt(s, pat, i)
  {
    if OccursAt(s, pat, from) then from
    else if from == |s| then -1
    else FirstOccurrence(s, pat, from + 1)
  }

  /** `s.replace(pat, rep)` with a string pattern: only the first occurrence
      is replaced; without one, s is returned unchanged. */
  function ReplaceFirst(s: string, pat: string, rep: string): (r: string)
    ensures (forall i :: !OccursAt(s, pat, i)) ==> r == s
    ensures forall k :: OccursAt(s, pat, k) && (forall i :: 0 <= i < k ==> !OccursAt(s, pat, i))
                   ==> r == s[..k] + rep + s[k + |pat|..]
  {
    var k := FirstOccurrence(s, pat, 0);
    if k < 0 then s else s[..k] + rep + s[k + |pat|..]
  }

  /** `numberToOrdinal`: like the cardinal words, but the last segment comes
      from the ordinal tables and a round hundred, thousand or million gets
      "th". The hundreds word is taken from the ORDINAL ones table, as in the
      code (200 reads "second hundredth"); thousand and million groups use
      the cardinal words. */
  function NumberToOrdinal(n: nat): (r: string)
    ensures |r| > 0
    ensures n >= Billion ==> r == DecimalString(n) + "th"
  {
    if n == 0 then "zeroth"
    else if n < 10 then OrdinalOnes[n]
    else if n < 20 then OrdinalTeens[n - 10]
    else if n < 100 then
      if n % 10 == 0 then OrdinalTens[n / 10]
      else
        var tensPlace := n / 10;
        var onesPlace := n % 10;
        ReplaceFirst(OrdinalTens[tensPlace], "ieth", "y-") + OrdinalOnes[onesPlace]
    else if n < 1000 then
      var hundreds := n / 100;
      var remainder := n % 100;
      var hundredText := if hundreds == 1 then "a hundred" else OrdinalOnes[hundreds] + " hundred";
      if remainder == 0 then hundredText + "th"
      else hundredText + " and " + NumberToOrdinal(remainder)
    else if n < 1000000 then
      var thousands := n / 1000;
      var remainder := n % 1000;
      var thousandText := if thousands == 1 then "a thousand" else NumberToWords(thousands) + " thousand";
      if remainder == 0 then thousandText + "th"
      else thousandText + " " + NumberToOrdinal(remainder)
    else if n < Billion then
      var millions := n / 1000000;
      var remainder := n % 1000000;
      var millionText := if millions == 1 then "a million" else NumberToWords(millions) + " million";
      if remainder == 0 then millionText + "th"
      else millionText + " " + NumberToOrdinal(remainder)
    else
      DecimalString(n) + "th"
  }

  /** The suffix `numberToOrdinalSuffix` picks: "th" when the last two digits
      are 11 to 13, otherwise "st", "nd" or "rd" for a last digit of 1, 2 or
      3, and "th" for every other digit. */
  function SuffixFor(lastTwoDigits: nat, lastDigit: nat): (s: string)
    ensures |s| == 2
    ensures s == "th" <==> 11 <= lastTwoDigits <= 13 || !(1 <= lastDigit <= 3)
  {
    if 11 <= lastTwoDigits <= 13 then "th"
    else if lastDigit == 1 then "st"
    else if lastDigit == 2 then "nd"
    else if lastDigit == 3 then "rd"
    else "th"
  }

  /** The bands of the cardinal converter above a hundred: a group word,
      then the rest after " and " (hundreds) or " " (thousands, millions). */
  lemma WordsHundredsShape(n: nat)
    requires 100 <= n < 1000
    ensures NumberToWords(n) == (if n / 100 == 1 then "a hundred" else CardinalOnes[n / 100] + " hundred")
                                + (if n % 100 != 0 then " and " + NumberToWords(n % 100) else "")
  {
  }

  lemma WordsThousandsShape(n: nat)
    requires 1000 <= n < 1000000
    ensures NumberToWords(n) == (if n / 1000 == 1 then "a thousand" else NumberToWords(n / 1000) + " thousand")
                                + (if n % 1000 != 0 then " " + NumberToWords(n % 1000) else "")
  {
  }

  lemma WordsMillionsShape(n: nat)
    requires 1000000 <= n < Billion
    ensures NumberToWords(n) == (if n / 1000000 == 1 then "a million" else NumberToWords(n / 1000000) + " million")
                                + (if n % 1000000 != 0 then " " + NumberToWords(n % 1000000) else "")
  {
  }

  /** The bands of the ordinal converter above a hundred: the group word
      followed by "th" when the rest is zero, and otherwise by the ordinal of
      the rest. */
  lemma OrdinalHundredsShape(n: nat)
    requires 100 <= n < 1000
    ensures var head := if n / 100 == 1 then "a hundred" else OrdinalOnes[n / 100] + " hundred";
      NumberToOrdinal(n) == if n % 100 == 0 then head + "th" else head + " and " + NumberToOrdinal(n % 100)
  {
  }

  lemma OrdinalThousandsShape(n: nat)
    requires 1000 <= n < 1000000
    ensures var head := if n / 1000 == 1 then "a thousand" else NumberToWords(n / 1000) + " thousand";
      NumberToOrdinal(n) == if n % 1000 == 0 then head + "th" else head + " " + NumberToOrdinal(n % 1000)
  {
  }

  lemma OrdinalMillionsShape(n: nat)
    requires 1000000 <= n < Billion
    ensures var head := if n / 1000000 == 1 then "a million" else NumberToWords(n / 1000000) + " million";
      NumberToOrdinal(n) == if n % 1000000 == 0 then head + "th" else head + " " + NumberToOrdinal(n % 1000000)
  {
  }

  /** `numberToOrdinalSuffix`: the en-US grouped numeral followed by the
      suffix of its last two digits. */
  function NumberToOrdinalSuffix(n: nat): (r: string)
    ensures |r| == |GroupedDecimal(n)| + 2
    ensures r[..|r| - 2] == GroupedDecimal(n)
    ensures r[|r| - 2..] == SuffixFor(n % 100, n % 10)
  {
    var lastTwoDigits := n % 100;
    var lastDigit := n % 10;
    var formattedNum := GroupedDecimal(n);
    formattedNum + SuffixFor(lastTwoDigits, lastDigit)
  }
}
