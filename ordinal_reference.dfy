/** An independent reference for ordinal words: the English rule that forms
    an ordinal from a cardinal by changing only its last word. It is used to
    pin down exactly where the ordinal converter departs from that rule. */
module EnglishOrdinal {
  import opened Text
  import opened Decimal
  import opened NumberWords

  /** The characters that end a word inside rendered number words. */
  predicate IsSeparator(c: char) { c == ' ' || c == '-' }

  /** The English ordinal of a single cardinal word: the irregular forms,
      "-y" becomes "-ieth", and otherwise "th" is appended. */
  function OrdinalOfWord(w: string): (r: string)
    ensures |r| >= 2 && r[|r| - 2..] in ["st", "nd", "rd", "th"]
  {
    if w == "one" then "first"
    else if w == "two" then "second"
    else if w == "three" then "third"
    else if w == "five" then "fifth"
    else if w == "eight" then "eighth"
    else if w == "nine" then "ninth"
    else if w == "twelve" then "twelfth"
    else if w != [] && w[|w| - 1] == 'y' then
      var stem := w[..|w| - 1];
      assert (stem + "ieth")[|stem| + 2..] == "th";
      stem + "ieth"
    else
      assert (w + "th")[|w|..] == "th";
      w + "th"
  }

  /** Where the last word of s starts: just after its last separator, or 0. */
  function LastWordStart(s: string): (k: nat)
    ensures k <= |s| && (k == 0 || IsSeparator(s[k - 1]))
    ensures forall i :: k <= i < |s| ==> !IsSeparator(s[i])
  {
    if s == [] || IsSeparator(s[|s| - 1]) then |s| else LastWordStart(s[..|s| - 1])
  }

  /** The last word of s. */
  function LastWord(s: string): (w: string)
    ensures forall i :: 0 <= i < |w| ==> !IsSeparator(w[i])
  {
    s[LastWordStart(s)..]
  }

  /** s with its last word replaced by w. */
  function WithLastWord(s: string, w: string): (r: string)
  {
    s[..LastWordStart(s)] + w
  }

  /** The English ordinal of a phrase: its last word made ordinal. */
  function Ordinalize(s: string): (r: string)
    ensures |r| >= 2 && r[|r| - 2..] in ["st", "nd", "rd", "th"]
  {
    var last := OrdinalOfWord(LastWord(s));
    var k := LastWordStart(s);
    assert (s[..k] + last)[k + |last| - 2..] == last[|last| - 2..];
    WithLastWord(s, last)
  }

  /** The two properties of LastWordStart determine it. */
  lemma LastWordStartUnique(s: string, k: nat)
    requires k <= |s| && (k == 0 || IsSeparator(s[k - 1]))
    requires forall i :: k <= i < |s| ==> !IsSeparator(s[i])
    ensures LastWordStart(s) == k
  {
    var m := LastWordStart(s);
    assert k > 0 ==> IsSeparator(s[k - 1]);
    assert m > 0 ==> IsSeparator(s[m - 1]);
  }

  /** A separator before b makes b's last word the last word of the whole. */
  lemma LastWordStartAfter(a: string, c: char, b: string)
    requires IsSeparator(c)
    ensures LastWordStart(a + [c] + b) == |a| + 1 + LastWordStart(b)
  {
    var s := a + [c] + b;
    var kb := LastWordStart(b);
    var k := |a| + 1 + kb;
    assert s[k - 1] == if kb == 0 then c else b[kb - 1];
    forall i | k <= i < |s| ensures !IsSeparator(s[i]) {
      assert s[i] == b[i - |a| - 1];
    }
    LastWordStartUnique(s, k);
  }

  /** Only the part after the last separator is affected. */
  lemma WithLastWordAfter(a: string, c: char, b: string, w: string)
    requires IsSeparator(c)
    ensures LastWord(a + [c] + b) == LastWord(b)
    ensures WithLastWord(a + [c] + b, w) == a + [c] + WithLastWord(b, w)
  {
    var s := a + [c] + b;
    var kb := LastWordStart(b);
    var k := |a| + 1 + kb;
    LastWordStartAfter(a, c, b);
    assert s[k..] == b[kb..];
    assert s[..k] == a + [c] + b[..kb];
  }

  /** Ordinalising a phrase after a separator ordinalises the part after it. */
  lemma OrdinalizeAfter(a: string, c: char, b: string)
    requires IsSeparator(c)
    ensures Ordinalize(a + [c] + b) == a + [c] + Ordinalize(b)
  {
    WithLastWordAfter(a, c, b, OrdinalOfWord(LastWord(b)));
  }

  /** A single word is ordinalised as a whole. */
  lemma OrdinalizeWord(w: string)
    requires forall i :: 0 <= i < |w| ==> !IsSeparator(w[i])
    ensures Ordinalize(w) == OrdinalOfWord(w)
  {
    LastWordStartUnique(w, 0);
    assert w[0..] == w;
  }

  /** The ordinal tables agree with the English rule applied to the cardinal
      tables, entry by entry. */
  lemma OnesOrdinal(d: nat)
    requires 1 <= d < 10
    ensures OrdinalOfWord(CardinalOnes[d]) == OrdinalOnes[d]
  {
    if d == 1 {
      assert CardinalOnes[1] == "one";
      assert OrdinalOfWord("one") == "first";
    } else if d == 2 {
      assert CardinalOnes[2] == "two";
      assert OrdinalOfWord("two") == "second";
    } else if d == 3 {
      assert CardinalOnes[3] == "three";
      assert OrdinalOfWord("three") == "third";
    } else if d == 4 {
      assert CardinalOnes[4] == "four";
      assert OrdinalOfWord("four") == "fourth";
    } else if d == 5 {
      assert CardinalOnes[5] == "five";
      assert OrdinalOfWord("five") == "fifth";
    } else if d == 6 {
      assert CardinalOnes[6] == "six";
      assert OrdinalOfWord("six") == "sixth";
    } else if d == 7 {
      assert CardinalOnes[7] == "seven";
      assert OrdinalOfWord("seven") == "seventh";
    } else if d == 8 {
      assert CardinalOnes[8] == "eight";
      assert OrdinalOfWord("eight") == "eighth";
    } else {
      assert CardinalOnes[9] == "nine";
      assert OrdinalOfWord("nine") == "ninth";
    }
  }

  lemma TeensOrdinal(d: nat)
    requires 0 <= d < 10
    ensures OrdinalOfWord(CardinalTeens[d]) == OrdinalTeens[d]
  {
    if d < 5 {
      LowerTeensOrdinal(d);
    } else {
      UpperTeensOrdinal(d);
    }
  }

  lemma LowerTeensOrdinal(d: nat)
    requires 0 <= d < 5
    ensures OrdinalOfWord(CardinalTeens[d]) == OrdinalTeens[d]
  {
    if d == 0 {
      assert CardinalTeens[0] == "ten";
      assert OrdinalOfWord("ten") == "tenth";
    } else if d == 1 {
      assert CardinalTeens[1] == "eleven";
      assert OrdinalOfWord("eleven") == "eleventh";
    } else if d == 2 {
      assert CardinalTeens[2] == "twelve";
      assert OrdinalOfWord("twelve") == "twelfth";
    } else if d == 3 {
      assert CardinalTeens[3] == "thirteen";
      assert OrdinalOfWord("thirteen") == "thirteenth";
    } else {
      assert CardinalTeens[4] == "fourteen";
      assert OrdinalOfWord("fourteen") == "fourteenth";
    }
  }

  lemma UpperTeensOrdinal(d: nat)
    requires 5 <= d < 10
    ensures OrdinalOfWord(CardinalTeens[d]) == OrdinalTeens[d]
  {
    if d == 5 {
      assert CardinalTeens[5] == "fifteen";
      assert OrdinalOfWord("fifteen") == "fifteenth";
    } else if d == 6 {
      assert CardinalTeens[6] == "sixteen";
      assert OrdinalOfWord("sixteen") == "sixteenth";
    } else if d == 7 {
      assert CardinalTeens[7] == "seventeen";
      assert OrdinalOfWord("seventeen") == "seventeenth";
    } else if d == 8 {
      assert CardinalTeens[8] == "eighteen";
      assert OrdinalOfWord("eighteen") == "eighteenth";
    } else {
      assert CardinalTeens[9] == "nineteen";
      assert OrdinalOfWord("nineteen") == "nineteenth";
    }
  }

  lemma TensOrdinal(d: nat)
    requires 2 <= d < 10
    ensures OrdinalOfWord(CardinalTens[d]) == OrdinalTens[d]
  {
    if d == 2 {
      assert CardinalTens[2] == "twenty";
      assert OrdinalOfWord("twenty") == "twentieth";
    } else if d == 3 {
      assert CardinalTens[3] == "thirty";
      assert OrdinalOfWord("thirty") == "thirtieth";
    } else if d == 4 {
      assert CardinalTens[4] == "forty";
      assert OrdinalOfWord("forty") == "fortieth";
    } else if d == 5 {
      assert CardinalTens[5] == "fifty";
      assert OrdinalOfWord("fifty") == "fiftieth";
    } else if d == 6 {
      assert CardinalTens[6] == "sixty";
      assert OrdinalOfWord("sixty") == "sixtieth";
    } else if d == 7 {
      assert CardinalTens[7] == "seventy";
      assert OrdinalOfWord("seventy") == "seventieth";
    } else if d == 8 {
      assert CardinalTens[8] == "eighty";
      assert OrdinalOfWord("eighty") == "eightieth";
    } else {
      assert CardinalTens[9] == "ninety";
      assert OrdinalOfWord("ninety") == "ninetieth";
    }
  }

  /** Replacing the first "ieth" of stem + "ieth" touches only that ending,
      when no earlier "ie" pair is in the way. */
  lemma StemSuffix(stem: string)
    requires forall i :: 0 <= i < |stem| ==> !(stem[i] == 'i' && (stem + "ieth")[i + 1] == 'e')
    ensures ReplaceFirst(stem + "ieth", "ieth", "y-") == stem + "y-"
  {
    var s := stem + "ieth";
    forall i | 0 <= i < |stem| ensures !OccursAt(s, "ieth", i) {
      assert s[i..i + 4][0] == s[i] && s[i..i + 4][1] == s[i + 1];
      assert s[i] == stem[i];
    }
    assert OccursAt(s, "ieth", |stem|);
    assert s[..|stem|] == stem && s[|stem| + 4..] == [];
  }

  /** Line 76's replacement turns an ordinal tens word into the cardinal tens
      word followed by a hyphen. */
  lemma TensStem(k: nat)
    requires 2 <= k < 10
    ensures ReplaceFirst(OrdinalTens[k], "ieth", "y-") == CardinalTens[k] + "-"
  {
    if k == 2 {
      assert OrdinalTens[2] == "twent" + "ieth" && CardinalTens[2] + "-" == "twent" + "y-";
      StemSuffix("twent");
    } else if k == 3 {
      assert OrdinalTens[3] == "thirt" + "ieth" && CardinalTens[3] + "-" == "thirt" + "y-";
      StemSuffix("thirt");
    } else if k == 4 {
      assert OrdinalTens[4] == "fort" + "ieth" && CardinalTens[4] + "-" == "fort" + "y-";
      StemSuffix("fort");
    } else if k == 5 {
      assert OrdinalTens[5] == "fift" + "ieth" && CardinalTens[5] + "-" == "fift" + "y-";
      StemSuffix("fift");
    } else if k == 6 {
      assert OrdinalTens[6] == "sixt" + "ieth" && CardinalTens[6] + "-" == "sixt" + "y-";
      StemSuffix("sixt");
    } else if k == 7 {
      assert OrdinalTens[7] == "sevent" + "ieth" && CardinalTens[7] + "-" == "sevent" + "y-";
      StemSuffix("sevent");
    } else if k == 8 {
      assert OrdinalTens[8] == "eight" + "ieth" && CardinalTens[8] + "-" == "eight" + "y-";
      StemSuffix("eight");
    } else {
      assert OrdinalTens[9] == "ninet" + "ieth" && CardinalTens[9] + "-" == "ninet" + "y-";
      StemSuffix("ninet");
    }
  }

  /** Dropping a common prefix keeps equality and disequality. */
  lemma PrefixCancel(p: string, x: string, y: string)
    ensures p + x == p + y <==> x == y
  {
    if p + x == p + y {
      assert x == (p + x)[|p|..] && y == (p + y)[|p|..];
    }
  }

  /** A numeral has no separator and no irregular ordinal: it takes "th". */
  lemma OrdinalizeNumeral(n: nat)
    ensures Ordinalize(DecimalString(n)) == DecimalString(n) + "th"
  {
    var s := DecimalString(n);
    assert forall i :: 0 <= i < |s| ==> !IsSeparator(s[i]);
    OrdinalizeWord(s);
    DigitWordRegular(s);
  }

  /** A word starting and ending with a digit is no irregular word and does
      not end in "y". */
  lemma DigitWordRegular(w: string)
    requires |w| > 0 && IsDigit(w[0]) && IsDigit(w[|w| - 1])
    ensures OrdinalOfWord(w) == w + "th"
  {
    assert w != "one" && w != "two" && w != "three" && w != "five" && w != "eight" && w != "nine" && w != "twelve" by {
      assert w[0] != 'o' && w[0] != 't' && w[0] != 'f' && w[0] != 'e' && w[0] != 'n';
    }
  }

  /** One to nineteen: a single table word. */
  lemma OrdinalSmall(n: nat)
    requires 0 < n < 20
    ensures NumberToOrdinal(n) == Ordinalize(NumberToWords(n))
  {
    CardinalTablesPlain();
    if n < 10 {
      assert NumberToWords(n) == CardinalOnes[n] && NumberToOrdinal(n) == OrdinalOnes[n];
      OrdinalizeWord(CardinalOnes[n]);
      OnesOrdinal(n);
    } else {
      assert NumberToWords(n) == CardinalTeens[n - 10] && NumberToOrdinal(n) == OrdinalTeens[n - 10];
      OrdinalizeWord(CardinalTeens[n - 10]);
      TeensOrdinal(n - 10);
    }
  }

  /** A hyphenated tens word: line 76's rewriting of the tens word agrees with
      ordinalising the part after the hyphen. */
  lemma HyphenOrdinal(t: nat, o: nat)
    requires 2 <= t < 10 && 1 <= o < 10
    ensures ReplaceFirst(OrdinalTens[t], "ieth", "y-") + OrdinalOnes[o]
            == Ordinalize(CardinalTens[t] + "-" + CardinalOnes[o])
  {
    CardinalTablesPlain();
    assert CardinalTens[t] + "-" + CardinalOnes[o] == CardinalTens[t] + ['-'] + CardinalOnes[o];
    OrdinalizeAfter(CardinalTens[t], '-', CardinalOnes[o]);
    OrdinalizeWord(CardinalOnes[o]);
    OnesOrdinal(o);
    TensStem(t);
  }

  /** Twenty to ninety-nine. */
  lemma OrdinalTensBand(n: nat)
    requires 20 <= n < 100
    ensures NumberToOrdinal(n) == Ordinalize(NumberToWords(n))
  {
    if n % 10 == 0 {
      CardinalTablesPlain();
      assert NumberToWords(n) == CardinalTens[n / 10] && NumberToOrdinal(n) == OrdinalTens[n / 10];
      OrdinalizeWord(CardinalTens[n / 10]);
      TensOrdinal(n / 10);
    } else {
      assert NumberToWords(n) == CardinalTens[n / 10] + "-" + CardinalOnes[n % 10];
      assert NumberToOrdinal(n) == ReplaceFirst(OrdinalTens[n / 10], "ieth", "y-") + OrdinalOnes[n % 10];
      HyphenOrdinal(n / 10, n % 10);
    }
  }

  /** Below a hundred the converter's ordinal is the English ordinal of the
      cardinal. */
  lemma OrdinalBelowHundred(n: nat)
    requires n < 100
    ensures NumberToOrdinal(n) == Ordinalize(NumberToWords(n))
  {
    if n == 0 {
      OrdinalizeWord("zero");
      assert OrdinalOfWord("zero") == "zeroth";
    } else if n < 20 {
      OrdinalSmall(n);
    } else {
      OrdinalTensBand(n);
    }
  }

  /** Two to nine hundred: the converter writes the hundreds digit as an
      ordinal ("second hundred"), where the English ordinal keeps it cardinal
      ("two hundred"); the texts already differ inside that first word. */
  lemma HundredsWordDiffers(h: nat, x: string, y: string)
    requires 2 <= h < 10
    requires OrdinalOnes[h] <= x && CardinalOnes[h] + [' '] <= y
    ensures x != y
  {
    if h == 2 {
      assert OrdinalOnes[2] == "second" && CardinalOnes[2] == "two";
      assert x[0] == "second"[0] && y[0] == "two "[0];
    } else if h == 3 {
      assert OrdinalOnes[3] == "third" && CardinalOnes[3] == "three";
      assert x[3] == "third"[3] && y[3] == "three "[3];
    } else if h == 4 {
      assert OrdinalOnes[4] == "fourth" && CardinalOnes[4] == "four";
      assert x[4] == "fourth"[4] && y[4] == "four "[4];
    } else if h == 5 {
      assert OrdinalOnes[5] == "fifth" && CardinalOnes[5] == "five";
      assert x[2] == "fifth"[2] && y[2] == "five "[2];
    } else if h == 6 {
      assert OrdinalOnes[6] == "sixth" && CardinalOnes[6] == "six";
      assert x[3] == "sixth"[3] && y[3] == "six "[3];
    } else if h == 7 {
      assert OrdinalOnes[7] == "seventh" && CardinalOnes[7] == "seven";
      assert x[5] == "seventh"[5] && y[5] == "seven "[5];
    } else if h == 8 {
      assert OrdinalOnes[8] == "eighth" && CardinalOnes[8] == "eight";
      assert x[5] == "eighth"[5] && y[5] == "eight "[5];
    } else {
      assert OrdinalOnes[9] == "ninth" && CardinalOnes[9] == "nine";
      assert x[3] == "ninth"[3] && y[3] == "nine "[3];
    }
  }

  /** The group words are plain words that take "th". */
  lemma GroupWords()
    ensures IsPlainWord("hundred") && OrdinalOfWord("hundred") == "hundred" + "th"
    ensures IsPlainWord("thousand") && OrdinalOfWord("thousand") == "thousand" + "th"
    ensures IsPlainWord("million") && OrdinalOfWord("million") == "million" + "th"
  {
  }

  /** A group word ending a phrase takes "th": "a thousand" becomes
      "a thousandth". */
  lemma OrdinalizeGroup(a: string, unit: string)
    requires IsPlainWord(unit) && OrdinalOfWord(unit) == unit + "th"
    ensures Ordinalize(a + [' '] + unit) == a + [' '] + unit + "th"
  {
    OrdinalizeAfter(a, ' ', unit);
    OrdinalizeWord(unit);
    AppendAssoc(a + [' '], unit, "th");
  }

  /** 100 to 199: "a hundred", then the English ordinal of the rest. */
  lemma OrdinalOneHundred(n: nat)
    requires 100 <= n < 200
    ensures NumberToOrdinal(n) == Ordinalize(NumberToWords(n))
  {
    if n == 100 {
      assert NumberToWords(n) == "a" + [' '] + "hundred";
      assert NumberToOrdinal(n) == "a" + [' '] + "hundred" + "th";
      GroupWords();
      OrdinalizeGroup("a", "hundred");
    } else {
      OrdinalHundredAnd(n);
    }
  }

  /** 101 to 199: "a hundred and", then the English ordinal of the rest. */
  lemma OrdinalHundredAnd(n: nat)
    requires 100 < n < 200
    ensures NumberToOrdinal(n) == Ordinalize(NumberToWords(n))
  {
    var rem := n - 100;
    var prefix := "a hundred and";
    var words, ordinal := NumberToWords(rem), NumberToOrdinal(rem);
    assert NumberToWords(n) == prefix + [' '] + words && NumberToOrdinal(n) == prefix + [' '] + ordinal by {
      assert n / 100 == 1 && n % 100 == rem;
      WordsHundredsShape(n);
      OrdinalHundredsShape(n);
      assert prefix + [' '] == "a hundred" + " and ";
      AppendAssoc("a hundred", " and ", words);
    }
    assert ordinal == Ordinalize(words) by {
      OrdinalBelowHundred(rem);
    }
    SharedPrefix(prefix, words, ordinal, NumberToWords(n), NumberToOrdinal(n));
  }

  /** 200 to 999: the ordinal hundreds word (line 82) makes the converter
      depart from the English ordinal. */
  lemma OrdinalSeveralHundred(n: nat)
    requires 200 <= n < 1000
    ensures NumberToOrdinal(n) != Ordinalize(NumberToWords(n))
  {
    OrdinalHundredsHead(n);
    WordsHundredsHead(n);
    HundredsWordDiffers(n / 100, NumberToOrdinal(n), Ordinalize(NumberToWords(n)));
  }

  /** From two hundred on, the ordinal starts with the ordinal hundreds word. */
  lemma OrdinalHundredsHead(n: nat)
    requires 200 <= n < 1000
    ensures OrdinalOnes[n / 100] <= NumberToOrdinal(n)
  {
    var h := n / 100;
    var head := OrdinalOnes[h] + " hundred";
    OrdinalHundredsShape(n);
    var x := NumberToOrdinal(n);
    assert head <= x;
    assert x[..|OrdinalOnes[h]|] == head[..|OrdinalOnes[h]|];
  }

  /** From two hundred on, the English ordinal of the words starts with the
      cardinal hundreds word and a space. */
  lemma WordsHundredsHead(n: nat)
    requires 200 <= n < 1000
    ensures CardinalOnes[n / 100] + [' '] <= Ordinalize(NumberToWords(n))
  {
    var rest := if n % 100 != 0 then " and " + NumberToWords(n % 100) else "";
    assert NumberToWords(n) == CardinalOnes[n / 100] + " hundred" + rest by {
      WordsHundredsShape(n);
    }
    HundredPhraseHead(CardinalOnes[n / 100], rest);
  }

  /** The English ordinal of "<w> hundred..." starts with "<w> ". */
  lemma HundredPhraseHead(w: string, rest: string)
    ensures w + [' '] <= Ordinalize(w + " hundred" + rest)
  {
    var words := "hundred" + rest;
    AppendAssoc(w, " hundred", rest);
    assert " hundred" + rest == [' '] + words;
    AppendAssoc(w, [' '], words);
    OrdinalizeAfter(w, ' ', words);
  }

  /** Below a thousand the converter agrees with the English ordinal exactly
      below 200. */
  lemma OrdinalBelowThousand(n: nat)
    requires n < 1000
    ensures NumberToOrdinal(n) == Ordinalize(NumberToWords(n)) <==> n < 200
  {
    if n < 100 {
      OrdinalBelowHundred(n);
    } else if n < 200 {
      OrdinalOneHundred(n);
    } else {
      OrdinalSeveralHundred(n);
    }
  }

  /** The thousands band: the group words are cardinal on both sides, so
      agreement is decided by the last three digits. */
  lemma OrdinalThousands(n: nat)
    requires 1000 <= n < 1000000
    ensures NumberToOrdinal(n) == Ordinalize(NumberToWords(n)) <==> n % 1000 < 200
  {
    if n % 1000 == 0 {
      OrdinalThousandsExact(n);
    } else {
      OrdinalThousandsRest(n);
    }
  }

  /** A round number of thousands ends in "thousandth". */
  lemma OrdinalThousandsExact(n: nat)
    requires 1000 <= n < 1000000 && n % 1000 == 0
    ensures NumberToOrdinal(n) == Ordinalize(NumberToWords(n))
  {
    var th := n / 1000;
    var lead := if th == 1 then "a" else NumberToWords(th);
    var group := lead + [' '] + "thousand";
    assert group == if th == 1 then "a thousand" else NumberToWords(th) + " thousand";
    assert NumberToWords(n) == group;
    assert NumberToOrdinal(n) == group + "th";
    GroupWords();
    OrdinalizeGroup(lead, "thousand");
  }

  /** Otherwise the group words are shared and the rest decides. */
  lemma OrdinalThousandsRest(n: nat)
    requires 1000 <= n < 1000000 && n % 1000 != 0
    ensures NumberToOrdinal(n) == Ordinalize(NumberToWords(n)) <==> n % 1000 < 200
  {
    var th := n / 1000;
    var rem := n % 1000;
    var group := if th == 1 then "a thousand" else NumberToWords(th) + " thousand";
    var words, ordinal := NumberToWords(rem), NumberToOrdinal(rem);
    assert NumberToWords(n) == group + [' '] + words by {
      WordsThousandsShape(n);
      AppendAssoc(group, [' '], words);
    }
    assert NumberToOrdinal(n) == group + [' '] + ordinal by {
      OrdinalThousandsShape(n);
    }
    assert ordinal == Ordinalize(words) <==> rem < 200 by {
      OrdinalBelowThousand(rem);
    }
    SharedPrefix(group, words, ordinal, NumberToWords(n), NumberToOrdinal(n));
  }

  /** Below a million, agreement is decided by the last three digits. */
  lemma OrdinalBelowMillion(n: nat)
    requires n < 1000000
    ensures NumberToOrdinal(n) == Ordinalize(NumberToWords(n)) <==> n % 1000 < 200
  {
    if n < 1000 {
      assert n % 1000 == n;
      OrdinalBelowThousand(n);
    } else {
      OrdinalThousands(n);
    }
  }

  lemma ThousandsOfMillions(n: nat)
    ensures (n % 1000000) % 1000 == n % 1000
  {
    var r := n % 1000000;
    assert r == 1000 * (r / 1000) + r % 1000;
    assert n == 1000 * (1000 * (n / 1000000) + r / 1000) + r % 1000;
  }

  lemma MillionsSplit(n: nat)
    requires 1000000 <= n < Billion && n % 1000000 != 0
    ensures var group := if n / 1000000 == 1 then "a million" else NumberToWords(n / 1000000) + " million";
      && NumberToWords(n) == group + [' '] + NumberToWords(n % 1000000)
      && NumberToOrdinal(n) == group + [' '] + NumberToOrdinal(n % 1000000)
  {
    var group := if n / 1000000 == 1 then "a million" else NumberToWords(n / 1000000) + " million";
    WordsMillionsShape(n);
    OrdinalMillionsShape(n);
    AppendAssoc(group, [' '], NumberToWords(n % 1000000));
  }

  /** When both texts continue a shared group phrase after a space, the
      ordinal text is the English ordinal of the words exactly when the rest
      is. */
  lemma SharedPrefix(group: string, words: string, ordinal: string, allWords: string, allOrdinal: string)
    requires allWords == group + [' '] + words && allOrdinal == group + [' '] + ordinal
    ensures allOrdinal == Ordinalize(allWords) <==> ordinal == Ordinalize(words)
  {
    OrdinalizeAfter(group, ' ', words);
    PrefixCancel(group + [' '], ordinal, Ordinalize(words));
  }

  /** The millions band. */
  lemma OrdinalMillions(n: nat)
    requires 1000000 <= n < Billion
    ensures NumberToOrdinal(n) == Ordinalize(NumberToWords(n)) <==> n % 1000 < 200
  {
    if n % 1000000 == 0 {
      OrdinalMillionsExact(n);
      ThousandsOfMillions(n);
    } else {
      OrdinalMillionsRest(n);
    }
  }

  /** A round number of millions ends in "millionth". */
  lemma OrdinalMillionsExact(n: nat)
    requires 1000000 <= n < Billion && n % 1000000 == 0
    ensures NumberToOrdinal(n) == Ordinalize(NumberToWords(n))
  {
    var mi := n / 1000000;
    var lead := if mi == 1 then "a" else NumberToWords(mi);
    var group := lead + [' '] + "million";
    assert group == if mi == 1 then "a million" else NumberToWords(mi) + " million";
    assert NumberToWords(n) == group;
    assert NumberToOrdinal(n) == group + "th";
    GroupWords();
    OrdinalizeGroup(lead, "million");
  }

  /** Otherwise the group words are shared and the rest decides. */
  lemma OrdinalMillionsRest(n: nat)
    requires 1000000 <= n < Billion && n % 1000000 != 0
    ensures NumberToOrdinal(n) == Ordinalize(NumberToWords(n)) <==> n % 1000 < 200
  {
    var mi := n / 1000000;
    var rem := n % 1000000;
    var group := if mi == 1 then "a million" else NumberToWords(mi) + " million";
    var words, ordinal := NumberToWords(rem), NumberToOrdinal(rem);
    assert NumberToWords(n) == group + [' '] + words && NumberToOrdinal(n) == group + [' '] + ordinal by {
      MillionsSplit(n);
    }
    assert ordinal == Ordinalize(words) <==> n % 1000 < 200 by {
      OrdinalBelowMillion(rem);
      ThousandsOfMillions(n);
    }
    SharedPrefix(group, words, ordinal, NumberToWords(n), NumberToOrdinal(n));
  }

  /** The ordinal converter writes the English ordinal of the cardinal words
      (the last word made ordinal) exactly when the last three digits are
      below 200 or the number is at least a billion; otherwise its hundreds
      word is ordinal where English keeps it cardinal. */
  lemma OrdinalVersusEnglish(n: nat)
    ensures NumberToOrdinal(n) == Ordinalize(NumberToWords(n)) <==> n >= Billion || n % 1000 < 200
  {
    if n < 1000000 {
      OrdinalBelowMillion(n);
    } else if n < Billion {
      OrdinalMillions(n);
    } else {
      OrdinalizeNumeral(n);
    }
  }
}
