/** Reading cardinal words back into a number. The reader inverts
    `numberToWords` on everything that function produces, which shows that
    distinct numbers are never given the same words. */
module WordsParse {
  import opened Text
  import opened Decimal
  import opened NumberWords

  /** The value of each word of a cardinal: the ones, teens and tens words,
      and "a" as in "a hundred". */
  const Vocabulary: map<string, nat> := map[
    "a" := 1, "one" := 1, "two" := 2, "three" := 3, "four" := 4, "five" := 5,
    "six" := 6, "seven" := 7, "eight" := 8, "nine" := 9,
    "ten" := 10, "eleven" := 11, "twelve" := 12, "thirteen" := 13, "fourteen" := 14,
    "fifteen" := 15, "sixteen" := 16, "seventeen" := 17, "eighteen" := 18, "nineteen" := 19,
    "twenty" := 20, "thirty" := 30, "forty" := 40, "fifty" := 50,
    "sixty" := 60, "seventy" := 70, "eighty" := 80, "ninety" := 90]

  /** The value of one word; every other word, "zero" among them, is 0. */
  function WordValue(w: string): nat
  {
    if w in Vocabulary then Vocabulary[w] else 0
  }

  /** The value of a token: a numeral reads as its digits, a hyphenated
      word such as "thirty-four" as the sum of its two halves. */
  function TokenValue(w: string): (v: nat)
  {
    if |w| > 0 && AllDigits(w) then DigitsValue(w)
    else
      var halves := Split(w, '-');
      if |halves| == 2 then WordValue(halves[0]) + WordValue(halves[1]) else WordValue(w)
  }

  /** The state of the reader: the value of the completed thousands and
      millions, and the value of the group being read. */
  datatype Reading = Reading(total: nat, group: nat) {
    /** The number read so far. */
    function Value(): nat { total + group }
  }

  /** One token: "hundred" scales the group, "thousand" and "million" move it
      into the total, "and" is skipped, and any other token adds its value. */
  function Step(st: Reading, w: string): (r: Reading)
  {
    if w == "hundred" then Reading(st.total, 100 * st.group)
    else if w == "thousand" then Reading(st.total + 1000 * st.group, 0)
    else if w == "million" then Reading(st.total + 1000000 * st.group, 0)
    else if w == "and" then st
    else Reading(st.total, st.group + TokenValue(w))
  }

  /** The tokens read from left to right. */
  function Run(st: Reading, ts: seq<string>): (r: Reading)
    decreases |ts|
  {
    if ts == [] then st else Run(Step(st, ts[0]), ts[1..])
  }

  /** Reads cardinal words, split at spaces. */
  function ParseCardinal(s: string): nat
  {
    Run(Reading(0, 0), Split(s, ' ')).Value()
  }

  /** Reading two token sequences in turn. */
  lemma {:induction false} RunAppend(st: Reading, a: seq<string>, b: seq<string>)
    ensures Run(st, a + b) == Run(Run(st, a), b)
    decreases |a|
  {
    if a == [] {
      assert a + b == b;
    } else {
      assert (a + b)[0] == a[0] && (a + b)[1..] == a[1..] + b;
      RunAppend(Step(st, a[0]), a[1..], b);
    }
  }

  lemma RunSingle(st: Reading, w: string)
    ensures Run(st, [w]) == Step(st, w)
  {
    assert [w][1..] == [];
  }

  // ---- the words of the tables

  /** A plain word holds no space, hyphen or digit. */
  lemma PlainWordChars(w: string)
    requires IsPlainWord(w)
    ensures ' ' !in w && '-' !in w && !AllDigits(w)
  {
    assert !IsDigit(w[0]);
  }

  lemma OnesValues(d: nat)
    requires 1 <= d < 10
    ensures WordValue(CardinalOnes[d]) == d
  {
    if d == 1 { assert CardinalOnes[d] == "one"; }
    else if d == 2 { assert CardinalOnes[d] == "two"; }
    else if d == 3 { assert CardinalOnes[d] == "three"; }
    else if d == 4 { assert CardinalOnes[d] == "four"; }
    else if d == 5 { assert CardinalOnes[d] == "five"; }
    else if d == 6 { assert CardinalOnes[d] == "six"; }
    else if d == 7 { assert CardinalOnes[d] == "seven"; }
    else if d == 8 { assert CardinalOnes[d] == "eight"; }
    else { assert CardinalOnes[d] == "nine"; }
  }

  lemma TeensValues(d: nat)
    requires 0 <= d < 10
    ensures WordValue(CardinalTeens[d]) == 10 + d
  {
    if d == 0 { assert CardinalTeens[d] == "ten"; }
    else if d == 1 { assert CardinalTeens[d] == "eleven"; }
    else if d == 2 { assert CardinalTeens[d] == "twelve"; }
    else if d == 3 { assert CardinalTeens[d] == "thirteen"; }
    else if d == 4 { assert CardinalTeens[d] == "fourteen"; }
    else if d == 5 { assert CardinalTeens[d] == "fifteen"; }
    else if d == 6 { assert CardinalTeens[d] == "sixteen"; }
    else if d == 7 { assert CardinalTeens[d] == "seventeen"; }
    else if d == 8 { assert CardinalTeens[d] == "eighteen"; }
    else { assert CardinalTeens[d] == "nineteen"; }
  }

  lemma TensValues(d: nat)
    requires 2 <= d < 10
    ensures WordValue(CardinalTens[d]) == 10 * d
  {
    if d == 2 { assert CardinalTens[d] == "twenty"; }
    else if d == 3 { assert CardinalTens[d] == "thirty"; }
    else if d == 4 { assert CardinalTens[d] == "forty"; }
    else if d == 5 { assert CardinalTens[d] == "fifty"; }
    else if d == 6 { assert CardinalTens[d] == "sixty"; }
    else if d == 7 { assert CardinalTens[d] == "seventy"; }
    else if d == 8 { assert CardinalTens[d] == "eighty"; }
    else { assert CardinalTens[d] == "ninety"; }
  }

  /** A single table word reads as its value. */
  lemma PlainTokenValue(w: string)
    requires IsPlainWord(w)
    ensures TokenValue(w) == WordValue(w)
  {
    PlainWordChars(w);
    SplitSingle(w, '-');
  }

  /** A table word is one token that reads as its value. */
  lemma TableToken(w: string, v: nat)
    requires IsPlainWord(w) && WordValue(w) == v
    ensures ' ' !in w && TokenValue(w) == v
  {
    PlainWordChars(w);
    PlainTokenValue(w);
  }

  /** One to nine, ten to nineteen, and the round tens. */
  lemma OnesToken(n: nat)
    requires 0 < n < 10
    ensures NumberToWords(n) == CardinalOnes[n]
    ensures ' ' !in NumberToWords(n) && TokenValue(NumberToWords(n)) == n
  {
    CardinalTablesPlain();
    OnesValues(n);
    TableToken(CardinalOnes[n], n);
  }

  lemma TeensToken(n: nat)
    requires 10 <= n < 20
    ensures NumberToWords(n) == CardinalTeens[n - 10]
    ensures ' ' !in NumberToWords(n) && TokenValue(NumberToWords(n)) == n
  {
    CardinalTablesPlain();
    TeensValues(n - 10);
    TableToken(CardinalTeens[n - 10], n);
  }

  lemma RoundTensToken(n: nat)
    requires 20 <= n < 100 && n % 10 == 0
    ensures NumberToWords(n) == CardinalTens[n / 10]
    ensures ' ' !in NumberToWords(n) && TokenValue(NumberToWords(n)) == n
  {
    CardinalTablesPlain();
    TensValues(n / 10);
    TableToken(CardinalTens[n / 10], n);
  }

  /** Below a hundred the words are one token that reads as the number. */
  lemma SmallToken(n: nat)
    requires n < 100
    ensures ' ' !in NumberToWords(n)
    ensures TokenValue(NumberToWords(n)) == n
  {
    if n == 0 {
      TableToken("zero", 0);
    } else if n < 10 {
      OnesToken(n);
    } else if n < 20 {
      TeensToken(n);
    } else if n % 10 == 0 {
      RoundTensToken(n);
    } else {
      HyphenToken(n);
    }
  }

  /** "thirty-four" reads as thirty plus four. */
  lemma HyphenToken(n: nat)
    requires 20 <= n < 100 && n % 10 != 0
    ensures ' ' !in NumberToWords(n)
    ensures TokenValue(NumberToWords(n)) == n
  {
    CardinalTablesPlain();
    var d, e := n / 10, n % 10;
    var t, o := CardinalTens[d], CardinalOnes[e];
    assert NumberToWords(n) == t + "-" + o;
    HyphenValue(t, o);
    TensValues(d);
    OnesValues(e);
  }

  /** Two plain words joined by a hyphen read as the sum of their values. */
  lemma HyphenValue(t: string, o: string)
    requires IsPlainWord(t) && IsPlainWord(o)
    ensures ' ' !in t + "-" + o
    ensures TokenValue(t + "-" + o) == WordValue(t) + WordValue(o)
  {
    var w := t + "-" + o;
    PlainWordChars(t);
    PlainWordChars(o);
    assert !IsDigit(w[0]);
    assert w == t + ['-'] + o;
    SplitJoin(t, '-', o);
    SplitSingle(t, '-');
    SplitSingle(o, '-');
  }

  // ---- the tokens of each band

  /** Splitting at a space placed before a word, or between text, a word
      and more text. */
  lemma SplitBefore(x: string, w: string)
    requires ' ' !in w
    ensures Split(x + " " + w, ' ') == Split(x, ' ') + [w]
  {
    assert x + " " + w == x + [' '] + w;
    SplitJoin(x, ' ', w);
    SplitSingle(w, ' ');
  }

  lemma SplitAround(x: string, w: string, y: string)
    requires ' ' !in w
    ensures Split(x + " " + w + " " + y, ' ') == Split(x, ' ') + [w] + Split(y, ' ')
  {
    assert x + " " + w + " " + y == (x + " " + w) + [' '] + y;
    SplitJoin(x + " " + w, ' ', y);
    SplitBefore(x, w);
  }

  /** The first token of a hundreds phrase: "a" or the ones word. */
  function HundredsHead(h: nat): string
    requires 1 <= h < 10
  {
    if h == 1 then "a" else CardinalOnes[h]
  }

  lemma HundredsHeadToken(h: nat)
    requires 1 <= h < 10
    ensures ' ' !in HundredsHead(h) && TokenValue(HundredsHead(h)) == h
  {
    if h == 1 {
      TableToken("a", 1);
    } else {
      OnesToken(h);
    }
  }

  /** The tokens of "<head> hundred". */
  lemma HundredWordSplit(head: string)
    requires ' ' !in head
    ensures Split(head + " hundred", ' ') == [head, "hundred"]
  {
    SplitSingle(head, ' ');
    assert head + " hundred" == head + " " + "hundred";
    SplitBefore(head, "hundred");
    Pair(head, "hundred");
  }

  /** The tokens of "<head> hundred and <word>". */
  lemma HundredPhraseSplit(head: string, w: string)
    requires ' ' !in head && ' ' !in w
    ensures Split(head + " hundred" + " and " + w, ' ') == [head, "hundred", "and", w]
  {
    var x := head + " hundred";
    HundredWordSplit(head);
    assert x + " and " + w == x + " " + "and" + " " + w;
    SplitAround(x, "and", w);
    SplitSingle(w, ' ');
    Quadruple(head, "hundred", "and", w);
  }

  lemma Pair(a: string, b: string)
    ensures [a] + [b] == [a, b]
  {
  }

  lemma Quadruple(a: string, b: string, c: string, d: string)
    ensures [a, b] + [c] + [d] == [a, b, c, d]
  {
  }

  /** The words of a hundreds number start with its head and "hundred". */
  lemma HundredsText(n: nat)
    requires 100 <= n < 1000
    ensures NumberToWords(n) == HundredsHead(n / 100) + " hundred"
                                + (if n % 100 != 0 then " and " + NumberToWords(n % 100) else "")
  {
    WordsHundredsShape(n);
    if n / 100 == 1 {
      assert "a hundred" == "a" + " hundred";
    }
  }

  /** "two hundred and five" is the tokens two, hundred, and, five. */
  lemma HundredsTokens(n: nat)
    requires 100 <= n < 1000
    ensures n % 100 == 0 ==> Split(NumberToWords(n), ' ') == [HundredsHead(n / 100), "hundred"]
    ensures n % 100 != 0 ==> Split(NumberToWords(n), ' ') == [HundredsHead(n / 100), "hundred", "and", NumberToWords(n % 100)]
  {
    var h, r := n / 100, n % 100;
    var head := HundredsHead(h);
    HundredsHeadToken(h);
    HundredsText(n);
    if r == 0 {
      AppendEmpty(head + " hundred");
      HundredWordSplit(head);
    } else {
      var w := NumberToWords(r);
      SmallToken(r);
      AppendAssoc(head + " hundred", " and ", w);
      HundredPhraseSplit(head, w);
    }
  }

  /** The words of the group before "thousand" or "million": "a" for one,
      otherwise the words of the group. */
  function GroupWords(g: nat): string
  {
    if g == 1 then "a" else NumberToWords(g)
  }

  /** The tokens of "<group> <unit>" and of "<group> <unit> <rest>". */
  lemma GroupSplit(group: string, unit: string, rest: string)
    requires ' ' !in unit
    ensures Split(group + " " + unit, ' ') == Split(group, ' ') + [unit]
    ensures Split(group + " " + unit + " " + rest, ' ') == Split(group, ' ') + [unit] + Split(rest, ' ')
  {
    SplitBefore(group, unit);
    SplitAround(group, unit, rest);
  }

  lemma ThousandsText(n: nat)
    requires 1000 <= n < 1000000
    ensures n % 1000 == 0 ==> NumberToWords(n) == GroupWords(n / 1000) + " " + "thousand"
    ensures n % 1000 != 0 ==> NumberToWords(n) == GroupWords(n / 1000) + " " + "thousand" + " " + NumberToWords(n % 1000)
  {
    var g, rest := n / 1000, n % 1000;
    var head := GroupWords(g) + " " + "thousand";
    var tail := if rest != 0 then " " + NumberToWords(rest) else "";
    assert NumberToWords(n) == head + tail by {
      WordsThousandsShape(n);
      if g == 1 {
        assert "a thousand" == "a" + " " + "thousand";
      }
    }
    if rest != 0 {
      AppendAssoc(head, " ", NumberToWords(rest));
    } else {
      AppendEmpty(head);
    }
  }

  lemma MillionsText(n: nat)
    requires 1000000 <= n < Billion
    ensures n % 1000000 == 0 ==> NumberToWords(n) == GroupWords(n / 1000000) + " " + "million"
    ensures n % 1000000 != 0 ==> NumberToWords(n) == GroupWords(n / 1000000) + " " + "million" + " " + NumberToWords(n % 1000000)
  {
    var g, rest := n / 1000000, n % 1000000;
    var head := GroupWords(g) + " " + "million";
    var tail := if rest != 0 then " " + NumberToWords(rest) else "";
    assert NumberToWords(n) == head + tail by {
      WordsMillionsShape(n);
      if g == 1 {
        assert "a million" == "a" + " " + "million";
      }
    }
    if rest != 0 {
      AppendAssoc(head, " ", NumberToWords(rest));
    } else {
      AppendEmpty(head);
    }
  }

  lemma ThousandsTokens(n: nat)
    requires 1000 <= n < 1000000
    ensures n % 1000 == 0 ==> Split(NumberToWords(n), ' ') == Split(GroupWords(n / 1000), ' ') + ["thousand"]
    ensures n % 1000 != 0 ==> Split(NumberToWords(n), ' ')
                              == Split(GroupWords(n / 1000), ' ') + ["thousand"] + Split(NumberToWords(n % 1000), ' ')
  {
    ThousandsText(n);
    GroupSplit(GroupWords(n / 1000), "thousand", NumberToWords(n % 1000));
  }

  lemma MillionsTokens(n: nat)
    requires 1000000 <= n < Billion
    ensures n % 1000000 == 0 ==> Split(NumberToWords(n), ' ') == Split(GroupWords(n / 1000000), ' ') + ["million"]
    ensures n % 1000000 != 0 ==> Split(NumberToWords(n), ' ')
                                 == Split(GroupWords(n / 1000000), ' ') + ["million"] + Split(NumberToWords(n % 1000000), ' ')
  {
    MillionsText(n);
    GroupSplit(GroupWords(n / 1000000), "million", NumberToWords(n % 1000000));
  }

  // ---- reading the tokens back

  /** The four markers of the reader have no value of their own. */
  lemma MarkerValue(w: string)
    requires w == "hundred" || w == "thousand" || w == "million" || w == "and"
    ensures TokenValue(w) == 0
  {
    assert IsPlainWord(w);
    PlainTokenValue(w);
  }

  /** A word with a value is added to the group. */
  lemma ValueStep(st: Reading, w: string)
    requires TokenValue(w) > 0
    ensures Step(st, w) == Reading(st.total, st.group + TokenValue(w))
  {
    if w == "hundred" || w == "thousand" || w == "million" || w == "and" {
      MarkerValue(w);
    }
  }

  /** One to ninety-nine, or "a": a single word that adds its value. */
  lemma SmallRun(st: Reading, n: nat)
    requires n < 100
    ensures Split(NumberToWords(n), ' ') == [NumberToWords(n)]
    ensures Run(st, Split(NumberToWords(n), ' ')) == Reading(st.total, st.group + n)
  {
    SmallToken(n);
    SplitSingle(NumberToWords(n), ' ');
    RunSingle(st, NumberToWords(n));
    if n == 0 {
      assert NumberToWords(n) == "zero";
    } else {
      ValueStep(st, NumberToWords(n));
    }
  }

  lemma RunTwo(st: Reading, a: string, b: string)
    ensures Run(st, [a, b]) == Step(Step(st, a), b)
  {
    assert [a, b] == [a] + [b];
    RunAppend(st, [a], [b]);
    RunSingle(st, a);
    RunSingle(Step(st, a), b);
  }

  lemma RunFour(st: Reading, a: string, b: string, c: string, d: string)
    ensures Run(st, [a, b, c, d]) == Step(Step(Step(Step(st, a), b), c), d)
  {
    assert [a, b, c, d] == [a, b] + [c, d];
    RunAppend(st, [a, b], [c, d]);
    RunTwo(st, a, b);
    RunTwo(Step(Step(st, a), b), c, d);
  }

  /** "<head> hundred" and "<head> hundred and <word>" on an empty group. */
  lemma HundredRun(t: nat, a: string)
    requires TokenValue(a) > 0
    ensures Run(Reading(t, 0), [a, "hundred"]) == Reading(t, 100 * TokenValue(a))
  {
    RunTwo(Reading(t, 0), a, "hundred");
    ValueStep(Reading(t, 0), a);
  }

  lemma HundredAndRun(t: nat, a: string, w: string)
    requires TokenValue(a) > 0 && TokenValue(w) > 0
    ensures Run(Reading(t, 0), [a, "hundred", "and", w]) == Reading(t, 100 * TokenValue(a) + TokenValue(w))
  {
    RunFour(Reading(t, 0), a, "hundred", "and", w);
    ValueStep(Reading(t, 0), a);
    ValueStep(Reading(t, 100 * TokenValue(a)), w);
  }

  /** The words of any number below a thousand, read on an empty group,
      leave that number in the group. */
  lemma {:induction false} PhraseRun(t: nat, n: nat)
    requires n < 1000
    ensures Run(Reading(t, 0), Split(NumberToWords(n), ' ')) == Reading(t, n)
  {
    if n < 100 {
      SmallRun(Reading(t, 0), n);
    } else {
      HundredsTokens(n);
      HundredsHeadToken(n / 100);
      DivMod(n, 100);
      if n % 100 == 0 {
        HundredRun(t, HundredsHead(n / 100));
      } else {
        SmallToken(n % 100);
        HundredAndRun(t, HundredsHead(n / 100), NumberToWords(n % 100));
      }
    }
  }

  lemma DivMod(n: nat, d: nat)
    requires d > 0
    ensures n == d * (n / d) + n % d
  {
  }

  /** The group before "thousand" or "million" leaves its value in the group. */
  lemma GroupRun(t: nat, g: nat)
    requires 1 <= g < 1000
    ensures Run(Reading(t, 0), Split(GroupWords(g), ' ')) == Reading(t, g)
  {
    if g == 1 {
      assert GroupWords(g) == "a";
      SplitSingle("a", ' ');
      RunSingle(Reading(t, 0), "a");
      TableToken("a", 1);
      ValueStep(Reading(t, 0), "a");
    } else {
      PhraseRun(t, g);
    }
  }

  /** A group and its unit: the group times the unit moves into the total. */
  lemma UnitRun(t: nat, g: nat, unit: string, scale: nat)
    requires 1 <= g < 1000
    requires (unit == "thousand" && scale == 1000) || (unit == "million" && scale == 1000000)
    ensures Run(Reading(t, 0), Split(GroupWords(g), ' ') + [unit]) == Reading(t + scale * g, 0)
  {
    RunAppend(Reading(t, 0), Split(GroupWords(g), ' '), [unit]);
    GroupRun(t, g);
    RunSingle(Reading(t, g), unit);
  }

  /** Below a million the words leave the thousands in the total and the
      last three digits in the group. */
  lemma BelowMillionRun(t: nat, n: nat)
    requires n < 1000000
    ensures Run(Reading(t, 0), Split(NumberToWords(n), ' ')).total == t + 1000 * (n / 1000)
    ensures Run(Reading(t, 0), Split(NumberToWords(n), ' ')).group == n % 1000
  {
    if n < 1000 {
      var r := Run(Reading(t, 0), Split(NumberToWords(n), ' '));
      assert r == Reading(t, n) by {
        PhraseRun(t, n);
      }
      NoThousands(n);
    } else {
      ThousandsRun(t, n);
    }
  }

  lemma NoThousands(n: nat)
    requires n < 1000
    ensures n / 1000 == 0 && n % 1000 == n
  {
  }

  /** From a thousand to a million: the thousands group, then the rest. */
  lemma ThousandsRun(t: nat, n: nat)
    requires 1000 <= n < 1000000
    ensures Run(Reading(t, 0), Split(NumberToWords(n), ' ')).total == t + 1000 * (n / 1000)
    ensures Run(Reading(t, 0), Split(NumberToWords(n), ' ')).group == n % 1000
  {
    var g, rest := n / 1000, n % 1000;
    var r := Run(Reading(t, 0), Split(NumberToWords(n), ' '));
    assert r == Reading(t + 1000 * g, rest) by {
      ThousandsTokens(n);
      if rest == 0 {
        UnitRun(t, g, "thousand", 1000);
      } else {
        ThousandsRestRun(t, g, rest);
      }
    }
  }

  /** "<group> thousand <rest>" read from its tokens. */
  lemma ThousandsRestRun(t: nat, g: nat, rest: nat)
    requires 1 <= g < 1000 && 0 < rest < 1000
    ensures Run(Reading(t, 0), Split(GroupWords(g), ' ') + ["thousand"] + Split(NumberToWords(rest), ' '))
            == Reading(t + 1000 * g, rest)
  {
    var head := Split(GroupWords(g), ' ') + ["thousand"];
    var tail := Split(NumberToWords(rest), ' ');
    var u := t + 1000 * g;
    assert Run(Reading(t, 0), head) == Reading(u, 0) by {
      UnitRun(t, g, "thousand", 1000);
    }
    assert Run(Reading(t, 0), head + tail) == Run(Reading(u, 0), tail) by {
      RunAppend(Reading(t, 0), head, tail);
    }
    PhraseRun(u, rest);
  }

  /** From a million to a billion: the millions, then the rest below a
      million. */
  lemma MillionsRun(n: nat)
    requires 1000000 <= n < Billion
    ensures Run(Reading(0, 0), Split(NumberToWords(n), ' ')).Value() == n
  {
    MillionsTokens(n);
    DivMod(n, 1000000);
    if n % 1000000 == 0 {
      UnitRun(0, n / 1000000, "million", 1000000);
    } else {
      MillionsRestRun(n / 1000000, n % 1000000);
    }
  }

  /** "<group> million <rest>" read from its tokens. */
  lemma MillionsRestRun(m: nat, rest: nat)
    requires 1 <= m < 1000 && 0 < rest < 1000000
    ensures Run(Reading(0, 0), Split(GroupWords(m), ' ') + ["million"] + Split(NumberToWords(rest), ' ')).Value() == 1000000 * m + rest
  {
    var head := Split(GroupWords(m), ' ') + ["million"];
    var tail := Split(NumberToWords(rest), ' ');
    var st := Reading(1000000 * m, 0);
    assert Run(Reading(0, 0), head) == st by {
      UnitRun(0, m, "million", 1000000);
    }
    assert Run(Reading(0, 0), head + tail) == Run(st, tail) by {
      RunAppend(Reading(0, 0), head, tail);
    }
    assert Run(st, tail).Value() == 1000000 * m + rest by {
      BelowMillionRun(1000000 * m, rest);
      DivMod(rest, 1000);
    }
  }

  /** A numeral is one token that reads as its value. */
  lemma NumeralRun(n: nat)
    ensures Run(Reading(0, 0), Split(DecimalString(n), ' ')).Value() == n
  {
    var d := DecimalString(n);
    assert ' ' !in d by {
      assert forall i :: 0 <= i < |d| ==> IsDigit(d[i]);
    }
    SplitSingle(d, ' ');
    RunSingle(Reading(0, 0), d);
    assert d[0] != 'h' && d[0] != 't' && d[0] != 'm' && d[0] != 'a';
    assert d != "hundred" && d != "thousand" && d != "million" && d != "and";
    DecimalRoundTrip(n);
  }

  /** Reading the cardinal words of any number gives back the number. */
  lemma CardinalRoundTrip(n: nat)
    ensures ParseCardinal(NumberToWords(n)) == n
  {
    if n < 1000000 {
      BelowMillionRun(0, n);
      DivMod(n, 1000);
    } else if n < Billion {
      MillionsRun(n);
    } else {
      NumeralRun(n);
    }
  }

  /** Distinct numbers are never given the same words. */
  lemma CardinalInjective(a: nat, b: nat)
    ensures NumberToWords(a) == NumberToWords(b) ==> a == b
  {
    CardinalRoundTrip(a);
    CardinalRoundTrip(b);
  }
}
