/** The game-facing converters: the answer and the display text for a value
    under a game configuration (`convertToAnswer`, `displayValue`), and the
    list of accepted answers for a question (`getAcceptedAnswers`). */
module Answers {
  import opened Text
  import opened WordRegex
  import opened Decimal
  import opened NumberWords
  import opened WordsFacts
  import opened WordsParse
  import opened Normalize
  import EnglishOrdinal

  /** `config.conversionType`: the code tests for "cardinal" and "ordinal";
      every other value is one case here. */
  datatype ConversionType = Cardinal | Ordinal | OtherConversion

  /** `config.displayType`: "numeric", "ordinal-suffix", or anything else. */
  datatype DisplayType = Numeric | OrdinalSuffix | OtherDisplay

  datatype Config = Config(conversionType: ConversionType, displayType: DisplayType)

  /** The game mode: only "listening" changes the accepted answers. */
  datatype GameMode = Listening | OtherMode

  /** `convertToAnswer`: the answer the player must give for a value. */
  function ConvertToAnswer(value: nat, config: Config): (r: string)
    ensures |r| > 0
  {
    match config.conversionType
    case Cardinal => NumberToWords(value)
    case Ordinal => NumberToOrdinal(value)
    case OtherConversion => DecimalString(value)
  }

  /** `displayValue`: the text shown for a value. */
  function DisplayValue(value: nat, config: Config): (r: string)
    ensures |r| > 0
  {
    match config.displayType
    case Numeric => GroupedDecimal(value)
    case OrdinalSuffix => NumberToOrdinalSuffix(value)
    case OtherDisplay => DecimalString(value)
  }

  // ---- what the answer and the display say about the value

  /** The answer identifies the value: cardinal words and numerals read back
      to it, and ordinal words end like the numeral with its suffix. */
  lemma ConvertToAnswerReadsBack(value: nat, config: Config)
    ensures config.conversionType == Cardinal ==> ParseCardinal(ConvertToAnswer(value, config)) == value
    ensures config.conversionType == Ordinal ==>
      (LastTwo(ConvertToAnswer(value, config)) == LastTwo(NumberToOrdinalSuffix(value)) <==>
        value < Billion || 11 <= value % 100 <= 13 || !(1 <= value % 10 <= 3))
    ensures config.conversionType == OtherConversion ==>
      AllDigits(ConvertToAnswer(value, config)) && DigitsValue(ConvertToAnswer(value, config)) == value
  {
    match config.conversionType
    case Cardinal => CardinalRoundTrip(value);
    case Ordinal =>
      if value < Billion {
        SuffixAgreesWithWords(value);
      } else {
        SuffixFromBillion(value);
      }
    case OtherConversion => DecimalRoundTrip(value);
  }

  /** Outside the ordinal conversion, distinct values have distinct answers. */
  lemma ConvertToAnswerInjective(a: nat, b: nat, config: Config)
    requires config.conversionType != Ordinal
    ensures ConvertToAnswer(a, config) == ConvertToAnswer(b, config) ==> a == b
  {
    ConvertToAnswerReadsBack(a, config);
    ConvertToAnswerReadsBack(b, config);
  }

  lemma SuffixLetters(n: nat)
    ensures forall c :: c in Suffix(n) ==> IsLower(c) && c != 'o' && c != ','
  {
  }

  /** The ordinal-suffix display is the grouped numeral and the suffix. */
  lemma OrdinalSuffixParts(n: nat)
    ensures NumberToOrdinalSuffix(n) == GroupedDecimal(n) + Suffix(n)
  {
    var r := NumberToOrdinalSuffix(n);
    assert r == r[..|r| - 2] + r[|r| - 2..];
  }

  /** Every character of a numeral is a digit. */
  lemma DigitsOnly(n: nat)
    ensures forall c :: c in DecimalString(n) ==> IsDigit(c)
  {
    var d := DecimalString(n);
    forall c | c in d ensures IsDigit(c) {
      var i :| 0 <= i < |d| && d[i] == c;
    }
  }

  /** The ordinal-suffix display normalises to the plain numeral with its
      suffix. */
  lemma NormalizeOrdinalSuffix(n: nat)
    ensures NormalizeAnswer(NumberToOrdinalSuffix(n)) == DecimalString(n) + Suffix(n)
  {
    OrdinalSuffixParts(n);
    var g, suffix := GroupedDecimal(n), Suffix(n);
    SuffixLetters(n);
    NormalizePlainText(g + suffix);
    StripCommasAppend(g, suffix);
    GroupedUngroups(n);
    StripCommasIdentity(suffix);
  }

  /** A display text made of digits, commas and lower-case letters is left
      as it is by lowering. */
  lemma LowerDisplay(r: string)
    requires forall c :: c in r ==> IsDigit(c) || c == ',' || IsLower(c)
    ensures Lower(r) == r
  {
    assert NoUpper(r) by {
      forall i | 0 <= i < |r| ensures !IsUpper(r[i]) {
        assert r[i] in r;
      }
    }
    LowerIdentity(r);
  }

  lemma NumericDisplay(value: nat)
    ensures Lower(GroupedDecimal(value)) == GroupedDecimal(value)
    ensures ',' in GroupedDecimal(value) <==> value >= 1000
    ensures NormalizeAnswer(GroupedDecimal(value)) == DecimalString(value)
  {
    GroupedHasComma(value);
    NormalizeNumeral(value);
    LowerDisplay(GroupedDecimal(value));
  }

  lemma SuffixDisplay(value: nat)
    ensures Lower(NumberToOrdinalSuffix(value)) == NumberToOrdinalSuffix(value)
    ensures ',' in NumberToOrdinalSuffix(value) <==> value >= 1000
    ensures NormalizeAnswer(NumberToOrdinalSuffix(value)) == DecimalString(value) + Suffix(value)
  {
    var g := GroupedDecimal(value);
    OrdinalSuffixParts(value);
    NormalizeOrdinalSuffix(value);
    GroupedHasComma(value);
    SuffixLetters(value);
    assert ',' in g + Suffix(value) <==> ',' in g;
    LowerDisplay(g + Suffix(value));
  }

  lemma PlainDisplay(value: nat)
    ensures Lower(DecimalString(value)) == DecimalString(value)
    ensures ',' !in DecimalString(value)
    ensures NormalizeAnswer(DecimalString(value)) == DecimalString(value)
  {
    DigitsOnly(value);
    NormalizeNumeral(value);
    LowerDisplay(DecimalString(value));
  }

  /** The display text has no upper-case letter, so lowering it changes
      nothing; it holds a comma exactly when it groups digits, from a
      thousand on; and it normalises to the plain numeral, with the suffix for
      the ordinal-suffix display. */
  lemma DisplayValueProperties(value: nat, config: Config)
    ensures Lower(DisplayValue(value, config)) == DisplayValue(value, config)
    ensures ',' in DisplayValue(value, config) <==> config.displayType != OtherDisplay && value >= 1000
    ensures NormalizeAnswer(DisplayValue(value, config)) ==
      DecimalString(value) + (if config.displayType == OrdinalSuffix then Suffix(value) else "")
  {
    match config.displayType
    case Numeric =>
      NumericDisplay(value);
      AppendEmpty(DecimalString(value));
    case OrdinalSuffix => SuffixDisplay(value);
    case OtherDisplay =>
      PlainDisplay(value);
      AppendEmpty(DecimalString(value));
  }

  // ---- the "one" variant of an answer

  /** The variant of a normalised answer with "a <unit>" spelled
      "one <unit>": the six unit rewrites and the "a hundred and" rewrite. */
  function OneVariant(normalized: string): (r: string)
    ensures r == RewriteUnits(normalized, "a", "one", Units)
    ensures forall k :: 0 <= k < |Units| ==> NoMatch(r, Phrase("a", Units[k]))
  {
    var rewritten := RewriteUnits(normalized, "a", "one", Units);
    VariantChainThenLast(normalized);
    assert forall k :: 0 <= k < |Units| ==> NoMatch(rewritten, Phrase("a", Units[k])) by {
      UnitsAreWords();
      forall k | 0 <= k < |Units| ensures NoMatch(rewritten, Phrase("a", Units[k])) {
        RewriteRemoves(normalized, "a", "one", Units, k);
      }
    }
    ReplaceAll(rewritten, "a hundred and", "one hundred and")
  }

  lemma VariantChainThenLast(s: string)
    ensures var rewritten := RewriteUnits(s, "a", "one", Units);
      ReplaceAll(rewritten, "a hundred and", "one hundred and") == rewritten
  {
    var rewritten := RewriteUnits(s, "a", "one", Units);
    UnitsAreWords();
    RewriteRemoves(s, "a", "one", Units, 0);
    assert Phrase("a", Units[0]) == "a hundred";
    var p, q := "a hundred", "a hundred and";
    assert q[..|p|] == p && q[|p|] == ' ';
    ExtensionMatch(rewritten, p, q);
    ReplaceAllAbsent(rewritten, q, "one hundred and");
  }

  /** A rewrite chain finds nothing to do in text free of all its phrases. */
  lemma {:induction false} RewriteNothing(s: string, x: string, y: string, units: seq<string>)
    requires forall k :: 0 <= k < |units| ==> NoMatch(s, Phrase(x, units[k]))
    ensures RewriteUnits(s, x, y, units) == s
    decreases |units|
  {
    if units != [] {
      ReplaceAllAbsent(s, Phrase(x, units[0]), Phrase(y, units[0]));
      assert forall k :: 0 <= k < |units[1..]| ==> NoMatch(s, Phrase(x, units[1..][k])) by {
        forall k | 0 <= k < |units[1..]| ensures NoMatch(s, Phrase(x, units[1..][k])) {
          assert units[1..][k] == units[k + 1];
        }
      }
      RewriteNothing(s, x, y, units[1..]);
    }
  }

  /** The variant differs from the answer only when the answer holds a
      whole-word "a <unit>". */
  lemma VariantNeedsA(s: string)
    ensures OneVariant(s) != s ==> exists k :: 0 <= k < |Units| && !NoMatch(s, Phrase("a", Units[k]))
  {
    if forall k :: 0 <= k < |Units| ==> NoMatch(s, Phrase("a", Units[k])) {
      RewriteNothing(s, "a", "one", Units);
    }
  }

  // ---- the accepted answers

  /** The second step of `getAcceptedAnswers`: the "one" variant of the
      normalised answer is appended when it differs from it. */
  function WithVariant(accepted: seq<string>, normalized: string): seq<string>
  {
    var oneVariant := OneVariant(normalized);
    if oneVariant != normalized then accepted + [oneVariant] else accepted
  }

  /** The third step: in listening mode the lowered display text is appended. */
  function WithDisplay(accepted: seq<string>, currentValue: nat, gameMode: GameMode, config: Config): seq<string>
  {
    if gameMode == Listening then accepted + [Lower(DisplayValue(currentValue, config))] else accepted
  }

  /** The list `getAcceptedAnswers` returns: the normalised answer, its "one"
      variant when that differs, and in listening mode the lowered display
      text. */
  function AcceptedAnswers(correctAnswer: string, currentValue: nat, gameMode: GameMode, config: Config): (r: seq<string>)
    ensures 1 <= |r| <= 3 && r[0] == NormalizeAnswer(correctAnswer)
    ensures |r| == 1 + (if OneVariant(r[0]) != r[0] then 1 else 0) + (if gameMode == Listening then 1 else 0)
    ensures gameMode == Listening ==> r[|r| - 1] == Lower(DisplayValue(currentValue, config))
  {
    var normalizedCorrect := NormalizeAnswer(correctAnswer);
    var withVariant := WithVariant([normalizedCorrect], normalizedCorrect);
    WithVariantShape(normalizedCorrect);
    ListedDisplayShape(withVariant, currentValue, gameMode, config);
    WithDisplay(withVariant, currentValue, gameMode, config)
  }

  /** The display step keeps the list and adds the lowered display text in
      listening mode. */
  lemma ListedDisplayShape(accepted: seq<string>, currentValue: nat, gameMode: GameMode, config: Config)
    ensures var r := WithDisplay(accepted, currentValue, gameMode, config);
      && |r| == |accepted| + (if gameMode == Listening then 1 else 0)
      && (|accepted| > 0 ==> r[0] == accepted[0])
      && (gameMode == Listening ==> r[|r| - 1] == Lower(DisplayValue(currentValue, config)))
  {
  }

  /** `getAcceptedAnswers`: builds the list by appending, as the code does. */
  method GetAcceptedAnswers(correctAnswer: string, currentValue: nat, gameMode: GameMode, config: Config)
    returns (acceptedAnswers: seq<string>)
    ensures acceptedAnswers == AcceptedAnswers(correctAnswer, currentValue, gameMode, config)
    ensures 1 <= |acceptedAnswers| <= 3
    ensures acceptedAnswers[0] == NormalizeAnswer(correctAnswer)
  {
    var normalizedCorrect := NormalizeAnswer(correctAnswer);
    acceptedAnswers := [normalizedCorrect];
    var oneVariant := OneVariant(normalizedCorrect);
    if oneVariant != normalizedCorrect {
      acceptedAnswers := acceptedAnswers + [oneVariant];
    }
    assert acceptedAnswers == WithVariant([normalizedCorrect], normalizedCorrect);
    if gameMode == Listening {
      acceptedAnswers := acceptedAnswers + [Lower(DisplayValue(currentValue, config))];
    }
  }

  /** How the caller judges a submission: its normalised form is one of the
      accepted answers. */
  predicate Accepts(accepted: seq<string>, submission: string) {
    NormalizeAnswer(submission) in accepted
  }

  /** The variant step adds one entry, the variant, exactly when it differs
      from the answer. */
  lemma WithVariantShape(normalized: string)
    ensures var w := WithVariant([normalized], normalized);
      && w[0] == normalized
      && |w| == (if OneVariant(normalized) != normalized then 2 else 1)
      && (|w| == 2 ==> w[1] == OneVariant(normalized))
  {
  }

  /** The display step adds the display text last exactly in listening mode. */
  lemma WithDisplayShape(accepted: seq<string>, currentValue: nat, gameMode: GameMode, config: Config)
    ensures var r := WithDisplay(accepted, currentValue, gameMode, config);
      && |r| == |accepted| + (if gameMode == Listening then 1 else 0)
      && r[..|accepted|] == accepted
      && (gameMode == Listening ==> r[|r| - 1] == DisplayValue(currentValue, config))
  {
    DisplayIsLower(currentValue, config);
  }

  /** Lowering the display text changes nothing. */
  lemma DisplayIsLower(value: nat, config: Config)
    ensures Lower(DisplayValue(value, config)) == DisplayValue(value, config)
  {
    match config.displayType
    case Numeric => LowerDisplay(GroupedDecimal(value));
    case OrdinalSuffix =>
      OrdinalSuffixParts(value);
      SuffixLetters(value);
      LowerDisplay(GroupedDecimal(value) + Suffix(value));
    case OtherDisplay =>
      DigitsOnly(value);
      LowerDisplay(DecimalString(value));
  }

  /** The list starts with the normalised answer, which is in normal form;
      the variant comes next exactly when it differs from it; the display
      text comes last exactly in listening mode. */
  lemma AcceptedAnswersShape(correctAnswer: string, currentValue: nat, gameMode: GameMode, config: Config)
    ensures var r := AcceptedAnswers(correctAnswer, currentValue, gameMode, config);
      var normalized := NormalizeAnswer(correctAnswer);
      && r[0] == normalized && Normalized(r[0])
      && |r| == 1 + (if OneVariant(normalized) != normalized then 1 else 0) + (if gameMode == Listening then 1 else 0)
      && (OneVariant(normalized) != normalized ==> r[1] == OneVariant(normalized))
      && (gameMode == Listening ==> r[|r| - 1] == DisplayValue(currentValue, config))
  {
    var normalized := NormalizeAnswer(correctAnswer);
    var w := WithVariant([normalized], normalized);
    WithVariantShape(normalized);
    WithDisplayShape(w, currentValue, gameMode, config);
    var r := WithDisplay(w, currentValue, gameMode, config);
    assert r[0] == w[0] && (|w| == 2 ==> r[1] == w[1]) by {
      assert r[..|w|] == w;
    }
  }

  /** Every submission that normalises like the answer is accepted; in
      particular the answer itself. */
  lemma AcceptsAnswer(correctAnswer: string, currentValue: nat, gameMode: GameMode, config: Config, submission: string)
    requires NormalizeAnswer(submission) == NormalizeAnswer(correctAnswer)
    ensures Accepts(AcceptedAnswers(correctAnswer, currentValue, gameMode, config), submission)
    ensures Accepts(AcceptedAnswers(correctAnswer, currentValue, gameMode, config), correctAnswer)
  {
    AcceptedAnswersShape(correctAnswer, currentValue, gameMode, config);
  }

  // ---- listening mode and the display text

  lemma OrdinalTablesLead()
    ensures forall d :: 1 <= d < 10 ==> OrdinalOnes[d] != [] && IsLower(OrdinalOnes[d][0])
    ensures forall d :: 0 <= d < 10 ==> OrdinalTeens[d] != [] && IsLower(OrdinalTeens[d][0])
    ensures forall d :: 2 <= d < 10 ==> OrdinalTens[d] != [] && IsLower(OrdinalTens[d][0])
  {
  }

  /** Below a billion the cardinal words start with a lower-case letter. */
  lemma {:induction false} WordsLead(n: nat)
    requires n < Billion
    ensures IsLower(NumberToWords(n)[0])
    decreases n
  {
    CardinalTablesPlain();
    if n < 20 {
    } else if n < 100 {
      assert NumberToWords(n)[0] == CardinalTens[n / 10][0];
    } else if n < 1000 {
      WordsHundredsShape(n);
    } else if n < 1000000 {
      WordsThousandsShape(n);
      if n / 1000 != 1 {
        WordsLead(n / 1000);
      }
    } else {
      WordsMillionsShape(n);
      if n / 1000000 != 1 {
        WordsLead(n / 1000000);
      }
    }
  }

  /** Below a billion the ordinal words start with a lower-case letter. */
  lemma OrdinalLead(n: nat)
    requires n < Billion
    ensures IsLower(NumberToOrdinal(n)[0])
  {
    OrdinalTablesLead();
    if n < 20 {
    } else if n < 100 {
      if n % 10 != 0 {
        HyphenatedShape(n);
        EnglishOrdinal.TensStem(n / 10);
        CardinalTablesPlain();
        assert NumberToOrdinal(n)[0] == CardinalTens[n / 10][0];
      }
    } else if n < 1000 {
      OrdinalHundredsShape(n);
    } else if n < 1000000 {
      OrdinalThousandsShape(n);
      if n / 1000 != 1 {
        WordsLead(n / 1000);
      }
    } else {
      OrdinalMillionsShape(n);
      if n / 1000000 != 1 {
        WordsLead(n / 1000000);
      }
    }
  }

  /** The word answers below a billion, and their variants, start with a
      letter once normalised. */
  lemma WordAnswerLead(n: nat, config: Config)
    requires n < Billion && config.conversionType != OtherConversion
    ensures var normalized := NormalizeAnswer(ConvertToAnswer(n, config));
      && normalized != [] && IsLower(normalized[0])
      && OneVariant(normalized) != [] && IsLower(OneVariant(normalized)[0])
  {
    var answer := ConvertToAnswer(n, config);
    if config.conversionType == Cardinal {
      WordsLead(n);
    } else {
      OrdinalLead(n);
    }
    NormalizeLead(answer);
    var normalized := NormalizeAnswer(answer);
    RewriteLead(normalized, "a", "one", Units);
  }

  /** As the code is written, listening mode adds the display text only
      lowered. From a thousand on, the numeric and ordinal-suffix displays
      hold a comma, which no normalised submission has, while the word
      answers and their variants start with a letter: below a billion, no
      submission whose normal form starts with a digit is accepted. */
  lemma ListeningNumeralRejected(n: nat, config: Config, submission: string)
    requires 1000 <= n < Billion
    requires config.conversionType != OtherConversion && config.displayType != OtherDisplay
    requires NormalizeAnswer(submission) != [] && IsDigit(NormalizeAnswer(submission)[0])
    ensures !Accepts(AcceptedAnswers(ConvertToAnswer(n, config), n, Listening, config), submission)
  {
    var answer := ConvertToAnswer(n, config);
    var normalized := NormalizeAnswer(answer);
    var display := DisplayValue(n, config);
    var typed := NormalizeAnswer(submission);
    AcceptedAnswersShape(answer, n, Listening, config);
    WordAnswerLead(n, config);
    DisplayValueProperties(n, config);
    NotAmongAnswers(AcceptedAnswers(answer, n, Listening, config), normalized, OneVariant(normalized), display, typed);
  }

  /** A text starting with a digit and free of commas is not in a list of two
      or three entries whose first ones start with a letter and whose last one
      holds a comma. */
  lemma NotAmongAnswers(r: seq<string>, first: string, variant: string, display: string, typed: string)
    requires 2 <= |r| <= 3 && r[0] == first && (|r| == 3 ==> r[1] == variant) && r[|r| - 1] == display
    requires first != [] && IsLower(first[0]) && variant != [] && IsLower(variant[0])
    requires typed != [] && IsDigit(typed[0]) && Clean(typed) && ',' in display
    ensures typed !in r
  {
    assert typed != display;
  }

  /** In particular, neither the plain numeral nor the display text typed
      exactly as shown, such as "1,000", is accepted. */
  lemma ListeningNumeralExamples(n: nat, config: Config)
    requires 1000 <= n < Billion
    requires config.conversionType != OtherConversion && config.displayType != OtherDisplay
    ensures !Accepts(AcceptedAnswers(ConvertToAnswer(n, config), n, Listening, config), DecimalString(n))
    ensures !Accepts(AcceptedAnswers(ConvertToAnswer(n, config), n, Listening, config), DisplayValue(n, config))
  {
    NormalizeNumeral(n);
    ListeningNumeralRejected(n, config, DecimalString(n));
    DisplayValueProperties(n, config);
    ListeningNumeralRejected(n, config, DisplayValue(n, config));
  }

  /** The evidently intended third step: the display text is added in its
      normal form, so that it can match a normalised submission. */
  function WithNormalizedDisplay(accepted: seq<string>, currentValue: nat, gameMode: GameMode, config: Config): seq<string>
  {
    if gameMode == Listening then accepted + [NormalizeAnswer(DisplayValue(currentValue, config))] else accepted
  }

  /** The accepted answers with the intended third step. */
  function IntendedAcceptedAnswers(correctAnswer: string, currentValue: nat, gameMode: GameMode, config: Config): seq<string>
  {
    var normalizedCorrect := NormalizeAnswer(correctAnswer);
    WithNormalizedDisplay(WithVariant([normalizedCorrect], normalizedCorrect), currentValue, gameMode, config)
  }

  /** With the intended step, listening mode accepts the display text typed
      as shown, the plain numeral for the numeric and plain displays, and the
      plain numeral with its suffix for the ordinal-suffix display. */
  lemma ListeningNumeralAccepted(n: nat, config: Config, correctAnswer: string)
    ensures var r := IntendedAcceptedAnswers(correctAnswer, n, Listening, config);
      && Accepts(r, DisplayValue(n, config))
      && (config.displayType != OrdinalSuffix ==> Accepts(r, DecimalString(n)))
      && (config.displayType == OrdinalSuffix ==> Accepts(r, DecimalString(n) + Suffix(n)))
  {
    var normalized := NormalizeAnswer(correctAnswer);
    var w := WithVariant([normalized], normalized);
    var r := IntendedAcceptedAnswers(correctAnswer, n, Listening, config);
    assert r == w + [NormalizeAnswer(DisplayValue(n, config))];
    assert NormalizeAnswer(DisplayValue(n, config)) in r by {
      assert r[|r| - 1] == NormalizeAnswer(DisplayValue(n, config));
    }
    DisplayValueProperties(n, config);
    NormalizeNumeral(n);
    if config.displayType == OrdinalSuffix {
      OrdinalSuffixParts(n);
      assert DecimalString(n) + Suffix(n) == StripCommas(GroupedDecimal(n)) + Suffix(n) by { GroupedUngroups(n); }
      NormalizeAfterSuffix(n);
    } else {
      assert DecimalString(n) + "" == DecimalString(n);
    }
  }

  /** The numeral with its suffix is already in normal form. */
  lemma NormalizeAfterSuffix(n: nat)
    ensures NormalizeAnswer(DecimalString(n) + Suffix(n)) == DecimalString(n) + Suffix(n)
  {
    DigitsOnly(n);
    SuffixLetters(n);
    NormalizeDigitsLetters(DecimalString(n), Suffix(n));
  }

  /** Digits followed by lower-case letters other than 'o' are in normal
      form. */
  lemma NormalizeDigitsLetters(d: string, letters: string)
    requires forall c :: c in d ==> IsDigit(c)
    requires forall c :: c in letters ==> IsLower(c) && c != 'o' && c != ','
    ensures NormalizeAnswer(d + letters) == d + letters
  {
    NormalizePlainText(d + letters);
    StripCommasIdentity(d + letters);
  }

  /** The correction changes nothing where the code already worked: below a
      thousand, and for the plain display. */
  lemma IntendedAgreesWhereCommaFree(correctAnswer: string, n: nat, gameMode: GameMode, config: Config)
    requires n < 1000 || config.displayType == OtherDisplay
    ensures IntendedAcceptedAnswers(correctAnswer, n, gameMode, config) == AcceptedAnswers(correctAnswer, n, gameMode, config)
  {
    var normalizedCorrect := NormalizeAnswer(correctAnswer);
    NormalDisplay(n, config);
    SameDisplayStep(WithVariant([normalizedCorrect], normalizedCorrect), n, gameMode, config);
    AcceptedAnswersSteps(correctAnswer, n, gameMode, config);
  }

  /** Without a comma the display text is already in normal form. */
  lemma NormalDisplay(n: nat, config: Config)
    requires n < 1000 || config.displayType == OtherDisplay
    ensures NormalizeAnswer(DisplayValue(n, config)) == Lower(DisplayValue(n, config))
  {
    var display := DisplayValue(n, config);
    DisplayValueProperties(n, config);
    GroupedHasComma(n);
    if config.displayType == OrdinalSuffix {
      OrdinalSuffixParts(n);
      NormalizeAfterSuffix(n);
    } else {
      AppendEmpty(DecimalString(n));
    }
  }

  /** When normalising the display text does what lowering does, the two
      display steps agree. */
  lemma SameDisplayStep(accepted: seq<string>, n: nat, gameMode: GameMode, config: Config)
    requires NormalizeAnswer(DisplayValue(n, config)) == Lower(DisplayValue(n, config))
    ensures WithNormalizedDisplay(accepted, n, gameMode, config) == WithDisplay(accepted, n, gameMode, config)
  {
  }

  /** The list can hold the same text twice, although it is meant to be
      free of duplicates: with the plain conversion and display, listening
      mode adds the numeral that already is the answer. */
  lemma ListeningDuplicate(n: nat)
    ensures AcceptedAnswers(DecimalString(n), n, Listening, Config(OtherConversion, OtherDisplay))
            == [DecimalString(n), DecimalString(n)]
  {
    var d := DecimalString(n);
    PlainDisplay(n);
    DigitsOnly(n);
    NoVariantWithoutA(d);
    DuplicateOfPlainAnswer(d, n, Config(OtherConversion, OtherDisplay));
  }

  /** An answer in normal form, without a variant, whose lowered display is
      the answer itself, is listed twice in listening mode. */
  lemma DuplicateOfPlainAnswer(d: string, n: nat, config: Config)
    requires NormalizeAnswer(d) == d && OneVariant(d) == d && Lower(DisplayValue(n, config)) == d
    ensures AcceptedAnswers(d, n, Listening, config) == [d, d]
  {
    AcceptedAnswersSteps(d, n, Listening, config);
    NoVariantKept(d);
    ListeningAppendsDisplay([d], n, config);
    Twice(d);
  }

  lemma Twice(d: string)
    ensures [d] + [d] == [d, d]
  {
  }

  /** The list is the answer in normal form, then the variant step, then the
      display step. */
  lemma AcceptedAnswersSteps(correctAnswer: string, currentValue: nat, gameMode: GameMode, config: Config)
    ensures AcceptedAnswers(correctAnswer, currentValue, gameMode, config)
            == WithDisplay(WithVariant([NormalizeAnswer(correctAnswer)], NormalizeAnswer(correctAnswer)), currentValue, gameMode, config)
  {
  }

  /** Without a variant the variant step adds nothing. */
  lemma NoVariantKept(normalized: string)
    requires OneVariant(normalized) == normalized
    ensures WithVariant([normalized], normalized) == [normalized]
  {
  }

  /** In listening mode the display step appends the lowered display text. */
  lemma ListeningAppendsDisplay(accepted: seq<string>, currentValue: nat, config: Config)
    ensures WithDisplay(accepted, currentValue, Listening, config) == accepted + [Lower(DisplayValue(currentValue, config))]
  {
  }

  /** Text without the letter 'a' has no "one" variant. */
  lemma NoVariantWithoutA(s: string)
    requires forall c :: c in s ==> IsDigit(c)
    ensures OneVariant(s) == s
  {
    assert 'a' !in s;
  }
}
