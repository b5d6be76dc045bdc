# Number converter: a Dafny model

This project models the number converter of a browser game that drills
English number words. The converter is the `window.gameConverters` object in
`js/converters/number-converter.js`. It does six things:

- writes a non-negative integer as cardinal words (`numberToWords`: 1234 is
  "a thousand two hundred and thirty-four");
- writes it as ordinal words (`numberToOrdinal`: 1034 is "a thousand
  thirty-fourth");
- writes it as a grouped numeral with an ordinal suffix
  (`numberToOrdinalSuffix`: "1,234th");
- picks the answer and the display text for a game configuration
  (`convertToAnswer`, `displayValue`);
- brings typed answers to a canonical form (`normalizeAnswer`);
- builds the list of answers a question accepts (`getAcceptedAnswers`).

The converters are pure functions. `getAcceptedAnswers` builds its list step
by step, so it is a method with conditional appends. That method is proved
equal to the specification function `Answers.AcceptedAnswers`.

Modules, one concept each:

| module | file | contents |
|---|---|---|
| `Text` | text.dfy | ASCII `toLowerCase`, `trim`, the `\s+` collapse, comma removal, a splitter |
| `Decimal` | decimal.dfy | `toString` and en-US `toLocaleString` of a non-negative integer |
| `WordRegex` | regex.dfy | `replace(/\bP\b/g, R)`: whole-word global replacement, judged on the original text |
| `NumberWords` | words.dfy | the three number converters and their word tables |
| `WordsFacts` | words_facts.dfy | the ordinal words end in the suffix `numberToOrdinalSuffix` picks |
| `EnglishOrdinal` | ordinal_reference.dfy | an independent English ordinal rule, compared with the converter |
| `WordsParse` | words_parse.dfy | a reader for cardinal words, used to prove the words identify the number |
| `Normalize` | normalize.dfy | `normalizeAnswer` and the facts about its rewrites |
| `Answers` | answers.dfy | `convertToAnswer`, `displayValue`, `getAcceptedAnswers` and the listening-mode finding |

Three behaviours of the code are worth knowing, and the model keeps each
as written:

- `normalizeAnswer` is not idempotent: "x , y" normalises to "x  y" (two
  spaces), and that normalises to "x y" (`Normalize.NormalizeNotIdempotent`).
- The accepted list can hold the same text twice: in listening mode with a
  plain numeral answer and a plain display, it is that numeral twice
  (`Answers.ListeningDuplicate`).
- 1021 is written "a thousand twenty-first": " and " appears only inside a
  hundreds group, never between the thousands and a rest below 100.

## Model

All sources are in `js/converters/number-converter.js`.

| member | source | states |
|---|---|---|
| Answers.ConvertToAnswer | js/converters/number-converter.js:4-11 | the answer is never empty |
| Answers.ConvertToAnswerReadsBack | js/converters/number-converter.js:4-11 | cardinal answers parse back to the value and numeral answers read back to it. Ordinal answers end like the suffixed numeral exactly when the value is below a billion or its suffix is "th" |
| Answers.ConvertToAnswerInjective | js/converters/number-converter.js:4-11 | cardinal and numeral answers of different values differ |
| Answers.DisplayValue | js/converters/number-converter.js:14-21 | the display text is never empty |
| Answers.DisplayValueProperties | js/converters/number-converter.js:14-21 | the display text is already lower case. It contains a comma exactly for the grouped displays from 1000 on. It normalises to the plain numeral, plus the suffix for the ordinal-suffix display |
| Answers.NumericDisplay | js/converters/number-converter.js:15-16 | the grouped numeral is lower case, has a comma exactly from 1000 on, and normalises to the plain numeral |
| Answers.SuffixDisplay | js/converters/number-converter.js:17-18 | the suffixed numeral is lower case, has a comma exactly from 1000 on, and normalises to the plain numeral with its suffix |
| Answers.PlainDisplay | js/converters/number-converter.js:20 | the plain numeral is lower case, comma-free and already normal |
| Decimal.DecimalString | js/converters/number-converter.js:10 | `toString` gives a non-empty all-digit numeral with no leading zero except for 0, and one digit exactly below 10 |
| Decimal.DecimalRoundTrip | js/converters/number-converter.js:10 | reading the numeral back gives the number |
| Decimal.DecimalInjective | js/converters/number-converter.js:10 | distinct numbers have distinct numerals |
| Decimal.DecimalThousands | js/converters/number-converter.js:10 | from 1000 on, the numeral is the numeral of the thousands followed by three padded digits |
| Decimal.GroupedDecimal | js/converters/number-converter.js:16 | `toLocaleString` (en-US) starts with a digit, has a comma at exactly every fourth place counted from the right end, and digits everywhere else |
| Decimal.GroupedUngroups | js/converters/number-converter.js:16 | removing the commas from the grouped numeral gives the plain numeral |
| Decimal.GroupedHasComma | js/converters/number-converter.js:120 | the grouped numeral has a comma exactly from 1000 on, and below that equals the plain numeral |
| NumberWords.NumberToWords | js/converters/number-converter.js:24-56 | the words are never empty, and from a billion on they are the plain numeral |
| NumberWords.CardinalTablesPlain | js/converters/number-converter.js:25-27 | every table entry the converter uses is a plain lower-case word |
| NumberWords.WordsHundredsShape | js/converters/number-converter.js:36-41 | 100 to 999 reads "a hundred" or "<digit> hundred", then " and " and the rest when the rest is not zero |
| NumberWords.WordsThousandsShape | js/converters/number-converter.js:42-47 | below a million: "a thousand" or "<words> thousand", then " " and the rest when the rest is not zero |
| NumberWords.WordsMillionsShape | js/converters/number-converter.js:48-53 | below a billion: "a million" or "<words> million", then " " and the rest when the rest is not zero |
| WordsParse.CardinalRoundTrip | js/converters/number-converter.js:24-56 | reading the cardinal words back, word by word, gives the number for every n |
| WordsParse.CardinalInjective | js/converters/number-converter.js:24-56 | distinct numbers have distinct cardinal words |
| WordsParse.PhraseRun | js/converters/number-converter.js:29-41 | the words of a number below 1000 read back to it |
| WordsParse.BelowMillionRun | js/converters/number-converter.js:42-47 | the words of a number below a million put its thousands into the total and leave its last three digits in the group |
| WordsParse.MillionsRun | js/converters/number-converter.js:48-53 | the words of a number of millions read back to it |
| WordsParse.NumeralRun | js/converters/number-converter.js:55 | the numeral fallback reads back to the number |
| WordsParse.SmallToken | js/converters/number-converter.js:29-35 | below 100 the words are a single token whose value is the number |
| WordsParse.HyphenToken | js/converters/number-converter.js:34 | "<tens>-<ones>" is one token worth the number |
| WordsParse.HundredsTokens | js/converters/number-converter.js:36-41 | the words of 100 to 999 split into head, "hundred" and, when the rest is not zero, "and" and the rest |
| WordsParse.ThousandsTokens | js/converters/number-converter.js:42-47 | the words of the thousands band split into the group's words, "thousand" and the rest's words |
| WordsParse.MillionsTokens | js/converters/number-converter.js:48-53 | the same for the millions band |
| NumberWords.NumberToOrdinal | js/converters/number-converter.js:59-113 | the ordinal is never empty, and from a billion on it is the numeral followed by "th" |
| NumberWords.FirstOccurrence | js/converters/number-converter.js:76 | the result is the first position at or after `from` where the pattern occurs, or -1 when there is none |
| NumberWords.ReplaceFirst | js/converters/number-converter.js:76 | a string-pattern `replace` changes only the first occurrence, and without one it returns the text unchanged |
| NumberWords.OrdinalHundredsShape | js/converters/number-converter.js:79-88 | 100 to 999: the hundreds head (its digit word from the ordinal table), then "th" or " and " and the ordinal of the rest |
| NumberWords.OrdinalThousandsShape | js/converters/number-converter.js:89-99 | below a million: the cardinal thousands head, then "th" or " " and the ordinal of the rest |
| NumberWords.OrdinalMillionsShape | js/converters/number-converter.js:100-110 | below a billion: the cardinal millions head, then "th" or " " and the ordinal of the rest |
| WordsFacts.HyphenatedShape | js/converters/number-converter.js:73-77 | a non-round number from 20 to 99 is the tens ordinal with "ieth" replaced by "y-", then the ones ordinal |
| EnglishOrdinal.TensStem | js/converters/number-converter.js:76 | "ieth" replaced by "y-" in a tens ordinal gives the tens cardinal and a hyphen |
| EnglishOrdinal.OrdinalOfWord | js/converters/number-converter.js:60-64 | the English ordinal of one word ends in "st", "nd", "rd" or "th" |
| EnglishOrdinal.Ordinalize | js/converters/number-converter.js:59-113 | the reference rule (ordinal of the last word) always ends in an ordinal suffix |
| EnglishOrdinal.OnesOrdinal | js/converters/number-converter.js:60 | the ordinal ones table is the English ordinal of the cardinal ones table |
| EnglishOrdinal.TeensOrdinal | js/converters/number-converter.js:61-62 | the same for the teens |
| EnglishOrdinal.TensOrdinal | js/converters/number-converter.js:63-64 | the same for the round tens |
| EnglishOrdinal.OrdinalBelowHundred | js/converters/number-converter.js:66-78 | below 100 the ordinal is the cardinal with its last word ordinalised |
| EnglishOrdinal.OrdinalSeveralHundred | js/converters/number-converter.js:82 | from 200 to 999 the ordinal differs from the English rule, because the hundreds digit comes from the ordinal table ("second hundredth") |
| EnglishOrdinal.OrdinalBelowThousand | js/converters/number-converter.js:79-88 | below 1000 the ordinal follows the English rule exactly below 200 |
| EnglishOrdinal.OrdinalThousands | js/converters/number-converter.js:89-99 | in the thousands band it follows the rule exactly when the last three digits are below 200 |
| EnglishOrdinal.OrdinalMillions | js/converters/number-converter.js:100-110 | the same in the millions band |
| EnglishOrdinal.OrdinalizeNumeral | js/converters/number-converter.js:112 | the English rule on a numeral appends "th", as the fallback does |
| EnglishOrdinal.OrdinalVersusEnglish | js/converters/number-converter.js:59-113 | for every n, the ordinal is the cardinal words with the last word ordinalised exactly when n is at least a billion or n mod 1000 is below 200 |
| NumberWords.SuffixFor | js/converters/number-converter.js:122-131 | the suffix has two letters. It is "th" exactly when the last two digits are 11 to 13 or the last digit is not 1, 2 or 3 |
| NumberWords.NumberToOrdinalSuffix | js/converters/number-converter.js:116-132 | the result is the grouped numeral followed by the suffix of the last two digits |
| WordsFacts.OrdinalEnding | js/converters/number-converter.js:59-113 | below a billion the ordinal words end in the suffix the last two digits call for |
| WordsFacts.SuffixAgreesWithWords | js/converters/number-converter.js:116-132 | below a billion the ordinal words and the suffixed numeral end in the same two letters |
| WordsFacts.SuffixFromBillion | js/converters/number-converter.js:112 | from a billion on the ordinal ends in "th", so it agrees with the suffixed numeral exactly when that suffix is "th" |
| WordsFacts.SuffixOfLastTwoDigits | js/converters/number-converter.js:117-118 | the suffix depends only on the last two digits |
| WordsFacts.EndingBelowHundred | js/converters/number-converter.js:66-78 | below 100 the ordinal ends in the suffix for the number |
| WordsFacts.EndingHundreds | js/converters/number-converter.js:79-88 | the hundreds band ends like its rest |
| WordsFacts.EndingThousands | js/converters/number-converter.js:89-99 | the thousands band ends like its rest |
| WordsFacts.EndingMillions | js/converters/number-converter.js:100-110 | the millions band ends like its rest |
| Text.Lower | js/converters/number-converter.js:136 | `toLowerCase` keeps the length, maps each character, and leaves no upper-case letter |
| Text.LowerIdentity | js/converters/number-converter.js:136 | lowering changes nothing exactly when there is no upper-case letter |
| Text.Trim | js/converters/number-converter.js:137 | `trim` leaves no white space at either end, adds no characters, and leaves text without white space at its ends unchanged |
| Text.TrimIsSlice | js/converters/number-converter.js:137 | the trimmed text is a contiguous slice of the input, and everything before and after that slice is white space |
| Text.CollapseSpaces | js/converters/number-converter.js:138 | the result has only ' ' as white space, never two spaces in a row, no new characters, is empty exactly when the input is, and starts and ends with white space exactly when the input does |
| Text.CollapseSpacesSqueezes | js/converters/number-converter.js:138 | the collapse equals a one-pass reference that copies every other character in order and writes one ' ' for each maximal white-space run |
| Text.CollapseSpacesIdentity | js/converters/number-converter.js:138 | text whose white space is single spaces is unchanged |
| Text.StripCommas | js/converters/number-converter.js:139 | the result has exactly the characters of the input other than commas |
| Text.StripCommasIdentity | js/converters/number-converter.js:139 | comma-free text is unchanged |
| Text.StripCommasAppend | js/converters/number-converter.js:139 | comma removal distributes over concatenation |
| WordRegex.ReplaceAll | js/converters/number-converter.js:140-147 | whole-word global replacement introduces no character outside the text and the replacement |
| WordRegex.ReplaceRemovesAll | js/converters/number-converter.js:141-146 | after a compatible replacement no whole-word match of the pattern is left |
| WordRegex.ReplaceKeepsAbsent | js/converters/number-converter.js:141-146 | a compatible replacement creates no new match of a phrase that was absent |
| WordRegex.ReplaceAllAbsent | js/converters/number-converter.js:141-147 | without a match the text is unchanged |
| WordRegex.ReplaceBySelf | js/converters/number-converter.js:140 | replacing a pattern by itself changes nothing |
| Normalize.AndStepIsIdentity | js/converters/number-converter.js:140 | the "and" rewrite never changes the text |
| Normalize.LastStepIsIdentity | js/converters/number-converter.js:147 | the final "one hundred and" rewrite changes nothing once "one hundred" is gone |
| Normalize.ChainThenLast | js/converters/number-converter.js:141-147 | after the six unit rewrites the final rewrite never applies |
| Normalize.NormalizeSteps | js/converters/number-converter.js:135-148 | normalising is the prepared text (lower, trim, collapse, no commas) put through the unit rewrites |
| Normalize.RewriteRemoves | js/converters/number-converter.js:141-146 | after the chain no whole-word "one <unit>" is left for any of its units |
| Normalize.RewriteKeepsAbsent | js/converters/number-converter.js:141-146 | a later unit rewrite does not bring back a phrase an earlier one removed |
| Normalize.Prepared | js/converters/number-converter.js:136-139 | the prepared text (lowered, trimmed, collapsed, commas removed) is clean: no upper-case letter, no comma, and ' ' the only white space |
| Normalize.NormalizeAnswer | js/converters/number-converter.js:135-148 | a normalised answer is clean (no upper-case letter, no comma, ' ' the only white space) and holds no whole-word "one <unit>" for any of the six units |
| Normalize.RewriteUnits | js/converters/number-converter.js:141-146 | a chain of unit rewrites whose pattern starts with a letter absent from the text leaves the text unchanged |
| Normalize.RewriteClean | js/converters/number-converter.js:141-146 | the unit rewrites keep text clean when the replacement and the units are clean |
| Normalize.NormalizeLead | js/converters/number-converter.js:135-148 | a text starting with a lower-case letter normalises to one that does too |
| Normalize.NormalizePlainText | js/converters/number-converter.js:135-148 | text of digits, commas and lower-case letters other than "o" normalises to itself without its commas |
| Normalize.NormalizeNumeral | js/converters/number-converter.js:135-148 | the plain and the grouped numerals both normalise to the plain numeral |
| Normalize.PreparedTidy | js/converters/number-converter.js:136-139 | on tidy lower-case text the preparation only removes commas |
| Normalize.NormalizeSpacedComma | js/converters/number-converter.js:138-139 | "x , y" normalises to "x  y", because the spaces are collapsed before the comma goes |
| Normalize.NormalizeDoubleSpace | js/converters/number-converter.js:138 | "x  y" normalises to "x y" |
| Normalize.NormalizeNotIdempotent | js/converters/number-converter.js:135-148 | normalising twice can differ from normalising once |
| Answers.OneVariant | js/converters/number-converter.js:155-162 | the variant is the "a <unit>" to "one <unit>" chain alone, because the last rewrite never applies, and it leaves no whole-word "a <unit>" |
| Answers.VariantNeedsA | js/converters/number-converter.js:155-164 | the variant differs from the answer only when the answer holds a whole-word "a <unit>" |
| Answers.AcceptedAnswers | js/converters/number-converter.js:151-173 | the list starts with the normalised answer, has one more entry exactly when the variant differs and one more in listening mode, and in listening mode ends with the lowered display text |
| Answers.GetAcceptedAnswers | js/converters/number-converter.js:151-173 | the list built by appending equals AcceptedAnswers. It has one to three entries and starts with the normalised answer |
| Answers.WithVariantShape | js/converters/number-converter.js:164-166 | the variant is appended exactly when it differs from the normalised answer |
| Answers.WithDisplayShape | js/converters/number-converter.js:168-170 | in listening mode exactly one entry, the display text, is appended; otherwise nothing changes |
| Answers.AcceptedAnswersShape | js/converters/number-converter.js:151-173 | the list's first entry is the normalised answer, then the variant when it differs, and last the display text in listening mode |
| Answers.AcceptsAnswer | js/converters/number-converter.js:151-173 | the answer itself, and any submission that normalises like it, is accepted |
| Answers.WordAnswerLead | js/converters/number-converter.js:151-162 | below a billion a word answer and its variant both start with a lower-case letter |
| Answers.ListeningDuplicate | js/converters/number-converter.js:151-173 | in listening mode with a numeral answer and a plain display the list is the numeral twice |
| Answers.ListeningNumeralRejected | js/converters/number-converter.js:168-170 | as written: from 1000 on, with a word answer and a grouped display, no submission that normalises to something starting with a digit is accepted |
| Answers.ListeningNumeralExamples | js/converters/number-converter.js:168-170 | as written: neither the plain numeral nor the display text as shown is accepted in that case |
| Answers.ListeningNumeralAccepted | js/converters/number-converter.js:168-170 | corrected: with the display entry normalised, the display text and the plain numeral (with its suffix for the ordinal-suffix display) are accepted |
| Answers.IntendedAgreesWhereCommaFree | js/converters/number-converter.js:168-170 | the corrected list equals the list as written whenever the display has no comma |

## Left out

- `getSmartRandom` is not modelled. It draws from `Math.random` and works in
  floating point.
- Numbers are non-negative integers. Negative, fractional, `NaN` and infinite
  arguments are not modelled. For a negative number the code indexes its
  tables with a negative index.
- Decimal.DecimalString: JavaScript numbers are doubles, and the model's
  numbers are exact integers. From 2^53 on, `toString` prints the shortest
  digits that read back to the same double (2^60 prints
  "1152921504606847000"), and from 10^21 on it uses exponent form ("1e+21").
  The model prints the exact decimal numeral for every n. So the fallbacks
  for a billion and more in `NumberWords.NumberToWords`,
  `NumberWords.NumberToOrdinal` and `NumberWords.NumberToOrdinalSuffix`, and
  the "for every n" lemmas `WordsParse.CardinalRoundTrip`,
  `WordsParse.NumeralRun` and `Decimal.DecimalRoundTrip`, match the code
  only below 2^53. From 2^53 on not every integer is a double at all, so
  `Decimal.GroupedDecimal` (`toLocaleString`) also speaks for the code only
  below 2^53.
- `toLocaleString` is modelled in the en-US locale: groups of three digits
  separated by commas. Other locales are not modelled.
- `toLowerCase`, `trim` and `\s` are modelled on ASCII text only: the letters
  A to Z, and tab, line feed, vertical tab, form feed, carriage return and
  space. Unicode case mapping and Unicode white space are not modelled.
- `config.conversionType`, `config.displayType` and `gameMode` are enums.
  Every string other than the ones the code tests for is one case.
- The `window.gameConverters` global and the `this.` dispatch between its
  functions are not modelled; calls go straight to the Dafny functions.
- Normalize.NormalizeNotIdempotent: this gives a family of counterexamples
  ("x , y" for lower-case letters other than "o"). It does not say exactly
  which texts are not idempotent.
- Answers.ConvertToAnswerInjective: not claimed for ordinal answers. That
  would need a reader for ordinal words, and the model has none.

## Findings

| source | as written | input that shows it | evidently intended | confidence | as-written member | corrected member |
|---|---|---|---|---|---|---|
| js/converters/number-converter.js:168-170 | in listening mode the display text is only lowercased before it is added. From 1000 on, the numeric and ordinal-suffix displays contain a comma. Submissions are compared after normalisation, which removes commas. So the display entry ("1,234" or "1,234th") can never match, and a typed numeral is rejected for a word answer | 1234, conversion "cardinal", display "numeric", mode "listening": neither "1234" nor "1,234" is accepted | the display entry is normalised like the other entries, so the numeral the player hears can be typed with or without commas | not executed | Answers.ListeningNumeralRejected, Answers.ListeningNumeralExamples | Answers.ListeningNumeralAccepted, Answers.IntendedAgreesWhereCommaFree |
