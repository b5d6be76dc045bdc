/** `normalizeAnswer`: the canonical form in which answers are compared, and
    the whole-word rewrites between "one <unit>" and "a <unit>" that it and
    the accepted-answer list use. */
module Normalize {
  import opened Text
  import opened WordRegex
  import opened Decimal

  /** The units of the rewrites, in the order the code applies them. */
  const Units: seq<string> := ["hundred", "thousand", "million", "hundredth", "thousandth", "millionth"]

  /** The two-word phrase "<x> <u>". */
  function Phrase(x: string, u: string): string {
    x + " " + u
  }

  /** `replace(/\b<x> <u>\b/g, '<y> <u>')` for each unit u in turn. With
      x = "one" and y = "a" this is the normaliser's chain, with x = "a" and
      y = "one" the chain that builds the "one" variant of an answer. */
  function RewriteUnits(s: string, x: string, y: string, units: seq<string>): (r: string)
    decreases |units|
    ensures |x| > 0 && x[0] !in s ==> r == s
  {
    if units == [] then s
    else
      var t := ReplaceAll(s, Phrase(x, units[0]), Phrase(y, units[0]));
      assert |x| > 0 && x[0] !in s ==> t == s by {
        if |x| > 0 && x[0] !in s {
          var p := Phrase(x, units[0]);
          assert p[0] == x[0];
          AbsentLead(s, p);
          ReplaceAllAbsent(s, p, Phrase(y, units[0]));
        }
      }
      RewriteUnits(t, x, y, units[1..])
  }

  /** The pipeline of `normalizeAnswer`, step by step in the code's order:
      lower case, trim, collapse white space, drop commas, the "and" rewrite,
      the six unit rewrites, and the final "one hundred and" rewrite. */
  function NormalizeAnswer(text: string): (r: string)
    ensures Normalized(r)
  {
    var lowered := Lower(text);
    var trimmed := Trim(lowered);
    var spaced := CollapseSpaces(trimmed);
    var bare := StripCommas(spaced);
    var anded := ReplaceAll(bare, "and", "and");
    var rewritten := RewriteUnits(anded, "one", "a", Units);
    AndStepIsIdentity(bare);
    assert Normalized(rewritten) by {
      assert bare == Prepared(text);
      ChainNormalizes(bare);
    }
    ChainThenLast(bare);
    ReplaceAll(rewritten, "one hundred and", "a hundred and")
  }

  // ---- the rewrites cannot create what an earlier one removed

  /** A plain word beginning with neither "o" nor "a", which keeps it apart
      from the rewritten words "one" and "a". */
  predicate UnitWord(u: string) {
    IsPlainWord(u) && u[0] != 'o' && u[0] != 'a'
  }

  lemma UnitsAreWords()
    ensures forall k :: 0 <= k < |Units| ==> UnitWord(Units[k])
  {
  }

  /** The two directions the code rewrites in. */
  predicate Rewriting(x: string, y: string) {
    (x == "one" && y == "a") || (x == "a" && y == "one")
  }

  lemma LowerIsWordChar(w: string, j: int)
    requires IsPlainWord(w) && 0 <= j < |w|
    ensures IsWordChar(w[j])
  {
  }

  /** Rewriting "<x> <u>" to "<y> <u>" creates no whole-word "<x> <v>"
      when the first letters of the words keep them apart. */
  lemma UnitCompatible(x: string, y: string, u: string, v: string)
    requires IsPlainWord(x) && IsPlainWord(y) && IsPlainWord(u) && IsPlainWord(v)
    requires y[0] != x[0] && u[0] != x[0] && v[0] != y[0]
    ensures Compatible(Phrase(x, u), Phrase(y, u), Phrase(x, v))
  {
    var p, r, q := Phrase(x, u), Phrase(y, u), Phrase(x, v);
    assert p[0] == x[0] && r[0] == y[0] && q[0] == x[0];
    LowerIsWordChar(x, 0);
    LowerIsWordChar(y, 0);
    LowerIsWordChar(u, |u| - 1);
    assert p[|p| - 1] == u[|u| - 1] && r[|r| - 1] == u[|u| - 1];
    forall j | 0 <= j < |r| && (j == 0 || !IsWordChar(r[j - 1])) ensures r[j] != q[0] {
      if j > 0 {
        if j - 1 < |y| {
          LowerIsWordChar(y, j - 1);
        } else if j - 1 > |y| {
          LowerIsWordChar(u, j - 2 - |y|);
        } else {
          assert r[j] == u[0];
        }
      }
    }
    forall d | 1 <= d < |q| && !IsWordChar(q[d - 1]) ensures q[d] != r[0] {
      if d - 1 < |x| {
        LowerIsWordChar(x, d - 1);
      } else if d - 1 > |x| {
        LowerIsWordChar(v, d - 2 - |x|);
      } else {
        assert q[d] == v[0];
      }
    }
  }

  /** A whole-word "<x> <v>" absent before the chain is absent after it. */
  lemma {:induction false} RewriteKeepsAbsent(s: string, x: string, y: string, units: seq<string>, v: string)
    requires Rewriting(x, y) && IsPlainWord(v) && v[0] != y[0]
    requires forall k :: 0 <= k < |units| ==> UnitWord(units[k])
    requires NoMatch(s, Phrase(x, v))
    ensures NoMatch(RewriteUnits(s, x, y, units), Phrase(x, v))
    decreases |units|
  {
    if units != [] {
      var u := units[0];
      UnitCompatible(x, y, u, v);
      ReplaceKeepsAbsent(s, Phrase(x, u), Phrase(y, u), Phrase(x, v));
      RewriteKeepsAbsent(ReplaceAll(s, Phrase(x, u), Phrase(y, u)), x, y, units[1..], v);
    }
  }

  /** After the chain, no whole-word "<x> <u>" is left for any unit u. */
  lemma {:induction false} RewriteRemoves(s: string, x: string, y: string, units: seq<string>, k: nat)
    requires Rewriting(x, y)
    requires forall i :: 0 <= i < |units| ==> UnitWord(units[i])
    requires k < |units|
    ensures NoMatch(RewriteUnits(s, x, y, units), Phrase(x, units[k]))
    decreases |units|
  {
    var u := units[0];
    var next := ReplaceAll(s, Phrase(x, u), Phrase(y, u));
    if k == 0 {
      UnitCompatible(x, y, u, u);
      ReplaceRemovesAll(s, Phrase(x, u), Phrase(y, u));
      RewriteKeepsAbsent(next, x, y, units[1..], u);
    } else {
      RewriteRemoves(next, x, y, units[1..], k - 1);
      assert units[1..][k - 1] == units[k];
    }
  }

  /** Characters a normalised answer may hold: no upper-case letter, no
      comma, and no white space other than the plain space. */
  predicate Clean(s: string) {
    forall c :: c in s ==> !IsUpper(c) && c != ',' && (IsSpace(c) ==> c == ' ')
  }

  /** The rewrites keep text clean when the replacement and the units are. */
  lemma {:induction false} RewriteClean(s: string, x: string, y: string, units: seq<string>)
    requires Clean(s) && Clean(y)
    requires forall k :: 0 <= k < |units| ==> Clean(units[k])
    ensures Clean(RewriteUnits(s, x, y, units))
    decreases |units|
  {
    if units != [] {
      var r := Phrase(y, units[0]);
      var t := ReplaceAll(s, Phrase(x, units[0]), r);
      assert Clean(r) by {
        forall c | c in r ensures c in y || c == ' ' || c in units[0] { }
      }
      RewriteClean(t, x, y, units[1..]);
    }
  }

  /** The "and" step replaces each whole word "and" by itself. */
  lemma AndStepIsIdentity(s: string)
    ensures ReplaceAll(s, "and", "and") == s
  {
    ReplaceBySelf(s, "and", 0);
  }

  /** Once no whole-word "one hundred" is left, the last rewrite, of
      "one hundred and", finds nothing to replace. */
  lemma LastStepIsIdentity(s: string)
    requires NoMatch(s, "one hundred")
    ensures ReplaceAll(s, "one hundred and", "a hundred and") == s
  {
    var p, q := "one hundred", "one hundred and";
    assert q[..|p|] == p && q[|p|] == ' ';
    ExtensionMatch(s, p, q);
    ReplaceAllAbsent(s, q, "a hundred and");
  }

  /** The text before the unit rewrites: lowered, trimmed, collapsed and
      without commas. */
  function Prepared(text: string): (r: string)
    ensures Clean(r)
  {
    var lowered := Lower(text);
    var spaced := CollapseSpaces(Trim(lowered));
    assert forall c :: c in lowered ==> !IsUpper(c) by {
      forall c | c in lowered ensures !IsUpper(c) {
        var i :| 0 <= i < |lowered| && lowered[i] == c;
      }
    }
    assert forall c :: c in spaced ==> !IsUpper(c) && (IsSpace(c) ==> c == ' ') by {
      forall c | c in spaced ensures !IsUpper(c) && (IsSpace(c) ==> c == ' ') {
        var i :| 0 <= i < |spaced| && spaced[i] == c;
      }
    }
    StripCommas(spaced)
  }

  /** After the unit chain the final rewrite has nothing left to replace. */
  lemma ChainThenLast(bare: string)
    ensures var rewritten := RewriteUnits(bare, "one", "a", Units);
      ReplaceAll(rewritten, "one hundred and", "a hundred and") == rewritten
  {
    var rewritten := RewriteUnits(bare, "one", "a", Units);
    UnitsAreWords();
    RewriteRemoves(bare, "one", "a", Units, 0);
    assert Phrase("one", Units[0]) == "one hundred";
    LastStepIsIdentity(rewritten);
  }

  /** Two of the normaliser's steps have no effect: the "and" rewrite and the
      final "one hundred and" rewrite; the answer is the unit chain applied to
      the prepared text. */
  lemma NormalizeSteps(text: string)
    ensures NormalizeAnswer(text) == RewriteUnits(Prepared(text), "one", "a", Units)
  {
    AndStepIsIdentity(Prepared(text));
    ChainThenLast(Prepared(text));
  }

  /** What every normalised answer looks like. */
  predicate Normalized(s: string) {
    Clean(s) && forall k :: 0 <= k < |Units| ==> NoMatch(s, Phrase("one", Units[k]))
  }

  /** The unit chain turns clean text into normal form. */
  lemma ChainNormalizes(bare: string)
    requires Clean(bare)
    ensures Normalized(RewriteUnits(bare, "one", "a", Units))
  {
    UnitsAreWords();
    assert forall k :: 0 <= k < |Units| ==> Clean(Units[k]) by {
      forall k | 0 <= k < |Units| ensures Clean(Units[k]) {
        assert UnitWord(Units[k]);
      }
    }
    RewriteClean(bare, "one", "a", Units);
    forall k | 0 <= k < |Units| ensures NoMatch(RewriteUnits(bare, "one", "a", Units), Phrase("one", Units[k])) {
      RewriteRemoves(bare, "one", "a", Units, k);
    }
  }

  /** The rewrites keep a lower-case first letter. */
  lemma {:induction false} RewriteLead(s: string, x: string, y: string, units: seq<string>)
    requires s != [] && IsLower(s[0]) && x != [] && y != [] && IsLower(y[0])
    ensures RewriteUnits(s, x, y, units) != [] && IsLower(RewriteUnits(s, x, y, units)[0])
    decreases |units|
  {
    if units != [] {
      var r := Phrase(y, units[0]);
      assert r[0] == y[0];
      ReplaceLead(s, Phrase(x, units[0]), r);
      RewriteLead(ReplaceAll(s, Phrase(x, units[0]), r), x, y, units[1..]);
    }
  }

  lemma PreparedLead(text: string)
    requires text != [] && IsLower(text[0])
    ensures Prepared(text) != [] && IsLower(Prepared(text)[0])
  {
    var lowered := Lower(text);
    assert lowered[0] == text[0];
    TrimLead(lowered);
    CollapseLead(Trim(lowered));
    StripCommasLead(CollapseSpaces(Trim(lowered)));
  }

  /** An answer that starts with a lower-case letter still starts with one
      once normalised. */
  lemma NormalizeLead(text: string)
    requires text != [] && IsLower(text[0])
    ensures NormalizeAnswer(text) != [] && IsLower(NormalizeAnswer(text)[0])
  {
    NormalizeSteps(text);
    PreparedLead(text);
    RewriteLead(Prepared(text), "one", "a", Units);
  }

  /** On text made of digits, commas and lower-case letters other than "o",
      normalising only removes the commas. */
  lemma NormalizePlainText(s: string)
    requires forall c :: c in s ==> IsDigit(c) || c == ',' || (IsLower(c) && c != 'o')
    ensures NormalizeAnswer(s) == StripCommas(s)
  {
    assert NoUpper(s) by {
      forall i | 0 <= i < |s| ensures !IsUpper(s[i]) { assert s[i] in s; }
    }
    LowerIdentity(s);
    assert forall i :: 0 <= i < |s| ==> !IsSpace(s[i]) by {
      forall i | 0 <= i < |s| ensures !IsSpace(s[i]) { assert s[i] in s; }
    }
    if s != [] {
      assert Trim(s) == s;
    } else {
      assert Trim(s) == s by { assert forall c :: c !in Trim(s); }
    }
    CollapseSpacesIdentity(s);
    var bare := StripCommas(s);
    assert Prepared(s) == bare;
    NormalizeSteps(s);
  }

  /** A numeral, grouped or not, normalises to the plain numeral. */
  lemma NormalizeNumeral(n: nat)
    ensures NormalizeAnswer(DecimalString(n)) == DecimalString(n)
    ensures NormalizeAnswer(GroupedDecimal(n)) == DecimalString(n)
  {
    var d := DecimalString(n);
    assert forall c :: c in d ==> IsDigit(c) by {
      forall c | c in d ensures IsDigit(c) {
        var i :| 0 <= i < |d| && d[i] == c;
      }
    }
    assert ',' !in d;
    NormalizePlainText(d);
    StripCommasIdentity(d);
    NormalizePlainText(GroupedDecimal(n));
    GroupedUngroups(n);
  }

  /** Text that is already lower case, trimmed and single spaced is only
      stripped of its commas by the preparation. */
  lemma PreparedTidy(s: string)
    requires NoUpper(s) && s != [] && !IsSpace(s[0]) && !IsSpace(s[|s| - 1])
    requires forall i :: 0 <= i < |s| && IsSpace(s[i]) ==> s[i] == ' '
    requires SingleSpaced(s)
    ensures Prepared(s) == StripCommas(s)
  {
    assert Lower(s) == s by { LowerIdentity(s); }
    assert Trim(s) == s;
    assert CollapseSpaces(s) == s by { CollapseSpacesIdentity(s); }
  }

  lemma StripSpacedComma(c: char, d: char)
    requires c != ',' && d != ','
    ensures StripCommas([c, ' ', ',', ' ', d]) == [c, ' ', ' ', d]
  {
    assert [c, ' ', ',', ' ', d] == [c, ' '] + ([','] + [' ', d]);
    StripCommasAppend([c, ' '], [','] + [' ', d]);
    StripCommasAppend([','], [' ', d]);
    assert [','][1..] == [];
    assert StripCommas([' ', d]) == [' ', d] by { StripCommasIdentity([' ', d]); }
    assert StripCommas([c, ' ']) == [c, ' '] by { StripCommasIdentity([c, ' ']); }
  }

  /** Preparing "<c> , <d>" drops the comma and keeps both spaces. */
  lemma PreparedComma(c: char, d: char)
    requires IsLower(c) && IsLower(d)
    ensures Prepared([c, ' ', ',', ' ', d]) == [c, ' ', ' ', d]
  {
    PreparedTidy([c, ' ', ',', ' ', d]);
    StripSpacedComma(c, d);
  }

  lemma CollapseDoubleSpace(c: char, d: char)
    requires IsLower(c) && IsLower(d)
    ensures CollapseSpaces([c, ' ', ' ', d]) == [c, ' ', d]
  {
    CollapseKeepsLead(c, [' ', ' '] + [d]);
    CollapseTwoSpacesBefore(d);
    assert [c, ' ', ' ', d] == [c] + ([' ', ' '] + [d]);
  }

  /** Lowering and trimming leave "<c>  <d>" as it is. */
  lemma TidyDoubleSpace(c: char, d: char)
    requires IsLower(c) && IsLower(d)
    ensures Trim(Lower([c, ' ', ' ', d])) == [c, ' ', ' ', d]
  {
    var t := [c, ' ', ' ', d];
    assert Lower(t) == t by { LowerIdentity(t); }
    assert Trim(t) == t;
  }

  /** Preparing "<c>  <d>" collapses the two spaces into one. */
  lemma PreparedDoubleSpace(c: char, d: char)
    requires IsLower(c) && IsLower(d)
    ensures Prepared([c, ' ', ' ', d]) == [c, ' ', d]
  {
    TidyDoubleSpace(c, d);
    CollapseDoubleSpace(c, d);
    StripCommasIdentity([c, ' ', d]);
  }

  /** Prepared text without an 'o' has no "one" to rewrite. */
  lemma NormalizeOfPrepared(text: string, bare: string)
    requires Prepared(text) == bare && 'o' !in bare
    ensures NormalizeAnswer(text) == bare
  {
    NormalizeSteps(text);
  }

  lemma SpacedWithoutO(c: char, d: char)
    requires c != 'o' && d != 'o'
    ensures 'o' !in [c, ' ', d] && 'o' !in [c, ' ', ' ', d]
  {
  }

  /** A comma between spaces leaves two spaces after one pass. */
  lemma NormalizeSpacedComma(c: char, d: char)
    requires IsLower(c) && IsLower(d) && c != 'o' && d != 'o'
    ensures NormalizeAnswer([c, ' ', ',', ' ', d]) == [c, ' ', ' ', d]
  {
    PreparedComma(c, d);
    SpacedWithoutO(c, d);
    NormalizeOfPrepared([c, ' ', ',', ' ', d], [c, ' ', ' ', d]);
  }

  /** A second pass collapses the two spaces. */
  lemma NormalizeDoubleSpace(c: char, d: char)
    requires IsLower(c) && IsLower(d) && c != 'o' && d != 'o'
    ensures NormalizeAnswer([c, ' ', ' ', d]) == [c, ' ', d]
  {
    PreparedDoubleSpace(c, d);
    SpacedWithoutO(c, d);
    NormalizeOfPrepared([c, ' ', ' ', d], [c, ' ', d]);
  }

  /** Normalising twice is not the same as normalising once: dropping a comma
      can leave two spaces side by side, which only a second pass collapses. */
  lemma NormalizeNotIdempotent(c: char, d: char)
    requires IsLower(c) && IsLower(d) && c != 'o' && d != 'o'
    ensures NormalizeAnswer(NormalizeAnswer([c, ' ', ',', ' ', d])) != NormalizeAnswer([c, ' ', ',', ' ', d])
  {
    NormalizeSpacedComma(c, d);
    NormalizeDoubleSpace(c, d);
  }
}
