/** The whole-word global replacement `text.replace(/\bP\b/g, R)` for a
    literal pattern P, as a JavaScript regular-expression engine performs it:
    the scan goes left to right over the ORIGINAL text, a match at position i
    emits R and resumes at i + |P|, and each `\b` is judged on the original
    text. */
module WordRegex {

  /** A character of the class `\w`: ASCII letter, digit or underscore. */
  predicate IsWordChar(c: char) {
    'a' <= c <= 'z' || 'A' <= c <= 'Z' || '0' <= c <= '9' || c == '_'
  }

  /** `\b` at position j of u, where `before` tells whether the character just
      before u[0] (in the text u sits in) is a word character. */
  predicate BoundaryIn(u: string, j: int, before: bool)
    requires 0 <= j <= |u|
  {
    (if j == 0 then before else IsWordChar(u[j - 1])) != (j < |u| && IsWordChar(u[j]))
  }

  /** `\bq\b` matches u at position j. */
  predicate MatchIn(u: string, q: string, j: int, before: bool) {
    0 <= j && j + |q| <= |u| && u[j..j + |q|] == q
    && BoundaryIn(u, j, before) && BoundaryIn(u, j + |q|, before)
  }

  /** `\bq\b` matches the text s at position j. */
  predicate MatchAt(s: string, q: string, j: int) {
    MatchIn(s, q, j, false)
  }

  /** The text holds no whole-word occurrence of q. */
  predicate NoMatch(s: string, q: string) {
    forall j :: 0 <= j <= |s| ==> !MatchAt(s, q, j)
  }

  /** Whether the character before position i of s is a word character. */
  function Before(s: string, i: int): bool
    requires 0 <= i <= |s|
  {
    i > 0 && IsWordChar(s[i - 1])
  }

  /** The engine's scan from position i of s. */
  function ReplaceFrom(s: string, p: string, r: string, i: int): (t: string)
    requires |p| > 0 && 0 <= i <= |s|
    decreases |s| - i
    ensures forall c :: c in t ==> c in s[i..] || c in r
  {
    if i + |p| > |s| then s[i..]
    else if MatchAt(s, p, i) then
      assert forall c :: c in s[i + |p|..] ==> c in s[i..];
      r + ReplaceFrom(s, p, r, i + |p|)
    else
      assert s[i..] == [s[i]] + s[i + 1..];
      [s[i]] + ReplaceFrom(s, p, r, i + 1)
  }

  /** `s.replace(/\bp\b/g, r)`. Every character of the result comes from the
      text or from the replacement. */
  function ReplaceAll(s: string, p: string, r: string): (t: string)
    requires |p| > 0
    ensures forall c :: c in t ==> c in s || c in r
  {
    assert s[0..] == s;
    ReplaceFrom(s, p, r, 0)
  }

  /** Replacing p by r can create no new whole-word occurrence of q: the
      replacement starts and ends like the pattern, no word of r begins with
      q's first letter, and no word of q after its first begins with r's first
      letter. */
  predicate Compatible(p: string, r: string, q: string) {
    && |p| > 0 && |q| > 0 && |r| > 0
    && IsWordChar(p[0]) && IsWordChar(q[0]) && IsWordChar(r[0])
    && IsWordChar(p[|p| - 1]) == IsWordChar(r[|r| - 1])
    && (forall j :: 0 <= j < |r| && (j == 0 || !IsWordChar(r[j - 1])) ==> r[j] != q[0])
    && (forall d :: 1 <= d < |q| && !IsWordChar(q[d - 1]) ==> q[d] != r[0])
  }

  /** A match inside a suffix is a match in the whole text. */
  lemma ShiftMatch(s: string, q: string, i: int, j: int)
    requires 0 <= i <= |s| && 0 <= j
    ensures MatchIn(s[i..], q, j, Before(s, i)) <==> MatchAt(s, q, i + j)
  {
    var u := s[i..];
    if j + |q| <= |u| {
      assert u[j..j + |q|] == s[i + j..i + j + |q|];
      assert BoundaryIn(u, j, Before(s, i)) == BoundaryIn(s, i + j, false);
      assert BoundaryIn(u, j + |q|, Before(s, i)) == BoundaryIn(s, i + j + |q|, false);
    }
  }

  /** A match after a non-empty prefix is a match in the remainder, read in the
      context of the prefix's last character. */
  lemma ConcatMatch(a: string, b: string, q: string, j: int, before: bool)
    requires |a| > 0 && 0 <= j
    ensures MatchIn(a + b, q, |a| + j, before) <==> MatchIn(b, q, j, IsWordChar(a[|a| - 1]))
  {
    var u := a + b;
    var ctx := IsWordChar(a[|a| - 1]);
    if j + |q| <= |b| {
      assert u[|a| + j..|a| + j + |q|] == b[j..j + |q|];
      assert BoundaryIn(u, |a| + j, before) == BoundaryIn(b, j, ctx);
      assert BoundaryIn(u, |a| + j + |q|, before) == BoundaryIn(b, j + |q|, ctx);
    }
  }

  /** Where the pattern does not match, the scan copies the text unchanged. */
  lemma {:induction false} Unchanged(s: string, p: string, r: string, i: int, k: int)
    requires |p| > 0 && 0 <= i <= k <= |s|
    requires forall m :: i <= m < k ==> !MatchAt(s, p, m)
    ensures ReplaceFrom(s, p, r, i) == s[i..k] + ReplaceFrom(s, p, r, k)
    decreases k - i
  {
    if i < k {
      if i + |p| > |s| {
        assert s[i..] == s[i..k] + s[k..];
      } else {
        Unchanged(s, p, r, i + 1, k);
        assert s[i..k] == [s[i]] + s[i + 1..k];
      }
    }
  }

  /** The first match of p in positions [i, k), or k when there is none. */
  lemma {:induction false} FindFirst(s: string, p: string, i: int, k: int) returns (m: int)
    requires 0 <= i <= k <= |s|
    ensures i <= m <= k
    ensures forall m' :: i <= m' < m ==> !MatchAt(s, p, m')
    ensures m < k ==> MatchAt(s, p, m)
    decreases k - i
  {
    if i == k {
      m := k;
    } else if MatchAt(s, p, i) {
      m := i;
    } else {
      m := FindFirst(s, p, i + 1, k);
    }
  }

  /** The scan's first emitted character is a word character exactly when the
      text's character there is one. */
  lemma FirstCharWord(s: string, p: string, r: string, k: int)
    requires |p| > 0 && |r| > 0 && IsWordChar(p[0]) && IsWordChar(r[0])
    requires 0 <= k < |s|
    ensures ReplaceFrom(s, p, r, k) != []
    ensures IsWordChar(ReplaceFrom(s, p, r, k)[0]) == IsWordChar(s[k])
  {
    if k + |p| <= |s| && MatchAt(s, p, k) {
      assert s[k] == p[0];
    }
  }

  /** The step of NoNewMatchFrom where the scan copies s[i]: no match of q
      can start at the copied character. */
  lemma HeadNotMatch(s: string, p: string, r: string, q: string, i: int)
    requires Compatible(p, r, q) && 0 <= i && i + |p| <= |s|
    requires !MatchAt(s, p, i) && !MatchAt(s, q, i)
    ensures !MatchIn(ReplaceFrom(s, p, r, i), q, 0, Before(s, i))
  {
    var k := if i + |q| < |s| then i + |q| else |s|;
    var m := FindFirst(s, p, i + 1, k);
    Unchanged(s, p, r, i, m);
    if m == k {
      HeadCopied(s, p, r, q, i, k);
    } else {
      HeadInterrupted(s, p, r, q, i, m);
    }
  }

  /** No p starts within the first |q| characters after position i: the scan
      reproduces them, so a q there would already be a q in s. */
  lemma HeadCopied(s: string, p: string, r: string, q: string, i: int, k: int)
    requires Compatible(p, r, q) && 0 <= i < k <= |s|
    requires k == if i + |q| < |s| then i + |q| else |s|
    requires !MatchAt(s, q, i)
    requires ReplaceFrom(s, p, r, i) == s[i..k] + ReplaceFrom(s, p, r, k)
    ensures !MatchIn(ReplaceFrom(s, p, r, i), q, 0, Before(s, i))
  {
    var t := ReplaceFrom(s, p, r, i);
    var tail := ReplaceFrom(s, p, r, k);
    var ctx := Before(s, i);
    if k == |s| {
      assert tail == [];
      assert t == s[i..];
      ShiftMatch(s, q, i, 0);
    } else {
      FirstCharWord(s, p, r, k);
      assert t[..|q|] == s[i..i + |q|];
      assert t[|q| - 1] == s[k - 1];
      assert t[|q|] == tail[0];
      assert BoundaryIn(s, i, false) == BoundaryIn(t, 0, ctx);
      assert BoundaryIn(s, i + |q|, false) == BoundaryIn(t, |q|, ctx);
    }
  }

  /** A p starts at m, within the first |q| characters after position i: the
      replacement's first letter lands where q would need a different one. */
  lemma HeadInterrupted(s: string, p: string, r: string, q: string, i: int, m: int)
    requires Compatible(p, r, q) && 0 <= i < m < i + |q| && m <= |s|
    requires MatchAt(s, p, m)
    requires ReplaceFrom(s, p, r, i) == s[i..m] + ReplaceFrom(s, p, r, m)
    ensures !MatchIn(ReplaceFrom(s, p, r, i), q, 0, Before(s, i))
  {
    var t := ReplaceFrom(s, p, r, i);
    assert ReplaceFrom(s, p, r, m) == r + ReplaceFrom(s, p, r, m + |p|);
    var d := m - i;
    assert t[d] == r[0];
    assert t[d - 1] == s[m - 1];
    assert s[m] == p[0];
    assert !IsWordChar(s[m - 1]);
    assert !IsWordChar(q[d - 1]) ==> q[d] != r[0];
  }

  /** No whole-word q anywhere in u, read after a character that is a word
      character exactly when `before` holds. */
  predicate Free(u: string, q: string, before: bool) {
    forall j :: 0 <= j <= |u| ==> !MatchIn(u, q, j, before)
  }

  /** The heart of the replacement lemmas: if, from position i on, every
      whole-word q in s is also a whole-word p, then the scan's output holds no
      whole-word q. */
  lemma {:induction false} NoNewMatchFrom(s: string, p: string, r: string, q: string, i: int)
    requires Compatible(p, r, q) && 0 <= i <= |s|
    requires forall m :: i <= m && MatchAt(s, q, m) ==> MatchAt(s, p, m)
    ensures Free(ReplaceFrom(s, p, r, i), q, Before(s, i))
    decreases |s| - i
  {
    if i + |p| > |s| {
      forall j | 0 <= j ensures !MatchIn(ReplaceFrom(s, p, r, i), q, j, Before(s, i)) {
        ShiftMatch(s, q, i, j);
      }
    } else if MatchAt(s, p, i) {
      NoNewMatchFrom(s, p, r, q, i + |p|);
      var rest := ReplaceFrom(s, p, r, i + |p|);
      assert ReplaceFrom(s, p, r, i) == r + rest;
      assert Before(s, i + |p|) == IsWordChar(r[|r| - 1]) by {
        assert s[i + |p| - 1] == p[|p| - 1];
      }
      ReplacedFree(p, r, rest, q, Before(s, i));
    } else {
      NoNewMatchFrom(s, p, r, q, i + 1);
      var rest := ReplaceFrom(s, p, r, i + 1);
      assert ReplaceFrom(s, p, r, i) == [s[i]] + rest;
      assert !MatchAt(s, q, i);
      HeadNotMatch(s, p, r, q, i);
      CopiedFree(s[i], rest, q, Before(s, i));
    }
  }

  /** Emitting the replacement keeps the output free of q. */
  lemma ReplacedFree(p: string, r: string, rest: string, q: string, ctx: bool)
    requires Compatible(p, r, q) && Free(rest, q, IsWordChar(r[|r| - 1]))
    ensures Free(r + rest, q, ctx)
  {
    forall j | 0 <= j ensures !MatchIn(r + rest, q, j, ctx) {
      if j >= |r| {
        ConcatMatch(r, rest, q, j - |r|, ctx);
      } else {
        InsideReplacement(p, r, rest, q, j, ctx);
      }
    }
  }

  /** No whole-word q starts inside the replacement text. */
  lemma InsideReplacement(p: string, r: string, rest: string, q: string, j: int, ctx: bool)
    requires Compatible(p, r, q) && 0 <= j < |r|
    ensures !MatchIn(r + rest, q, j, ctx)
  {
    var t := r + rest;
    assert t[j] == r[j];
    if j + |q| <= |t| {
      assert t[j..j + |q|][0] == t[j];
    }
    if j > 0 {
      assert t[j - 1] == r[j - 1];
    }
    assert (j == 0 || !IsWordChar(r[j - 1])) ==> r[j] != q[0];
  }

  /** Copying a character that starts no q keeps the output free of q. */
  lemma CopiedFree(c: char, rest: string, q: string, ctx: bool)
    requires Free(rest, q, IsWordChar(c)) && !MatchIn([c] + rest, q, 0, ctx)
    ensures Free([c] + rest, q, ctx)
  {
    forall j | 0 <= j ensures !MatchIn([c] + rest, q, j, ctx) {
      if j >= 1 {
        ConcatMatch([c], rest, q, j - 1, ctx);
      }
    }
  }

  /** After the global replacement, no whole-word occurrence of the pattern is
      left (when the replacement cannot form a new one). */
  lemma ReplaceRemovesAll(s: string, p: string, r: string)
    requires Compatible(p, r, p)
    ensures NoMatch(ReplaceAll(s, p, r), p)
  {
    NoNewMatchFrom(s, p, r, p, 0);
    assert ReplaceAll(s, p, r) == ReplaceFrom(s, p, r, 0);
    assert !Before(s, 0);
  }

  /** A whole-word q absent before a compatible replacement is absent after it. */
  lemma ReplaceKeepsAbsent(s: string, p: string, r: string, q: string)
    requires Compatible(p, r, q) && NoMatch(s, q)
    ensures NoMatch(ReplaceAll(s, p, r), q)
  {
    NoNewMatchFrom(s, p, r, q, 0);
    assert ReplaceAll(s, p, r) == ReplaceFrom(s, p, r, 0);
    assert !Before(s, 0);
  }

  /** A pattern with no whole-word occurrence is replaced nowhere. */
  lemma ReplaceAllAbsent(s: string, p: string, r: string)
    requires |p| > 0 && NoMatch(s, p)
    ensures ReplaceAll(s, p, r) == s
  {
    Unchanged(s, p, r, 0, |s|);
  }

  /** Replacing every whole-word p by p itself changes nothing. */
  lemma {:induction false} ReplaceBySelf(s: string, p: string, i: int)
    requires |p| > 0 && 0 <= i <= |s|
    ensures ReplaceFrom(s, p, p, i) == s[i..]
    decreases |s| - i
  {
    if i + |p| <= |s| {
      if MatchAt(s, p, i) {
        ReplaceBySelf(s, p, i + |p|);
        assert s[i..] == s[i..i + |p|] + s[i + |p|..];
      } else {
        ReplaceBySelf(s, p, i + 1);
        assert s[i..] == [s[i]] + s[i + 1..];
      }
    }
  }

  /** A whole-word q that begins with the whole word p, followed by a
      non-word character, can only match where p matches. */
  lemma ExtensionMatch(s: string, p: string, q: string)
    requires 0 < |p| < |q| && q[..|p|] == p
    requires IsWordChar(p[|p| - 1]) && !IsWordChar(q[|p|])
    requires NoMatch(s, p)
    ensures NoMatch(s, q)
  {
    forall j | MatchAt(s, q, j) ensures false {
      assert s[j..j + |p|] == q[..|p|];
      assert s[j + |p|] == q[|p|];
      assert MatchAt(s, p, j);
    }
  }

  /** Text without the pattern's first character holds no match of it. */
  lemma AbsentLead(s: string, p: string)
    requires |p| > 0 && p[0] !in s
    ensures NoMatch(s, p)
  {
    forall j | 0 <= j <= |s| ensures !MatchAt(s, p, j) {
      if j + |p| <= |s| {
        assert s[j..j + |p|][0] == s[j];
      }
    }
  }

  /** The first character of the result: the replacement's when the pattern
      matches at the start, the text's own otherwise. */
  lemma ReplaceLead(s: string, p: string, r: string)
    requires |p| > 0 && |r| > 0 && s != []
    ensures ReplaceAll(s, p, r) != []
    ensures ReplaceAll(s, p, r)[0] == if MatchAt(s, p, 0) then r[0] else s[0]
  {
    assert ReplaceAll(s, p, r) == ReplaceFrom(s, p, r, 0);
  }
}
