/** ASCII text primitives used by answer normalisation: `toLowerCase`,
    `trim`, the `\s+` collapse and the removal of commas, restricted to
    ASCII characters, plus a splitter used to read rendered words back. */
module Text {

  /** ASCII upper-case letter. */
  predicate IsUpper(c: char) { 'A' <= c <= 'Z' }

  /** ASCII lower-case letter. */
  predicate IsLower(c: char) { 'a' <= c <= 'z' }

  /** ASCII decimal digit. */
  predicate IsDigit(c: char) { '0' <= c <= '9' }

  /** The ASCII characters matched by JavaScript's `\s` and removed by `trim`:
      tab, line feed, vertical tab, form feed, carriage return and space. */
  predicate IsSpace(c: char) { c == ' ' || 9 <= c as int <= 13 }

  /** A non-empty word of lower-case ASCII letters. */
  predicate IsPlainWord(w: string) { |w| > 0 && forall i :: 0 <= i < |w| ==> IsLower(w[i]) }

  predicate NoUpper(s: string) { forall i :: 0 <= i < |s| ==> !IsUpper(s[i]) }

  function ToLowerChar(c: char): (d: char)
    ensures !IsUpper(d)
    ensures !IsUpper(c) ==> d == c
    ensures IsUpper(c) ==> IsLower(d) && d as int == c as int + 32
  {
    if IsUpper(c) then (c as int + 32) as char else c
  }

  /** `toLowerCase` on ASCII text. */
  function Lower(s: string): (r: string)
    ensures |r| == |s|
    ensures forall i :: 0 <= i < |s| ==> r[i] == ToLowerChar(s[i])
    ensures NoUpper(r)
  {
    if s == [] then [] else [ToLowerChar(s[0])] + Lower(s[1..])
  }

  /** Lowering leaves text without upper-case letters unchanged, and only then. */
  lemma LowerIdentity(s: string)
    ensures Lower(s) == s <==> NoUpper(s)
  {
    if NoUpper(s) {
      assert forall i :: 0 <= i < |s| ==> Lower(s)[i] == s[i];
    } else {
      var i :| 0 <= i < |s| && IsUpper(s[i]);
      assert Lower(s)[i] != s[i];
    }
  }

  /** Drops the leading run of white space. */
  function TrimStart(s: string): (r: string)
    ensures |r| <= |s| && r == s[|s| - |r|..]
    ensures forall i :: 0 <= i < |s| - |r| ==> IsSpace(s[i])
    ensures r != [] ==> !IsSpace(r[0])
  {
    if s != [] && IsSpace(s[0]) then TrimStart(s[1..]) else s
  }

  /** Drops the trailing run of white space. */
  function TrimEnd(s: string): (r: string)
    ensures |r| <= |s| && r == s[..|r|]
    ensures forall i :: |r| <= i < |s| ==> IsSpace(s[i])
    ensures r != [] ==> !IsSpace(r[|r| - 1])
  {
    if s != [] && IsSpace(s[|s| - 1]) then TrimEnd(s[..|s| - 1]) else s
  }

  /** `trim`: both ends. */
  function Trim(s: string): (r: string)
    ensures r != [] ==> !IsSpace(r[0]) && !IsSpace(r[|r| - 1])
    ensures forall c :: c in r ==> c in s
    ensures s != [] && !IsSpace(s[0]) && !IsSpace(s[|s| - 1]) ==> r == s
  {
    var t := TrimStart(s);
    var r := TrimEnd(t);
    TrimSlice(s, t, r);
    r
  }

  /** What `trim` leaves is the slice of s that starts at index i and
      remains once the white space before it and after it is removed. */
  lemma TrimIsSlice(s: string) returns (i: nat)
    ensures i + |Trim(s)| <= |s| && Trim(s) == s[i..i + |Trim(s)|]
    ensures forall k :: 0 <= k < i ==> IsSpace(s[k])
    ensures forall k :: i + |Trim(s)| <= k < |s| ==> IsSpace(s[k])
  {
    var t := TrimStart(s);
    var r := TrimEnd(t);
    TrimSlice(s, t, r);
    i := |s| - |t|;
  }

  /** A prefix of a suffix of s is a slice of s. */
  lemma SliceOfSuffix(s: string, t: string, i: int, r: string, m: int)
    requires 0 <= i <= |s| && t == s[i..] && 0 <= m <= |t| && r == t[..m]
    ensures i + m <= |s| && r == s[i..i + m]
  {
  }

  /** Dropping white space from the front of s and then from the back leaves
      a slice of s with white space on both sides of it. */
  lemma TrimSlice(s: string, t: string, r: string)
    requires |t| <= |s| && t == s[|s| - |t|..] && forall k :: 0 <= k < |s| - |t| ==> IsSpace(s[k])
    requires |r| <= |t| && r == t[..|r|] && forall k :: |r| <= k < |t| ==> IsSpace(t[k])
    ensures var i := |s| - |t|;
      && i + |r| <= |s| && r == s[i..i + |r|]
      && (forall k :: 0 <= k < i ==> IsSpace(s[k]))
      && (forall k :: i + |r| <= k < |s| ==> IsSpace(s[k]))
    ensures forall c :: c in r ==> c in s
  {
    var i := |s| - |t|;
    SliceOfSuffix(s, t, i, r, |r|);
    forall k | i + |r| <= k < |s| ensures IsSpace(s[k]) {
      assert s[k] == t[k - i];
    }
    forall c | c in r ensures c in s {
      var j :| 0 <= j < |r| && r[j] == c;
      assert s[i + j] == c;
    }
  }

  /** No two white-space characters stand side by side. */
  predicate SingleSpaced(s: string) {
    forall i :: 0 <= i < |s| - 1 ==> !(IsSpace(s[i]) && IsSpace(s[i + 1]))
  }

  /** `replace(/\s+/g, ' ')`: every maximal run of white space becomes one space. */
  function CollapseSpaces(s: string): (r: string)
    decreases |s|
    ensures r == [] <==> s == []
    ensures r != [] ==> (IsSpace(r[0]) <==> IsSpace(s[0]))
    ensures r != [] ==> (IsSpace(r[|r| - 1]) <==> IsSpace(s[|s| - 1]))
    ensures forall i :: 0 <= i < |r| && IsSpace(r[i]) ==> r[i] == ' '
    ensures SingleSpaced(r)
    ensures forall c :: c in r ==> c in s || c == ' '
  {
    if s == [] then []
    else if IsSpace(s[0]) then
      var t := TrimStart(s);
      [' '] + CollapseSpaces(t)
    else
      [s[0]] + CollapseSpaces(s[1..])
  }

  /** A reference for the collapse, one character at a time: a white-space
      character that follows another is dropped, any other white-space
      character becomes ' ', and every other character is copied. `afterSpace`
      says whether the character before s was white space. */
  function Squeeze(s: string, afterSpace: bool): string {
    if s == [] then []
    else if IsSpace(s[0]) then (if afterSpace then [] else [' ']) + Squeeze(s[1..], true)
    else [s[0]] + Squeeze(s[1..], false)
  }

  /** Leading white space after white space adds nothing. */
  lemma {:induction false} SqueezeSkipsSpaces(s: string)
    ensures Squeeze(s, true) == Squeeze(TrimStart(s), true)
    decreases |s|
  {
    if s != [] && IsSpace(s[0]) {
      SqueezeSkipsSpaces(s[1..]);
    }
  }

  /** Before a non-space character the previous character does not matter. */
  lemma SqueezeAfterAny(s: string)
    requires s == [] || !IsSpace(s[0])
    ensures Squeeze(s, true) == Squeeze(s, false)
  {
  }

  /** The collapse agrees with the reference: each maximal white-space run
      becomes one ' ' and every other character is kept, in order. */
  lemma {:induction false} CollapseSpacesSqueezes(s: string)
    ensures CollapseSpaces(s) == Squeeze(s, false)
    decreases |s|
  {
    if s != [] {
      if IsSpace(s[0]) {
        var t := TrimStart(s);
        assert t == TrimStart(s[1..]);
        SqueezeSkipsSpaces(s[1..]);
        SqueezeAfterAny(t);
        CollapseSpacesSqueezes(t);
      } else {
        CollapseSpacesSqueezes(s[1..]);
      }
    }
  }

  /** Text whose only white space is single plain spaces is left as it is by
      the collapse. */
  lemma {:induction false} CollapseSpacesIdentity(s: string)
    requires forall i :: 0 <= i < |s| && IsSpace(s[i]) ==> s[i] == ' '
    requires SingleSpaced(s)
    ensures CollapseSpaces(s) == s
    decreases |s|
  {
    if s != [] {
      var t := s[1..];
      assert s == [s[0]] + t;
      assert forall i :: 0 <= i < |t| ==> t[i] == s[i + 1];
      CollapseSpacesIdentity(t);
      if IsSpace(s[0]) {
        assert TrimStart(s) == t by {
          assert t != [] ==> !IsSpace(t[0]);
          assert TrimStart(s) == TrimStart(t);
        }
      }
    }
  }

  /** A leading non-space character is copied by the collapse. */
  lemma CollapseKeepsLead(c: char, t: string)
    requires !IsSpace(c)
    ensures CollapseSpaces([c] + t) == [c] + CollapseSpaces(t)
  {
    assert ([c] + t)[1..] == t;
  }

  /** Of two leading spaces the collapse keeps one. */
  lemma CollapseDropsSpace(t: string)
    ensures CollapseSpaces([' ', ' '] + t) == CollapseSpaces([' '] + t)
  {
    assert ([' ', ' '] + t)[1..] == [' '] + t;
    assert ([' '] + t)[1..] == t;
  }

  /** A single space before a non-space character is kept. */
  lemma CollapseSpaceBefore(d: char)
    requires !IsSpace(d)
    ensures CollapseSpaces([' ', d]) == [' ', d]
  {
    assert [' ', d][1..] == [d] && [d][1..] == [];
    assert TrimStart([' ', d]) == [d];
  }

  /** Two spaces before a non-space character become one. */
  lemma CollapseTwoSpacesBefore(d: char)
    requires !IsSpace(d)
    ensures CollapseSpaces([' ', ' '] + [d]) == [' ', d]
  {
    CollapseDropsSpace([d]);
    assert [' '] + [d] == [' ', d];
    CollapseSpaceBefore(d);
  }

  /** Text that starts with a non-space character keeps it through `trim`. */
  lemma TrimLead(s: string)
    requires s != [] && !IsSpace(s[0])
    ensures Trim(s) != [] && Trim(s)[0] == s[0]
  {
    assert TrimStart(s) == s;
    assert TrimEnd(s) != [] by {
      assert !IsSpace(s[0]);
    }
  }

  /** ... and through the collapse of white space. */
  lemma CollapseLead(s: string)
    requires s != [] && !IsSpace(s[0])
    ensures CollapseSpaces(s) != [] && CollapseSpaces(s)[0] == s[0]
  {
  }

  /** The empty text is a right unit of concatenation. */
  lemma AppendEmpty(s: string)
    ensures s + "" == s
  {
  }

  /** Concatenation is associative. */
  lemma AppendAssoc<T>(a: seq<T>, b: seq<T>, c: seq<T>)
    ensures a + (b + c) == a + b + c
  {
  }

  /** `replace(/,/g, '')`. */
  function StripCommas(s: string): (r: string)
    ensures forall c :: c in r <==> c in s && c != ','
    ensures |r| <= |s|
  {
    if s == [] then []
    else if s[0] == ',' then StripCommas(s[1..])
    else [s[0]] + StripCommas(s[1..])
  }

  /** A first character other than a comma stays first. */
  lemma StripCommasLead(s: string)
    requires s != [] && s[0] != ','
    ensures StripCommas(s) != [] && StripCommas(s)[0] == s[0]
  {
  }

  /** Removing commas from comma-free text changes nothing. */
  lemma {:induction false} StripCommasIdentity(s: string)
    requires ',' !in s
    ensures StripCommas(s) == s
  {
    if s != [] {
      assert s == [s[0]] + s[1..];
      StripCommasIdentity(s[1..]);
    }
  }

  lemma {:induction false} StripCommasAppend(a: string, b: string)
    ensures StripCommas(a + b) == StripCommas(a) + StripCommas(b)
  {
    if a != [] {
      assert (a + b)[1..] == a[1..] + b;
      StripCommasAppend(a[1..], b);
    } else {
      assert a + b == b;
    }
  }

  /** The pieces of `s` between occurrences of the separator `c` (there is
      always one more piece than separators). */
  function Split(s: string, c: char): (r: seq<string>)
    ensures |r| >= 1
  {
    if s == [] then [[]]
    else if s[0] == c then [[]] + Split(s[1..], c)
    else
      var t := Split(s[1..], c);
      [[s[0]] + t[0]] + t[1..]
  }

  /** Splitting distributes over a separator placed between two texts. */
  lemma {:induction false} SplitJoin(a: string, c: char, b: string)
    ensures Split(a + [c] + b, c) == Split(a, c) + Split(b, c)
  {
    var tail := Split(b, c);
    if a == [] {
      assert a + [c] + b == [c] + b;
      assert ([c] + b)[1..] == b;
    } else {
      var ab := a + [c] + b;
      assert ab[0] == a[0] && ab[1..] == a[1..] + [c] + b;
      SplitJoin(a[1..], c, b);
      var u := Split(a[1..], c);
      var t := Split(ab[1..], c);
      assert t == u + tail;
      if a[0] == c {
        AppendAssoc([[]], u, tail);
      } else {
        assert t[0] == u[0] && t[1..] == u[1..] + tail;
        AppendAssoc([[a[0]] + u[0]], u[1..], tail);
      }
    }
  }

  /** Text without the separator is a single piece. */
  lemma {:induction false} SplitSingle(w: string, c: char)
    requires c !in w
    ensures Split(w, c) == [w]
  {
    if w != [] {
      assert w == [w[0]] + w[1..];
      SplitSingle(w[1..], c);
    }
  }
}
