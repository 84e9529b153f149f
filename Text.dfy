/**
 Character classes and string normalisation used by the mood responder:
 the whitespace that `str.strip()` removes, the word characters that the
 regular-expression boundary `\b` looks at, and the case folding used by
 `str.lower()` and by case-insensitive matching.
 */
module Text {

  /** Whitespace as Python's `str.isspace()` defines it; these are exactly
      the characters `str.strip()` with no argument removes. */
  predicate IsSpace(c: char) {
    || ('\U{9}' <= c <= '\U{D}')
    || ('\U{1C}' <= c <= '\U{20}')
    || c == '\U{85}' || c == '\U{A0}' || c == '\U{1680}'
    || ('\U{2000}' <= c <= '\U{200A}')
    || c == '\U{2028}' || c == '\U{2029}' || c == '\U{202F}'
    || c == '\U{205F}' || c == '\U{3000}'
  }

  /** Word characters for `\b`: ASCII letters, digits and the underscore. */
  predicate IsWordChar(c: char) {
    ('a' <= c <= 'z') || ('A' <= c <= 'Z') || ('0' <= c <= '9') || c == '_'
  }

  /** ASCII case folding: upper-case letters map to lower case, all else is kept. */
  function ToLower(c: char): (d: char)
    ensures 'A' <= c <= 'Z' ==> 'a' <= d <= 'z' && d as int == c as int + 32
    ensures !('A' <= c <= 'Z') ==> d == c
  {
    if 'A' <= c <= 'Z' then (c as int + 32) as char else c
  }

  /** `s.lower()`, character by character. */
  function Lower(s: string): (r: string)
    ensures |r| == |s|
    ensures forall i :: 0 <= i < |s| ==> r[i] == ToLower(s[i])
  {
    if s == [] then [] else [ToLower(s[0])] + Lower(s[1..])
  }

  /** Two strings are equal when case is ignored. */
  predicate FoldEq(a: string, b: string) {
    |a| == |b| && forall i :: 0 <= i < |a| ==> ToLower(a[i]) == ToLower(b[i])
  }

  /** Every string equals itself when case is ignored. */
  lemma FoldEqReflexive(s: string)
    ensures FoldEq(s, s)
  {
  }

  /** No word character is whitespace. */
  lemma WordCharIsNoSpace(c: char)
    requires IsWordChar(c)
    ensures !IsSpace(c)
  {
  }

  /** Folding case never changes whether a character is a word character. */
  lemma FoldKeepsWordChar(c: char, d: char)
    requires ToLower(c) == ToLower(d)
    ensures IsWordChar(c) == IsWordChar(d)
  {
  }

  /** A string and its lower-case form are equal when case is ignored. */
  lemma LowerFoldEq(s: string)
    ensures FoldEq(Lower(s), s)
  {
  }

  /** A string equal up to case to a word of lower-case letters
      lower-cases to that word, and holds no whitespace. */
  lemma FoldToLetters(w: string, k: string)
    requires FoldEq(w, k)
    requires forall i :: 0 <= i < |k| ==> 'a' <= k[i] <= 'z'
    ensures Lower(w) == k
    ensures forall i :: 0 <= i < |w| ==> !IsSpace(w[i])
  {
    assert forall i :: 0 <= i < |w| ==> Lower(w)[i] == k[i];
  }

  /** The first position at or after `i` that does not hold whitespace
      (or `|s|`): where `strip()` stops removing leading whitespace. */
  function SkipSpace(s: string, i: nat): (a: nat)
    requires i <= |s|
    ensures i <= a <= |s|
    ensures forall j :: i <= j < a ==> IsSpace(s[j])
    ensures a < |s| ==> !IsSpace(s[a])
    decreases |s| - i
  {
    if i < |s| && IsSpace(s[i]) then SkipSpace(s, i + 1) else i
  }

  /** The end of `s[lo..b]` once its trailing whitespace is dropped: where
      `strip()` stops removing trailing whitespace. */
  function SkipSpaceBack(s: string, lo: nat, b: nat): (e: nat)
    requires lo <= b <= |s|
    ensures lo <= e <= b
    ensures forall j :: e <= j < b ==> IsSpace(s[j])
    ensures e > lo ==> !IsSpace(s[e - 1])
    decreases b
  {
    if b > lo && IsSpace(s[b - 1]) then SkipSpaceBack(s, lo, b - 1) else b
  }

  /** `r` is the slice of `s` starting at `a`, and everything of `s` outside
      that slice is whitespace. */
  predicate TrimmedAt(s: string, r: string, a: int) {
    && 0 <= a <= |s| - |r| && r == s[a..a + |r|]
    && (forall i :: 0 <= i < a ==> IsSpace(s[i]))
    && (forall i :: a + |r| <= i < |s| ==> IsSpace(s[i]))
  }

  /** `s.strip()`: the slice of `s` left once the whitespace at both ends is
      removed. It is empty exactly when `s` is all whitespace. */
  function Strip(s: string): (r: string)
    ensures TrimmedAt(s, r, SkipSpace(s, 0))
    ensures r != [] ==> !IsSpace(r[0]) && !IsSpace(r[|r| - 1])
    ensures r == [] <==> forall i :: 0 <= i < |s| ==> IsSpace(s[i])
  {
    var a := SkipSpace(s, 0);
    var e := SkipSpaceBack(s, a, |s|);
    s[a..e]
  }

  /** `strip()` undoes padding: a string that neither starts nor ends with
      whitespace comes back unchanged from any whitespace around it. */
  lemma {:induction false} StripPadded(pre: string, w: string, post: string)
    requires forall i :: 0 <= i < |pre| ==> IsSpace(pre[i])
    requires forall i :: 0 <= i < |post| ==> IsSpace(post[i])
    requires w != [] && !IsSpace(w[0]) && !IsSpace(w[|w| - 1])
    ensures Strip(pre + w + post) == w
  {
    var s := pre + w + post;
    var r := Strip(s);
    var a := SkipSpace(s, 0);
    assert s[|pre|] == w[0];
    assert s[|pre| + |w| - 1] == w[|w| - 1];
    assert r != [];
    assert s[a] == r[0];
    assert s[a + |r| - 1] == r[|r| - 1];
    assert a == |pre|;
    assert a + |r| == |pre| + |w|;
    assert r == s[|pre|..|pre| + |w|];
  }

  /** Folding case never changes whether a character is whitespace. */
  lemma FoldKeepsSpace(c: char, d: char)
    requires ToLower(c) == ToLower(d)
    ensures IsSpace(c) == IsSpace(d)
  {
  }

  /** Strings equal up to case lose the same leading whitespace. */
  lemma {:induction false} SkipSpaceFold(s: string, t: string, i: nat)
    requires FoldEq(s, t) && i <= |s|
    ensures SkipSpace(s, i) == SkipSpace(t, i)
    decreases |s| - i
  {
    if i < |s| {
      FoldKeepsSpace(s[i], t[i]);
      SkipSpaceFold(s, t, i + 1);
    }
  }

  /** Strings equal up to case lose the same trailing whitespace. */
  lemma {:induction false} SkipSpaceBackFold(s: string, t: string, lo: nat, b: nat)
    requires FoldEq(s, t) && lo <= b <= |s|
    ensures SkipSpaceBack(s, lo, b) == SkipSpaceBack(t, lo, b)
    decreases b
  {
    if b > lo {
      FoldKeepsSpace(s[b - 1], t[b - 1]);
      SkipSpaceBackFold(s, t, lo, b - 1);
    }
  }

  /** `strip()` commutes with ignoring case: strings equal up to case strip
      to strings equal up to case. */
  lemma StripFold(s: string, t: string)
    requires FoldEq(s, t)
    ensures FoldEq(Strip(s), Strip(t))
  {
    SkipSpaceFold(s, t, 0);
    var a := SkipSpace(s, 0);
    SkipSpaceBackFold(s, t, a, |s|);
    var e := SkipSpaceBack(s, a, |s|);
    assert Strip(s) == s[a..e] && Strip(t) == t[a..e];
  }

  /** Strings equal up to case have the same lower-case form. */
  lemma FoldEqLower(s: string, t: string)
    requires FoldEq(s, t)
    ensures Lower(s) == Lower(t)
  {
    assert forall i :: 0 <= i < |s| ==> Lower(s)[i] == Lower(t)[i];
  }
}
