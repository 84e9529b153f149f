/**
 Whole-word, case-insensitive keyword matching: the meaning of a pattern
 `\b(?:k1|k2|...)\b` compiled with IGNORECASE, stated directly rather than
 through a regular-expression engine.
 */
module WordMatch {
  import opened Text

  /** Whether position `i` of `t` holds a word character; positions outside
      the text count as non-word. */
  predicate WordAt(t: string, i: int) {
    0 <= i < |t| && IsWordChar(t[i])
  }

  /** `\b` holds at position `i` (between `t[i-1]` and `t[i]`) when the two
      sides differ in word status. */
  predicate IsBoundary(t: string, i: int) {
    WordAt(t, i - 1) != WordAt(t, i)
  }

  /** Keyword `k` occurs at position `i` of `t`, ignoring case, with a word
      boundary at both of its ends. */
  predicate WholeWordAt(t: string, k: string, i: int) {
    && 0 <= i && i + |k| <= |t|
    && FoldEq(t[i..i + |k|], k)
    && IsBoundary(t, i) && IsBoundary(t, i + |k|)
  }

  /** `k` occurs somewhere in `t` as a whole word. */
  predicate Occurs(t: string, k: string) {
    exists i :: 0 <= i <= |t| && WholeWordAt(t, k, i)
  }

  /** Some keyword of `keywords` occurs in `t` as a whole word. */
  predicate MatchesAny(keywords: seq<string>, t: string) {
    exists j :: 0 <= j < |keywords| && Occurs(t, keywords[j])
  }

  /** A compiled pattern `\b(?:a1|a2|...)\b` with IGNORECASE. Escaping the
      keywords makes each alternative match its keyword literally, so the
      pattern is its list of alternatives. */
  datatype Pattern = WordPattern(alternatives: seq<string>)

  /** Some alternative from index `j` on matches as a whole word at position `i`. */
  function AlternativeAt(alts: seq<string>, t: string, i: int, j: nat): (found: bool)
    requires j <= |alts|
    ensures found <==> exists m :: j <= m < |alts| && WholeWordAt(t, alts[m], i)
    decreases |alts| - j
  {
    if j == |alts| then false
    else WholeWordAt(t, alts[j], i) || AlternativeAt(alts, t, i, j + 1)
  }

  /** Scan of the start positions `i`, `i+1`, ..., `|t|`: some alternative
      matches as a whole word at one of them. */
  function SearchFrom(alts: seq<string>, t: string, i: nat): (found: bool)
    ensures found <==> exists m, p :: 0 <= m < |alts| && i <= p <= |t| && WholeWordAt(t, alts[m], p)
    decreases |t| + 1 - i
  {
    if i > |t| then false
    else AlternativeAt(alts, t, i, 0) || SearchFrom(alts, t, i + 1)
  }

  /** `pattern.search(t)` succeeds exactly when one of the pattern's
      keywords occurs in `t` as a whole word, ignoring case. */
  function Search(p: Pattern, t: string): (found: bool)
    ensures found <==> MatchesAny(p.alternatives, t)
  {
    var found := SearchFrom(p.alternatives, t, 0);
    assert found ==> MatchesAny(p.alternatives, t) by {
      if found {
        var m, q :| 0 <= m < |p.alternatives| && 0 <= q <= |t| && WholeWordAt(t, p.alternatives[m], q);
        assert Occurs(t, p.alternatives[m]);
      }
    }
    found
  }

  /** The pattern compiled from a mood's keywords, `\b(?:k1|k2|...)\b` with
      IGNORECASE: its search succeeds on a text exactly when one of the
      keywords occurs there as a whole word, ignoring case. */
  function Compile(keywords: seq<string>): (p: Pattern)
    ensures forall t :: Search(p, t) <==> MatchesAny(keywords, t)
  {
    WordPattern(keywords)
  }

  /** Texts equal up to case have the same whole-word occurrences. */
  lemma WholeWordAtFold(t: string, u: string, k: string, i: int)
    requires FoldEq(t, u)
    ensures WholeWordAt(t, k, i) == WholeWordAt(u, k, i)
  {
    forall p | 0 <= p < |t|
      ensures IsWordChar(t[p]) == IsWordChar(u[p])
    {
      FoldKeepsWordChar(t[p], u[p]);
    }
    assert IsBoundary(t, i) == IsBoundary(u, i);
    assert IsBoundary(t, i + |k|) == IsBoundary(u, i + |k|);
    if 0 <= i && i + |k| <= |t| {
      var ts, us := t[i..i + |k|], u[i..i + |k|];
      assert FoldEq(ts, k) == FoldEq(us, k) by {
        assert forall q :: 0 <= q < |k| ==> ToLower(ts[q]) == ToLower(us[q]);
      }
    }
  }

  /** Case never decides whether a keyword list matches. */
  lemma MatchesAnyFold(keywords: seq<string>, t: string, u: string)
    requires FoldEq(t, u)
    ensures MatchesAny(keywords, t) == MatchesAny(keywords, u)
  {
    forall k, i | WholeWordAt(t, k, i)
      ensures WholeWordAt(u, k, i)
    {
      WholeWordAtFold(t, u, k, i);
    }
    forall k, i | WholeWordAt(u, k, i)
      ensures WholeWordAt(t, k, i)
    {
      WholeWordAtFold(t, u, k, i);
    }
  }
}
