/**
 The mood detector: the `PATTERNS` table built once from `MOODS`, and
 `detect_mood`, which returns the first mood in table order whose pattern
 finds a match.
 */
module Detector {
  import opened Text
  import opened MoodTable
  import opened WordMatch

  /** Mood `e` matches `t`: one of its keywords occurs in `t` as a whole
      word, ignoring case. */
  predicate MoodMatches(e: MoodEntry, t: string) {
    MatchesAny(e.keywords, t)
  }

  /** `patterns` is `PATTERNS` as the start-up loop leaves it for the table
      `moods`: one compiled pattern per key, built from that mood's
      keywords. */
  predicate Compiled(moods: seq<MoodEntry>, patterns: map<string, Pattern>) {
    && patterns.Keys == Keys(moods)
    && forall i :: 0 <= i < |moods| ==>
         moods[i].name in patterns && patterns[moods[i].name] == Compile(moods[i].keywords)
  }

  /** The loop that fills `PATTERNS`, one mood at a time in table order. The
      keys of a dictionary are distinct, so no entry overwrites another. */
  method BuildPatterns(moods: seq<MoodEntry>) returns (patterns: map<string, Pattern>)
    requires forall i, j :: 0 <= i < j < |moods| ==> moods[i].name != moods[j].name
    ensures Compiled(moods, patterns)
  {
    patterns := map[];
    for i := 0 to |moods|
      invariant patterns.Keys == set j | 0 <= j < i :: moods[j].name
      invariant forall j :: 0 <= j < i ==>
                  moods[j].name in patterns && patterns[moods[j].name] == Compile(moods[j].keywords)
    {
      patterns := patterns[moods[i].name := Compile(moods[i].keywords)];
    }
  }

  /** The name of the first entry of `entries` that matches `t`, or `None`
      when no entry does. */
  function FirstMatch(entries: seq<MoodEntry>, t: string): (r: Option<string>)
    ensures r.None? <==> forall i :: 0 <= i < |entries| ==> !MoodMatches(entries[i], t)
    ensures forall i :: 0 <= i < |entries| && MoodMatches(entries[i], t)
                        && (forall j :: 0 <= j < i ==> !MoodMatches(entries[j], t))
                        ==> r == Some(entries[i].name)
    ensures r.Some? ==> exists i :: 0 <= i < |entries| && MoodMatches(entries[i], t)
                                    && entries[i].name == r.value
    ensures r.Some? ==> r.value in Keys(entries)
  {
    if entries == [] then None
    else if MoodMatches(entries[0], t) then Some(entries[0].name)
    else
      var r := FirstMatch(entries[1..], t);
      assert forall i :: 1 <= i < |entries| ==> entries[i] == entries[1..][i - 1];
      r
  }

  /** What `detect_mood(t)` returns for `MOODS`; any mood it names is a key
      of the table, so the lookup of its emoji and response cannot fail. */
  function Detected(t: string): (r: Option<string>)
    ensures r.Some? ==> r.value in Keys(Table)
  {
    FirstMatch(Table, t)
  }

  /** `detect_mood`: tries the patterns in table order and returns the first
      mood whose pattern finds a whole-word match. */
  method DetectMood(moods: seq<MoodEntry>, patterns: map<string, Pattern>, text: string)
    returns (mood: Option<string>)
    requires Compiled(moods, patterns)
    ensures mood == FirstMatch(moods, text)
  {
    for i := 0 to |moods|
      invariant forall j :: 0 <= j < i ==> !MoodMatches(moods[j], text)
    {
      if Search(patterns[moods[i].name], text) {
        return Some(moods[i].name);
      }
    }
    return None;
  }

  lemma {:induction false} FirstMatchFold(entries: seq<MoodEntry>, t: string, u: string)
    requires FoldEq(t, u)
    ensures FirstMatch(entries, t) == FirstMatch(entries, u)
    decreases |entries|
  {
    if entries != [] {
      MatchesAnyFold(entries[0].keywords, t, u);
      FirstMatchFold(entries[1..], t, u);
    }
  }

  /** Matching ignores case: texts that differ only in the case of their
      letters get the same mood. */
  lemma DetectedIgnoresCase(t: string, u: string)
    requires FoldEq(t, u)
    ensures Detected(t) == Detected(u)
  {
    FirstMatchFold(Table, t, u);
  }

  /** In particular, lower-casing the input never changes the mood. */
  lemma DetectedOfLower(t: string)
    ensures Detected(Lower(t)) == Detected(t)
  {
    LowerFoldEq(t);
    DetectedIgnoresCase(Lower(t), t);
  }

  /** "sad" does not occur as a whole word in "sadly", but does in "Sad!". */
  lemma WholeWordsOnly()
    ensures !Occurs("sadly", "sad")
    ensures Occurs("Sad!", "sad")
  {
    forall i | 0 <= i <= 5
      ensures !WholeWordAt("sadly", "sad", i)
    {
      if i == 0 {
        assert !IsBoundary("sadly", 3);
      }
    }
    assert WholeWordAt("Sad!", "sad", 0);
  }

  /** With keywords of two moods present, the earlier mood in the table wins:
      "tired" occurs, but the answer is "happy". */
  lemma HappyBeforeTired()
    ensures MoodMatches(Table[3], "I am happy but tired")
    ensures Detected("I am happy but tired") == Some("happy")
  {
    var t := "I am happy but tired";
    assert WholeWordAt(t, "happy", 5);
    assert Table[0].keywords[0] == "happy";
    assert Occurs(t, Table[0].keywords[0]);
    assert WholeWordAt(t, "tired", 15);
    assert Table[3].keywords[0] == "tired";
    assert Occurs(t, Table[3].keywords[0]);
  }

  const GreatToday := "I feel great today"

  /** "I feel great today" is a happy text. */
  lemma GreatIsHappy()
    ensures Detected(GreatToday) == Some("happy")
  {
    var t := GreatToday;
    assert WholeWordAt(t, "great", 7);
    assert Table[0].keywords[4] == "great";
    assert Occurs(t, Table[0].keywords[4]);
  }

  /** The two-word keyword "worn out" needs boundaries only at its ends. */
  lemma WornOutIsWholeWord()
    ensures Occurs("so worn out.", "worn out")
    ensures !Occurs("worn outside", "worn out")
  {
    assert WholeWordAt("so worn out.", "worn out", 3);
    forall i | 0 <= i <= 12
      ensures !WholeWordAt("worn outside", "worn out", i)
    {
      if i == 0 {
        assert !IsBoundary("worn outside", 8);
      }
    }
  }

  /** Every keyword starts and ends with a lower-case letter; none has a
      first letter and length that fit a word or run of words of the
      sentence "sadly frustrated but okay". */
  lemma KeywordShapes(m: int, j: int)
    requires 0 <= m < |Table| && 0 <= j < |Table[m].keywords|
    ensures var k := Table[m].keywords[j];
      && |k| > 0 && 'a' <= k[0] <= 'z' && 'a' <= k[|k| - 1] <= 'z'
      && (k[0], |k|) !in {('s', 5), ('s', 16), ('s', 20), ('s', 25), ('f', 10), ('f', 14), ('f', 19),
                          ('b', 3), ('b', 8), ('o', 4)}
  {
  }

  /** A whole-word occurrence of a keyword that starts and ends with a
      letter begins where a word begins and ends where a word ends. */
  lemma OccurrenceSpansWords(t: string, k: string, i: int)
    requires WholeWordAt(t, k, i)
    requires |k| > 0 && 'a' <= k[0] <= 'z' && 'a' <= k[|k| - 1] <= 'z'
    ensures WordAt(t, i) && !WordAt(t, i - 1)
    ensures WordAt(t, i + |k| - 1) && !WordAt(t, i + |k|)
    ensures ToLower(t[i]) == k[0]
  {
    assert t[i..i + |k|][0] == t[i];
    assert t[i..i + |k|][|k| - 1] == t[i + |k| - 1];
  }

  const Sadly := "sadly frustrated but okay"

  /** Every run of whole words of the sentence, given by its first letter
      and its length, is one of these. */
  lemma SadlyWordRuns(i: int, e: int)
    requires WordAt(Sadly, i) && !WordAt(Sadly, i - 1)
    requires WordAt(Sadly, e - 1) && !WordAt(Sadly, e)
    requires i < e
    ensures (ToLower(Sadly[i]), e - i) in {('s', 5), ('s', 16), ('s', 20), ('s', 25), ('f', 10), ('f', 14), ('f', 19),
                                           ('b', 3), ('b', 8), ('o', 4)}
  {
    SadlyWordStarts(i);
    SadlyWordEnds(e);
  }

  lemma SadlyWordStarts(i: int)
    requires WordAt(Sadly, i) && !WordAt(Sadly, i - 1)
    ensures i == 0 || i == 6 || i == 17 || i == 21
  {
  }

  lemma SadlyWordEnds(i: int)
    requires WordAt(Sadly, i - 1) && !WordAt(Sadly, i)
    ensures i == 5 || i == 16 || i == 20 || i == 25
  {
  }

  /** No keyword occurs at any position of "sadly frustrated but okay". */
  lemma NoKeywordInSadly(m: int, j: int, i: int)
    requires 0 <= m < |Table| && 0 <= j < |Table[m].keywords|
    ensures !WholeWordAt(Sadly, Table[m].keywords[j], i)
  {
    var k := Table[m].keywords[j];
    KeywordShapes(m, j);
    if WholeWordAt(Sadly, k, i) {
      OccurrenceSpansWords(Sadly, k, i);
      SadlyWordRuns(i, i + |k|);
      assert false;
    }
  }

  /** "sadly frustrated but okay" names no mood: "sad" is only a prefix of
      "sadly", and no other keyword is present. */
  lemma SadlyIsNoMood()
    ensures Detected(Sadly) == None
  {
    forall m | 0 <= m < |Table|
      ensures !MoodMatches(Table[m], Sadly)
    {
      forall j, i | 0 <= j < |Table[m].keywords|
        ensures !WholeWordAt(Sadly, Table[m].keywords[j], i)
      {
        NoKeywordInSadly(m, j, i);
      }
    }
  }
}
