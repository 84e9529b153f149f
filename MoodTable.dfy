/**
 The fixed mood table `MOODS`: five entries in priority order, each with
 its keywords, emoji and response. Python's dictionary keeps insertion
 order, so the table is a sequence and a mood's key is its `name`.
 */
module MoodTable {

  datatype Option<T> = None | Some(value: T)

  datatype MoodEntry = MoodEntry(name: string, keywords: seq<string>, emoji: string, response: string)

  const Table: seq<MoodEntry> := [
    MoodEntry("happy",
      ["happy", "joy", "glad", "good", "great", "awesome", "fantastic", "cheerful", "content", "pleased"],
      "\U{1F60A}", "That's great to hear! Keep smiling!"),
    MoodEntry("sad",
      ["sad", "unhappy", "down", "depressed", "blue", "melancholy", "tearful"],
      "\U{1F614}", "Cheer up! Here's a hug \U{1F917}"),
    MoodEntry("angry",
      ["angry", "mad", "furious", "irritated", "annoyed", "upset"],
      "\U{1F621}", "Take a deep breath. You've got this."),
    MoodEntry("tired",
      ["tired", "exhausted", "sleepy", "drained", "worn out"],
      "\U{1F634}", "Rest well! A short break or nap might help."),
    MoodEntry("excited",
      ["excited", "pumped", "thrilled", "stoked", "eager"],
      "\U{1F973}", "Let's celebrate! \U{1F389}")
  ]

  /** The keys of a mood table. */
  function Keys(entries: seq<MoodEntry>): set<string> {
    set i | 0 <= i < |entries| :: entries[i].name
  }

  /** Every entry has a non-empty key of its own and at least one keyword.
      A non-empty key is truthy, so testing the detected mood for truth is
      testing whether a mood was found. */
  predicate WellFormed(entries: seq<MoodEntry>) {
    && (forall i, j :: 0 <= i < j < |entries| ==> entries[i].name != entries[j].name)
    && (forall i :: 0 <= i < |entries| ==> entries[i].name != [] && entries[i].keywords != [])
  }

  lemma TableWellFormed()
    ensures WellFormed(Table)
    ensures |Table| == 5
  {
  }

  /** `MOODS[name]` for a key `name` of the table. */
  function Entry(entries: seq<MoodEntry>, name: string): (e: MoodEntry)
    requires name in Keys(entries)
    ensures e in entries && e.name == name
  {
    LookupIn(entries, name).value
  }

  /** The first entry of `entries` with key `name`, if there is one. */
  function LookupIn(entries: seq<MoodEntry>, name: string): (r: Option<MoodEntry>)
    ensures r.Some? <==> exists i :: 0 <= i < |entries| && entries[i].name == name
    ensures r.Some? ==> r.value in entries && r.value.name == name
  {
    if entries == [] then None
    else if entries[0].name == name then Some(entries[0])
    else
      var r := LookupIn(entries[1..], name);
      assert forall i :: 1 <= i < |entries| ==> entries[i] == entries[1..][i - 1];
      r
  }
}
