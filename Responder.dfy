/**
 The conversation loop of `main`: each line read is stripped, then either
 answered with guidance (blank line), ends the conversation (`exit` or
 `quit` in any case), or is classified and answered with the mood's emoji
 and response or with a hint. End of input ends the conversation too.

 The per-line step is stated for any mood table `moods` and the loop for
 any step; `Session` and `Converse` use the step over the fixed table
 `MOODS`.
 */
module Responder {
  import opened Text
  import opened MoodTable
  import opened Detector

  /** What `main` decides for one line read. */
  datatype Decision = Blank | Quit | Mood(name: string) | NoMood

  /** What `main` prints. The fixed messages are opaque; a mood reply
      carries the string `main` hands to `print`, which then adds one more
      line end. */
  datatype Output =
    | Banner            // greeting printed once, before the first prompt
    | EmptyHint         // the line was empty after stripping
    | Farewell          // the line was "exit" or "quit"
    | Goodbye           // input ended (end of file or interrupt)
    | Reply(text: string)
    | NoMoodHint        // no mood detected; suggests mood words

  /** The lower-cased line is one of the two exit words. */
  predicate IsExitWord(s: string) {
    s == "exit" || s == "quit"
  }

  /** The decision for one raw input line. A blank line never reaches the
      detector, and the exit check comes before it, so "exit" and "quit"
      are never classified; a detected mood is a key of the table. */
  function Classify(moods: seq<MoodEntry>, line: string): (d: Decision)
    ensures d.Mood? ==> d.name in Keys(moods)
  {
    var user := Strip(line);
    if user == [] then Blank
    else if IsExitWord(Lower(user)) then Quit
    else match FirstMatch(moods, user)
      case Some(name) => Mood(name)
      case None => NoMood
  }

  /** A line is blank exactly when it is all whitespace, and it ends the
      conversation exactly when, stripped and lower-cased, it is "exit" or
      "quit". */
  lemma ClassifyDecides(moods: seq<MoodEntry>, line: string)
    ensures Classify(moods, line).Blank? <==> forall i :: 0 <= i < |line| ==> IsSpace(line[i])
    ensures Classify(moods, line).Quit? <==>
      Strip(line) != [] && IsExitWord(Lower(Strip(line)))
  {
  }

  /** A line that is neither blank nor an exit word is answered by the
      detector run on the stripped line: the mood it names, or `NoMood`
      exactly when it names none. */
  lemma ClassifyDetects(moods: seq<MoodEntry>, line: string)
    requires !Classify(moods, line).Blank? && !Classify(moods, line).Quit?
    ensures Classify(moods, line).Mood? ==> FirstMatch(moods, Strip(line)) == Some(Classify(moods, line).name)
    ensures Classify(moods, line).NoMood? <==> FirstMatch(moods, Strip(line)).None?
  {
  }

  /** The text printed for a detected mood: its emoji, two spaces, its
      response, then an extra line break that leaves a blank line. */
  function ReplyText(e: MoodEntry): (s: string)
    ensures |s| == |e.emoji| + 2 + |e.response| + 1
    ensures s[..|e.emoji|] == e.emoji
    ensures s[|e.emoji|..|e.emoji| + 2] == "  "
    ensures s[|e.emoji| + 2..|s| - 1] == e.response
    ensures s[|s| - 1] == '\n'
  {
    e.emoji + "  " + e.response + "\n"
  }

  /** One iteration of the loop: what is printed for `line`, and whether the
      loop goes on. Only "exit" or "quit" stops it, with the farewell, and
      no line is answered with the banner or the goodbye. */
  function Step(moods: seq<MoodEntry>, line: string): (r: (Output, bool))
    ensures !r.1 <==> r.0 == Farewell
    ensures r.0 != Goodbye && r.0 != Banner
  {
    match Classify(moods, line)
    case Blank => (EmptyHint, true)
    case Quit => (Farewell, false)
    case Mood(name) => (Reply(ReplyText(Entry(moods, name))), true)
    case NoMood => (NoMoodHint, true)
  }

  /** What each decision prints: guidance for a blank line, the hint when no
      mood is found, and for a mood its own emoji and response. */
  lemma StepAnswers(moods: seq<MoodEntry>, line: string)
    ensures Classify(moods, line).Quit? <==> Step(moods, line) == (Farewell, false)
    ensures Classify(moods, line).Blank? ==> Step(moods, line) == (EmptyHint, true)
    ensures Classify(moods, line).NoMood? ==> Step(moods, line) == (NoMoodHint, true)
    ensures Classify(moods, line).Mood? ==>
      var e := Entry(moods, Classify(moods, line).name);
      e in moods && e.name == Classify(moods, line).name && Step(moods, line) == (Reply(ReplyText(e)), true)
  {
  }

  /** One iteration of `main`'s loop over `MOODS`. */
  function Answer(line: string): (Output, bool) {
    Step(Table, line)
  }

  /** What the loop prints for the input lines `lines`, followed by end of
      input, when `step` answers each line: every line is answered until
      one stops the loop; when none does, the end of input says goodbye. */
  function Loop(step: string -> (Output, bool), lines: seq<string>): (out: seq<Output>)
    ensures 1 <= |out| <= |lines| + 1
    decreases |lines|
  {
    if lines == [] then [Goodbye]
    else
      var r := step(lines[0]);
      if r.1 then [r.0] + Loop(step, lines[1..]) else [r.0]
  }

  /** Everything `main` prints: the banner, then the loop over `MOODS`. */
  function Session(lines: seq<string>): seq<Output> {
    [Banner] + Loop(Answer, lines)
  }

  /** `step` never answers with the banner or the goodbye, and stops the
      loop exactly when it answers with the farewell. */
  ghost predicate Shaped(step: string -> (Output, bool)) {
    forall x :: step(x).0 != Banner && step(x).0 != Goodbye && (!step(x).1 <==> step(x).0 == Farewell)
  }

  /** When the step is shaped so, the loop prints answers that are neither
      the banner, the farewell nor the goodbye, then exactly one farewell or
      goodbye. */
  lemma LoopShape(step: string -> (Output, bool), lines: seq<string>)
    requires Shaped(step)
    ensures var out := Loop(step, lines);
      && (out[|out| - 1] == Farewell || out[|out| - 1] == Goodbye)
      && forall j :: 0 <= j < |out| - 1 ==> out[j] != Banner && out[j] != Farewell && out[j] != Goodbye
  {
    var out := Loop(step, lines);
    LoopEnds(step, lines);
    forall j | 0 <= j < |out| - 1
      ensures out[j] != Banner && out[j] != Farewell && out[j] != Goodbye
    {
      LoopAnswersLine(step, lines, j);
    }
  }

  /** `main`'s step has the shape `LoopShape` asks for. */
  lemma AnswersShaped()
    ensures Shaped(Answer)
  {
    forall x
      ensures Answer(x).0 != Banner && Answer(x).0 != Goodbye && (!Answer(x).1 <==> Answer(x).0 == Farewell)
    {
      var r := Step(Table, x);
      assert Answer(x) == r;
    }
  }

  /** A session of one line that does not stop the loop: the banner, the
      answer to the line, then the goodbye at the end of input. */
  lemma OneLineSession(line: string)
    requires Answer(line).1
    ensures Session([line]) == [Banner, Answer(line).0, Goodbye]
  {
    assert [line][0] == line;
    assert [line][1..] == [];
    assert Loop(Answer, [line]) == [Answer(line).0] + Loop(Answer, []);
    assert Loop(Answer, []) == [Goodbye];
  }

  /** Every output but the last answers the input line at the same
      position, and that line kept the loop going. */
  lemma {:induction false} LoopAnswersLine(step: string -> (Output, bool), lines: seq<string>, j: nat)
    requires j < |Loop(step, lines)| - 1
    ensures j < |lines| && step(lines[j]) == (Loop(step, lines)[j], true)
    decreases j
  {
    assert step(lines[0]).1;
    if j > 0 {
      LoopAnswersLine(step, lines[1..], j - 1);
      assert lines[1..][j - 1] == lines[j];
    }
  }

  /** The last output answers a line that stopped the loop, or, when every
      line was read, is the goodbye for the end of input. */
  lemma {:induction false} LoopEnds(step: string -> (Output, bool), lines: seq<string>)
    ensures var out := Loop(step, lines);
      && (|out| <= |lines| ==> step(lines[|out| - 1]) == (out[|out| - 1], false))
      && (|out| == |lines| + 1 ==> out[|out| - 1] == Goodbye)
    decreases |lines|
  {
    if lines != [] && step(lines[0]).1 {
      LoopEnds(step, lines[1..]);
      var out := Loop(step, lines);
      if |out| <= |lines| {
        assert lines[1..][|out| - 2] == lines[|out| - 1];
      }
    }
  }

  /** Lines after a line that stops the loop are never read. */
  lemma {:induction false} NothingReadAfterStop(step: string -> (Output, bool), lines: seq<string>, k: nat)
    requires k < |lines| && !step(lines[k]).1
    ensures Loop(step, lines) == Loop(step, lines[..k + 1])
    ensures |Loop(step, lines)| <= k + 1
    decreases k
  {
    if k > 0 && step(lines[0]).1 {
      assert lines[1..][k - 1] == lines[k];
      NothingReadAfterStop(step, lines[1..], k - 1);
      assert lines[..k + 1][0] == lines[0];
      assert lines[..k + 1][1..] == lines[1..][..k];
    }
  }

  /** When no line stops the loop, every line is answered and the end of
      input says goodbye. */
  lemma {:induction false} LoopRunsOut(step: string -> (Output, bool), lines: seq<string>)
    requires forall j :: 0 <= j < |lines| ==> step(lines[j]).1
    ensures |Loop(step, lines)| == |lines| + 1
    ensures Loop(step, lines)[|lines|] == Goodbye
    ensures forall j :: 0 <= j < |lines| ==> step(lines[j]) == (Loop(step, lines)[j], true)
    decreases |lines|
  {
    if lines != [] {
      assert forall j :: 0 <= j < |lines| - 1 ==> lines[1..][j] == lines[j + 1];
      LoopRunsOut(step, lines[1..]);
    }
  }

  /** Lines that `step` answers alike, keeping the loop going, are answered
      in order; then the loop goes on with the lines after them. */
  lemma {:induction false} RunThenRest(step: string -> (Output, bool), x: Output, run: seq<string>, rest: seq<string>)
    requires forall j :: 0 <= j < |run| ==> step(run[j]) == (x, true)
    ensures var out := Loop(step, run + rest);
      && |out| == |run| + |Loop(step, rest)|
      && (forall j :: 0 <= j < |run| ==> out[j] == x)
      && out[|run|..] == Loop(step, rest)
    decreases |run|
  {
    if run == [] {
      assert run + rest == rest;
    } else {
      var tail := Loop(step, run[1..] + rest);
      assert Loop(step, run + rest) == [x] + tail by {
        assert run + rest == [run[0]] + (run[1..] + rest);
        assert (run + rest)[0] == run[0];
      }
      assert forall j :: 0 <= j < |run| - 1 ==> run[1..][j] == run[j + 1];
      RunThenRest(step, x, run[1..], rest);
      assert ([x] + tail)[|run|..] == tail[|run| - 1..];
    }
  }

  /** `main` stops reading at an exit line: the lines after it make no
      difference to what is printed. */
  lemma NothingReadAfterQuit(lines: seq<string>, k: nat)
    requires k < |lines| && Classify(Table, lines[k]).Quit?
    ensures Session(lines) == Session(lines[..k + 1])
    ensures Session(lines)[|Session(lines)| - 1] == Farewell
  {
    StepAnswers(Table, lines[k]);
    NothingReadAfterStop(Answer, lines, k);
    LoopEnds(Answer, lines);
  }

  /** Without an exit line `main` answers every line, then says goodbye at
      the end of input. */
  lemma EndOfInputSaysGoodbye(lines: seq<string>)
    requires forall j :: 0 <= j < |lines| ==> !Classify(Table, lines[j]).Quit?
    ensures |Session(lines)| == |lines| + 2
    ensures forall j :: 0 <= j < |lines| ==> Session(lines)[j + 1] == Answer(lines[j]).0
    ensures Session(lines)[|lines| + 1] == Goodbye
  {
    forall j | 0 <= j < |lines|
      ensures Answer(lines[j]).1
    {
      StepAnswers(Table, lines[j]);
    }
    LoopRunsOut(Answer, lines);
    assert forall j :: 0 <= j < |lines| ==> Session(lines)[j + 1] == Loop(Answer, lines)[j];
  }

  /** Any run of blank lines is answered with as many guidance messages,
      and the loop then goes on with the lines after them. */
  lemma BlankLinesSkipped(blanks: seq<string>, rest: seq<string>)
    requires forall j :: 0 <= j < |blanks| ==> Strip(blanks[j]) == []
    ensures var out := Loop(Answer, blanks + rest);
      && |out| == |blanks| + |Loop(Answer, rest)|
      && (forall j :: 0 <= j < |blanks| ==> out[j] == EmptyHint)
      && out[|blanks|..] == Loop(Answer, rest)
  {
    forall j | 0 <= j < |blanks|
      ensures Answer(blanks[j]) == (EmptyHint, true)
    {
      StepAnswers(Table, blanks[j]);
    }
    RunThenRest(Answer, EmptyHint, blanks, rest);
  }

  /** A word equal to "exit" or "quit" up to case lower-cases to it, and
      neither starts nor ends with whitespace. */
  lemma ExitWordShape(w: string, k: string)
    requires IsExitWord(k) && FoldEq(w, k)
    ensures IsExitWord(Lower(w))
    ensures |w| == 4 && !IsSpace(w[0]) && !IsSpace(w[3])
  {
    assert forall i :: 0 <= i < |k| ==> 'a' <= k[i] <= 'z';
    FoldToLetters(w, k);
  }

  /** "exit" or "quit" in any case, with any whitespace around it, ends the
      conversation with the farewell. */
  lemma QuitInAnyCase(moods: seq<MoodEntry>, pre: string, w: string, post: string)
    requires forall i :: 0 <= i < |pre| ==> IsSpace(pre[i])
    requires forall i :: 0 <= i < |post| ==> IsSpace(post[i])
    requires FoldEq(w, "exit") || FoldEq(w, "quit")
    ensures Classify(moods, pre + w + post) == Quit
    ensures Step(moods, pre + w + post) == (Farewell, false)
  {
    if FoldEq(w, "exit") {
      ExitWordShape(w, "exit");
    } else {
      ExitWordShape(w, "quit");
    }
    StripPadded(pre, w, post);
  }

  /** The loop from line `i` on: the answer to line `i`, then, unless that
      line stops it, the loop from line `i + 1` on. */
  lemma LoopAt(step: string -> (Output, bool), lines: seq<string>, i: nat)
    requires i < |lines|
    ensures Loop(step, lines[i..])
         == if step(lines[i]).1 then [step(lines[i]).0] + Loop(step, lines[i + 1..])
            else [step(lines[i]).0]
  {
    assert lines[i..][0] == lines[i];
    assert lines[i..][1..] == lines[i + 1..];
  }

  /** The answer to a line, read off the stripped line the way `main`
      computes it. */
  lemma StepOfStripped(moods: seq<MoodEntry>, line: string)
    ensures var user := Strip(line);
      && (user == [] ==> Step(moods, line) == (EmptyHint, true))
      && (user != [] && IsExitWord(Lower(user)) ==> Step(moods, line) == (Farewell, false))
      && (user != [] && !IsExitWord(Lower(user)) && FirstMatch(moods, user).None? ==>
            Step(moods, line) == (NoMoodHint, true))
      && (user != [] && !IsExitWord(Lower(user)) && FirstMatch(moods, user).Some? ==>
            FirstMatch(moods, user).value in Keys(moods) &&
            Step(moods, line) == (Reply(ReplyText(Entry(moods, FirstMatch(moods, user).value))), true))
  {
  }

  /** Appending one output keeps the printed-so-far plus still-to-print
      split. */
  lemma AppendOne(out: seq<Output>, x: Output, rest: seq<Output>)
    ensures (out + [x]) + rest == out + ([x] + rest)
  {
  }

  /** `main`: prints the banner, then reads lines until an exit line or the
      end of input. The patterns are built first, standing for the loop
      that fills `PATTERNS` when the script is loaded. */
  method Converse(lines: seq<string>) returns (out: seq<Output>)
    ensures out == Session(lines)
  {
    TableWellFormed();
    var patterns := BuildPatterns(Table);
    out := [Banner];
    var i := 0;
    assert lines[i..] == lines;
    while true
      invariant 0 <= i <= |lines|
      invariant out + Loop(Answer, lines[i..]) == Session(lines)
      decreases |lines| - i
    {
      if i == |lines| {
        out := out + [Goodbye];
        break;
      }
      LoopAt(Answer, lines, i);
      StepOfStripped(Table, lines[i]);
      var user := Strip(lines[i]);
      i := i + 1;
      if user == [] {
        AppendOne(out, EmptyHint, Loop(Answer, lines[i..]));
        out := out + [EmptyHint];
        continue;
      }
      var lower := Lower(user);
      if IsExitWord(lower) {
        out := out + [Farewell];
        break;
      }
      var mood := DetectMood(Table, patterns, user);
      if mood.Some? {
        var info := Entry(Table, mood.value);
        AppendOne(out, Reply(ReplyText(info)), Loop(Answer, lines[i..]));
        out := out + [Reply(ReplyText(info))];
      } else {
        AppendOne(out, NoMoodHint, Loop(Answer, lines[i..]));
        out := out + [NoMoodHint];
      }
    }
  }

  /** A line with no surrounding whitespace that is no exit word gets the
      detector's answer for the line itself. */
  lemma ClassifyUnpadded(moods: seq<MoodEntry>, line: string)
    requires line != [] && !IsSpace(line[0]) && !IsSpace(line[|line| - 1])
    requires !IsExitWord(Lower(line))
    ensures FirstMatch(moods, line).Some? ==> Classify(moods, line) == Mood(FirstMatch(moods, line).value)
    ensures FirstMatch(moods, line).None? ==> Classify(moods, line) == NoMood
  {
    StripPadded("", line, "");
    assert "" + line + "" == line;
  }

  /** A line of more than four characters is no exit word, whatever its
      case. */
  lemma LongLineNoExit(line: string)
    requires |line| > 4
    ensures !IsExitWord(Lower(line))
  {
  }

  /** Case never changes how a line is classified: lines equal up to case
      strip to lines equal up to case, which lower-case alike and get the
      same mood. */
  lemma ClassifyIgnoresCase(moods: seq<MoodEntry>, line: string, other: string)
    requires FoldEq(line, other)
    ensures Classify(moods, line) == Classify(moods, other)
  {
    StripFold(line, other);
    FoldEqLower(Strip(line), Strip(other));
    FirstMatchFold(moods, Strip(line), Strip(other));
  }

  /** A line equal up to case to a text of more than four characters that
      starts and ends with a word character has no whitespace at its ends
      and is no exit word. */
  lemma FoldedUnpadded(line: string, w: string)
    requires FoldEq(line, w) && |w| > 4
    requires IsWordChar(w[0]) && IsWordChar(w[|w| - 1])
    ensures line != [] && !IsSpace(line[0]) && !IsSpace(line[|line| - 1])
    ensures !IsExitWord(Lower(line))
  {
    assert IsWordChar(line[0]) && IsWordChar(line[|line| - 1]) by {
      FoldKeepsWordChar(line[0], w[0]);
      FoldKeepsWordChar(line[|line| - 1], w[|w| - 1]);
    }
    WordCharIsNoSpace(line[0]);
    WordCharIsNoSpace(line[|line| - 1]);
    LongLineNoExit(line);
  }

  /** Case never changes how a line is classified: a line equal up to case
      to a text of more than four characters that starts and ends with a
      word character gets the detector's answer for that text. */
  lemma ClassifyFolded(moods: seq<MoodEntry>, line: string, w: string)
    requires FoldEq(line, w) && |w| > 4
    requires IsWordChar(w[0]) && IsWordChar(w[|w| - 1])
    ensures FirstMatch(moods, w).Some? ==> Classify(moods, line) == Mood(FirstMatch(moods, w).value)
    ensures FirstMatch(moods, w).None? ==> Classify(moods, line) == NoMood
  {
    FoldedUnpadded(line, w);
    FirstMatchFold(moods, line, w);
    ClassifyUnpadded(moods, line);
  }

  /** "I feel great today", in any case, is classified as happy. */
  lemma GreatTodayIsHappy(line: string)
    requires FoldEq(line, GreatToday)
    ensures Classify(Table, line) == Mood("happy")
  {
    GreatIsHappy();
    ClassifyFolded(Table, line, GreatToday);
  }

  /** The reply printed for the happy mood. */
  lemma HappyReply()
    ensures "happy" in Keys(Table)
    ensures ReplyText(Entry(Table, "happy"))
         == "\U{1F60A}" + "  " + "That's great to hear! Keep smiling!" + "\n"
  {
    var e := Table[0];
    assert e.name == "happy";
    assert Entry(Table, "happy") == e;
    assert e.emoji == "\U{1F60A}";
    assert e.response == "That's great to hear! Keep smiling!";
  }

  /** "I feel great today" is answered with the happy emoji and response. */
  lemma GreatTodayStep()
    ensures Answer(GreatToday)
         == (Reply("\U{1F60A}" + "  " + "That's great to hear! Keep smiling!" + "\n"), true)
  {
    FoldEqReflexive(GreatToday);
    GreatTodayIsHappy(GreatToday);
    HappyReply();
    StepAnswers(Table, GreatToday);
  }

  /** A whole conversation: the happy line is answered, then the end of
      input says goodbye. */
  lemma GreatTodayConversation()
    ensures Session([GreatToday])
         == [Banner, Reply("\U{1F60A}" + "  " + "That's great to hear! Keep smiling!" + "\n"), Goodbye]
  {
    GreatTodayStep();
    OneLineSession(GreatToday);
  }

  /** A session whose first line quits prints only the banner and the
      farewell; the lines after it are never read. */
  lemma QuitFirstEndsSession(line: string, rest: seq<string>)
    requires Classify(Table, line).Quit?
    ensures Session([line] + rest) == [Banner, Farewell]
  {
    StepAnswers(Table, line);
    assert ([line] + rest)[0] == line;
  }

  /** "  EXIT  " ends the conversation at once. */
  lemma ExitConversation(rest: seq<string>)
    ensures Session(["  EXIT  "] + rest) == [Banner, Farewell]
  {
    assert "  " + "EXIT" + "  " == "  EXIT  ";
    QuitInAnyCase(Table, "  ", "EXIT", "  ");
    QuitFirstEndsSession("  EXIT  ", rest);
  }
}
