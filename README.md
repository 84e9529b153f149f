# Emoji mood responder, modelled in Dafny

The emoji mood responder is a command-line script, `mood-responder.py`. It reads lines, detects a
mood keyword in each and answers with that mood's emoji and response. This project models the
script's whole logic and proves what the script promises about it:

- **`MoodTable`**: the fixed table `MOODS`: five moods in priority order (happy, sad, angry,
  tired, excited), each with its keywords, emoji and response. Python dictionaries keep insertion
  order, so the table is a sequence of records and a mood's key is its name.
- **`Text`**: the character classes and string operations the script relies on:
  - `str.strip()`, modelled with Python's exact `str.isspace()` whitespace set;
  - `str.lower()`;
  - case-insensitive equality.
- **`WordMatch`**: the meaning of each compiled pattern `\b(?:k1|k2|...)\b` with `re.IGNORECASE`.
  A keyword occurs in a text at a position where the text equals it up to case, with a word
  boundary at both of its ends; text ends count as non-word. `Search` is a scan over start
  positions and alternatives, proved equal to that meaning.
- **`Detector`**: the start-up loop that fills `PATTERNS` (`BuildPatterns`, a method with a loop)
  and `detect_mood` (`DetectMood`, a loop with early return). `BuildPatterns` is proved to leave
  `Compiled(MOODS, PATTERNS)`: every key mapped to the pattern compiled from its keywords, which
  `DetectMood` requires. `DetectMood` is proved equal to the specification function `FirstMatch`:
  the first mood in table order with a whole-word keyword match, or none.
- **`Responder`**: `main`'s loop.
  - `Classify` and `Step` give the decision and the output for one line.
  - `Loop` is the loop over a sequence of input lines for any per-line step. The end of that
    sequence stands for end of input.
  - `Session` gives everything `main` hands to `print`.
  - `Converse` is `main` itself, as a `while` loop with `break` and `continue`, proved to print
    exactly `Session(lines)`.

Outputs are an abstract datatype: banner, empty-input hint, farewell, goodbye, no-mood hint, and
a mood reply that carries the string handed to `print`.

## Model

| member | source | states |
|---|---|---|
| `MoodTable.Table` | mood-responder.py:11-37 | definition, no contract: the `MOODS` literal, its entries in insertion order with their keywords, emoji code points and responses |
| `MoodTable.TableWellFormed` | mood-responder.py:11-37 | the table has five entries with distinct, non-empty keys, and every mood has at least one keyword; a non-empty key is truthy, so `if mood:` tests whether a mood was found |
| `MoodTable.LookupIn` | mood-responder.py:77 | a lookup by key finds an entry exactly when the table has one with that key, and the entry found has that key |
| `MoodTable.Entry` | mood-responder.py:77 | `MOODS[mood]` for a key of the table is an entry of the table with that key |
| `Text.IsSpace` | mood-responder.py:60 | definition, no contract: the whitespace characters `str.strip()` removes, as `str.isspace()` defines them |
| `Text.IsWordChar` | mood-responder.py:44 | definition, no contract: the word characters `\b` tests, ASCII letters, digits and `_` |
| `Text.ToLower` | mood-responder.py:70 | the per-character fold of `lower()`, which `re.IGNORECASE` at line 44 applies too: A to Z map to a to z by adding 32, and every other character is kept |
| `Text.Lower` | mood-responder.py:70 | the model's `lower()` keeps the length and folds each character with `ToLower` |
| `Text.Strip` | mood-responder.py:60 | `strip()` returns a slice whose outside is all whitespace, starting at the first non-whitespace character; the slice neither starts nor ends with whitespace, and it is empty exactly when the line is all whitespace |
| `Text.StripPadded` | mood-responder.py:60 | stripping a word with no whitespace at its ends, padded with any whitespace, gives back the word |
| `Text.StripFold` | mood-responder.py:60 | strings equal up to case strip to strings equal up to case: `strip()` removes the same positions from both |
| `Text.FoldEqLower` | mood-responder.py:70 | strings equal up to case have the same `lower()` |
| `Text.FoldToLetters` | mood-responder.py:70-71 | a string equal up to case to a lower-case word lower-cases to that word and contains no whitespace |
| `WordMatch.IsBoundary` | mood-responder.py:44 | definition, no contract: `\b` holds where the characters on its two sides differ in being word characters, text ends counting as non-word |
| `WordMatch.WholeWordAt` | mood-responder.py:44 | definition, no contract: a keyword occurs at a position, ignoring case, with `\b` at both of its ends |
| `WordMatch.MatchesAny` | mood-responder.py:44 | definition, no contract: some keyword of the list occurs somewhere in the text as a whole word, the meaning of `\b(?:k1\|k2\|...)\b` with `re.IGNORECASE` |
| `WordMatch.AlternativeAt` | mood-responder.py:44 | trying the alternatives from index `j` at one position succeeds exactly when one of them occurs there as a whole word |
| `WordMatch.SearchFrom` | mood-responder.py:52 | scanning the start positions from `i` succeeds exactly when some alternative occurs as a whole word at one of them |
| `WordMatch.Search` | mood-responder.py:52 | `pattern.search(text)` succeeds exactly when one of the pattern's keywords occurs in the text as a whole word, ignoring case |
| `WordMatch.Compile` | mood-responder.py:43-44 | the compiled pattern's search succeeds on a text exactly when one of the mood's keywords occurs there as a whole word |
| `WordMatch.WholeWordAtFold` | mood-responder.py:44 | texts equal up to case have the same whole-word occurrences of every keyword |
| `WordMatch.MatchesAnyFold` | mood-responder.py:44 | the case of the text never decides whether a keyword list matches |
| `Detector.BuildPatterns` | mood-responder.py:40-44 | after the loop, `PATTERNS` has exactly the keys of `MOODS`, each mapped to the pattern compiled from that mood's keywords |
| `Detector.FirstMatch` | mood-responder.py:49-54 | the result is none exactly when no mood matches; when mood `i` matches and no earlier one does, the result is mood `i`'s key; a result is a key of the table |
| `Detector.Detected` | mood-responder.py:51-53 | a mood detected against `MOODS` is a key of `MOODS` |
| `Detector.DetectMood` | mood-responder.py:46-54 | `detect_mood` returns the first mood in table order whose pattern finds a whole-word match, or none |
| `Detector.FirstMatchFold` | mood-responder.py:44 | texts equal up to case get the same answer from any mood table |
| `Detector.DetectedIgnoresCase` | mood-responder.py:44 | changing the case of letters in the input never changes the detected mood |
| `Detector.DetectedOfLower` | mood-responder.py:44 | lower-casing the input never changes the detected mood |
| `Detector.WholeWordsOnly` | mood-responder.py:44 | "sad" does not occur as a whole word in "sadly" but does in "Sad!" |
| `Detector.WornOutIsWholeWord` | mood-responder.py:28 | the two-word keyword "worn out" matches in "so worn out." but not in "worn outside" |
| `Detector.HappyBeforeTired` | mood-responder.py:49-53 | in "I am happy but tired" the tired mood matches too, yet happy, listed first, is detected |
| `Detector.GreatIsHappy` | mood-responder.py:13 | "I feel great today" is a happy text |
| `Detector.KeywordShapes` | mood-responder.py:11-37 | every keyword starts and ends with a lower-case letter, and no keyword has the first letter and length of a run of words of "sadly frustrated but okay" |
| `Detector.OccurrenceSpansWords` | mood-responder.py:44 | a whole-word occurrence of a keyword that starts and ends with a letter begins and ends where words of the text begin and end |
| `Detector.NoKeywordInSadly` | mood-responder.py:44 | no keyword occurs as a whole word at any position of "sadly frustrated but okay" |
| `Detector.SadlyIsNoMood` | mood-responder.py:51-54 | "sadly frustrated but okay" names no mood |
| `Responder.IsExitWord` | mood-responder.py:71 | definition, no contract: the lower-cased line is "exit" or "quit" |
| `Responder.Classify` | mood-responder.py:60-76 | a mood decided for a line is a key of the table, so the lookup that follows succeeds |
| `Responder.ClassifyDecides` | mood-responder.py:60-73 | a line is blank exactly when it is all whitespace; it quits exactly when it is not blank and, stripped and lower-cased, is "exit" or "quit"; so blank lines and exit words never reach the detector |
| `Responder.ClassifyDetects` | mood-responder.py:75-76 | a line that is neither blank nor an exit word gets the detector's mood for the stripped line, and no mood exactly when the detector finds none |
| `Responder.ClassifyUnpadded` | mood-responder.py:60-76 | a line that neither starts nor ends with whitespace and is no exit word is classified by the detector's answer for the line itself: its mood, or no mood when the detector finds none |
| `Responder.ClassifyIgnoresCase` | mood-responder.py:60-76 | lines equal up to case get the same decision: blank, quit, the same mood or no mood |
| `Responder.ClassifyFolded` | mood-responder.py:60-76 | a line equal up to case to a text of more than four characters that starts and ends with a word character is classified by the detector's answer for that text; for such lines case never changes the classification |
| `Responder.ReplyText` | mood-responder.py:78 | the reply is the emoji, two spaces, the response, then a line end that (with `print`'s own) leaves a blank line |
| `Responder.Step` | mood-responder.py:65-81 | a line stops the loop exactly when it is answered with the farewell; no line is answered with the banner or the goodbye |
| `Responder.StepAnswers` | mood-responder.py:65-81 | quitting is answered with the farewell and stops the loop; a blank line gets the guidance, no mood gets the hint, and a mood gets its own entry's reply; each of these keeps the loop going |
| `Responder.Answer` | mood-responder.py:65-81 | definition, no contract: one iteration of `main`'s loop over `MOODS`: the output for a line and whether the loop goes on |
| `Responder.Session` | mood-responder.py:56-81 | definition, no contract: everything `main` hands to `print`: the banner, then the loop's outputs |
| `Responder.Loop` | mood-responder.py:58-81 | the loop prints at least one output and never more than one per line plus one |
| `Responder.LoopAnswersLine` | mood-responder.py:58-81 | every output but the last is the answer to the input line at the same position, and that line kept the loop going |
| `Responder.LoopEnds` | mood-responder.py:58-73 | the last output is the answer to a line that stopped the loop, or the goodbye once every line was read |
| `Responder.LoopShape` | mood-responder.py:58-73 | for a step shaped like `main`'s, the loop prints answers that are no banner, farewell or goodbye, then exactly one farewell or goodbye |
| `Responder.AnswersShaped` | mood-responder.py:65-81 | `main`'s step never answers with the banner or the goodbye and stops exactly at the farewell |
| `Responder.NothingReadAfterStop` | mood-responder.py:71-73 | lines after one that stops the loop change nothing, and the loop prints at most one output per line up to it |
| `Responder.NothingReadAfterQuit` | mood-responder.py:70-73 | after an exit line `main` reads nothing more, and what it prints ends with the farewell |
| `Responder.LoopRunsOut` | mood-responder.py:58-63 | when no line stops the loop, every line is answered in order and the end of input says goodbye |
| `Responder.EndOfInputSaysGoodbye` | mood-responder.py:58-81 | without an exit line, output `j + 1` of the session is the answer to line `j` for every line, and the goodbye follows at the end of input |
| `Responder.RunThenRest` | mood-responder.py:65-68 | a run of lines answered alike without stopping gives that answer once per line, then the loop goes on with the rest |
| `Responder.BlankLinesSkipped` | mood-responder.py:65-68 | each blank line gets the guidance message and the loop goes on with the following lines |
| `Responder.ExitWordShape` | mood-responder.py:70-71 | a word equal to "exit" or "quit" up to case lower-cases to it and neither starts nor ends with whitespace |
| `Responder.QuitInAnyCase` | mood-responder.py:60-73 | "exit" or "quit" in any case, with any whitespace around it, quits with the farewell |
| `Responder.Converse` | mood-responder.py:56-81 | `main` prints exactly the banner followed by the loop's outputs; it builds the patterns first, standing for the loop that fills `PATTERNS` when the script is loaded (mood-responder.py:40-44) |
| `Responder.OneLineSession` | mood-responder.py:57-63 | one line that keeps the loop going gives the banner, its answer, then the goodbye |
| `Responder.QuitFirstEndsSession` | mood-responder.py:70-73 | when the first line quits, `main` prints only the banner and the farewell |
| `Responder.GreatTodayIsHappy` | mood-responder.py:60-76 | "I feel great today", written in any mix of cases, is classified as happy |
| `Responder.HappyReply` | mood-responder.py:78 | the happy reply is its emoji, two spaces and "That's great to hear! Keep smiling!", then a line end |
| `Responder.GreatTodayStep` | mood-responder.py:75-78 | "I feel great today" is answered with the happy emoji and response |
| `Responder.GreatTodayConversation` | mood-responder.py:56-78 | the input "I feel great today", then end of input, prints the banner, the happy reply, then the goodbye |
| `Responder.ExitConversation` | mood-responder.py:70-73 | "  EXIT  " as the first line ends the session at once with the farewell, whatever follows |

## Left out

- Terminal I/O is not modelled.
  - The prompt that `input` writes before every read (mood-responder.py:60), including the read that meets end of input, is not modelled. `Session` lists only what `print` emits.
  - The wording of the fixed messages is left abstract: each is a constructor of `Output`.
  - A mood reply holds the string handed to `print`; the line end `print` adds is not part of it.
  - Input is the sequence of lines that `input` would return, without their line ends.
- End of input is the end of that sequence. A `KeyboardInterrupt` while waiting for input ends the loop the same way. It is asynchronous, so it is not modelled separately.
- Python's `re` engine, `re.escape` and pattern compilation are not modelled. A compiled pattern is the list of its keywords, and its search is the whole-word semantics. `re.escape` makes each keyword match literally, and the engine backtracks over the alternation, so existence of a match is exact.
- Unicode is not modelled. `IsWordChar` is ASCII letters, digits and `_`, and `ToLower` folds only ASCII letters.
  - Python's `\w` also counts non-ASCII letters and digits as word characters.
  - `str.lower()` also lower-cases non-ASCII capitals, for example U+212A (the Kelvin sign) to "k". It can also make a string longer: U+0130 becomes "i" followed by U+0307. Neither changes the exit test at line 71. The only non-ASCII characters whose lower case contains an ASCII letter are U+212A, which gives "k", and U+0130, which gives "i" plus a non-ASCII mark. So a line containing a non-ASCII character never lower-cases to "exit" or "quit".
  - `re.IGNORECASE` goes further than `str.lower()`: it also lets U+017F (long s) match "s", U+212A match "k", and U+0130 and U+0131 (dotted capital I and dotless i) match "i".
  - The whitespace `strip()` removes is Python's complete `str.isspace()` set.
- `Responder.Loop`: its own contract only bounds the number of outputs, because it holds for any step. The facts about `main`'s step are in `LoopShape` with `AnswersShaped`, and on `Session` in `NothingReadAfterQuit` and `EndOfInputSaysGoodbye`.
- Determinism: classifying the same text twice gives the same mood. This holds because `Detected` and `Classify` are functions, so no lemma states it.
- The script prints different messages at its two ends: one for an exit word (mood-responder.py:72) and another at end of input (mood-responder.py:62). The model keeps them apart as `Farewell` and `Goodbye`.
