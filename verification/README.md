# PollBot quiz core in Dafny

PollBot is a Telegram bot. Group admins load plain-text quiz files (`/load`),
delete them (`/del`) and turn them into Telegram quiz polls (`/gen`). This
project models the deterministic core of `bot.py` and proves what it does:

- **QuizParser** models `process_questions`.
  - The text is stripped and cut into blocks at the regex boundary `\n\s*\n(?=\d+\.)`.
  - Each block yields one question record, or is reported and dropped when Python would raise while reading it.
  - The regex split is modelled by a scanning function and proved equal to a declarative "leftmost, non-overlapping matches" reading.
  - The loop that builds `quiz_data` is the method `ProcessQuestions`.
- **PollDispatch** models `send_polls`.
  - It works on the Python slice `questions[start:end or len]`.
  - Each selected question gets one send attempt.
  - What the Telegram call ends in (sent, flood wait, other error) comes from a sender function passed in.
  - The loop records its sends, sleeps and log lines as a trace of events.
- **FileRegistry** models the loaded-file registry, as the class `LoadedFiles`.
  - For each chat it keeps an ordered sequence of (name, path) entries; a Python dict keeps insertion order.
  - It covers `/load`: the `.txt` test, the 5 MB limit, the renaming loop and the insertion.
  - It covers `/del`: `all` or one name.
  - It covers the suffix lookup used by `/gen`.
- **GenCommand** models `/gen`.
  - It parses the start and end of the question range, including the partial assignment when only the start parses.
  - It chooses the file: a loaded file named in the command, or the document replied to.
  - It passes the parsed questions to the dispatch loop.
- **Text** models the Python string operations the bot relies on:
  - `strip`, `split` and `split(sep, 1)`;
  - `split()` and `split(maxsplit=1)`;
  - `int` and `str` on integers;
  - `os.path.splitext`, `lower`, `startswith` and `endswith`.

**Behaviour of `bot.py` worth knowing:**
- A `FloodWait` is not retried. The loop sleeps the requested time and moves on to the next question.
- The answer letter goes through the fixed table A→0, B→1, C→2, D→3, whatever the number of options. Any other letter gives no correct option but keeps the record.
- A one-line block whose line has a dot is kept, with an empty option list.
- `/gen f 1 2` sends the first two questions: the range is 1-based and inclusive.

The model also makes these quirks of the code explicit:
- **Lines 2 to 5 are always options.** A block of two to five lines whose last line is an `Answer:` line without `") "` is dropped (`ShortBlockWithAnswerDropped`).
- **`/gen <file> <n>` ignores the number.** With only one number after the file name, the file name is read as the start (`OneNumberIsIgnored`).
- **Earlier files shadow later ones.** A file loaded earlier whose name ends with the requested name hides a later file of exactly that name (`EarlierFileShadows`).

## Model

| member | source | states |
|---|---|---|
| `Text.Strip` | bot.py:38 | `strip()` leaves no whitespace at either end |
| `Text.StripRemovesOnlyEnds` | bot.py:38 | what `strip()` removes is a whitespace run at the start and one at the end; the rest of the string is kept as it was |
| `Text.StripStripped` | bot.py:40 | stripping is idempotent: a string without whitespace at its ends is left unchanged |
| `Text.Split` | bot.py:38 | `split(sep)`: joining the parts with `sep` gives back the string; no part contains `sep`; there is one part exactly when `sep` does not occur |
| `Text.SplitOnce` | bot.py:41 | `split(sep, 1)`: one part (the whole string) when `sep` never occurs; otherwise the text before its first occurrence and the text after it |
| `Text.SplitOnceChar` | bot.py:45 | with a one-character separator, `split(c, 1)` has two parts exactly when `c` occurs |
| `Text.ParseInt` | bot.py:149-150 | `int(word)`: an optional sign and decimal digits, nothing where Python raises `ValueError`; its round trip with `str` is `ParseIntRoundTrip` |
| `Text.IntToString` | bot.py:236 | `str(i)`: a minus sign for negative numbers, then the shortest decimal numeral; its round trip with `int` is `ParseIntRoundTrip`, its injectivity `IntToStringInjective` |
| `Text.ParseIntRoundTrip` | bot.py:149-150 | `int(str(i)) == i` for every integer |
| `Text.IntToStringInjective` | bot.py:236 | different integers, negative chat ids included, have different decimal strings |
| `Text.SplitExt` | bot.py:230 | `os.path.splitext`: base + extension is the name; the extension is empty, or a dot followed by text with no other dot and no slash; it is non-empty exactly when the last dot has no slash after it and a character other than a dot before it in the same path component |
| `Text.LastIndex` | bot.py:171 | the index of the last occurrence of a character, with no occurrence after it; none when the character is absent |
| `Text.LowerChar` | bot.py:215 | `lower()` on one character: no upper-case ASCII letter comes out; an upper-case letter becomes the lower-case letter at the same place in the alphabet, every other character is kept |
| `Text.Lower` | bot.py:171 | `lower()`: a string of the same length, lowered character by character, with no upper-case ASCII letter left |
| `Text.StartsWith` | bot.py:193 | `startswith(prefix)`: the prefix is no longer than the string and is its first characters |
| `Text.EndsWith` | bot.py:161 | `endswith(suffix)`: the suffix is no longer than the string and is its last characters |
| `Text.Words` | bot.py:141 | `split()` yields non-empty words without whitespace |
| `Text.WordsAreMaximalRuns` | bot.py:141 | the text is its words woven with whitespace runs, the run between two words being non-empty: each word is a maximal run of non-whitespace |
| `Text.WordsKeepAllText` | bot.py:141 | the words of `split()` hold, in order, exactly the non-whitespace characters of the text |
| `Text.SplitFirstWord` | bot.py:264 | `split(maxsplit=1)` yields at most two parts; `SplitFirstWordAgrees` states which |
| `Text.SplitFirstWordAgrees` | bot.py:264 | `split(maxsplit=1)` has the same first word as `split()`, and has a second part exactly when a second word exists; that part is all the rest of the text: leading whitespace, the first word and a non-empty whitespace run come before it, and it runs to the end |
| `QuizParser.SplitBlocks` | bot.py:33 | `re.split` on the block boundary; its meaning is stated by `SplitBlocksAreLeftmost` and `LeftmostSplitUnique` |
| `QuizParser.Blocks` | bot.py:33 | the blocks of `content.strip()`: at least one, as `re.split` always returns |
| `QuizParser.SeparatorAtIsMatch` | bot.py:33 | the scanner finds a block boundary at `p` ending at `q` exactly when `s[p..q]` is `\n`, whitespace, `\n` followed by digits and a dot |
| `QuizParser.SplitBlocksAreLeftmost` | bot.py:33 | the blocks are the text between leftmost, non-overlapping boundary matches, covering the whole text |
| `QuizParser.LeftmostSplitUnique` | bot.py:33 | there is only one leftmost split of a text, so the blocks are determined by the regex |
| `QuizParser.Lines` | bot.py:38 | a block stripped and split at newlines: at least one line; `Split` states the parts join back to the stripped block |
| `QuizParser.OptionTexts` | bot.py:41 | the option list exists exactly when every line of the window contains `") "`; each option is the stripped text after it |
| `QuizParser.AnswerIndex` | bot.py:48 | the table maps exactly "A", "B", "C" and "D", each to its place in the alphabet; every other letter maps to nothing |
| `QuizParser.ParseAnswer` | bot.py:43-51 | a line that is not an `Answer:` line gives no id and no explanation; an explanation exists exactly when the answer line has a comma, and it is stripped; an id is below 4 |
| `QuizParser.AnswerRoundTrip` | bot.py:43-48 | `"Answer: <A-D>, <explanation>"` gives back the letter's index and the stripped explanation |
| `QuizParser.AnswerWithoutExplanation` | bot.py:45-48 | `"Answer: <A-D>"` gives the letter's index and no explanation |
| `QuizParser.ParseLines` | bot.py:40-58 | the loop body on a block's lines: the record, or nothing where Python raises; `ParseLinesKept` and `ParseLinesFields` state when and what |
| `QuizParser.ParseBlock` | bot.py:38-58 | the loop body on one block: `ParseLines` of its lines; `ParseBlockKept` states when it keeps the block |
| `QuizParser.ParseLinesKept` | bot.py:38-41 | a block is kept exactly when its first line has a dot and each of lines 2 to 5 has `") "` |
| `QuizParser.ParseLinesFields` | bot.py:40-58 | a kept block's question is the stripped text after the first dot; it has `min(4, lines-1)` options, each the stripped text after the first `") "` of lines 2 to 5; id and explanation come from the stripped last line only |
| `QuizParser.OneLineBlockKept` | bot.py:38-41 | a one-line block with a dot is kept, with no options |
| `QuizParser.ShortBlockWithAnswerDropped` | bot.py:41 | a block of 2 to 5 lines whose last line lacks `") "` is dropped |
| `QuizParser.ParseBlockKept` | bot.py:37-41 | the keep condition of `ParseLinesKept`, for a block as the parser cuts it into lines |
| `QuizParser.ParseAll` | bot.py:34-63 | `quiz_data`: the records of the blocks that parse, in block order; `ParseAllSingle`, `ParseAllAppend` and `DroppedBlockIsIsolated` state it block by block |
| `QuizParser.Dropped` | bot.py:60-61 | the blocks whose parsing raises, in block order; `KeptPlusDropped` states they and the records account for every block |
| `QuizParser.ParseAllAppend` | bot.py:36-61 | records and reports of a concatenation of blocks are the concatenations of each part's |
| `QuizParser.KeptPlusDropped` | bot.py:36-61 | every block yields one record or one report, never both |
| `QuizParser.ParseAllSingle` | bot.py:53-61 | one block yields its record when it parses, and is reported otherwise |
| `QuizParser.DroppedBlockIsIsolated` | bot.py:60-61 | removing a block that raises leaves the records of the other blocks unchanged |
| `QuizParser.ProcessQuestions` | bot.py:32-63 | the loop returns the records of the blocks that parse, in block order, and the blocks that raise; together they account for every block |
| `PollDispatch.ClampIndex` | bot.py:79 | a Python slice bound: in-range indices kept, negative ones counted from the end, the rest clamped to `[0, len]` |
| `PollDispatch.PySlice` | bot.py:79 | `xs[start:end]` is the run between the clamped bounds, empty when they cross |
| `PollDispatch.EffectiveEnd` | bot.py:78 | `end or len(questions)`: None and 0 both mean the length |
| `PollDispatch.Selected` | bot.py:78-79 | `questions[start:end or len(questions)]`; `SelectedIsContiguous` and the `Select…` lemmas state which questions it picks |
| `PollDispatch.RequestFor` | bot.py:81-98 | a quiz poll exactly when there is a correct option id, with that id, and with the explanation only when it is a non-empty string; a regular poll otherwise; same question and options; never anonymous |
| `PollDispatch.AttemptEvents` | bot.py:80-104 | one pass of the loop body: a send, then a 3-second sleep if it went through, the flood-wait log line and sleep on `FloodWait`, or the error log line otherwise; `AttemptSendsOnce` and `AttemptSleeps` state its sends and sleeps |
| `PollDispatch.DispatchTrace` | bot.py:79-104 | the passes of the loop body over the selected questions, one after the other; `DispatchSendsEachOnce`, `DispatchSleeps` and `DispatchIsPaced` state its sends, sleeps and shape |
| `PollDispatch.DispatchSendsEachOnce` | bot.py:79-104 | whatever the sender answers, the trace sends exactly one poll per selected question, in order: no retry and no skip |
| `PollDispatch.DispatchTraceAppend` | bot.py:79-104 | the trace of a concatenation of question lists is the concatenation of their traces |
| `PollDispatch.PacedAppend` | bot.py:99-104 | pacing is preserved when traces are put one after the other |
| `PollDispatch.DispatchIsPaced` | bot.py:99-104 | the trace starts with a send; every sleep either comes right after a send and lasts 3 seconds, or comes right after the flood-wait log line of the same length; an error log line is followed by the next send or the end |
| `PollDispatch.Answers` | bot.py:82-98 | the sender's answers to the loop's sends, one per selected question, in order |
| `PollDispatch.AttemptSleeps` | bot.py:99-104 | one pass of the loop body sleeps 3 seconds after a send that went through, the requested time after a flood wait, and not at all after another error |
| `PollDispatch.DispatchSleeps` | bot.py:79-104 | whatever the sender answers, the sleeps of the trace, in order, are 3 seconds for each poll sent, the waiting time for each flood wait, and nothing for each other error |
| `PollDispatch.SendPolls` | bot.py:77-104 | the loop's trace is the dispatch trace of `questions[start:end or len]`; its sends are the requests for those questions in order; its sleeps are the ones the sender's answers call for; and it is paced |
| `PollDispatch.SelectAllByDefault` | bot.py:78-79 | with start 0 and no end every question is selected |
| `PollDispatch.EndZeroMeansLength` | bot.py:78 | an end of 0 selects as no end does |
| `PollDispatch.SelectRange` | bot.py:149-150 | start `a-1` and end `b` with `1 <= a <= b <= len` select the questions numbered `a` to `b` |
| `PollDispatch.StartZeroCountsFromEnd` | bot.py:149 | a start number of 0 becomes index -1, the last question, so an end before the last question selects nothing |
| `PollDispatch.SelectedIsContiguous` | bot.py:79 | the selection is always a contiguous run of the questions |
| `FileRegistry.LastField` | bot.py:171 | `split(c)[-1]`: an end of the string without `c`, preceded by `c` whenever it is not the whole string |
| `FileRegistry.IsTxtMeansTxtSuffix` | bot.py:215 | the extension test accepts exactly the names ending in `.txt` in any letter case, plus the bare name `txt` |
| `FileRegistry.IsTxt` | bot.py:215 | `file_name.split('.')[-1].lower() == 'txt'`; `IsTxtMeansTxtSuffix` states which names pass |
| `FileRegistry.Candidate` | bot.py:233 | the name `f"{base_name}_{counter}{ext}"`; `CandidateInjective` states different counters give different names |
| `FileRegistry.CandidateInjective` | bot.py:233 | different counters give different candidate names |
| `FileRegistry.UniqueName` | bot.py:229-234 | the final name is not taken; it is the original name when that is free, otherwise `base_<c><ext>` for the smallest `c >= 1` whose name is free |
| `FileRegistry.RenamedToUnique` | bot.py:229-234 | that renaming rule fixes the name: two names that both meet it are equal |
| `FileRegistry.FindBySuffix` | bot.py:159-163 | the lookup finds nothing exactly when no loaded name ends with the requested name; otherwise it returns the path of the first such entry in loading order |
| `FileRegistry.Without` | bot.py:287 | `del d[name]` keeps exactly the entries with other names |
| `FileRegistry.WithoutClosesGap` | bot.py:287 | in a registry with unique names, deleting a name removes its one entry and keeps the others in their order |
| `FileRegistry.WithoutKeepsUnique` | bot.py:287 | deleting keeps the names unique |
| `FileRegistry.LoadedFiles.Find` | bot.py:159-163 | the lookup loop returns the path the first-match specification gives |
| `FileRegistry.LoadedFiles.Load` | bot.py:209-242 | non-admins, no document, a non-`.txt` name and a size over 5 MB are refused, leaving the registry unchanged; an admin's `.txt` document of at most 5 MB is always loaded: exactly one entry is appended to the chat, under the name the renaming rule fixes (the original when free, else the smallest free counter), at the downloaded path, and all other chats are unchanged; names stay unique |
| `FileRegistry.LoadedFiles.EntriesOf` | bot.py:226-227 | the chat's loaded files in loading order; a chat with no entry in the registry has none |
| `FileRegistry.DeleteArgument` | bot.py:264-269 | the text after the command word, stripped, or nothing when there is none; `SplitFirstWordAgrees` ties `split(maxsplit=1)` to the words |
| `FileRegistry.LoadedFiles.Delete` | bot.py:260-291 | `all` empties the chat and returns every path to remove; a loaded name removes that one entry and returns its path; a missing name, a chat with no files, no argument and non-admins change nothing; names stay unique |
| `GenCommand.Args` | bot.py:141 | the words after the command are non-empty and have no whitespace |
| `GenCommand.RequestedRange` | bot.py:143-152 | the start and end `/gen` ends up with; `DefaultRange`, `RangeRoundTrip`, `RangeKeepsStart` and `OneNumberIsIgnored` state it case by case |
| `GenCommand.DefaultRange` | bot.py:143-151 | with fewer than two words after the command, or a next-to-last word that is not a number, the defaults stay: start 0 and no end |
| `GenCommand.DefaultSelectsAll` | bot.py:143-151 | such a command sends every question of the file |
| `GenCommand.ParseRange` | bot.py:141-152 | the step-by-step assignments give the requested range: defaults unless two words follow the command and the next-to-last is a number; the start is kept even when the last word is not a number |
| `GenCommand.RangeRoundTrip` | bot.py:147-150 | two numbers `a b` at the end give start `a-1` and end `b` |
| `GenCommand.RangeKeepsStart` | bot.py:148-152 | a non-number last word leaves the end unset but the start already moved |
| `GenCommand.OneNumberIsIgnored` | bot.py:142-152 | with two words, the file name is the start word, so a non-numeric name gives no range |
| `GenCommand.RangeSelectsNumbered` | bot.py:141-152 | `/gen <file> a b` with `1 <= a <= b <= len` selects the questions numbered `a` to `b` |
| `GenCommand.RangeSelectsRest` | bot.py:141-152 | `/gen <file> a x` with a non-number `x` selects every question from number `a` on |
| `GenCommand.ChooseFile` | bot.py:157-188 | the file `/gen` reads, or why it refuses; `NamedFileIsLoaded`, `ChosenFileOrigin` and `EarlierFileShadows` state what it picks |
| `GenCommand.TempName` | bot.py:184 | the download name starts with `temp_`, the mark bot.py:193 tests before removing the file, and ends with the document's own name |
| `GenCommand.RepliedFileChoice` | bot.py:169-187 | a bare `/gen`: with no replied document nothing is read; a replied name failing the `.txt` test is refused; otherwise the first loaded file whose name ends with the document's name is read when its path is non-empty, and the document is downloaded under its temporary name when that path is empty or no loaded name matches |
| `GenCommand.FirstMatchFound` | bot.py:176-180 | the loop over the chat's files returns the path of the first entry whose name ends with the requested name |
| `GenCommand.NamedFileIsLoaded` | bot.py:158-166 | a named file is read exactly when the first loaded entry whose name ends with the given name has a non-empty path, and the path read is that first entry's |
| `GenCommand.ChosenFileOrigin` | bot.py:157-188 | the file read is a loaded file of the chat, or the replied `.txt` document downloaded under its temporary name |
| `GenCommand.EarlierFileShadows` | bot.py:159-163 | an earlier entry whose name ends with a later entry's name is found in its place |
| `GenCommand.Locate` | bot.py:157-188 | the branches and lookup loops choose the file the file-choice specification gives |
| `GenCommand.QuestionsIn` | bot.py:65-75 | `read_questions`: no questions when the file cannot be read, otherwise the records `process_questions` returns |
| `GenCommand.Gen` | bot.py:133-202 | non-admins and refused file choices send nothing; a file without questions sends nothing; otherwise the replies are "Starting the quiz..." and "Quiz completed!" and the trace is the dispatch of the requested range of the file's questions, one poll per selected question; the temporary-file flag is set exactly for paths starting with `temp_` |

## Left out

- GenCommand.Gen: its replies and its poll trace are two separate sequences, so the order of the replies relative to the polls is not stated.
- The Telegram client is not modelled: `send_poll`, `download_media`, `get_chat_member` and `is_admin`. The sender, the download and the admin test are parameters.
- `asyncio.sleep` and the async structure are not modelled. Sleeps are trace events.
- The `print` logging of `send_polls` appears as trace events. The parser's error printing appears as the list of dropped blocks.
- JSON persistence (`load_files`, `save_files`) is not modelled. The registry is one in-memory map.
  - Chats are keyed by the integer chat id, not by its decimal string. `str` is injective on all integers, negative group ids included (`Text.IntToStringInjective`), so the two keyings agree.
- `os.remove` and `os.path.exists` are not modelled. `/del` returns the paths it would remove. `/gen` returns a flag saying whether it would remove the temporary file.
  - That flag depends on the path string `download_media` returns, and that path is not visible.
- `read_questions` reads the file through a parameter that returns the content or nothing. A missing or unreadable file yields no questions.
- The commands `/poll` and `/list` are not modelled. `/poll` reads a local file through the same parser and dispatch loop. `/list` only displays the registry.
- The Quart web server and the environment-variable credentials are not modelled.
- Python's `int()` is modelled as an optional sign and ASCII decimal digits.
  - Surrounding whitespace cannot occur, since the arguments are whitespace-free words.
  - Underscores between digits and non-ASCII digits are not modelled. Python accepts both.
- The regex `\d` is modelled as ASCII digits; Python also matches other Unicode decimal digits. `\s` and `strip()` use the whitespace set of `str.isspace`.
- `lower()` is modelled for ASCII letters only. Non-ASCII letters never lower-case to `t` or `x`, so the `.txt` test is unaffected.
- QuizParser.ParseAnswer: its contract does not fix the letter for every answer line. `AnswerRoundTrip` and `AnswerWithoutExplanation` fix it for the line shapes `Answer: X, text` and `Answer: X`; other spacings are covered by the function's own definition.
- QuizParser.ParseLinesFields: it states the fields of a kept block, but not the exception message Python prints for a dropped block.
