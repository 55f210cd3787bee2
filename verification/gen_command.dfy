/**
 * The `/gen` command (`generate_quiz_from_file`): the optional question range
 * after the file name, the choice of the file to read (a loaded file found by
 * the end of its name, or the document replied to), and the hand-over of the
 * parsed questions to the poll dispatch loop.
 */
module GenCommand {
  import opened Wrappers
  import opened Text
  import opened QuizParser
  import opened PollDispatch
  import opened FileRegistry

  // ---------------------------------------------------------------------
  // The range
  // ---------------------------------------------------------------------

  /** `message.text.split()[1:]`: the words after the command. */
  function Args(text: string): (args: seq<string>)
    ensures forall k :: 0 <= k < |args| ==> args[k] != [] && NoSpace(args[k])
  {
    var words := Words(text);
    if words == [] then [] else words[1..]
  }

  /**
   * The `(start, end)` that `/gen` passes on: with at least two words after the
   * command, the next-to-last word as a count from 1 and the last word as the
   * end; the start is kept even when the last word is not a number.
   */
  function RequestedRange(args: seq<string>): (int, Option<int>) {
    if |args| < 2 then (0, None)
    else match ParseInt(args[|args| - 2])
      case None => (0, None)
      case Some(first) => (first - 1, ParseInt(args[|args| - 1]))
  }

  /** The `try` block of `/gen`: `start` is assigned before `end` is parsed. */
  method ParseRange(args: seq<string>) returns (start: int, end: Option<int>)
    ensures (start, end) == RequestedRange(args)
  {
    start := 0;
    end := None;
    if |args| > 1 {
      var first := ParseInt(args[|args| - 2]);
      if first.Some? {
        start := first.value - 1;
        var last := ParseInt(args[|args| - 1]);
        if last.Some? {
          end := last;
        }
      }
    }
  }

  /** Two numbers at the end give the range they spell, whatever comes before them. */
  lemma RangeRoundTrip(prefix: seq<string>, a: int, b: int)
    ensures RequestedRange(prefix + [IntToString(a), IntToString(b)]) == (a - 1, Some(b))
  {
    var args := prefix + [IntToString(a), IntToString(b)];
    assert args[|args| - 2] == IntToString(a) && args[|args| - 1] == IntToString(b);
    ParseIntRoundTrip(a);
    ParseIntRoundTrip(b);
  }

  /** A last word that is not a number leaves the end unset but the start already moved. */
  lemma RangeKeepsStart(prefix: seq<string>, a: int, word: string)
    requires ParseInt(word).None?
    ensures RequestedRange(prefix + [IntToString(a), word]) == (a - 1, None)
  {
    var args := prefix + [IntToString(a), word];
    assert args[|args| - 2] == IntToString(a) && args[|args| - 1] == word;
    ParseIntRoundTrip(a);
  }

  /** With one word after the file name, the file name is read as the start, so a usual name gives no range. */
  lemma OneNumberIsIgnored(fileName: string, word: string)
    requires ParseInt(fileName).None?
    ensures RequestedRange([fileName, word]) == (0, None)
  {
  }

  /**
   * With fewer than two words after the command, or a next-to-last word that
   * is not a number, `/gen` keeps its defaults: start 0 and no end.
   */
  lemma DefaultRange(args: seq<string>)
    requires |args| < 2 || ParseInt(args[|args| - 2]).None?
    ensures RequestedRange(args) == (0, None)
  {
  }

  /** `/gen <file>`, or a bare `/gen` in reply to a document, sends every question. */
  lemma DefaultSelectsAll(questions: seq<Question>, args: seq<string>)
    requires |args| < 2 || ParseInt(args[|args| - 2]).None?
    ensures var (start, end) := RequestedRange(args);
      Selected(questions, start, end) == questions
  {
    DefaultRange(args);
    SelectAllByDefault(questions);
  }

  /** `/gen <file> a b` with `1 <= a <= b <= len` sends the questions numbered `a` to `b`, counted from 1. */
  lemma RangeSelectsNumbered(questions: seq<Question>, fileName: string, a: int, b: int)
    requires 1 <= a <= b <= |questions|
    ensures var (start, end) := RequestedRange([fileName, IntToString(a), IntToString(b)]);
      Selected(questions, start, end) == questions[a - 1..b]
  {
    RangeRoundTrip([fileName], a, b);
    SelectRange(questions, a, b);
  }

  /** `/gen <file> a x` with a non-number `x` sends every question from number `a` on. */
  lemma RangeSelectsRest(questions: seq<Question>, fileName: string, a: int, word: string)
    requires 1 <= a <= |questions| && ParseInt(word).None?
    ensures var (start, end) := RequestedRange([fileName, IntToString(a), word]);
      Selected(questions, start, end) == questions[a - 1..]
  {
    RangeKeepsStart([fileName], a, word);
  }

  // ---------------------------------------------------------------------
  // The file to read
  // ---------------------------------------------------------------------

  /** Where the questions come from, or why `/gen` stops before reading any. */
  datatype FileChoice =
    | NotLoaded(name: string)   // "File '<name>' is not loaded. Please load it first using the /load command."
    | NotTxt                    // "Please upload a text (.txt) file."
    | NoSource                  // "Please either specify a loaded file name or reply to a document with the /gen command."
    | Chosen(path: string)

  /**
   * The name a replied document that is not loaded is downloaded under: it
   * starts with `temp_`, which is what marks it for removal once read, and
   * ends with the document's own name.
   */
  function TempName(chatId: int, fileName: string): (r: string)
    ensures StartsWith(r, "temp_") && EndsWith(r, fileName)
  {
    "temp_" + IntToString(chatId) + "_" + fileName
  }

  /**
   * The file `/gen` reads: the first loaded file whose name ends with the first
   * word after the command; without such a word, for a `.txt` document replied
   * to, the first loaded file whose name ends with the document's name, or
   * else the document downloaded under a temporary name. An empty path counts
   * as not found.
   */
  function ChooseFile(chatId: int, args: seq<string>, replyTo: Option<Document>, entries: seq<Entry>,
                      download: string -> string): FileChoice
  {
    if args != [] then
      match FindBySuffix(entries, args[0])
      case Some(path) => if path == [] then NotLoaded(args[0]) else Chosen(path)
      case None => NotLoaded(args[0])
    else if replyTo.Some? then
      var name := replyTo.value.fileName;
      if !IsTxt(name) then NotTxt
      else match FindBySuffix(entries, name)
        case Some(path) => if path == [] then Chosen(download(TempName(chatId, name))) else Chosen(path)
        case None => Chosen(download(TempName(chatId, name)))
    else NoSource
  }

  /**
   * A named file is read only when it is loaded in the chat, and then it is
   * the first loaded file whose name ends with the given name.
   */
  lemma NamedFileIsLoaded(chatId: int, args: seq<string>, replyTo: Option<Document>, entries: seq<Entry>,
                          download: string -> string)
    requires args != []
    ensures ChooseFile(chatId, args, replyTo, entries, download).Chosen? <==>
      exists i :: 0 <= i < |entries| && EndsWith(entries[i].name, args[0]) && entries[i].path != []
        && forall j :: 0 <= j < i ==> !EndsWith(entries[j].name, args[0])
    ensures ChooseFile(chatId, args, replyTo, entries, download).Chosen? ==>
      exists i :: 0 <= i < |entries| && EndsWith(entries[i].name, args[0])
        && entries[i].path == ChooseFile(chatId, args, replyTo, entries, download).path
        && forall j :: 0 <= j < i ==> !EndsWith(entries[j].name, args[0])
  {
    var r := FindBySuffix(entries, args[0]);
    if r.Some? {
      var i :| 0 <= i < |entries| && EndsWith(entries[i].name, args[0]) && r.value == entries[i].path
        && forall j :: 0 <= j < i ==> !EndsWith(entries[j].name, args[0]);
      forall i' | 0 <= i' < |entries| && EndsWith(entries[i'].name, args[0])
        && forall j :: 0 <= j < i' ==> !EndsWith(entries[j].name, args[0])
        ensures i' == i
      {
        FirstMatchUnique(entries, args[0], i, i');
      }
      assert ChooseFile(chatId, args, replyTo, entries, download).Chosen? ==>
        ChooseFile(chatId, args, replyTo, entries, download).path == entries[i].path;
    }
  }

  /** Only one entry can be the first whose name ends with `name`. */
  lemma FirstMatchUnique(entries: seq<Entry>, name: string, i: int, i': int)
    requires 0 <= i < |entries| && EndsWith(entries[i].name, name)
    requires forall j :: 0 <= j < i ==> !EndsWith(entries[j].name, name)
    requires 0 <= i' < |entries| && EndsWith(entries[i'].name, name)
    requires forall j :: 0 <= j < i' ==> !EndsWith(entries[j].name, name)
    ensures i == i'
  {
  }

  /** The lookup by suffix yields the path of the first matching entry. */
  lemma FirstMatchFound(entries: seq<Entry>, name: string, i: int)
    requires 0 <= i < |entries| && EndsWith(entries[i].name, name)
    requires forall j :: 0 <= j < i ==> !EndsWith(entries[j].name, name)
    ensures FindBySuffix(entries, name) == Some(entries[i].path)
  {
    var r := FindBySuffix(entries, name);
    var k :| 0 <= k < |entries| && EndsWith(entries[k].name, name) && r.value == entries[k].path
      && forall j :: 0 <= j < k ==> !EndsWith(entries[j].name, name);
    FirstMatchUnique(entries, name, k, i);
  }

  /**
   * The file read is always a loaded file of the chat or, for a `.txt`
   * document replied to without a file name, that document downloaded under
   * its temporary name.
   */
  lemma ChosenFileOrigin(chatId: int, args: seq<string>, replyTo: Option<Document>, entries: seq<Entry>,
                         download: string -> string)
    requires ChooseFile(chatId, args, replyTo, entries, download).Chosen?
    ensures var path := ChooseFile(chatId, args, replyTo, entries, download).path;
      || (exists i :: 0 <= i < |entries| && entries[i].path == path)
      || (args == [] && replyTo.Some? && IsTxt(replyTo.value.fileName)
          && path == download(TempName(chatId, replyTo.value.fileName)))
  {
    var name := if args != [] then args[0] else if replyTo.Some? then replyTo.value.fileName else [];
    var r := FindBySuffix(entries, name);
    if r.Some? && (args != [] || r.value != []) {
      var i :| 0 <= i < |entries| && EndsWith(entries[i].name, name) && r.value == entries[i].path
        && forall j :: 0 <= j < i ==> !EndsWith(entries[j].name, name);
      assert entries[i].path == ChooseFile(chatId, args, replyTo, entries, download).path;
    }
  }

  /**
   * `/gen` in reply to a document, with no file name: nothing to read without
   * a document; a name that fails the `.txt` test is refused; otherwise the
   * first loaded file whose name ends with the document's name is read when
   * its path is non-empty, and the document is downloaded under its
   * temporary name when that path is empty or no loaded name matches.
   */
  lemma RepliedFileChoice(chatId: int, replyTo: Option<Document>, entries: seq<Entry>, download: string -> string)
    ensures replyTo.None? ==> ChooseFile(chatId, [], replyTo, entries, download) == NoSource
    ensures replyTo.Some? && !IsTxt(replyTo.value.fileName) ==> ChooseFile(chatId, [], replyTo, entries, download) == NotTxt
    ensures (replyTo.Some? && IsTxt(replyTo.value.fileName)
             && forall i :: 0 <= i < |entries| ==> !EndsWith(entries[i].name, replyTo.value.fileName)) ==>
        ChooseFile(chatId, [], replyTo, entries, download) == Chosen(download(TempName(chatId, replyTo.value.fileName)))
    ensures forall i ::
      (replyTo.Some? && IsTxt(replyTo.value.fileName)
       && 0 <= i < |entries| && EndsWith(entries[i].name, replyTo.value.fileName)
       && forall j :: 0 <= j < i ==> !EndsWith(entries[j].name, replyTo.value.fileName)) ==>
        ChooseFile(chatId, [], replyTo, entries, download)
          == if entries[i].path != [] then Chosen(entries[i].path)
             else Chosen(download(TempName(chatId, replyTo.value.fileName)))
  {
    if replyTo.Some? && IsTxt(replyTo.value.fileName) {
      var name := replyTo.value.fileName;
      var r := FindBySuffix(entries, name);
      forall i | 0 <= i < |entries| && EndsWith(entries[i].name, name)
        && (forall j :: 0 <= j < i ==> !EndsWith(entries[j].name, name))
        ensures r == Some(entries[i].path)
      {
        FirstMatchFound(entries, name, i);
      }
    }
  }

  /**
   * A file loaded later is shadowed by an earlier one whose name ends with
   * the same text: `/gen quiz.txt` reads `old_quiz.txt` when that was loaded
   * first.
   */
  lemma EarlierFileShadows(chatId: int, older: Entry, newer: Entry, replyTo: Option<Document>, download: string -> string)
    requires EndsWith(older.name, newer.name) && older.path != []
    ensures ChooseFile(chatId, [newer.name], replyTo, [older, newer], download) == Chosen(older.path)
  {
    assert [older, newer][0] == older;
  }

  // ---------------------------------------------------------------------
  // The command
  // ---------------------------------------------------------------------

  /** The branches of `/gen` that pick the file, with the lookup loop over the chat's files. */
  method Locate(chatId: int, args: seq<string>, replyTo: Option<Document>, registry: LoadedFiles,
                download: string -> string) returns (choice: FileChoice)
    ensures choice == ChooseFile(chatId, args, replyTo, registry.EntriesOf(chatId), download)
  {
    if args != [] {
      var found := registry.Find(chatId, args[0]);
      if found.None? || found.value == [] {
        return NotLoaded(args[0]);
      }
      return Chosen(found.value);
    } else if replyTo.Some? {
      var name := replyTo.value.fileName;
      if !IsTxt(name) {
        return NotTxt;
      }
      var found := registry.Find(chatId, name);
      if found.None? || found.value == [] {
        return Chosen(download(TempName(chatId, name)));
      }
      return Chosen(found.value);
    }
    return NoSource;
  }

  datatype GenReply =
    | GenNotAdmin        // "Only group admins can use this command."
    | GenRefused(choice: FileChoice)
    | GenNoQuestions     // "No valid questions found in the file."
    | GenStarting        // "Starting the quiz..."
    | GenCompleted       // "Quiz completed!"

  /** `read_questions`: the parsed questions of a file, or none when it cannot be read. */
  function QuestionsIn(content: Option<string>): seq<Question> {
    match content
    case None => []
    case Some(text) => ParseAll(Blocks(text))
  }

  /**
   * `/gen`: an admin's command reads the chosen file and, when it holds
   * questions, replies "Starting the quiz..." and "Quiz completed!" and
   * sends the requested range of them as polls; `replies` and `trace` are
   * kept apart, so the order of replies against polls is not stated.
   * `removedTemp` says whether the bot deletes the file afterwards.
   */
  method Gen(chatId: int, isAdmin: bool, text: string, replyTo: Option<Document>, registry: LoadedFiles,
             download: string -> string, readFile: string -> Option<string>, sender: Sender)
    returns (replies: seq<GenReply>, trace: seq<Event>, removedTemp: bool)
    ensures !isAdmin ==> replies == [GenNotAdmin] && trace == [] && !removedTemp
    ensures isAdmin ==>
      var choice := ChooseFile(chatId, Args(text), replyTo, registry.EntriesOf(chatId), download);
      if !choice.Chosen? then replies == [GenRefused(choice)] && trace == [] && !removedTemp
      else
        var questions := QuestionsIn(readFile(choice.path));
        var (start, end) := RequestedRange(Args(text));
        && removedTemp == StartsWith(choice.path, "temp_")
        && (questions == [] ==> replies == [GenNoQuestions] && trace == [])
        && (questions != [] ==>
              && replies == [GenStarting, GenCompleted]
              && trace == DispatchTrace(chatId, Selected(questions, start, end), sender, 0)
              && Sends(trace) == Requests(chatId, Selected(questions, start, end)))
  {
    replies, trace, removedTemp := [], [], false;
    if !isAdmin {
      replies := [GenNotAdmin];
      return;
    }
    var args := Args(text);
    var start, end := ParseRange(args);
    var choice := Locate(chatId, args, replyTo, registry, download);
    if !choice.Chosen? {
      replies := [GenRefused(choice)];
      return;
    }
    var path := choice.path;
    var questions: seq<Question> := [];
    var content := readFile(path);
    if content.Some? {
      var errors;
      questions, errors := ProcessQuestions(content.value);
    }
    removedTemp := StartsWith(path, "temp_");
    if questions == [] {
      replies := [GenNoQuestions];
      return;
    }
    trace := SendPolls(chatId, questions, start, end, sender);
    replies := [GenStarting, GenCompleted];
  }
}
