/**
 * The registry of loaded quiz files: for each chat, the files loaded with
 * `/load`, in the order they were loaded, each under a name that is unique in
 * that chat, with the path it was downloaded to. `/load` adds to it, `/del`
 * removes from it, and `/gen` looks a file up in it by the end of its name.
 */
module FileRegistry {
  import opened Wrappers
  import opened Text

  /** A loaded file: the name it is known by in its chat, and where it was stored. */
  datatype Entry = Entry(name: string, path: string)

  /** The document a command replies to, as much of it as the bot looks at. */
  datatype Document = Document(fileName: string, fileSize: int)

  /** No two entries share a name: the entries of a chat are the items of a dictionary. */
  predicate UniqueNames(entries: seq<Entry>) {
    forall i, j :: 0 <= i < j < |entries| ==> entries[i].name != entries[j].name
  }

  function NameSet(entries: seq<Entry>): set<string> {
    set e | e in entries :: e.name
  }

  function Paths(entries: seq<Entry>): (ps: seq<string>)
    ensures |ps| == |entries|
    ensures forall i :: 0 <= i < |entries| ==> ps[i] == entries[i].path
  {
    seq(|entries|, i requires 0 <= i < |entries| => entries[i].path)
  }

  // ---------------------------------------------------------------------
  // Which documents are accepted
  // ---------------------------------------------------------------------

  /** `s.split(c)[-1]`: the longest end of `s` without `c`, that is, the text after the last `c`, or all of `s`. */
  function LastField(s: string, c: char): (f: string)
    ensures c !in f && EndsWith(s, f)
    ensures |f| < |s| ==> s[|s| - |f| - 1] == c
  {
    match LastIndex(s, c)
    case None => s
    case Some(i) => s[i + 1..]
  }

  /** `file_name.split('.')[-1].lower() == 'txt'` */
  predicate IsTxt(fileName: string) {
    Lower(LastField(fileName, '.')) == "txt"
  }

  /**
   * The extension test accepts exactly the names that end, in any case, with
   * `.txt`, and the bare name `txt`.
   */
  lemma IsTxtMeansTxtSuffix(fileName: string)
    ensures IsTxt(fileName) <==>
      |fileName| >= 3 && Lower(fileName[|fileName| - 3..]) == "txt" && (|fileName| == 3 || fileName[|fileName| - 4] == '.')
  {
    var n := fileName;
    var f := LastField(n, '.');
    assert n[|n| - |f|..] == f;
    if IsTxt(n) {
      assert |f| == 3;
    }
    if |n| >= 3 && Lower(n[|n| - 3..]) == "txt" && (|n| == 3 || n[|n| - 4] == '.') {
      var tail := n[|n| - 3..];
      assert forall k :: 0 <= k < 3 ==> LowerChar(tail[k]) == "txt"[k];
      assert forall j :: |n| - 3 <= j < |n| ==> n[j] != '.' by {
        forall j | |n| - 3 <= j < |n| ensures n[j] != '.' {
          assert n[j] == tail[j - (|n| - 3)];
        }
      }
      assert forall j :: |n| - |f| <= j < |n| ==> n[j] != '.' by {
        forall j | |n| - |f| <= j < |n| ensures n[j] != '.' {
          assert n[j] == f[j - (|n| - |f|)];
        }
      }
      assert |f| == 3;
      assert f == tail;
    }
  }

  /** The largest accepted document: 5 MB. */
  const MaxFileSize: int := 5 * 1024 * 1024

  // ---------------------------------------------------------------------
  // A name that is not taken yet
  // ---------------------------------------------------------------------

  /** `f"{base}_{counter}{ext}"` */
  function Candidate(base: string, counter: nat, ext: string): string {
    base + "_" + NatToString(counter) + ext
  }

  /** Different counters give different names. */
  lemma CandidateInjective(base: string, ext: string, a: nat, b: nat)
    requires Candidate(base, a, ext) == Candidate(base, b, ext)
    ensures a == b
  {
    var x, y := Candidate(base, a, ext), Candidate(base, b, ext);
    var da, db := NatToString(a), NatToString(b);
    assert |da| == |db|;
    assert da == x[|base| + 1..|base| + 1 + |da|];
    assert db == y[|base| + 1..|base| + 1 + |db|];
    NatToStringInjective(a, b);
  }

  /**
   * What the renaming loop knows before each try: `name` is the name about to
   * be tried (the original first, then `base_<counter - 1><ext>`), every
   * earlier candidate was taken, and every later taken candidate is still
   * among the names left to try, which bounds the loop.
   */
  ghost predicate RenameState(taken: set<string>, fileName: string, base: string, ext: string,
                              counter: nat, name: string, remaining: set<string>)
  {
    && base + ext == fileName
    && counter >= 1
    && name == (if counter == 1 then fileName else Candidate(base, counter - 1, ext))
    && (counter > 1 ==> fileName in taken)
    && (forall k :: 1 <= k < counter - 1 ==> Candidate(base, k, ext) in taken)
    && remaining <= taken
    && (name in taken ==> name in remaining)
    && (forall k :: counter <= k && Candidate(base, k, ext) in taken ==> Candidate(base, k, ext) in remaining)
  }

  /**
   * One try of the renaming loop: a taken name leaves the names left to try,
   * and the next candidate is tried.
   */
  lemma RenameStep(taken: set<string>, fileName: string, base: string, ext: string,
                   counter: nat, name: string, remaining: set<string>)
    requires RenameState(taken, fileName, base, ext, counter, name, remaining) && name in taken
    ensures RenameState(taken, fileName, base, ext, counter + 1, Candidate(base, counter, ext), remaining - {name})
    ensures |remaining - {name}| < |remaining|
  {
    var next := Candidate(base, counter, ext);
    forall k | counter + 1 <= k && Candidate(base, k, ext) in taken
      ensures Candidate(base, k, ext) in remaining - {name}
    {
      if counter == 1 {
        assert |Candidate(base, k, ext)| > |fileName|;
      } else if Candidate(base, k, ext) == name {
        CandidateInjective(base, ext, k, counter - 1);
      }
    }
    if next in taken {
      if counter == 1 {
        assert |next| > |fileName|;
      } else if next == name {
        CandidateInjective(base, ext, counter, counter - 1);
      }
    }
  }

  /**
   * The name `/load` stores a file under, given the names taken in the chat:
   * a free name; the original when that is free, and otherwise
   * `base_<c><ext>` for the smallest counter `c` from 1 whose name is free.
   */
  ghost predicate RenamedTo(taken: set<string>, fileName: string, name: string) {
    && name !in taken
    && (fileName !in taken ==> name == fileName)
    && (fileName in taken ==>
         var (base, ext) := SplitExt(fileName);
         exists c: nat :: 1 <= c && name == Candidate(base, c, ext) && forall k :: 1 <= k < c ==> Candidate(base, k, ext) in taken)
  }

  /** The renaming rule leaves no choice: it fixes the stored name. */
  lemma RenamedToUnique(taken: set<string>, fileName: string, a: string, b: string)
    requires RenamedTo(taken, fileName, a) && RenamedTo(taken, fileName, b)
    ensures a == b
  {
    if fileName in taken {
      var (base, ext) := SplitExt(fileName);
      var ca: nat :| 1 <= ca && a == Candidate(base, ca, ext) && forall k :: 1 <= k < ca ==> Candidate(base, k, ext) in taken;
      var cb: nat :| 1 <= cb && b == Candidate(base, cb, ext) && forall k :: 1 <= k < cb ==> Candidate(base, k, ext) in taken;
    }
  }

  /** The loop of `/load` that renames a file whose name is taken. */
  method UniqueName(taken: set<string>, fileName: string) returns (name: string)
    ensures RenamedTo(taken, fileName, name)
  {
    var (base, ext) := SplitExt(fileName);
    name := fileName;
    var counter: nat := 1;
    ghost var remaining := taken;
    while name in taken
      invariant RenameState(taken, fileName, base, ext, counter, name, remaining)
      decreases |remaining|
    {
      RenameStep(taken, fileName, base, ext, counter, name, remaining);
      remaining := remaining - {name};
      name := Candidate(base, counter, ext);
      counter := counter + 1;
    }
    if fileName in taken {
      assert counter > 1;
      var c := counter - 1;
      assert 1 <= c && name == Candidate(base, c, ext) && forall k :: 1 <= k < c ==> Candidate(base, k, ext) in taken;
    }
  }

  // ---------------------------------------------------------------------
  // Lookup and removal
  // ---------------------------------------------------------------------

  /**
   * The lookup of `/gen`: the path of the first entry, in loading order, whose
   * name ends with `name`.
   */
  function FindBySuffix(entries: seq<Entry>, name: string): (r: Option<string>)
    ensures r.None? <==> forall i :: 0 <= i < |entries| ==> !EndsWith(entries[i].name, name)
    ensures r.Some? ==> exists i :: (0 <= i < |entries| && EndsWith(entries[i].name, name) && r.value == entries[i].path
      && forall j :: 0 <= j < i ==> !EndsWith(entries[j].name, name))
    decreases |entries|
  {
    if entries == [] then None
    else if EndsWith(entries[0].name, name) then Some(entries[0].path)
    else
      var r := FindBySuffix(entries[1..], name);
      assert forall i :: 1 <= i < |entries| ==> entries[i] == entries[1..][i - 1];
      if r.Some? then
        var i :| 0 <= i < |entries| - 1 && EndsWith(entries[1..][i].name, name) && r.value == entries[1..][i].path
          && forall j :: 0 <= j < i ==> !EndsWith(entries[1..][j].name, name);
        assert forall j :: 0 <= j < i + 1 ==> !EndsWith(entries[j].name, name) by {
          forall j | 0 <= j < i + 1 ensures !EndsWith(entries[j].name, name) {
            if j > 0 {
              assert entries[j] == entries[1..][j - 1];
            }
          }
        }
        r
      else r
  }

  /** `del d[name]`: the entries without the one called `name`, the others in their order. */
  function Without(entries: seq<Entry>, name: string): (r: seq<Entry>)
    ensures forall e :: e in r <==> e in entries && e.name != name
    ensures |r| <= |entries|
    decreases |entries|
  {
    if entries == [] then []
    else
      var rest := Without(entries[1..], name);
      assert forall e :: e in entries <==> e == entries[0] || e in entries[1..];
      if entries[0].name == name then rest else [entries[0]] + rest
  }

  /** In a dictionary the removed name sits at one place, and removing it closes the gap. */
  lemma {:induction false} WithoutClosesGap(entries: seq<Entry>, i: nat)
    requires UniqueNames(entries) && i < |entries|
    ensures Without(entries, entries[i].name) == entries[..i] + entries[i + 1..]
    decreases i
  {
    var name := entries[i].name;
    var tail := entries[1..];
    if i == 0 {
      forall k | 0 <= k < |tail| ensures tail[k].name != name {
        assert tail[k] == entries[k + 1];
      }
      WithoutAbsent(tail, name);
    } else {
      TailKeepsUnique(entries);
      assert tail[i - 1] == entries[i];
      WithoutClosesGap(tail, i - 1);
      assert Without(entries, name) == [entries[0]] + Without(tail, name) by {
        assert entries[0].name != name;
      }
      GapAfterHead(entries, i);
    }
  }

  /** Cutting out position i > 0 commutes with keeping the head. */
  lemma GapAfterHead(entries: seq<Entry>, i: nat)
    requires 0 < i < |entries|
    ensures entries[..i] + entries[i + 1..] == [entries[0]] + (entries[1..][..i - 1] + entries[1..][i..])
  {
    var tail := entries[1..];
    assert entries[..i] == [entries[0]] + tail[..i - 1];
    assert entries[i + 1..] == tail[i..];
  }

  /** Dropping the first entry keeps the names unique. */
  lemma TailKeepsUnique(entries: seq<Entry>)
    requires UniqueNames(entries) && entries != []
    ensures UniqueNames(entries[1..])
  {
    var tail := entries[1..];
    forall a, b | 0 <= a < b < |tail| ensures tail[a].name != tail[b].name {
      assert tail[a] == entries[a + 1] && tail[b] == entries[b + 1];
    }
  }

  /** Removing a name nobody has changes nothing. */
  lemma {:induction false} WithoutAbsent(entries: seq<Entry>, name: string)
    requires forall k :: 0 <= k < |entries| ==> entries[k].name != name
    ensures Without(entries, name) == entries
    decreases |entries|
  {
    if entries != [] {
      var tail := entries[1..];
      assert forall k :: 0 <= k < |tail| ==> tail[k].name != name by {
        forall k | 0 <= k < |tail| ensures tail[k].name != name {
          assert tail[k] == entries[k + 1];
        }
      }
      WithoutAbsent(tail, name);
      assert entries == [entries[0]] + tail;
    }
  }

  lemma WithoutKeepsUnique(entries: seq<Entry>, name: string)
    requires UniqueNames(entries)
    ensures UniqueNames(Without(entries, name))
  {
    if name in NameSet(entries) {
      var i :| 0 <= i < |entries| && entries[i].name == name;
      WithoutClosesGap(entries, i);
      RemoveAtKeepsUnique(entries, i);
    } else {
      WithoutAbsent(entries, name);
    }
  }

  /** Taking one entry out of a list with unique names leaves unique names. */
  lemma RemoveAtKeepsUnique(entries: seq<Entry>, i: nat)
    requires UniqueNames(entries) && i < |entries|
    ensures UniqueNames(entries[..i] + entries[i + 1..])
  {
    var r := entries[..i] + entries[i + 1..];
    assert forall a :: 0 <= a < i ==> r[a] == entries[a];
    assert forall a :: i <= a < |r| ==> r[a] == entries[a + 1];
    forall a, b | 0 <= a < b < |r| ensures r[a].name != r[b].name {
      if b < i {
        assert r[a] == entries[a] && r[b] == entries[b];
      } else if a < i {
        assert r[a] == entries[a] && r[b] == entries[b + 1];
      } else {
        assert r[a] == entries[a + 1] && r[b] == entries[b + 1];
      }
    }
  }

  /** Adding an entry under a name not yet used keeps the names unique. */
  lemma AppendFreshKeepsUnique(entries: seq<Entry>, e: Entry)
    requires UniqueNames(entries) && e.name !in NameSet(entries)
    ensures UniqueNames(entries + [e])
  {
    var updated := entries + [e];
    forall i | 0 <= i < |entries| ensures updated[i].name != e.name {
      assert updated[i] == entries[i] && entries[i] in entries;
    }
  }

  // ---------------------------------------------------------------------
  // The registry
  // ---------------------------------------------------------------------

  datatype LoadReply =
    | LoadNotAdmin        // "Only group admins can load files."
    | LoadNoDocument      // "Please reply to a document message with the /load command."
    | LoadNotTxt          // "Please upload a text (.txt) file."
    | LoadTooLarge        // "File size exceeds 5MB limit."
    | Loaded(name: string)

  datatype DeleteReply =
    | DeleteNotAdmin        // "Only group admins can delete files."
    | DeleteNoName          // "Please provide a file name to delete."
    | DeleteNoChat          // "No files are loaded for this group."
    | DeletedAll            // "All loaded files for this group have been deleted."
    | Deleted(name: string)
    | DeleteNotLoaded(name: string)

  /** The name `/del` is asked to delete: the stripped rest of the message after the command, if any. */
  function DeleteArgument(text: string): Option<string> {
    var args := SplitFirstWord(text);
    if |args| < 2 then None else Some(Strip(args[1]))
  }

  /**
   * The loaded files of every chat. The bot keeps them in a JSON file keyed by
   * the decimal chat id and reads it afresh in each command; here they are one
   * map in memory, keyed by the chat id itself.
   */
  class LoadedFiles {
    var files: map<int, seq<Entry>>

    ghost predicate Valid()
      reads this
    {
      forall c :: c in files ==> UniqueNames(files[c])
    }

    constructor ()
      ensures Valid() && files == map[]
    {
      files := map[];
    }

    /** The files loaded in a chat, in loading order. */
    function EntriesOf(chatId: int): seq<Entry>
      reads this
    {
      if chatId in files then files[chatId] else []
    }

    /** The loop of `/gen` over the chat's files: the first whose name ends with `name`. */
    method Find(chatId: int, name: string) returns (path: Option<string>)
      ensures path == FindBySuffix(EntriesOf(chatId), name)
    {
      var entries := EntriesOf(chatId);
      path := None;
      var i := 0;
      while i < |entries|
        invariant 0 <= i <= |entries|
        invariant FindBySuffix(entries, name) == FindBySuffix(entries[i..], name)
      {
        if EndsWith(entries[i].name, name) {
          path := Some(entries[i].path);
          return;
        }
        assert entries[i..][1..] == entries[i + 1..];
        i := i + 1;
      }
    }

    /**
     * `/load`: an admin replying to a `.txt` document of at most 5 MB stores
     * it under a name not yet taken in the chat, at the end of the chat's
     * files; every other case leaves the registry as it was.
     */
    method Load(chatId: int, isAdmin: bool, replyTo: Option<Document>, download: string -> string)
      returns (reply: LoadReply)
      requires Valid()
      modifies this
      ensures Valid()
      ensures !isAdmin ==> reply == LoadNotAdmin
      ensures isAdmin && replyTo.None? ==> reply == LoadNoDocument
      ensures isAdmin && replyTo.Some? && !IsTxt(replyTo.value.fileName) ==> reply == LoadNotTxt
      ensures isAdmin && replyTo.Some? && IsTxt(replyTo.value.fileName) && replyTo.value.fileSize > MaxFileSize ==> reply == LoadTooLarge
      ensures isAdmin && replyTo.Some? && IsTxt(replyTo.value.fileName) && replyTo.value.fileSize <= MaxFileSize ==> reply.Loaded?
      ensures !reply.Loaded? ==> files == old(files)
      ensures reply.Loaded? ==>
        && isAdmin && replyTo.Some? && IsTxt(replyTo.value.fileName) && replyTo.value.fileSize <= MaxFileSize
        && RenamedTo(NameSet(old(EntriesOf(chatId))), replyTo.value.fileName, reply.name)
        && files == old(files)[chatId := old(EntriesOf(chatId)) + [Entry(reply.name, download(IntToString(chatId) + "_" + reply.name))]]
    {
      if !isAdmin {
        return LoadNotAdmin;
      }
      if replyTo.None? {
        return LoadNoDocument;
      }
      var document := replyTo.value;
      if !IsTxt(document.fileName) {
        return LoadNotTxt;
      }
      if document.fileSize > MaxFileSize {
        return LoadTooLarge;
      }
      var entries := EntriesOf(chatId);
      var name := UniqueName(NameSet(entries), document.fileName);
      var path := download(IntToString(chatId) + "_" + name);
      var updated := entries + [Entry(name, path)];
      AppendFreshKeepsUnique(entries, Entry(name, path));
      files := files[chatId := updated];
      reply := Loaded(name);
    }

    /**
     * `/del <name>`: `all` empties the chat's files and hands back every path
     * to remove; a loaded name removes that one entry, the others staying in
     * their order; anything else leaves the registry as it was.
     */
    method Delete(chatId: int, isAdmin: bool, text: string) returns (reply: DeleteReply, removed: seq<string>)
      requires Valid()
      modifies this
      ensures Valid()
      ensures !isAdmin ==> reply == DeleteNotAdmin
      ensures isAdmin && DeleteArgument(text).None? ==> reply == DeleteNoName
      ensures isAdmin && DeleteArgument(text).Some? && chatId !in old(files) ==> reply == DeleteNoChat
      ensures isAdmin && DeleteArgument(text) == Some("all") && chatId in old(files) ==>
        reply == DeletedAll && removed == Paths(old(files[chatId])) && files == old(files)[chatId := []]
      ensures isAdmin && chatId in old(files) && DeleteArgument(text).Some? && DeleteArgument(text) != Some("all") ==>
        var name := DeleteArgument(text).value;
        if name in NameSet(old(files[chatId])) then
          && reply == Deleted(name)
          && (exists i :: 0 <= i < |old(files[chatId])| && old(files[chatId])[i].name == name && removed == [old(files[chatId])[i].path])
          && files == old(files)[chatId := Without(old(files[chatId]), name)]
        else reply == DeleteNotLoaded(name) && files == old(files)
      ensures !reply.Deleted? && !reply.DeletedAll? ==> files == old(files) && removed == []
    {
      removed := [];
      if !isAdmin {
        return DeleteNotAdmin, removed;
      }
      var argument := DeleteArgument(text);
      if argument.None? {
        return DeleteNoName, removed;
      }
      var name := argument.value;
      if chatId !in files {
        return DeleteNoChat, removed;
      }
      var entries := files[chatId];
      if name == "all" {
        removed := Paths(entries);
        files := files[chatId := []];
        return DeletedAll, removed;
      }
      if name in NameSet(entries) {
        var i :| 0 <= i < |entries| && entries[i].name == name;
        removed := [entries[i].path];
        WithoutKeepsUnique(entries, name);
        files := files[chatId := Without(entries, name)];
        reply := Deleted(name);
      } else {
        reply := DeleteNotLoaded(name);
      }
    }
  }
}
