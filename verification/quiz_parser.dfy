/**
 * The quiz-text parser of the bot (`process_questions`): the text is stripped,
 * cut into numbered blocks by the regex `\n\s*\n(?=\d+\.)`, and each block
 * becomes one question record or, when Python would raise while reading it,
 * is reported and dropped.
 */
module QuizParser {
  import opened Wrappers
  import opened Text

  /** One entry of `quiz_data`. */
  datatype Question = Question(
    question: string,
    options: seq<string>,
    correctOptionId: Option<nat>,
    explanation: Option<string>)

  function Min(a: int, b: int): int {
    if a < b then a else b
  }

  // ---------------------------------------------------------------------
  // Segmentation: re.split(r'\n\s*\n(?=\d+\.)', text)
  // ---------------------------------------------------------------------

  /** `s[lo:hi]` is a run of ASCII digits (what `\d` matches here). */
  predicate DigitsIn(s: string, lo: nat, hi: nat) {
    lo <= hi <= |s| && forall i :: lo <= i < hi ==> IsDigit(s[i])
  }

  /** End of the run of ASCII digits that starts at `i`. */
  function DigitRunEnd(s: string, i: nat): (j: nat)
    requires i <= |s|
    ensures DigitsIn(s, i, j) && (j == |s| || !IsDigit(s[j]))
    decreases |s| - i
  {
    if i < |s| && IsDigit(s[i]) then DigitRunEnd(s, i + 1) else i
  }

  /** The lookahead `(?=\d+\.)` holds at `q`. */
  predicate NumberedAt(s: string, q: nat) {
    q < |s| && IsDigit(s[q]) && DigitRunEnd(s, q) < |s| && s[DigitRunEnd(s, q)] == '.'
  }

  /**
   * Where the regex engine, trying position `p`, finds a separator, and where
   * that separator ends: `\n`, then the greedy `\s*` backing off until the
   * last character it gave up is a `\n` that is followed by digits and a dot.
   */
  function SeparatorAt(s: string, p: nat): (r: Option<nat>)
    requires p <= |s|
    ensures r.Some? ==> p + 2 <= r.value <= |s|
  {
    if p < |s| && s[p] == '\n' then
      var q := TextStart(s, p + 1);
      if p + 2 <= q && s[q - 1] == '\n' && NumberedAt(s, q) then Some(q) else None
    else None
  }

  /** The regex read declaratively: `s[p..q]` matches `\n\s*\n` and `\d+\.` follows it. */
  ghost predicate SeparatorMatch(s: string, p: nat, q: nat) {
    && p + 2 <= q < |s|
    && s[p] == '\n' && SpaceIn(s, p + 1, q - 1) && s[q - 1] == '\n'
    && exists e :: q < e < |s| && DigitsIn(s, q, e) && s[e] == '.'
  }

  lemma TextStartUnique(s: string, i: nat, j: nat)
    requires i <= j < |s| && SpaceIn(s, i, j) && !IsSpace(s[j])
    ensures TextStart(s, i) == j
    decreases j - i
  {
    if i < j {
      TextStartUnique(s, i + 1, j);
    }
  }

  lemma DigitRunEndUnique(s: string, i: nat, j: nat)
    requires i <= j < |s| && DigitsIn(s, i, j) && !IsDigit(s[j])
    ensures DigitRunEnd(s, i) == j
    decreases j - i
  {
    if i < j {
      DigitRunEndUnique(s, i + 1, j);
    }
  }

  /** The scanning function finds exactly the separators the regex describes. */
  lemma SeparatorAtIsMatch(s: string, p: nat, q: nat)
    requires p <= |s|
    ensures SeparatorAt(s, p) == Some(q) <==> SeparatorMatch(s, p, q)
  {
    if SeparatorAt(s, p) == Some(q) {
      SeparatorAtSound(s, p);
    }
    if SeparatorMatch(s, p, q) {
      SeparatorAtComplete(s, p, q);
    }
  }

  lemma SeparatorAtSound(s: string, p: nat)
    requires p <= |s| && SeparatorAt(s, p).Some?
    ensures SeparatorMatch(s, p, SeparatorAt(s, p).value)
  {
    var q := SeparatorAt(s, p).value;
    var e := DigitRunEnd(s, q);
    assert q < e < |s| && DigitsIn(s, q, e) && s[e] == '.';
  }

  lemma SeparatorAtComplete(s: string, p: nat, q: nat)
    requires SeparatorMatch(s, p, q)
    ensures SeparatorAt(s, p) == Some(q)
  {
    var e :| q < e < |s| && DigitsIn(s, q, e) && s[e] == '.';
    TextStartUnique(s, p + 1, q);
    DigitRunEndUnique(s, q, e);
  }

  /**
   * `re.split` reads `s` from `start` as leftmost, non-overlapping separator
   * matches: the pieces follow each other, consecutive pieces are separated by
   * exactly one separator, and no separator starts inside a piece.
   */
  ghost predicate LeftmostSplit(s: string, start: nat, spans: seq<(nat, nat)>) {
    && |spans| >= 1
    && spans[0].0 == start
    && spans[|spans| - 1].1 == |s|
    && (forall k :: 0 <= k < |spans| ==> spans[k].0 <= spans[k].1 <= |s|)
    && (forall k :: 0 <= k < |spans| - 1 ==> SeparatedAt(s, spans, k))
    && (forall k, j :: 0 <= k < |spans| && spans[k].0 <= j < spans[k].1 ==> SeparatorAt(s, j).None?)
  }

  /** Pieces `k` and `k + 1` are separated by exactly one separator match. */
  ghost predicate SeparatedAt(s: string, spans: seq<(nat, nat)>, k: nat)
    requires k + 1 < |spans| && spans[k].1 <= |s|
  {
    SeparatorAt(s, spans[k].1) == Some(spans[k + 1].0)
  }

  /** The spans `[lo, hi)` of the pieces, scanning from `i` in a piece that began at `start`. */
  function PieceSpans(s: string, start: nat, i: nat): (spans: seq<(nat, nat)>)
    requires start <= i <= |s|
    requires forall j :: start <= j < i ==> SeparatorAt(s, j).None?
    ensures LeftmostSplit(s, start, spans)
    decreases |s| - i
  {
    if i == |s| then [(start, |s|)]
    else
      match SeparatorAt(s, i)
      case Some(q) =>
        var rest := PieceSpans(s, q, q);
        ExtendSplit(s, start, i, rest);
        [(start, i)] + rest
      case None => PieceSpans(s, start, i + 1)
  }

  /** A piece ending at a separator, followed by a leftmost split of the rest, is a leftmost split. */
  lemma ExtendSplit(s: string, start: nat, i: nat, rest: seq<(nat, nat)>)
    requires start <= i < |s|
    requires forall j :: start <= j < i ==> SeparatorAt(s, j).None?
    requires |rest| >= 1 && SeparatorAt(s, i) == Some(rest[0].0)
    requires LeftmostSplit(s, rest[0].0, rest)
    ensures LeftmostSplit(s, start, [(start, i)] + rest)
  {
    var spans := [(start, i)] + rest;
    forall k | 0 <= k < |spans| - 1 ensures SeparatedAt(s, spans, k) {
      if k > 0 {
        assert SeparatedAt(s, rest, k - 1);
      }
    }
    forall k, j | 0 <= k < |spans| && spans[k].0 <= j < spans[k].1 ensures SeparatorAt(s, j).None? {
      if k > 0 {
        assert rest[k - 1].0 <= j < rest[k - 1].1;
      }
    }
  }

  /** Dropping the first piece of a leftmost split leaves a leftmost split of the rest. */
  lemma SplitTail(s: string, start: nat, spans: seq<(nat, nat)>)
    requires LeftmostSplit(s, start, spans) && |spans| >= 2
    ensures LeftmostSplit(s, spans[1].0, spans[1..])
  {
    var tail := spans[1..];
    forall k | 0 <= k < |tail| - 1 ensures SeparatedAt(s, tail, k) {
      assert SeparatedAt(s, spans, k + 1);
    }
    forall k, j | 0 <= k < |tail| && tail[k].0 <= j < tail[k].1 ensures SeparatorAt(s, j).None? {
      assert spans[k + 1].0 <= j < spans[k + 1].1;
    }
  }

  /** Two leftmost splits of the same text are the same: `LeftmostSplit` determines the result of `re.split`. */
  lemma {:induction false} LeftmostSplitUnique(s: string, start: nat, a: seq<(nat, nat)>, b: seq<(nat, nat)>)
    requires LeftmostSplit(s, start, a) && LeftmostSplit(s, start, b)
    ensures a == b
    decreases |a|
  {
    // Both first pieces end at the first separator at or after `start`, or at the end of `s`.
    assert a[0] == b[0] && (|a| > 1 <==> |b| > 1) by {
      assert |a| > 1 ==> SeparatedAt(s, a, 0) && a[0].1 < |s|;
      assert |b| > 1 ==> SeparatedAt(s, b, 0) && b[0].1 < |s|;
      assert forall j :: start <= j < a[0].1 ==> SeparatorAt(s, j).None?;
      assert forall j :: start <= j < b[0].1 ==> SeparatorAt(s, j).None?;
    }
    if |a| > 1 {
      assert a[1..] == b[1..] by {
        SplitTail(s, start, a);
        SplitTail(s, start, b);
        assert SeparatedAt(s, a, 0) && SeparatedAt(s, b, 0);
        LeftmostSplitUnique(s, a[1].0, a[1..], b[1..]);
      }
      assert a == [a[0]] + a[1..];
      assert b == [b[0]] + b[1..];
    }
  }

  /** `re.split(r'\n\s*\n(?=\d+\.)', s)`: the pieces of `s` between separators, in order. */
  function SplitBlocks(s: string): (blocks: seq<string>)
    ensures |blocks| >= 1
  {
    var spans := PieceSpans(s, 0, 0);
    seq(|spans|, k requires 0 <= k < |spans| => s[spans[k].0..spans[k].1])
  }

  /** The blocks of `content.strip()`. */
  function Blocks(content: string): (blocks: seq<string>)
    ensures |blocks| >= 1
  {
    SplitBlocks(Strip(content))
  }

  /** The blocks are the text between leftmost separator matches, and nothing else. */
  lemma SplitBlocksAreLeftmost(s: string)
    ensures exists spans: seq<(nat, nat)> ::
      && LeftmostSplit(s, 0, spans)
      && |spans| == |SplitBlocks(s)|
      && forall k :: 0 <= k < |spans| ==> SplitBlocks(s)[k] == s[spans[k].0..spans[k].1]
  {
    var spans := PieceSpans(s, 0, 0);
    assert |spans| == |SplitBlocks(s)|;
  }

  // ---------------------------------------------------------------------
  // One block
  // ---------------------------------------------------------------------

  /** `question.strip().split('\n')` */
  function Lines(block: string): (lines: seq<string>)
    ensures |lines| >= 1
  {
    Split(Strip(block), '\n')
  }

  /** `line.split(sep, 1)[1]`, or `None` where Python raises `IndexError`. */
  function After(line: string, sep: string): Option<string>
    requires sep != []
  {
    var parts := SplitOnce(line, sep);
    if |parts| == 2 then Some(parts[1]) else None
  }

  /** `line.split(') ', 1)[1].strip()`, or `None` where Python raises `IndexError`. */
  function OptionText(line: string): Option<string> {
    match After(line, ") ")
    case None => None
    case Some(rest) => Some(Strip(rest))
  }

  /**
   * `[f(line) for line in lines[lo:hi]]` for an `f` that may raise: the list
   * of results when no line raises, else `None`.
   */
  function Comprehension<T>(f: string -> Option<T>, lines: seq<string>, lo: nat, hi: nat): (r: Option<seq<T>>)
    requires lo <= hi <= |lines|
    ensures r.Some? <==> forall k :: lo <= k < hi ==> f(lines[k]).Some?
    ensures r.Some? ==> |r.value| == hi - lo
    ensures r.Some? ==> forall i :: 0 <= i < hi - lo ==> r.value[i] == f(lines[lo + i]).value
    decreases hi - lo
  {
    if lo == hi then Some([])
    else
      match f(lines[lo])
      case None => None
      case Some(x) =>
        match Comprehension(f, lines, lo + 1, hi)
        case None => None
        case Some(more) =>
          var results := [x] + more;
          assert forall i :: 1 <= i < hi - lo ==> results[i] == more[i - 1] && lo + i == (lo + 1) + (i - 1);
          Some(results)
  }

  /** The options of lines `lo` to `hi - 1`: `[line.split(') ', 1)[1].strip() for line in lines[lo:hi]]`. */
  function OptionTexts(lines: seq<string>, lo: nat, hi: nat): (r: Option<seq<string>>)
    requires lo <= hi <= |lines|
    ensures r.Some? <==> forall k :: lo <= k < hi ==> After(lines[k], ") ").Some?
    ensures r.Some? ==> |r.value| == hi - lo
    ensures r.Some? ==> forall i :: 0 <= i < hi - lo ==> r.value[i] == Strip(After(lines[lo + i], ") ").value)
  {
    Comprehension(OptionText, lines, lo, hi)
  }

  /** The fixed table `{'A': 0, 'B': 1, 'C': 2, 'D': 3}.get(answer)`. */
  function AnswerIndex(answer: string): (r: Option<nat>)
    ensures r.Some? <==> answer in ["A", "B", "C", "D"]
    ensures r.Some? ==> r.value < 4 && answer == [('A' as int + r.value) as char]
  {
    if answer == "A" then Some(0)
    else if answer == "B" then Some(1)
    else if answer == "C" then Some(2)
    else if answer == "D" then Some(3)
    else None
  }

  predicate IsAnswerLine(line: string) {
    StartsWith(line, "Answer:")
  }

  /** `"Answer:"` holds no comma, so the text before the first comma of an answer line keeps its colon. */
  lemma AnswerHeadHasColon(line: string)
    requires IsAnswerLine(line)
    ensures ':' in SplitOnce(line, ",")[0]
  {
    var parts := SplitOnce(line, ",");
    assert line[..7] == "Answer:";
    assert forall k :: 0 <= k < 7 ==> line[k] == "Answer:"[k] by {
      forall k | 0 <= k < 7 ensures line[k] == "Answer:"[k] {
        assert line[k] == line[..7][k];
      }
    }
    if |parts| == 2 {
      var n := |parts[0]|;
      assert line[n] == ',' by {
        assert line == parts[0] + "," + parts[1];
      }
      assert n >= 7;
      assert parts[0][6] == line[6];
    }
    assert parts[0][6] == ':';
  }

  /**
   * `(correct_option_id, explanation)` from a block's stripped last line: the
   * letter is the second `:`-field of the text before the first comma, the
   * explanation the stripped text after that comma.
   */
  function ParseAnswer(answerLine: string): (r: (Option<nat>, Option<string>))
    ensures !IsAnswerLine(answerLine) ==> r == (None, None)
    ensures r.0.Some? ==> r.0.value < 4
    ensures IsAnswerLine(answerLine) ==> (r.1.Some? <==> ',' in answerLine)
    ensures r.1.Some? ==> IsStripped(r.1.value)
  {
    if IsAnswerLine(answerLine) then
      var parts := SplitOnce(answerLine, ",");
      AnswerHeadHasColon(answerLine);
      SplitOnceChar(answerLine, ',');
      var answer := Strip(Split(parts[0], ':')[1]);
      var explanation := if |parts| > 1 then Some(Strip(parts[1])) else None;
      (AnswerIndex(answer), explanation)
    else (None, None)
  }

  /** A space in front of a stripped string is all that `strip()` removes. */
  lemma StripAfterSpace(e: string)
    requires IsStripped(e)
    ensures Strip(" " + e) == e
  {
    var s := " " + e;
    assert TextStart(s, 1) == 1;
    assert TextStart(s, 0) == 1;
    assert TextEnd(s, 1, |s|) == |s|;
    assert s[1..] == e;
  }

  /** The letter of `"Answer: <letter>"` is its second `:`-field, stripped. */
  lemma LetterField(head: string, letter: char)
    requires head == "Answer: " + [letter] && letter != ':' && !IsSpace(letter)
    ensures Strip(Split(head, ':')[1]) == [letter]
  {
    assert head[6] == ':' && head[..6] == "Answer";
    assert ':' !in head[..6];
    assert FirstIndex(head, ':') == 6;
    var rest := head[7..];
    assert rest == " " + [letter];
    assert ':' !in rest;
    assert Split(head, ':') == ["Answer", rest];
    StripAfterSpace([letter]);
  }

  /** A comma after a comma-free head splits the line right there. */
  lemma CommaSplit(head: string, tail: string)
    requires ',' !in head
    ensures SplitOnce(head + "," + tail, ",") == [head, tail]
  {
    var line := head + "," + tail;
    var parts := SplitOnce(line, ",");
    var n := |head|;
    assert line[n] == ',';
    SplitOnceChar(line, ',');
    assert |parts| == 2;
    assert line == parts[0] + "," + parts[1];
    assert |parts[0]| == n by {
      if |parts[0]| > n {
        OccursAtChar(line, ',', n);
      }
    }
    assert parts[0] == line[..n] == head;
    assert parts[1] == line[n + 1..] == tail;
  }

  /**
   * The answer line the bot expects, `"Answer: <A-D>, <explanation>"`, gives
   * back the letter's index and the explanation.
   */
  lemma AnswerRoundTrip(index: nat, explanation: string)
    requires index < 4 && IsStripped(explanation)
    ensures ParseAnswer("Answer: " + ["ABCD"[index]] + ", " + explanation) == (Some(index), Some(explanation))
  {
    var letter := "ABCD"[index];
    var head := "Answer: " + [letter];
    var line := "Answer: " + ["ABCD"[index]] + ", " + explanation;
    assert line == head + "," + (" " + explanation);
    assert IsAnswerLine(line) by {
      assert line[..7] == "Answer:";
    }
    TableLetter(index);
    assert ',' !in head;
    CommaSplit(head, " " + explanation);
    ParseAnswerFields(line);
    LetterField(head, letter);
    StripAfterSpace(explanation);
  }

  /** `"Answer: <A-D>"` without a comma gives the letter's index and no explanation. */
  lemma AnswerWithoutExplanation(index: nat)
    requires index < 4
    ensures ParseAnswer("Answer: " + ["ABCD"[index]]) == (Some(index), None)
  {
    var letter := "ABCD"[index];
    var line := "Answer: " + [letter];
    assert IsAnswerLine(line) by {
      assert line[..7] == "Answer:";
    }
    TableLetter(index);
    assert ',' !in line;
    SplitOnceChar(line, ',');
    ParseAnswerFields(line);
    LetterField(line, letter);
  }

  /** The letters of the answer table are plain letters, and the table gives each its place. */
  lemma TableLetter(index: nat)
    requires index < 4
    ensures var letter := "ABCD"[index];
      letter != ':' && letter != ',' && !IsSpace(letter) && AnswerIndex([letter]) == Some(index)
  {
    var letter := "ABCD"[index];
    if index == 0 {
      assert letter == 'A' && [letter] == "A";
    } else if index == 1 {
      assert letter == 'B' && [letter] == "B";
    } else if index == 2 {
      assert letter == 'C' && [letter] == "C";
    } else {
      assert letter == 'D' && [letter] == "D";
    }
  }

  /** The fields `ParseAnswer` reads off an answer line. */
  lemma ParseAnswerFields(line: string)
    requires IsAnswerLine(line)
    ensures var parts := SplitOnce(line, ",");
      && |Split(parts[0], ':')| >= 2
      && ParseAnswer(line).0 == AnswerIndex(Strip(Split(parts[0], ':')[1]))
      && ParseAnswer(line).1 == if |parts| > 1 then Some(Strip(parts[1])) else None
  {
    AnswerHeadHasColon(line);
  }

  /**
   * One pass of the loop body of `process_questions` over a block, or `None`
   * when it raises.
   */
  function ParseBlock(block: string): Option<Question> {
    ParseLines(Lines(block))
  }

  /** The loop body once the block is cut into lines. */
  function ParseLines(lines: seq<string>): Option<Question>
    requires |lines| >= 1
  {
    match After(lines[0], ".")
    case None => None
    case Some(rest) =>
      match OptionTexts(lines, 1, Min(5, |lines|))
      case None => None
      case Some(options) =>
        var (correct, explanation) := ParseAnswer(Strip(lines[|lines| - 1]));
        Some(Question(Strip(rest), options, correct, explanation))
  }

  /** Which lines decide whether a block is kept: the first needs a dot, lines 2 to 5 need `") "`. */
  lemma ParseLinesKept(lines: seq<string>)
    requires |lines| >= 1
    ensures ParseLines(lines).Some? <==> '.' in lines[0] && forall k :: 1 <= k < Min(5, |lines|) ==> After(lines[k], ") ").Some?
  {
    SplitOnceChar(lines[0], '.');
  }

  /**
   * What a kept block yields: the prompt is the stripped text after the first
   * dot of the first line, the options are lines 2 to 5 (at most four) after
   * their first `") "`, stripped, and the answer comes from the stripped last
   * line only.
   */
  lemma ParseLinesFields(lines: seq<string>)
    requires |lines| >= 1 && ParseLines(lines).Some?
    ensures var q := ParseLines(lines).value;
      && After(lines[0], ".").Some? && q.question == Strip(After(lines[0], ".").value)
      && |q.options| == Min(4, |lines| - 1)
      && (forall i :: 0 <= i < |q.options| ==> q.options[i] == Strip(After(lines[1 + i], ") ").value))
      && (q.correctOptionId, q.explanation) == ParseAnswer(Strip(lines[|lines| - 1]))
  {
  }

  /** A block of one line with a dot is kept, with no options. */
  lemma OneLineBlockKept(line: string)
    requires '.' in line
    ensures ParseLines([line]).Some? && ParseLines([line]).value.options == []
  {
    ParseLinesKept([line]);
    ParseLinesFields([line]);
  }

  /**
   * A block of two to five lines whose last line has no `") "` (an answer
   * line after fewer than four options, say) is dropped: its last line is
   * read as an option.
   */
  lemma ShortBlockWithAnswerDropped(lines: seq<string>)
    requires 2 <= |lines| <= 5 && After(lines[|lines| - 1], ") ").None?
    ensures ParseLines(lines).None?
  {
    ParseLinesKept(lines);
  }

  /**
   * A block is kept exactly when its first line has a dot and each of lines 2
   * to 5 has `") "`; the one-line block is therefore always kept when its line
   * has a dot.
   */
  lemma ParseBlockKept(block: string)
    ensures var lines := Lines(block);
      ParseBlock(block).Some? <==> '.' in lines[0] && forall k :: 1 <= k < Min(5, |lines|) ==> After(lines[k], ") ").Some?
  {
    ParseLinesKept(Lines(block));
  }

  // ---------------------------------------------------------------------
  // The whole text
  // ---------------------------------------------------------------------

  /** `[f(x) for x in xs]` */
  function Map<A, B>(f: A -> B, xs: seq<A>): (ys: seq<B>)
    ensures |ys| == |xs|
    ensures forall i :: 0 <= i < |xs| ==> ys[i] == f(xs[i])
  {
    seq(|xs|, i requires 0 <= i < |xs| => f(xs[i]))
  }

  lemma MapAppend<A, B>(f: A -> B, a: seq<A>, b: seq<A>)
    ensures Map(f, a + b) == Map(f, a) + Map(f, b)
  {
  }

  lemma MapSlice<A, B>(f: A -> B, xs: seq<A>, i: nat, j: nat)
    requires i <= j <= |xs|
    ensures Map(f, xs[i..j]) == Map(f, xs)[i..j]
  {
  }

  /** The value of a present result, as a list of zero or one element. */
  function ValueList<T>(r: Option<T>): seq<T> {
    if r.Some? then [r.value] else []
  }

  /** The item whose result is absent, as a list of zero or one element. */
  function FailedList<X, T>(x: X, r: Option<T>): seq<X> {
    if r.None? then [x] else []
  }

  /** The values present in `rs`, in order. */
  function Kept<T>(rs: seq<Option<T>>): (vs: seq<T>)
    ensures |vs| <= |rs|
  {
    if rs == [] then [] else ValueList(rs[0]) + Kept(rs[1..])
  }

  /** The items of `xs` whose result is `None`, in order. */
  function Failed<X, T>(xs: seq<X>, rs: seq<Option<T>>): (fs: seq<X>)
    requires |xs| == |rs|
    ensures |fs| <= |xs|
  {
    if rs == [] then [] else FailedList(xs[0], rs[0]) + Failed(xs[1..], rs[1..])
  }

  /** The records of the blocks that parse, in block order: `quiz_data`. */
  function ParseAll(blocks: seq<string>): seq<Question> {
    Kept(Map(ParseBlock, blocks))
  }

  /** The blocks that raise, in block order: what `process_questions` prints. */
  function Dropped(blocks: seq<string>): seq<string> {
    Failed(blocks, Map(ParseBlock, blocks))
  }

  lemma {:induction false} KeptAppend<T>(r1: seq<Option<T>>, r2: seq<Option<T>>)
    ensures Kept(r1 + r2) == Kept(r1) + Kept(r2)
    decreases |r1|
  {
    if r1 == [] {
      assert r1 + r2 == r2;
    } else {
      assert (r1 + r2)[1..] == r1[1..] + r2;
      KeptAppend(r1[1..], r2);
      assert (r1 + r2)[0] == r1[0];
    }
  }

  lemma {:induction false} FailedAppend<X, T>(x1: seq<X>, r1: seq<Option<T>>, x2: seq<X>, r2: seq<Option<T>>)
    requires |x1| == |r1| && |x2| == |r2|
    ensures Failed(x1 + x2, r1 + r2) == Failed(x1, r1) + Failed(x2, r2)
    decreases |r1|
  {
    if r1 == [] {
      assert r1 + r2 == r2 && x1 + x2 == x2;
    } else {
      assert (r1 + r2)[1..] == r1[1..] + r2;
      assert (x1 + x2)[1..] == x1[1..] + x2;
      FailedAppend(x1[1..], r1[1..], x2, r2);
      assert (r1 + r2)[0] == r1[0] && (x1 + x2)[0] == x1[0];
    }
  }

  lemma {:induction false} KeptPlusFailed<X, T>(xs: seq<X>, rs: seq<Option<T>>)
    requires |xs| == |rs|
    ensures |Kept(rs)| + |Failed(xs, rs)| == |rs|
    decreases |rs|
  {
    if rs != [] {
      KeptPlusFailed(xs[1..], rs[1..]);
    }
  }

  /** Parsing is block by block: the blocks of a concatenation parse to the concatenation. */
  lemma ParseAllAppend(a: seq<string>, b: seq<string>)
    ensures ParseAll(a + b) == ParseAll(a) + ParseAll(b)
    ensures Dropped(a + b) == Dropped(a) + Dropped(b)
  {
    MapAppend(ParseBlock, a, b);
    KeptAppend(Map(ParseBlock, a), Map(ParseBlock, b));
    FailedAppend(a, Map(ParseBlock, a), b, Map(ParseBlock, b));
  }

  /** Every block yields a record or is reported, never both. */
  lemma KeptPlusDropped(blocks: seq<string>)
    ensures |ParseAll(blocks)| + |Dropped(blocks)| == |blocks|
  {
    KeptPlusFailed(blocks, Map(ParseBlock, blocks));
  }

  /** A single block yields its record when it parses, and is reported when it raises. */
  lemma ParseAllSingle(block: string)
    ensures ParseAll([block]) == ValueList(ParseBlock(block))
    ensures Dropped([block]) == FailedList(block, ParseBlock(block))
  {
    var rs := Map(ParseBlock, [block]);
    assert rs == [ParseBlock(block)];
    assert rs[1..] == [] && [block][1..] == [];
  }

  /** One more block adds at most its own record, at the end. */
  lemma ParseAllStep(blocks: seq<string>, i: nat)
    requires i < |blocks|
    ensures ParseAll(blocks[..i + 1]) == ParseAll(blocks[..i]) + ValueList(ParseBlock(blocks[i]))
    ensures Dropped(blocks[..i + 1]) == Dropped(blocks[..i]) + FailedList(blocks[i], ParseBlock(blocks[i]))
  {
    assert blocks[..i + 1] == blocks[..i] + [blocks[i]];
    ParseAllAppend(blocks[..i], [blocks[i]]);
    ParseAllSingle(blocks[i]);
  }

  /** Removing an absent result does not change the present values. */
  lemma KeptSkipsNone<T>(rs: seq<Option<T>>, k: nat)
    requires k < |rs| && rs[k].None?
    ensures Kept(rs) == Kept(rs[..k] + rs[k + 1..])
  {
    var before, after := rs[..k], rs[k + 1..];
    assert Kept(rs) == Kept(before) + Kept([rs[k]] + after) by {
      assert rs == before + ([rs[k]] + after);
      KeptAppend(before, [rs[k]] + after);
    }
    assert Kept([rs[k]] + after) == Kept(after) by {
      KeptAppend([rs[k]], after);
      assert [rs[k]][1..] == [];
    }
    KeptAppend(before, after);
  }

  /** A block that raises does not change what the other blocks yield. */
  lemma DroppedBlockIsIsolated(blocks: seq<string>, k: nat)
    requires k < |blocks| && ParseBlock(blocks[k]).None?
    ensures ParseAll(blocks) == ParseAll(blocks[..k] + blocks[k + 1..])
  {
    var rs := Map(ParseBlock, blocks);
    var before, after := blocks[..k], blocks[k + 1..];
    assert Kept(rs) == Kept(rs[..k] + rs[k + 1..]) by {
      KeptSkipsNone(rs, k);
    }
    assert rs[..k] + rs[k + 1..] == Map(ParseBlock, before + after) by {
      MapAppend(ParseBlock, before, after);
      MapSlice(ParseBlock, blocks, 0, k);
      MapSlice(ParseBlock, blocks, k + 1, |blocks|);
      assert blocks[0..k] == before && rs[0..k] == rs[..k];
      assert blocks[k + 1..|blocks|] == after && rs[k + 1..|rs|] == rs[k + 1..];
    }
  }

  /**
   * `process_questions(content)`: the records built by the loop, and the
   * blocks it reported as errors, each in block order.
   */
  method ProcessQuestions(content: string) returns (quizData: seq<Question>, errors: seq<string>)
    ensures quizData == ParseAll(Blocks(content))
    ensures errors == Dropped(Blocks(content))
    ensures |quizData| + |errors| == |Blocks(content)|
  {
    var questions := Blocks(content);
    quizData, errors := [], [];
    var i := 0;
    while i < |questions|
      invariant 0 <= i <= |questions|
      invariant quizData == ParseAll(questions[..i])
      invariant errors == Dropped(questions[..i])
    {
      var block := questions[i];
      ParseAllStep(questions, i);
      var parsed := ParseBlock(block);
      if parsed.Some? {
        quizData := quizData + [parsed.value];
      } else {
        errors := errors + [block];
      }
      i := i + 1;
    }
    assert questions[..i] == questions;
    KeptPlusDropped(questions);
  }
}
