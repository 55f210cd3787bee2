/**
 * The Python `str` operations the bot relies on, over `string` (a sequence of
 * characters): `isspace`, `strip`, `split`, `startswith`, `endswith`, `str(int)`,
 * `int(str)` and `os.path.splitext`.
 */
module Text {
  import opened Wrappers

  /** The characters for which Python's `str.isspace()` holds; they are also the `\s` class of a `str` regex. */
  const SpaceChars: set<char> := {
    ' ', '\t', '\n', '\U{0B}', '\U{0C}', '\r', '\U{1C}', '\U{1D}', '\U{1E}', '\U{1F}', '\U{85}', '\U{A0}',
    '\U{1680}', '\U{2000}', '\U{2001}', '\U{2002}', '\U{2003}', '\U{2004}', '\U{2005}', '\U{2006}', '\U{2007}',
    '\U{2008}', '\U{2009}', '\U{200A}', '\U{2028}', '\U{2029}', '\U{202F}', '\U{205F}', '\U{3000}'}

  predicate IsSpace(c: char) {
    c in SpaceChars
  }

  /** `s[lo:hi]` is a run of whitespace. */
  predicate SpaceIn(s: string, lo: nat, hi: nat) {
    lo <= hi <= |s| && forall i :: lo <= i < hi ==> IsSpace(s[i])
  }

  predicate NoSpace(s: string) {
    forall i :: 0 <= i < |s| ==> !IsSpace(s[i])
  }

  /** No whitespace at either end, as `strip()` leaves a string. */
  predicate IsStripped(s: string) {
    s == [] || (!IsSpace(s[0]) && !IsSpace(s[|s| - 1]))
  }

  /** Index of the first non-whitespace character at or after `i`, or `|s|`. */
  function TextStart(s: string, i: nat): (j: nat)
    requires i <= |s|
    ensures SpaceIn(s, i, j) && (j == |s| || !IsSpace(s[j]))
    decreases |s| - i
  {
    if i < |s| && IsSpace(s[i]) then TextStart(s, i + 1) else i
  }

  /** One past the last non-whitespace character of `s[lo:hi]`, or `lo`. */
  function TextEnd(s: string, lo: nat, hi: nat): (j: nat)
    requires lo <= hi <= |s|
    ensures lo <= j && SpaceIn(s, j, hi) && (j == lo || !IsSpace(s[j - 1]))
    decreases hi
  {
    if lo < hi && IsSpace(s[hi - 1]) then TextEnd(s, lo, hi - 1) else hi
  }

  /** `s.strip()`: the middle of `s` once the whitespace at both ends is gone. */
  function Strip(s: string): (r: string)
    ensures IsStripped(r)
  {
    var i := TextStart(s, 0);
    var j := TextEnd(s, i, |s|);
    s[i..j]
  }

  /** `strip()` removes whitespace at the two ends and nothing else. */
  lemma StripRemovesOnlyEnds(s: string)
    ensures exists i: nat, j: nat :: SpaceIn(s, 0, i) && i <= j && SpaceIn(s, j, |s|) && Strip(s) == s[i..j]
  {
    var i := TextStart(s, 0);
    var j := TextEnd(s, i, |s|);
    assert SpaceIn(s, 0, i) && i <= j && SpaceIn(s, j, |s|) && Strip(s) == s[i..j];
  }

  /** Stripping a string that has no whitespace at its ends changes nothing. */
  lemma StripStripped(s: string)
    requires IsStripped(s)
    ensures Strip(s) == s
  {
    if s != [] {
      assert TextStart(s, 0) == 0;
      assert TextEnd(s, 0, |s|) == |s|;
    }
  }

  /** Index of the first `c` in `s`. */
  function FirstIndex(s: string, c: char): (i: nat)
    requires c in s
    ensures i < |s| && s[i] == c && c !in s[..i]
  {
    if s[0] == c then 0 else FirstIndex(s[1..], c) + 1
  }

  /** `sep.join(parts)` for a one-character separator. */
  function Join(parts: seq<string>, sep: char): string
    requires |parts| >= 1
  {
    if |parts| == 1 then parts[0] else parts[0] + [sep] + Join(parts[1..], sep)
  }

  /** `s.split(sep)` for a one-character separator: the text between separators, in order. */
  function Split(s: string, sep: char): (parts: seq<string>)
    ensures |parts| >= 1
    ensures |parts| == 1 <==> sep !in s
    ensures forall k :: 0 <= k < |parts| ==> sep !in parts[k]
    ensures Join(parts, sep) == s
    decreases |s|
  {
    if sep !in s then [s]
    else
      var i := FirstIndex(s, sep);
      var rest := Split(s[i + 1..], sep);
      assert ([s[..i]] + rest)[1..] == rest;
      assert s == s[..i] + [sep] + s[i + 1..];
      [s[..i]] + rest
  }

  /** `sub` occurs in `s` at index `k`. */
  predicate OccursAt(s: string, sub: string, k: nat) {
    k + |sub| <= |s| && s[k..k + |sub|] == sub
  }

  /** A one-character string occurs exactly where that character is. */
  lemma OccursAtChar(s: string, c: char, k: nat)
    ensures OccursAt(s, [c], k) <==> k < |s| && s[k] == c
  {
    if k < |s| && s[k] == c {
      assert s[k..k + 1] == [c];
    }
  }

  /** `s.find(sub, from)`, as an option: the first occurrence at or after `from`. */
  function IndexFrom(s: string, sub: string, from: nat): (r: Option<nat>)
    requires from <= |s|
    ensures r.Some? ==> from <= r.value && OccursAt(s, sub, r.value)
    ensures r.Some? ==> forall k :: from <= k < r.value ==> !OccursAt(s, sub, k)
    ensures r.None? ==> forall k :: from <= k <= |s| ==> !OccursAt(s, sub, k)
    decreases |s| - from
  {
    if OccursAt(s, sub, from) then Some(from)
    else if from == |s| then None
    else IndexFrom(s, sub, from + 1)
  }

  /** `s.split(sep, 1)`: `[s]` when `sep` does not occur, else the text before its first occurrence and the rest. */
  function SplitOnce(s: string, sep: string): (parts: seq<string>)
    requires sep != []
    ensures |parts| == 1 || |parts| == 2
    ensures |parts| == 1 <==> forall k :: 0 <= k <= |s| ==> !OccursAt(s, sep, k)
    ensures |parts| == 1 ==> parts[0] == s
    ensures |parts| == 2 ==> s == parts[0] + sep + parts[1]
    ensures |parts| == 2 ==> forall k :: 0 <= k < |parts[0]| ==> !OccursAt(s, sep, k)
  {
    match IndexFrom(s, sep, 0)
    case None => [s]
    case Some(i) =>
      assert s == s[..i] + sep + s[i + |sep|..];
      [s[..i], s[i + |sep|..]]
  }

  /** With a one-character separator, `split(sep, 1)` has two parts exactly when the character occurs. */
  lemma SplitOnceChar(s: string, c: char)
    ensures |SplitOnce(s, [c])| == 2 <==> c in s
  {
    if c in s {
      var i := FirstIndex(s, c);
      OccursAtChar(s, c, i);
    } else {
      forall k | 0 <= k <= |s| ensures !OccursAt(s, [c], k) {
        OccursAtChar(s, c, k);
      }
    }
  }

  predicate StartsWith(s: string, prefix: string) {
    |prefix| <= |s| && s[..|prefix|] == prefix
  }

  predicate EndsWith(s: string, suffix: string) {
    |suffix| <= |s| && s[|s| - |suffix|..] == suffix
  }

  // ---------------------------------------------------------------------
  // Decimal numbers: `str(n)` and `int(word)`.
  // ---------------------------------------------------------------------

  predicate IsDigit(c: char) {
    '0' <= c <= '9'
  }

  predicate AllDigits(s: string) {
    forall i :: 0 <= i < |s| ==> IsDigit(s[i])
  }

  function DigitsValue(s: string): nat
    requires AllDigits(s)
  {
    if s == [] then 0 else 10 * DigitsValue(s[..|s| - 1]) + (s[|s| - 1] as int - '0' as int)
  }

  /** `str(n)` for `n >= 0`: the shortest decimal numeral of `n`. */
  function NatToString(n: nat): (s: string)
    ensures s != [] && AllDigits(s) && DigitsValue(s) == n
    ensures s[0] == '0' ==> n == 0
  {
    if n < 10 then [('0' as int + n) as char]
    else
      var d := NatToString(n / 10);
      var s := d + [('0' as int + n % 10) as char];
      assert s[..|s| - 1] == d;
      s
  }

  /** `str(i)` */
  function IntToString(i: int): string {
    if i < 0 then "-" + NatToString(-i) else NatToString(i)
  }

  /** `int(word)` on a word without whitespace: an optional sign and decimal digits, or `None` where Python raises `ValueError`. */
  function ParseInt(s: string): Option<int> {
    if s != [] && (s[0] == '+' || s[0] == '-') then
      var digits := s[1..];
      if digits != [] && AllDigits(digits) then
        var value: int := DigitsValue(digits);
        Some(if s[0] == '-' then -value else value)
      else None
    else if s != [] && AllDigits(s) then Some(DigitsValue(s))
    else None
  }

  /** `int(str(i)) == i` */
  lemma ParseIntRoundTrip(i: int)
    ensures ParseInt(IntToString(i)) == Some(i)
  {
    if i < 0 {
      assert IntToString(i)[1..] == NatToString(-i);
    }
  }

  /** Distinct numbers have distinct numerals. */
  lemma NatToStringInjective(a: nat, b: nat)
    requires NatToString(a) == NatToString(b)
    ensures a == b
  {
  }

  /** `str` is injective on all integers, negative ones included: `int` reads each numeral back. */
  lemma IntToStringInjective(a: int, b: int)
    requires IntToString(a) == IntToString(b)
    ensures a == b
  {
    ParseIntRoundTrip(a);
    ParseIntRoundTrip(b);
  }

  // ---------------------------------------------------------------------
  // File names.
  // ---------------------------------------------------------------------

  /** Index of the last `c` in `s`, if any (`str.rfind`). */
  function LastIndex(s: string, c: char): (r: Option<nat>)
    ensures r.Some? ==> r.value < |s| && s[r.value] == c && c !in s[r.value + 1..]
    ensures r.None? ==> c !in s
    decreases |s|
  {
    if s == [] then None
    else if s[|s| - 1] == c then Some(|s| - 1)
    else
      var r := LastIndex(s[..|s| - 1], c);
      assert r.Some? ==> s[r.value + 1..] == s[..|s| - 1][r.value + 1..] + [s[|s| - 1]];
      assert r.None? ==> s == s[..|s| - 1] + [s[|s| - 1]];
      r
  }

  /**
   * `os.path.splitext(p)` on POSIX: the extension starts at the last dot of the
   * last path component, unless everything before that dot in the component is dots.
   */
  function SplitExt(p: string): (r: (string, string))
    ensures r.0 + r.1 == p
    ensures r.1 == [] || (r.1[0] == '.' && '.' !in r.1[1..] && '/' !in r.1)
    ensures r.1 != [] <==> HasExtension(p)
  {
    match LastIndex(p, '.')
    case None => (p, [])
    case Some(dot) =>
      var nameStart := match LastIndex(p, '/') case None => 0 case Some(sep) => sep + 1;
      if nameStart <= dot && exists k :: nameStart <= k < dot && p[k] != '.' then
        assert p[..dot] + p[dot..] == p;
        assert p[dot..][1..] == p[dot + 1..];
        NameStartAfterSlash(p, nameStart, dot);
        ExtensionFound(p, dot, nameStart);
        (p[..dot], p[dot..])
      else
        ExtensionMissing(p, dot, nameStart);
        (p, [])
  }

  /**
   * The last dot of `p` has no slash after it and, before it in the same path
   * component, some character that is not a dot.
   */
  predicate HasExtension(p: string) {
    exists k, d :: 0 <= k < d < |p| && p[d] == '.' && '.' !in p[d + 1..] && p[k] != '.' && '/' !in p[k..]
  }

  /** No slash comes at or after the start of the last path component. */
  lemma NameStartAfterSlash(p: string, nameStart: nat, k: nat)
    requires nameStart == match LastIndex(p, '/') case None => 0 case Some(sep) => sep + 1
    requires nameStart <= k <= |p|
    ensures '/' !in p[k..]
  {
    match LastIndex(p, '/')
    case None =>
    case Some(sep) => assert p[k..] == p[sep + 1..][k - sep - 1..];
  }

  lemma ExtensionFound(p: string, dot: nat, nameStart: nat)
    requires LastIndex(p, '.') == Some(dot)
    requires nameStart == match LastIndex(p, '/') case None => 0 case Some(sep) => sep + 1
    requires nameStart <= dot && exists k :: nameStart <= k < dot && p[k] != '.'
    ensures HasExtension(p)
  {
    var k :| nameStart <= k < dot && p[k] != '.';
    NameStartAfterSlash(p, nameStart, k);
  }

  lemma ExtensionMissing(p: string, dot: nat, nameStart: nat)
    requires LastIndex(p, '.') == Some(dot)
    requires nameStart == match LastIndex(p, '/') case None => 0 case Some(sep) => sep + 1
    requires !(nameStart <= dot && exists k :: nameStart <= k < dot && p[k] != '.')
    ensures !HasExtension(p)
  {
  }

  /** ASCII `str.lower()` of one character. */
  /** `lower()` on one character: an upper-case ASCII letter becomes its lower-case form. */
  function LowerChar(c: char): (r: char)
    ensures !('A' <= r <= 'Z')
    ensures !('A' <= c <= 'Z') ==> r == c
    ensures 'A' <= c <= 'Z' ==> 'a' <= r <= 'z' && r as int - 'a' as int == c as int - 'A' as int
  {
    if 'A' <= c <= 'Z' then (c as int - 'A' as int + 'a' as int) as char else c
  }

  /** `lower()`: the same length, character by character, with no upper-case ASCII letter left. */
  function Lower(s: string): (r: string)
    ensures |r| == |s|
    ensures forall i :: 0 <= i < |s| ==> r[i] == LowerChar(s[i]) && !('A' <= r[i] <= 'Z')
  {
    seq(|s|, i requires 0 <= i < |s| => LowerChar(s[i]))
  }

  // ---------------------------------------------------------------------
  // Splitting a message into words.
  // ---------------------------------------------------------------------

  /** Index of the first whitespace at or after `i`, or `|s|`. */
  function WordEnd(s: string, i: nat): (e: nat)
    requires i <= |s|
    ensures i <= e <= |s| && (forall k :: i <= k < e ==> !IsSpace(s[k])) && (e == |s| || IsSpace(s[e]))
    decreases |s| - i
  {
    if i == |s| || IsSpace(s[i]) then i else WordEnd(s, i + 1)
  }

  /** `s.split()`: the maximal runs of non-whitespace, in order. */
  function Words(s: string): (ws: seq<string>)
    ensures forall k :: 0 <= k < |ws| ==> ws[k] != [] && NoSpace(ws[k])
  {
    WordsFrom(s, 0)
  }

  /** `s[i:].split()` */
  function WordsFrom(s: string, i: nat): (ws: seq<string>)
    requires i <= |s|
    ensures forall k :: 0 <= k < |ws| ==> ws[k] != [] && NoSpace(ws[k])
    decreases |s| - i
  {
    var a := TextStart(s, i);
    if a == |s| then []
    else
      var e := WordEnd(s, a);
      var rest := WordsFrom(s, e);
      assert forall k :: 1 <= k <= |rest| ==> ([s[a..e]] + rest)[k] == rest[k - 1];
      [s[a..e]] + rest
  }

  /** `gaps[0] + ws[0] + gaps[1] + ... + ws[n - 1] + gaps[n]` */
  function Weave(gaps: seq<string>, ws: seq<string>): string
    requires |gaps| == |ws| + 1
    decreases |ws|
  {
    if ws == [] then gaps[0] else gaps[0] + ws[0] + Weave(gaps[1..], ws[1..])
  }

  /** Runs of whitespace that can stand around words: one more run than words, and non-empty between two words. */
  predicate Separates(gaps: seq<string>, ws: seq<string>) {
    && |gaps| == |ws| + 1
    && (forall k :: 0 <= k < |gaps| ==> SpaceIn(gaps[k], 0, |gaps[k]|))
    && (forall k :: 0 < k < |ws| ==> gaps[k] != [])
  }

  /**
   * `s.split()` cuts `s` at whitespace and nowhere else: `s` is its words woven
   * with whitespace runs, the run between two words being non-empty. As a word
   * holds no whitespace, each word is a maximal run of non-whitespace.
   */
  lemma WordsAreMaximalRuns(s: string)
    ensures exists gaps :: Separates(gaps, Words(s)) && Weave(gaps, Words(s)) == s
  {
    var gaps := WordsFromWeave(s, 0);
    assert s[0..] == s;
    assert Separates(gaps, Words(s)) && Weave(gaps, Words(s)) == s;
  }

  lemma {:induction false} WordsFromWeave(s: string, i: nat) returns (gaps: seq<string>)
    requires i <= |s|
    ensures Separates(gaps, WordsFrom(s, i)) && Weave(gaps, WordsFrom(s, i)) == s[i..]
    ensures gaps[0] == s[i..TextStart(s, i)]
    decreases |s| - i
  {
    var a := TextStart(s, i);
    if a == |s| {
      gaps := [s[i..]];
      SpaceRun(s, i, a);
    } else {
      var e := WordEnd(s, a);
      var ws := WordsFrom(s, e);
      var more := WordsFromWeave(s, e);
      assert ws != [] ==> more[0] != [] by {
        if ws != [] {
          assert e < |s| && IsSpace(s[e]);
        }
      }
      WeaveStep(s, i, a, e, more, ws);
      gaps := [s[i..a]] + more;
    }
  }

  lemma SpaceRun(s: string, i: nat, a: nat)
    requires SpaceIn(s, i, a)
    ensures SpaceIn(s[i..a], 0, a - i)
  {
    var run := s[i..a];
    forall m | 0 <= m < |run| ensures IsSpace(run[m]) {
      assert run[m] == s[i + m];
    }
  }

  /** The whitespace run `s[i..a]` and the word `s[a..e]` put in front of a weave of `s[e..]`. */
  lemma WeaveStep(s: string, i: nat, a: nat, e: nat, more: seq<string>, ws: seq<string>)
    requires i <= a < e <= |s| && SpaceIn(s, i, a)
    requires Separates(more, ws) && Weave(more, ws) == s[e..] && (ws != [] ==> more[0] != [])
    ensures Separates([s[i..a]] + more, [s[a..e]] + ws)
    ensures Weave([s[i..a]] + more, [s[a..e]] + ws) == s[i..]
  {
    SpaceRun(s, i, a);
    var gaps := [s[i..a]] + more;
    assert gaps[1..] == more;
    assert ([s[a..e]] + ws)[1..] == ws;
    forall k | 0 <= k < |gaps| ensures SpaceIn(gaps[k], 0, |gaps[k]|) {
      if k > 0 {
        assert gaps[k] == more[k - 1];
      }
    }
    forall k | 0 < k < |ws| + 1 ensures gaps[k] != [] {
      assert gaps[k] == more[k - 1];
    }
    assert s[i..] == s[i..a] + s[a..e] + s[e..];
  }

  /** `s.split(maxsplit=1)`: the first word and, when more than whitespace follows it, the rest with its leading whitespace removed. */
  function SplitFirstWord(s: string): (parts: seq<string>)
    ensures |parts| <= 2
  {
    var a := TextStart(s, 0);
    if a == |s| then []
    else
      var e := WordEnd(s, a);
      var b := TextStart(s, e);
      if b == |s| then [s[a..e]] else [s[a..e], s[b..]]
  }

  /**
   * `s.split(maxsplit=1)` cuts off the same first word as `s.split()`, and has
   * a second part exactly when there is a second word, which it starts with.
   * That second part is all the rest of `s`: `s` is leading whitespace, the
   * first word, a non-empty whitespace run, then the second part to the end.
   */
  lemma SplitFirstWordAgrees(s: string)
    ensures |SplitFirstWord(s)| == if |Words(s)| < 2 then |Words(s)| else 2
    ensures |Words(s)| >= 1 ==> SplitFirstWord(s)[0] == Words(s)[0]
    ensures |Words(s)| >= 2 ==> StartsWith(SplitFirstWord(s)[1], Words(s)[1])
    ensures |SplitFirstWord(s)| == 2 ==>
      var first := SplitFirstWord(s)[0];
      exists i: nat, b: nat :: && SpaceIn(s, 0, i) && i + |first| < b < |s| && s[i..i + |first|] == first
                     && SpaceIn(s, i + |first|, b) && SplitFirstWord(s)[1] == s[b..]
  {
    var a := TextStart(s, 0);
    if a < |s| {
      var e := WordEnd(s, a);
      var b := TextStart(s, e);
      assert Words(s) == [s[a..e]] + WordsFrom(s, e);
      if b < |s| {
        var e2 := WordEnd(s, b);
        assert WordsFrom(s, e) == [s[b..e2]] + WordsFrom(s, e2);
        assert s[b..][..e2 - b] == s[b..e2];
      }
    }
    SplitFirstWordRest(s);
  }

  lemma SplitFirstWordRest(s: string)
    ensures |SplitFirstWord(s)| == 2 ==>
      var first := SplitFirstWord(s)[0];
      exists i: nat, b: nat :: && SpaceIn(s, 0, i) && i + |first| < b < |s| && s[i..i + |first|] == first
                               && SpaceIn(s, i + |first|, b) && SplitFirstWord(s)[1] == s[b..]
  {
    var a := TextStart(s, 0);
    if a < |s| {
      var e := WordEnd(s, a);
      var b := TextStart(s, e);
      if b < |s| {
        assert SpaceIn(s, 0, a) && a + |s[a..e]| < b < |s| && s[a..a + |s[a..e]|] == s[a..e]
          && SpaceIn(s, a + |s[a..e]|, b) && SplitFirstWord(s)[1] == s[b..];
      }
    }
  }

  /** The characters of `s` that are not whitespace, in order. */
  function NonSpace(s: string): (r: string)
    decreases |s|
  {
    if s == [] then [] else (if IsSpace(s[0]) then [] else [s[0]]) + NonSpace(s[1..])
  }

  /** The words of `s.split()` together hold exactly the non-whitespace characters of `s`, in order. */
  lemma WordsKeepAllText(s: string)
    ensures Concat(Words(s)) == NonSpace(s)
  {
    WordsFromKeepText(s, 0);
    assert s[0..] == s;
  }

  lemma {:induction false} WordsFromKeepText(s: string, i: nat)
    requires i <= |s|
    ensures Concat(WordsFrom(s, i)) == NonSpace(s[i..])
    decreases |s| - i
  {
    var a := TextStart(s, i);
    if a == |s| {
      SpaceRun(s, i, a);
      NonSpaceOfSpace(s[i..]);
    } else {
      var e := WordEnd(s, a);
      KeepTextStep(s, i, a, e);
      WordsFromKeepText(s, e);
      var ws := WordsFrom(s, i);
      assert ws == [s[a..e]] + WordsFrom(s, e);
      assert ws[1..] == WordsFrom(s, e);
    }
  }

  /** A whitespace run then a word: only the word is kept. */
  lemma KeepTextStep(s: string, i: nat, a: nat, e: nat)
    requires i <= a <= e <= |s| && SpaceIn(s, i, a)
    requires forall k :: a <= k < e ==> !IsSpace(s[k])
    ensures NonSpace(s[i..]) == s[a..e] + NonSpace(s[e..])
  {
    var word := s[a..e];
    assert s[i..] == s[i..a] + (word + s[e..]);
    NonSpaceAppend(s[i..a], word + s[e..]);
    SpaceRun(s, i, a);
    NonSpaceOfSpace(s[i..a]);
    NonSpaceAppend(word, s[e..]);
    assert NoSpace(word) by {
      forall m | 0 <= m < |word| ensures !IsSpace(word[m]) {
        assert word[m] == s[a + m];
      }
    }
    NonSpaceOfWord(word);
  }

  function Concat(ws: seq<string>): string {
    if ws == [] then [] else ws[0] + Concat(ws[1..])
  }

  lemma {:induction false} NonSpaceAppend(a: string, b: string)
    ensures NonSpace(a + b) == NonSpace(a) + NonSpace(b)
    decreases |a|
  {
    if a != [] {
      assert (a + b)[1..] == a[1..] + b;
      NonSpaceAppend(a[1..], b);
    } else {
      assert a + b == b;
    }
  }

  lemma {:induction false} NonSpaceOfSpace(s: string)
    requires SpaceIn(s, 0, |s|)
    ensures NonSpace(s) == []
    decreases |s|
  {
    if s != [] {
      assert forall k :: 0 <= k < |s| - 1 ==> s[1..][k] == s[k + 1];
      NonSpaceOfSpace(s[1..]);
    }
  }

  lemma {:induction false} NonSpaceOfWord(s: string)
    requires NoSpace(s)
    ensures NonSpace(s) == s
    decreases |s|
  {
    if s != [] {
      NonSpaceOfWord(s[1..]);
    }
  }
}
