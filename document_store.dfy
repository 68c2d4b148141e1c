/**
 * The text bookkeeping of the language server in src/main.rs: turning an
 * editor position (line, character) into an offset in a document's text,
 * applying a batch of edits, finding the word under the cursor, and the
 * position-in-range test. Text is taken to be ASCII, so characters, bytes
 * and editor columns coincide.
 */
module DocumentStore {
  import opened Wrappers
  import opened Text

  /** A 0-based line and a 0-based character within that line. */
  datatype Position = Position(line: nat, character: nat)

  /** From `start` up to, not including, `end`. */
  datatype Range = Range(start: Position, end: Position)

  // ----- positions of offsets -----

  /** The number of line breaks in `s`. */
  function Newlines(s: string): nat
    decreases |s|
  {
    if s == [] then 0 else Newlines(s[..|s| - 1]) + (if s[|s| - 1] == '\n' then 1 else 0)
  }

  /** The number of characters after the last line break of `s` (all of them without one). */
  function Column(s: string): nat
    decreases |s|
  {
    if s == [] then 0 else if s[|s| - 1] == '\n' then 0 else Column(s[..|s| - 1]) + 1
  }

  /** The position of offset `k`: the line and column reached after reading the first `k` characters. */
  function PositionAt(content: string, k: nat): Position
    requires k <= |content|
  {
    Position(Newlines(content[..k]), Column(content[..k]))
  }

  /**
   * Reading on from offset `j` to `k` adds the line breaks in between, and
   * when there are none the column grows by the characters read.
   */
  lemma {:induction false} ReadOn(s: string, j: nat, k: nat)
    requires j <= k <= |s|
    ensures Newlines(s[..j]) <= Newlines(s[..k])
    ensures Newlines(s[..j]) == Newlines(s[..k]) ==> Column(s[..k]) == Column(s[..j]) + (k - j)
    decreases k - j
  {
    if j < k {
      ReadOn(s, j, k - 1);
      assert s[..k][..k - 1] == s[..k - 1];
    }
  }

  /** Reading one more character. */
  lemma ReadOne(s: string, k: nat)
    requires k < |s|
    ensures Newlines(s[..k + 1]) == Newlines(s[..k]) + (if s[k] == '\n' then 1 else 0)
    ensures Column(s[..k + 1]) == if s[k] == '\n' then 0 else Column(s[..k]) + 1
  {
    assert s[..k + 1][..k] == s[..k];
  }

  // ----- resolve_position -----

  /** After reading the first `k` characters, the scan has reached the line and the character of `pos`. */
  predicate Reached(content: string, pos: Position, k: nat)
    requires k <= |content|
  {
    Newlines(content[..k]) >= pos.line && Column(content[..k]) >= pos.character
  }

  /**
   * The first offset from `from` on at which the scan has reached `pos`, or
   * the length of the text when it never does.
   */
  function FirstReached(content: string, pos: Position, from: nat): (r: nat)
    ensures r <= |content|
    ensures from <= |content| ==> from <= r
    ensures forall j :: from <= j < r ==> !Reached(content, pos, j)
    ensures r < |content| ==> Reached(content, pos, r)
    decreases |content| - from
  {
    if from >= |content| then |content|
    else if Reached(content, pos, from) then from
    else FirstReached(content, pos, from + 1)
  }

  /** The conditions above single out one offset. */
  lemma FirstReachedUnique(content: string, pos: Position, from: nat, n: nat)
    requires from <= n <= |content|
    requires forall j :: from <= j < n ==> !Reached(content, pos, j)
    requires n < |content| ==> Reached(content, pos, n)
    ensures FirstReached(content, pos, from) == n
  {
    var r := FirstReached(content, pos, from);
  }

  /**
   * `resolve_position` as written: a character is consumed before the stop
   * test, so the scan stops at the first offset from 1 on that reaches the
   * position.
   */
  function ScanOffset(content: string, pos: Position): (r: nat)
    ensures r <= |content|
    ensures content != [] ==> 1 <= r
  {
    FirstReached(content, pos, 1)
  }

  /** `resolve_position`: count characters, tracking line and column, until both reach the position. */
  method ResolvePositionAsWritten(content: string, pos: Position) returns (count: nat)
    ensures count == ScanOffset(content, pos)
  {
    count := 0;
    var lines := 0;
    var character := 0;
    for i := 0 to |content|
      invariant count == i
      invariant lines == Newlines(content[..i]) && character == Column(content[..i])
      invariant forall j :: 1 <= j <= i ==> !Reached(content, pos, j)
    {
      var c := content[i];
      assert content[..i + 1][..i] == content[..i];
      count := count + 1;
      character := character + 1;
      if c == '\n' {
        lines := lines + 1;
        character := 0;
      }
      if lines >= pos.line && character >= pos.character {
        FirstReachedUnique(content, pos, 1, count);
        return;
      }
    }
    if count >= 1 {
      FirstReachedUnique(content, pos, 1, count);
    }
  }

  /** As written, the start of any non-empty text resolves to offset 1, one past where it is. */
  lemma ScanOffsetOfTextStart(content: string)
    requires content != []
    ensures PositionAt(content, 0) == Position(0, 0)
    ensures ScanOffset(content, Position(0, 0)) == 1
  {
    FirstReachedUnique(content, Position(0, 0), 1, 1);
  }

  /** As written, every offset but the first is found again from its position. */
  lemma ScanOffsetInverts(content: string, k: nat)
    requires 1 <= k <= |content|
    ensures ScanOffset(content, PositionAt(content, k)) == k
  {
    ReachedFirstAt(content, k, 1);
  }

  /** No offset before `k` reaches the position of `k`, and `k` does. */
  lemma ReachedFirstAt(content: string, k: nat, from: nat)
    requires from <= k <= |content|
    ensures FirstReached(content, PositionAt(content, k), from) == k
  {
    var pos := PositionAt(content, k);
    forall j | from <= j < k ensures !Reached(content, pos, j) {
      ReadOn(content, j, k);
    }
    FirstReachedUnique(content, pos, from, k);
  }

  /** As written, line `L` at character 0, for `L >= 1`, lands just past the `L`-th line break. */
  lemma ScanOffsetOfLineStart(content: string, p: nat)
    requires p < |content| && content[p] == '\n'
    ensures ScanOffset(content, Position(Newlines(content[..p + 1]), 0)) == p + 1
  {
    assert content[..p + 1][..p] == content[..p];
    ScanOffsetInverts(content, p + 1);
  }

  /** As written, line 0 at character `c`, with `1 <= c` within the first line, gives `c`. */
  lemma ScanOffsetOnFirstLine(content: string, c: nat)
    requires 1 <= c <= |content| && '\n' !in content[..c]
    ensures ScanOffset(content, Position(0, c)) == c
  {
    NoBreakPosition(content[..c]);
    ScanOffsetInverts(content, c);
  }

  /** Without line breaks, reading `s` stays on line 0 and ends at column `|s|`. */
  lemma {:induction false} NoBreakPosition(s: string)
    requires '\n' !in s
    ensures Newlines(s) == 0 && Column(s) == |s|
    decreases |s|
  {
    if s != [] {
      assert s[|s| - 1] in s;
      NoBreakPosition(s[..|s| - 1]);
    }
  }

  /** `abc\ndef`: (0,2) resolves to 2 and (1,1) to 5. */
  lemma ScanOffsetExample()
    ensures ScanOffset("abc\ndef", Position(0, 2)) == 2
    ensures ScanOffset("abc\ndef", Position(1, 1)) == 5
  {
    var s := "abc\ndef";
    ScanOffsetOnFirstLine(s, 2);
    NoBreakPosition(s[..3]);
    ReadOne(s, 3);
    ReadOne(s, 4);
    ScanOffsetInverts(s, 5);
  }

  /**
   * The offset of a position, testing for it before each character is read:
   * the scan stops at the first offset from 0 on that reaches it.
   */
  function PositionOffset(content: string, pos: Position): (r: nat)
    ensures r <= |content|
    ensures forall k :: 0 <= k <= |content| && pos == PositionAt(content, k) ==> r == k
  {
    forall k | 0 <= k <= |content| && pos == PositionAt(content, k) ensures FirstReached(content, pos, 0) == k {
      ReachedFirstAt(content, k, 0);
    }
    FirstReached(content, pos, 0)
  }

  /** `resolve_position` with its stop test moved before each character is read. */
  method ResolvePosition(content: string, pos: Position) returns (count: nat)
    ensures count == PositionOffset(content, pos)
  {
    count := 0;
    var lines := 0;
    var character := 0;
    for i := 0 to |content|
      invariant count == i
      invariant lines == Newlines(content[..i]) && character == Column(content[..i])
      invariant forall j :: 0 <= j < i ==> !Reached(content, pos, j)
    {
      if lines >= pos.line && character >= pos.character {
        FirstReachedUnique(content, pos, 0, count);
        return;
      }
      var c := content[i];
      assert content[..i + 1][..i] == content[..i];
      count := count + 1;
      character := character + 1;
      if c == '\n' {
        lines := lines + 1;
        character := 0;
      }
    }
    FirstReachedUnique(content, pos, 0, count);
  }

  /** Every offset, the first included, is found again from its position. */
  lemma PositionOffsetInverts(content: string, k: nat)
    requires k <= |content|
    ensures PositionOffset(content, PositionAt(content, k)) == k
  {
  }

  // ----- applying edits -----

  /** One edit: replace the range with the text, or the whole text when there is no range. */
  datatype ContentChange = ContentChange(range: Option<Range>, text: string)

  /**
   * `String::replace_range(start..end, text)`; it panics when the range is
   * reversed, which is the `None` here.
   */
  function Splice(content: string, start: nat, end: nat, text: string): (r: Option<string>)
    requires start <= |content| && end <= |content|
    ensures r.None? <==> end < start
    ensures r.Some? ==> |r.value| == |content| - (end - start) + |text|
    ensures r.Some? ==> r.value[..start] == content[..start]
    ensures r.Some? ==> r.value[start..start + |text|] == text
    ensures r.Some? ==> r.value[start + |text|..] == content[end..]
  {
    if end < start then None else Some(content[..start] + text + content[end..])
  }

  /**
   * One edit of a change notification, against the text as the edits before
   * it left it, with positions resolved by the corrected `PositionOffset`
   * rather than the source's `ScanOffset`.
   */
  function ApplyChange(content: string, ch: ContentChange): Option<string> {
    match ch.range
    case None => Some(ch.text)
    case Some(r) => Splice(content, PositionOffset(content, r.start), PositionOffset(content, r.end), ch.text)
  }

  /** The edits of one notification applied in order, each to the result of the one before. */
  function ApplyChanges(content: string, changes: seq<ContentChange>): Option<string>
    decreases |changes|
  {
    if changes == [] then Some(content)
    else
      match ApplyChanges(content, changes[..|changes| - 1])
      case None => None
      case Some(prior) => ApplyChange(prior, changes[|changes| - 1])
  }

  /** A batch split in two: the second part is applied to the result of the first. */
  lemma {:induction false} ApplyChangesAppend(content: string, a: seq<ContentChange>, b: seq<ContentChange>)
    ensures ApplyChanges(content, a + b) ==
      match ApplyChanges(content, a) case None => None case Some(mid) => ApplyChanges(mid, b)
    decreases |b|
  {
    if b == [] {
      assert a + b == a;
    } else {
      ApplyChangesAppend(content, a, b[..|b| - 1]);
      assert (a + b)[..|a + b| - 1] == a + b[..|b| - 1];
    }
  }

  /** A change without a range discards everything before it in the batch. */
  lemma FullReplaceResets(content: string, a: seq<ContentChange>, text: string, b: seq<ContentChange>)
    requires ApplyChanges(content, a).Some?
    ensures ApplyChanges(content, a + [ContentChange(None, text)] + b) == ApplyChanges(text, b)
  {
    ApplyChangesAppend(content, a + [ContentChange(None, text)], b);
    assert (a + [ContentChange(None, text)])[..|a|] == a;
  }

  /** `abc\ndef` with (0,2)-(1,1) replaced by `X` gives `abXef`. */
  lemma ApplyChangeExample()
    ensures ApplyChanges("abc\ndef", [ContentChange(Some(Range(Position(0, 2), Position(1, 1))), "X")]) == Some("abXef")
  {
    var s := "abc\ndef";
    NoBreakPosition(s[..2]);
    PositionOffsetInverts(s, 2);
    NoBreakPosition(s[..3]);
    ReadOne(s, 3);
    ReadOne(s, 4);
    PositionOffsetInverts(s, 5);
    assert [ContentChange(Some(Range(Position(0, 2), Position(1, 1))), "X")][..0] == [];
    assert s[..2] + "X" + s[5..] == "abXef";
  }

  /** Typing `X` at the very start of `abc`: in front of it, where the scan as written puts it after the `a`. */
  lemma InsertAtTextStart()
    ensures ApplyChange("abc", ContentChange(Some(Range(Position(0, 0), Position(0, 0))), "X")) == Some("Xabc")
    ensures var at := ScanOffset("abc", Position(0, 0)); Splice("abc", at, at, "X") == Some("aXbc")
  {
    PositionOffsetInverts("abc", 0);
    assert "abc"[..0] == [] && "abc"[0..] == "abc";
    assert PositionAt("abc", 0) == Position(0, 0);
    assert PositionOffset("abc", Position(0, 0)) == 0;
    assert "abc"[..0] + "X" + "abc"[0..] == "Xabc";
    ScanOffsetOfTextStart("abc");
    assert "abc"[..1] + "X" + "abc"[1..] == "aXbc";
  }

  // ----- the word under the cursor -----

  /** The characters `get_word_from_line` takes for an email besides letters and digits. */
  function EmailPunctuation(): string { "._%+-@" }

  /** The closure `word_char`: alphanumeric or one of `matchChars`. */
  predicate WordChar(matchChars: string, c: char) {
    IsAlphanumeric(c) || c in matchChars
  }

  /** A character of a word up to the cursor. */
  predicate EmailChar(c: char) {
    WordChar(EmailPunctuation(), c)
  }

  /** A character of a word after the cursor, where spaces are taken too. */
  predicate TailChar(c: char) {
    WordChar(EmailPunctuation() + " ", c)
  }

  lemma TailCharIsEmailCharOrSpace(c: char)
    ensures TailChar(c) <==> EmailChar(c) || c == ' '
  {
    assert c in EmailPunctuation() + " " <==> c in EmailPunctuation() || c == ' ';
  }

  /** Where the run of `EmailChar`s that ends just before `i` starts. */
  function RunStart(line: string, i: nat): (s: nat)
    requires i <= |line|
    ensures s <= i
    decreases i
  {
    if i == 0 || !EmailChar(line[i - 1]) then i else RunStart(line, i - 1)
  }

  /** The run is all email characters, and it cannot be extended to the left. */
  lemma {:induction false} RunStartRun(line: string, i: nat)
    requires i <= |line|
    ensures forall j :: RunStart(line, i) <= j < i ==> EmailChar(line[j])
    ensures RunStart(line, i) == 0 || !EmailChar(line[RunStart(line, i) - 1])
    decreases i
  {
    if i > 0 && EmailChar(line[i - 1]) {
      RunStartRun(line, i - 1);
    }
  }

  /** The first offset from `i` on that is the end of the line or holds a character other than a `TailChar`. */
  function TailEnd(line: string, i: nat): (e: nat)
    requires i <= |line|
    ensures i <= e <= |line|
    decreases |line| - i
  {
    if i == |line| || !TailChar(line[i]) then i else TailEnd(line, i + 1)
  }

  /** The tail is all `TailChar`s and stops at the end of the line or at another character. */
  lemma {:induction false} TailEndRun(line: string, i: nat)
    requires i <= |line|
    ensures forall j :: i <= j < TailEnd(line, i) ==> TailChar(line[j])
    ensures TailEnd(line, i) == |line| || !TailChar(line[TailEnd(line, i)])
    decreases |line| - i
  {
    if i < |line| && TailChar(line[i]) {
      TailEndRun(line, i + 1);
    }
  }

  /**
   * The word at character `k`: nothing when `k` is past the line or on a
   * character that cannot be in an email; otherwise the stretch from the
   * start of the run of email characters through `k`, continued after `k`
   * over email characters and spaces to the next other character.
   */
  function WordAt(line: string, k: nat): Option<string> {
    if k >= |line| || !EmailChar(line[k]) then None
    else Some(line[RunStart(line, k + 1)..TailEnd(line, k + 1)])
  }

  /**
   * `[s, e)` is the maximal stretch around `k`: email characters from `s`
   * through `k`, then email characters and spaces up to `e`, where a stop or
   * the line's end follows.
   */
  predicate WordSpan(line: string, k: nat, s: nat, e: nat) {
    && s <= k < e <= |line|
    && (forall j :: s <= j <= k ==> EmailChar(line[j])) && (s == 0 || !EmailChar(line[s - 1]))
    && (forall j :: k < j < e ==> TailChar(line[j])) && (e == |line| || !TailChar(line[e]))
  }

  /** The word at `k` is the text of the stretch around it, and there is none off a word character. */
  lemma WordAtMeaning(line: string, k: nat)
    ensures WordAt(line, k).None? <==> k >= |line| || !EmailChar(line[k])
    ensures WordAt(line, k).Some? ==> exists s: nat, e: nat :: WordSpan(line, k, s, e) && WordAt(line, k).value == line[s..e]
  {
    if k < |line| && EmailChar(line[k]) {
      var s, e := RunStart(line, k + 1), TailEnd(line, k + 1);
      RunAroundIsSpan(line, k);
      assert WordAt(line, k).value == line[s..e];
    }
  }

  /** The run start and tail end around a word character bound its stretch. */
  lemma RunAroundIsSpan(line: string, k: nat)
    requires k < |line| && EmailChar(line[k])
    ensures WordSpan(line, k, RunStart(line, k + 1), TailEnd(line, k + 1))
  {
    RunStartRun(line, k + 1);
    TailEndRun(line, k + 1);
  }

  /** A word is a non-empty stretch of its line. */
  lemma WordWithinLine(line: string, k: nat)
    ensures WordAt(line, k).Some? ==> WordAt(line, k).value != [] && forall c :: c in WordAt(line, k).value ==> c in line
  {
    if k < |line| && EmailChar(line[k]) {
      var s, e := RunStart(line, k + 1), TailEnd(line, k + 1);
      assert line[s..e][k - s] == line[k];
    }
  }

  /**
   * `get_word_from_line`: one pass over the line gathering the current run of
   * word characters; at the cursor a space joins the word characters.
   */
  method GetWordFromLine(line: string, character: nat) returns (r: Option<string>)
    ensures r == WordAt(line, character)
  {
    var currentWord := "";
    var found := false;
    var matchChars := EmailPunctuation();
    for i := 0 to |line|
      invariant matchChars == if found then EmailPunctuation() + " " else EmailPunctuation()
      invariant Gathered(line, character, i, found, currentWord)
    {
      var done;
      done, r, currentWord, found, matchChars := ReadChar(line, character, i, currentWord, found, matchChars);
      if done {
        return;
      }
    }

    // got to end of line
    GatherEnd(line, character, found, currentWord);
    if found {
      return Some(currentWord);
    }
    return None;
  }

  /**
   * One turn of the loop of `get_word_from_line` on character `i`: either the
   * search is over with the word at the cursor, or the state moves on.
   */
  method ReadChar(line: string, character: nat, i: nat, word: string, found: bool, matchChars: string)
    returns (done: bool, r: Option<string>, word': string, found': bool, matchChars': string)
    requires i < |line| && Gathered(line, character, i, found, word)
    requires matchChars == if found then EmailPunctuation() + " " else EmailPunctuation()
    ensures done ==> r == WordAt(line, character)
    ensures !done ==> Gathered(line, character, i + 1, found', word')
    ensures !done ==> matchChars' == if found' then EmailPunctuation() + " " else EmailPunctuation()
  {
    var c := line[i];
    done, r, word', found', matchChars' := false, None, word, found, matchChars;
    if WordChar(matchChars, c) {
      word' := word + [c];
    } else {
      if found {
        GatherStop(line, character, i, found, word);
        done, r := true, Some(word);
        return;
      }
      word' := "";
    }

    if i == character {
      if WordChar(matchChars, c) {
        matchChars' := matchChars + " ";
        found' := true;
        TailCharIsEmailCharOrSpace(c);
      } else {
        GatherStop(line, character, i, found, word);
        done, r := true, None;
        return;
      }
    }

    if !WordChar(matchChars', c) && found' {
      assert false;
    }
    GatherStep(line, character, i, found, word);
  }

  /**
   * The state of `get_word_from_line` after reading `i` characters: `found`
   * once the cursor is passed, and the word so far is the current run of
   * email characters, or, once found, the run through the cursor continued
   * with email characters and spaces.
   */
  ghost predicate Gathered(line: string, k: nat, i: nat, found: bool, word: string) {
    && i <= |line|
    && (found <==> k < i)
    && (!found ==> word == line[RunStart(line, i)..i])
    && (found ==> EmailChar(line[k]) && word == line[RunStart(line, k + 1)..i])
    && (found ==> forall j :: k < j < i ==> TailChar(line[j]))
  }

  /** A character that ends the word, or that leaves the cursor off a word. */
  lemma GatherStop(line: string, k: nat, i: nat, found: bool, word: string)
    requires i < |line| && Gathered(line, k, i, found, word)
    ensures found && !TailChar(line[i]) ==> WordAt(line, k) == Some(word)
    ensures !found && i == k && !EmailChar(line[i]) ==> WordAt(line, k) == None
  {
    if found && !TailChar(line[i]) {
      TailEndAt(line, k + 1, i);
    }
  }

  /** A character that continues the word, or starts or resets the run before the cursor. */
  lemma GatherStep(line: string, k: nat, i: nat, found: bool, word: string)
    requires i < |line| && Gathered(line, k, i, found, word)
    ensures found && TailChar(line[i]) ==> Gathered(line, k, i + 1, true, word + [line[i]])
    ensures !found && EmailChar(line[i]) ==> Gathered(line, k, i + 1, i == k, word + [line[i]])
    ensures !found && !EmailChar(line[i]) && i != k ==> Gathered(line, k, i + 1, false, [])
  {
    var c := line[i];
    if found && TailChar(c) {
      var from := RunStart(line, k + 1);
      assert line[from..i + 1] == line[from..i] + [c];
    } else if !found && EmailChar(c) {
      var from := RunStart(line, i);
      assert line[from..i + 1] == line[from..i] + [c];
    }
  }

  /** At the end of the line the word runs to the end, if the cursor was passed at all. */
  lemma GatherEnd(line: string, k: nat, found: bool, word: string)
    requires Gathered(line, k, |line|, found, word)
    ensures found ==> WordAt(line, k) == Some(word)
    ensures !found ==> WordAt(line, k) == None
  {
    if found {
      TailEndAt(line, k + 1, |line|);
    }
  }

  /** `TailEnd` from `i` is the first stop at or after `i`. */
  lemma {:induction false} TailEndAt(line: string, i: nat, e: nat)
    requires i <= e <= |line|
    requires forall j :: i <= j < e ==> TailChar(line[j])
    requires e == |line| || !TailChar(line[e])
    ensures TailEnd(line, i) == e
    decreases e - i
  {
    if i < e {
      TailEndAt(line, i + 1, e);
    }
  }

  /**
   * `get_word_from_content`: the word at `character` on line `line` of the
   * text, nothing when the text has fewer lines.
   */
  function WordFromContent(content: string, line: nat, character: nat): (r: Option<string>)
    ensures line >= |Lines(content)| ==> r.None?
    ensures line < |Lines(content)| ==> r == WordAt(Lines(content)[line], character)
    ensures r.Some? ==> r.value != [] && '\n' !in r.value
  {
    var ls := Lines(content);
    if line < |ls| then
      WordWithinLine(ls[line], character);
      WordAt(ls[line], character)
    else None
  }

  // ----- in_range -----

  /** Lexicographic order on positions: by line, then by character. */
  predicate Precedes(a: Position, b: Position) {
    a.line < b.line || (a.line == b.line && a.character < b.character)
  }

  /** `in_range`: the position is at or after the start and strictly before the end. */
  function InRange(r: Range, p: Position): (b: bool)
    ensures b <==> !Precedes(p, r.start) && Precedes(p, r.end)
  {
    (r.start.line < p.line || (r.start.line == p.line && r.start.character <= p.character))
    && (r.end.line > p.line || (r.end.line == p.line && r.end.character > p.character))
  }

  /** The start of a range is in it exactly when the range is not empty; the end never is. */
  lemma RangeEnds(r: Range)
    ensures InRange(r, r.start) <==> Precedes(r.start, r.end)
    ensures !InRange(r, r.end)
  {
  }
}
