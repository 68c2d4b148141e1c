/**
 * The parts of Rust's `str` and `char` API that the contact engine relies on:
 * trimming, splitting, joining, line iteration, lower-casing and substring
 * search. Text is a sequence of `char`; lower-casing and the alphanumeric test
 * are the ASCII restrictions of Rust's Unicode-aware originals.
 */
module Text {
  import opened Wrappers

  /** `char::is_whitespace`: the Unicode White_Space property. */
  predicate IsWhitespace(c: char) {
    || c == ' '
    || ('\t' <= c <= '\r')
    || c == '\U{85}' || c == '\U{A0}' || c == '\U{1680}'
    || ('\U{2000}' <= c <= '\U{200A}')
    || c == '\U{2028}' || c == '\U{2029}' || c == '\U{202F}' || c == '\U{205F}' || c == '\U{3000}'
  }

  predicate AllWhitespace(s: string) {
    forall i :: 0 <= i < |s| ==> IsWhitespace(s[i])
  }

  predicate AllEqual(s: string, c: char) {
    forall i :: 0 <= i < |s| ==> s[i] == c
  }

  /** `str::trim_start`: drop the leading whitespace and nothing else. */
  function TrimStart(s: string): (r: string)
    ensures r == [] || !IsWhitespace(r[0])
  {
    if s == [] || !IsWhitespace(s[0]) then s else TrimStart(s[1..])
  }

  /** `str::trim_end`: drop the trailing whitespace and nothing else. */
  function TrimEnd(s: string): (r: string)
    ensures r == [] || !IsWhitespace(r[|r| - 1])
  {
    if s == [] || !IsWhitespace(s[|s| - 1]) then s else TrimEnd(s[..|s| - 1])
  }

  /** `TrimStart` keeps a suffix, and what it removes is whitespace. */
  lemma {:induction false} TrimStartSuffix(s: string)
    ensures |TrimStart(s)| <= |s| && TrimStart(s) == s[|s| - |TrimStart(s)|..]
    ensures AllWhitespace(s[..|s| - |TrimStart(s)|])
    decreases |s|
  {
    if s != [] && IsWhitespace(s[0]) {
      TrimStartSuffix(s[1..]);
      var r := TrimStart(s);
      assert s[..|s| - |r|] == [s[0]] + s[1..][..|s| - 1 - |r|];
    }
  }

  /** `TrimEnd` keeps a prefix, and what it removes is whitespace. */
  lemma {:induction false} TrimEndPrefix(s: string)
    ensures |TrimEnd(s)| <= |s| && TrimEnd(s) == s[..|TrimEnd(s)|]
    ensures AllWhitespace(s[|TrimEnd(s)|..])
    decreases |s|
  {
    if s != [] && IsWhitespace(s[|s| - 1]) {
      TrimEndPrefix(s[..|s| - 1]);
      var r := TrimEnd(s);
      assert s[|r|..] == s[..|s| - 1][|r|..] + [s[|s| - 1]];
    }
  }

  /** Neither end of `s` is whitespace. */
  predicate IsTrimmed(s: string) {
    s == [] || (!IsWhitespace(s[0]) && !IsWhitespace(s[|s| - 1]))
  }

  /** `str::trim` */
  function Trim(s: string): (r: string)
    ensures IsTrimmed(r)
  {
    var front := TrimStart(s);
    var r := TrimEnd(front);
    TrimEndPrefix(front);
    assert r != [] ==> r[0] == front[0];
    r
  }

  /** `trim` leaves trimmed text alone. */
  lemma TrimTrimmed(s: string)
    requires IsTrimmed(s)
    ensures Trim(s) == s
  {
    assert TrimStart(s) == s;
    assert TrimEnd(s) == s;
  }

  /** `trim` leaves nothing exactly when the text is blank. */
  lemma TrimEmptyIffBlank(s: string)
    ensures Trim(s) == [] <==> AllWhitespace(s)
  {
    var front := TrimStart(s);
    TrimStartSuffix(s);
    TrimEndPrefix(front);
    if Trim(s) == [] {
      assert front[|Trim(s)|..] == front;
      assert s == s[..|s| - |front|] + front;
    }
  }

  /** `str::trim_start_matches(c)`: drop every leading `c`. */
  function TrimStartMatches(s: string, c: char): (r: string)
    ensures r == [] || r[0] != c
  {
    if s == [] || s[0] != c then s else TrimStartMatches(s[1..], c)
  }

  /** `str::trim_end_matches(c)`: drop every trailing `c`. */
  function TrimEndMatches(s: string, c: char): (r: string)
    ensures r == [] || r[|r| - 1] != c
  {
    if s == [] || s[|s| - 1] != c then s else TrimEndMatches(s[..|s| - 1], c)
  }

  /** `TrimStartMatches` keeps a suffix, and what it removes is copies of `c`. */
  lemma {:induction false} TrimStartMatchesSuffix(s: string, c: char)
    ensures |TrimStartMatches(s, c)| <= |s| && TrimStartMatches(s, c) == s[|s| - |TrimStartMatches(s, c)|..]
    ensures AllEqual(s[..|s| - |TrimStartMatches(s, c)|], c)
    decreases |s|
  {
    if s != [] && s[0] == c {
      TrimStartMatchesSuffix(s[1..], c);
      var r := TrimStartMatches(s, c);
      assert s[..|s| - |r|] == [s[0]] + s[1..][..|s| - 1 - |r|];
    }
  }

  /** `TrimEndMatches` keeps a prefix, and what it removes is copies of `c`. */
  lemma {:induction false} TrimEndMatchesPrefix(s: string, c: char)
    ensures |TrimEndMatches(s, c)| <= |s| && TrimEndMatches(s, c) == s[..|TrimEndMatches(s, c)|]
    ensures AllEqual(s[|TrimEndMatches(s, c)|..], c)
    decreases |s|
  {
    if s != [] && s[|s| - 1] == c {
      TrimEndMatchesPrefix(s[..|s| - 1], c);
      var r := TrimEndMatches(s, c);
      assert s[|r|..] == s[..|s| - 1][|r|..] + [s[|s| - 1]];
    }
  }

  /** `pat` occurs in `s` starting at index `i`. */
  predicate OccursAt(s: string, pat: string, i: nat) {
    i + |pat| <= |s| && s[i..i + |pat|] == pat
  }

  /** `str::contains` with a string pattern. */
  predicate HasSubstring(s: string, pat: string) {
    exists i: nat :: i + |pat| <= |s| && OccursAt(s, pat, i)
  }

  /** The first occurrence of `pat` in `s` at or after `from`. */
  function FindFrom(s: string, pat: string, from: nat): (r: Option<nat>)
    requires from <= |s|
    ensures r.Some? ==> from <= r.value && OccursAt(s, pat, r.value)
    ensures r.Some? ==> forall j: nat :: from <= j < r.value ==> !OccursAt(s, pat, j)
    ensures r.None? ==> forall j: nat :: from <= j ==> !OccursAt(s, pat, j)
    decreases |s| - from
  {
    if from + |pat| > |s| then None
    else if OccursAt(s, pat, from) then Some(from)
    else
      FindFrom(s, pat, from + 1)
  }

  /** `str::split_once`: the text before and after the FIRST occurrence of `pat`. */
  function SplitOnce(s: string, pat: string): (r: Option<(string, string)>)
    ensures r.Some? ==> s == r.value.0 + pat + r.value.1
    ensures r.Some? ==> forall j: nat :: j < |r.value.0| ==> !OccursAt(s, pat, j)
    ensures r.None? <==> !HasSubstring(s, pat)
  {
    match FindFrom(s, pat, 0)
    case None => None
    case Some(k) =>
      assert s == s[..k] + s[k..k + |pat|] + s[k + |pat|..];
      Some((s[..k], s[k + |pat|..]))
  }

  /** `split_once` cuts at a given occurrence when no earlier one exists. */
  lemma SplitAtFirst(s: string, pat: string, a: string, b: string)
    requires s == a + pat + b
    requires forall j: nat :: j < |a| ==> !OccursAt(s, pat, j)
    ensures SplitOnce(s, pat) == Some((a, b))
  {
    assert OccursAt(s, pat, |a|) by { assert s[|a|..|a| + |pat|] == pat; }
    var (x, y) := SplitOnce(s, pat).value;
    assert OccursAt(s, pat, |x|) by { assert s[|x|..|x| + |pat|] == pat; }
    assert |x| == |a|;
    assert x == s[..|x|] && a == s[..|a|];
    assert y == s[|x| + |pat|..] && b == s[|a| + |pat|..];
  }

  /** The index of the first `c` in `s`. */
  function IndexOf(s: string, c: char): (k: nat)
    requires c in s
    ensures k < |s| && s[k] == c && c !in s[..k]
  {
    if s[0] == c then 0
    else
      var k := IndexOf(s[1..], c);
      assert s[..k + 1] == [s[0]] + s[1..][..k];
      k + 1
  }

  /** `[String]::join(sep)` */
  function Join(parts: seq<string>, sep: string): string {
    if parts == [] then []
    else if |parts| == 1 then parts[0]
    else parts[0] + sep + Join(parts[1..], sep)
  }

  /** The index of the last `c` in `s`. */
  function LastIndexOf(s: string, c: char): (k: nat)
    requires c in s
    ensures k < |s| && s[k] == c && c !in s[k + 1..]
    decreases |s|
  {
    var last := |s| - 1;
    if s[last] == c then last
    else
      assert s == s[..last] + [s[last]];
      assert c in s[..last];
      var k := LastIndexOf(s[..last], c);
      assert s[k + 1..] == s[..last][k + 1..] + [s[last]];
      k
  }

  /** The last `c` is at `k` when `k` holds `c` and nothing after it does. */
  lemma {:induction false} LastIndexOfAt(s: string, c: char, k: nat)
    requires k < |s| && s[k] == c && c !in s[k + 1..]
    ensures LastIndexOf(s, c) == k
    decreases |s|
  {
    var last := |s| - 1;
    if k < last {
      assert s[k + 1..] == s[..last][k + 1..] + [s[last]];
      LastIndexOfAt(s[..last], c, k);
    }
  }

  /**
   * `str::split(c)` collected into a vector: the pieces between the `c`s,
   * never none. Defined from the last separator, the one the source's
   * callers remove.
   */
  function Split(s: string, c: char): (parts: seq<string>)
    ensures |parts| >= 1
    decreases |s|
  {
    if c !in s then [s]
    else
      var k := LastIndexOf(s, c);
      Split(s[..k], c) + [s[k + 1..]]
  }

  /** The pieces of a split hold no separator, and joining them with it rebuilds the text. */
  lemma {:induction false} SplitPieces(s: string, c: char)
    ensures forall k :: 0 <= k < |Split(s, c)| ==> c !in Split(s, c)[k]
    ensures Join(Split(s, c), [c]) == s
    decreases |s|
  {
    if c in s {
      var k := LastIndexOf(s, c);
      var init := Split(s[..k], c);
      SplitPieces(s[..k], c);
      JoinSnoc(init, s[k + 1..], [c]);
      assert s == s[..k] + [c] + s[k + 1..];
    }
  }

  /** Splitting `a + [c] + b`, where `b` holds no `c`, ends with the piece `b`. */
  lemma SplitSnoc(a: string, c: char, b: string)
    requires c !in b
    ensures Split(a + [c] + b, c) == Split(a, c) + [b]
  {
    var s := a + [c] + b;
    assert s[|a|] == c;
    assert s[|a| + 1..] == b;
    LastIndexOfAt(s, c, |a|);
    assert s[..|a|] == a;
  }

  /** Splitting a join of pieces free of the separator gives the pieces back. */
  lemma {:induction false} SplitJoin(parts: seq<string>, c: char)
    requires parts != []
    requires forall k :: 0 <= k < |parts| ==> c !in parts[k]
    ensures Split(Join(parts, [c]), c) == parts
    decreases |parts|
  {
    if |parts| > 1 {
      var init := parts[..|parts| - 1];
      SplitJoin(init, c);
      JoinSnoc(init, parts[|parts| - 1], [c]);
      assert init + [parts[|parts| - 1]] == parts;
      SplitSnoc(Join(init, [c]), c, parts[|parts| - 1]);
    }
  }

  lemma {:induction false} JoinSnoc(parts: seq<string>, last: string, sep: string)
    requires parts != []
    ensures Join(parts + [last], sep) == Join(parts, sep) + sep + last
    decreases |parts|
  {
    if |parts| == 1 {
      assert parts + [last] == [parts[0], last];
      assert [parts[0], last][1..] == [last];
    } else {
      assert (parts + [last])[1..] == parts[1..] + [last];
      JoinSnoc(parts[1..], last, sep);
    }
  }

  /** Joining two non-empty lists of parts puts one separator between their joins. */
  lemma {:induction false} JoinAppend(p: seq<string>, q: seq<string>, sep: string)
    requires p != [] && q != []
    ensures Join(p + q, sep) == Join(p, sep) + sep + Join(q, sep)
    decreases |p|
  {
    assert (p + q)[0] == p[0] && (p + q)[1..] == p[1..] + q;
    if |p| > 1 {
      JoinAppend(p[1..], q, sep);
    }
  }

  /** A joined string is at least as long as each of its parts. */
  lemma {:induction false} JoinLength(parts: seq<string>, sep: string, k: nat)
    requires k < |parts|
    ensures |Join(parts, sep)| >= |parts[k]|
    decreases |parts|
  {
    if k > 0 {
      JoinLength(parts[1..], sep, k - 1);
    }
  }

  /** ASCII `char::to_lowercase`. */
  function LowerChar(c: char): char {
    if 'A' <= c <= 'Z' then (c as int + 32) as char else c
  }

  /**
   * ASCII `str::to_lowercase`: no capital is left, a capital moves to its
   * lower-case letter 32 code points up, and every other character stays.
   */
  function Lower(s: string): (r: string)
    ensures |r| == |s|
    ensures forall i :: 0 <= i < |r| ==> !('A' <= r[i] <= 'Z')
    ensures forall i :: 0 <= i < |s| && 'A' <= s[i] <= 'Z' ==> r[i] as int == s[i] as int + 32
    ensures forall i :: 0 <= i < |s| && !('A' <= s[i] <= 'Z') ==> r[i] == s[i]
  {
    seq(|s|, i requires 0 <= i < |s| => LowerChar(s[i]))
  }

  /** Lower-casing twice is lower-casing once. */
  lemma LowerIdempotent(s: string)
    ensures Lower(Lower(s)) == Lower(s)
  {
  }

  /** ASCII `char::is_alphanumeric`. */
  predicate IsAlphanumeric(c: char) {
    ('a' <= c <= 'z') || ('A' <= c <= 'Z') || ('0' <= c <= '9')
  }

  /** What `str::lines` does to one line: drop a '\r' that stood before its '\n'. */
  function StripCarriageReturn(line: string): string {
    if line != [] && line[|line| - 1] == '\r' then line[..|line| - 1] else line
  }

  /**
   * `str::lines`: split at each '\n', dropping a '\r' just before it; a final
   * '\n' does not start another, empty line.
   */
  function Lines(s: string): (ls: seq<string>)
    ensures forall k :: 0 <= k < |ls| ==> '\n' !in ls[k]
    decreases |s|
  {
    if s == [] then []
    else if '\n' !in s then [s]
    else
      var k := IndexOf(s, '\n');
      [StripCarriageReturn(s[..k])] + Lines(s[k + 1..])
  }
}
