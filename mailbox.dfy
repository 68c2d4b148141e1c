/**
 * The mailbox value type of src/mailbox.rs: an optional display name and an
 * email address; its `Display` rendering, its `FromStr` parsing, and the pick,
 * among the matches of the mailbox pattern on a line, of the one under the
 * cursor. The older copy of the type in src/main.rs renders the same way and
 * parses with a different separator (`ParseOlder`).
 */
module Mailboxes {
  import opened Wrappers
  import opened Text

  datatype Mailbox = Mailbox(name: Option<string>, email: string)

  // ----- `{:?}` on a string: Rust's `char::escape_debug`, ASCII and C1 part -----

  function HexDigit(d: nat): char
    requires d < 16
  {
    if d < 10 then ('0' as int + d) as char else ('a' as int + d - 10) as char
  }

  /** Lower-case hexadecimal without leading zeros, as in `\u{1b}`. */
  function Hex(n: nat): string {
    if n < 16 then [HexDigit(n)] else Hex(n / 16) + [HexDigit(n % 16)]
  }

  predicate IsControl(c: char) {
    c < ' ' || ('\U{7F}' <= c <= '\U{9F}')
  }

  function EscapeChar(c: char): string {
    if c == '\0' then "\\0"
    else if c == '\t' then "\\t"
    else if c == '\r' then "\\r"
    else if c == '\n' then "\\n"
    else if c == '"' then "\\\""
    else if c == '\\' then "\\\\"
    else if IsControl(c) then "\\u{" + Hex(c as nat) + "}"
    else [c]
  }

  function EscapeDebug(s: string): string {
    if s == [] then [] else EscapeChar(s[0]) + EscapeDebug(s[1..])
  }

  /** A character `{:?}` writes as itself. */
  predicate Unescaped(c: char) {
    c != '"' && c != '\\' && !IsControl(c)
  }

  predicate IsPlainText(s: string) {
    forall i :: 0 <= i < |s| ==> Unescaped(s[i])
  }

  lemma {:induction false} EscapeDebugPlain(s: string)
    requires IsPlainText(s)
    ensures EscapeDebug(s) == s
    decreases |s|
  {
    if s != [] {
      EscapeDebugPlain(s[1..]);
      assert EscapeChar(s[0]) == [s[0]];
    }
  }

  // ----- Display -----

  /** `impl Display for Mailbox`: `{:?} <email>` with a name, the bare email without. */
  function Render(m: Mailbox): string {
    match m.name
    case Some(name) => "\"" + EscapeDebug(name) + "\" <" + m.email + ">"
    case None => m.email
  }

  /** A name with nothing to escape is rendered between plain double quotes. */
  lemma RenderPlainName(name: string, email: string)
    requires IsPlainText(name)
    ensures Render(Mailbox(Some(name), email)) == "\"" + name + "\" <" + email + ">"
    ensures Render(Mailbox(None, email)) == email
  {
    EscapeDebugPlain(name);
  }

  // ----- FromStr -----

  /**
   * `impl FromStr for Mailbox` in src/mailbox.rs: split at the first `" <"`;
   * the name is trimmed and unquoted, the email trimmed and stripped of
   * trailing '>'. Without `" <"` the whole text is a bare email. Never fails.
   */
  function Parse(s: string): (r: Result<Mailbox, string>)
    ensures r.Ok?
    ensures !HasSubstring(s, " <") ==> r.value == Mailbox(None, s)
    ensures HasSubstring(s, " <") ==> r.value.name.Some?
    ensures HasSubstring(s, " <") ==> IsTrimmed(r.value.name.value)
    ensures HasSubstring(s, " <") ==> var e := r.value.email; e == [] || e[|e| - 1] != '>'
  {
    match SplitOnce(s, " <")
    case Some((name, email)) => Ok(Mailbox(Some(CleanName(name)), CleanEmail(email)))
    case None => Ok(Mailbox(None, s))
  }

  /** The name as `from_str` cleans it: trimmed, unquoted, trimmed again. */
  function CleanName(text: string): (n: string)
    ensures IsTrimmed(n)
  {
    Trim(TrimEndMatches(TrimStartMatches(Trim(text), '"'), '"'))
  }

  /** The email as `from_str` cleans it: trimmed, then stripped of trailing '>'. */
  function CleanEmail(text: string): (e: string)
    ensures e == [] || e[|e| - 1] != '>'
  {
    TrimEndMatches(Trim(text), '>')
  }

  /** When `Parse(Render(m))` gives `m` back. */
  predicate RoundTrips(m: Mailbox) {
    match m.name
    case Some(n) =>
      && IsPlainText(n)
      && !HasSubstring(n, " <")
      && IsTrimmed(n)
      && (m.email == [] || (!IsWhitespace(m.email[0]) && m.email[|m.email| - 1] != '>'))
    case None => !HasSubstring(m.email, " <")
  }

  /** The first `" <"` in `"name" <email>` is the one after the closing quote. */
  lemma FirstSeparatorAfterName(n: string, rest: string)
    requires IsPlainText(n) && !HasSubstring(n, " <")
    ensures forall j: nat :: j < |n| + 2 ==> !OccursAt("\"" + n + "\"" + rest, " <", j)
  {
    var s := "\"" + n + "\"" + rest;
    forall j: nat | j < |n| + 2
      ensures !OccursAt(s, " <", j)
    {
      if j + 2 <= |s| {
        if j == 0 {
          assert s[0] == '"';
        } else if j < |n| {
          assert s[j] == n[j - 1] && s[j + 1] == n[j];
          assert !OccursAt(n, " <", j - 1);
          assert n[j - 1..j + 1] == [n[j - 1], n[j]];
        } else if j == |n| {
          assert s[j + 1] == '"';
        } else {
          assert s[j] == '"';
        }
        assert s[j..j + 2] == [s[j], s[j + 1]];
      }
    }
  }

  /** A separator whose '<' is missing from the text before it is the first one. */
  lemma NoEarlierSeparator(a: string, b: string)
    requires '<' !in a
    ensures forall j: nat :: j < |a| ==> !OccursAt(a + " <" + b, " <", j)
  {
    var s := a + " <" + b;
    forall j: nat | j < |a|
      ensures !OccursAt(s, " <", j)
    {
      if j + 2 <= |s| {
        assert s[j..j + 2][1] == s[j + 1];
        if j + 1 < |a| {
          assert s[j + 1] == a[j + 1];
        } else {
          assert s[j + 1] == ' ';
        }
      }
    }
  }

  /** `CleanName` drops one pair of quotes around a name and trims what they held. */
  lemma UnquoteQuoted(n: string)
    requires n == [] || (n[0] != '"' && n[|n| - 1] != '"')
    ensures CleanName("\"" + n + "\"") == Trim(n)
  {
    var q := "\"" + n + "\"";
    assert q[0] == '"' && q[|q| - 1] == '"';
    TrimTrimmed(q);
    assert q[1..] == n + "\"";
    if n == [] {
      assert q[1..][1..] == [];
      assert TrimStartMatches(q[1..], '"') == [];
      assert TrimStartMatches(q, '"') == [];
    } else {
      assert TrimStartMatches(n + "\"", '"') == n + "\"";
      assert (n + "\"")[..|n|] == n;
      assert TrimEndMatches(n + "\"", '"') == n;
    }
  }

  /** `Parse` takes `email>` back to the email when it has no leading space and no trailing '>'. */
  lemma StripBracket(e: string)
    requires e == [] || (!IsWhitespace(e[0]) && e[|e| - 1] != '>')
    ensures CleanEmail(e + ">") == e
  {
    var t := e + ">";
    assert TrimStart(t) == t;
    assert TrimEnd(t) == t;
    assert t[..|t| - 1] == e;
    assert TrimEndMatches(e, '>') == e;
  }

  /** `from_str(to_string(m)) == m` for a mailbox whose name and email survive the trimming. */
  lemma RoundTrip(m: Mailbox)
    requires RoundTrips(m)
    ensures Parse(Render(m)) == Ok(m)
  {
    match m.name
    case None =>
    case Some(n) =>
      RoundTripTrimsName(n, m.email);
  }

  /**
   * For a plain name, rendering then parsing gives the name back trimmed: the
   * round trip holds exactly when the name has no surrounding whitespace.
   */
  lemma RoundTripTrimsName(n: string, e: string)
    requires IsPlainText(n) && !HasSubstring(n, " <")
    requires e == [] || (!IsWhitespace(e[0]) && e[|e| - 1] != '>')
    ensures Parse(Render(Mailbox(Some(n), e))) == Ok(Mailbox(Some(Trim(n)), e))
    ensures Parse(Render(Mailbox(Some(n), e))) == Ok(Mailbox(Some(n), e)) <==> IsTrimmed(n)
  {
    RenderPlainName(n, e);
    ParseQuoted(n, e);
    if IsTrimmed(n) {
      TrimTrimmed(n);
    }
  }

  /** `Parse` reads `"name" <email>` back, trimming the name, when the name is plain and holds no `" <"`. */
  lemma ParseQuoted(n: string, e: string)
    requires IsPlainText(n) && !HasSubstring(n, " <")
    requires e == [] || (!IsWhitespace(e[0]) && e[|e| - 1] != '>')
    ensures Parse("\"" + n + "\" <" + e + ">") == Ok(Mailbox(Some(Trim(n)), e))
  {
    var head, tail := "\"" + n + "\"", e + ">";
    var s := "\"" + n + "\" <" + e + ">";
    assert s == head + " <" + tail;
    FirstSeparatorAfterName(n, " <" + tail);
    assert head + (" <" + tail) == s;
    SplitAtFirst(s, " <", head, tail);
    assert n == [] || (Unescaped(n[0]) && Unescaped(n[|n| - 1]));
    UnquoteQuoted(n);
    StripBracket(e);
  }

  /** The unquoted form `name <email>` parses too, when the name holds no '<'. */
  lemma ParseBareName(n: string, e: string)
    requires '<' !in n && IsTrimmed(n) && (n == [] || (n[0] != '"' && n[|n| - 1] != '"'))
    requires e == [] || (!IsWhitespace(e[0]) && e[|e| - 1] != '>')
    ensures Parse(n + " <" + e + ">") == Ok(Mailbox(Some(n), e))
  {
    var s := n + " <" + e + ">";
    assert s == n + " <" + (e + ">");
    NoEarlierSeparator(n, e + ">");
    SplitAtFirst(s, " <", n, e + ">");
    TrimTrimmed(n);
    assert TrimStartMatches(n, '"') == n;
    assert TrimEndMatches(n, '"') == n;
    StripBracket(e);
  }

  /** Text without '<' holds no `" <"`. */
  lemma NoSeparatorWithoutBracket(n: string)
    requires '<' !in n
    ensures !HasSubstring(n, " <")
  {
    forall j: nat | j + 2 <= |n|
      ensures !OccursAt(n, " <", j)
    {
      assert n[j..j + 2][1] == n[j + 1];
    }
  }

  /**
   * The older `impl FromStr for Mailbox` in src/main.rs: split at the first
   * quote-space-bracket, strip leading quotes from the name and trailing '>'
   * from the email, trim nothing.
   */
  function ParseOlder(s: string): (r: Result<Mailbox, string>)
    ensures r.Ok?
    ensures !HasSubstring(s, "\" <") ==> r.value == Mailbox(None, s)
    ensures HasSubstring(s, "\" <") ==> r.value.name.Some?
    ensures HasSubstring(s, "\" <") ==> var n := r.value.name.value; n == [] || n[0] != '"'
  {
    match SplitOnce(s, "\" <")
    case Some((name, email)) => Ok(Mailbox(Some(TrimStartMatches(name, '"')), TrimEndMatches(email, '>')))
    case None => Ok(Mailbox(None, s))
  }

  /** When `ParseOlder(Render(m))` gives `m` back: surrounding whitespace is kept here. */
  predicate OlderRoundTrips(m: Mailbox) {
    match m.name
    case Some(n) =>
      && IsPlainText(n)
      && !(|n| >= 2 && n[0] == ' ' && n[1] == '<')
      && (m.email == [] || m.email[|m.email| - 1] != '>')
    case None => !HasSubstring(m.email, "\" <")
  }

  lemma OlderRoundTrip(m: Mailbox)
    requires OlderRoundTrips(m)
    ensures ParseOlder(Render(m)) == Ok(m)
  {
    match m.name
    case None =>
    case Some(n) =>
      RenderPlainName(n, m.email);
      ParseOlderQuoted(n, m.email);
  }

  /** `ParseOlder` reads `"name" <email>` back when the name is plain and does not start with a space and '<'. */
  lemma ParseOlderQuoted(n: string, e: string)
    requires IsPlainText(n) && !(|n| >= 2 && n[0] == ' ' && n[1] == '<')
    requires e == [] || e[|e| - 1] != '>'
    ensures ParseOlder("\"" + n + "\" <" + e + ">") == Ok(Mailbox(Some(n), e))
  {
    var head, tail := "\"" + n, e + ">";
    var s := "\"" + n + "\" <" + e + ">";
    assert s == head + "\" <" + tail;
    FirstQuoteSeparatorAfterName(n, tail);
    SplitAtFirst(s, "\" <", head, tail);
    assert head[1..] == n;
    assert n == [] || n[0] != '"' by {
      if n != [] { assert Unescaped(n[0]); }
    }
    assert TrimStartMatches(head, '"') == n;
    assert tail[..|tail| - 1] == e;
    assert TrimEndMatches(tail, '>') == e;
  }

  /** The first quote-space-bracket in `"name" <email>` follows the name, unless the name starts with a space and '<'. */
  lemma FirstQuoteSeparatorAfterName(n: string, tail: string)
    requires IsPlainText(n) && !(|n| >= 2 && n[0] == ' ' && n[1] == '<')
    ensures forall j: nat :: j < |n| + 1 ==> !OccursAt("\"" + n + "\" <" + tail, "\" <", j)
  {
    var s := "\"" + n + "\" <" + tail;
    forall j: nat | j < |n| + 1
      ensures !OccursAt(s, "\" <", j)
    {
      if j + 3 <= |s| {
        if j == 0 {
          if |n| >= 2 {
            assert s[1] == n[0] && s[2] == n[1];
          } else if |n| == 1 {
            assert s[2] == '"';
          } else {
            assert s[1] == '"';
          }
        } else {
          assert s[j] == n[j - 1];
        }
        assert s[j..j + 3] == [s[j], s[j + 1], s[j + 2]];
      }
    }
  }

  /** A name that starts with a space and '<' is cut at its opening quote by the older parser. */
  lemma OlderRoundTripNeedsNameNotStartingWithSeparator()
    ensures ParseOlder(Render(Mailbox(Some(" <a"), "e"))) == Ok(Mailbox(Some(""), "a\" <e"))
  {
    RenderSpaceAngleName();
    OlderCutsAtFirstQuote();
  }

  lemma RenderSpaceAngleName()
    ensures Render(Mailbox(Some(" <a"), "e")) == "\" <a\" <e>"
  {
    EscapeDebugPlain(" <a");
  }

  lemma OlderCutsAtFirstQuote()
    ensures ParseOlder("\" <a\" <e>") == Ok(Mailbox(Some(""), "a\" <e"))
  {
    var s := "\" <a\" <e>";
    assert s == "" + "\" <" + "a\" <e>";
    SplitAtFirst(s, "\" <", "", "a\" <e>");
    assert "a\" <e>"[..5] == "a\" <e";
    assert TrimEndMatches("a\" <e>", '>') == "a\" <e";
  }

  // ----- The mailbox under the cursor -----

  /** One capture group of a pattern match: its offsets in the line and its text. */
  datatype Span = Span(start: nat, end: nat, text: string)

  /** One match of the mailbox pattern: its optional `name` and `email` groups. */
  datatype Captures = Captures(name: Option<Span>, email: Option<Span>)

  predicate SpanOf(line: string, sp: Span) {
    sp.start <= sp.end <= |line| && sp.text == line[sp.start..sp.end]
  }

  /**
   * What the pattern (src/mailbox.rs:6-11) reports for `line`: every match has
   * an email group, both groups lie in the line and carry its text, the name
   * precedes the email, and the matches come left to right without overlap.
   */
  predicate MatchesOf(line: string, ms: seq<Captures>) {
    && (forall k :: 0 <= k < |ms| ==>
          && ms[k].email.Some? && SpanOf(line, ms[k].email.value)
          && (ms[k].name.Some? ==> SpanOf(line, ms[k].name.value) && ms[k].name.value.end <= ms[k].email.value.start))
    && (forall k :: 0 < k < |ms| ==> ms[k - 1].email.value.end <= MatchStart(ms[k]).value)
  }

  /** Where a match begins for anchoring: its name group, else its email group. */
  function MatchStart(c: Captures): Option<nat> {
    if c.name.Some? then Some(c.name.value.start)
    else if c.email.Some? then Some(c.email.value.start)
    else None
  }

  /** Where a match ends for anchoring: its email group (a closing '>' does not count). */
  function MatchEnd(c: Captures): Option<nat> {
    if c.email.Some? then Some(c.email.value.end)
    else if c.name.Some? then Some(c.name.value.end)
    else None
  }

  /** The cursor lies on the match, both ends included. */
  predicate Covers(c: Captures, character: nat) {
    && MatchStart(c).Some? && MatchStart(c).value <= character
    && MatchEnd(c).Some? && character <= MatchEnd(c).value
  }

  /**
   * The mailbox a match stands for: the name trimmed and stripped of quotes,
   * the email trimmed (empty when the match has no email group).
   */
  function MailboxOf(c: Captures): (m: Mailbox)
    ensures m.name.Some? <==> c.name.Some?
    ensures m.name.Some? ==> var n := m.name.value; n == [] || (n[0] != '"' && n[|n| - 1] != '"')
    ensures IsTrimmed(m.email)
    ensures c.email.None? ==> m.email == []
  {
    Mailbox(if c.name.Some? then Some(Unquote(c.name.value.text)) else None, TrimmedEmail(c.email))
  }

  /** The email group's text, trimmed; empty when the match has none. */
  function TrimmedEmail(email: Option<Span>): (e: string)
    ensures IsTrimmed(e)
    ensures email.None? ==> e == []
  {
    if email.Some? then Trim(email.value.text) else []
  }

  /** The name as a match reports it: trimmed, then stripped of quotes at both ends. */
  function Unquote(text: string): (n: string)
    ensures n == [] || (n[0] != '"' && n[|n| - 1] != '"')
  {
    var front := TrimStartMatches(Trim(text), '"');
    var n := TrimEndMatches(front, '"');
    TrimEndMatchesPrefix(front, '"');
    assert n != [] ==> n[0] == front[0];
    n
  }

  /** The first match, left to right, that covers the cursor. */
  function SelectAnchored(ms: seq<Captures>, character: nat): (r: Option<Mailbox>)
    ensures r.None? <==> forall k :: 0 <= k < |ms| ==> !Covers(ms[k], character)
    ensures r.Some? ==> exists k :: 0 <= k < |ms| && Covers(ms[k], character) && r.value == MailboxOf(ms[k])
                                    && forall j :: 0 <= j < k ==> !Covers(ms[j], character)
    decreases |ms|
  {
    if ms == [] then None
    else if Covers(ms[0], character) then Some(MailboxOf(ms[0]))
    else
      assert forall k :: 0 < k < |ms| ==> ms[k] == ms[1..][k - 1];
      SelectAnchored(ms[1..], character)
  }

  /**
   * `Mailbox::from_line_at`: walk the pattern's matches on the line in order
   * and return the first whose span contains the cursor.
   */
  method FromLineAt(matches: seq<Captures>, character: nat) returns (mailbox: Option<Mailbox>)
    ensures mailbox == SelectAnchored(matches, character)
  {
    mailbox := None;
    for k := 0 to |matches|
      invariant SelectAnchored(matches, character) == SelectAnchored(matches[k..], character)
    {
      var captures := matches[k];
      var start: Option<nat> := None;
      var end: Option<nat> := None;
      var mbox := Mailbox(None, []);
      if captures.name.Some? {
        var name := captures.name.value;
        start := Some(name.start);
        end := Some(name.end);
        mbox := mbox.(name := Some(Unquote(name.text)));
      }
      if captures.email.Some? {
        var email := captures.email.value;
        if start.None? {
          start := Some(email.start);
        }
        end := Some(email.end);
        mbox := mbox.(email := Trim(email.text));
      }
      assert matches[k..][1..] == matches[k + 1..];
      if start.Some? && start.value <= character && end.Some? && character <= end.value {
        mailbox := Some(mbox);
        break;
      }
    }
  }

  // ----- The cases of src/mailbox.rs:97-163 -----

  function FirstLast(): Mailbox { Mailbox(Some("First Last"), "first.last@test.com") }

  /** `First Last <first.last@test.com>` */
  function BareLine(): string { "First Last " + "<" + "first.last@test.com" + ">" }
  /** The one match the pattern finds on `BareLine()`. */
  function BareMatches(): seq<Captures> {
    [Captures(Some(Span(0, 11, "First Last ")), Some(Span(12, 31, "first.last@test.com")))]
  }

  /** `"First Last" <first.last@test.com>` */
  function QuotedLine(): string { "\"First Last\"" + " <" + "first.last@test.com" + ">" }
  function QuotedMatches(): seq<Captures> {
    [Captures(Some(Span(0, 12, "\"First Last\"")), Some(Span(14, 33, "first.last@test.com")))]
  }

  /** `Other words before "First Last" <first.last@test.com> and other words after` */
  function ContextLine(): string { "Other words before " + QuotedLine() + " and other words after" }
  function ContextMatches(): seq<Captures> {
    [Captures(Some(Span(19, 31, "\"First Last\"")), Some(Span(33, 52, "first.last@test.com")))]
  }

  /** The `from_str` case: the bare form parses... */
  lemma ParseBareForm()
    ensures Parse(BareLine()) == Ok(FirstLast())
  {
    var name, email := "First Last", "first.last@test.com";
    assert BareLine() == name + " <" + email + ">";
    ParseBareName(name, email);
  }

  /** ...and the mailbox survives rendering and parsing. */
  lemma FirstLastRoundTrips()
    ensures Parse(Render(FirstLast())) == Ok(FirstLast())
  {
    NoSeparatorWithoutBracket("First Last");
    RoundTrip(FirstLast());
  }

  lemma BareMatchesFitLine()
    ensures MatchesOf(BareLine(), BareMatches())
  {
    assert BareLine()[..11] == "First Last ";
    assert BareLine()[12..31] == "first.last@test.com";
  }

  lemma QuotedMatchesFitLine()
    ensures MatchesOf(QuotedLine(), QuotedMatches())
  {
    assert QuotedLine()[..12] == "\"First Last\"";
    assert QuotedLine()[14..33] == "first.last@test.com";
  }

  lemma ContextMatchesFitLine()
    ensures MatchesOf(ContextLine(), ContextMatches())
  {
    assert ContextLine()[19..31] == "\"First Last\"";
    assert ContextLine()[33..52] == "first.last@test.com";
  }

  /** Every cursor offset of the bare line anchors on First Last. */
  lemma AnchorsAcrossBareLine(character: nat)
    requires character < |BareLine()|
    ensures SelectAnchored(BareMatches(), character) == Some(FirstLast())
  {
    assert Trim("First Last ") == "First Last" by {
      assert TrimStart("First Last ") == "First Last ";
      assert "First Last "[..10] == "First Last";
      assert TrimEnd("First Last ") == "First Last";
    }
    assert TrimStartMatches("First Last", '"') == "First Last";
    assert TrimEndMatches("First Last", '"') == "First Last";
    TrimTrimmed("first.last@test.com");
  }

  /** Every cursor offset of the quoted line anchors on First Last. */
  lemma AnchorsAcrossQuotedLine(character: nat)
    requires character < |QuotedLine()|
    ensures SelectAnchored(QuotedMatches(), character) == Some(FirstLast())
  {
    QuotedNameUnquotes();
  }

  /** Offsets 19 to 52 of the line with context anchor on First Last. */
  lemma AnchorsInsideContextLine(character: nat)
    requires 19 <= character <= 52
    ensures SelectAnchored(ContextMatches(), character) == Some(FirstLast())
  {
    QuotedNameUnquotes();
  }

  lemma QuotedNameUnquotes()
    ensures MailboxOf(QuotedMatches()[0]) == FirstLast()
    ensures MailboxOf(ContextMatches()[0]) == FirstLast()
  {
    var q := "\"First Last\"";
    TrimTrimmed(q);
    assert q[1..] == "First Last\"";
    assert TrimStartMatches(q, '"') == "First Last\"";
    assert "First Last\""[..10] == "First Last";
    assert TrimEndMatches("First Last\"", '"') == "First Last";
    TrimTrimmed("first.last@test.com");
  }
}
