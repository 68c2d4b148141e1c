/**
 * The plain-text contact list of src/contact_list.rs: one contact per line,
 * the last space-separated token the email and the tokens before it the name.
 * Loading fills a map from mailbox to the line it came from and a set of
 * lower-cased emails; the queries read those two fields.
 */
module ContactLists {
  import opened Wrappers
  import opened Text
  import opened Collections
  import opened Mailboxes
  import opened Locations

  /** The line a contact list holds for a mailbox: its name and email separated by one space. */
  function ListLine(m: Mailbox): string {
    match m.name
    case Some(n) => n + " " + m.email
    case None => m.email
  }

  /**
   * One line of the file: trimmed, and blank lines skipped; otherwise the last
   * space-separated token is the email and the tokens before it, joined by
   * single spaces, the name (none when there is only one token).
   */
  function ParseLine(line: string): (r: Option<Mailbox>)
    ensures r.None? <==> Trim(line) == []
    ensures r.Some? ==> ListLine(r.value) == Trim(line)
    ensures r.Some? ==> r.value.email != [] && ' ' !in r.value.email
    ensures r.Some? ==> (r.value.name.None? <==> ' ' !in Trim(line))
  {
    var t := Trim(line);
    if t == [] then None
    else
      var parts := Split(t, ' ');
      SplitPieces(t, ' ');
      var email := parts[|parts| - 1];
      var init := parts[..|parts| - 1];
      assert parts == init + [email];
      var name := if init != [] then Some(Join(init, " ")) else None;
      assert ListLine(Mailbox(name, email)) == t by {
        if init != [] {
          JoinSnoc(init, email, " ");
        }
      }
      assert email != [] by {
        assert t[|t| - 1] != ' ';
      }
      Some(Mailbox(name, email))
  }

  /** A line written as `ListLine` reads back as the same mailbox. */
  lemma ParseListLine(m: Mailbox)
    requires m.email != [] && ' ' !in m.email && !IsWhitespace(m.email[|m.email| - 1])
    requires m.name.Some? ==> m.name.value != [] && !IsWhitespace(m.name.value[0])
    requires m.name.None? ==> !IsWhitespace(m.email[0])
    ensures ParseLine(ListLine(m)) == Some(m)
  {
    var line := ListLine(m);
    TrimTrimmed(line);
    match m.name
    case None =>
    case Some(n) =>
      var parts := Split(n, ' ');
      SplitPieces(n, ' ');
      SplitSnoc(n, ' ', m.email);
      assert Split(line, ' ') == parts + [m.email];
      assert (parts + [m.email])[..|parts|] == parts;
  }

  /** `line_number as u32`: the line index wraps at 2^32. */
  function AsU32(n: nat): (r: nat)
    ensures r < 0x1_0000_0000
    ensures n < 0x1_0000_0000 ==> r == n
  {
    n % 0x1_0000_0000
  }

  /** Every line of the file, parsed. */
  function Parsed(lines: seq<string>): seq<Option<Mailbox>> {
    seq(|lines|, i requires 0 <= i < |lines| => ParseLine(lines[i]))
  }

  /** Parsing is line by line. */
  lemma ParsedAppend(a: seq<string>, b: seq<string>)
    ensures Parsed(a + b) == Parsed(a) + Parsed(b)
  {
    assert forall i :: 0 <= i < |a| ==> (a + b)[i] == a[i];
    assert forall i :: |a| <= i < |a| + |b| ==> (a + b)[i] == b[i - |a|];
  }

  /** What loading leaves in `contact_lines`: each parsed mailbox with the last line it was on. */
  function ContactLines(ps: seq<Option<Mailbox>>): map<Mailbox, nat>
    decreases |ps|
  {
    if ps == [] then map[]
    else
      var prior := ContactLines(ps[..|ps| - 1]);
      match ps[|ps| - 1]
      case None => prior
      case Some(m) => prior[m := AsU32(|ps| - 1)]
  }

  /** What loading leaves in `emails_lower`: every parsed email, lower-cased. */
  function EmailsLower(ps: seq<Option<Mailbox>>): set<string>
    decreases |ps|
  {
    if ps == [] then {}
    else
      var prior := EmailsLower(ps[..|ps| - 1]);
      match ps[|ps| - 1]
      case None => prior
      case Some(m) => prior + {Lower(m.email)}
  }

  /** Line `i` holds `m`, and no later line does. */
  predicate LastLineOf(ps: seq<Option<Mailbox>>, m: Mailbox, i: nat) {
    i < |ps| && ps[i] == Some(m) && forall j :: i < j < |ps| ==> ps[j] != Some(m)
  }

  /** Line `i` holds a contact whose lower-cased email is `e`. */
  predicate LowerEmailAt(ps: seq<Option<Mailbox>>, i: nat, e: string)
    requires i < |ps|
  {
    ps[i].Some? && Lower(ps[i].value.email) == e
  }

  /** The map has a key exactly for the mailboxes some line parses to. */
  lemma {:induction false} ContactLinesKeys(ps: seq<Option<Mailbox>>, m: Mailbox)
    ensures m in ContactLines(ps) <==> Some(m) in ps
    decreases |ps|
  {
    if ps != [] {
      var init := ps[..|ps| - 1];
      ContactLinesKeys(init, m);
      assert ps == init + [ps[|ps| - 1]];
    }
  }

  /** Each key's value is the index, wrapped to 32 bits, of the last line that parses to it. */
  lemma {:induction false} ContactLinesLastLine(ps: seq<Option<Mailbox>>, m: Mailbox)
    requires m in ContactLines(ps)
    ensures exists i: nat :: LastLineOf(ps, m, i) && ContactLines(ps)[m] == AsU32(i)
    decreases |ps|
  {
    var last := |ps| - 1;
    var init := ps[..last];
    if ps[last] == Some(m) {
      assert LastLineOf(ps, m, last);
    } else {
      ContactLinesLastLine(init, m);
      var i: nat :| LastLineOf(init, m, i) && ContactLines(init)[m] == AsU32(i);
      assert LastLineOf(ps, m, i) by {
        forall j | i < j < |ps| ensures ps[j] != Some(m) {
          if j < last {
            assert ps[j] == init[j];
          }
        }
      }
    }
  }

  /** The set holds exactly the lower-cased emails of the parsed lines. */
  lemma {:induction false} EmailsLowerOfLines(ps: seq<Option<Mailbox>>, e: string)
    ensures e in EmailsLower(ps) <==> exists i :: 0 <= i < |ps| && LowerEmailAt(ps, i, e)
    decreases |ps|
  {
    if ps != [] {
      var last := |ps| - 1;
      var init := ps[..last];
      EmailsLowerOfLines(init, e);
      assert EmailsLower(ps) == EmailsLower(init) + (if ps[last].Some? then {Lower(ps[last].value.email)} else {});
      if e in EmailsLower(init) {
        var i :| 0 <= i < |init| && LowerEmailAt(init, i, e);
        assert ps[i] == init[i];
        assert LowerEmailAt(ps, i, e);
      } else if e in EmailsLower(ps) {
        assert LowerEmailAt(ps, last, e);
      }
      if exists i :: 0 <= i < |ps| && LowerEmailAt(ps, i, e) {
        var i :| 0 <= i < |ps| && LowerEmailAt(ps, i, e);
        if i < last {
          assert ps[i] == init[i];
          assert LowerEmailAt(init, i, e);
        }
      }
    }
  }

  /** Whitespace-only lines parse to nothing, so they add nothing. */
  lemma BlankLineSkipped(lines: seq<string>, blank: string)
    requires AllWhitespace(blank)
    ensures ContactLines(Parsed(lines + [blank])) == ContactLines(Parsed(lines))
    ensures EmailsLower(Parsed(lines + [blank])) == EmailsLower(Parsed(lines))
  {
    TrimEmptyIffBlank(blank);
    var ps := Parsed(lines + [blank]);
    assert ps[..|lines|] == Parsed(lines);
    assert ps[|lines|] == None;
  }

  /** A contact's name or email, lower-cased, contains the word (the word itself is not lower-cased). */
  predicate MatchesWord(m: Mailbox, word: string) {
    (m.name.Some? && HasSubstring(Lower(m.name.value), word)) || HasSubstring(Lower(m.email), word)
  }

  class ContactList {
    const path: string
    var contactLines: map<Mailbox, nat>
    var emailsLower: set<string>
    /** The lines of the file as loaded. */
    ghost const lines: seq<string>

    ghost predicate Valid()
      reads this
    {
      contactLines == ContactLines(Parsed(lines)) && emailsLower == EmailsLower(Parsed(lines))
    }

    /** `ContactList::new` with `load_contactlist`, given the file's content. */
    constructor (path: string, content: string)
      ensures this.path == path && lines == Lines(content)
      ensures Valid()
    {
      this.path := path;
      var ls := Lines(content);
      lines := ls;
      var contactLines: map<Mailbox, nat> := map[];
      var emailsLower: set<string> := {};
      for lineNumber := 0 to |ls|
        invariant contactLines == ContactLines(Parsed(ls)[..lineNumber])
        invariant emailsLower == EmailsLower(Parsed(ls)[..lineNumber])
      {
        assert Parsed(ls)[..lineNumber + 1][..lineNumber] == Parsed(ls)[..lineNumber];
        // the trimming, blank-line skipping and splitting of one line
        var parsed := ParseLine(ls[lineNumber]);
        if parsed.None? {
          continue;
        }
        var mbox := parsed.value;
        emailsLower := emailsLower + {Lower(mbox.email)};
        contactLines := contactLines[mbox := AsU32(lineNumber)];
      }
      assert Parsed(ls)[..|ls|] == Parsed(ls);
      this.contactLines := contactLines;
      this.emailsLower := emailsLower;
    }

    /** `render`: a `# name` heading and a blank line when there is a name, then the email as a list item. */
    function Render(m: Mailbox): (r: string)
      ensures m.name.Some? ==> r == "# " + m.name.value + "\n\nEmail:\n- " + m.email
      ensures m.name.None? ==> r == "Email:\n- " + m.email
    {
      var heading := if m.name.Some? then ["# " + m.name.value, ""] else [];
      var lines := heading + ["Email:", "- " + m.email];
      var email := "Email:" + "\n" + ("- " + m.email);
      assert Join(["Email:", "- " + m.email], "\n") == email by {
        assert ["Email:", "- " + m.email][1..] == ["- " + m.email];
      }
      assert email == "Email:\n- " + m.email;
      if m.name.Some? then
        assert lines[1..] == ["", "Email:", "- " + m.email];
        assert lines[1..][1..] == ["Email:", "- " + m.email];
        assert Join(lines, "\n") == "# " + m.name.value + "\n" + ("" + "\n" + email);
        Join(lines, "\n")
      else
        assert lines == ["Email:", "- " + m.email];
        Join(lines, "\n")
    }

    /**
     * `find_matching`: the stored mailboxes whose lower-cased name or email
     * contains `word`, each once, in the map's (unspecified) key order.
     */
    method FindMatching(word: string) returns (r: seq<Mailbox>)
      ensures NoDuplicates(r)
      ensures forall m :: m in r <==> m in contactLines && MatchesWord(m, word)
    {
      r := [];
      var remaining := contactLines.Keys;
      while remaining != {}
        invariant remaining <= contactLines.Keys
        invariant NoDuplicates(r)
        invariant forall m :: m in r <==> m in contactLines && m !in remaining && MatchesWord(m, word)
        decreases remaining
      {
        var m :| m in remaining;
        if MatchesWord(m, word) {
          r := r + [m];
        }
        remaining := remaining - {m};
      }
    }

    /** `contains`: some line's email equals `email` ignoring case. */
    function Contains(email: string): (r: bool)
      reads this
      requires Valid()
      ensures r <==> exists i :: 0 <= i < |lines| && LowerEmailAt(Parsed(lines), i, Lower(email))
    {
      EmailsLowerOfLines(Parsed(lines), Lower(email));
      Lower(email) in emailsLower
    }

    /**
     * `locations`: always exactly one location, in this list's file; it has a
     * line exactly when `m` itself (case-sensitively) was loaded, and then the
     * line is the last one holding `m`.
     */
    function Locations(m: Mailbox): (r: seq<Location>)
      reads this
      requires Valid()
      ensures |r| == 1 && r[0].path == path
      ensures r[0].line.Some? <==> Some(m) in Parsed(lines)
      ensures r[0].line.Some? ==> exists i: nat :: LastLineOf(Parsed(lines), m, i) && r[0].line.value == AsU32(i)
    {
      ContactLinesKeys(Parsed(lines), m);
      if m in contactLines then
        ContactLinesLastLine(Parsed(lines), m);
        [Location(path, Some(contactLines[m]))]
      else
        [Location(path, None)]
    }

    /** `create_contact`: a contact list cannot add contacts; nothing changes. */
    method CreateContact(m: Mailbox) returns (r: Option<string>)
      ensures r.None?
    {
      r := None;
    }
  }
}
