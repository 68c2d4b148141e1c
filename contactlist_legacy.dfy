/**
 * The older contact list of src/contactlist.rs: the same line format as
 * `ContactLists`, but every parsed line is pushed onto a vector, in file
 * order and without deduplication.
 */
module LegacyContactList {
  import opened Wrappers
  import opened Text
  import opened Collections
  import opened Mailboxes
  import opened ContactLists

  /** What loading pushes for the parsed lines `ps`: the contact of each non-blank line, in order. */
  function Contacts(ps: seq<Option<Mailbox>>): seq<Mailbox>
    decreases |ps|
  {
    if ps == [] then []
    else
      var prior := Contacts(ps[..|ps| - 1]);
      match ps[|ps| - 1]
      case None => prior
      case Some(m) => prior + [m]
  }

  /** Loading two stretches of lines yields the contacts of the first followed by those of the second. */
  lemma {:induction false} ContactsAppend(a: seq<Option<Mailbox>>, b: seq<Option<Mailbox>>)
    ensures Contacts(a + b) == Contacts(a) + Contacts(b)
    decreases |b|
  {
    if b == [] {
      assert a + b == a;
    } else {
      var init := b[..|b| - 1];
      ContactsAppend(a, init);
      assert (a + b)[..|a + b| - 1] == a + init;
      assert (a + b)[|a + b| - 1] == b[|b| - 1];
    }
  }

  /** One entry per non-blank line: the contacts number the lines that did not parse to nothing. */
  lemma {:induction false} ContactsCount(ps: seq<Option<Mailbox>>)
    ensures |Contacts(ps)| == |ps| - Count(ps, None)
    decreases |ps|
  {
    if ps != [] {
      var init := ps[..|ps| - 1];
      ContactsCount(init);
      CountSnoc(init, ps[|ps| - 1], None);
      assert init + [ps[|ps| - 1]] == ps;
    }
  }

  /** Every loaded contact is the contact of some line, and every line's contact is loaded. */
  lemma {:induction false} ContactsFromLines(ps: seq<Option<Mailbox>>, m: Mailbox)
    ensures m in Contacts(ps) <==> Some(m) in ps
    decreases |ps|
  {
    if ps != [] {
      var init := ps[..|ps| - 1];
      ContactsFromLines(init, m);
      assert ps == init + [ps[|ps| - 1]];
    }
  }

  /** A contact met twice is pushed twice: nothing is deduplicated. */
  lemma DuplicatesKept(ps: seq<Option<Mailbox>>, m: Mailbox)
    ensures Contacts(ps + [Some(m), Some(m)]) == Contacts(ps) + [m, m]
  {
    assert (ps + [Some(m), Some(m)])[..|ps| + 1] == ps + [Some(m)];
    assert (ps + [Some(m)])[..|ps|] == ps;
  }

  /** A repeated non-blank line yields two equal contacts. */
  lemma DuplicateLinesKept(lines: seq<string>, line: string)
    requires Trim(line) != []
    ensures Contacts(Parsed(lines + [line, line])) == Contacts(Parsed(lines)) + [ParseLine(line).value, ParseLine(line).value]
  {
    var p := ParseLine(line);
    ParsedAppend(lines, [line, line]);
    assert Parsed([line, line]) == [p, p];
    DuplicatesKept(Parsed(lines), p.value);
  }

  /** Whitespace-only lines contribute nothing. */
  lemma BlankLineIgnored(lines: seq<string>, blank: string)
    requires AllWhitespace(blank)
    ensures Contacts(Parsed(lines + [blank])) == Contacts(Parsed(lines))
  {
    TrimEmptyIffBlank(blank);
    ParsedAppend(lines, [blank]);
    assert Parsed([blank]) == [None];
    assert (Parsed(lines) + [None])[..|lines|] == Parsed(lines);
  }

  /** Loading one more line pushes its contact, if it has one. */
  lemma LoadStep(ls: seq<string>, i: nat)
    requires i < |ls|
    ensures ParseLine(ls[i]).None? ==> Contacts(Parsed(ls)[..i + 1]) == Contacts(Parsed(ls)[..i])
    ensures ParseLine(ls[i]).Some? ==> Contacts(Parsed(ls)[..i + 1]) == Contacts(Parsed(ls)[..i]) + [ParseLine(ls[i]).value]
  {
    assert Parsed(ls)[..i + 1][..i] == Parsed(ls)[..i];
  }

  class ContactList {
    const path: string
    var contacts: seq<Mailbox>

    /** `ContactList::new` with `load_contactlist`, given the file's content. */
    constructor (path: string, content: string)
      ensures this.path == path
      ensures contacts == Contacts(Parsed(Lines(content)))
    {
      this.path := path;
      contacts := [];
      new;
      var ls := Lines(content);
      for i := 0 to |ls|
        invariant contacts == Contacts(Parsed(ls)[..i])
      {
        LoadStep(ls, i);
        // the trimming, blank-line skipping and splitting of one line
        var parsed := ParseLine(ls[i]);
        if parsed.None? {
          continue;
        }
        contacts := contacts + [parsed.value];
      }
      assert Parsed(ls)[..|ls|] == Parsed(ls);
    }
  }
}
