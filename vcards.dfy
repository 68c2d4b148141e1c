/**
 * The vCard contact source of src/vcards.rs. Each `.vcf` file holds a list of
 * cards; the files are kept in a map ordered by path, here a list of entries
 * strictly sorted by path. A card is abstracted to the four properties the
 * source reads: formatted names, nicknames, emails and telephone numbers.
 */
module VCards {
  import opened Wrappers
  import opened Text
  import opened Collections
  import opened Mailboxes
  import opened Locations

  /** A property value with the first of its TYPE parameters, if any. */
  datatype Property = Property(value: string, typ: Option<string>)

  datatype Vcard = Vcard(formattedName: seq<string>, nickname: seq<string>, email: seq<Property>, tel: seq<Property>)

  /** One file and the cards it holds. */
  datatype Entry = Entry(path: string, cards: seq<Vcard>)

  // ----- the map ordered by path -----

  /** Lexicographic order on paths, character by character. */
  predicate Before(a: string, b: string)
    decreases |a|
  {
    b != [] && (a == [] || if a[0] == b[0] then Before(a[1..], b[1..]) else a[0] < b[0])
  }

  lemma {:induction false} BeforeIrreflexive(a: string)
    ensures !Before(a, a)
    decreases |a|
  {
    if a != [] {
      BeforeIrreflexive(a[1..]);
    }
  }

  lemma {:induction false} BeforeTotal(a: string, b: string)
    ensures a == b || Before(a, b) || Before(b, a)
    decreases |a|
  {
    if a != [] && b != [] && a[0] == b[0] {
      BeforeTotal(a[1..], b[1..]);
      if a[1..] == b[1..] {
        assert a == [a[0]] + a[1..] && b == [b[0]] + b[1..];
      }
    }
  }

  lemma {:induction false} BeforeTransitive(a: string, b: string, c: string)
    requires Before(a, b) && Before(b, c)
    ensures Before(a, c)
    decreases |a|
  {
    if a != [] && a[0] == b[0] && b[0] == c[0] {
      BeforeTransitive(a[1..], b[1..], c[1..]);
    }
  }

  predicate SortedPaths(es: seq<Entry>) {
    forall i, j :: 0 <= i < j < |es| ==> Before(es[i].path, es[j].path)
  }

  /** `BTreeMap::get`. */
  function Lookup(es: seq<Entry>, path: string): (r: Option<seq<Vcard>>)
    ensures r.Some? ==> exists i :: 0 <= i < |es| && es[i].path == path && es[i].cards == r.value
    ensures r.None? ==> forall i :: 0 <= i < |es| ==> es[i].path != path
    decreases |es|
  {
    if es == [] then None
    else if es[0].path == path then Some(es[0].cards)
    else Lookup(es[1..], path)
  }

  /** In a sorted map, a path's cards are those of the one entry with that path. */
  lemma LookupSorted(es: seq<Entry>, i: nat)
    requires SortedPaths(es) && i < |es|
    ensures Lookup(es, es[i].path) == Some(es[i].cards)
  {
    var r := Lookup(es, es[i].path);
    var j :| 0 <= j < |es| && es[j].path == es[i].path && es[j].cards == r.value;
    if j != i {
      BeforeIrreflexive(es[i].path);
    }
  }

  /** `BTreeMap::insert`: the entry for `path` is replaced or added in order. */
  function Put(es: seq<Entry>, path: string, cards: seq<Vcard>): (r: seq<Entry>)
    requires SortedPaths(es)
    ensures SortedPaths(r)
    ensures forall i :: 0 <= i < |r| ==> r[i] == Entry(path, cards) || r[i] in es
    decreases |es|
  {
    if es == [] then [Entry(path, cards)]
    else if es[0].path == path then [Entry(path, cards)] + es[1..]
    else if Before(path, es[0].path) then
      assert forall j :: 0 < j < |es| ==> Before(path, es[j].path) by {
        forall j | 0 < j < |es| ensures Before(path, es[j].path) {
          BeforeTransitive(path, es[0].path, es[j].path);
        }
      }
      [Entry(path, cards)] + es
    else
      var rest := Put(es[1..], path, cards);
      BeforeTotal(path, es[0].path);
      assert forall i :: 0 <= i < |rest| ==> Before(es[0].path, rest[i].path) by {
        forall i | 0 <= i < |rest| ensures Before(es[0].path, rest[i].path) {
          if rest[i] != Entry(path, cards) {
            var j :| 0 <= j < |es[1..]| && es[1..][j] == rest[i];
          }
        }
      }
      [es[0]] + rest
  }

  /** After insertion the path holds the new cards and every other path what it held. */
  lemma {:induction false} PutLookup(es: seq<Entry>, path: string, cards: seq<Vcard>, p: string)
    requires SortedPaths(es)
    ensures Lookup(Put(es, path, cards), p) == if p == path then Some(cards) else Lookup(es, p)
    decreases |es|
  {
    if es != [] {
      var r := Put(es, path, cards);
      if es[0].path == path {
        assert r[1..] == es[1..];
      } else if Before(path, es[0].path) {
        assert r[1..] == es;
      } else {
        PutLookup(es[1..], path, cards, p);
        assert r[1..] == Put(es[1..], path, cards);
      }
    }
  }

  /** The cards of all files, files in path order and cards in file order. */
  function AllCards(es: seq<Entry>): (r: seq<Vcard>)
    ensures forall vc :: vc in r <==> exists i :: 0 <= i < |es| && vc in es[i].cards
  {
    var css := seq(|es|, i requires 0 <= i < |es| => es[i].cards);
    assert forall i :: 0 <= i < |es| ==> css[i] == es[i].cards;
    Flatten(css)
  }

  // ----- single cards -----

  /** `match_vcard`: a lower-cased email, formatted name or nickname of the card contains `word`. */
  predicate MatchVcard(vc: Vcard, word: string) {
    (exists e :: e in vc.email && HasSubstring(Lower(e.value), word))
    || (exists n :: n in vc.formattedName && HasSubstring(Lower(n), word))
    || (exists n :: n in vc.nickname && HasSubstring(Lower(n), word))
  }

  /** The card's first formatted name, if it has one. */
  function FirstName(vc: Vcard): Option<string> {
    if vc.formattedName == [] then None else Some(vc.formattedName[0])
  }

  /** `mailboxes_for_vcard`: one mailbox per email, each named by the card's first formatted name. */
  function MailboxesForVcard(vc: Vcard): (r: seq<Mailbox>)
    ensures |r| == |vc.email|
    ensures forall i :: 0 <= i < |r| ==> r[i].email == vc.email[i].value
    ensures forall m: Mailbox :: m in r <==> m.name == FirstName(vc) && exists e :: e in vc.email && e.value == m.email
  {
    var r := seq(|vc.email|, i requires 0 <= i < |vc.email| => Mailbox(FirstName(vc), vc.email[i].value));
    assert forall m: Mailbox :: m.name == FirstName(vc) && (exists e :: e in vc.email && e.value == m.email) ==> m in r by {
      forall m: Mailbox | m.name == FirstName(vc) && (exists e :: e in vc.email && e.value == m.email) ensures m in r {
        var e :| e in vc.email && e.value == m.email;
        var i :| 0 <= i < |vc.email| && vc.email[i] == e;
        assert r[i] == m;
      }
    }
    r
  }

  /** The card has an email equal to `email` ignoring case. */
  predicate HasEmail(vc: Vcard, email: string) {
    exists e :: e in vc.email && Lower(e.value) == Lower(email)
  }

  /**
   * The filter of `get_by_mailbox` and `locations`: the card has the
   * mailbox's email and, when the mailbox is named, that formatted name,
   * both ignoring case.
   */
  predicate HoldsMailbox(vc: Vcard, m: Mailbox) {
    HasEmail(vc, m.email)
    && (m.name.None? || exists f :: f in vc.formattedName && Lower(f) == Lower(m.name.value))
  }

  /** `locations`' filter on a file: one of its cards holds the mailbox. */
  predicate FileHolds(e: Entry, m: Mailbox) {
    exists vc :: vc in e.cards && HoldsMailbox(vc, m)
  }

  // ----- rendering one card -----

  /** A `- ` list item, prefixed with `type: ` when the property has a type. */
  function ItemLine(p: Property): string {
    "- " + (match p.typ case Some(t) => t + ": " case None => "") + p.value
  }

  /** The item line of each property, in order. */
  function ItemLines(ps: seq<Property>): seq<string> {
    seq(|ps|, i requires 0 <= i < |ps| => ItemLine(ps[i]))
  }

  /** A titled list followed by a blank line, or nothing for no items. */
  function Section(title: string, ps: seq<Property>): seq<string> {
    if ps == [] then [] else [title] + ItemLines(ps) + [""]
  }

  /**
   * The lines `render_vcard` joins: a `# name` heading from the first formatted
   * name, an `_nick_` line from the first nickname, then the Email and
   * Telephone sections, each heading followed by a blank line.
   */
  function VcardLines(vc: Vcard): seq<string> {
    HeadLines(vc) + Section("Email:", vc.email) + Section("Telephone:", vc.tel)
  }

  /** The name heading and the nickname line, each followed by a blank line. */
  function HeadLines(vc: Vcard): seq<string> {
    (if vc.formattedName == [] then [] else ["# " + vc.formattedName[0], ""])
    + (if vc.nickname == [] then [] else ["_" + vc.nickname[0] + "_", ""])
  }

  lemma ItemLineStart(p: Property)
    ensures |ItemLine(p)| >= 2 && ItemLine(p)[0] == '-' && ItemLine(p)[1] == ' '
  {
    var tail := (match p.typ case Some(t) => t + ": " case None => "") + p.value;
    assert ItemLine(p) == "- " + tail;
  }

  /** A line that opens a `# name` heading. */
  predicate IsHeading(line: string) {
    |line| >= 2 && line[0] == '#' && line[1] == ' '
  }

  /** Every line of a section is its title, an item starting `- `, or the closing blank line. */
  lemma SectionLine(title: string, ps: seq<Property>, k: nat)
    requires k < |Section(title, ps)|
    ensures var line := Section(title, ps)[k]; line == title || line == [] || line[0] == '-'
  {
    if 0 < k < |ps| + 1 {
      assert Section(title, ps)[k] == ItemLine(ps[k - 1]);
      ItemLineStart(ps[k - 1]);
    }
  }

  /** A heading is the first line exactly when the card has a formatted name, and it is the first name. */
  lemma HeadingOnlyWithName(vc: Vcard)
    ensures vc.formattedName != [] ==> VcardLines(vc)[0] == "# " + vc.formattedName[0]
    ensures vc.formattedName == [] ==> forall k :: 0 <= k < |VcardLines(vc)| ==> !IsHeading(VcardLines(vc)[k])
  {
    var lines := VcardLines(vc);
    if vc.formattedName == [] {
      var head := HeadLines(vc);
      var email := Section("Email:", vc.email);
      var tel := Section("Telephone:", vc.tel);
      forall k | 0 <= k < |lines| ensures !IsHeading(lines[k]) {
        if k < |head| {
          assert lines[k] == head[k];
          assert lines[k] == [] || lines[k][0] == '_';
        } else if k < |head| + |email| {
          assert lines[k] == email[k - |head|];
          SectionLine("Email:", vc.email, k - |head|);
        } else {
          assert lines[k] == tel[k - |head| - |email|];
          SectionLine("Telephone:", vc.tel, k - |head| - |email|);
        }
      }
    }
  }

  /** A non-empty line that starts with neither `#` nor `_` is not among the name and nickname lines. */
  lemma NotInHead(vc: Vcard, line: string)
    requires line != [] && line[0] != '#' && line[0] != '_'
    ensures line !in HeadLines(vc)
  {
    forall k | 0 <= k < |HeadLines(vc)| ensures HeadLines(vc)[k] != line {
      assert HeadLines(vc)[k] == [] || HeadLines(vc)[k][0] == '#' || HeadLines(vc)[k][0] == '_';
    }
  }

  /** A non-empty line other than the title that does not start with `-` is not in a section. */
  lemma NotInSection(title: string, ps: seq<Property>, line: string)
    requires line != [] && line != title && line[0] != '-'
    ensures line !in Section(title, ps)
  {
    forall k | 0 <= k < |Section(title, ps)| ensures Section(title, ps)[k] != line {
      SectionLine(title, ps, k);
    }
  }

  /** An `Email:` heading appears exactly when the card has emails. */
  lemma EmailSectionOnlyWithEmails(vc: Vcard)
    ensures "Email:" in VcardLines(vc) <==> vc.email != []
  {
    if vc.email != [] {
      EmailItemsInOrder(vc);
    } else {
      NoEmailHeading(vc);
    }
  }

  lemma NoEmailHeading(vc: Vcard)
    requires vc.email == []
    ensures "Email:" !in VcardLines(vc)
  {
    assert VcardLines(vc) == HeadLines(vc) + Section("Telephone:", vc.tel);
    NotInHead(vc, "Email:");
    NotInSection("Telephone:", vc.tel, "Email:");
  }

  /** After the name and nickname lines come the `Email:` heading and one item per email, in order. */
  lemma EmailItemsInOrder(vc: Vcard)
    requires vc.email != []
    ensures VcardLines(vc)[|HeadLines(vc)|] == "Email:"
    ensures forall i :: 0 <= i < |vc.email| ==> VcardLines(vc)[|HeadLines(vc)| + 1 + i] == ItemLine(vc.email[i])
  {
    var h := |HeadLines(vc)|;
    var email := Section("Email:", vc.email);
    assert VcardLines(vc)[h..h + |email|] == email;
  }

  /** A card with an email never renders to the empty string. */
  lemma RenderedCardNotEmpty(vc: Vcard)
    requires vc.email != []
    ensures Join(VcardLines(vc), "\n") != []
  {
    EmailItemsInOrder(vc);
    JoinLength(VcardLines(vc), "\n", |HeadLines(vc)|);
  }

  /** `render_vcard`: the lines are pushed one by one, each item line built up piece by piece. */
  method RenderVcard(vc: Vcard) returns (r: string)
    ensures r == Join(VcardLines(vc), "\n")
  {
    var lines: seq<string> := [];
    if vc.formattedName != [] {
      lines := lines + ["# " + vc.formattedName[0]];
      lines := lines + [""];
    }
    if vc.nickname != [] {
      lines := lines + ["_" + vc.nickname[0] + "_"];
      lines := lines + [""];
    }
    assert lines == HeadLines(vc);
    lines := PushSection(lines, "Email:", vc.email);
    lines := PushSection(lines, "Telephone:", vc.tel);
    r := Join(lines, "\n");
  }

  /** The body shared by the Email and Telephone blocks of `render_vcard`. */
  method PushSection(lines: seq<string>, title: string, ps: seq<Property>) returns (r: seq<string>)
    ensures r == lines + Section(title, ps)
  {
    r := lines;
    if ps != [] {
      var items: seq<string> := [];
      for i := 0 to |ps|
        invariant items == ItemLines(ps)[..i]
      {
        var line := PushItem(ps[i]);
        ItemLinesStep(ps, i);
        items := items + [line];
      }
      assert items == ItemLines(ps);
      r := r + [title] + items + [""];
    }
  }

  lemma ItemLinesStep(ps: seq<Property>, i: nat)
    requires i < |ps|
    ensures ItemLines(ps)[..i + 1] == ItemLines(ps)[..i] + [ItemLine(ps[i])]
  {
  }

  /** One item line of `render_vcard`, built up piece by piece. */
  method PushItem(p: Property) returns (line: string)
    ensures line == ItemLine(p)
  {
    line := "- ";
    if p.typ.Some? {
      line := line + p.typ.value;
      line := line + ": ";
    }
    line := line + p.value;
  }

  /** `render_vcard` of each card, in order. */
  function Renderings(cards: seq<Vcard>): seq<string> {
    seq(|cards|, i requires 0 <= i < |cards| => Join(VcardLines(cards[i]), "\n"))
  }

  /**
   * The renderings of `cards` separated by blank lines: nothing for no cards,
   * a card's own rendering for one, and never empty when the first card has
   * an email.
   */
  function RenderCards(cards: seq<Vcard>): (r: string)
    ensures cards == [] ==> r == []
    ensures |cards| == 1 ==> r == Join(VcardLines(cards[0]), "\n")
    ensures cards != [] && cards[0].email != [] ==> r != []
  {
    if cards != [] && cards[0].email != [] then
      RenderedCardNotEmpty(cards[0]);
      JoinLength(Renderings(cards), "\n\n", 0);
      Join(Renderings(cards), "\n\n")
    else Join(Renderings(cards), "\n\n")
  }

  /** The rendering of two lists of cards is theirs with a blank line between. */
  lemma RenderCardsAppend(a: seq<Vcard>, b: seq<Vcard>)
    requires a != [] && b != []
    ensures RenderCards(a + b) == RenderCards(a) + "\n\n" + RenderCards(b)
  {
    RenderingsAppend(a, b);
    JoinAppend(Renderings(a), Renderings(b), "\n\n");
  }

  lemma RenderingsAppend(a: seq<Vcard>, b: seq<Vcard>)
    ensures Renderings(a + b) == Renderings(a) + Renderings(b)
  {
  }

  /** What `create_contact` builds: a card named `m.name` (or the empty name) holding `m.email`. */
  function NewCard(m: Mailbox): Vcard {
    Vcard([m.name.GetOr("")], [], [Property(m.email, None)], [])
  }

  /**
   * What loading leaves at path `p`: the cards of the files at `p` that parsed,
   * in order, or nothing when none did.
   */
  function LoadedCards(files: seq<(string, Option<seq<Vcard>>)>, p: string): Option<seq<Vcard>>
    decreases |files|
  {
    if files == [] then None
    else
      var prior := LoadedCards(files[..|files| - 1], p);
      var (path, parsed) := files[|files| - 1];
      if path == p && parsed.Some? then Some(prior.GetOr([]) + parsed.value) else prior
  }

  /** A path is loaded exactly when some file at that path parsed. */
  lemma {:induction false} LoadedCardsPresent(files: seq<(string, Option<seq<Vcard>>)>, p: string)
    ensures LoadedCards(files, p).Some? <==> exists i :: 0 <= i < |files| && files[i].0 == p && files[i].1.Some?
    decreases |files|
  {
    if files != [] {
      var init := files[..|files| - 1];
      LoadedCardsPresent(init, p);
      assert forall i :: 0 <= i < |init| ==> init[i] == files[i];
    }
  }

  /**
   * `load_vcards`, given each file's parse result in directory order (`None`
   * for a file that failed to parse and is skipped): the map starts empty and
   * a file's cards extend those already held for its path.
   */
  method LoadVcards(files: seq<(string, Option<seq<Vcard>>)>) returns (es: seq<Entry>)
    ensures SortedPaths(es)
    ensures forall p :: Lookup(es, p) == LoadedCards(files, p)
  {
    es := [];
    for i := 0 to |files|
      invariant SortedPaths(es)
      invariant forall p :: Lookup(es, p) == LoadedCards(files[..i], p)
    {
      assert files[..i + 1][..i] == files[..i];
      var (path, parsed) := files[i];
      match parsed {
        case Some(cards) =>
          var merged := Lookup(es, path).GetOr([]) + cards;
          forall p ensures Lookup(Put(es, path, merged), p) == if p == path then Some(merged) else Lookup(es, p) {
            PutLookup(es, path, merged, p);
          }
          es := Put(es, path, merged);
        case None =>
      }
    }
    assert files[..|files|] == files;
  }

  class VCards {
    const root: string
    var vcards: seq<Entry>

    ghost predicate Valid()
      reads this
    {
      SortedPaths(vcards)
    }

    /** `VCards::new`: the cards loaded from the files under `root`. */
    constructor (root: string, files: seq<(string, Option<seq<Vcard>>)>)
      ensures this.root == root
      ensures Valid()
      ensures forall p :: Lookup(vcards, p) == LoadedCards(files, p)
    {
      this.root := root;
      var es := LoadVcards(files);
      vcards := es;
    }

    /** `get_by_mailbox`: the cards, in map order, holding the mailbox. */
    function GetByMailbox(m: Mailbox): (r: seq<Vcard>)
      reads this
      ensures forall vc :: vc in r <==> HoldsMailbox(vc, m) && exists i :: 0 <= i < |vcards| && vc in vcards[i].cards
    {
      Filter(AllCards(vcards), vc => HoldsMailbox(vc, m))
    }

    /**
     * `render`: the renderings of the cards holding the mailbox, separated by
     * blank lines; nothing exactly when no card holds it, and one card's
     * rendering when only one does.
     */
    function Render(m: Mailbox): (r: string)
      reads this
      ensures r == RenderCards(GetByMailbox(m))
      ensures r == [] <==> GetByMailbox(m) == []
      ensures |GetByMailbox(m)| == 1 ==> r == Join(VcardLines(GetByMailbox(m)[0]), "\n")
    {
      var cards := GetByMailbox(m);
      if cards != [] then
        assert cards[0] in cards;
        RenderCards(cards)
      else RenderCards(cards)
    }

    /**
     * `find_matching`: every mailbox of every matching card, once, in the order
     * first met going through the files in path order and their cards in order.
     */
    function FindMatching(word: string): (r: seq<Mailbox>)
      reads this
      ensures NoDuplicates(r)
      ensures forall m :: m in r <==> FromMatchingCard(vcards, word, m)
      ensures forall m :: m in r <==> m in Candidates(vcards, word)
      ensures forall i, j :: 0 <= i < j < |r| ==> FirstIndex(Candidates(vcards, word), r[i]) < FirstIndex(Candidates(vcards, word), r[j])
    {
      Unique(Candidates(vcards, word))
    }

    /** `contains`: some card of some file has an email equal to `email` ignoring case. */
    function Contains(email: string): (r: bool)
      reads this
      ensures r <==> exists i :: 0 <= i < |vcards| && exists vc :: vc in vcards[i].cards && HasEmail(vc, email)
    {
      exists vc :: vc in AllCards(vcards) && HasEmail(vc, email)
    }

    /**
     * `locations`: the files, in path order and each once, holding a card with
     * the mailbox; the line is never known.
     */
    function Locations(m: Mailbox): (r: seq<Location>)
      reads this
      requires Valid()
      ensures NoDuplicates(r)
      ensures forall l :: l in r ==> l.line.None?
      ensures forall p :: Location(p, None) in r <==>
        exists i :: 0 <= i < |vcards| && vcards[i].path == p && FileHolds(vcards[i], m)
    {
      SortedDistinct(vcards);
      PathsWhereOnce(vcards, e => FileHolds(e, m));
      PathsWhere(vcards, e => FileHolds(e, m))
    }

    /**
     * `create_contact`: a new file at `path` (the source names it by a fresh
     * uuid under the root) holding one card for the mailbox replaces any entry
     * at that path; every other file is unchanged and the email is now known.
     */
    method CreateContact(m: Mailbox, path: string) returns (r: Option<string>)
      requires Valid()
      modifies this
      ensures Valid()
      ensures r == Some(path)
      ensures vcards == Put(old(vcards), path, [NewCard(m)])
      ensures Lookup(vcards, path) == Some([NewCard(m)])
      ensures forall p :: p != path ==> Lookup(vcards, p) == Lookup(old(vcards), p)
      ensures Contains(m.email)
    {
      forall p ensures Lookup(Put(vcards, path, [NewCard(m)]), p) == if p == path then Some([NewCard(m)]) else Lookup(vcards, p) {
        PutLookup(vcards, path, [NewCard(m)], p);
      }
      vcards := Put(vcards, path, [NewCard(m)]);
      r := Some(path);
      assert Lookup(vcards, path) == Some([NewCard(m)]);
      var i :| 0 <= i < |vcards| && vcards[i].path == path && vcards[i].cards == [NewCard(m)];
      assert NewCard(m) in vcards[i].cards;
      assert Property(m.email, None) in NewCard(m).email;
    }
  }

  /** The mailboxes of the matching cards before deduplication, in map order. */
  function Candidates(es: seq<Entry>, word: string): seq<Mailbox> {
    FilterFlatMap(AllCards(es), vc => MatchVcard(vc, word), MailboxesForVcard)
  }

  /** `m` is one of the mailboxes of a card that matches `word`. */
  predicate FromMatchingCard(es: seq<Entry>, word: string, m: Mailbox) {
    exists vc :: vc in AllCards(es) && MatchVcard(vc, word) && m in MailboxesForVcard(vc)
  }

  /**
   * A found mailbox carries one of its card's emails, and the card's first
   * formatted name, or no name when the card has none.
   */
  lemma MatchingMailboxOfCard(es: seq<Entry>, word: string, m: Mailbox)
    requires FromMatchingCard(es, word, m)
    ensures exists vc :: vc in AllCards(es) && MatchVcard(vc, word) && m.name == FirstName(vc)
                         && (m.name.None? <==> vc.formattedName == [])
                         && exists e :: e in vc.email && e.value == m.email
  {
    var vc :| vc in AllCards(es) && MatchVcard(vc, word) && m in MailboxesForVcard(vc);
  }

  /** The locations, in map order, of the files that `keep` selects. */
  function PathsWhere(es: seq<Entry>, keep: Entry -> bool): (r: seq<Location>)
    ensures forall i :: 0 <= i < |r| ==> r[i].line.None?
    ensures forall p :: Location(p, None) in r <==> exists i :: 0 <= i < |es| && es[i].path == p && keep(es[i])
    decreases |es|
  {
    if es == [] then []
    else
      var rest := PathsWhere(es[1..], keep);
      assert forall i :: 0 < i < |es| ==> es[i] == es[1..][i - 1];
      if keep(es[0]) then [Location(es[0].path, None)] + rest else rest
  }

  /** No two files share a path. */
  predicate DistinctPaths(es: seq<Entry>) {
    forall i, j :: 0 <= i < j < |es| ==> es[i].path != es[j].path
  }

  lemma SortedDistinct(es: seq<Entry>)
    requires SortedPaths(es)
    ensures DistinctPaths(es)
  {
    forall i, j | 0 <= i < j < |es| ensures es[i].path != es[j].path {
      BeforeIrreflexive(es[i].path);
    }
  }

  /** With distinct paths every file is located at most once. */
  lemma {:induction false} PathsWhereOnce(es: seq<Entry>, keep: Entry -> bool)
    requires DistinctPaths(es)
    ensures NoDuplicates(PathsWhere(es, keep))
    decreases |es|
  {
    if es != [] {
      var rest := PathsWhere(es[1..], keep);
      PathsWhereOnce(es[1..], keep);
      if keep(es[0]) {
        ConsNoDuplicates(Location(es[0].path, None), rest);
      }
    }
  }
}
