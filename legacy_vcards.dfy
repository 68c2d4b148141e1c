/**
 * The older vCard contact source kept in src/main.rs:714-906. It loads the
 * same path-ordered map of files as `VCards`, but answers the language
 * server's queries itself: completion labels, cards by email or by mailbox,
 * the files holding an email, and a rendering of its own for hovers.
 */
module LegacyVCards {
  import opened Wrappers
  import opened Text
  import opened Collections
  import opened Mailboxes
  import opened VCards
  import opened Locations

  // ----- completion labels -----

  /**
   * `mailboxes_for_vcard` of main.rs: one label per email, `{:?} <email>`
   * with the card's first formatted name, or the bare email without one.
   */
  function Labels(vc: Vcard): (r: seq<string>)
    ensures |r| == |vc.email|
    ensures vc.formattedName == [] ==> forall i :: 0 <= i < |r| ==> r[i] == vc.email[i].value
    ensures vc.formattedName != [] ==> forall i :: 0 <= i < |r| ==>
      r[i] == "\"" + EscapeDebug(vc.formattedName[0]) + "\" <" + vc.email[i].value + ">"
  {
    seq(|vc.email|, i requires 0 <= i < |vc.email| => Render(Mailbox(FirstName(vc), vc.email[i].value)))
  }

  /**
   * Resolving a completion item parses its label back with the older
   * `FromStr`; a label whose name and email read back unchanged gives the
   * card's mailbox again.
   */
  lemma LabelParsesBack(vc: Vcard, i: nat)
    requires i < |vc.email|
    requires OlderRoundTrips(Mailbox(FirstName(vc), vc.email[i].value))
    ensures ParseOlder(Labels(vc)[i]) == Ok(Mailbox(FirstName(vc), vc.email[i].value))
  {
    OlderRoundTrip(Mailbox(FirstName(vc), vc.email[i].value));
  }

  /** The labels of the matching cards before deduplication, in map order. */
  function LabelCandidates(es: seq<Entry>, word: string): seq<string> {
    FilterFlatMap(AllCards(es), vc => MatchVcard(vc, word), Labels)
  }

  /** `l` is the label of one of the emails of a card that matches `word`. */
  predicate LabelOfMatchingCard(es: seq<Entry>, word: string, l: string) {
    exists vc :: vc in AllCards(es) && MatchVcard(vc, word) && l in Labels(vc)
  }

  lemma LabelCandidatesFromMatchingCards(es: seq<Entry>, word: string)
    ensures forall l :: l in LabelCandidates(es, word) <==> LabelOfMatchingCard(es, word, l)
  {
  }

  // ----- the older card rendering -----

  /** A `- value` list item; the type parameter is not shown. */
  function Items(ps: seq<Property>): seq<string> {
    seq(|ps|, i requires 0 <= i < |ps| => "- " + ps[i].value)
  }

  /** A titled list followed by a blank line, or nothing for no items. */
  function ItemSection(title: string, ps: seq<Property>): seq<string> {
    if ps == [] then [] else [title] + Items(ps) + [""]
  }

  /**
   * The lines `render_vcard` of main.rs joins: the name and nickname lines of
   * `VcardLines`, then the `Email addresses:` and `Telephone numbers:` lists.
   */
  function CardLines(vc: Vcard): seq<string> {
    HeadLines(vc) + ItemSection("Email addresses:", vc.email) + ItemSection("Telephone numbers:", vc.tel)
  }

  /** After the name and nickname lines come the email heading and one `- value` line per email, in order. */
  lemma EmailLinesInOrder(vc: Vcard)
    requires vc.email != []
    ensures CardLines(vc)[|HeadLines(vc)|] == "Email addresses:"
    ensures forall i :: 0 <= i < |vc.email| ==> CardLines(vc)[|HeadLines(vc)| + 1 + i] == "- " + vc.email[i].value
  {
    var h := |HeadLines(vc)|;
    var email := ItemSection("Email addresses:", vc.email);
    assert CardLines(vc)[h..h + |email|] == email;
  }

  /** Two property lists with the same values in the same order. */
  predicate SameValues(ps: seq<Property>, qs: seq<Property>) {
    |ps| == |qs| && forall i :: 0 <= i < |ps| ==> ps[i].value == qs[i].value
  }

  /** Unlike `VcardLines`, the older rendering ignores the type parameters: cards that differ only there render alike. */
  lemma TypesNotRendered(vc: Vcard, wc: Vcard)
    requires vc.formattedName == wc.formattedName && vc.nickname == wc.nickname
    requires SameValues(vc.email, wc.email) && SameValues(vc.tel, wc.tel)
    ensures CardLines(vc) == CardLines(wc)
  {
    assert Items(vc.email) == Items(wc.email);
    assert Items(vc.tel) == Items(wc.tel);
  }

  /** A card with an email never renders to the empty string. */
  lemma CardNotEmpty(vc: Vcard)
    requires vc.email != []
    ensures Join(CardLines(vc), "\n") != []
  {
    EmailLinesInOrder(vc);
    JoinLength(CardLines(vc), "\n", |HeadLines(vc)|);
  }

  /** `render_vcard` of main.rs: the lines are pushed one by one. */
  method RenderCard(vc: Vcard) returns (r: string)
    ensures r == Join(CardLines(vc), "\n")
  {
    var lines: seq<string> := [];
    if vc.formattedName != [] {
      lines := lines + ["# " + vc.formattedName[0]];
      lines := lines + [""];
    }
    if vc.nickname != [] {
      lines := lines + ["_" + vc.nickname[0] + "_"];
      lines := lines + [""];
    }
    assert lines == HeadLines(vc);
    lines := PushItems(lines, "Email addresses:", vc.email);
    lines := PushItems(lines, "Telephone numbers:", vc.tel);
    r := Join(lines, "\n");
  }

  /** The body shared by the email and telephone blocks of `render_vcard`. */
  method PushItems(lines: seq<string>, title: string, ps: seq<Property>) returns (r: seq<string>)
    ensures r == lines + ItemSection(title, ps)
  {
    r := lines;
    if ps != [] {
      var items: seq<string> := [];
      for i := 0 to |ps|
        invariant items == Items(ps)[..i]
      {
        ItemsStep(ps, i);
        items := items + ["- " + ps[i].value];
      }
      assert items == Items(ps);
      r := r + [title] + items + [""];
    }
  }

  lemma ItemsStep(ps: seq<Property>, i: nat)
    requires i < |ps|
    ensures Items(ps)[..i + 1] == Items(ps)[..i] + ["- " + ps[i].value]
  {
  }

  /** The rendering of each card, in order. */
  function RenderedCards(cards: seq<Vcard>): seq<string> {
    seq(|cards|, i requires 0 <= i < |cards| => Join(CardLines(cards[i]), "\n"))
  }

  /**
   * The renderings of `cards` separated by blank lines: a card's own
   * rendering for one card, never empty when the first card has an email.
   */
  function RenderAll(cards: seq<Vcard>): (r: string)
    ensures cards == [] ==> r == []
    ensures |cards| == 1 ==> r == Join(CardLines(cards[0]), "\n")
    ensures cards != [] && cards[0].email != [] ==> r != []
  {
    if cards != [] && cards[0].email != [] then
      CardNotEmpty(cards[0]);
      JoinLength(RenderedCards(cards), "\n\n", 0);
      Join(RenderedCards(cards), "\n\n")
    else Join(RenderedCards(cards), "\n\n")
  }

  /** The rendering of two lists of cards is theirs with a blank line between. */
  lemma RenderAllAppend(a: seq<Vcard>, b: seq<Vcard>)
    requires a != [] && b != []
    ensures RenderAll(a + b) == RenderAll(a) + "\n\n" + RenderAll(b)
  {
    RenderedCardsAppend(a, b);
    JoinAppend(RenderedCards(a), RenderedCards(b), "\n\n");
  }

  lemma RenderedCardsAppend(a: seq<Vcard>, b: seq<Vcard>)
    ensures RenderedCards(a + b) == RenderedCards(a) + RenderedCards(b)
  {
  }

  /**
   * `hover`: nothing for no cards, otherwise the renderings of the cards
   * separated by blank lines, never empty when the first card has an email.
   */
  function Hover(cards: seq<Vcard>): (r: Option<string>)
    ensures r.None? <==> cards == []
    ensures r.Some? ==> r.value == RenderAll(cards)
    ensures |cards| == 1 ==> r == Some(Join(CardLines(cards[0]), "\n"))
    ensures r.Some? && cards[0].email != [] ==> r.value != []
  {
    if cards == [] then None else Some(RenderAll(cards))
  }

  // ----- the lookups -----

  /** The filter of `find_by_email`: the card has an email whose lower-case form is `email` itself. */
  predicate HasLowerEmail(vc: Vcard, email: string) {
    exists e :: e in vc.email && Lower(e.value) == email
  }

  /**
   * The filter of `find_by_mailbox`: the card has an email whose lower-case
   * form is the mailbox's email, and, for a named mailbox, a formatted name
   * equal to that name with case.
   */
  predicate HasMailbox(vc: Vcard, m: Mailbox) {
    HasLowerEmail(vc, m.email) && (m.name.None? || m.name.value in vc.formattedName)
  }

  /** `s` has an ASCII capital letter. */
  predicate HasCapital(s: string) {
    exists i :: 0 <= i < |s| && 'A' <= s[i] <= 'Z'
  }

  /** No lower-cased email equals a text with a capital letter. */
  lemma NoCardHasCapitalizedLowerEmail(vc: Vcard, email: string)
    requires HasCapital(email)
    ensures !HasLowerEmail(vc, email)
  {
    forall e: Property | e in vc.email ensures Lower(e.value) != email {
      assert !HasCapital(Lower(e.value));
    }
  }

  /** The `VCards` struct of main.rs: the directory of card files and the cards loaded from it. */
  class VCardDir {
    const root: string
    var vcards: seq<Entry>

    ghost predicate Valid()
      reads this
    {
      SortedPaths(vcards)
    }

    /** `VCards::new` of main.rs: its `load_vcards` loads the map as the newer one does. */
    constructor (root: string, files: seq<(string, Option<seq<Vcard>>)>)
      ensures this.root == root
      ensures Valid()
      ensures forall p :: Lookup(vcards, p) == LoadedCards(files, p)
    {
      this.root := root;
      var es := LoadVcards(files);
      vcards := es;
    }

    /**
     * `complete`: the labels of the matching cards, each once in the order
     * first met, cut to `limit`. The list is full exactly when there were at
     * least `limit` distinct labels, and when it is not full it holds them all.
     */
    function Complete(word: string, limit: nat): (r: seq<string>)
      reads this
      ensures |r| <= limit
      ensures NoDuplicates(r)
      ensures |r| <= |Unique(LabelCandidates(vcards, word))|
      ensures r == Unique(LabelCandidates(vcards, word))[..|r|]
      ensures forall l :: l in r ==> LabelOfMatchingCard(vcards, word, l)
      ensures |r| < limit ==> forall l :: LabelOfMatchingCard(vcards, word, l) ==> l in r
      ensures |r| == limit <==> |Unique(LabelCandidates(vcards, word))| >= limit
    {
      LabelCandidatesFromMatchingCards(vcards, word);
      TakeUnique(LabelCandidates(vcards, word), limit);
      Take(Unique(LabelCandidates(vcards, word)), limit)
    }

    /** `find_by_email`: the cards, in map order, with an email whose lower-case form is `email`. */
    function FindByEmail(email: string): (r: seq<Vcard>)
      reads this
      ensures forall vc :: vc in r <==> vc in AllCards(vcards) && HasLowerEmail(vc, email)
    {
      Filter(AllCards(vcards), vc => HasLowerEmail(vc, email))
    }

    /** `find_by_mailbox`: the cards, in map order, holding the mailbox in the sense of `HasMailbox`. */
    function FindByMailbox(m: Mailbox): (r: seq<Vcard>)
      reads this
      ensures forall vc :: vc in r <==> vc in AllCards(vcards) && HasMailbox(vc, m)
    {
      Filter(AllCards(vcards), vc => HasMailbox(vc, m))
    }

    /** `find_contact_paths_by_email`: each file, in path order and once, with a card found by `FindByEmail`. */
    function FindContactPathsByEmail(email: string): (r: seq<string>)
      reads this
      requires Valid()
      ensures NoDuplicates(r)
      ensures forall p :: p in r <==>
        exists i :: 0 <= i < |vcards| && vcards[i].path == p && exists vc :: vc in vcards[i].cards && HasLowerEmail(vc, email)
    {
      var keep := (e: Entry) => exists vc :: vc in e.cards && HasLowerEmail(vc, email);
      var ls := PathsWhere(vcards, keep);
      SortedDistinct(vcards);
      PathsWhereOnce(vcards, keep);
      var r := seq(|ls|, i requires 0 <= i < |ls| => ls[i].path);
      assert forall i :: 0 <= i < |ls| ==> ls[i] == Location(r[i], None);
      assert forall p :: p in r <==> Location(p, None) in ls;
      r
    }

    /**
     * `create_contact` of main.rs: the card is written to a new file at `path`
     * (a fresh uuid under the root in the source) and the path returned; the
     * map in memory is not touched, so the new card is not found until the
     * next load.
     */
    method CreateContact(email: string, path: string) returns (r: string)
      ensures r == path
    {
      r := path;
    }
  }

  /** The hover and code-action lookups lower-case the word first; `find_by_email` finds the cards `HasEmail` describes. */
  lemma LoweredLookupIgnoresCase(s: VCardDir, word: string, vc: Vcard)
    ensures vc in s.FindByEmail(Lower(word)) <==> vc in AllCards(s.vcards) && HasEmail(vc, word)
  {
  }

  /**
   * The diagnostics pass the matched text without lower-casing it: an email
   * written with a capital letter is never found, whatever the cards hold.
   */
  lemma CapitalizedEmailNeverFound(s: VCardDir, email: string)
    requires HasCapital(email)
    ensures s.FindByEmail(email) == []
  {
    forall vc: Vcard ensures !HasLowerEmail(vc, email) {
      NoCardHasCapitalizedLowerEmail(vc, email);
    }
  }

  /**
   * Resolving a completion item finds the card it was offered from when the
   * label reads back unchanged and the email is written in lower case.
   */
  lemma ResolvedLabelFindsCard(s: VCardDir, vc: Vcard, i: nat)
    requires vc in AllCards(s.vcards) && i < |vc.email|
    requires OlderRoundTrips(Mailbox(FirstName(vc), vc.email[i].value))
    requires Lower(vc.email[i].value) == vc.email[i].value
    ensures vc in s.FindByMailbox(ParseOlder(Labels(vc)[i]).value)
  {
    LabelParsesBack(vc, i);
    assert vc.email[i] in vc.email;
  }

  /**
   * With a capital letter in the email, resolving a label finds no card at
   * all, not even the one it was offered from: `find_by_mailbox` compares
   * the lower-cased card emails with the label's email as written.
   */
  lemma ResolvedCapitalizedLabelMissesCard(s: VCardDir, vc: Vcard, i: nat)
    requires vc in AllCards(s.vcards) && i < |vc.email|
    requires OlderRoundTrips(Mailbox(FirstName(vc), vc.email[i].value))
    requires HasCapital(vc.email[i].value)
    ensures s.FindByMailbox(ParseOlder(Labels(vc)[i]).value) == []
  {
    LabelParsesBack(vc, i);
    var m := ParseOlder(Labels(vc)[i]).value;
    forall wc: Vcard ensures !HasMailbox(wc, m) {
      NoCardHasCapitalizedLowerEmail(wc, m.email);
    }
  }
}
