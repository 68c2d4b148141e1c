/**
 * The state of the language server of src/main.rs: the texts of the open
 * documents, the diagnostics last published, and the shutdown flag, with
 * the notifications and requests that change or read them. The vCard
 * source is the older one of the same file; the email pattern is an oracle
 * that lists the offsets of its matches in a text.
 */
module LanguageServer {
  import opened Wrappers
  import opened Text
  import opened Collections
  import opened Mailboxes
  import opened VCards
  import opened LegacyVCards
  import opened DocumentStore

  /** JSON-RPC's `InvalidRequest` error code. */
  function InvalidRequest(): int { -32600 }

  function AfterShutdown(): string { "received request after shutdown" }

  function ExitBeforeShutdown(): string { "Received exit notification before shutdown request" }

  /** The message of every diagnostic. */
  function NotInContacts(): string { "Address is not in contacts" }

  /** A hint over the range of an address that no card holds. */
  datatype Diagnostic = Diagnostic(range: Range, message: string)

  /** One match of the email pattern: the offsets `[start, end)` of the matched text. */
  datatype Match = Match(start: nat, end: nat)

  /** Matches lie within the text they were found in. */
  predicate MatchesIn(content: string, ms: seq<Match>) {
    forall i :: 0 <= i < |ms| ==> ms[i].start <= ms[i].end <= |content|
  }

  /** The matched text. */
  function MatchText(content: string, m: Match): string
    requires m.start <= m.end <= |content|
  {
    content[m.start..m.end]
  }

  /** The diagnostic for a match, its range given as the positions of its two offsets. */
  function DiagnosticFor(content: string, m: Match): Diagnostic
    requires m.start <= m.end <= |content|
  {
    Diagnostic(Range(PositionAt(content, m.start), PositionAt(content, m.end)), NotInContacts())
  }

  /** No card has an email whose lower-case form is the text as matched. */
  predicate Unknown(es: seq<Entry>, email: string) {
    forall vc :: vc in AllCards(es) ==> !HasLowerEmail(vc, email)
  }

  /** The diagnostics of a text: one per match, in order, whose text is unknown. */
  function Diagnostics(content: string, ms: seq<Match>, es: seq<Entry>): seq<Diagnostic>
    requires MatchesIn(content, ms)
    decreases |ms|
  {
    if ms == [] then []
    else
      var m := ms[|ms| - 1];
      Diagnostics(content, ms[..|ms| - 1], es)
      + if Unknown(es, MatchText(content, m)) then [DiagnosticFor(content, m)] else []
  }

  /** Every unknown match has its diagnostic. */
  lemma {:induction false} UnknownMatchDiagnosed(content: string, ms: seq<Match>, es: seq<Entry>, i: nat)
    requires MatchesIn(content, ms) && i < |ms|
    requires Unknown(es, MatchText(content, ms[i]))
    ensures DiagnosticFor(content, ms[i]) in Diagnostics(content, ms, es)
    decreases |ms|
  {
    if i < |ms| - 1 {
      var init := ms[..|ms| - 1];
      assert init[i] == ms[i];
      UnknownMatchDiagnosed(content, init, es, i);
    }
  }

  /** Every diagnostic is that of an unknown match. */
  lemma {:induction false} DiagnosticOfUnknownMatch(content: string, ms: seq<Match>, es: seq<Entry>, d: Diagnostic)
    requires MatchesIn(content, ms)
    requires d in Diagnostics(content, ms, es)
    ensures exists i :: 0 <= i < |ms| && Unknown(es, MatchText(content, ms[i])) && d == DiagnosticFor(content, ms[i])
    decreases |ms|
  {
    var last := |ms| - 1;
    var init := ms[..last];
    if d in Diagnostics(content, init, es) {
      DiagnosticOfUnknownMatch(content, init, es, d);
      var i :| 0 <= i < |init| && Unknown(es, MatchText(content, init[i])) && d == DiagnosticFor(content, init[i]);
      assert init[i] == ms[i];
    } else {
      assert Unknown(es, MatchText(content, ms[last])) && d == DiagnosticFor(content, ms[last]);
    }
  }

  /** There is at most one diagnostic per match. */
  lemma {:induction false} DiagnosticsAtMostMatches(content: string, ms: seq<Match>, es: seq<Entry>)
    requires MatchesIn(content, ms)
    ensures |Diagnostics(content, ms, es)| <= |ms|
    decreases |ms|
  {
    if ms != [] {
      DiagnosticsAtMostMatches(content, ms[..|ms| - 1], es);
    }
  }

  /**
   * The matched text is looked up as written: an address written with a
   * capital letter is always reported, whatever the cards hold.
   */
  lemma CapitalizedAddressDiagnosed(content: string, ms: seq<Match>, es: seq<Entry>, i: nat)
    requires MatchesIn(content, ms) && i < |ms|
    requires HasCapital(MatchText(content, ms[i]))
    ensures DiagnosticFor(content, ms[i]) in Diagnostics(content, ms, es)
  {
    forall vc | vc in AllCards(es) ensures !HasLowerEmail(vc, MatchText(content, ms[i])) {
      NoCardHasCapitalizedLowerEmail(vc, MatchText(content, ms[i]));
    }
    UnknownMatchDiagnosed(content, ms, es, i);
  }

  /** Once an edit of a batch fails, the batch fails. */
  lemma FailedEditFailsBatch(content: string, changes: seq<ContentChange>, n: nat)
    requires n <= |changes| && ApplyChanges(content, changes[..n]).None?
    ensures ApplyChanges(content, changes).None?
  {
    ApplyChangesAppend(content, changes[..n], changes[n..]);
    assert changes[..n] + changes[n..] == changes;
  }

  /** One more edit of a batch applies to what the edits before it produced. */
  lemma ApplyChangesStep(content: string, changes: seq<ContentChange>, i: nat, prior: string)
    requires i < |changes| && ApplyChanges(content, changes[..i]) == Some(prior)
    ensures ApplyChanges(content, changes[..i + 1]) == ApplyChange(prior, changes[i])
  {
    assert changes[..i + 1][..i] == changes[..i];
  }

  /**
   * The loop of `did_change` over the edits: each ranged edit resolves its
   * two positions to offsets in the current text and splices its text
   * between them; an edit without a range replaces the text. `None` is the
   * panic of a reversed range. Positions resolve with the corrected offset
   * `ResolvePosition`, so (0,0) is offset 0; the loop as written in the
   * source resolves it to 1 (`ResolvePositionAsWritten`).
   */
  method ApplyEdits(content: string, changes: seq<ContentChange>) returns (r: Option<string>)
    ensures r == ApplyChanges(content, changes)
  {
    var current := content;
    for i := 0 to |changes|
      invariant ApplyChanges(content, changes[..i]) == Some(current)
    {
      ApplyChangesStep(content, changes, i, current);
      var change := changes[i];
      match change.range {
        case Some(range) =>
          var start := ResolvePosition(current, range.start);
          var end := ResolvePosition(current, range.end);
          if end < start {
            FailedEditFailsBatch(content, changes, i + 1);
            return None;
          }
          current := current[..start] + change.text + current[end..];
        case None =>
          // full content replace
          current := change.text;
      }
    }
    assert changes[..|changes|] == changes;
    return Some(current);
  }

  /** A request as far as the shutdown flag is concerned. */
  datatype Request = ShutdownRequest | OtherRequest(name: string)

  /** Whether the request was let through to its handler, or refused with an error. */
  datatype Reply = Dispatched | Refused(code: int, message: string)

  class Server {
    const vcards: VCardDir
    var openFiles: map<string, string>
    var diagnostics: seq<Diagnostic>
    var shutdown: bool

    /** `Server::new`: no open documents, no diagnostics, not shut down. */
    constructor (vcards: VCardDir)
      ensures this.vcards == vcards
      ensures openFiles == map[] && diagnostics == [] && !shutdown
    {
      this.vcards := vcards;
      openFiles := map[];
      diagnostics := [];
      shutdown := false;
    }

    /**
     * The check at the head of `serve` for each request: after shutdown every
     * request is refused with `InvalidRequest`; before it, requests reach
     * their handlers, and the shutdown request sets the flag.
     */
    method HandleRequest(req: Request) returns (reply: Reply)
      modifies this`shutdown
      ensures old(shutdown) ==> reply == Refused(InvalidRequest(), AfterShutdown()) && shutdown
      ensures !old(shutdown) ==> reply == Dispatched && (shutdown <==> req.ShutdownRequest?)
    {
      if shutdown {
        return Refused(InvalidRequest(), AfterShutdown());
      }
      match req
      case ShutdownRequest =>
        shutdown := true;
        reply := Dispatched;
      case OtherRequest(_) =>
        reply := Dispatched;
    }

    /** The exit notification: the server stops cleanly only after a shutdown request. */
    method Exit() returns (r: Result<(), string>)
      ensures r.Ok? <==> shutdown
      ensures r.Err? ==> r.error == ExitBeforeShutdown()
    {
      if shutdown {
        return Ok(());
      } else {
        return Err(ExitBeforeShutdown());
      }
    }

    /**
     * `refresh_diagnostics`: one hint for each match of the email pattern in
     * the document whose text `find_by_email` does not find; they replace the
     * diagnostics kept for code actions and are returned for publishing.
     */
    method RefreshDiagnostics(uri: string, matches: seq<Match>) returns (ds: seq<Diagnostic>)
      requires uri in openFiles && MatchesIn(openFiles[uri], matches)
      modifies this`diagnostics
      ensures ds == diagnostics == Diagnostics(openFiles[uri], matches, vcards.vcards)
    {
      var content := openFiles[uri];
      ds := [];
      for i := 0 to |matches|
        invariant ds == Diagnostics(content, matches[..i], vcards.vcards)
      {
        assert matches[..i + 1][..i] == matches[..i];
        var m := matches[i];
        var email := content[m.start..m.end];
        if vcards.FindByEmail(email) == [] {
          ds := ds + [Diagnostic(Range(PositionAt(content, m.start), PositionAt(content, m.end)), NotInContacts())];
        }
      }
      assert matches[..|matches|] == matches;
      diagnostics := ds;
    }

    /** The open notification: the document's text is stored, replacing any older copy, and its diagnostics computed. */
    method DidOpen(uri: string, text: string, matches: seq<Match>) returns (ds: seq<Diagnostic>)
      requires MatchesIn(text, matches)
      modifies this`openFiles, this`diagnostics
      ensures openFiles == old(openFiles)[uri := text]
      ensures ds == diagnostics == Diagnostics(text, matches, vcards.vcards)
    {
      openFiles := openFiles[uri := text];
      ds := RefreshDiagnostics(uri, matches);
    }

    /**
     * The change notification: the edits are applied in order to the
     * document's text, a ranged edit splicing its text between the offsets
     * of its two positions and an edit without a range replacing the whole
     * text; then the diagnostics are recomputed with `find`, the email
     * pattern run over the new text. A document that is not open, or a
     * reversed range, makes the source panic: here that is `Err` with the
     * state unchanged.
     */
    method DidChange(uri: string, changes: seq<ContentChange>, find: string -> seq<Match>) returns (r: Result<seq<Diagnostic>, string>)
      requires forall s :: MatchesIn(s, find(s))
      modifies this`openFiles, this`diagnostics
      ensures uri !in old(openFiles) ==> r.Err? && openFiles == old(openFiles) && diagnostics == old(diagnostics)
      ensures uri in old(openFiles) && ApplyChanges(old(openFiles)[uri], changes).None? ==>
        r.Err? && openFiles == old(openFiles) && diagnostics == old(diagnostics)
      ensures uri in old(openFiles) && ApplyChanges(old(openFiles)[uri], changes).Some? ==>
        var text := ApplyChanges(old(openFiles)[uri], changes).value;
        && openFiles == old(openFiles)[uri := text]
        && r == Ok(diagnostics)
        && diagnostics == Diagnostics(text, find(text), vcards.vcards)
    {
      if uri !in openFiles {
        return Err("document is not open");
      }
      var edited := ApplyEdits(openFiles[uri], changes);
      if edited.None? {
        return Err("range end before its start");
      }
      var text := edited.value;
      openFiles := openFiles[uri := text];
      var ds := RefreshDiagnostics(uri, find(text));
      r := Ok(ds);
    }

    /** The close notification: only that document's text is dropped. */
    method DidClose(uri: string)
      modifies this`openFiles
      ensures openFiles == old(openFiles) - {uri}
    {
      openFiles := openFiles - {uri};
    }

    /** `get_file_content`: the open copy of the document, else its text on disk, given as `disk`. */
    function FileContent(uri: string, disk: string): string
      reads this
    {
      if uri in openFiles then openFiles[uri] else disk
    }

    /** `get_word_from_document`: the word under the cursor in the document. */
    function WordAtCursor(uri: string, pos: Position, disk: string): Option<string>
      reads this
    {
      WordFromContent(FileContent(uri, disk), pos.line, pos.character)
    }

    /**
     * The hover request: the cards with the word under the cursor as an email,
     * ignoring case, rendered; nothing when there is no word or no such card.
     */
    function HoverAt(uri: string, pos: Position, disk: string): (r: Option<string>)
      reads this, vcards
      ensures r.Some? <==> exists w :: WordAtCursor(uri, pos, disk) == Some(w)
                                      && exists vc :: vc in AllCards(vcards.vcards) && HasEmail(vc, w)
    {
      match WordAtCursor(uri, pos, disk)
      case None => None
      case Some(w) =>
        var cards := vcards.FindByEmail(Lower(w));
        assert cards != [] <==> exists vc :: vc in AllCards(vcards.vcards) && HasEmail(vc, w) by {
          if cards != [] {
            assert cards[0] in cards;
          }
        }
        Hover(cards)
    }

    /**
     * The definition request: the files, each once, with a card that has the
     * word under the cursor as an email, ignoring case.
     */
    function DefinitionAt(uri: string, pos: Position, disk: string): (r: seq<string>)
      reads this, vcards
      requires vcards.Valid()
      ensures NoDuplicates(r)
      ensures WordAtCursor(uri, pos, disk).None? ==> r == []
      ensures WordAtCursor(uri, pos, disk).Some? ==> forall p :: p in r <==>
        exists i :: 0 <= i < |vcards.vcards| && vcards.vcards[i].path == p
          && exists vc :: vc in vcards.vcards[i].cards && HasEmail(vc, WordAtCursor(uri, pos, disk).value)
    {
      match WordAtCursor(uri, pos, disk)
      case None => []
      case Some(w) => vcards.FindContactPathsByEmail(Lower(w))
    }

    /** The completion request's page size. */
    static function CompletionLimit(): nat { 100 }

    /**
     * The completion request: the word just before the cursor, lower-cased,
     * completed with at most 100 labels; the list is marked incomplete
     * exactly when it is full, that is when there were at least 100 labels.
     */
    function CompletionAt(uri: string, pos: Position, disk: string): (r: Option<(seq<string>, bool)>)
      reads this, vcards
      ensures var w := WordAtCursor(uri, Position(pos.line, if pos.character == 0 then 0 else pos.character - 1), disk);
        && (r.Some? <==> w.Some?)
        && (r.Some? ==> r.value.0 == vcards.Complete(Lower(w.value), CompletionLimit()))
        && (r.Some? ==> (r.value.1 <==> |Unique(LabelCandidates(vcards.vcards, Lower(w.value)))| >= CompletionLimit()))
    {
      var cursor := Position(pos.line, if pos.character == 0 then 0 else pos.character - 1);
      match WordAtCursor(uri, cursor, disk)
      case None => None
      case Some(w) =>
        var items := vcards.Complete(Lower(w), CompletionLimit());
        Some((items, |items| == CompletionLimit()))
    }

    /**
     * Resolving a completion item: its label read back as a mailbox by the
     * older parser, and the cards holding that mailbox rendered as its
     * documentation; nothing when no card holds it.
     */
    function CompletionDocumentation(itemLabel: string): (r: Option<string>)
      reads this, vcards
      ensures r.Some? <==> exists vc :: vc in AllCards(vcards.vcards) && HasMailbox(vc, ParseOlder(itemLabel).value)
    {
      var cards := vcards.FindByMailbox(ParseOlder(itemLabel).value);
      assert cards != [] <==> exists vc :: vc in AllCards(vcards.vcards) && HasMailbox(vc, ParseOlder(itemLabel).value) by {
        if cards != [] {
          assert cards[0] in cards;
        }
      }
      Hover(cards)
    }

    /** The diagnostics a code action at `pos` fixes: those whose range holds the position. */
    function FixedDiagnostics(pos: Position): (r: seq<Diagnostic>)
      reads this
      ensures forall d :: d in r <==> d in diagnostics && InRange(d.range, pos)
    {
      var ds := diagnostics;
      Filter(ds, (d: Diagnostic) => InRange(d.range, pos))
    }
  }

  /**
   * A label offered by completion gets its documentation back when it reads
   * back unchanged and its email is in lower case.
   */
  lemma OfferedLabelDocumented(s: Server, vc: Vcard, i: nat)
    requires vc in AllCards(s.vcards.vcards) && i < |vc.email|
    requires OlderRoundTrips(Mailbox(FirstName(vc), vc.email[i].value))
    requires Lower(vc.email[i].value) == vc.email[i].value
    ensures s.CompletionDocumentation(Labels(vc)[i]).Some?
  {
    ResolvedLabelFindsCard(s.vcards, vc, i);
  }
}
