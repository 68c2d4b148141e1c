# maills in Dafny

A model of the core of maills, a language server that helps with email
addresses in text documents. It reads contacts from a directory of vCard files,
or from a plain list with one contact per line. It then offers:

- completion of addresses;
- hover cards for the address under the cursor;
- go-to-definition into the card files;
- a hint on every address that is not among the contacts.

The model covers these parts:

- **Mailboxes** (`mailbox.dfy`) models the mailbox value and its text forms from src/mailbox.rs:
  - rendering as `"name" <email>` or a bare email, with the name written by Rust's `{:?}`;
  - parsing, and the round trip between rendering and parsing;
  - the older parser of src/main.rs;
  - the selection in `from_line_at` of the first pattern match that covers the cursor.
- **ContactLists** (`contact_list.dfy`) models the contact list of src/contact_list.rs:
  - the line format;
  - a map from each mailbox to its last line, and a set of lower-cased emails;
  - the queries `render`, `find_matching`, `contains`, `locations` and `create_contact`.
- **LegacyContactList** (`contactlist_legacy.dfy`) models the older list of src/contactlist.rs, which pushes every parsed line onto a vector.
- **VCards** (`vcards.dfy`) models the card directory of src/vcards.rs:
  - a path-ordered map from file to cards, with loading, card rendering and the queries;
  - `create_contact` as an update of that map.
- **LegacyVCards** (`legacy_vcards.dfy`) models the card directory built into src/main.rs: `complete`, `hover`, the three `find_*` lookups, and `create_contact`, which does not touch the map.
- **DocumentStore** (`document_store.dfy`) models the text helpers of src/main.rs:
  - `resolve_position`, both as written and corrected;
  - the edits of a change notification;
  - the word under the cursor;
  - the half-open range test.
- **LanguageServer** (`server.dfy`) models the `Server` of src/main.rs:
  - open documents, diagnostics and the shutdown flag;
  - the open, change and close notifications, and diagnostics refresh;
  - the request guard after shutdown and the exit notification;
  - the lookups behind hover, go-to-definition, completion, completion resolution and code actions.
- **Text**, **Collections**, **Wrappers** and **Locations** model the Rust standard-library operations the source uses:
  - trimming, `split_once`, `split`, `join` and `lines`;
  - ASCII lower-casing;
  - itertools' `unique` and `take`;
  - `Option` and `Result`;
  - the `Location` record of the contact sources.

Some things outside the program become parameters:

- the two regular expressions: the mailbox pattern and the email pattern of the diagnostics;
- vCard parsing;
- file contents;
- the uuid file name of a new card.

Text is taken to be ASCII, so that characters, bytes and UTF-16 units coincide.

## Model

| member | source | states |
|---|---|---|
| Mailboxes.EscapeDebugPlain | src/mailbox.rs:83 | `{:?}` writes a name without `"`, `\` or control characters as itself |
| Mailboxes.RenderPlainName | src/mailbox.rs:80-91 | Display gives `"` name `" <` email `>` for a plain name, and exactly the email without a name |
| Mailboxes.Parse | src/mailbox.rs:58-77 | `from_str` never fails; without `" <"` the whole input is the email and there is no name; with it the name is trimmed and the email does not end in `>` |
| Mailboxes.CleanName | src/mailbox.rs:60-65 | the parsed name has no surrounding whitespace |
| Mailboxes.CleanEmail | src/mailbox.rs:66 | the parsed email does not end in `>` |
| Mailboxes.FirstSeparatorAfterName | src/mailbox.rs:59 | in a rendered named mailbox, the first `" <"` is the one after the closing quote, when the name is plain and holds no `" <"` |
| Mailboxes.NoEarlierSeparator | src/mailbox.rs:59 | the first `" <"` of `a <b` is the one after `a` when `a` has no `<` |
| Mailboxes.UnquoteQuoted | src/mailbox.rs:60-65 | cleaning a quoted name gives the name trimmed |
| Mailboxes.StripBracket | src/mailbox.rs:66 | cleaning `email>` gives the email back when it has no leading whitespace and no trailing `>` |
| Mailboxes.RoundTrip | src/mailbox.rs:58-91 | `from_str(to_string(m)) == m` when the name is plain, trimmed and free of `" <"`, and the email has no leading whitespace and no trailing `>`; a nameless mailbox needs only an email without `" <"` |
| Mailboxes.RoundTripTrimsName | src/mailbox.rs:58-91 | for a plain name the round trip returns the name trimmed, so it is the identity exactly when the name has no surrounding whitespace |
| Mailboxes.ParseQuoted | src/mailbox.rs:58-77 | `"name" <email>` parses to the trimmed name and the email |
| Mailboxes.ParseBareName | src/mailbox.rs:98-107 | the unquoted form `name <email>` parses as well |
| Mailboxes.ParseOlder | src/main.rs:916-930 | the older `from_str` never fails; without `"\" <"` the input is the email; with it there is a name that does not start with `"` |
| Mailboxes.OlderRoundTrip | src/main.rs:913-944 | the older parser reads a rendered mailbox back when the name is plain and does not start with ` <`, and the email does not end in `>`; a nameless mailbox renders as its bare email and reads back when it holds no `"\" <"` |
| Mailboxes.ParseOlderQuoted | src/main.rs:916-930 | the older parser reads `"name" <email>` back unchanged, without trimming |
| Mailboxes.FirstQuoteSeparatorAfterName | src/main.rs:917 | the first `"\" <"` of a rendered named mailbox follows the name unless the name starts with ` <` |
| Mailboxes.OlderRoundTripNeedsNameNotStartingWithSeparator | src/main.rs:917-918 | the name ` <a` with email `e` reads back as name `""` and email `a" <e`, so the round trip needs that condition |
| Mailboxes.Unquote | src/mailbox.rs:30-36 | a matched name, trimmed and stripped of quotes, neither starts nor ends with `"` |
| Mailboxes.TrimmedEmail | src/mailbox.rs:43 | a matched email is trimmed, and empty when the match has no email group |
| Mailboxes.MailboxOf | src/mailbox.rs:25-44 | the mailbox of a match has a name exactly when the match has a name group; the name is unquoted and the email trimmed |
| Mailboxes.SelectAnchored | src/mailbox.rs:20-52 | None exactly when no match covers the cursor, where a match runs from its name start (else its email start) to its email end, both ends included; otherwise the mailbox of the first covering match |
| Mailboxes.FromLineAt | src/mailbox.rs:20-52 | the loop with its early `break` returns what `SelectAnchored` describes |
| Mailboxes.ParseBareForm | src/mailbox.rs:98-107 | `First Last <first.last@test.com>` parses to name `First Last` and email `first.last@test.com` |
| Mailboxes.FirstLastRoundTrips | src/mailbox.rs:108 | that mailbox survives rendering and parsing |
| Mailboxes.BareMatchesFitLine | src/mailbox.rs:112-117 | the match assumed for the bare test line is a well-formed match of that line |
| Mailboxes.QuotedMatchesFitLine | src/mailbox.rs:130-135 | the same for the quoted test line |
| Mailboxes.ContextMatchesFitLine | src/mailbox.rs:148-153 | the same for the test line with surrounding words |
| Mailboxes.AnchorsAcrossBareLine | src/mailbox.rs:111-127 | every offset of the bare line selects `First Last <first.last@test.com>` |
| Mailboxes.AnchorsAcrossQuotedLine | src/mailbox.rs:129-145 | every offset of the quoted line selects the same mailbox |
| Mailboxes.AnchorsInsideContextLine | src/mailbox.rs:147-163 | offsets 19 to 52 of the line with surrounding words select the same mailbox |
| Mailboxes.QuotedNameUnquotes | src/mailbox.rs:30-36 | the quoted name group `"First Last"` yields the name `First Last` |
| Text.Trim | src/contact_list.rs:74 | `trim` leaves no whitespace at either end |
| Text.TrimEmptyIffBlank | src/contact_list.rs:74-77 | a line trims to nothing exactly when it is all whitespace |
| Text.SplitOnce | src/mailbox.rs:59 | `split_once` cuts at the first occurrence and rebuilds the input; None exactly when the pattern does not occur |
| Text.Split | src/contact_list.rs:78 | `split(' ')` gives at least one part |
| Text.SplitPieces | src/contact_list.rs:78 | no part of a split holds the separator, and joining the parts with it rebuilds the input |
| Text.JoinAppend | src/vcards.rs:26 | joining two non-empty lists of parts puts one separator between their joins |
| Text.SplitJoin | src/contact_list.rs:78-81 | splitting parts joined by the separator gives the parts back |
| Text.Lower | src/vcards.rs:43 | lower-casing keeps the length, leaves no ASCII capital, moves each capital 32 code points up to its lower-case letter and keeps every other character |
| Text.LowerIdempotent | src/vcards.rs:43 | lower-casing already lower-cased text changes nothing |
| Collections.Unique | src/vcards.rs:35 | `unique` keeps each element once, loses none, and keeps the order of first occurrence |
| Collections.Filter | src/main.rs:784-786 | `filter().collect()` keeps exactly the elements that pass, nothing when none passes, and a single element exactly when it passes |
| Collections.FilterCount | src/main.rs:784-786 | a passing element is kept as often as it occurs in the input, any other never |
| Collections.FilterAppend | src/main.rs:784-786 | filtering goes element by element, so the result is the passing elements in input order |
| Collections.Flatten | src/main.rs:782-784 | `flatten()` holds exactly the elements of the parts, and one part flattens to itself |
| Collections.FlattenAppend | src/main.rs:782-784 | flattening goes part by part, keeping the order of the parts and of their elements |
| Collections.FilterFlatMap | src/vcards.rs:33-34 | `filter().flat_map()` holds exactly the images of the passing elements, and one element maps to its image when it passes and to nothing otherwise |
| Collections.FilterFlatMapAppend | src/vcards.rs:33-34 | filtering and mapping go element by element, so the result is the images of the passing elements in input order |
| Collections.TakeUnique | src/main.rs:771-777 | the first `n` distinct elements have no duplicates and come from the input; fewer than `n` means all are present; exactly `n` iff there were at least `n` |
| ContactLists.ParseLine | src/contact_list.rs:74-86 | a blank line gives nothing; otherwise the email is a non-empty last token without spaces, name and email rebuild the trimmed line, and there is no name exactly when the line has one token |
| ContactLists.ParseListLine | src/contact_list.rs:74-86 | a mailbox written as a list line parses back to itself |
| ContactLists.AsU32 | src/contact_list.rs:87 | `as u32` keeps line numbers below 2^32 and wraps larger ones |
| ContactLists.ContactLinesKeys | src/contact_list.rs:73-87 | the map holds exactly the mailboxes some line parses to |
| ContactLists.ContactLinesLastLine | src/contact_list.rs:87 | a mailbox maps to the 0-based number of the last line holding it, blank lines included |
| ContactLists.EmailsLowerOfLines | src/contact_list.rs:85 | the email set holds exactly the lower-cased emails of the parsed lines |
| ContactLists.BlankLineSkipped | src/contact_list.rs:74-77 | a blank line changes neither field |
| ContactLists.ContactList.constructor | src/contact_list.rs:61-89 | loading the lines leaves the map and the set described above |
| ContactLists.ContactList.Render | src/contact_list.rs:16-25 | `# name`, a blank line, `Email:` and `- email` with a name; `Email:` and `- email` without |
| ContactLists.ContactList.FindMatching | src/contact_list.rs:27-40 | exactly the stored mailboxes whose lower-cased name or email contains the word, each once |
| ContactLists.ContactList.Contains | src/contact_list.rs:42-44 | true exactly when some line's email equals the argument ignoring case |
| ContactLists.ContactList.Locations | src/contact_list.rs:46-52 | exactly one location, in the list's file; it has a line exactly when the mailbox itself was loaded, and that line is the last one holding it |
| ContactLists.ContactList.CreateContact | src/contact_list.rs:54-57 | returns None and changes nothing |
| LegacyContactList.ContactsAppend | src/contactlist.rs:22-36 | loading two stretches of lines gives the contacts of the first followed by those of the second |
| LegacyContactList.ContactsCount | src/contactlist.rs:22-36 | one contact per non-blank line |
| LegacyContactList.ContactsFromLines | src/contactlist.rs:27-35 | the contacts are exactly the parsed lines |
| LegacyContactList.DuplicatesKept | src/contactlist.rs:35 | a contact met twice is pushed twice |
| LegacyContactList.DuplicateLinesKept | src/contactlist.rs:22-36 | a repeated line gives two equal contacts |
| LegacyContactList.BlankLineIgnored | src/contactlist.rs:23-26 | a whitespace-only line adds nothing |
| LegacyContactList.ContactList.constructor | src/contactlist.rs:11-37 | the contacts are those of the non-blank lines, in file order |
| VCards.BeforeIrreflexive | src/vcards.rs:16 | the path order of the map is irreflexive |
| VCards.BeforeTotal | src/vcards.rs:16 | the path order is total |
| VCards.BeforeTransitive | src/vcards.rs:16 | the path order is transitive |
| VCards.Lookup | src/vcards.rs:16 | a lookup finds an entry with that path, or there is none |
| VCards.LookupSorted | src/vcards.rs:16 | in a sorted map every entry is found under its own path |
| VCards.Put | src/vcards.rs:82 | insertion keeps the map sorted and adds no entry other than the new one |
| VCards.PutLookup | src/vcards.rs:82 | after insertion the path holds the new cards and every other path what it held before |
| VCards.AllCards | src/vcards.rs:30-32 | the flattened values are exactly the cards of all files |
| VCards.MailboxesForVcard | src/vcards.rs:199-218 | one mailbox per email, the i-th carrying the i-th email, each with the card's first formatted name, or no name when there is none |
| VCards.ItemLineStart | src/vcards.rs:151 | every item line starts with `- ` |
| VCards.SectionLine | src/vcards.rs:148-179 | a section line is its title, blank, or an item |
| VCards.HeadingOnlyWithName | src/vcards.rs:140-143 | the `# name` heading comes first and uses the first formatted name, and appears only when there is one |
| VCards.EmailSectionOnlyWithEmails | src/vcards.rs:148-163 | an `Email:` line appears exactly when the card has emails |
| VCards.NoEmailHeading | src/vcards.rs:148 | a card without emails has no `Email:` line |
| VCards.EmailItemsInOrder | src/vcards.rs:148-163 | after the head comes `Email:`, then one item line per email in order |
| VCards.RenderedCardNotEmpty | src/vcards.rs:138-181 | a card with an email renders to non-empty text |
| VCards.RenderVcard | src/vcards.rs:138-181 | the pushes of `render_vcard` join the lines the layout functions describe |
| VCards.PushItem | src/vcards.rs:151-160 | the pushes of one property build its `- ` item line |
| VCards.PushSection | src/vcards.rs:148-179 | pushing a section appends its title, its items and a blank line |
| VCards.LoadedCardsPresent | src/vcards.rs:107-117 | a path is loaded exactly when one of its files parsed |
| VCards.LoadVcards | src/vcards.rs:97-118 | loading builds a sorted map in which each path holds the cards of its parsed files, and unparsed files are skipped |
| VCards.VCards.constructor | src/vcards.rs:88-95 | the new directory holds the loaded map |
| VCards.VCards.GetByMailbox | src/vcards.rs:120-135 | exactly the cards with an email equal to the mailbox's, ignoring case, and, for a named mailbox, a formatted name equal to it ignoring case |
| VCards.RenderCards | src/vcards.rs:20-27 | the renderings joined by blank lines: nothing for no cards, a card's own `render_vcard` text for one card, never empty when the first card has an email |
| VCards.RenderCardsAppend | src/vcards.rs:20-27 | the rendering of two non-empty card lists is the first's, a blank line, then the second's |
| VCards.VCards.Render | src/vcards.rs:20-27 | the cards `get_by_mailbox` finds, rendered and joined by blank lines; empty exactly when no card holds the mailbox; one card's rendering when only one does |
| VCards.VCards.FindMatching | src/vcards.rs:29-37 | no duplicates; exactly the mailboxes of the cards whose emails, formatted names or nicknames contain the word after lower-casing; first-seen order across files in path order |
| VCards.MatchingMailboxOfCard | src/vcards.rs:183-218 | each found mailbox has one of its card's emails and the card's first formatted name, or no name when the card has none |
| VCards.VCards.Contains | src/vcards.rs:39-45 | true exactly when some card of some file has an email equal to the argument ignoring case |
| VCards.PathsWhere | src/vcards.rs:47-67 | a location per file that passes the filter, always without a line |
| VCards.SortedDistinct | src/vcards.rs:16 | a map's paths are distinct |
| VCards.PathsWhereOnce | src/vcards.rs:47-67 | each path is listed at most once |
| VCards.VCards.Locations | src/vcards.rs:47-67 | each file at most once and without a line; a file is listed exactly when one of its cards holds the mailbox ignoring case |
| VCards.VCards.CreateContact | src/vcards.rs:69-84 | returns the path; the path now holds exactly the new card with the name (or `""`) and the email; all other paths are unchanged; `contains` finds the email |
| LegacyVCards.Labels | src/main.rs:893-906 | one label per email: the bare email without a formatted name, else `{:?}` of the first name, then ` <email>` |
| LegacyVCards.LabelParsesBack | src/main.rs:893-930 | a label reads back, by the older parser, to its card's name and email when that mailbox round-trips |
| LegacyVCards.LabelCandidatesFromMatchingCards | src/main.rs:765-771 | the candidates are exactly the labels of cards matching the word |
| LegacyVCards.EmailLinesInOrder | src/main.rs:842-848 | after the head comes `Email addresses:`, then `- email` per email in order, with no type prefix |
| LegacyVCards.TypesNotRendered | src/main.rs:842-855 | two cards differing only in property types render the same lines |
| LegacyVCards.CardNotEmpty | src/main.rs:832-857 | a card with an email renders to non-empty text |
| LegacyVCards.RenderCard | src/main.rs:832-857 | the pushes of `render_vcard` join the card's lines |
| LegacyVCards.PushItems | src/main.rs:842-855 | a section push appends its title, its items and a blank line |
| LegacyVCards.RenderAll | src/main.rs:756-761 | the renderings joined by blank lines: nothing for no cards, a card's own `render_vcard` text for one card, never empty when the first card has an email |
| LegacyVCards.RenderAllAppend | src/main.rs:756-761 | the rendering of two non-empty card lists is the first's, a blank line, then the second's |
| LegacyVCards.Hover | src/main.rs:752-763 | None exactly when there are no cards; otherwise the cards rendered and joined by blank lines, a single card's own rendering, non-empty when the first card has an email |
| LegacyVCards.NoCardHasCapitalizedLowerEmail | src/main.rs:785 | no lower-cased card email equals a text with a capital letter |
| LegacyVCards.VCardDir.constructor | src/main.rs:720-750 | loads the map as the newer directory does |
| LegacyVCards.VCardDir.Complete | src/main.rs:765-779 | at most `limit` labels without duplicates, a prefix of the distinct labels in first-seen order, all from matching cards; all of them when fewer than `limit`; exactly `limit` iff there were at least that many |
| LegacyVCards.VCardDir.FindByEmail | src/main.rs:781-787 | exactly the cards with an email whose lower-case form equals the argument as given |
| LegacyVCards.VCardDir.FindByMailbox | src/main.rs:789-802 | exactly the cards with a lower-cased email equal to the mailbox's email and, for a named mailbox, a formatted name equal to the name with case |
| LegacyVCards.VCardDir.FindContactPathsByEmail | src/main.rs:804-813 | each file at most once; a file is listed exactly when one of its cards passes the `find_by_email` test |
| LegacyVCards.VCardDir.CreateContact | src/main.rs:815-829 | returns the path and leaves the map in memory unchanged |
| LegacyVCards.LoweredLookupIgnoresCase | src/main.rs:248-252 | looking up the lower-cased word finds exactly the cards with that email ignoring case |
| LegacyVCards.CapitalizedEmailNeverFound | src/main.rs:781-787 | an argument with a capital letter finds no card |
| LegacyVCards.ResolvedLabelFindsCard | src/main.rs:365-366 | resolving a label finds its card when the label round-trips and the email is lower case |
| LegacyVCards.ResolvedCapitalizedLabelMissesCard | src/main.rs:365-366 | with a capital letter in the email, resolving finds no card at all |
| DocumentStore.FirstReached | src/main.rs:863-873 | the first offset from a start at which the scan's stop test holds, or the text's length |
| DocumentStore.ScanOffset | src/main.rs:859-875 | `resolve_position` as written is at most the text's length, and at least 1 for non-empty text |
| DocumentStore.ResolvePositionAsWritten | src/main.rs:859-875 | the loop as written returns `ScanOffset` |
| DocumentStore.ScanOffsetOfTextStart | src/main.rs:863-872 | as written, (0,0) gives 1 in non-empty text |
| DocumentStore.ScanOffsetInverts | src/main.rs:859-875 | as written, the position of every offset from 1 on resolves back to that offset |
| DocumentStore.ScanOffsetOfLineStart | src/main.rs:866-871 | (L,0) lands just past the L-th newline |
| DocumentStore.ScanOffsetOnFirstLine | src/main.rs:863-872 | (0,c) gives c for 1 ≤ c ≤ the first line's length |
| DocumentStore.ScanOffsetExample | src/main.rs:859-875 | in `abc\ndef`, (0,2) gives 2 and (1,1) gives 5 |
| DocumentStore.PositionOffset | src/main.rs:859-875 | the corrected offset: at most the length, and the offset of any position that some offset has |
| DocumentStore.ResolvePosition | src/main.rs:859-875 | the corrected loop, with the stop test before each character, returns `PositionOffset` |
| DocumentStore.PositionOffsetInverts | src/main.rs:859-875 | corrected, the position of every offset, 0 included, resolves back to it |
| DocumentStore.Splice | src/main.rs:549 | `replace_range` fails exactly for a reversed range; otherwise the prefix is kept, the text inserted and the suffix after the end kept |
| DocumentStore.ApplyChangesAppend | src/main.rs:545-554 | a batch of edits applies in order, each to the result of the one before |
| DocumentStore.FullReplaceResets | src/main.rs:550-553 | an edit without a range replaces the text, whatever came before |
| DocumentStore.ApplyChangeExample | src/main.rs:545-554 | replacing (0,2)-(1,1) of `abc\ndef` with `X` gives `abXef` |
| DocumentStore.InsertAtTextStart | src/main.rs:547-549 | inserting `X` at (0,0) of `abc` gives `Xabc` with the corrected offset and `aXbc` with the offset as written |
| DocumentStore.TailCharIsEmailCharOrSpace | src/main.rs:666-679 | after the cursor a space is also a word character |
| DocumentStore.RunStartRun | src/main.rs:667-675 | the word's start is the start of the run of email characters up to the cursor |
| DocumentStore.TailEndRun | src/main.rs:677-689 | the word's end is the first character after the cursor that is neither an email character nor a space, or the line's end |
| DocumentStore.WordAtMeaning | src/main.rs:662-697 | None exactly when the cursor is past the line or not on an alphanumeric or `._%+-@` character; otherwise a contiguous slice holding the cursor: email characters up to the cursor, email characters or spaces after it |
| DocumentStore.WordWithinLine | src/main.rs:662-697 | a found word is non-empty and made of the line's characters |
| DocumentStore.GetWordFromLine | src/main.rs:662-697 | the loop returns what `WordAt` describes |
| DocumentStore.ReadChar | src/main.rs:667-689 | one character either settles the search with the word at the cursor (or none) or moves the gathering state on to the next character |
| DocumentStore.WordFromContent | src/main.rs:654-658 | None past the last line; otherwise the word of that line, which is non-empty and holds no newline |
| DocumentStore.InRange | src/main.rs:951-956 | true exactly when start ≤ position < end in (line, character) order |
| DocumentStore.RangeEnds | src/main.rs:951-956 | the start is in a range exactly when the range is non-empty; the end is never in it |
| LanguageServer.UnknownMatchDiagnosed | src/main.rs:630-648 | every match that no card's lower-cased email equals gets its diagnostic |
| LanguageServer.DiagnosticOfUnknownMatch | src/main.rs:630-648 | every diagnostic belongs to such a match |
| LanguageServer.DiagnosticsAtMostMatches | src/main.rs:630-648 | at most one diagnostic per match |
| LanguageServer.CapitalizedAddressDiagnosed | src/main.rs:627-632 | a matched address with a capital letter is always reported |
| LanguageServer.FailedEditFailsBatch | src/main.rs:545-554 | once an edit of a batch fails, the batch fails |
| LanguageServer.ApplyEdits | src/main.rs:545-554 | the edit loop returns what `ApplyChanges` describes, with positions resolved by the corrected offset (see Findings) |
| LanguageServer.Server.constructor | src/main.rs:212-217 | no open documents, no diagnostics, not shut down |
| LanguageServer.Server.HandleRequest | src/main.rs:225-238 | after shutdown every request is refused with InvalidRequest and the flag stays set; before it, requests are dispatched and only the shutdown request sets the flag |
| LanguageServer.Server.Exit | src/main.rs:583-591 | Ok exactly when shutdown was requested, else the exit error message |
| LanguageServer.Server.RefreshDiagnostics | src/main.rs:619-651 | the stored and returned diagnostics are those of the document's matches |
| LanguageServer.Server.DidOpen | src/main.rs:514-519 | the document's text is inserted or overwritten and its diagnostics computed |
| LanguageServer.Server.DidChange | src/main.rs:543-556 | the edits replace only that document's text and its diagnostics are recomputed; a document that is not open, or a reversed range, is an error with nothing changed |
| LanguageServer.Server.DidClose | src/main.rs:574 | only that document is dropped |
| LanguageServer.Server.HoverAt | src/main.rs:248-253 | a hover exactly when there is a word under the cursor and a card has it as an email, ignoring case |
| LanguageServer.Server.DefinitionAt | src/main.rs:285-289 | each file once that has a card with the word as an email, ignoring case; nothing without a word |
| LanguageServer.Server.CompletionAt | src/main.rs:334-342 | the word before the cursor, lower-cased, completed to at most 100 labels; incomplete exactly when there were at least 100 |
| LanguageServer.Server.CompletionDocumentation | src/main.rs:365-367 | documentation exactly when a card holds the mailbox the label reads back as |
| LanguageServer.OfferedLabelDocumented | src/main.rs:365-367 | a label offered by completion gets documentation when it round-trips and its email is lower case |
| LanguageServer.Server.FixedDiagnostics | src/main.rs:404-409 | exactly the stored diagnostics whose range holds the position |

## Left out

- The regular expressions are left out. The mailbox pattern of src/mailbox.rs:6-11 and the email pattern of src/main.rs:622 are foreign components. They come in as lists of matches with offsets: `Captures`, and `Match` with the `find` parameter. The selection of the mailbox under the cursor is proved for any list of captures; the well-formedness predicate `MatchesOf` is used only by the lemmas that check the source's test lines.
- The LSP transport is left out: connection setup, initialisation options, JSON (de)serialisation, URL conversion, publishing and logging. Request dispatch is modelled only as far as the shutdown flag, `open_files` and the lookups named above.
- The execute-command request of src/main.rs:437-495 is not modelled beyond `LegacyVCards.VCardDir.CreateContact`.
- Disk I/O is left out. This covers directory scans, file reads, and the file that `create_contact` writes. File contents, and the disk fallback of `get_file_content`, are parameters.
- The uuid of a new card file is a parameter (`path`).
- VCards.Before: orders whole paths character by character, while `BTreeMap<PathBuf>` (src/vcards.rs:16) compares path components. The two orders agree here only because every key is the root joined with one file name (src/vcards.rs:71, 98-103); paths of other shapes are not modelled.
- Home-directory expansion (src/main.rs:205-211) is left out.
- The vcard4 crate is left out, including vCard parsing and serialisation. A card is a record of formatted names, nicknames, emails and telephones, each with an optional type. A telephone's `Display` is taken to be its value.
- `LineIndex` in src/main.rs:634-636 is modelled as `DocumentStore.PositionAt`, which counts newlines and columns up to the offset.
- Unicode is left out. Lower-casing and `is_alphanumeric` are ASCII only, and text is assumed ASCII, so byte, character and UTF-16 offsets agree.
- Position fields are unbounded naturals instead of `u32`.
- The severity field of a diagnostic is not modelled. It is always a hint.
- LanguageServer.Server.DidChange: a panic in the source (`unwrap` on a closed document, `replace_range` on a reversed range) becomes an `Err` result that leaves the state unchanged. The edits applied before the panic, and the end of the process, are not modelled.
- LanguageServer.Server.DidChange: it uses the corrected offset of `DocumentStore.ResolvePosition` (see Findings). `DocumentStore.ResolvePositionAsWritten` models the source's loop.
- LanguageServer.ApplyEdits: resolves each position with the corrected `DocumentStore.ResolvePosition`, so a ranged edit at (0,0) of non-empty text lands at offset 0, where src/main.rs:547-549 with `resolve_position` as written puts it at offset 1 (see Findings).
- DocumentStore.ApplyChange: uses the corrected `PositionOffset`, not the source's `ScanOffset`, for the same reason; `DocumentStore.InsertAtTextStart` shows where the two differ.
- ContactLists.ContactList.FindMatching: the order of the result, which follows the hash map's iteration order, is not stated.
- src/contact_source.rs (a trait with stale signatures) and src/lib.rs (module wiring) are not part of this model.

## Findings

| source | as written | input that shows it | evidently intended | confidence | as-written member | corrected member |
|---|---|---|---|---|---|---|
| src/main.rs:859-875 | `resolve_position` consumes a character before it tests whether the position is reached, so every offset is at least 1 and the start of the text cannot be addressed | inserting `X` at (0,0)-(0,0) of `abc` gives `aXbc` | the offset of (0,0) is 0, so the edit gives `Xabc` | not executed | DocumentStore.InsertAtTextStart | DocumentStore.ResolvePosition |
