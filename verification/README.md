# The CoI Pond, modelled in Dafny

The CoI Pond is a website where players of the factory game Captain of
Industry share blueprints. A blueprint is a text string. It decodes to a
single blueprint or to a folder tree of blueprints. This project models the
site's core logic as pure Dafny functions over immutable data, and proves
what the code promises about it:

- **the folder minimum version** (`Folders`): `getMinGameVersion`'s
  depth-first fold, which compares version strings as text. With every leaf
  version non-empty it is proved to return the least leaf version. The
  result depends only on the set of leaf versions. The fold's quirks with
  empty versions and leafless folders are modelled too. The tree-view
  labelling used by both details pages is proved to show every leaf once.
- **the details page** of both front ends (`Details`, `Deletion`):
  - edit permission;
  - the parse gate that runs while new text is typed;
  - the content save, which writes the record and its version ledger in one
    transaction;
  - the name and description saves;
  - deletion: screenshot first, then record and ledger in one batch, then the
    session's list of recently deleted ids.

  All of these preserve the co-commit invariant. That invariant says an
  existing ledger is never empty and its newest entry holds the record's
  current text.
- **the list page** of both front ends (`SearchIndices`, `Listing`):
  - the six search indices and which one a sort field and direction select;
  - the query sent;
  - the hiding of recently deleted ids;
  - the page/sort/search state machine with its reload rule, which follows
    React effect dependencies;
  - the navigation controls and the "Displaying a-b of n" range.
- **the add page** (`NewBlueprint`):
  - the form handlers;
  - the preview record;
  - the submit gate;
  - the screenshot object path;
  - the submit itself.
- **the page server** (`MetaServer`):
  - HTML escaping, proved equal to a character-wise reference escaper;
  - routing of `/blueprints/<id>`;
  - the meta tags built for a blueprint;
  - the substitution into the page template.
- **the blueprint card** (`Card`) and **the sign-up form** (`Signup`).

JavaScript built-ins the code relies on are written out in `JsStrings`:

- `<` on strings, which is lexicographic by character code. Dafny's own `<`
  on sequences means proper prefix.
- `trim`, `split`, `indexOf`, `lastIndexOf`, and `replace` with a string
  pattern.

`Wrappers` holds `Option`, `Result` and JavaScript truthiness of an optional
string. `Records` holds the stored shapes and the store.

Several things become parameters of the functions that use them:

- the outcome of every external call: a transaction commit, a storage
  delete, a batch, an upload, a write, a lookup, a registration;
- the blueprint parser's result;
- timestamps.

The older router-based pages and the newer app-directory pages carry the same
handlers with small differences. `Records.Variant` selects between them
wherever they differ.

## Model

| member | source | states |
|---|---|---|
| Folders.GetMinGameVersion | src/utils.ts:39-50 | "folder must not be empty" exactly for a root with no blueprints and no sub-folders; a returned version is non-empty and is the version of some leaf |
| Folders.MinInternalIsLeafVersion | src/utils.ts:20-36 | the internal fold returns undefined or the version of some leaf of the tree |
| Folders.LeafFoldIsLeafVersion | src/utils.ts:24-28 | the loop over a folder's blueprints keeps its start value or picks one of their versions |
| Folders.SubFoldIsLeafVersion | src/utils.ts:29-34 | the loop over sub-folders keeps its start value or picks a version from inside them |
| Folders.StepIsLeast | src/utils.ts:25-27 | one comparison step keeps the least of the candidates seen so far in string order |
| Folders.LeafFoldIsLeast | src/utils.ts:24-28 | with no empty version, the blueprint loop ends on the least of the start value and the blueprint versions |
| Folders.SubFoldIsLeast | src/utils.ts:29-34 | with no empty version, the sub-folder loop ends on the least of the start value and all versions inside the sub-folders |
| Folders.MinInternalIsLeast | src/utils.ts:20-36 | with no empty version the internal minimum is falsy exactly for a leafless tree and is the least leaf version otherwise |
| Folders.LeastThroughRepresentative | src/utils.ts:31 | a sub-folder's minimum stands for all of its versions in the parent's comparison |
| Folders.LeastIsUnique | src/utils.ts:39-50 | two least versions of one set are equal |
| Folders.MinGameVersionIsLeast | src/utils.ts:39-50 | with every leaf version non-empty and at least one leaf, the result is the least leaf version in JavaScript string order |
| Folders.MinGameVersionOrderIndependent | src/utils.ts:20-50 | two trees with the same (non-empty) set of leaf versions give the same result, whatever the order or nesting |
| Folders.MinGameVersionPermutedBlueprints | src/utils.ts:24-28 | reordering a folder's blueprints does not change its minimum |
| Folders.LeaflessRootFails | src/utils.ts:44-47 | a non-empty root whose sub-folders hold no leaf gives "could not determine min game version" |
| Folders.LeaflessSubfolderSkipped | src/utils.ts:29-34 | inserting a leafless sub-folder anywhere leaves the result unchanged |
| Folders.SubFoldSkips | src/utils.ts:30-31 | a falsy sub-folder minimum is skipped by the loop |
| Folders.TextualMinimumExample | src/utils.ts:25 | "1.0.10" is the minimum of 1.0.3, 1.0.10 and 1.0.2, because versions compare as text |
| Folders.EmptyVersionResetsMinimum | src/utils.ts:25-26 | an empty version resets the running minimum, so a later larger version wins; an empty version last makes the fold fail |
| Folders.TreeViewDataShape | src/BlueprintDetails.tsx:427-441 | a folder's node lists its labelled blueprints in order, then one node per sub-folder in order |
| Folders.ForestViewShape | src/app/components/BlueprintDetails/BlueprintDetails.tsx:381-383 | one node per sub-folder, in order |
| Folders.ItemsCountAppend | src/BlueprintDetails.tsx:428-436 | leaf items of two child lists add up |
| Folders.ItemsCountLeaves | src/BlueprintDetails.tsx:429-433 | a folder's own blueprints contribute one leaf item each |
| Folders.TreeViewShowsEveryLeaf | src/app/components/BlueprintDetails/BlueprintDetails.tsx:374-388 | the tree view has exactly one leaf item per blueprint of the tree |
| Folders.ForestViewShowsEveryLeaf | src/BlueprintDetails.tsx:434-436 | the sub-folder nodes together show every blueprint inside the sub-folders |
| Records.KindCode | src/BlueprintAdd.tsx:76 | the stored kind is "f" exactly for a folder, otherwise "b" |
| Details.FirstSaveLedgerOwner | src/app/components/BlueprintDetails/BlueprintDetails.tsx:319-322 | a record's first save creates a ledger owned by the saving user, so the ledger belongs to the record's owner exactly when the edit controls (lines 111-115) were shown to that user |
| Details.ParseEffect | src/app/components/BlueprintDetails/BlueprintDetails.tsx:145-162 | the typed text gets a parse exactly when it is non-empty, parses, and (for a folder) has a determinable minimum; otherwise the parse is cleared and the minimum kept |
| Details.AcceptedParseHasLeafVersion | src/BlueprintDetails.tsx:190-207 | an accepted parse saves the blueprint's own version, or for a folder its computed minimum, which is a non-empty version of one of its leaves |
| Details.EmptyFolderBlocksSave | src/BlueprintDetails.tsx:195-203 | an empty folder is refused by the gate |
| Details.NextLedger | src/app/components/BlueprintDetails/BlueprintDetails.tsx:295-318 | the new entry goes in front of the stored history; without one a fresh two-entry ledger also snapshots the pre-edit record |
| Details.CommitContent | src/app/components/BlueprintDetails/BlueprintDetails.tsx:295-339 | the transaction succeeds exactly when it commits and the record exists, and then writes ledger and record together and nothing else |
| Details.SaveNeedsUserAndParse | src/app/components/BlueprintDetails/BlueprintDetails.tsx:280-282 | without a user or an accepted parse the save does nothing |
| Details.SaveIdenticalTextIsNoOp | src/app/components/BlueprintDetails/BlueprintDetails.tsx:283-287 | saving text identical to the record's leaves store, ledger and record alone |
| Details.SaveFailureIsAtomic | src/BlueprintDetails.tsx:408-418 | a transaction that does not commit changes nothing in the store or on the page |
| Details.SaveCommitsRecordAndLedgerTogether | src/BlueprintDetails.tsx:362-395 | after a save the ledger grew by exactly one entry at the front (or was created with two), its newest entry matches the record, and nothing else changed |
| Details.SaveLocalState | src/app/components/BlueprintDetails/BlueprintDetails.tsx:341-350 | the page's record copy takes the new text and version but keeps the old kind; the newer page shows the stored ledger, the older one the ledger it had |
| Details.SavePreservesConsistency | src/BlueprintDetails.tsx:343-425 | saving preserves the co-commit invariant |
| Details.SaveTwiceSecondIsNoOp | src/app/components/BlueprintDetails/BlueprintDetails.tsx:283-287 | saving the text just saved a second time adds no ledger entry |
| Details.EditScenario | src/app/components/BlueprintDetails/BlueprintDetails.tsx:278-372 | editing "B1" at 1.2.0 to "B2" at 1.3.0 gives a two-entry ledger, and saving "B2" again changes nothing |
| Details.SaveNameContract | src/app/components/BlueprintDetails/BlueprintDetails.tsx:227-253 | a blank name is never saved; a saved name is stored as typed; only the newer page trims its local copy; nothing else changes |
| Details.NameSavePreservesConsistency | src/BlueprintDetails.tsx:292-318 | a name save preserves the co-commit invariant |
| Details.DescriptionSavePreservesConsistency | src/BlueprintDetails.tsx:320-341 | a description save preserves the co-commit invariant |
| Records.TextPreservingUpdateIsConsistent | src/BlueprintDetails.tsx:304-307 | an update that keeps the ledgers, the record ids and every record's text keeps the co-commit invariant |
| Deletion.DeleteScreenshot | src/BlueprintDetails.tsx:240-252 | skipped for a falsy screenshot URL; fails only on an error other than "object not found"; removes at most that URL's object |
| Deletion.DeleteAbortPoints | src/app/components/BlueprintDetails/BlueprintDetails.tsx:193-225 | a screenshot failure changes nothing; a failed batch leaves both documents and the session list; a record without a screenshot never touches the object store |
| Deletion.DeleteCompleted | src/BlueprintDetails.tsx:267-287 | a completed delete removes exactly the record and its ledger, leaves every other record and ledger unchanged, removes at most the record's screenshot object, and appends the id to the session list, even when already present |
| Deletion.DeletePreservesConsistency | src/BlueprintDetails.tsx:254-290 | deletion preserves the co-commit invariant |
| Deletion.LegacyDeleteNeedsRouteId | src/BlueprintDetails.tsx:255-257 | the older page does nothing without a route id and otherwise deletes as the newer one does |
| SearchIndices.KeyInTable | src/algolia/client.ts:23-30 | every sort field and direction key is in the table, mapped to its prefixed index |
| SearchIndices.UpdatedKeys | src/algolia/client.ts:24-25 | the two "updated" keys are in the table |
| SearchIndices.DownloadsKeys | src/algolia/client.ts:26-27 | the two "downloads" keys are in the table |
| SearchIndices.ViewsKeys | src/algolia/client.ts:28-29 | the two "views" keys are in the table |
| SearchIndices.IndexFor | src/app/components/BlueprintList/BlueprintList.tsx:50 | the lookup never misses, and the index is `blueprints_<sort>_<direction>` |
| SearchIndices.IndicesTable | src/algolia/client.ts:23-30 | the table holds six distinct keys |
| SearchIndices.IndicesArePrefixed | src/algolia/client.ts:23-30 | every index name is its key with the `blueprints_` prefix |
| SearchIndices.IndicesKeysAreRequests | src/algolia/client.ts:23-30 | every key of the table is requested by some sort field and direction |
| SearchIndices.IndexForInjective | src/app/components/BlueprintList/BlueprintList.tsx:50 | different sort settings select different indices |
| SearchIndices.DownloadsDescending | src/algolia/client.ts:26 | sorting by downloads, descending, selects the descending downloads index |
| SearchIndices.LegacyIndexFor | src/BlueprintList.tsx:50-51 | the older page picks the ascending index exactly for "asc" and the descending one otherwise |
| SearchIndices.LegacyAgreesOnUpdated | src/services/algolia.ts:22-23 | the older page's two indices are the newer table's two "updated" indices |
| Listing.Initial | src/app/components/BlueprintList/BlueprintList.tsx:32-40 | the list starts on page 0, most recently updated first, loading, with no search |
| Listing.FacetFilter | src/app/components/BlueprintList/BlueprintList.tsx:51-53 | an owner filter is sent exactly for a non-empty username |
| Listing.CurrentQuery | src/app/components/BlueprintList/BlueprintList.tsx:54-59 | the query carries the debounced text, the page, 20 hits per page, relevancy strictness 0, the selected index and the owner filter (newer page); the older page ignores sort and filter |
| Listing.LegacyQueryIgnoresSort | src/BlueprintList.tsx:52-56 | on the older page the sort selector never reaches the query |
| Listing.NextQuerySeparatesSettings | src/app/components/BlueprintList/BlueprintList.tsx:50 | on the newer page equal indices mean equal sort and direction |
| Listing.FilterTombstones | src/app/components/BlueprintList/BlueprintList.tsx:61-63 | the shown hits are returned hits whose id is not among the recently deleted |
| Listing.FilterTombstonesMembership | src/app/components/BlueprintList/BlueprintList.tsx:61-63 | a hit is shown exactly when it was returned and its id is not recently deleted |
| Listing.FilterTombstonesAppend | src/BlueprintList.tsx:58-60 | filtering works piecewise, so the surviving hits keep the results' order |
| Listing.FilterTombstonesIdentity | src/BlueprintList.tsx:58-60 | with nothing deleted among the hits every hit is shown |
| Listing.DeletedBlueprintHidden | src/app/components/BlueprintList/BlueprintList.tsx:47-63 | a blueprint deleted in this session is hidden from every later listing, whatever the index returns |
| Listing.Step | src/app/components/BlueprintList/BlueprintList.tsx:42-72 | an event reloads (spinner on, list cleared) exactly when a dependency of the load effect changed; otherwise loading state and list stay |
| Listing.PageResets | src/app/components/BlueprintList/BlueprintList.tsx:74-99 | the debounce copies the typed text and returns to page 0; sort (newer page) and direction changes return to page 0; the older page's sort change changes nothing else |
| Listing.TypingDoesNotReload | src/app/components/BlueprintList/BlueprintList.tsx:74-81 | typing alone changes neither the query nor the list |
| Listing.PagingReloads | src/app/components/BlueprintList/BlueprintList.tsx:83-89 | the arrows move one page and start a fresh load |
| Listing.ResultsUnadjusted | src/app/components/BlueprintList/BlueprintList.tsx:61-68 | arriving results show the filtered hits while count and pages come unadjusted from the service |
| Listing.StepKeepsPageNonNegative | src/app/components/BlueprintList/BlueprintList.tsx:83-89 | an available event never makes the page negative |
| Listing.RunKeepsPageNonNegative | src/app/components/BlueprintList/BlueprintList.tsx:180-192 | along any run of available events the page stays non-negative |
| Listing.DisplayRange | src/app/components/BlueprintList/BlueprintList.tsx:189-190 | the range starts at page * 20 + 1, spans the shown hits, and reports the service's count |
| Listing.Navigation | src/app/components/BlueprintList/BlueprintList.tsx:180-192 | Previous is offered exactly past page 0 and Next exactly before the last page, both only under a loaded, non-empty list |
| Listing.FilteredRangeExample | src/BlueprintList.tsx:170-182 | a page with a hidden hit shows "1-1 of 2", so the count is not corrected |
| NewBlueprint.OnNameInput | src/BlueprintAdd.tsx:147 | the name field keeps at most 50 characters and changes nothing else |
| NewBlueprint.OnFileSelected | src/BlueprintAdd.tsx:41-46 | the file error is set exactly for a file over 5 MB |
| NewBlueprint.OnBlueprintInput | src/BlueprintAdd.tsx:48-59 | the field holds the trimmed text; a changed non-empty text takes the parser's outcome, with an error exactly when it fails; an emptied field keeps the old parse |
| NewBlueprint.FileSizeDoesNotGateSubmit | src/BlueprintAdd.tsx:212 | an oversized screenshot shows an error but leaves the submit gate as it was |
| NewBlueprint.Preview | src/BlueprintAdd.tsx:61-86 | no preview without a user or a parse; an error exactly when a folder's minimum version fails |
| NewBlueprint.PreviewRecord | src/BlueprintAdd.tsx:73-85 | the preview's owner, name placeholder, kind, text, version, zero counters and equal timestamps, field by field |
| NewBlueprint.PreviewFolderVersionIsLeast | src/BlueprintAdd.tsx:67-70 | a folder preview carries the least leaf version |
| NewBlueprint.ScreenshotPath | src/BlueprintAdd.tsx:104-110 | the object path is `/blueprints/<id>.` followed by the dot-free text after the file name's last dot, or the whole name when it has no dot |
| NewBlueprint.ScreenshotPathOfDottedName | src/BlueprintAdd.tsx:107-109 | for `stem.ext` the extension is `ext`, whatever dots the stem holds |
| NewBlueprint.ScreenshotPathOfPlainName | src/BlueprintAdd.tsx:107-109 | a name without a dot is used whole as the extension |
| NewBlueprint.Submit | src/BlueprintAdd.tsx:88-127 | without a user nothing happens; a rejected upload changes nothing; a rejected URL fetch (lines 111-112, 119-125) leaves the uploaded object and writes no record; no ledger is ever written |
| NewBlueprint.SubmitCreatesPreview | src/BlueprintAdd.tsx:99-117 | a created record is the preview with fresh timestamps and the uploaded URL exactly when a file was chosen; no other record changes |
| NewBlueprint.SubmitPreservesConsistency | src/BlueprintAdd.tsx:99-117 | a submit under a freshly generated id writes no ledger and so preserves the co-commit invariant |
| NewBlueprint.SubmitWritesPreview | src/BlueprintAdd.tsx:66-117 | submitting the page's preview stores the typed blueprint under the signed-in user with the parse's kind and, for a folder, the least leaf version |
| NewBlueprint.ClearingKeepsStaleParse | src/BlueprintAdd.tsx:48-59 | clearing the field keeps the previous parse, so the submit gate is as open as before |
| NewBlueprint.StaleParseAfterClearing | src/BlueprintAdd.tsx:48-59 | entering text that parses and then clearing the field leaves the gate open with an empty blueprint |
| NewBlueprint.StaleParseWitness | src/BlueprintAdd.tsx:176 | "X" and "" are their own trims, so they meet the conditions of the run above |
| NewBlueprint.OnBlueprintInputIntended | src/BlueprintAdd.tsx:48-59 | the corrected effect: an empty field holds no parse; otherwise it agrees with the effect as written |
| NewBlueprint.IntendedInputKeepsParseHasText | src/BlueprintAdd.tsx:212 | under the corrected effect an open submit gate always comes with a non-empty blueprint |
| NewBlueprint.AsWrittenInputBreaksParseHasText | src/BlueprintAdd.tsx:48-59 | the effect as written breaks that invariant |
| MetaServer.ReplaceAllChar | server/index.js:20-24 | a global single-character replace removes the character when the replacement lacks it and introduces nothing new |
| MetaServer.ReplaceAllCharAppend | server/index.js:20-24 | a global replace distributes over concatenation |
| MetaServer.ReplaceAllCharAbsent | server/index.js:20-24 | a global replace leaves text without the character alone |
| MetaServer.ReplaceAllCharSingle | server/index.js:20-24 | on one character, a global replace substitutes exactly a matching character |
| MetaServer.Sanitize | server/index.js:15-25 | empty text comes back as is; the escaped text holds no angle bracket or quote |
| MetaServer.EscapeCharwise | server/index.js:19-24 | the reference escaper removes the four characters and never shortens the text |
| MetaServer.EscapeChainAppend | server/index.js:19-24 | the replacement chain distributes over concatenation |
| MetaServer.EscapeChainSingle | server/index.js:19-24 | the chain maps each character to its own entity, because ampersand goes first |
| MetaServer.AmpersandEntityIsInert | server/index.js:20 | "&amp;" holds none of the characters the later steps replace |
| MetaServer.ChainOfAmpersand | server/index.js:20 | an ampersand becomes "&amp;" and nothing more |
| MetaServer.LessEntityIsInert | server/index.js:21 | "&lt;" holds none of the characters the later steps replace |
| MetaServer.ChainOfLess | server/index.js:21 | "<" becomes "&lt;" |
| MetaServer.GreaterEntityIsInert | server/index.js:22 | "&gt;" holds none of the characters the later steps replace |
| MetaServer.ChainOfGreater | server/index.js:22 | ">" becomes "&gt;" |
| MetaServer.QuoteEntityIsInert | server/index.js:23 | "&quot;" holds no apostrophe |
| MetaServer.ChainOfQuote | server/index.js:23 | a double quote becomes "&quot;" |
| MetaServer.ChainOfApostrophe | server/index.js:24 | an apostrophe becomes "&#039;" |
| MetaServer.ChainOfPlain | server/index.js:19-24 | every other character passes through |
| MetaServer.SanitizeIsCharwise | server/index.js:19-24 | the five-step chain equals the character-wise reference escaper |
| MetaServer.EscapeCharwiseAppend | server/index.js:19-24 | the reference escaper distributes over concatenation |
| MetaServer.SanitizeAppend | server/index.js:15-25 | escaping distributes over concatenation |
| MetaServer.EscapeCharwiseIdentity | server/index.js:19-24 | the reference escaper leaves text without special characters alone |
| MetaServer.SanitizeIdentity | server/index.js:15-25 | text without any of the five characters is left as is |
| MetaServer.EscapeCharwiseGrows | server/index.js:19-24 | text with a special character grows and gains an ampersand |
| MetaServer.SanitizeNotIdempotent | server/index.js:15-25 | escaping text with a special character twice differs from escaping it once |
| MetaServer.SanitizeAmpersand | server/index.js:20 | an ampersand is escaped whatever follows it, even an existing entity |
| MetaServer.RouteId | server/index.js:45-47 | a path is routed exactly when it splits into three pieces with "blueprints" in the middle; the id is the third piece |
| MetaServer.RouteIdRoundTrip | server/index.js:45-51 | a path yields id `id` exactly when it is `pre/blueprints/id` with no slash in `pre` or `id` |
| MetaServer.RoutePathSplits | server/index.js:45-47 | every `pre/blueprints/id` with slash-free parts routes to `id` |
| MetaServer.RouteIdExamples | server/index.js:45-51 | "/blueprints/abc" routes to "abc", and "/blueprints/" routes to the empty id |
| MetaServer.TitlePrefixIsSafe | server/index.js:54 | the title prefix needs no escaping |
| MetaServer.MissingNameIsSafe | server/index.js:54 | the text a missing name interpolates as needs no escaping |
| MetaServer.PageTitle | server/index.js:54 | the title is the prefix and the escaped name (or "undefined"), with no quote or angle bracket |
| MetaServer.BlueprintMeta | server/index.js:55-66 | base tags, the title in three places, the card type, and the three image tags exactly when a screenshot URL is present |
| MetaServer.BlueprintMetaEscapes | server/index.js:53-66 | the name reaches the tags only escaped; the screenshot URL is the only stored text placed verbatim, and only in the image tags |
| MetaServer.MetaFor | server/index.js:44-76 | default tags unless the path names a blueprint the lookup found, including on lookup failure |
| MetaServer.Serve | server/index.js:77-86 | a missing template is a 404; otherwise only the first placeholder is replaced by the tags |
| MetaServer.CardTypeFollowsScreenshot | server/index.js:59 | the large-image card exactly when the screenshot URL is non-empty; the default tags carry only the tagline and title |
| Card.ScreenshotPrecedence | src/app/components/BlueprintCard/BlueprintCard.tsx:30-38 | a non-empty override wins; then the placeholder without id or screenshot; then the stored URL; never empty |
| Card.CardLink | src/app/components/BlueprintCard/BlueprintCard.tsx:105-114 | the card links exactly when an id is given, to `/blueprints/<id>` |
| Card.LinkAndShareAgree | src/app/components/BlueprintCard/BlueprintCard.tsx:64-71 | the share URL exists exactly when the link does and is the origin followed by the link |
| Card.EmptyIdAsymmetry | src/app/components/BlueprintCard/BlueprintCard.tsx:33 | an empty id still links, yet the image falls back to the placeholder |
| Card.CardWithoutId | src/app/components/BlueprintCard/BlueprintCard.tsx:123-131 | without an id the card neither links nor shares |
| Card.CardLinkRoutesBack | src/app/components/BlueprintCard/BlueprintCard.tsx:110 | a card's link routes, on the page server, back to the same id |
| Card.KindIcon | src/app/components/BlueprintCard/BlueprintCard.tsx:76 | the folder icon exactly for kind "f" |
| Card.KindLabel | src/app/components/BlueprintCard/BlueprintCard.tsx:95 | "Min version:" exactly for kind "f", "Version:" otherwise |
| Card.IconMatchesLabel | src/app/components/BlueprintCard/BlueprintCard.tsx:76-95 | icon and label agree; a card of a saved folder shows the folder icon; a hit without kind shows "Version:" |
| Card.CopyText | src/app/components/BlueprintCard/BlueprintCard.tsx:40-62 | a record copies its own text; a hit copies the fetched record's text, or fails exactly when that record is missing |
| Signup.MatchUsername | src/Signup.tsx:88 | the matcher accepts exactly 3 to 25 ASCII letters or digits |
| Signup.EnterUsername | src/Signup.tsx:85 | the username field keeps at most 25 characters and changes nothing else |
| Signup.EnteredUsernameErrors | src/app/signup/page.tsx:86-89 | an entered username shows the error exactly when it is non-empty and too short or holds another character |
| Signup.InvalidUsernameSubmittable | src/Signup.tsx:130-136 | a username showing the error can still be submitted |
| Signup.ShortUsernameExample | src/app/signup/page.tsx:131-137 | "ab" shows the error and can be submitted |
| Signup.ConfirmErrorDisablesSubmit | src/Signup.tsx:121 | a shown confirmation error disables submit; an empty confirmation disables it without an error |
| Signup.ErrorMessage | src/Signup.tsx:40-46 | "Username already exists" exactly for a taken username, otherwise "Could not create user" |
| Signup.Submit | src/app/signup/page.tsx:31-49 | the page is left exactly on success; a failure stops loading and shows the message; the fields stay |
| Signup.FailedSubmitCanRetry | src/Signup.tsx:30-48 | after a failure the same form can be submitted again |
| JsStrings.LexLessIrreflexive | src/utils.ts:25 | no string is below itself |
| JsStrings.LexLessTransitive | src/utils.ts:25 | string order is transitive |
| JsStrings.LexLessTotal | src/utils.ts:31 | two different strings are always comparable |
| JsStrings.LexLessAsymmetric | src/utils.ts:31 | string order is asymmetric |
| JsStrings.EmptyIsLeast | src/utils.ts:25 | the empty string is below every other string |
| JsStrings.TextualVersionOrder | src/utils.ts:25 | "1.0.10" is below "1.0.2" and "1.0.3" as text |
| JsStrings.TrimStart | src/BlueprintAdd.tsx:176 | a suffix whose first character is not whitespace, with everything cut off whitespace |
| JsStrings.TrimEnd | src/BlueprintAdd.tsx:176 | a prefix whose last character is not whitespace, with everything cut off whitespace |
| JsStrings.Trim | src/BlueprintAdd.tsx:176 | the trim is a contiguous slice with no leading or trailing whitespace |
| JsStrings.TrimKeepsTrimmed | src/BlueprintAdd.tsx:176 | text without edge whitespace is its own trim |
| JsStrings.TrimIdempotent | src/BlueprintAdd.tsx:176 | trimming twice is trimming once |
| JsStrings.BlankIffAllWhitespace | src/app/components/BlueprintDetails/BlueprintDetails.tsx:231-234 | a name trims to empty exactly when it is whitespace only |
| JsStrings.TrimStartAllWhitespace | src/BlueprintDetails.tsx:296 | whitespace-only text trims to empty from the start |
| JsStrings.Split | server/index.js:45 | the pieces are at least one and hold no separator |
| JsStrings.JoinSplit | server/index.js:45 | joining the pieces back gives the path |
| JsStrings.SplitJoin | server/index.js:45 | splitting a join of separator-free pieces gives the pieces |
| JsStrings.SplitAlone | server/index.js:45 | a separator-free string is one piece |
| JsStrings.SplitPiece | server/index.js:45 | a separator-free piece before the separator becomes the first piece |
| JsStrings.IndexOfFrom | server/index.js:84 | the first occurrence at or after a position, or -1 with none there |
| JsStrings.IndexOf | server/index.js:84 | the first occurrence, or -1 when there is none |
| JsStrings.ReplaceFirst | server/index.js:84 | a string pattern replaces its first occurrence only, and text without it is unchanged |
| JsStrings.LastIndexOf | src/BlueprintAdd.tsx:108 | the position of the last occurrence, or -1 |
| JsStrings.AfterLast | src/BlueprintAdd.tsx:107-109 | the text after the last dot, holding no dot, or the whole name when there is none |
| JsStrings.AfterLastOfSuffix | src/BlueprintAdd.tsx:107-109 | the text after the last dot of `stem.ext` is `ext` when `ext` has no dot |

## Left out

- The blueprint parser is not part of this model. Its outcome is a parameter:
  a parsed tree, or `None` when it throws.
- Reads and writes of the document store, the object store and the search
  service, the server's template file, the clipboard, navigation and
  snackbars are all I/O. Each call's outcome is a parameter of the function
  that makes it.
- Timestamps from the client clock and the server are opaque integers
  supplied from outside. `Timestamp.fromDate` and the date rendering of the
  card are left out.
- In a content save on the details pages, one client time `now` stands
  for two clock reads in the source: `new Date()` for the new ledger entry and `DateTime.now()`
  for the page's local `updated`. The model does not promise that they
  differ or agree.
- The 500 ms debounce timer is one `DebounceFired` event. Timer
  cancellation is the `pendingDebounce` flag. Wall-clock timing is not
  modelled.
- Results that arrive for an outdated query, racing a newer load, are not
  modelled. `ResultsArrived` is only available while loading.
- The load effect of the newer list page also depends on the `props` object's
  identity. A parent re-render that supplies a new object reloads the list,
  and the model does not include that.
- The session list of recently deleted ids is a `seq<Id>`. Its JSON
  encoding in `sessionStorage` is left out.
- The screenshot upload and replacement on the details pages are left out.
  They share the object store handling with the add page, which is
  modelled.
- Firebase authentication plumbing, the login and reset-password pages, and
  the `registerWithEmailAndPassword` call are left out. Registration is an
  outcome parameter.
- Express routing of static files, the listen call and `firebase-admin`
  initialisation are left out.
- The replacement string of `htmlData.replace` is taken literally. JavaScript
  would interpret `$&`-style patterns in a tag value; the model does not.
- Characters are Dafny `char`s compared by code point. JavaScript compares
  UTF-16 code units, which orders characters outside the Basic Multilingual
  Plane differently. The same holds for lengths: the `maxLength` limits of
  the name and username fields (NewBlueprint.OnNameInput,
  Signup.EnterUsername) count `char`s, while the
  browser counts UTF-16 code units, so a character outside that plane
  counts once here and twice there.
- The 50-character limit of the details pages' name field is not modelled
  there. The typed name reaches the name save as a parameter. The same
  limit on the add page is NewBlueprint.OnNameInput.
- The content-save button on the details pages is also disabled while no
  new parse is present (`disableSave || !newParsedBlueprint`). That gate
  is left out: the save handler itself returns early without a parse, which
  Details.SaveNeedsUserAndParse covers.
- NewBlueprint.Submit: with a missing preview the source writes a document
  holding only the two timestamps. A `Record` cannot hold that, so the
  model reports `Created` and leaves the record map unchanged.
- Card.CopyText: the fetch of the record for a search hit can also throw; only
  a missing record is modelled.
- MetaServer.BlueprintMetaEscapes: the fixed tagline, the card texts and the
  image alt text are not proved free of special characters. Only the title
  prefix and the text "undefined" are.
- The add page's preview effect also re-runs when the selected file changes
  (src/BlueprintAdd.tsx:86). This is not modelled, since the file takes no
  part in the preview record.

## Findings

| source | as written | input that shows it | evidently intended | confidence | as-written member | corrected member |
|---|---|---|---|---|---|---|
| src/BlueprintAdd.tsx:48-59 | the parse effect only parses non-empty text; clearing the blueprint field leaves the previous parse in place, so the submit gate at line 212 stays open and the preview carries an empty blueprint | with name and description filled in, type "X" (accepted by the parser), then clear the field | an empty blueprint field holds no parse, so submit is disabled until new text parses | not executed | NewBlueprint.StaleParseAfterClearing | NewBlueprint.IntendedInputKeepsParseHasText |
