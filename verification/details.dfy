/** The details page handlers of both front ends: who may edit, the parse
    gate that runs while new text is typed, saving new content together with
    the version ledger, and saving a new name or description. */
module Details {
  import opened Wrappers
  import opened JsStrings
  import opened Folders
  import opened Records

  // ---------------------------------------------------------------------------
  // Edit permission
  // ---------------------------------------------------------------------------

  /** The `canEdit` flag: a signed-in user looking at a loaded record they own. */
  predicate CanEdit(user: Option<User>, doc: Option<Record>)
  {
    user.Some? && doc.Some? && user.value.uid == doc.value.uid
  }

  // ---------------------------------------------------------------------------
  // The editor and its parse gate
  // ---------------------------------------------------------------------------

  /** The content editor's state: the typed text, its accepted parse (null
      when the text cannot be saved) and the folder minimum computed for it. */
  datatype Editor = Editor(newBlueprint: string, newParsed: Option<Parsed>, newMinGameVersion: string)

  /** The effect that runs when the typed text changes. `parsed` is what the
      external parser returned for `e.newBlueprint` (`None` when it threw).
      Empty text, a parse error, and a folder whose minimum version cannot be
      determined all leave the parse null; the minimum is then left as it was. */
  function ParseEffect(e: Editor, parsed: Option<Parsed>): (e': Editor)
    ensures e'.newBlueprint == e.newBlueprint
    ensures e'.newParsed.Some? <==>
      e.newBlueprint != "" && parsed.Some?
      && (parsed.value.Group? ==> GetMinGameVersion(parsed.value.folder).Ok?)
    ensures e'.newParsed.Some? ==> e'.newParsed == parsed
    ensures e'.newParsed.None? ==> e'.newMinGameVersion == e.newMinGameVersion
  {
    if e.newBlueprint == "" then e.(newParsed := None)
    else match parsed
      case None => e.(newParsed := None)
      case Some(Single(_)) => e.(newParsed := parsed, newMinGameVersion := "")
      case Some(Group(f)) =>
        match GetMinGameVersion(f)
        case Ok(v) => e.(newParsed := parsed, newMinGameVersion := v)
        case Err(_) => e.(newParsed := None)
  }

  /** What the parse gate lets through is always a leaf's version: the game
      version a save would write is the single blueprint's own, or a non-empty
      version of some leaf of the folder. */
  lemma AcceptedParseHasLeafVersion(e: Editor, parsed: Option<Parsed>)
    requires ParseEffect(e, parsed).newParsed.Some?
    ensures var e' := ParseEffect(e, parsed);
      var v := SavedGameVersion(e'.newParsed.value, e'.newMinGameVersion);
      match e'.newParsed.value
      case Single(b) => v == b.gameVersion
      case Group(f) => v != "" && v in TreeVersions(f) && v == GetMinGameVersion(f).value
  {
  }

  /** An empty folder is caught by the gate and blocks saving. */
  lemma EmptyFolderBlocksSave(e: Editor, f: Folder)
    requires |f.blueprints| == 0 && |f.blueprintFolders| == 0
    ensures ParseEffect(e, Some(Group(f))).newParsed.None?
  {
  }

  // ---------------------------------------------------------------------------
  // Saving new content: one transaction over record and ledger
  // ---------------------------------------------------------------------------

  /** The local state of a details page. */
  datatype Page = Page(doc: Record, ledger: Option<Ledger>, editing: bool, editor: Editor)

  datatype SaveOutcome = NotAttempted | Unchanged | Saved | SaveFailed

  /** The entry for the new content, stamped with the client's clock. */
  function NewEntry(e: Editor, now: Time): VersionEntry
    requires e.newParsed.Some?
  {
    VersionEntry(e.newBlueprint, SavedGameVersion(e.newParsed.value, e.newMinGameVersion), now)
  }

  /** The ledger written by the transaction: the new entry in front of the
      stored history, or, when there is none yet, a fresh ledger owned by the
      editor holding the new entry and a snapshot of the pre-edit record. */
  function NextLedger(stored: Option<Ledger>, entry: VersionEntry, before: Record, editor: Uid): (l: Ledger)
    ensures |l.versions| == if stored.Some? then |stored.value.versions| + 1 else 2
    ensures l.versions[0] == entry
    ensures stored.Some? ==> l.uid == stored.value.uid && l.versions[1..] == stored.value.versions
    ensures stored.None? ==> l.uid == editor && l.versions[1..] == [Snapshot(before)]
  {
    match stored
    case Some(prior) => Ledger(prior.uid, [entry] + prior.versions)
    case None => Ledger(editor, [entry, Snapshot(before)])
  }

  /** The record update inside the transaction: text, version and kind are
      recomputed, the server stamps `updated`; nothing else changes. */
  function ContentUpdate(r: Record, e: Editor, serverNow: Time): Record
    requires e.newParsed.Some?
  {
    r.(blueprint := e.newBlueprint,
       gameVersion := SavedGameVersion(e.newParsed.value, e.newMinGameVersion),
       kind := KindCode(e.newParsed.value),
       updated := serverNow)
  }

  /** The transaction: read the ledger, write ledger and record together.
      It fails as a whole when the store rejects it (`commits` false) or when
      the record no longer exists, since updating a missing document fails. */
  function CommitContent(st: Store, id: Id, before: Record, e: Editor, user: User,
                         commits: bool, now: Time, serverNow: Time): (r: Result<(Store, Ledger), ()>)
    requires e.newParsed.Some?
    ensures r.Ok? <==> commits && id in st.records
    ensures r.Ok? ==> r.value.0.blobs == st.blobs
    ensures r.Ok? ==> r.value.0.ledgers == st.ledgers[id := r.value.1]
    ensures r.Ok? ==> r.value.0.records == st.records[id := ContentUpdate(st.records[id], e, serverNow)]
  {
    if !commits || id !in st.records then Err(())
    else
      var stored := if id in st.ledgers then Some(st.ledgers[id]) else None;
      var l := NextLedger(stored, NewEntry(e, now), before, user.uid);
      Ok((st.(records := st.records[id := ContentUpdate(st.records[id], e, serverNow)],
              ledgers := st.ledgers[id := l]), l))
  }

  /** `onSaveBlueprintClick`. Without a user or an accepted parse nothing
      happens; text identical to the record's closes the editor without a
      transaction; otherwise the transaction runs, and on success the local
      record takes the new text and version (but not the new kind). The newer
      front end also adopts the ledger the transaction returns; the older one
      keeps showing the ledger it loaded. */
  function SaveBlueprint(v: Variant, st: Store, id: Id, page: Page, user: Option<User>,
                         commits: bool, now: Time, serverNow: Time): (Store, Page, SaveOutcome)
  {
    var e := page.editor;
    if user.None? || e.newParsed.None? then (st, page, NotAttempted)
    else if e.newBlueprint == page.doc.blueprint then
      (st, page.(editing := false, editor := e.(newParsed := None)), Unchanged)
    else
      match CommitContent(st, id, page.doc, e, user.value, commits, now, serverNow)
      case Err(_) => (st, page, SaveFailed)
      case Ok((st', l)) =>
        var doc' := page.doc.(blueprint := e.newBlueprint,
                              gameVersion := SavedGameVersion(e.newParsed.value, e.newMinGameVersion),
                              updated := now);
        var ledger' := if v == NextApp then Some(l) else page.ledger;
        (st', Page(doc', ledger', false, e.(newParsed := None)), Saved)
  }

  /** Save is blocked without a user or without an accepted parse. */
  lemma SaveNeedsUserAndParse(v: Variant, st: Store, id: Id, page: Page, user: Option<User>,
                              commits: bool, now: Time, serverNow: Time)
    requires user.None? || page.editor.newParsed.None?
    ensures SaveBlueprint(v, st, id, page, user, commits, now, serverNow) == (st, page, NotAttempted)
  {
  }

  /** Saving text identical to the record's is a no-op on the store: no
      transaction, no ledger entry. */
  lemma SaveIdenticalTextIsNoOp(v: Variant, st: Store, id: Id, page: Page, user: Option<User>,
                                commits: bool, now: Time, serverNow: Time)
    requires page.editor.newBlueprint == page.doc.blueprint
    ensures var (st', page', _) := SaveBlueprint(v, st, id, page, user, commits, now, serverNow);
      st' == st && page'.ledger == page.ledger && page'.doc == page.doc
  {
  }

  /** A transaction that does not commit changes nothing, in the store or on
      the page. */
  lemma SaveFailureIsAtomic(v: Variant, st: Store, id: Id, page: Page, user: Option<User>,
                            now: Time, serverNow: Time)
    ensures var (st', page', o) := SaveBlueprint(v, st, id, page, user, false, now, serverNow);
      st' == st && (o != Unchanged ==> page' == page)
  {
  }

  /** After a successful save the ledger has grown by exactly one entry at the
      front (or been created with two), its newest entry holds the record's
      new text and version, the record's kind matches the parse, and no other
      record, ledger or screenshot changed. */
  lemma SaveCommitsRecordAndLedgerTogether(v: Variant, st: Store, id: Id, page: Page, user: Option<User>,
                                           commits: bool, now: Time, serverNow: Time)
    requires SaveBlueprint(v, st, id, page, user, commits, now, serverNow).2 == Saved
    ensures var (st', page', _) := SaveBlueprint(v, st, id, page, user, commits, now, serverNow);
      var e := page.editor;
      && id in st'.records && id in st'.ledgers
      && st'.ledgers[id].versions[0] == NewEntry(e, now)
      && st'.ledgers[id].versions[0].blueprint == st'.records[id].blueprint
      && st'.ledgers[id].versions[0].gameVersion == st'.records[id].gameVersion
      && st'.records[id].kind == KindCode(e.newParsed.value)
      && st'.records[id].blueprint != page.doc.blueprint
      && (id in st.ledgers ==>
            st'.ledgers[id].versions[1..] == st.ledgers[id].versions
            && st'.ledgers[id].uid == st.ledgers[id].uid)
      && (id !in st.ledgers ==>
            st'.ledgers[id] == Ledger(user.value.uid, [NewEntry(e, now), Snapshot(page.doc)]))
      && (forall k :: k != id ==> (k in st'.records <==> k in st.records) && (k in st'.ledgers <==> k in st.ledgers))
      && (forall k :: k in st.records && k != id ==> st'.records[k] == st.records[k])
      && (forall k :: k in st.ledgers && k != id ==> st'.ledgers[k] == st.ledgers[k])
      && st'.blobs == st.blobs
  {
  }

  /** Why the edit controls are limited to the owner: a record's first
      save creates a ledger owned by the saving user, so the new ledger
      belongs to the record's owner exactly when that user could edit. */
  lemma FirstSaveLedgerOwner(v: Variant, st: Store, id: Id, page: Page, user: Option<User>,
                             commits: bool, now: Time, serverNow: Time)
    requires id in st.records && st.records[id].uid == page.doc.uid && id !in st.ledgers
    requires SaveBlueprint(v, st, id, page, user, commits, now, serverNow).2 == Saved
    ensures var st' := SaveBlueprint(v, st, id, page, user, commits, now, serverNow).0;
      st'.ledgers[id].uid == st'.records[id].uid <==> CanEdit(user, Some(page.doc))
  {
    SaveCommitsRecordAndLedgerTogether(v, st, id, page, user, commits, now, serverNow);
  }

  /** Local state after a successful save: the page's record copy takes the
      new text and version but keeps its old `kind`; the newer front end shows
      the ledger now stored, the older one the ledger it had. */
  lemma SaveLocalState(v: Variant, st: Store, id: Id, page: Page, user: Option<User>,
                       commits: bool, now: Time, serverNow: Time)
    requires SaveBlueprint(v, st, id, page, user, commits, now, serverNow).2 == Saved
    ensures var (st', page', _) := SaveBlueprint(v, st, id, page, user, commits, now, serverNow);
      && page'.doc.blueprint == st'.records[id].blueprint
      && page'.doc.gameVersion == st'.records[id].gameVersion
      && page'.doc.kind == page.doc.kind
      && !page'.editing && page'.editor.newParsed.None?
      && (v == NextApp ==> page'.ledger == Some(st'.ledgers[id]))
      && (v == Legacy ==> page'.ledger == page.ledger)
  {
  }

  /** Saving preserves the co-commit invariant of the store. */
  lemma SavePreservesConsistency(v: Variant, st: Store, id: Id, page: Page, user: Option<User>,
                                 commits: bool, now: Time, serverNow: Time)
    requires Consistent(st)
    ensures Consistent(SaveBlueprint(v, st, id, page, user, commits, now, serverNow).0)
  {
    var (st', page', o) := SaveBlueprint(v, st, id, page, user, commits, now, serverNow);
    if o == Saved {
      SaveCommitsRecordAndLedgerTogether(v, st, id, page, user, commits, now, serverNow);
      forall k | k in st'.ledgers
        ensures |st'.ledgers[k].versions| >= 1
        ensures k in st'.records ==> st'.ledgers[k].versions[0].blueprint == st'.records[k].blueprint
      {
        if k != id {
          assert k in st.ledgers;
        }
      }
    }
  }

  /** A second save of the text just saved is a no-op: the ledger keeps the
      one entry the first save added. */
  lemma SaveTwiceSecondIsNoOp(v: Variant, st: Store, id: Id, page: Page, user: Option<User>,
                              now: Time, serverNow: Time, reparsed: Parsed, now2: Time, serverNow2: Time)
    requires SaveBlueprint(v, st, id, page, user, true, now, serverNow).2 == Saved
    ensures var (st1, page1, _) := SaveBlueprint(v, st, id, page, user, true, now, serverNow);
      var again := page1.(editor := page1.editor.(newParsed := Some(reparsed)));
      var (st2, page2, o2) := SaveBlueprint(v, st1, id, again, user, true, now2, serverNow2);
      o2 == Unchanged && st2 == st1 && page2.ledger == page1.ledger
  {
  }

  /** The edit sequence used as the running example: a single blueprint "B1"
      at version "1.2.0" is edited to "B2" at "1.3.0", which creates a
      two-entry ledger; saving "B2" again changes nothing. */
  lemma EditScenario(r0: Record, id: Id, owner: User, now: Time, serverNow: Time)
    requires r0.blueprint == "B1" && r0.gameVersion == "1.2.0" && r0.kind == "b"
    ensures
      var st0 := Store(map[id := r0], map[], {});
      var page0 := Page(r0, None, true, Editor("B2", Some(Single(Blueprint("b", "1.3.0"))), ""));
      var (st1, page1, o1) := SaveBlueprint(NextApp, st0, id, page0, Some(owner), true, now, serverNow);
      && o1 == Saved
      && st1.records[id].gameVersion == "1.3.0" && st1.records[id].blueprint == "B2"
      && st1.ledgers[id].versions == [VersionEntry("B2", "1.3.0", now), VersionEntry("B1", "1.2.0", r0.created)]
      && var page1' := page1.(editing := true, editor := Editor("B2", Some(Single(Blueprint("b", "1.3.0"))), ""));
         var (st2, _, o2) := SaveBlueprint(NextApp, st1, id, page1', Some(owner), true, now, serverNow);
         o2 == Unchanged && st2 == st1 && |st2.ledgers[id].versions| == 2
  {
  }

  // ---------------------------------------------------------------------------
  // Name and description
  // ---------------------------------------------------------------------------

  datatype FieldOutcome = Busy | Rejected | FieldSaved | FieldFailed

  /** `onSaveNameClick`. A name that is blank after trimming is rejected.
      The store receives the name as typed; the newer front end keeps the
      trimmed name locally, the older one the name as typed. The update fails
      when the store rejects it or the record is missing. */
  function SaveName(v: Variant, st: Store, id: Id, page: Page, newName: string, disableSave: bool,
                    ok: bool, now: Time, serverNow: Time): (Store, Page, FieldOutcome)
  {
    if disableSave then (st, page, Busy)
    else if Trim(newName) == "" then (st, page, Rejected)
    else if !ok || id !in st.records then (st, page, FieldFailed)
    else
      var st' := st.(records := st.records[id := st.records[id].(name := newName, updated := serverNow)]);
      var localName := if v == NextApp then Trim(newName) else newName;
      (st', page.(doc := page.doc.(name := localName, updated := now)), FieldSaved)
  }

  /** Blank names never reach the store; a saved name is stored untrimmed,
      and only the newer front end trims its local copy. Text, ledger and every
      other field stay as they were. */
  lemma SaveNameContract(v: Variant, st: Store, id: Id, page: Page, newName: string, disableSave: bool,
                         ok: bool, now: Time, serverNow: Time)
    ensures var (st', page', o) := SaveName(v, st, id, page, newName, disableSave, ok, now, serverNow);
      && (o == FieldSaved <==> !disableSave && ok && id in st.records
                               && exists i :: 0 <= i < |newName| && !IsJsWhitespace(newName[i]))
      && (o != FieldSaved ==> st' == st && page' == page)
      && (o == FieldSaved ==>
            && st'.records == st.records[id := st.records[id].(name := newName, updated := serverNow)]
            && st'.ledgers == st.ledgers && st'.blobs == st.blobs
            && page'.doc == page.doc.(name := page'.doc.name, updated := now)
            && (v == NextApp ==> page'.doc.name == Trim(newName))
            && (v == Legacy ==> page'.doc.name == newName))
  {
    BlankIffAllWhitespace(newName);
  }

  /** `onSaveDescriptionClick`: no blank check; the description is stored and
      kept locally as typed. */
  function SaveDescription(st: Store, id: Id, page: Page, newDescription: string, disableSave: bool,
                           ok: bool, now: Time, serverNow: Time): (Store, Page, FieldOutcome)
  {
    if disableSave then (st, page, Busy)
    else if !ok || id !in st.records then (st, page, FieldFailed)
    else
      var st' := st.(records := st.records[id := st.records[id].(description := newDescription, updated := serverNow)]);
      (st', page.(doc := page.doc.(description := newDescription, updated := now)), FieldSaved)
  }

  /** A name save never touches the text or the ledgers, so the co-commit
      invariant survives it. */
  lemma NameSavePreservesConsistency(v: Variant, st: Store, id: Id, page: Page, newName: string,
                                     disableSave: bool, ok: bool, now: Time, serverNow: Time)
    requires Consistent(st)
    ensures Consistent(SaveName(v, st, id, page, newName, disableSave, ok, now, serverNow).0)
  {
    var (st', _, o) := SaveName(v, st, id, page, newName, disableSave, ok, now, serverNow);
    if o == FieldSaved {
      assert st'.records == st.records[id := st.records[id].(name := newName, updated := serverNow)];
      TextPreservingUpdateIsConsistent(st, st');
    }
  }

  /** The same holds for a description save. */
  lemma DescriptionSavePreservesConsistency(st: Store, id: Id, page: Page, newDescription: string,
                                            disableSave: bool, ok: bool, now: Time, serverNow: Time)
    requires Consistent(st)
    ensures Consistent(SaveDescription(st, id, page, newDescription, disableSave, ok, now, serverNow).0)
  {
    var (st', _, o) := SaveDescription(st, id, page, newDescription, disableSave, ok, now, serverNow);
    if o == FieldSaved {
      assert st'.records == st.records[id := st.records[id].(description := newDescription, updated := serverNow)];
      TextPreservingUpdateIsConsistent(st, st');
    }
  }
}
