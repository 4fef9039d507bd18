/** Deleting a blueprint: the screenshot object first, then record and ledger
    in one batch, and only then the id is remembered in the session's list of
    recently deleted ids. Each external call has an abstract outcome. */
module Deletion {
  import opened Wrappers
  import opened Records

  /** Outcome of deleting the screenshot object. */
  datatype BlobOutcome = BlobDeleted | ObjectNotFound | BlobFailed

  datatype DeleteOutcome = NoRouteId | ScreenshotFailed | BatchFailed | Deleted

  /** `deleteScreenshot`: skipped when the record has no (or an empty)
      screenshot URL; "object not found" is swallowed; any other error is
      raised to the caller. */
  function DeleteScreenshot(blobs: set<string>, screenshotUrl: Option<string>, outcome: BlobOutcome): (r: Result<set<string>, ()>)
    ensures !Truthy(screenshotUrl) ==> r == Ok(blobs)
    ensures r.Err? <==> Truthy(screenshotUrl) && outcome == BlobFailed
    ensures r.Ok? ==> r.value <= blobs && blobs - r.value <= ScreenshotObjects(screenshotUrl)
  {
    if !Truthy(screenshotUrl) then Ok(blobs)
    else match outcome
      case BlobDeleted => Ok(blobs - {screenshotUrl.value})
      case ObjectNotFound => Ok(blobs)
      case BlobFailed => Err(())
  }

  /** The objects a screenshot URL names: none when it is falsy. */
  function ScreenshotObjects(url: Option<string>): set<string>
  {
    if Truthy(url) then {url.value} else {}
  }

  /** `deleteBlueprint` once the record id is known: screenshot, then the
      batch delete of both documents (which succeeds whether or not they
      exist), then the session list grows by the id, without de-duplication. */
  function DeleteBlueprint(st: Store, tombstones: seq<Id>, id: Id, doc: Record,
                           blob: BlobOutcome, batchOk: bool): (Store, seq<Id>, DeleteOutcome)
  {
    match DeleteScreenshot(st.blobs, doc.screenshotUrl, blob)
    case Err(_) => (st, tombstones, ScreenshotFailed)
    case Ok(blobs') =>
      var st1 := st.(blobs := blobs');
      if !batchOk then (st1, tombstones, BatchFailed)
      else (st1.(records := st.records - {id}, ledgers := st.ledgers - {id}), tombstones + [id], Deleted)
  }

  /** The older front end reads the id from the route and returns at once
      when it is missing or empty. */
  function DeleteBlueprintLegacy(st: Store, tombstones: seq<Id>, routeId: Option<Id>, doc: Record,
                                 blob: BlobOutcome, batchOk: bool): (Store, seq<Id>, DeleteOutcome)
  {
    if !Truthy(routeId) then (st, tombstones, NoRouteId)
    else DeleteBlueprint(st, tombstones, routeId.value, doc, blob, batchOk)
  }

  /** What each abort point leaves behind. A screenshot failure changes
      nothing at all; a failed batch may have removed the screenshot but
      leaves both documents and the session list alone; a record without a
      screenshot never touches the object store. */
  lemma DeleteAbortPoints(st: Store, tombstones: seq<Id>, id: Id, doc: Record,
                          blob: BlobOutcome, batchOk: bool)
    ensures var (st', t', o) := DeleteBlueprint(st, tombstones, id, doc, blob, batchOk);
      && (o == ScreenshotFailed <==> Truthy(doc.screenshotUrl) && blob == BlobFailed)
      && (o == ScreenshotFailed ==> st' == st && t' == tombstones)
      && (o == BatchFailed ==> st'.records == st.records && st'.ledgers == st.ledgers && t' == tombstones)
      && (!Truthy(doc.screenshotUrl) ==> st'.blobs == st.blobs)
      && (o != Deleted ==> t' == tombstones)
      && o != NoRouteId
  {
  }

  /** A completed delete removes the record and its ledger and leaves every
      other record and ledger as it was; from the object store it removes at
      most the record's screenshot. The id is appended to the session list
      even when it is already there. */
  lemma DeleteCompleted(st: Store, tombstones: seq<Id>, id: Id, doc: Record,
                        blob: BlobOutcome, batchOk: bool)
    requires DeleteBlueprint(st, tombstones, id, doc, blob, batchOk).2 == Deleted
    ensures var (st', t', _) := DeleteBlueprint(st, tombstones, id, doc, blob, batchOk);
      && id !in st'.records && id !in st'.ledgers
      && (forall k :: k != id ==> (k in st'.records <==> k in st.records) && (k in st'.ledgers <==> k in st.ledgers))
      && (forall k :: k in st'.records ==> st'.records[k] == st.records[k])
      && (forall k :: k in st'.ledgers ==> st'.ledgers[k] == st.ledgers[k])
      && st'.blobs <= st.blobs && st.blobs - st'.blobs <= ScreenshotObjects(doc.screenshotUrl)
      && t' == tombstones + [id] && |t'| == |tombstones| + 1
      && batchOk && !(Truthy(doc.screenshotUrl) && blob == BlobFailed)
  {
  }

  /** Deletion preserves the co-commit invariant between records and ledgers. */
  lemma DeletePreservesConsistency(st: Store, tombstones: seq<Id>, id: Id, doc: Record,
                                   blob: BlobOutcome, batchOk: bool)
    requires Consistent(st)
    ensures Consistent(DeleteBlueprint(st, tombstones, id, doc, blob, batchOk).0)
  {
  }

  /** The older front end does nothing without a route id, and otherwise
      behaves exactly like the newer one. */
  lemma LegacyDeleteNeedsRouteId(st: Store, tombstones: seq<Id>, routeId: Option<Id>, doc: Record,
                                 blob: BlobOutcome, batchOk: bool)
    ensures !Truthy(routeId) ==>
      DeleteBlueprintLegacy(st, tombstones, routeId, doc, blob, batchOk) == (st, tombstones, NoRouteId)
    ensures Truthy(routeId) ==>
      DeleteBlueprintLegacy(st, tombstones, routeId, doc, blob, batchOk)
      == DeleteBlueprint(st, tombstones, routeId.value, doc, blob, batchOk)
  {
  }
}
