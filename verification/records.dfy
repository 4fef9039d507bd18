/** The stored shapes: a blueprint record, its version ledger, and the
    abstract store that holds records, ledgers and screenshot objects. */
module Records {
  import opened Wrappers
  import opened Folders

  type Id = string
  type Uid = string

  /** Timestamps are opaque values supplied from outside: the client's clock
      or the server's commit time. */
  type Time = int

  /** The two front ends that carry the same handlers: the older router-based
      pages and the newer app-directory pages. */
  datatype Variant = Legacy | NextApp

  /** A signed-in user. */
  datatype User = User(uid: Uid, displayName: Option<string>)

  /** The `blueprints/{id}` document. `kind` is "b" or "f". */
  datatype Record = Record(
    uid: Uid,
    username: string,
    kind: string,
    name: string,
    description: string,
    blueprint: string,
    gameVersion: string,
    views: int,
    downloads: int,
    created: Time,
    updated: Time,
    screenshotUrl: Option<string>)

  /** One historical content state. */
  datatype VersionEntry = VersionEntry(blueprint: string, gameVersion: string, created: Time)

  /** The `blueprintVersions/{id}` document: newest entry first. */
  datatype Ledger = Ledger(uid: Uid, versions: seq<VersionEntry>)

  /** The document store and the screenshot object store. */
  datatype Store = Store(records: map<Id, Record>, ledgers: map<Id, Ledger>, blobs: set<string>)

  /** The stored `kind` code of a parse: "f" for a folder, "b" otherwise. */
  function KindCode(p: Parsed): (k: string)
    ensures k == "f" <==> p.Group?
    ensures k == "b" || k == "f"
  {
    if p.Group? then "f" else "b"
  }

  /** The game version saved with a parse: the blueprint's own, or the folder
      minimum the editor computed beforehand. */
  function SavedGameVersion(p: Parsed, folderMin: string): string
  {
    if p.Single? then p.bp.gameVersion else folderMin
  }

  /** The ledger entry that records the pre-edit content of a record. */
  function Snapshot(r: Record): VersionEntry
  {
    VersionEntry(r.blueprint, r.gameVersion, r.created)
  }

  /** The co-commit invariant: an existing ledger is never empty, and its
      newest entry holds the record's current text. */
  ghost predicate Consistent(st: Store)
  {
    forall id :: id in st.ledgers ==>
      |st.ledgers[id].versions| >= 1
      && (id in st.records ==> st.ledgers[id].versions[0].blueprint == st.records[id].blueprint)
  }

  /** An update that keeps the ledgers, the set of records and every
      record's text keeps the co-commit invariant. */
  lemma TextPreservingUpdateIsConsistent(st: Store, st': Store)
    requires Consistent(st)
    requires st'.ledgers == st.ledgers && st'.records.Keys == st.records.Keys
    requires forall k :: k in st.records ==> st'.records[k].blueprint == st.records[k].blueprint
    ensures Consistent(st')
  {
  }
}
