/** The blueprint list page of both front ends: which index is queried with
    which parameters, how recently deleted ids are hidden from the hits, and
    the page/sort/search state machine behind the navigation controls. */
module Listing {
  import opened Wrappers
  import opened SearchIndices
  import opened Records
  import Deletion

  /** One search hit. `kind` may be absent in the index even though stored
      records always carry "b" or "f"; the older front end's hits never
      carry it. */
  datatype Hit = Hit(
    objectID: Id,
    uid: Uid,
    username: string,
    kind: Option<string>,
    name: string,
    description: string,
    gameVersion: string,
    views: int,
    downloads: int,
    created: Time,
    updated: Time,
    screenshotUrl: Option<string>)

  /** What the search service returns for one query. */
  datatype SearchResults = SearchResults(hits: seq<Hit>, nbHits: int, nbPages: int)

  /** The parameters of one search request. `relevancyStrictness` is the
      share of hits ranked by relevance on a virtual replica index; the page
      always asks for 0, ordering every hit by the replica's own ranking. */
  datatype Query = Query(index: string, text: string, page: int, hitsPerPage: int,
                         facetFilters: Option<seq<string>>, relevancyStrictness: int)

  const CountPerPage: int := 20
  const RelevancyStrictness: int := 0

  /** The page state. `pendingDebounce` is true while the search box's
      500 ms timer is running. */
  datatype ListState = ListState(
    loading: bool,
    count: int,
    page: int,
    numPages: int,
    shown: seq<Hit>,
    sort: SortField,
    direction: Direction,
    search: string,
    debouncedSearch: string,
    pendingDebounce: bool)

  datatype Event =
    | SearchTyped(text: string)
    | DebounceFired
    | PreviousPage
    | NextPage
    | SortChanged(newSort: SortField)
    | DirectionChanged(newDirection: Direction)
    | ResultsArrived(results: SearchResults, tombstones: seq<Id>)

  /** The page as first rendered: most recently updated first, page 0, the
      first load under way and the search timer started by the mount. */
  function Initial(): (st: ListState)
    ensures st.sort == Updated && st.direction == Desc && st.page == 0
    ensures st.loading && st.shown == [] && st.count == 0 && st.numPages == 0
    ensures st.search == "" && st.debouncedSearch == ""
  {
    ListState(true, 0, 0, 0, [], Updated, Desc, "", "", true)
  }

  // ---------------------------------------------------------------------------
  // The query
  // ---------------------------------------------------------------------------

  /** The owner filter of a profile page: present exactly when a (non-empty)
      username is given. */
  function FacetFilter(username: Option<string>): (r: Option<seq<string>>)
    ensures r.Some? <==> Truthy(username)
    ensures r.Some? ==> r.value == ["username:" + username.value]
  {
    if Truthy(username) then Some(["username:" + username.value]) else None
  }

  /** The request the load effect sends. The newer page picks the index from
      sort and direction and may filter by owner; the older page picks it
      from the direction alone and never filters. */
  function CurrentQuery(v: Variant, st: ListState, username: Option<string>): (q: Query)
    ensures q.text == st.debouncedSearch && q.page == st.page && q.hitsPerPage == CountPerPage
    ensures q.relevancyStrictness == 0
    ensures v == NextApp ==> q.index == IndexFor(st.sort, st.direction) && q.facetFilters == FacetFilter(username)
    ensures v == Legacy ==> q.index == LegacyIndexFor(DirectionName(st.direction)) && q.facetFilters.None?
  {
    match v
    case NextApp =>
      Query(IndexFor(st.sort, st.direction), st.debouncedSearch, st.page, CountPerPage, FacetFilter(username),
            RelevancyStrictness)
    case Legacy =>
      Query(if st.direction == Asc then UpdatedAscIndex else UpdatedDescIndex,
            st.debouncedSearch, st.page, CountPerPage, None, RelevancyStrictness)
  }

  /** On the older page the sort selector never reaches the query. */
  lemma LegacyQueryIgnoresSort(st: ListState, s: SortField, username: Option<string>)
    ensures CurrentQuery(Legacy, st.(sort := s), username) == CurrentQuery(Legacy, st, username)
    ensures CurrentQuery(Legacy, st, username).index == UpdatedAscIndex <==> st.direction == Asc
  {
  }

  /** On the newer page different sort or direction settings query different
      indices. */
  lemma NextQuerySeparatesSettings(st1: ListState, st2: ListState, username: Option<string>)
    requires CurrentQuery(NextApp, st1, username).index == CurrentQuery(NextApp, st2, username).index
    ensures st1.sort == st2.sort && st1.direction == st2.direction
  {
    IndexForInjective(st1.sort, st1.direction, st2.sort, st2.direction);
  }

  // ---------------------------------------------------------------------------
  // Hiding recently deleted blueprints
  // ---------------------------------------------------------------------------

  /** The hits whose id is not in the session's list of recently deleted ids,
      in their original order. */
  function FilterTombstones(hits: seq<Hit>, tombstones: seq<Id>): (r: seq<Hit>)
    ensures |r| <= |hits|
    ensures forall i :: 0 <= i < |r| ==> r[i] in hits && r[i].objectID !in tombstones
  {
    if hits == [] then []
    else
      var rest := FilterTombstones(hits[1..], tombstones);
      if hits[0].objectID in tombstones then rest else [hits[0]] + rest
  }

  /** A hit is shown exactly when it was returned and its id is not
      tombstoned. */
  lemma {:induction false} FilterTombstonesMembership(hits: seq<Hit>, tombstones: seq<Id>, h: Hit)
    ensures h in FilterTombstones(hits, tombstones) <==> h in hits && h.objectID !in tombstones
  {
    if hits != [] {
      FilterTombstonesMembership(hits[1..], tombstones, h);
      assert hits == [hits[0]] + hits[1..];
    }
  }

  /** Filtering works piecewise, so the order of the surviving hits is the
      order of the results. */
  lemma {:induction false} FilterTombstonesAppend(a: seq<Hit>, b: seq<Hit>, tombstones: seq<Id>)
    ensures FilterTombstones(a + b, tombstones) == FilterTombstones(a, tombstones) + FilterTombstones(b, tombstones)
  {
    if a == [] {
      assert a + b == b;
    } else {
      assert (a + b)[0] == a[0];
      assert (a + b)[1..] == a[1..] + b;
      FilterTombstonesAppend(a[1..], b, tombstones);
    }
  }

  /** With nothing tombstoned among the hits, every hit is shown. */
  lemma {:induction false} FilterTombstonesIdentity(hits: seq<Hit>, tombstones: seq<Id>)
    requires forall i :: 0 <= i < |hits| ==> hits[i].objectID !in tombstones
    ensures FilterTombstones(hits, tombstones) == hits
  {
    if hits != [] {
      FilterTombstonesIdentity(hits[1..], tombstones);
    }
  }

  /** A blueprint this session deleted is hidden from every later listing,
      whatever the (possibly stale) index still returns. */
  lemma DeletedBlueprintHidden(st: Store, tombstones: seq<Id>, id: Id, doc: Record,
                               blob: Deletion.BlobOutcome, batchOk: bool, hits: seq<Hit>)
    requires Deletion.DeleteBlueprint(st, tombstones, id, doc, blob, batchOk).2 == Deletion.Deleted
    ensures forall h :: h in FilterTombstones(hits, Deletion.DeleteBlueprint(st, tombstones, id, doc, blob, batchOk).1) ==>
                         h.objectID != id
  {
    Deletion.DeleteCompleted(st, tombstones, id, doc, blob, batchOk);
    var t' := Deletion.DeleteBlueprint(st, tombstones, id, doc, blob, batchOk).1;
    assert id in t' by { assert t'[|t'| - 1] == id; }
    forall h | h in FilterTombstones(hits, t')
      ensures h.objectID != id
    {
      FilterTombstonesMembership(hits, t', h);
    }
  }

  // ---------------------------------------------------------------------------
  // The state machine
  // ---------------------------------------------------------------------------

  /** The values the load effect depends on: the newer page also reloads on
      a sort change, the older one does not. */
  datatype Deps = Deps(search: string, page: int, sort: Option<SortField>, direction: Direction)

  function DepsOf(v: Variant, st: ListState): Deps
  {
    Deps(st.debouncedSearch, st.page, if v == NextApp then Some(st.sort) else None, st.direction)
  }

  /** The navigation arrows, drawn only under a non-empty, loaded list. */
  predicate NavVisible(st: ListState)
  {
    !st.loading && |st.shown| != 0
  }

  predicate HasPrevious(st: ListState)
  {
    NavVisible(st) && st.page > 0
  }

  predicate HasNext(st: ListState)
  {
    NavVisible(st) && st.page + 1 < st.numPages
  }

  /** The events the page can receive in a state: the timer fires only while
      running, the arrows only when drawn, results only while loading. */
  predicate Available(st: ListState, ev: Event)
  {
    match ev
    case DebounceFired => st.pendingDebounce
    case PreviousPage => HasPrevious(st)
    case NextPage => HasNext(st)
    case ResultsArrived(_, _) => st.loading
    case _ => true
  }

  /** The handlers' own state updates, before the load effect reacts. */
  function Handle(v: Variant, st: ListState, ev: Event): ListState
  {
    match ev
    case SearchTyped(text) =>
      if text == st.search then st else st.(search := text, pendingDebounce := true)
    case DebounceFired => st.(debouncedSearch := st.search, page := 0, pendingDebounce := false)
    case PreviousPage => st.(page := st.page - 1)
    case NextPage => st.(page := st.page + 1)
    case SortChanged(s) =>
      if v == NextApp then st.(sort := s, page := 0) else st.(sort := s)
    case DirectionChanged(d) => st.(direction := d, page := 0)
    case ResultsArrived(results, tombstones) =>
      st.(count := results.nbHits, numPages := results.nbPages,
          shown := FilterTombstones(results.hits, tombstones), loading := false)
  }

  /** One event: the handler's update, then a fresh load (spinner on, list
      cleared) exactly when a dependency of the load effect changed. */
  function Step(v: Variant, st: ListState, ev: Event): (r: ListState)
    ensures DepsOf(v, r) == DepsOf(v, Handle(v, st, ev))
    ensures DepsOf(v, r) != DepsOf(v, st) ==> r.loading && r.shown == []
    ensures !ev.ResultsArrived? && DepsOf(v, r) == DepsOf(v, st) ==> r.loading == st.loading && r.shown == st.shown
    ensures r.sort == Handle(v, st, ev).sort && r.direction == Handle(v, st, ev).direction && r.page == Handle(v, st, ev).page
  {
    var h := Handle(v, st, ev);
    if DepsOf(v, h) != DepsOf(v, st) then h.(loading := true, shown := []) else h
  }

  /** The debounce copies the typed text and returns to the first page;
      sort (newer page only) and direction changes also return to the first
      page; the older page's sort selector changes nothing else. */
  lemma PageResets(v: Variant, st: ListState, s: SortField, d: Direction)
    ensures Step(v, st, DebounceFired).page == 0
    ensures Step(v, st, DebounceFired).debouncedSearch == st.search
    ensures Step(v, st, DirectionChanged(d)).page == 0 && Step(v, st, DirectionChanged(d)).direction == d
    ensures v == NextApp ==> Step(v, st, SortChanged(s)).page == 0 && Step(v, st, SortChanged(s)).sort == s
    ensures v == Legacy ==> Step(v, st, SortChanged(s)) == st.(sort := s)
  {
  }

  /** Typing alone never reloads: only the debounced text feeds the query. */
  lemma TypingDoesNotReload(v: Variant, st: ListState, text: string, username: Option<string>)
    ensures var r := Step(v, st, SearchTyped(text));
      r.loading == st.loading && r.shown == st.shown
      && CurrentQuery(v, r, username) == CurrentQuery(v, st, username)
      && r.search == text
  {
  }

  /** Moving a page always starts a fresh load of the neighbouring page. */
  lemma PagingReloads(v: Variant, st: ListState)
    ensures var r := Step(v, st, NextPage); r.page == st.page + 1 && r.loading && r.shown == []
    ensures var r := Step(v, st, PreviousPage); r.page == st.page - 1 && r.loading && r.shown == []
  {
  }

  /** Results are shown minus the tombstoned ids, while the total count and
      the number of pages are taken from the service unadjusted. */
  lemma ResultsUnadjusted(v: Variant, st: ListState, results: SearchResults, tombstones: seq<Id>)
    ensures var r := Step(v, st, ResultsArrived(results, tombstones));
      r.count == results.nbHits && r.numPages == results.nbPages
      && r.shown == FilterTombstones(results.hits, tombstones) && !r.loading
      && r.page == st.page
  {
  }

  /** The page number never becomes negative along any run of available
      events. */
  lemma StepKeepsPageNonNegative(v: Variant, st: ListState, ev: Event)
    requires st.page >= 0 && Available(st, ev)
    ensures Step(v, st, ev).page >= 0
  {
  }

  function Run(v: Variant, st: ListState, evs: seq<Event>): ListState
    decreases |evs|
  {
    if evs == [] then st else Run(v, Step(v, st, evs[0]), evs[1..])
  }

  predicate AllAvailable(v: Variant, st: ListState, evs: seq<Event>)
    decreases |evs|
  {
    evs == [] || (Available(st, evs[0]) && AllAvailable(v, Step(v, st, evs[0]), evs[1..]))
  }

  lemma {:induction false} RunKeepsPageNonNegative(v: Variant, st: ListState, evs: seq<Event>)
    requires st.page >= 0 && AllAvailable(v, st, evs)
    ensures Run(v, st, evs).page >= 0
    decreases |evs|
  {
    if evs != [] {
      StepKeepsPageNonNegative(v, st, evs[0]);
      RunKeepsPageNonNegative(v, Step(v, st, evs[0]), evs[1..]);
    }
  }

  /** "Displaying first-last of count": the 1-based positions of the shown
      hits within the whole result list. */
  function DisplayRange(st: ListState): (r: (int, int, int))
    ensures r.1 - r.0 + 1 == |st.shown|
    ensures r.0 == st.page * CountPerPage + 1
    ensures r.2 == st.count
  {
    (st.page * CountPerPage + 1, st.page * CountPerPage + |st.shown|, st.count)
  }

  /** Previous is offered exactly past the first page and Next exactly before
      the last one, both only under a non-empty, loaded list. */
  lemma Navigation(st: ListState)
    ensures HasPrevious(st) <==> !st.loading && |st.shown| > 0 && st.page > 0
    ensures HasNext(st) <==> !st.loading && |st.shown| > 0 && st.page + 1 < st.numPages
    ensures st.page == 0 ==> !HasPrevious(st)
    ensures st.numPages <= st.page + 1 ==> !HasNext(st)
  {
  }

  /** A filtered page can show fewer than twenty hits while the range still
      counts from the page start, so the last position is not the last
      returned one. */
  lemma FilteredRangeExample()
    ensures var h := Hit("a", "u", "n", None, "x", "", "1.0", 0, 0, 0, 0, None);
      var st := Step(NextApp, Initial(), ResultsArrived(SearchResults([h, h.(objectID := "b")], 2, 1), ["a"]));
      DisplayRange(st) == (1, 1, 2) && !HasNext(st) && !HasPrevious(st)
  {
    var h := Hit("a", "u", "n", None, "x", "", "1.0", 0, 0, 0, 0, None);
    var hits := [h, h.(objectID := "b")];
    assert FilterTombstones(hits, ["a"]) == [h.(objectID := "b")] by {
      assert hits[1..] == [h.(objectID := "b")];
      assert FilterTombstones(hits[1..][1..], ["a"]) == [];
    }
  }
}
