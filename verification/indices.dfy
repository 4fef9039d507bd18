/** The search-index table: one externally sorted index per (sort field,
    direction) pair, looked up by the key `sort_direction`. */
module SearchIndices {

  datatype SortField = Updated | Views | Downloads
  datatype Direction = Asc | Desc

  function SortName(s: SortField): string
  {
    match s
    case Updated => "updated"
    case Views => "views"
    case Downloads => "downloads"
  }

  function DirectionName(d: Direction): string
  {
    match d
    case Asc => "asc"
    case Desc => "desc"
  }

  /** The lookup key built by the list page: `${sort}_${sortDirection}`. */
  function IndexKey(s: SortField, d: Direction): string
  {
    SortName(s) + "_" + DirectionName(d)
  }

  /** The `indices` table: key to index name. */
  const Indices: map<string, string> := map[
    "updated_desc" := "blueprints_updated_desc",
    "updated_asc" := "blueprints_updated_asc",
    "downloads_desc" := "blueprints_downloads_desc",
    "downloads_asc" := "blueprints_downloads_asc",
    "views_desc" := "blueprints_views_desc",
    "views_asc" := "blueprints_views_asc"
  ]

  /** The key built from any sort field and direction is one of the six
      literal keys of the table. */
  lemma KeyInTable(s: SortField, d: Direction)
    ensures IndexKey(s, d) in Indices
    ensures Indices[IndexKey(s, d)] == "blueprints_" + IndexKey(s, d)
  {
    match s
    case Updated => UpdatedKeys(d);
    case Downloads => DownloadsKeys(d);
    case Views => ViewsKeys(d);
  }

  lemma UpdatedKeys(d: Direction)
    ensures IndexKey(Updated, d) in Indices
    ensures Indices[IndexKey(Updated, d)] == "blueprints_" + IndexKey(Updated, d)
  {
    if d == Desc {
      assert IndexKey(Updated, d) == "updated_desc";
    } else {
      assert IndexKey(Updated, d) == "updated_asc";
    }
  }

  lemma DownloadsKeys(d: Direction)
    ensures IndexKey(Downloads, d) in Indices
    ensures Indices[IndexKey(Downloads, d)] == "blueprints_" + IndexKey(Downloads, d)
  {
    if d == Desc {
      assert IndexKey(Downloads, d) == "downloads_desc";
    } else {
      assert IndexKey(Downloads, d) == "downloads_asc";
    }
  }

  lemma ViewsKeys(d: Direction)
    ensures IndexKey(Views, d) in Indices
    ensures Indices[IndexKey(Views, d)] == "blueprints_" + IndexKey(Views, d)
  {
    if d == Desc {
      assert IndexKey(Views, d) == "views_desc";
    } else {
      assert IndexKey(Views, d) == "views_asc";
    }
  }

  /** The index the list page queries for a sort field and direction; the
      table always has the key, and the name is the key with the
      `blueprints_` prefix. */
  function IndexFor(s: SortField, d: Direction): (name: string)
    ensures IndexKey(s, d) in Indices
    ensures name == "blueprints_" + SortName(s) + "_" + DirectionName(d)
  {
    KeyInTable(s, d);
    Indices[IndexKey(s, d)]
  }

  /** The table has exactly six entries. */
  lemma IndicesTable()
    ensures |Indices| == 6
  {
    var k1 := {"updated_desc"};
    var k2 := k1 + {"updated_asc"};
    assert "updated_asc"[8] != "updated_desc"[8];
    var k3 := k2 + {"downloads_desc"};
    assert "downloads_desc"[0] != 'u';
    var k4 := k3 + {"downloads_asc"};
    assert "downloads_asc"[0] != 'u' && "downloads_asc"[10] != "downloads_desc"[10];
    var k5 := k4 + {"views_desc"};
    assert "views_desc"[0] != 'u' && "views_desc"[0] != 'd';
    var k6 := k5 + {"views_asc"};
    assert "views_asc"[0] != 'u' && "views_asc"[0] != 'd' && "views_asc"[6] != "views_desc"[6];
    assert |k6| == 6;
    assert Indices.Keys == k6;
  }

  /** Each key maps to `blueprints_` followed by the key. */
  lemma IndicesArePrefixed(k: string)
    requires k in Indices
    ensures Indices[k] == "blueprints_" + k
  {
  }

  /** Every key of the table is the key of some sort field and direction. */
  lemma IndicesKeysAreRequests(k: string)
    requires k in Indices
    ensures exists s: SortField, d: Direction :: k == IndexKey(s, d)
  {
    if k == "updated_desc" { assert k == IndexKey(Updated, Desc); }
    else if k == "updated_asc" { assert k == IndexKey(Updated, Asc); }
    else if k == "downloads_desc" { assert k == IndexKey(Downloads, Desc); }
    else if k == "downloads_asc" { assert k == IndexKey(Downloads, Asc); }
    else if k == "views_desc" { assert k == IndexKey(Views, Desc); }
    else { assert k == IndexKey(Views, Asc); }
  }

  /** Different requests select different indices: the selection is injective. */
  lemma IndexForInjective(s1: SortField, d1: Direction, s2: SortField, d2: Direction)
    requires IndexFor(s1, d1) == IndexFor(s2, d2)
    ensures s1 == s2 && d1 == d2
  {
    var n1 := IndexFor(s1, d1);
    var n2 := IndexFor(s2, d2);
    assert n1[11] == n2[11] && n1[12] == n2[12];
    var k1 := |n1|;
    assert k1 == |n2|;
    assert n1[k1 - 1] == n2[k1 - 1] && n1[k1 - 2] == n2[k1 - 2];
  }

  /** Sorting by downloads, descending, always selects the descending
      downloads index. */
  lemma DownloadsDescending()
    ensures IndexFor(Downloads, Desc) == "blueprints_downloads_desc"
    ensures IndexFor(Downloads, Desc) != IndexFor(Downloads, Asc)
  {
  }

  // ---------------------------------------------------------------------------
  // The older front end's two indices
  // ---------------------------------------------------------------------------

  const UpdatedDescIndex: string := "blueprints_updated_desc"
  const UpdatedAscIndex: string := "blueprints_updated_asc"

  /** The older list page: the direction alone picks the index; "asc" the
      ascending one, anything else the descending one. */
  function LegacyIndexFor(direction: string): (name: string)
    ensures name == UpdatedAscIndex <==> direction == "asc"
    ensures name == UpdatedAscIndex || name == UpdatedDescIndex
  {
    if direction == "asc" then UpdatedAscIndex else UpdatedDescIndex
  }

  /** Both front ends agree when sorting by last update. */
  lemma LegacyAgreesOnUpdated(d: Direction)
    ensures LegacyIndexFor(DirectionName(d)) == IndexFor(Updated, d)
  {
  }
}
