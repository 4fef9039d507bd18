/** The parsed blueprint tree and the folder analysis of `src/utils.ts`:
    the minimum game version of a folder, found by a depth-first fold that
    compares version strings as text. Also the tree-view labelling used by
    both details pages. */
module Folders {
  import opened Wrappers
  import opened JsStrings

  /** A single blueprint, as the external parser returns it. */
  datatype Blueprint = Blueprint(name: string, gameVersion: string)

  /** A folder: ordered blueprints, then ordered sub-folders. */
  datatype Folder = Folder(name: string, blueprints: seq<Blueprint>, blueprintFolders: seq<Folder>)

  /** The result of parsing a blueprint string: one blueprint or a folder. */
  datatype Parsed = Single(bp: Blueprint) | Group(folder: Folder)

  /** The two messages `getMinGameVersion` throws with. */
  datatype MinVersionError = FolderMustNotBeEmpty | CouldNotDetermineMinGameVersion

  // ---------------------------------------------------------------------------
  // The fold, as written
  // ---------------------------------------------------------------------------

  /** The running minimum after one candidate: a falsy minimum (`undefined` or
      `""`) is always replaced, otherwise only by a textually smaller one. */
  function Step(min: Option<string>, candidate: string): Option<string>
  {
    if !Truthy(min) || LexLess(candidate, min.value) then Some(candidate) else min
  }

  /** The loop over `folder.blueprints`. */
  function LeafFold(bps: seq<Blueprint>, min: Option<string>): Option<string>
  {
    if |bps| == 0 then min else LeafFold(bps[1..], Step(min, bps[0].gameVersion))
  }

  /** `getMinGameVersionInternal`: the leaves first, then every sub-folder's
      own minimum; may be `undefined` or even `""`. */
  function MinInternal(f: Folder): Option<string>
    decreases f, 1
  {
    SubFold(f.blueprintFolders, LeafFold(f.blueprints, None))
  }

  /** The loop over `folder.blueprintFolders`: a falsy sub-folder minimum is
      skipped. */
  function SubFold(fs: seq<Folder>, min: Option<string>): Option<string>
    decreases fs, 0
  {
    if |fs| == 0 then min
    else
      var folderMin := MinInternal(fs[0]);
      SubFold(fs[1..], if Truthy(folderMin) then Step(min, folderMin.value) else min)
  }

  /** `getMinGameVersion`: a root without blueprints and sub-folders is
      rejected, and so is a root whose fold ends falsy. A successful result is
      a non-empty game version of some leaf of the tree. */
  function GetMinGameVersion(f: Folder): (r: Result<string, MinVersionError>)
    ensures r == Err(FolderMustNotBeEmpty) <==> |f.blueprints| == 0 && |f.blueprintFolders| == 0
    ensures r.Ok? ==> r.value != "" && r.value in TreeVersions(f)
  {
    if |f.blueprints| == 0 && |f.blueprintFolders| == 0 then Err(FolderMustNotBeEmpty)
    else
      var m := MinInternal(f);
      MinInternalIsLeafVersion(f);
      if !Truthy(m) then Err(CouldNotDetermineMinGameVersion) else Ok(m.value)
  }

  // ---------------------------------------------------------------------------
  // Reference definitions: the leaf versions of a tree
  // ---------------------------------------------------------------------------

  function LeafVersions(bps: seq<Blueprint>): set<string>
  {
    set i | 0 <= i < |bps| :: bps[i].gameVersion
  }

  /** Every game version declared by a leaf anywhere in the tree. */
  function TreeVersions(f: Folder): set<string>
    decreases f, 1
  {
    LeafVersions(f.blueprints) + ForestVersions(f.blueprintFolders)
  }

  function ForestVersions(fs: seq<Folder>): set<string>
    decreases fs, 0
  {
    if |fs| == 0 then {} else TreeVersions(fs[0]) + ForestVersions(fs[1..])
  }

  /** `v` is the least element of `s` in JavaScript string order. */
  predicate IsLeast(v: string, s: set<string>)
  {
    v in s && forall w :: w in s ==> LexLessEq(v, w)
  }

  /** The candidates a running minimum stands for: none while it is falsy. */
  function Candidates(min: Option<string>): set<string>
  {
    if Truthy(min) then {min.value} else {}
  }

  // ---------------------------------------------------------------------------
  // The result is never synthesised
  // ---------------------------------------------------------------------------

  lemma {:induction false} LeafFoldIsLeafVersion(bps: seq<Blueprint>, min: Option<string>)
    ensures LeafFold(bps, min) == min
         || (LeafFold(bps, min).Some? && LeafFold(bps, min).value in LeafVersions(bps))
  {
    if |bps| > 0 {
      LeafFoldIsLeafVersion(bps[1..], Step(min, bps[0].gameVersion));
      assert LeafVersions(bps) == {bps[0].gameVersion} + LeafVersions(bps[1..]);
    }
  }

  /** `getMinGameVersionInternal` returns `undefined` or a leaf's version. */
  lemma {:induction false} MinInternalIsLeafVersion(f: Folder)
    ensures MinInternal(f) == None || MinInternal(f).value in TreeVersions(f)
    decreases f, 1
  {
    LeafFoldIsLeafVersion(f.blueprints, None);
    SubFoldIsLeafVersion(f.blueprintFolders, LeafFold(f.blueprints, None));
  }

  lemma {:induction false} SubFoldIsLeafVersion(fs: seq<Folder>, min: Option<string>)
    ensures SubFold(fs, min) == min
         || (SubFold(fs, min).Some? && SubFold(fs, min).value in ForestVersions(fs))
    decreases fs, 0
  {
    if |fs| > 0 {
      var folderMin := MinInternal(fs[0]);
      MinInternalIsLeafVersion(fs[0]);
      SubFoldIsLeafVersion(fs[1..], if Truthy(folderMin) then Step(min, folderMin.value) else min);
    }
  }

  // ---------------------------------------------------------------------------
  // With non-empty versions only, the result is the textual minimum
  // ---------------------------------------------------------------------------

  /** The least element of `{a} + rest` is also least of `A + rest` when `a`
      is least of `A`. */
  lemma LeastThroughRepresentative(r: string, a: string, A: set<string>, rest: set<string>)
    requires IsLeast(a, A) && IsLeast(r, {a} + rest)
    ensures IsLeast(r, A + rest)
  {
    forall w | w in A
      ensures LexLessEq(r, w)
    {
      if r != a && a != w {
        LexLessTransitive(r, a, w);
      }
    }
  }

  /** One `Step` keeps the least of the candidates seen so far. */
  lemma StepIsLeast(min: Option<string>, v: string)
    requires v != ""
    ensures Truthy(Step(min, v)) && IsLeast(Step(min, v).value, Candidates(min) + {v})
  {
    if Truthy(min) && !LexLess(v, min.value) && v != min.value {
      LexLessTotal(v, min.value);
    }
    if Truthy(min) && LexLess(v, min.value) {
      LexLessAsymmetric(v, min.value);
    }
  }

  lemma {:induction false} LeafFoldIsLeast(bps: seq<Blueprint>, min: Option<string>)
    requires "" !in LeafVersions(bps)
    ensures var s := Candidates(min) + LeafVersions(bps);
      && (s == {} ==> LeafFold(bps, min) == min)
      && (s != {} ==> Truthy(LeafFold(bps, min)) && IsLeast(LeafFold(bps, min).value, s))
  {
    if |bps| > 0 {
      var v := bps[0].gameVersion;
      var m := Step(min, v);
      assert LeafVersions(bps) == {v} + LeafVersions(bps[1..]);
      assert v in LeafVersions(bps);
      StepIsLeast(min, v);
      LeafFoldIsLeast(bps[1..], m);
      var r := LeafFold(bps[1..], m).value;
      assert Candidates(m) == {m.value};
      LeastThroughRepresentative(r, m.value, Candidates(min) + {v}, LeafVersions(bps[1..]));
      assert Candidates(min) + {v} + LeafVersions(bps[1..]) == Candidates(min) + LeafVersions(bps);
    }
  }

  /** With no empty version in the tree, `getMinGameVersionInternal` is falsy
      exactly when the tree has no leaf, and is the least leaf version otherwise. */
  lemma {:induction false} MinInternalIsLeast(f: Folder)
    requires "" !in TreeVersions(f)
    ensures TreeVersions(f) == {} ==> !Truthy(MinInternal(f))
    ensures TreeVersions(f) != {} ==> Truthy(MinInternal(f)) && IsLeast(MinInternal(f).value, TreeVersions(f))
    decreases f, 1
  {
    LeafFoldIsLeast(f.blueprints, None);
    var m := LeafFold(f.blueprints, None);
    SubFoldIsLeast(f.blueprintFolders, m);
    var lv := LeafVersions(f.blueprints);
    var fv := ForestVersions(f.blueprintFolders);
    if lv == {} {
      assert Candidates(m) + fv == TreeVersions(f);
    } else {
      assert Candidates(m) == {m.value};
      LeastThroughRepresentative(SubFold(f.blueprintFolders, m).value, m.value, lv, fv);
    }
  }

  lemma {:induction false} SubFoldIsLeast(fs: seq<Folder>, min: Option<string>)
    requires "" !in ForestVersions(fs)
    ensures var s := Candidates(min) + ForestVersions(fs);
      && (s == {} ==> SubFold(fs, min) == min)
      && (s != {} ==> Truthy(SubFold(fs, min)) && IsLeast(SubFold(fs, min).value, s))
    decreases fs, 0
  {
    if |fs| > 0 {
      var t := TreeVersions(fs[0]);
      var rest := ForestVersions(fs[1..]);
      var folderMin := MinInternal(fs[0]);
      MinInternalIsLeast(fs[0]);
      if t == {} {
        SubFoldIsLeast(fs[1..], min);
      } else {
        var v := folderMin.value;
        var m := Step(min, v);
        StepIsLeast(min, v);
        SubFoldIsLeast(fs[1..], m);
        var r := SubFold(fs[1..], m).value;
        assert Candidates(m) == {m.value};
        LeastThroughRepresentative(r, m.value, Candidates(min) + {v}, rest);
        assert {v} + (Candidates(min) + rest) == Candidates(min) + {v} + rest;
        LeastThroughRepresentative(r, v, t, Candidates(min) + rest);
        assert t + (Candidates(min) + rest) == Candidates(min) + ForestVersions(fs);
      }
    }
  }

  /** The least element of a set is unique. */
  lemma LeastIsUnique(a: string, b: string, s: set<string>)
    requires IsLeast(a, s) && IsLeast(b, s)
    ensures a == b
  {
    if a != b {
      LexLessAsymmetric(a, b);
    }
  }

  /** With every leaf version non-empty and at least one leaf, the result is
      the least leaf version in JavaScript string order. */
  lemma MinGameVersionIsLeast(f: Folder)
    requires "" !in TreeVersions(f) && TreeVersions(f) != {}
    ensures GetMinGameVersion(f).Ok?
    ensures IsLeast(GetMinGameVersion(f).value, TreeVersions(f))
  {
    MinInternalIsLeast(f);
  }

  /** Hence the result depends only on the set of leaf versions, not on the
      order of blueprints, the order of sub-folders or the nesting. */
  lemma MinGameVersionOrderIndependent(f: Folder, g: Folder)
    requires "" !in TreeVersions(f) && TreeVersions(f) != {}
    requires TreeVersions(g) == TreeVersions(f)
    ensures GetMinGameVersion(f) == GetMinGameVersion(g)
  {
    MinGameVersionIsLeast(f);
    MinGameVersionIsLeast(g);
    LeastIsUnique(GetMinGameVersion(f).value, GetMinGameVersion(g).value, TreeVersions(f));
  }

  /** Reordering a folder's own blueprints does not change its minimum. */
  lemma MinGameVersionPermutedBlueprints(f: Folder, bps: seq<Blueprint>)
    requires "" !in TreeVersions(f) && TreeVersions(f) != {}
    requires multiset(bps) == multiset(f.blueprints)
    ensures GetMinGameVersion(f.(blueprints := bps)) == GetMinGameVersion(f)
  {
    assert LeafVersions(bps) == LeafVersions(f.blueprints) by {
      forall v | v in LeafVersions(bps) ensures v in LeafVersions(f.blueprints) {
        var i :| 0 <= i < |bps| && bps[i].gameVersion == v;
        assert bps[i] in multiset(f.blueprints);
      }
      forall v | v in LeafVersions(f.blueprints) ensures v in LeafVersions(bps) {
        var i :| 0 <= i < |f.blueprints| && f.blueprints[i].gameVersion == v;
        assert f.blueprints[i] in multiset(bps);
      }
    }
    MinGameVersionOrderIndependent(f, f.(blueprints := bps));
  }

  // ---------------------------------------------------------------------------
  // Error cases and skipped sub-folders
  // ---------------------------------------------------------------------------

  /** A root whose contents are only leaf-less sub-folders cannot give a version. */
  lemma LeaflessRootFails(f: Folder)
    requires |f.blueprints| > 0 || |f.blueprintFolders| > 0
    requires TreeVersions(f) == {}
    ensures GetMinGameVersion(f) == Err(CouldNotDetermineMinGameVersion)
  {
    MinInternalIsLeast(f);
  }

  /** A sub-folder without leaves contributes nothing and does not fail its
      parent, wherever it stands among the sub-folders. */
  lemma LeaflessSubfolderSkipped(f: Folder, g: Folder, k: nat)
    requires TreeVersions(g) == {}
    requires k <= |f.blueprintFolders|
    requires |f.blueprints| > 0 || |f.blueprintFolders| > 0
    ensures var subs := f.blueprintFolders[..k] + [g] + f.blueprintFolders[k..];
      GetMinGameVersion(f.(blueprintFolders := subs)) == GetMinGameVersion(f)
  {
    MinInternalIsLeast(g);
    SubFoldSkips(f.blueprintFolders, g, k, LeafFold(f.blueprints, None));
  }

  lemma {:induction false} SubFoldSkips(fs: seq<Folder>, g: Folder, k: nat, min: Option<string>)
    requires !Truthy(MinInternal(g))
    requires k <= |fs|
    ensures SubFold(fs[..k] + [g] + fs[k..], min) == SubFold(fs, min)
  {
    var gs := fs[..k] + [g] + fs[k..];
    if k == 0 {
      assert gs[1..] == fs;
    } else {
      var folderMin := MinInternal(fs[0]);
      var m := if Truthy(folderMin) then Step(min, folderMin.value) else min;
      SubFoldSkips(fs[1..], g, k - 1, m);
      assert gs[0] == fs[0];
      assert gs[1..] == fs[1..][..k - 1] + [g] + fs[1..][k - 1..];
    }
  }

  /** The textual order decides: "1.0.10" is the minimum of three dotted
      versions, although it is the highest as a number. */
  lemma TextualMinimumExample()
    ensures GetMinGameVersion(Folder("f", [Blueprint("a", "1.0.3"), Blueprint("b", "1.0.10"), Blueprint("c", "1.0.2")], []))
         == Ok("1.0.10")
  {
  }

  /** An empty leaf version resets the running minimum (`!min` holds for
      `""`), so a later leaf wins even when an earlier one is smaller; and an
      empty version last in a folder leaves the fold falsy. */
  lemma EmptyVersionResetsMinimum()
    ensures GetMinGameVersion(Folder("f", [Blueprint("a", "1.0"), Blueprint("b", ""), Blueprint("c", "2.0")], []))
         == Ok("2.0")
    ensures GetMinGameVersion(Folder("f", [Blueprint("a", "1.0"), Blueprint("b", "")], []))
         == Err(CouldNotDetermineMinGameVersion)
  {
    assert LexLess("", "1.0");
  }

  // ---------------------------------------------------------------------------
  // Tree view (`getTreeViewData`)
  // ---------------------------------------------------------------------------

  /** A node of the tree view: a labelled leaf or a folder with children. */
  datatype TreeItem = Item(name: string) | Node(name: string, children: seq<TreeItem>)

  /** The label shown for a blueprint: `name (version: v)`. */
  function LeafLabel(b: Blueprint): string
  {
    b.name + " (version: " + b.gameVersion + ")"
  }

  function TreeViewData(f: Folder): TreeItem
    decreases f, 1
  {
    Node(f.name, seq(|f.blueprints|, i requires 0 <= i < |f.blueprints| => Item(LeafLabel(f.blueprints[i])))
                 + ForestView(f.blueprintFolders))
  }

  function ForestView(fs: seq<Folder>): (r: seq<TreeItem>)
    decreases fs, 0
  {
    if |fs| == 0 then [] else [TreeViewData(fs[0])] + ForestView(fs[1..])
  }

  /** A folder's children list its blueprints first, in order and labelled,
      then one node per sub-folder, in order. */
  lemma {:induction false} TreeViewDataShape(f: Folder)
    ensures TreeViewData(f).Node? && TreeViewData(f).name == f.name
    ensures |TreeViewData(f).children| == |f.blueprints| + |f.blueprintFolders|
    ensures forall i :: 0 <= i < |f.blueprints| ==>
      TreeViewData(f).children[i] == Item(LeafLabel(f.blueprints[i]))
    ensures forall j :: 0 <= j < |f.blueprintFolders| ==>
      TreeViewData(f).children[|f.blueprints| + j] == TreeViewData(f.blueprintFolders[j])
  {
    ForestViewShape(f.blueprintFolders);
  }

  lemma {:induction false} ForestViewShape(fs: seq<Folder>)
    ensures |ForestView(fs)| == |fs|
    ensures forall j :: 0 <= j < |fs| ==> ForestView(fs)[j] == TreeViewData(fs[j])
  {
    if |fs| > 0 {
      ForestViewShape(fs[1..]);
    }
  }

  /** Number of leaves in the tree. */
  function LeafCount(f: Folder): nat
    decreases f, 1
  {
    |f.blueprints| + ForestLeafCount(f.blueprintFolders)
  }

  function ForestLeafCount(fs: seq<Folder>): nat
    decreases fs, 0
  {
    if |fs| == 0 then 0 else LeafCount(fs[0]) + ForestLeafCount(fs[1..])
  }

  /** Number of labelled leaf items in a tree view. */
  function ItemCount(t: TreeItem): nat
  {
    match t
    case Item(_) => 1
    case Node(_, children) => ItemsCount(children)
  }

  function ItemsCount(ts: seq<TreeItem>): nat
  {
    if |ts| == 0 then 0 else ItemCount(ts[0]) + ItemsCount(ts[1..])
  }

  lemma {:induction false} ItemsCountAppend(a: seq<TreeItem>, b: seq<TreeItem>)
    ensures ItemsCount(a + b) == ItemsCount(a) + ItemsCount(b)
  {
    if |a| > 0 {
      assert (a + b)[1..] == a[1..] + b;
      assert (a + b)[0] == a[0];
      ItemsCountAppend(a[1..], b);
    } else {
      assert a + b == b;
    }
  }

  lemma {:induction false} ItemsCountLeaves(n: nat, labels: seq<TreeItem>)
    requires |labels| == n && forall i :: 0 <= i < n ==> labels[i].Item?
    ensures ItemsCount(labels) == n
  {
    if n > 0 {
      ItemsCountLeaves(n - 1, labels[1..]);
    }
  }

  /** The tree view shows every leaf of the folder exactly once. */
  lemma {:induction false} TreeViewShowsEveryLeaf(f: Folder)
    ensures ItemCount(TreeViewData(f)) == LeafCount(f)
    decreases f, 1
  {
    var leaves := seq(|f.blueprints|, i requires 0 <= i < |f.blueprints| => Item(LeafLabel(f.blueprints[i])));
    ItemsCountAppend(leaves, ForestView(f.blueprintFolders));
    ItemsCountLeaves(|f.blueprints|, leaves);
    ForestViewShowsEveryLeaf(f.blueprintFolders);
  }

  lemma {:induction false} ForestViewShowsEveryLeaf(fs: seq<Folder>)
    ensures ItemsCount(ForestView(fs)) == ForestLeafCount(fs)
    decreases fs, 0
  {
    if |fs| > 0 {
      TreeViewShowsEveryLeaf(fs[0]);
      ForestViewShowsEveryLeaf(fs[1..]);
      assert ([TreeViewData(fs[0])] + ForestView(fs[1..]))[1..] == ForestView(fs[1..]);
    }
  }
}
