/**
 * The candidate tree: the folders below Assets, walked to a bounded depth.
 * The disk is a DirTree whose subdirectories appear in the order
 * `Directory.GetDirectories` lists them; the walk builds AssetNode values
 * (BuildAssetsTree) or a flat list of their relative paths
 * (GetAssetsRootSubfolders).
 */
module AssetTree {
  import opened Wrappers
  import opened Text
  import opened Paths

  /** A directory on disk: its file name and its subdirectories in listing order. */
  datatype DirTree = DirTree(name: string, subdirs: seq<DirTree>)

  /** A folder shown in the selector: its name, its project-relative path and its shown subfolders. */
  datatype AssetNode = AssetNode(name: string, relPath: string, children: seq<AssetNode>)

  /** `name.StartsWith(".")`: hidden folders are never listed. Taken as an ordinal test of
      the first character; the culture-sensitive comparison's disregard of zero-width
      characters before the '.' is not modelled. */
  predicate Hidden(name: string) {
    |name| > 0 && name[0] == '.'
  }

  const ASSETS := "Assets"

  /** `Path.GetFullPath("Assets")` for the project at `projectRoot`. */
  function AssetsPath(projectRoot: string): string {
    Combine(projectRoot, ASSETS)
  }

  /**
   * The nodes `AddChildren(parent, fullDir, currentDepth)` adds for the
   * listed subdirectories `s` of `fullDir`: nothing once `currentDepth`
   * exceeds `depth`, otherwise one node per visible subdirectory, in listing
   * order, each with its own children one level deeper.
   */
  function Children(projectRoot: string, fullDir: string, s: seq<DirTree>, currentDepth: int, depth: int): seq<AssetNode>
    decreases s
  {
    if currentDepth > depth || s == [] then []
    else
      var d := s[|s| - 1];
      var full := Combine(fullDir, d.name);
      Children(projectRoot, fullDir, s[..|s| - 1], currentDepth, depth) +
        (if Hidden(d.name) then []
         else [AssetNode(d.name, RelativeFromProject(full, projectRoot),
                         Children(projectRoot, full, d.subdirs, currentDepth + 1, depth))])
  }

  /** The tree BuildAssetsTree returns; `assets` is None when the Assets folder does not exist. */
  function AssetsTree(projectRoot: string, assets: Option<DirTree>, depth: int): AssetNode {
    match assets
    case None => AssetNode(ASSETS, ASSETS, [])
    case Some(a) => AssetNode(ASSETS, ASSETS, Children(projectRoot, AssetsPath(projectRoot), a.subdirs, 1, depth))
  }

  /** `AddChildren`: the recursive walk filling in one node's children. */
  method AddChildren(projectRoot: string, fullDir: string, subdirs: seq<DirTree>, currentDepth: int, depth: int)
    returns (children: seq<AssetNode>)
    ensures children == Children(projectRoot, fullDir, subdirs, currentDepth, depth)
    decreases subdirs
  {
    children := [];
    if currentDepth > depth {
      return;
    }
    for i := 0 to |subdirs|
      invariant children == Children(projectRoot, fullDir, subdirs[..i], currentDepth, depth)
    {
      var dir := subdirs[i];
      assert subdirs[..i + 1][..i] == subdirs[..i];
      var folderName := dir.name;
      if !Hidden(folderName) {
        var full := Combine(fullDir, folderName);
        var grandChildren := AddChildren(projectRoot, full, dir.subdirs, currentDepth + 1, depth);
        var node := AssetNode(folderName, RelativeFromProject(full, projectRoot), grandChildren);
        children := children + [node];
      }
    }
    assert subdirs[..|subdirs|] == subdirs;
  }

  /** `BuildAssetsTree(depth)` */
  method BuildAssetsTree(projectRoot: string, assets: Option<DirTree>, depth: int) returns (root: AssetNode)
    ensures root == AssetsTree(projectRoot, assets, depth)
    ensures assets.None? ==> root == AssetNode(ASSETS, ASSETS, [])
    ensures root.name == ASSETS && root.relPath == ASSETS
  {
    root := AssetNode(ASSETS, ASSETS, []);
    if assets.None? {
      return;
    }
    var children := AddChildren(projectRoot, AssetsPath(projectRoot), assets.value.subdirs, 1, depth);
    root := root.(children := children);
  }

  // ---------------------------------------------------------------------------
  // Shape of the tree
  // ---------------------------------------------------------------------------

  /** No node of `nodes`, at any level, has a hidden name. */
  predicate AllVisible(nodes: seq<AssetNode>)
    decreases nodes
  {
    forall i | 0 <= i < |nodes| :: !Hidden(nodes[i].name) && AllVisible(nodes[i].children)
  }

  /** Nodes given at `level` (the Assets root's children are at level 1) lie no deeper than `depth`. */
  predicate WithinDepth(nodes: seq<AssetNode>, level: int, depth: int)
    decreases nodes
  {
    (nodes != [] ==> level <= depth) &&
    forall i | 0 <= i < |nodes| :: WithinDepth(nodes[i].children, level + 1, depth)
  }

  lemma AllVisibleAppend(a: seq<AssetNode>, b: seq<AssetNode>)
    requires AllVisible(a) && AllVisible(b)
    ensures AllVisible(a + b)
  {
    forall i | 0 <= i < |a + b| ensures !Hidden((a + b)[i].name) && AllVisible((a + b)[i].children) {
      if i >= |a| {
        assert (a + b)[i] == b[i - |a|];
      }
    }
  }

  lemma WithinDepthAppend(a: seq<AssetNode>, b: seq<AssetNode>, level: int, depth: int)
    requires WithinDepth(a, level, depth) && WithinDepth(b, level, depth)
    ensures WithinDepth(a + b, level, depth)
  {
    forall i | 0 <= i < |a + b| ensures WithinDepth((a + b)[i].children, level + 1, depth) {
      if i >= |a| {
        assert (a + b)[i] == b[i - |a|];
      } else {
        assert (a + b)[i] == a[i];
      }
    }
  }

  /** The walk never lists a folder whose name starts with '.'. */
  lemma {:induction false} ChildrenVisible(projectRoot: string, fullDir: string, s: seq<DirTree>, currentDepth: int, depth: int)
    ensures AllVisible(Children(projectRoot, fullDir, s, currentDepth, depth))
    decreases s
  {
    if currentDepth <= depth && s != [] {
      var d := s[|s| - 1];
      var full := Combine(fullDir, d.name);
      ChildrenVisible(projectRoot, fullDir, s[..|s| - 1], currentDepth, depth);
      ChildrenVisible(projectRoot, full, d.subdirs, currentDepth + 1, depth);
      AllVisibleAppend(Children(projectRoot, fullDir, s[..|s| - 1], currentDepth, depth),
                       if Hidden(d.name) then []
                       else [AssetNode(d.name, RelativeFromProject(full, projectRoot),
                                       Children(projectRoot, full, d.subdirs, currentDepth + 1, depth))]);
    }
  }

  /** The walk started at `currentDepth` lists nothing deeper than `depth`. */
  lemma {:induction false} ChildrenWithinDepth(projectRoot: string, fullDir: string, s: seq<DirTree>, currentDepth: int, depth: int)
    ensures WithinDepth(Children(projectRoot, fullDir, s, currentDepth, depth), currentDepth, depth)
    decreases s
  {
    if currentDepth <= depth && s != [] {
      var d := s[|s| - 1];
      var full := Combine(fullDir, d.name);
      ChildrenWithinDepth(projectRoot, fullDir, s[..|s| - 1], currentDepth, depth);
      ChildrenWithinDepth(projectRoot, full, d.subdirs, currentDepth + 1, depth);
      WithinDepthAppend(Children(projectRoot, fullDir, s[..|s| - 1], currentDepth, depth),
                        if Hidden(d.name) then []
                        else [AssetNode(d.name, RelativeFromProject(full, projectRoot),
                                        Children(projectRoot, full, d.subdirs, currentDepth + 1, depth))],
                        currentDepth, depth);
    }
  }

  /** BuildAssetsTree shows no hidden folder and no folder deeper than `depth` levels below Assets. */
  lemma AssetsTreeShape(projectRoot: string, assets: Option<DirTree>, depth: int)
    ensures AllVisible(AssetsTree(projectRoot, assets, depth).children)
    ensures WithinDepth(AssetsTree(projectRoot, assets, depth).children, 1, depth)
  {
    if assets.Some? {
      ChildrenVisible(projectRoot, AssetsPath(projectRoot), assets.value.subdirs, 1, depth);
      ChildrenWithinDepth(projectRoot, AssetsPath(projectRoot), assets.value.subdirs, 1, depth);
    }
  }

  // ---------------------------------------------------------------------------
  // Relative paths of the nodes
  // ---------------------------------------------------------------------------

  /** A file name as the disk reports it: non-empty, without separators. */
  predicate ValidName(name: string) {
    name != [] && '/' !in name && '\\' !in name
  }

  /** Every folder name in the listing is a valid file name. */
  predicate ValidNames(s: seq<DirTree>)
    decreases s
  {
    forall i | 0 <= i < |s| :: ValidName(s[i].name) && ValidNames(s[i].subdirs)
  }

  lemma ValidNamesInit(s: seq<DirTree>)
    requires ValidNames(s) && s != []
    ensures ValidNames(s[..|s| - 1]) && ValidName(s[|s| - 1].name) && ValidNames(s[|s| - 1].subdirs)
  {
    var t := s[..|s| - 1];
    forall i | 0 <= i < |t| ensures ValidName(t[i].name) && ValidNames(t[i].subdirs) {
      assert t[i] == s[i];
    }
  }

  /** Each node's path is its parent's path, a '/', and its own name. */
  predicate PathsUnder(nodes: seq<AssetNode>, parentRel: string)
    decreases nodes
  {
    forall i | 0 <= i < |nodes| ::
      nodes[i].relPath == parentRel + "/" + nodes[i].name && PathsUnder(nodes[i].children, nodes[i].relPath)
  }

  lemma PathsUnderAppend(a: seq<AssetNode>, b: seq<AssetNode>, parentRel: string)
    requires PathsUnder(a, parentRel) && PathsUnder(b, parentRel)
    ensures PathsUnder(a + b, parentRel)
  {
    forall i | 0 <= i < |a + b|
      ensures (a + b)[i].relPath == parentRel + "/" + (a + b)[i].name && PathsUnder((a + b)[i].children, (a + b)[i].relPath)
    {
      if i >= |a| {
        assert (a + b)[i] == b[i - |a|];
      }
    }
  }

  /** The project-relative path of a folder `name` inside the folder at `rel`. */
  lemma ChildRelPath(projectRoot: string, rel: string, name: string)
    requires '\\' !in projectRoot && '\\' !in rel && rel != [] && rel[0] != '/' && ValidName(name)
    ensures RelativeFromProject(Combine(Combine(projectRoot, rel), name), projectRoot) == rel + "/" + name
  {
    assert Combine(Combine(projectRoot, rel), name) == Combine(projectRoot, rel + "/" + name);
    RelativeFromProjectOfChild(projectRoot, rel + "/" + name);
  }

  /** The node (if any) that one visible child folder contributes under `rel`. */
  function ChildNode(projectRoot: string, rel: string, d: DirTree, kids: seq<AssetNode>): seq<AssetNode> {
    if Hidden(d.name) then []
    else [AssetNode(d.name, RelativeFromProject(Combine(Combine(projectRoot, rel), d.name), projectRoot), kids)]
  }

  lemma ChildNodePaths(projectRoot: string, rel: string, d: DirTree, kids: seq<AssetNode>)
    requires '\\' !in projectRoot && '\\' !in rel && rel != [] && rel[0] != '/' && ValidName(d.name)
    requires PathsUnder(kids, rel + "/" + d.name)
    ensures PathsUnder(ChildNode(projectRoot, rel, d, kids), rel)
  {
    ChildRelPath(projectRoot, rel, d.name);
  }

  /** Below a folder at project-relative path `rel`, every node's path extends its parent's by its name. */
  lemma {:induction false} ChildrenPaths(projectRoot: string, rel: string, s: seq<DirTree>, currentDepth: int, depth: int)
    requires '\\' !in projectRoot && '\\' !in rel && rel != [] && rel[0] != '/'
    requires ValidNames(s)
    ensures PathsUnder(Children(projectRoot, Combine(projectRoot, rel), s, currentDepth, depth), rel)
    decreases s
  {
    if currentDepth <= depth && s != [] {
      var fullDir := Combine(projectRoot, rel);
      var d := s[|s| - 1];
      var full := Combine(fullDir, d.name);
      ValidNamesInit(s);
      var init := Children(projectRoot, fullDir, s[..|s| - 1], currentDepth, depth);
      ChildrenPaths(projectRoot, rel, s[..|s| - 1], currentDepth, depth);
      var childRel := rel + "/" + d.name;
      assert full == Combine(projectRoot, childRel) by {
        assert Combine(Combine(projectRoot, rel), d.name) == Combine(projectRoot, childRel);
      }
      var kids := Children(projectRoot, full, d.subdirs, currentDepth + 1, depth);
      ChildrenPaths(projectRoot, childRel, d.subdirs, currentDepth + 1, depth);
      ChildNodePaths(projectRoot, rel, d, kids);
      PathsUnderAppend(init, ChildNode(projectRoot, rel, d, kids), rel);
      assert Children(projectRoot, fullDir, s, currentDepth, depth) == init + ChildNode(projectRoot, rel, d, kids);
    }
  }

  /** In BuildAssetsTree every node's relPath is "Assets/…/name", one segment per level. */
  lemma AssetsTreePaths(projectRoot: string, assets: Option<DirTree>, depth: int)
    requires '\\' !in projectRoot
    requires assets.Some? ==> ValidNames(assets.value.subdirs)
    ensures PathsUnder(AssetsTree(projectRoot, assets, depth).children, ASSETS)
  {
    if assets.Some? {
      ChildrenPaths(projectRoot, ASSETS, assets.value.subdirs, 1, depth);
    }
  }

  // ---------------------------------------------------------------------------
  // GetAssetsRootSubfolders
  // ---------------------------------------------------------------------------

  /** The relative paths of `nodes` and of all their descendants, each node before its children. */
  function RelPaths(nodes: seq<AssetNode>): seq<string>
    decreases nodes
  {
    if nodes == [] then []
    else
      var n := nodes[|nodes| - 1];
      RelPaths(nodes[..|nodes| - 1]) + [n.relPath] + RelPaths(n.children)
  }

  /** `AddDirs(baseDir, currentDepth, maxDepth)`: the walk of GetAssetsRootSubfolders, which
      records exactly the relative paths of the nodes AddChildren would build. */
  method AddDirs(projectRoot: string, baseDir: string, subdirs: seq<DirTree>, currentDepth: int, maxDepth: int)
    returns (found: seq<string>)
    ensures found == RelPaths(Children(projectRoot, baseDir, subdirs, currentDepth, maxDepth))
    decreases subdirs
  {
    found := [];
    if currentDepth > maxDepth {
      return;
    }
    for i := 0 to |subdirs|
      invariant found == RelPaths(Children(projectRoot, baseDir, subdirs[..i], currentDepth, maxDepth))
    {
      var dir := subdirs[i];
      assert subdirs[..i + 1][..i] == subdirs[..i];
      var name := dir.name;
      if !Hidden(name) {
        var full := Combine(baseDir, name);
        var rel := RelativeFromProject(full, projectRoot);
        var below := AddDirs(projectRoot, full, dir.subdirs, currentDepth + 1, maxDepth);
        ghost var before := Children(projectRoot, baseDir, subdirs[..i], currentDepth, maxDepth);
        ghost var node := AssetNode(name, rel, Children(projectRoot, full, dir.subdirs, currentDepth + 1, maxDepth));
        assert Children(projectRoot, baseDir, subdirs[..i + 1], currentDepth, maxDepth) == before + [node];
        assert (before + [node])[..|before|] == before;
        assert RelPaths(before + [node]) == RelPaths(before) + [rel] + below;
        found := found + [rel] + below;
      } else {
        ghost var before := Children(projectRoot, baseDir, subdirs[..i], currentDepth, maxDepth);
        assert Children(projectRoot, baseDir, subdirs[..i + 1], currentDepth, maxDepth) == before + [];
        assert before + [] == before;
      }
    }
    assert subdirs[..|subdirs|] == subdirs;
  }

  /** Ordered by StringComparer.OrdinalIgnoreCase. */
  predicate SortedCI(s: seq<string>) {
    forall i, j | 0 <= i < j < |s| :: LeqCI(s[i], s[j])
  }

  /** Insertion of `x` before the first entry not below it. */
  function InsertCI(x: string, s: seq<string>): (r: seq<string>)
    ensures multiset(r) == multiset(s) + multiset{x}
  {
    if s == [] then [x]
    else if LeqCI(x, s[0]) then [x] + s
    else
      assert s == [s[0]] + s[1..];
      [s[0]] + InsertCI(x, s[1..])
  }

  /** `List.Sort(StringComparer.OrdinalIgnoreCase)`. */
  function SortCI(s: seq<string>): (r: seq<string>)
    ensures multiset(r) == multiset(s)
  {
    if s == [] then []
    else
      assert s == [s[0]] + s[1..];
      InsertCI(s[0], SortCI(s[1..]))
  }

  lemma SortedCICons(a: string, t: seq<string>)
    requires SortedCI(t)
    requires forall k | 0 <= k < |t| :: LeqCI(a, t[k])
    ensures SortedCI([a] + t)
  {
    var r := [a] + t;
    forall i, j | 0 <= i < j < |r| ensures LeqCI(r[i], r[j]) {
      assert r[j] == t[j - 1];
      if i > 0 {
        assert r[i] == t[i - 1];
      }
    }
  }

  lemma {:induction false} InsertCIBound(x: string, s: seq<string>, b: string)
    requires LeqCI(b, x) && forall k | 0 <= k < |s| :: LeqCI(b, s[k])
    ensures forall k | 0 <= k < |InsertCI(x, s)| :: LeqCI(b, InsertCI(x, s)[k])
  {
    if s != [] && !LeqCI(x, s[0]) {
      InsertCIBound(x, s[1..], b);
      var t := InsertCI(x, s[1..]);
      forall k | 0 <= k < |[s[0]] + t| ensures LeqCI(b, ([s[0]] + t)[k]) {
        if k > 0 {
          assert ([s[0]] + t)[k] == t[k - 1];
        }
      }
    } else if s != [] {
      forall k | 0 <= k < |[x] + s| ensures LeqCI(b, ([x] + s)[k]) {
        if k > 0 {
          assert ([x] + s)[k] == s[k - 1];
        }
      }
    }
  }

  lemma {:induction false} InsertCISorted(x: string, s: seq<string>)
    requires SortedCI(s)
    ensures SortedCI(InsertCI(x, s))
  {
    if s == [] {
    } else if LeqCI(x, s[0]) {
      forall k | 0 <= k < |s| ensures LeqCI(x, s[k]) {
        if k > 0 {
          LeqCITrans(x, s[0], s[k]);
        }
      }
      SortedCICons(x, s);
    } else {
      var t := InsertCI(x, s[1..]);
      assert SortedCI(s[1..]);
      InsertCISorted(x, s[1..]);
      LeqCITotal(x, s[0]);
      InsertCIBound(x, s[1..], s[0]);
      SortedCICons(s[0], t);
    }
  }

  lemma {:induction false} SortCISorted(s: seq<string>)
    ensures SortedCI(SortCI(s))
  {
    if s != [] {
      SortCISorted(s[1..]);
      InsertCISorted(s[0], SortCI(s[1..]));
    }
  }

  /**
   * `GetAssetsRootSubfolders()`: the visible folders one and two levels
   * below Assets, sorted case-insensitively; exactly the paths of the nodes
   * of `BuildAssetsTree(2)` other than the root.
   */
  method GetAssetsRootSubfolders(projectRoot: string, assets: Option<DirTree>) returns (result: seq<string>)
    ensures result == SortCI(RelPaths(AssetsTree(projectRoot, assets, 2).children))
    ensures multiset(result) == multiset(RelPaths(AssetsTree(projectRoot, assets, 2).children))
    ensures SortedCI(result)
  {
    result := [];
    if assets.None? {
      return;
    }
    result := AddDirs(projectRoot, AssetsPath(projectRoot), assets.value.subdirs, 1, 2);
    SortCISorted(result);
    result := SortCI(result);
  }

  // ---------------------------------------------------------------------------
  // RefreshAssetFolderCandidates
  // ---------------------------------------------------------------------------

  const EDITOR := "Editor"

  /** Folders listed by RefreshAssetFolderCandidates among the subdirectories `s` of Assets:
      visible ones not named Editor in any case, in listing order. */
  function TopFolders(projectRoot: string, s: seq<DirTree>): seq<string>
  {
    if s == [] then []
    else
      var name := s[|s| - 1].name;
      TopFolders(projectRoot, s[..|s| - 1]) +
        (if Hidden(name) || EqCI(name, EDITOR) then []
         else [RelativeFromProject(Combine(AssetsPath(projectRoot), name), projectRoot)])
  }

  /** The selection RefreshAssetFolderCandidates leaves: empty when Assets is missing. */
  function FolderCandidates(projectRoot: string, assets: Option<DirTree>): seq<string> {
    match assets
    case None => []
    case Some(a) => TopFolders(projectRoot, a.subdirs)
  }

  /** The refreshed selection is exactly the first-level nodes of BuildAssetsTree not named Editor. */
  lemma {:induction false} TopFoldersAreTreeRoots(projectRoot: string, s: seq<DirTree>, depth: int)
    requires depth >= 1
    ensures forall x :: x in TopFolders(projectRoot, s) <==>
              exists n | n in Children(projectRoot, AssetsPath(projectRoot), s, 1, depth) :: n.relPath == x && !EqCI(n.name, EDITOR)
  {
    if s != [] {
      var ap := AssetsPath(projectRoot);
      var init := s[..|s| - 1];
      var d := s[|s| - 1];
      TopFoldersAreTreeRoots(projectRoot, init, depth);
      var before: seq<AssetNode> := Children(projectRoot, ap, init, 1, depth);
      var extra: seq<AssetNode> := if Hidden(d.name) then []
                   else [AssetNode(d.name, RelativeFromProject(Combine(ap, d.name), projectRoot),
                                   Children(projectRoot, Combine(ap, d.name), d.subdirs, 2, depth))];
      assert Children(projectRoot, ap, s, 1, depth) == before + extra;
      forall x ensures x in TopFolders(projectRoot, s) <==>
                       exists n: AssetNode | n in before + extra :: n.relPath == x && !EqCI(n.name, EDITOR)
      {
        if exists n: AssetNode | n in before + extra :: n.relPath == x && !EqCI(n.name, EDITOR) {
          var n: AssetNode :| n in before + extra && n.relPath == x && !EqCI(n.name, EDITOR);
          if n in before {
            assert x in TopFolders(projectRoot, init);
          }
        }
        if x in TopFolders(projectRoot, init) {
          var n :| n in before && n.relPath == x && !EqCI(n.name, EDITOR);
          assert n in before + extra;
        }
        if extra != [] && !EqCI(d.name, EDITOR) {
          assert extra[0] in before + extra;
        }
      }
    }
  }

  lemma FolderCandidatesAreTreeRoots(projectRoot: string, assets: Option<DirTree>, depth: int)
    requires depth >= 1
    ensures forall x :: x in FolderCandidates(projectRoot, assets) <==>
              exists n | n in AssetsTree(projectRoot, assets, depth).children :: n.relPath == x && !EqCI(n.name, EDITOR)
  {
    if assets.Some? {
      TopFoldersAreTreeRoots(projectRoot, assets.value.subdirs, depth);
    }
  }
}
