/**
 * The template builder window: the selection list and fold-out state it
 * edits, and CopyAssets, which turns the selection into copies.
 */
module TemplateBuilder {
  import opened Wrappers
  import opened Text
  import opened Paths
  import opened Selection
  import opened FileCopy
  import opened AssetTree

  // ---------------------------------------------------------------------------
  // Selection edits on values
  // ---------------------------------------------------------------------------

  /** `List.Remove(x)`: drops the first entry equal to `x`, if any. */
  function RemoveFirst(list: seq<string>, x: string): seq<string> {
    if list == [] then []
    else if list[0] == x then list[1..]
    else [list[0]] + RemoveFirst(list[1..], x)
  }

  /** Removal takes away exactly one occurrence of `x`, or none when there is none. */
  lemma {:induction false} RemoveFirstCount(list: seq<string>, x: string)
    ensures x !in list ==> RemoveFirst(list, x) == list
    ensures multiset(RemoveFirst(list, x)) == multiset(list) - multiset{x}
  {
    if list != [] {
      assert list == [list[0]] + list[1..];
      RemoveFirstCount(list[1..], x);
    }
  }

  /** The selection after `SetSelected(relPath, on)`. */
  function WithSelected(list: seq<string>, relPath: string, on: bool): seq<string> {
    if on then (if relPath in list then list else list + [relPath])
    else RemoveFirst(list, relPath)
  }

  /** The selection after SetSelected for each of `paths` in turn. */
  function SelectAll(list: seq<string>, paths: seq<string>, on: bool): seq<string>
    decreases |paths|
  {
    if paths == [] then list else SelectAll(WithSelected(list, paths[0], on), paths[1..], on)
  }

  /** The paths of `node` and of all nodes beneath it, in the order ToggleWithChildren visits them. */
  function SubtreePaths(node: AssetNode): seq<string> {
    [node.relPath] + RelPaths(node.children)
  }

  /** No entry occurs twice. */
  predicate NoDup(list: seq<string>) {
    forall i, j | 0 <= i < j < |list| :: list[i] != list[j]
  }

  /** The entries of `list` that are not among `paths`, in their order. */
  function Without(list: seq<string>, paths: seq<string>): (r: seq<string>)
    ensures forall x :: x in r <==> x in list && x !in paths
  {
    if list == [] then []
    else (if list[0] in paths then [] else [list[0]]) + Without(list[1..], paths)
  }

  /** `SetSelected(p, true)` adds `p` at the end exactly when it is absent. */
  lemma SelectOn(list: seq<string>, p: string)
    ensures p in WithSelected(list, p, true)
    ensures p in list ==> WithSelected(list, p, true) == list
    ensures p !in list ==> WithSelected(list, p, true) == list + [p]
    ensures NoDup(list) ==> NoDup(WithSelected(list, p, true))
  {
  }

  /** `SetSelected(p, false)` removes the first occurrence of `p` and keeps the other entries in order. */
  lemma {:induction false} SelectOff(list: seq<string>, p: string)
    ensures p !in list ==> WithSelected(list, p, false) == list
    ensures p in list ==> exists i | 0 <= i < |list| ::
              list[i] == p && p !in list[..i] && WithSelected(list, p, false) == list[..i] + list[i + 1..]
  {
    if p !in list {
      RemoveFirstCount(list, p);
    } else {
      var i := RemoveFirstAt(list, p);
      assert list[i] == p && p !in list[..i] && WithSelected(list, p, false) == list[..i] + list[i + 1..];
    }
  }

  /** The position of the first `p` in `list`, and what removing it leaves. */
  lemma {:induction false} RemoveFirstAt(list: seq<string>, p: string) returns (i: nat)
    requires p in list
    ensures i < |list| && list[i] == p && p !in list[..i]
    ensures RemoveFirst(list, p) == list[..i] + list[i + 1..]
  {
    if list[0] == p {
      i := 0;
      assert list[..0] == [];
    } else {
      var t := list[1..];
      assert p in t by { assert list == [list[0]] + t; }
      var j := RemoveFirstAt(t, p);
      i := j + 1;
      calc {
        RemoveFirst(list, p);
        [list[0]] + RemoveFirst(t, p);
        [list[0]] + (t[..j] + t[j + 1..]);
        { assert list[..i] == [list[0]] + t[..j]; assert list[i + 1..] == t[j + 1..]; }
        list[..i] + list[i + 1..];
      }
      assert list[..i] == [list[0]] + t[..j];
    }
  }

  /** On a duplicate-free list, removing the first occurrence removes every occurrence. */
  lemma {:induction false} RemoveFirstNoDup(list: seq<string>, p: string)
    requires NoDup(list)
    ensures RemoveFirst(list, p) == Without(list, [p])
    ensures NoDup(RemoveFirst(list, p))
  {
    if list != [] {
      assert NoDup(list[1..]) by {
        forall i, j | 0 <= i < j < |list[1..]| ensures list[1..][i] != list[1..][j] {
          assert list[1..][i] == list[i + 1] && list[1..][j] == list[j + 1];
        }
      }
      RemoveFirstNoDup(list[1..], p);
      if list[0] == p {
        forall k | 0 <= k < |list[1..]| ensures list[1..][k] != p {
          assert list[1..][k] == list[k + 1];
        }
        WithoutNone(list[1..], [p]);
      }
    }
  }

  lemma {:induction false} WithoutNone(list: seq<string>, paths: seq<string>)
    requires forall k | 0 <= k < |list| :: list[k] !in paths
    ensures Without(list, paths) == list
  {
    if list != [] {
      WithoutNone(list[1..], paths);
    }
  }

  /** Without an occurrence of `x`, then without `rest`, is without both. */
  lemma {:induction false} WithoutTwice(list: seq<string>, x: string, rest: seq<string>)
    ensures Without(Without(list, [x]), rest) == Without(list, [x] + rest)
  {
    if list != [] {
      WithoutTwice(list[1..], x, rest);
      if list[0] != x {
        assert Without(list, [x]) == [list[0]] + Without(list[1..], [x]);
        var w := Without(list, [x]);
        assert w[0] == list[0] && w[1..] == Without(list[1..], [x]);
        assert (list[0] in [x] + rest) == (list[0] in rest);
        assert Without(w, rest) == (if w[0] in rest then [] else [w[0]]) + Without(w[1..], rest);
        assert Without(list, [x] + rest) ==
               (if list[0] in [x] + rest then [] else [list[0]]) + Without(list[1..], [x] + rest);
      } else {
        assert Without(list, [x]) == Without(list[1..], [x]);
        assert Without(list, [x] + rest) == Without(list[1..], [x] + rest);
      }
    }
  }

  /** Toggling a sequence of paths is toggling a prefix of it, then the rest. */
  lemma {:induction false} SelectAllAppend(list: seq<string>, a: seq<string>, b: seq<string>, on: bool)
    ensures SelectAll(list, a + b, on) == SelectAll(SelectAll(list, a, on), b, on)
    decreases |a|
  {
    if a != [] {
      assert (a + b)[0] == a[0] && (a + b)[1..] == a[1..] + b;
      SelectAllAppend(WithSelected(list, a[0], on), a[1..], b, on);
    } else {
      assert a + b == b;
    }
  }

  /** Switching paths on keeps the old selection as a prefix, appends only missing paths,
      adds every one of them, and never introduces a duplicate. */
  lemma {:induction false} SelectAllOn(list: seq<string>, paths: seq<string>)
    ensures var r := SelectAll(list, paths, true);
      |list| <= |r| && r[..|list|] == list &&
      (forall p | p in paths :: p in r) &&
      (forall x | x in r :: x in list || x in paths) &&
      (NoDup(list) ==> NoDup(r))
    decreases |paths|
  {
    if paths != [] {
      var next := WithSelected(list, paths[0], true);
      SelectOn(list, paths[0]);
      SelectAllOn(next, paths[1..]);
      var r := SelectAll(list, paths, true);
      assert r[..|list|] == r[..|next|][..|list|];
      forall p | p in paths ensures p in r {
        if p != paths[0] {
          assert p in paths[1..];
        } else {
          assert r[..|next|] == next;
          assert p in next;
        }
      }
    }
  }

  /** Switching paths off removes, per path, one occurrence: counted as a multiset it
      takes away exactly the paths' occurrences. */
  lemma {:induction false} SelectAllOffCount(list: seq<string>, paths: seq<string>)
    ensures multiset(SelectAll(list, paths, false)) == multiset(list) - multiset(paths)
    decreases |paths|
  {
    if paths != [] {
      RemoveFirstCount(list, paths[0]);
      SelectAllOffCount(RemoveFirst(list, paths[0]), paths[1..]);
      assert paths == [paths[0]] + paths[1..];
    }
  }

  /** On a duplicate-free selection, switching paths off leaves exactly the entries not
      among them, in their order. */
  lemma {:induction false} SelectAllOff(list: seq<string>, paths: seq<string>)
    requires NoDup(list)
    ensures SelectAll(list, paths, false) == Without(list, paths)
    decreases |paths|
  {
    if paths == [] {
      WithoutNone(list, paths);
    } else {
      RemoveFirstNoDup(list, paths[0]);
      SelectAllOff(RemoveFirst(list, paths[0]), paths[1..]);
      WithoutTwice(list, paths[0], paths[1..]);
      assert paths == [paths[0]] + paths[1..];
    }
  }

  /** The subtree of a node is the node, then the subtrees of its children in order. */
  lemma SubtreePathsSnoc(node: AssetNode, i: nat)
    requires i < |node.children|
    ensures [node.relPath] + RelPaths(node.children[..i + 1]) ==
            [node.relPath] + RelPaths(node.children[..i]) + SubtreePaths(node.children[i])
  {
    assert node.children[..i + 1][..i] == node.children[..i];
  }

  // ---------------------------------------------------------------------------
  // Fold-out state on values
  // ---------------------------------------------------------------------------

  /** The fold-out map after setting each of `keys` to `open`. */
  function FoldAll(m: map<string, bool>, keys: seq<string>, open: bool): (r: map<string, bool>)
    ensures forall k :: k in r <==> k in m || k in keys
    ensures forall k | k in keys :: r[k] == open
    ensures forall k | k in m && k !in keys :: r[k] == m[k]
    decreases |keys|
  {
    if keys == [] then m
    else
      assert forall k | k in keys[1..] :: k in keys;
      FoldAll(m[keys[0] := open], keys[1..], open)
  }

  /** Setting a prefix of the keys and then the rest is setting them all. */
  lemma FoldAllAppend(m: map<string, bool>, a: seq<string>, b: seq<string>, open: bool)
    ensures FoldAll(m, a + b, open) == FoldAll(FoldAll(m, a, open), b, open)
  {
  }

  // ---------------------------------------------------------------------------
  // The project on disk and the copy of Assets
  // ---------------------------------------------------------------------------

  /** A path relative to the project root as the disk reports it: '/'-separated, not
      rooted, with no empty segment and no trailing separator. */
  predicate ProjectKey(k: string) {
    k != [] && k[0] != '/' && k[|k| - 1] != '/' && '\\' !in k &&
    forall i | 0 <= i < |k| - 1 :: !(k[i] == '/' && k[i + 1] == '/')
  }

  /** The project directory: every entry keyed by its path relative to the project root. */
  predicate ValidProject(project: map<string, Entry>) {
    forall k | k in project :: ProjectKey(k)
  }

  /** `Directory.Exists(Path.GetFullPath(rel))` for a `rel` already in its canonical spelling:
      repeated separators and "."/".." segments are not resolved. */
  predicate IsDir(project: map<string, Entry>, rel: string) {
    rel in project && project[rel].Dir?
  }

  /** What `Directory.GetDirectories/GetFiles(fullSrc, "*", AllDirectories)` find below `rel`,
      keyed by the part after `rel` (which begins with '/'). */
  function SubTree(project: map<string, Entry>, rel: string): map<string, Entry> {
    var keys := set k | k in project && Beneath(k, rel) :: k[|rel|..];
    map q | q in keys && rel + q in project :: project[rel + q]
  }

  /** Every entry beneath `rel` appears in the subtree under its relative path, and nothing else does. */
  lemma SubTreeAt(project: map<string, Entry>, rel: string)
    ensures forall k | k in project && Beneath(k, rel) :: k[|rel|..] in SubTree(project, rel) && SubTree(project, rel)[k[|rel|..]] == project[k]
    ensures forall q | q in SubTree(project, rel) :: rel + q in project && Beneath(rel + q, rel)
  {
    forall k | k in project && Beneath(k, rel)
      ensures k[|rel|..] in SubTree(project, rel) && SubTree(project, rel)[k[|rel|..]] == project[k]
    {
      assert rel + k[|rel|..] == k by { assert k[..|rel|] == rel; }
    }
    forall q | q in SubTree(project, rel) ensures Beneath(rel + q, rel) {
      var k :| k in project && Beneath(k, rel) && k[|rel|..] == q;
      assert rel + q == k by { assert k[..|rel|] == rel; }
    }
  }

  /** The subtree of a well-formed project is a valid copy source. */
  lemma SubTreeValid(project: map<string, Entry>, rel: string)
    requires ValidProject(project)
    ensures ValidSource(SubTree(project, rel))
  {
    forall q | q in SubTree(project, rel) ensures RelKey(q) {
      var k :| k in project && Beneath(k, rel) && k[|rel|..] == q;
      assert k[|rel|] == '/';
      assert k[|k| - 1] != '/';
      assert q[0] == k[|rel|] && q[1] == k[|rel| + 1];
      assert !(k[|rel|] == '/' && k[|rel| + 1] == '/');
    }
  }

  /** `Path.Combine(templateDir, "Assets")` */
  function AssetsDest(templateDir: string): string {
    Combine(templateDir, ASSETS)
  }

  /** The destination after `if (Directory.Exists(dstAssets)) DeleteFileOrDirectory(dstAssets);
      Directory.CreateDirectory(dstAssets);` */
  function ClearedAssets(before: map<string, Entry>, templateDir: string): map<string, Entry> {
    var dst := AssetsDest(templateDir);
    CreateDir(if dst in before && before[dst].Dir? then DeleteTree(before, dst) else before, dst)
  }

  /** The exclude list for copy root `rel`. */
  function RootPatterns(rel: string, candidates: seq<string>, selected: seq<string>): seq<string> {
    VCS_PATTERNS + ChildExcludes(rel, candidates, selected)
  }

  /** One pass of the loop over `topSelected`: skipped when `rel` is not a directory, else its
      parent is created and it is copied to the same relative place in the template. */
  function CopyRoot(m: map<string, Entry>, templateDir: string, project: map<string, Entry>, rel: string,
                    candidates: seq<string>, selected: seq<string>): map<string, Entry>
    requires ValidProject(project)
  {
    if IsDir(project, rel) then
      var dst := Combine(templateDir, rel);
      SubTreeValid(project, rel);
      CopyResult(CreateDir(m, DirName(dst)), SubTree(project, rel), dst, RootPatterns(rel, candidates, selected))
    else m
  }

  /** The loop over `roots`, in order. */
  function CopyRoots(m: map<string, Entry>, templateDir: string, project: map<string, Entry>, roots: seq<string>,
                     candidates: seq<string>, selected: seq<string>): map<string, Entry>
    requires ValidProject(project)
    decreases |roots|
  {
    if roots == [] then m
    else CopyRoot(CopyRoots(m, templateDir, project, roots[..|roots| - 1], candidates, selected),
                  templateDir, project, roots[|roots| - 1], candidates, selected)
  }

  /**
   * The roots the loop of CopyAssets gets through: those before the first blank one.
   * `Path.GetFullPath` rejects an empty or white-space-only path, so at a blank root
   * the loop stops with an exception, after the roots before it were copied.
   */
  function AttemptedRoots(roots: seq<string>): (r: seq<string>)
    ensures |r| <= |roots| && r == roots[..|r|]
    ensures forall k | 0 <= k < |r| :: !IsBlank(r[k])
    ensures |r| < |roots| ==> IsBlank(roots[|r|])
  {
    if roots == [] then []
    else if IsBlank(roots[0]) then []
    else
      var rest := AttemptedRoots(roots[1..]);
      assert [roots[0]] + rest == roots[..|rest| + 1];
      [roots[0]] + rest
  }

  /** The blank-free prefix that ends at the end or at a blank root is the attempted one. */
  lemma {:induction false} AttemptedRootsAt(roots: seq<string>, n: nat)
    requires n <= |roots| && forall k | 0 <= k < n :: !IsBlank(roots[k])
    requires n == |roots| || IsBlank(roots[n])
    ensures AttemptedRoots(roots) == roots[..n]
  {
  }

  /** A blank path has no '/' and so lies under nothing. */
  lemma BlankIsTop(y: string, all: seq<string>)
    requires IsBlank(y)
    ensures IsTop(y, all)
  {
    forall o | o in all ensures !IsUnder(y, o) {
      if |o| < |y| {
        assert IsWhiteSpace(y[|o|]);
        assert (o + "/")[|o|] == '/';
      }
    }
  }

  /** Up to case, a blank path is spelled only one way. */
  lemma EqCIBlank(y: string, b: string)
    requires EqCI(y, b) && IsBlank(b)
    ensures IsBlank(y)
  {
    forall i | 0 <= i < |y| ensures IsWhiteSpace(y[i]) {
      assert Fold(y[i]) == Fold(b[i]);
    }
  }

  /** No root is blank. */
  predicate NoBlankRoot(roots: seq<string>) {
    forall x | x in roots :: !IsBlank(x)
  }

  /** No ticked entry is blank once normalised ("", "/", "\\" or white space). */
  predicate NoBlankEntry(sel: seq<string>) {
    forall s | s in sel :: !IsBlank(Normalize(s))
  }

  /** The selection has a blank top-level folder exactly when some ticked entry is blank
      once normalised: the case where CopyAssets fails. */
  lemma BlankTopSelected(sel: seq<string>)
    ensures NoBlankRoot(TopSelected(SelectedSet(sel))) <==> NoBlankEntry(sel)
  {
    if x :| x in TopSelected(SelectedSet(sel)) && IsBlank(x) {
      var s := BlankRootFromEntry(sel, x);
    }
    if s :| s in sel && IsBlank(Normalize(s)) {
      var x := BlankEntryGivesRoot(sel, s);
    }
  }

  /** A blank top-level folder is the normal form of a ticked entry. */
  lemma BlankRootFromEntry(sel: seq<string>, x: string) returns (s: string)
    requires x in TopSelected(SelectedSet(sel)) && IsBlank(x)
    ensures s in sel && IsBlank(Normalize(s))
  {
    var norm := NormalizeAll(sel);
    assert x in norm;
    var i :| 0 <= i < |norm| && norm[i] == x;
    s := sel[i];
  }

  /** A ticked entry that is blank once normalised gives a blank top-level folder. */
  lemma BlankEntryGivesRoot(sel: seq<string>, s: string) returns (x: string)
    requires s in sel && IsBlank(Normalize(s))
    ensures x in TopSelected(SelectedSet(sel)) && IsBlank(x)
  {
    var norm := NormalizeAll(sel);
    var selected := SelectedSet(sel);
    var i :| 0 <= i < |sel| && sel[i] == s;
    var b := Normalize(s);
    assert norm[i] == b;
    assert b in norm;
    assert InCI(selected, b);
    var k :| 0 <= k < |selected| && EqCI(selected[k], b);
    x := selected[k];
    assert x in selected;
    EqCIBlank(x, b);
    BlankIsTop(x, selected);
  }

  /** A prefix of roots that are apart is apart. */
  lemma ApartPrefix(roots: seq<string>, n: nat)
    requires Apart(roots) && n <= |roots|
    ensures Apart(roots[..n])
  {
    forall i, j | 0 <= i < n && 0 <= j < n && i != j ensures roots[..n][i] != roots[..n][j] && !IsUnder(roots[..n][i], roots[..n][j]) {
      assert roots[..n][i] == roots[i] && roots[..n][j] == roots[j];
    }
  }

  /** The `candidates` of CopyAssets: GetAssetsRootSubfolders, normalised. */
  function Candidates(projectRoot: string, assets: Option<DirTree>): seq<string> {
    NormalizeAll(SortCI(RelPaths(AssetsTree(projectRoot, assets, 2).children)))
  }

  /** The destination after CopyAssets. */
  function CopyAssetsResult(before: map<string, Entry>, templateDir: string, projectRoot: string,
                            project: map<string, Entry>, assets: Option<DirTree>,
                            copyAll: bool, selectedAssetFolders: seq<string>): map<string, Entry>
    requires ValidProject(project)
  {
    var cleared := ClearedAssets(before, templateDir);
    if copyAll then
      if IsDir(project, ASSETS) then
        SubTreeValid(project, ASSETS);
        CopyResult(cleared, SubTree(project, ASSETS), AssetsDest(templateDir), VCS_PATTERNS)
      else cleared
    else
      var selected := SelectedSet(selectedAssetFolders);
      CopyRoots(cleared, templateDir, project, AttemptedRoots(TopSelected(selected)), Candidates(projectRoot, assets), selected)
  }

  // ---------------------------------------------------------------------------
  // What CopyAssets leaves in the template
  // ---------------------------------------------------------------------------

  /** Emptying the template's Assets folder: it exists afterwards, nothing beneath it
      survives when it was a directory, and nothing away from it changes. */
  lemma ClearedAssetsShape(before: map<string, Entry>, templateDir: string)
    ensures AssetsDest(templateDir) in ClearedAssets(before, templateDir)
    ensures AssetsDest(templateDir) in before && before[AssetsDest(templateDir)].Dir? ==>
              forall q | q in ClearedAssets(before, templateDir) :: !Beneath(q, AssetsDest(templateDir))
    ensures forall q | q in before && !AncestorOrSelf(q, AssetsDest(templateDir)) && !Beneath(q, AssetsDest(templateDir)) ::
              q in ClearedAssets(before, templateDir) && ClearedAssets(before, templateDir)[q] == before[q]
  {
    var dst := AssetsDest(templateDir);
    var base := if dst in before && before[dst].Dir? then DeleteTree(before, dst) else before;
    forall q | q in AncestorsAndSelf(dst) ensures AncestorOrSelf(q, dst) && !Beneath(q, dst) {
    }
  }

  /** Combining both paths with the same directory keeps how they relate. */
  lemma CombineRelations(dir: string, a: string, b: string)
    ensures Beneath(Combine(dir, a), Combine(dir, b)) <==> Beneath(a, b)
    ensures AncestorOrSelf(Combine(dir, a), Combine(dir, b)) <==> AncestorOrSelf(a, b)
    ensures Beneath(Combine(dir, a), Combine(dir, b)) ==> Combine(dir, a)[|Combine(dir, b)|..] == a[|b|..]
  {
    var d := dir + "/";
    assert Combine(dir, a) == d + a && Combine(dir, b) == d + b;
    if |a| > |b| {
      var x := a[..|b| + 1];
      assert (d + a)[..|d + b| + 1] == d + x;
      assert (d + b) + "/" == d + (b + "/");
      assert (d + x)[|d|..] == x && (d + (b + "/"))[|d|..] == b + "/";
      assert (d + a)[|d + b|..] == a[|b|..];
    } else {
      var x := b[..|a|];
      assert (d + b)[..|d + a|] == d + x;
      assert (d + x)[|d|..] == x && (d + a)[|d|..] == a;
    }
  }

  /** A path spelled beneath `o` lies under `o` in the case-insensitive sense too. */
  lemma BeneathIsUnder(p: string, o: string)
    ensures Beneath(p, o) ==> IsUnder(p, o)
  {
    if Beneath(p, o) {
      forall i | 0 <= i < |o + "/"| ensures Fold(p[i]) == Fold((o + "/")[i]) {
        assert p[i] == p[..|o| + 1][i];
      }
    }
  }

  /** Whatever lies on the way to a path beneath `rel`, and is at least as long, is itself beneath `rel`. */
  lemma OnTheWayBeneath(f: string, rel: string, other: string)
    ensures Beneath(f, rel) && AncestorOrSelf(f, other) ==> Beneath(other, rel)
  {
    if Beneath(f, rel) && AncestorOrSelf(f, other) {
      assert other[..|rel| + 1] == f[..|rel| + 1];
    }
  }

  /** Two directories a path lies beneath are equal or one lies beneath the other. */
  lemma BeneathBoth(f: string, a: string, b: string)
    ensures Beneath(f, a) && Beneath(f, b) ==> a == b || Beneath(a, b) || Beneath(b, a)
  {
    if Beneath(f, a) && Beneath(f, b) {
      if |a| < |b| {
        assert b[..|a| + 1] == f[..|a| + 1];
      } else if |b| < |a| {
        assert a[..|b| + 1] == f[..|b| + 1];
      } else {
        assert a == f[..|a|] && b == f[..|b|];
      }
    }
  }

  /** A path beneath one of two top-level roots is neither beneath the other nor on the
      way to it. */
  lemma RootsApart(rel: string, other: string, f: string)
    requires rel != other && !IsUnder(rel, other) && !IsUnder(other, rel)
    requires Beneath(f, rel)
    ensures !Beneath(f, other) && !AncestorOrSelf(f, other)
  {
    BeneathIsUnder(rel, other);
    BeneathIsUnder(other, rel);
    OnTheWayBeneath(f, rel, other);
    BeneathBoth(f, rel, other);
  }

  /** `q` is left alone by the copy of root `rel`: it is not on the way to the root's target,
      and beneath it only where a pattern of that root matches. */
  predicate RootLeaves(q: string, templateDir: string, project: map<string, Entry>, rel: string,
                       candidates: seq<string>, selected: seq<string>) {
    var dst := Combine(templateDir, rel);
    IsDir(project, rel) ==>
      !AncestorOrSelf(q, dst) && (Beneath(q, dst) ==> Excluded(q[|dst|..], RootPatterns(rel, candidates, selected)))
  }

  /** A path that one root's copy leaves alone keeps its entry through that copy. */
  lemma CopyRootFrame(m: map<string, Entry>, templateDir: string, project: map<string, Entry>, rel: string,
                      candidates: seq<string>, selected: seq<string>, q: string)
    requires ValidProject(project)
    requires RootLeaves(q, templateDir, project, rel, candidates, selected)
    ensures var r := CopyRoot(m, templateDir, project, rel, candidates, selected);
      (q in r <==> q in m) && (q in m ==> r[q] == m[q])
  {
    if IsDir(project, rel) {
      var dst := Combine(templateDir, rel);
      forall a | a in AncestorsAndSelf(DirName(dst)) ensures a != q {
        AncestorOfParentIsPrefix(dst, a);
      }
      SubTreeValid(project, rel);
      CopyFrame(CreateDir(m, DirName(dst)), SubTree(project, rel), dst, RootPatterns(rel, candidates, selected), q);
    }
  }

  /** A path that every root's copy leaves alone keeps its entry through the whole loop. */
  lemma {:induction false} CopyRootsFrame(m: map<string, Entry>, templateDir: string, project: map<string, Entry>,
                                          roots: seq<string>, candidates: seq<string>, selected: seq<string>, q: string)
    requires ValidProject(project)
    requires forall r | r in roots :: RootLeaves(q, templateDir, project, r, candidates, selected)
    ensures var r := CopyRoots(m, templateDir, project, roots, candidates, selected);
      (q in r <==> q in m) && (q in m ==> r[q] == m[q])
    decreases |roots|
  {
    if roots != [] {
      var init := roots[..|roots| - 1];
      assert forall r | r in init :: r in roots;
      CopyRootsFrame(m, templateDir, project, init, candidates, selected, q);
      CopyRootFrame(CopyRoots(m, templateDir, project, init, candidates, selected), templateDir, project,
                    roots[|roots| - 1], candidates, selected, q);
    }
  }

  /** The loop over `a + b` is the loop over `a`, then over `b`. */
  lemma {:induction false} CopyRootsAppend(m: map<string, Entry>, templateDir: string, project: map<string, Entry>,
                                           a: seq<string>, b: seq<string>, candidates: seq<string>, selected: seq<string>)
    requires ValidProject(project)
    ensures CopyRoots(m, templateDir, project, a + b, candidates, selected) ==
            CopyRoots(CopyRoots(m, templateDir, project, a, candidates, selected), templateDir, project, b, candidates, selected)
    decreases |b|
  {
    if b == [] {
      assert a + b == a;
    } else {
      assert (a + b)[..|a + b| - 1] == a + b[..|b| - 1];
      CopyRootsAppend(m, templateDir, project, a, b[..|b| - 1], candidates, selected);
    }
  }

  /** Distinct top-level roots: different, and neither under the other. */
  predicate Apart(roots: seq<string>) {
    forall i, j | 0 <= i < |roots| && 0 <= j < |roots| && i != j :: roots[i] != roots[j] && !IsUnder(roots[i], roots[j])
  }

  /** The top-level selected folders are apart. */
  lemma TopSelectedApart(selectedAssetFolders: seq<string>)
    ensures Apart(TopSelected(SelectedSet(selectedAssetFolders)))
  {
    var selected := SelectedSet(selectedAssetFolders);
    var roots := TopSelected(selected);
    KeepTopNoDup(selected, selected);
    SortByDepthNoDup(KeepTop(selected, selected));
    forall i, j | 0 <= i < |roots| && 0 <= j < |roots| && i != j ensures roots[i] != roots[j] && !IsUnder(roots[i], roots[j]) {
      assert roots[i] in roots && roots[j] in roots;
      if i < j {
        assert !EqCI(roots[i], roots[j]);
      } else {
        assert !EqCI(roots[j], roots[i]);
      }
      EqCIRefl(roots[i]);
    }
  }

  /** One root's copy puts a file beneath it that no pattern of the root matches at the
      file's own relative path in the template. */
  lemma CopyRootWritesFile(m: map<string, Entry>, templateDir: string, project: map<string, Entry>,
                           rel: string, candidates: seq<string>, selected: seq<string>, f: string)
    requires ValidProject(project) && IsDir(project, rel)
    requires f in project && project[f].File? && Beneath(f, rel)
    requires !Excluded(f[|rel|..], RootPatterns(rel, candidates, selected))
    ensures Combine(templateDir, f) in CopyRoot(m, templateDir, project, rel, candidates, selected)
    ensures CopyRoot(m, templateDir, project, rel, candidates, selected)[Combine(templateDir, f)] == project[f]
  {
    var dst := Combine(templateDir, rel);
    var k := f[|rel|..];
    BeneathSplit(f, rel);
    assert dst + k == Combine(templateDir, f) by {
      assert dst + k == templateDir + "/" + (rel + k);
    }
    SubTreeValid(project, rel);
    assert RelKey(k) && Target(dst, k) == dst + k;
    SubTreeAt(project, rel);
    CopyWritesFile(CreateDir(m, DirName(dst)), SubTree(project, rel), dst, RootPatterns(rel, candidates, selected), k);
  }

  /** A path beneath `rel` is `rel` followed by its part relative to `rel`. */
  lemma BeneathSplit(f: string, rel: string)
    requires Beneath(f, rel)
    ensures f == rel + f[|rel|..] && f[|rel|] == '/'
  {
    assert f[..|rel|] == f[..|rel| + 1][..|rel|];
  }

  /** A file beneath root `roots[i]` that no pattern of that root matches ends up in the
      template at its own relative path with the project's contents, whatever the other
      roots copy. */
  lemma CopyRootsWritesFile(m: map<string, Entry>, templateDir: string, project: map<string, Entry>,
                            roots: seq<string>, candidates: seq<string>, selected: seq<string>, i: nat, f: string)
    requires ValidProject(project) && Apart(roots)
    requires i < |roots| && IsDir(project, roots[i])
    requires f in project && project[f].File? && Beneath(f, roots[i])
    requires !Excluded(f[|roots[i]|..], RootPatterns(roots[i], candidates, selected))
    ensures Combine(templateDir, f) in CopyRoots(m, templateDir, project, roots, candidates, selected)
    ensures CopyRoots(m, templateDir, project, roots, candidates, selected)[Combine(templateDir, f)] == project[f]
  {
    var t := Combine(templateDir, f);
    var pre := roots[..i + 1];
    var post := roots[i + 1..];
    assert roots == pre + post;
    CopyRootsAppend(m, templateDir, project, pre, post, candidates, selected);
    CopyRootsPrefixWrites(m, templateDir, project, roots, candidates, selected, i, f);
    PostRootsLeave(templateDir, project, roots, candidates, selected, i, f);
    CopyRootsFrame(CopyRoots(m, templateDir, project, pre, candidates, selected), templateDir, project, post, candidates, selected, t);
  }

  /** The loop up to and including root `roots[i]` has written the file. */
  lemma CopyRootsPrefixWrites(m: map<string, Entry>, templateDir: string, project: map<string, Entry>,
                              roots: seq<string>, candidates: seq<string>, selected: seq<string>, i: nat, f: string)
    requires ValidProject(project)
    requires i < |roots| && IsDir(project, roots[i])
    requires f in project && project[f].File? && Beneath(f, roots[i])
    requires !Excluded(f[|roots[i]|..], RootPatterns(roots[i], candidates, selected))
    ensures Combine(templateDir, f) in CopyRoots(m, templateDir, project, roots[..i + 1], candidates, selected)
    ensures CopyRoots(m, templateDir, project, roots[..i + 1], candidates, selected)[Combine(templateDir, f)] == project[f]
  {
    var pre := roots[..i + 1];
    assert pre[..|pre| - 1] == roots[..i] && pre[|pre| - 1] == roots[i];
    CopyRootWritesFile(CopyRoots(m, templateDir, project, roots[..i], candidates, selected),
                       templateDir, project, roots[i], candidates, selected, f);
  }

  /** The roots after `roots[i]` leave a path beneath `roots[i]` alone. */
  lemma PostRootsLeave(templateDir: string, project: map<string, Entry>, roots: seq<string>,
                       candidates: seq<string>, selected: seq<string>, i: nat, f: string)
    requires Apart(roots) && i < |roots| && Beneath(f, roots[i])
    ensures forall r | r in roots[i + 1..] :: RootLeaves(Combine(templateDir, f), templateDir, project, r, candidates, selected)
  {
    forall r | r in roots[i + 1..] ensures RootLeaves(Combine(templateDir, f), templateDir, project, r, candidates, selected) {
      var j :| 0 <= j < |roots[i + 1..]| && roots[i + 1..][j] == r;
      assert roots[i + 1 + j] == r;
      RootsApart(roots[i], r, f);
      CombineRelations(templateDir, f, r);
    }
  }

  /** A file beneath an unselected candidate under root `roots[i]` is not copied by the
      loop over the first `n` roots, whether or not `roots[i]` is among them: the template
      keeps whatever it had at that path. */
  lemma CopyRootsSkipsUnselected(m: map<string, Entry>, templateDir: string, project: map<string, Entry>,
                                 roots: seq<string>, n: nat, candidates: seq<string>, selected: seq<string>,
                                 i: nat, c: string, f: string)
    requires ValidProject(project) && Apart(roots)
    requires i < |roots| && n <= |roots|
    requires c in candidates && '\\' !in c && IsUnder(c, roots[i]) && !InCI(selected, c)
    requires Beneath(f, roots[i]) && Beneath(f, c)
    ensures var r := CopyRoots(m, templateDir, project, roots[..n], candidates, selected);
      var t := Combine(templateDir, f);
      (t in r <==> t in m) && (t in m ==> r[t] == m[t])
  {
    var rel := roots[i];
    var t := Combine(templateDir, f);
    UnselectedChildExcluded(rel, candidates, selected, c, f);
    forall r | r in roots[..n] ensures RootLeaves(t, templateDir, project, r, candidates, selected) {
      CombineRelations(templateDir, f, r);
      if r != rel {
        var j :| 0 <= j < n && roots[..n][j] == r;
        assert roots[j] == r;
        RootsApart(rel, r, f);
      }
    }
    CopyRootsFrame(m, templateDir, project, roots[..n], candidates, selected, t);
  }

  /** Every path beneath an unselected candidate under the root is excluded from that root's copy. */
  lemma UnselectedChildExcluded(rel: string, candidates: seq<string>, selected: seq<string>, c: string, f: string)
    requires c in candidates && '\\' !in c && IsUnder(c, rel) && !InCI(selected, c)
    requires Beneath(f, rel) && Beneath(f, c)
    ensures Excluded(f[|rel|..], RootPatterns(rel, candidates, selected))
  {
    ExcludeComplete(rel, candidates, selected, c);
    assert ChildPattern(rel, c) == c[|rel|..];
    assert f[|rel|..] == c[|rel|..] + f[|c|..] by {
      assert f[..|c|] == c;
    }
    ExcludedExtends(c[|rel|..], f[|c|..], RootPatterns(rel, candidates, selected));
  }

  /** Copying everything: each file beneath Assets outside version-control folders lands
      at the same relative path in the template with the project's contents. */
  lemma CopyAllWritesFile(before: map<string, Entry>, templateDir: string, projectRoot: string,
                          project: map<string, Entry>, assets: Option<DirTree>, selectedAssetFolders: seq<string>, f: string)
    requires ValidProject(project) && IsDir(project, ASSETS)
    requires f in project && project[f].File? && Beneath(f, ASSETS) && !Excluded(f[|ASSETS|..], VCS_PATTERNS)
    ensures var r := CopyAssetsResult(before, templateDir, projectRoot, project, assets, true, selectedAssetFolders);
      Combine(templateDir, f) in r && r[Combine(templateDir, f)] == project[f]
  {
    var dst := AssetsDest(templateDir);
    var k := f[|ASSETS|..];
    BeneathSplit(f, ASSETS);
    assert dst + k == Combine(templateDir, f) by {
      assert dst + k == templateDir + "/" + (ASSETS + k);
    }
    SubTreeValid(project, ASSETS);
    assert RelKey(k) && Target(dst, k) == dst + k;
    SubTreeAt(project, ASSETS);
    CopyWritesFile(ClearedAssets(before, templateDir), SubTree(project, ASSETS), dst, VCS_PATTERNS, k);
  }

  /** Copying everything: a path beneath Assets that a version-control pattern matches
      keeps what the emptied template folder had there, which is nothing when the
      template's Assets was a directory. */
  lemma CopyAllSkipsExcluded(before: map<string, Entry>, templateDir: string, projectRoot: string,
                             project: map<string, Entry>, assets: Option<DirTree>, selectedAssetFolders: seq<string>, f: string)
    requires ValidProject(project) && Beneath(f, ASSETS) && Excluded(f[|ASSETS|..], VCS_PATTERNS)
    ensures var r := CopyAssetsResult(before, templateDir, projectRoot, project, assets, true, selectedAssetFolders);
      var cleared := ClearedAssets(before, templateDir);
      var t := Combine(templateDir, f);
      (t in r <==> t in cleared) && (t in cleared ==> r[t] == cleared[t])
  {
    var dst := AssetsDest(templateDir);
    CombineRelations(templateDir, f, ASSETS);
    if IsDir(project, ASSETS) {
      SubTreeValid(project, ASSETS);
      CopyFrame(ClearedAssets(before, templateDir), SubTree(project, ASSETS), dst, VCS_PATTERNS, Combine(templateDir, f));
    }
  }

  /** Copying the selection: a file beneath a top-level selected folder that no pattern
      of that folder matches lands at its own relative path with the project's contents. */
  lemma CopySelectedWritesFile(before: map<string, Entry>, templateDir: string, projectRoot: string,
                               project: map<string, Entry>, assets: Option<DirTree>, selectedAssetFolders: seq<string>,
                               rel: string, f: string)
    requires ValidProject(project)
    requires rel in AttemptedRoots(TopSelected(SelectedSet(selectedAssetFolders))) && IsDir(project, rel)
    requires f in project && project[f].File? && Beneath(f, rel)
    requires !Excluded(f[|rel|..], RootPatterns(rel, Candidates(projectRoot, assets), SelectedSet(selectedAssetFolders)))
    ensures var r := CopyAssetsResult(before, templateDir, projectRoot, project, assets, false, selectedAssetFolders);
      Combine(templateDir, f) in r && r[Combine(templateDir, f)] == project[f]
  {
    var top := TopSelected(SelectedSet(selectedAssetFolders));
    var roots := AttemptedRoots(top);
    TopSelectedApart(selectedAssetFolders);
    ApartPrefix(top, |roots|);
    var i :| 0 <= i < |roots| && roots[i] == rel;
    CopyRootsWritesFile(ClearedAssets(before, templateDir), templateDir, project, roots,
                        Candidates(projectRoot, assets), SelectedSet(selectedAssetFolders), i, f);
  }

  /** Copying the selection: a file beneath a candidate folder that is not selected, under
      a top-level selected folder, is not copied; the template keeps what the emptied
      folder had at that path. */
  lemma CopySelectedSkipsUnselected(before: map<string, Entry>, templateDir: string, projectRoot: string,
                                    project: map<string, Entry>, assets: Option<DirTree>, selectedAssetFolders: seq<string>,
                                    rel: string, c: string, f: string)
    requires ValidProject(project)
    requires rel in TopSelected(SelectedSet(selectedAssetFolders))
    requires c in Candidates(projectRoot, assets) && IsUnder(c, rel) && !InCI(SelectedSet(selectedAssetFolders), c)
    requires Beneath(f, rel) && Beneath(f, c)
    ensures var r := CopyAssetsResult(before, templateDir, projectRoot, project, assets, false, selectedAssetFolders);
      var cleared := ClearedAssets(before, templateDir);
      var t := Combine(templateDir, f);
      (t in r <==> t in cleared) && (t in cleared ==> r[t] == cleared[t])
  {
    var top := TopSelected(SelectedSet(selectedAssetFolders));
    var candidates := Candidates(projectRoot, assets);
    TopSelectedApart(selectedAssetFolders);
    var i :| 0 <= i < |top| && top[i] == rel;
    var j :| 0 <= j < |candidates| && candidates[j] == c;
    assert c == Normalize(SortCI(RelPaths(AssetsTree(projectRoot, assets, 2).children))[j]);
    CopyRootsSkipsUnselected(ClearedAssets(before, templateDir), templateDir, project, top, |AttemptedRoots(top)|,
                             candidates, SelectedSet(selectedAssetFolders), i, c, f);
  }

  /** Copying the selection changes nothing in the emptied template except on the way to,
      or beneath, the target of a top-level selected folder that exists, and beneath it only
      at paths that no pattern of that folder matches. */
  lemma CopySelectedFrame(before: map<string, Entry>, templateDir: string, projectRoot: string,
                          project: map<string, Entry>, assets: Option<DirTree>, selectedAssetFolders: seq<string>, q: string)
    requires ValidProject(project)
    requires forall rel | rel in TopSelected(SelectedSet(selectedAssetFolders)) ::
               RootLeaves(q, templateDir, project, rel, Candidates(projectRoot, assets), SelectedSet(selectedAssetFolders))
    ensures var r := CopyAssetsResult(before, templateDir, projectRoot, project, assets, false, selectedAssetFolders);
      var cleared := ClearedAssets(before, templateDir);
      (q in r <==> q in cleared) && (q in cleared ==> r[q] == cleared[q])
  {
    var top := TopSelected(SelectedSet(selectedAssetFolders));
    var roots := AttemptedRoots(top);
    assert forall r | r in roots :: r in top;
    CopyRootsFrame(ClearedAssets(before, templateDir), templateDir, project, roots,
                   Candidates(projectRoot, assets), SelectedSet(selectedAssetFolders), q);
  }

  // ---------------------------------------------------------------------------
  // Scenarios
  // ---------------------------------------------------------------------------

  /** A string none of whose characters matches the `j`-th character of `p` up to case
      does not contain `p`. */
  lemma NotContainsCI(s: string, p: string, j: nat)
    requires j < |p| && 'A' <= p[j] <= 'Z'
    requires p[j] !in s && ((p[j] as int + 32) as char) !in s
    ensures !ContainsCI(s, p)
  {
    forall i | 0 <= i <= |s| - |p| ensures !StartsWithCI(s[i..], p) {
      assert s[i..][j] == s[i + j];
      assert s[i + j] in s;
    }
  }

  /** The version-control patterns keep `.git` and `.svn` folders out, at any depth. */
  lemma VcsFoldersExcluded()
    ensures Excluded("/.git/config", VCS_PATTERNS)
    ensures Excluded("/Scripts/.svn/entries", VCS_PATTERNS)
    ensures !Excluded("/Scripts/main.cs", VCS_PATTERNS)
  {
    GitExcluded();
    SvnExcluded();
    ScriptsNoGit();
    ScriptsNoSvn();
  }

  lemma GitExcluded()
    ensures Excluded("/.git/config", VCS_PATTERNS)
  {
    MatchesAt("/.git/config", VCS_PATTERNS, 0, 0);
  }

  lemma SvnExcluded()
    ensures Excluded("/Scripts/.svn/entries", VCS_PATTERNS)
  {
    MatchesAt("/Scripts/.svn/entries", VCS_PATTERNS, 1, 8);
  }

  lemma ScriptsNoGit()
    ensures !ContainsCI("/Scripts/main.cs", VCS_PATTERNS[0])
  {
    NotContainsCI("/Scripts/main.cs", "/.GIT", 2);
    assert EqCI("/.GIT", VCS_PATTERNS[0]);
  }

  lemma ScriptsNoSvn()
    ensures !ContainsCI("/Scripts/main.cs", VCS_PATTERNS[1])
  {
    NotContainsCI("/Scripts/main.cs", "/.SVN", 3);
    assert EqCI("/.SVN", VCS_PATTERNS[1]);
  }

  /** A pattern found at position `i` excludes the path. */
  lemma MatchesAt(s: string, patterns: seq<string>, k: nat, i: nat)
    requires k < |patterns| && i + |patterns[k]| <= |s| && StartsWithCI(s[i..], patterns[k])
    ensures Excluded(s, patterns)
  {
    assert ContainsCI(s, patterns[k]);
  }

  /** Patterns match as case-insensitive substrings: "/Bar" also keeps out "/Bars" and a
      "bar" folder at any depth, while "/Other" leaves them alone. */
  lemma ExcludeMatchesSubstrings()
    ensures Excluded("/Bars/a.txt", ["/Bar"])
    ensures Excluded("/X/bar/y.txt", ["/Bar"])
    ensures !Excluded("/Bars/a.txt", ["/Other"])
  {
    BarsMatches();
    DeepBarMatches();
    BarsNotOther();
  }

  lemma BarsMatches()
    ensures Excluded("/Bars/a.txt", ["/Bar"])
  {
    MatchesAt("/Bars/a.txt", ["/Bar"], 0, 0);
  }

  lemma DeepBarMatches()
    ensures Excluded("/X/bar/y.txt", ["/Bar"])
  {
    assert StartsWithCI("/X/bar/y.txt"[2..], ["/Bar"][0]);
    MatchesAt("/X/bar/y.txt", ["/Bar"], 0, 2);
  }

  lemma BarsNotOther()
    ensures !Excluded("/Bars/a.txt", ["/Other"])
  {
    NotContainsCI("/Bars/a.txt", "/OTHER", 1);
    assert EqCI("/OTHER", "/Other");
    assert ["/Other"][0] == "/Other";
  }

  /** Ticking is case-sensitive, copying is not: two spellings of one folder can both be
      in the selection, and CopyAssets treats them as one. */
  lemma TickTwoSpellings()
    ensures WithSelected(["Assets/Foo"], "assets/foo", true) == ["Assets/Foo", "assets/foo"]
    ensures SelectedSet(["Assets/Foo", "assets/foo"]) == ["Assets/Foo"]
  {
    NormalizeTwo();
    DistinctTwo();
  }

  lemma DistinctTwo()
    ensures DistinctCI(["Assets/Foo", "assets/foo"]) == ["Assets/Foo"]
  {
    var a, b := "Assets/Foo", "assets/foo";
    SpellingsEqCI();
    assert DistinctCI([a]) == [a] by {
      assert [a][..0] == [];
    }
    assert [a, b][..1] == [a];
    assert InCI([a], b) by { assert EqCI([a][0], b); }
  }

  lemma NormalizeTwo()
    ensures NormalizeAll(["Assets/Foo", "assets/foo"]) == ["Assets/Foo", "assets/foo"]
  {
    UpperFooNormal();
    LowerFooNormal();
    NormalizeAllPair("Assets/Foo", "assets/foo");
  }

  lemma NormalizeAllPair(a: string, b: string)
    requires Normalize(a) == a && Normalize(b) == b
    ensures NormalizeAll([a, b]) == [a, b]
  {
    var r := NormalizeAll([a, b]);
    assert r[0] == a && r[1] == b;
  }

  lemma UpperFooNormal()
    ensures Normalize("Assets/Foo") == "Assets/Foo"
  {
    NormalizedAlready("Assets/Foo");
  }

  lemma LowerFooNormal()
    ensures Normalize("assets/foo") == "assets/foo"
  {
    NormalizedAlready("assets/foo");
  }

  /** A path without backslashes or a trailing separator is left as it is by Normalize. */
  lemma NormalizedAlready(s: string)
    requires '\\' !in s && (s == [] || s[|s| - 1] != '/')
    ensures Normalize(s) == s
  {
    assert SlashForm(s) == s;
  }

  lemma SpellingsEqCI()
    ensures EqCI("Assets/Foo", "assets/foo")
  {
    var a, b := "Assets/Foo", "assets/foo";
    forall i | 0 <= i < |b| ensures Fold(a[i]) == Fold(b[i]) {
      if a[i] != b[i] {
        assert i == 0 || i == 7;
      }
    }
  }

  /** The first two statements of CopyAssets: the template's Assets folder, emptied. */
  method ClearAssets(dest: FileStore, templateDir: string)
    modifies dest
    ensures dest.entries == ClearedAssets(old(dest.entries), templateDir)
  {
    var dstAssets := AssetsDest(templateDir);
    if dest.DirectoryExists(dstAssets) {
      dest.DeleteFileOrDirectory(dstAssets);
    }
    dest.CreateDirectory(dstAssets);
  }

  /** The loop of CopyAssets over the top-level selected folders; it fails at the first
      blank folder, which `Path.GetFullPath` rejects. */
  method CopySelected(dest: FileStore, templateDir: string, project: map<string, Entry>, topSelected: seq<string>,
                      candidates: seq<string>, selected: seq<string>)
    returns (ok: bool)
    requires ValidProject(project)
    modifies dest
    ensures ok <==> NoBlankRoot(topSelected)
    ensures dest.entries == CopyRoots(old(dest.entries), templateDir, project, AttemptedRoots(topSelected), candidates, selected)
  {
    for i := 0 to |topSelected|
      invariant forall k | 0 <= k < i :: !IsBlank(topSelected[k])
      invariant dest.entries == CopyRoots(old(dest.entries), templateDir, project, topSelected[..i], candidates, selected)
    {
      var rel := topSelected[i];
      if IsBlank(rel) {
        AttemptedRootsAt(topSelected, i);
        return false;
      }
      assert topSelected[..i + 1][..i] == topSelected[..i];
      if IsDir(project, rel) {
        var exclude := ExcludesFor(rel, candidates, selected);
        var dstPath := Combine(templateDir, rel);
        dest.CreateDirectory(DirName(dstPath));
        SubTreeValid(project, rel);
        dest.CopyDirectoryFiltered(SubTree(project, rel), dstPath, Some(exclude));
      }
    }
    AttemptedRootsAt(topSelected, |topSelected|);
    assert topSelected[..|topSelected|] == topSelected;
    ok := true;
  }

  /** One more listed folder extends the refreshed selection by that folder, if it qualifies. */
  lemma TopFoldersSnoc(projectRoot: string, dirs: seq<DirTree>, i: nat)
    requires i < |dirs|
    ensures TopFolders(projectRoot, dirs[..i + 1]) ==
            TopFolders(projectRoot, dirs[..i]) +
              (if Hidden(dirs[i].name) || EqCI(dirs[i].name, EDITOR) then []
               else [RelativeFromProject(Combine(AssetsPath(projectRoot), dirs[i].name), projectRoot)])
  {
    assert dirs[..i + 1][..i] == dirs[..i];
  }

  // ---------------------------------------------------------------------------
  // The window
  // ---------------------------------------------------------------------------

  class TemplateBuilderWindow {
    /** Copy the whole Assets folder, or only the selected folders. */
    var copyAllAssets: bool
    /** The folders ticked in the tree, as relative paths, in the order they were ticked. */
    var selectedAssetFolders: seq<string>
    /** Which tree nodes are unfolded, by relative path. */
    var foldout: map<string, bool>

    constructor ()
      ensures copyAllAssets
      ensures selectedAssetFolders == []
      ensures foldout == map[]
    {
      copyAllAssets := true;
      selectedAssetFolders := [];
      foldout := map[];
    }

    /** Ticks or unticks one folder. */
    method SetSelected(relPath: string, on: bool)
      modifies this
      ensures selectedAssetFolders == WithSelected(old(selectedAssetFolders), relPath, on)
      ensures foldout == old(foldout) && copyAllAssets == old(copyAllAssets)
    {
      if on {
        if relPath !in selectedAssetFolders {
          selectedAssetFolders := selectedAssetFolders + [relPath];
        }
      } else {
        selectedAssetFolders := RemoveFirst(selectedAssetFolders, relPath);
      }
    }

    /** Ticks or unticks a folder and everything shown beneath it, node before children. */
    method ToggleWithChildren(node: AssetNode, on: bool)
      modifies this
      ensures selectedAssetFolders == SelectAll(old(selectedAssetFolders), SubtreePaths(node), on)
      ensures foldout == old(foldout) && copyAllAssets == old(copyAllAssets)
      decreases node
    {
      SetSelected(node.relPath, on);
      for i := 0 to |node.children|
        invariant selectedAssetFolders ==
                  SelectAll(old(selectedAssetFolders), [node.relPath] + RelPaths(node.children[..i]), on)
        invariant foldout == old(foldout) && copyAllAssets == old(copyAllAssets)
      {
        ToggleWithChildren(node.children[i], on);
        SelectAllAppend(old(selectedAssetFolders), [node.relPath] + RelPaths(node.children[..i]),
                        SubtreePaths(node.children[i]), on);
        SubtreePathsSnoc(node, i);
      }
      assert node.children[..|node.children|] == node.children;
    }

    /** Whether the node at `key` is unfolded; a node never folded out is folded. */
    function GetFold(key: string): (b: bool)
      reads this
      ensures key !in foldout ==> !b
      ensures key in foldout ==> b == foldout[key]
    {
      if key in foldout then foldout[key] else false
    }

    /** Folds or unfolds a node and every node beneath it. */
    method SetAllFoldout(node: AssetNode, open: bool)
      modifies this
      ensures foldout == FoldAll(old(foldout), SubtreePaths(node), open)
      ensures forall k :: GetFold(k) == if k in SubtreePaths(node) then open else old(GetFold(k))
      ensures selectedAssetFolders == old(selectedAssetFolders) && copyAllAssets == old(copyAllAssets)
      decreases node
    {
      foldout := foldout[node.relPath := open];
      for i := 0 to |node.children|
        invariant foldout == FoldAll(old(foldout), [node.relPath] + RelPaths(node.children[..i]), open)
        invariant selectedAssetFolders == old(selectedAssetFolders) && copyAllAssets == old(copyAllAssets)
      {
        SetAllFoldout(node.children[i], open);
        FoldAllAppend(old(foldout), [node.relPath] + RelPaths(node.children[..i]), SubtreePaths(node.children[i]), open);
        SubtreePathsSnoc(node, i);
      }
      assert node.children[..|node.children|] == node.children;
    }

    /** Replaces the selection by the visible first-level folders of Assets other than Editor. */
    method RefreshAssetFolderCandidates(projectRoot: string, assets: Option<DirTree>)
      modifies this
      ensures selectedAssetFolders == FolderCandidates(projectRoot, assets)
      ensures foldout == old(foldout) && copyAllAssets == old(copyAllAssets)
    {
      selectedAssetFolders := [];
      if assets.None? {
        return;
      }
      var assetsPath := AssetsPath(projectRoot);
      var dirs := assets.value.subdirs;
      for i := 0 to |dirs|
        invariant selectedAssetFolders == TopFolders(projectRoot, dirs[..i])
        invariant foldout == old(foldout) && copyAllAssets == old(copyAllAssets)
      {
        TopFoldersSnoc(projectRoot, dirs, i);
        var name := dirs[i].name;
        if !(Hidden(name) || EqCI(name, EDITOR)) {
          selectedAssetFolders := selectedAssetFolders + [RelativeFromProject(Combine(assetsPath, name), projectRoot)];
        }
      }
      assert dirs[..|dirs|] == dirs;
    }
  
    /**
     * CopyAssets(templateDir): empties the template's Assets folder, then copies
     * either the whole Assets folder or, for each top-level selected folder
     * shallowest first, that folder without its unselected candidate children.
     * Fails (the listing throws) when Assets itself is missing and everything
     * is to be copied, and, when copying the selection, at the first blank
     * top-level folder (`Path.GetFullPath` throws), after copying the ones before it.
     */
    method CopyAssets(templateDir: string, projectRoot: string, project: map<string, Entry>,
                      assets: Option<DirTree>, dest: FileStore)
      returns (ok: bool)
      requires ValidProject(project)
      modifies dest
      ensures copyAllAssets ==> (ok <==> IsDir(project, ASSETS))
      ensures !copyAllAssets ==> (ok <==> NoBlankEntry(selectedAssetFolders))
      ensures dest.entries == CopyAssetsResult(old(dest.entries), templateDir, projectRoot, project, assets,
                                               copyAllAssets, selectedAssetFolders)
    {
      ClearAssets(dest, templateDir);
      if copyAllAssets {
        if !IsDir(project, ASSETS) {
          return false;
        }
        SubTreeValid(project, ASSETS);
        dest.CopyDirectoryFiltered(SubTree(project, ASSETS), AssetsDest(templateDir), Some(VCS_PATTERNS));
        return true;
      }
      var found := GetAssetsRootSubfolders(projectRoot, assets);
      var candidates := NormalizeAll(found);
      var selected := SelectedSet(selectedAssetFolders);
      ok := CopySelected(dest, templateDir, project, TopSelected(selected), candidates, selected);
      BlankTopSelected(selectedAssetFolders);
    }
  }
}
