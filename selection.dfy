/**
 * Selection resolution: which of the selected asset folders become copy
 * roots, and which known-but-unselected candidates are excluded beneath each
 * root.  Two implementations of the "top-level" rule live in the window:
 * CollapseSelections (a greedy loop over depth-sorted paths) and the LINQ
 * filter inside CopyAssets; both are modelled and shown to agree.
 */
module Selection {
  import opened Text
  import opened Paths

  // ---------------------------------------------------------------------------
  // Building blocks of the LINQ pipelines
  // ---------------------------------------------------------------------------

  /** No two entries are equal up to case. */
  predicate NoDupCI(s: seq<string>) {
    forall i, j | 0 <= i < j < |s| :: !EqCI(s[i], s[j])
  }

  /** Shallowest first: the order produced by `OrderBy(s => s.Count(c => c == '/'))`. */
  predicate SortedByDepth(s: seq<string>) {
    forall i, j | 0 <= i < j < |s| :: Depth(s[i]) <= Depth(s[j])
  }

  /** `Where(s => !string.IsNullOrWhiteSpace(s))` */
  function NonBlank(s: seq<string>): (r: seq<string>)
    ensures forall x :: x in r <==> x in s && !IsBlank(x)
  {
    if s == [] then []
    else (if IsBlank(s[0]) then [] else [s[0]]) + NonBlank(s[1..])
  }

  /** `Select(s => s.Replace("\\", "/").TrimEnd('/'))` */
  function NormalizeAll(s: seq<string>): (r: seq<string>)
    ensures |r| == |s| && forall i | 0 <= i < |s| :: r[i] == Normalize(s[i])
  {
    if s == [] then [] else [Normalize(s[0])] + NormalizeAll(s[1..])
  }

  /**
   * `Distinct(StringComparer.OrdinalIgnoreCase)`, and equally the contents of
   * a `HashSet<string>` built with that comparer: the first spelling of each
   * case-insensitive class is kept, in order of first appearance.
   */
  function DistinctCI(s: seq<string>): (r: seq<string>)
    ensures NoDupCI(r)
    ensures forall x | x in r :: x in s
    ensures forall x | x in s :: InCI(r, x)
    decreases |s|
  {
    if s == [] then []
    else
      var init := DistinctCI(s[..|s| - 1]);
      var last := s[|s| - 1];
      assert s == s[..|s| - 1] + [last];
      if InCI(init, last) then
        assert forall x | x in s :: InCI(init, x) by {
          forall x | x in s ensures InCI(init, x) {
            if x != last {
              assert x in s[..|s| - 1];
            }
          }
        }
        init
      else
        var r := init + [last];
        assert forall x | x in s :: InCI(r, x) by {
          forall x | x in s ensures InCI(r, x) {
            if x == last {
              assert EqCI(r[|r| - 1], x);
            } else {
              assert x in s[..|s| - 1];
              var i :| 0 <= i < |init| && EqCI(init[i], x);
              assert EqCI(r[i], x);
            }
          }
        }
        r
  }

  /** A selection already free of case-insensitive duplicates passes through unchanged. */
  lemma {:induction false} DistinctCIFixes(s: seq<string>)
    requires NoDupCI(s)
    ensures DistinctCI(s) == s
    decreases |s|
  {
    if s != [] {
      var init := s[..|s| - 1];
      var last := s[|s| - 1];
      forall i, j | 0 <= i < j < |init| ensures !EqCI(init[i], init[j]) {
        assert init[i] == s[i] && init[j] == s[j];
      }
      DistinctCIFixes(init);
      forall i | 0 <= i < |init| ensures !EqCI(init[i], last) {
        assert init[i] == s[i];
      }
      assert !InCI(DistinctCI(init), last);
      assert DistinctCI(s) == init + [last];
      assert s == init + [last];
    }
  }

  /** Stable insertion of `x` before the first entry that is at least as deep. */
  function InsertByDepth(x: string, s: seq<string>): (r: seq<string>)
    ensures multiset(r) == multiset(s) + multiset{x}
  {
    if s == [] then [x]
    else if Depth(x) <= Depth(s[0]) then [x] + s
    else
      assert s == [s[0]] + s[1..];
      [s[0]] + InsertByDepth(x, s[1..])
  }

  /** The stable `OrderBy` by '/' count. */
  function SortByDepth(s: seq<string>): (r: seq<string>)
    ensures multiset(r) == multiset(s)
  {
    if s == [] then []
    else
      assert s == [s[0]] + s[1..];
      InsertByDepth(s[0], SortByDepth(s[1..]))
  }

  /** Prepending an entry no deeper than any other keeps a list shallowest-first. */
  lemma SortedByDepthCons(a: string, t: seq<string>)
    requires SortedByDepth(t)
    requires forall k | 0 <= k < |t| :: Depth(a) <= Depth(t[k])
    ensures SortedByDepth([a] + t)
  {
    var r := [a] + t;
    forall i, j | 0 <= i < j < |r| ensures Depth(r[i]) <= Depth(r[j]) {
      assert r[j] == t[j - 1];
      if i > 0 {
        assert r[i] == t[i - 1];
      }
    }
  }

  /** A lower bound on depth shared by `x` and all of `s` holds for all of the insertion. */
  lemma {:induction false} InsertByDepthBound(x: string, s: seq<string>, d: nat)
    requires d <= Depth(x) && forall k | 0 <= k < |s| :: d <= Depth(s[k])
    ensures forall k | 0 <= k < |InsertByDepth(x, s)| :: d <= Depth(InsertByDepth(x, s)[k])
  {
    if s != [] && Depth(x) > Depth(s[0]) {
      InsertByDepthBound(x, s[1..], d);
      var t := InsertByDepth(x, s[1..]);
      assert InsertByDepth(x, s) == [s[0]] + t;
      forall k | 0 <= k < |[s[0]] + t| ensures d <= Depth(([s[0]] + t)[k]) {
        if k > 0 {
          assert ([s[0]] + t)[k] == t[k - 1];
        }
      }
    } else if s != [] {
      forall k | 0 <= k < |[x] + s| ensures d <= Depth(([x] + s)[k]) {
        if k > 0 {
          assert ([x] + s)[k] == s[k - 1];
        }
      }
    }
  }

  lemma {:induction false} InsertByDepthSorted(x: string, s: seq<string>)
    requires SortedByDepth(s)
    ensures SortedByDepth(InsertByDepth(x, s))
  {
    if s == [] {
    } else if Depth(x) <= Depth(s[0]) {
      SortedByDepthCons(x, s);
    } else {
      var t := InsertByDepth(x, s[1..]);
      assert SortedByDepth(s[1..]);
      InsertByDepthSorted(x, s[1..]);
      InsertByDepthBound(x, s[1..], Depth(s[0]));
      SortedByDepthCons(s[0], t);
    }
  }

  lemma {:induction false} SortByDepthSorted(s: seq<string>)
    ensures SortedByDepth(SortByDepth(s))
  {
    if s != [] {
      SortByDepthSorted(s[1..]);
      InsertByDepthSorted(s[0], SortByDepth(s[1..]));
    }
  }

  /** Sorting an already shallowest-first list changes nothing (the sort is stable). */
  lemma {:induction false} SortByDepthFixes(s: seq<string>)
    requires SortedByDepth(s)
    ensures SortByDepth(s) == s
  {
    if s != [] {
      SortByDepthFixes(s[1..]);
      if |s| > 1 {
        assert Depth(s[0]) <= Depth(s[1]);
      }
      assert [s[0]] + s[1..] == s;
    }
  }

  lemma {:induction false} InsertByDepthNoDup(x: string, s: seq<string>)
    requires NoDupCI(s) && !InCI(s, x)
    ensures NoDupCI(InsertByDepth(x, s))
  {
    if s != [] {
      NotInCIApart(s, x);
      if Depth(x) <= Depth(s[0]) {
        NoDupCICons(x, s);
      } else {
        var t := InsertByDepth(x, s[1..]);
        NoDupCITail(s);
        assert !InCI(s[1..], x) by {
          forall k | 0 <= k < |s[1..]| ensures !EqCI(s[1..][k], x) {
            assert s[1..][k] == s[k + 1];
          }
        }
        InsertByDepthNoDup(x, s[1..]);
        forall e | e in t ensures !EqCI(s[0], e) {
          assert e in multiset(t);
          if e != x {
            assert e in s[1..];
            var k :| 0 <= k < |s[1..]| && s[1..][k] == e;
            assert s[k + 1] == e;
          }
        }
        NoDupCICons(s[0], t);
      }
    }
  }

  /** A list without `x` (up to case) holds no entry that `x` equals up to case. */
  lemma NotInCIApart(s: seq<string>, x: string)
    requires !InCI(s, x)
    ensures forall e | e in s :: !EqCI(x, e)
  {
    forall e | e in s ensures !EqCI(x, e) {
      var k :| 0 <= k < |s| && s[k] == e;
      assert !EqCI(s[k], x);
    }
  }

  lemma NoDupCITail(s: seq<string>)
    requires NoDupCI(s) && s != []
    ensures NoDupCI(s[1..])
  {
    forall i, j | 0 <= i < j < |s| - 1 ensures !EqCI(s[1..][i], s[1..][j]) {
      assert s[1..][i] == s[i + 1] && s[1..][j] == s[j + 1];
    }
  }

  lemma NoDupCICons(a: string, t: seq<string>)
    requires NoDupCI(t) && forall e | e in t :: !EqCI(a, e)
    ensures NoDupCI([a] + t)
  {
    var r := [a] + t;
    forall i, j | 0 <= i < j < |r| ensures !EqCI(r[i], r[j]) {
      assert r[j] == t[j - 1];
      if i > 0 {
        assert r[i] == t[i - 1];
      }
    }
  }

  lemma {:induction false} SortByDepthNoDup(s: seq<string>)
    requires NoDupCI(s)
    ensures NoDupCI(SortByDepth(s))
  {
    if s != [] {
      var t := SortByDepth(s[1..]);
      SortByDepthNoDup(s[1..]);
      assert !InCI(t, s[0]) by {
        forall k | 0 <= k < |t| ensures !EqCI(t[k], s[0]) {
          assert t[k] in multiset(s[1..]);
          var m :| 0 <= m < |s[1..]| && s[1..][m] == t[k];
          assert !EqCI(s[0], s[m + 1]);
          if EqCI(t[k], s[0]) {
            EqCISymm(t[k], s[0]);
          }
        }
      }
      InsertByDepthNoDup(s[0], t);
    }
  }

  // ---------------------------------------------------------------------------
  // The top-level rule
  // ---------------------------------------------------------------------------

  /** No entry of `all` is a proper '/'-ancestor of `x`. */
  predicate IsTop(x: string, all: seq<string>) {
    forall y | y in all :: !IsUnder(x, y)
  }

  /** `Where(s => !all.Any(o => s lies under o))`, keeping the order of `s`. */
  function KeepTop(s: seq<string>, all: seq<string>): (r: seq<string>)
    ensures forall x :: x in r <==> x in s && IsTop(x, all)
  {
    if s == [] then []
    else
      assert s == s[..|s| - 1] + [s[|s| - 1]];
      KeepTop(s[..|s| - 1], all) + (if IsTop(s[|s| - 1], all) then [s[|s| - 1]] else [])
  }

  lemma {:induction false} KeepTopSorted(s: seq<string>, all: seq<string>)
    requires SortedByDepth(s)
    ensures SortedByDepth(KeepTop(s, all))
  {
    if s != [] {
      var init := s[..|s| - 1];
      var last := s[|s| - 1];
      KeepTopSorted(init, all);
      var t := KeepTop(init, all);
      if IsTop(last, all) {
        var r := t + [last];
        forall i, j | 0 <= i < j < |r| ensures Depth(r[i]) <= Depth(r[j]) {
          if j == |r| - 1 {
            assert r[i] == t[i] && t[i] in init;
            var k :| 0 <= k < |init| && init[k] == t[i];
            assert s[k] == t[i];
          } else {
            assert r[i] == t[i] && r[j] == t[j];
          }
        }
      }
    }
  }

  lemma {:induction false} KeepTopNoDup(s: seq<string>, all: seq<string>)
    requires NoDupCI(s)
    ensures NoDupCI(KeepTop(s, all))
  {
    if s != [] {
      var init := s[..|s| - 1];
      var last := s[|s| - 1];
      KeepTopNoDup(init, all);
      var t := KeepTop(init, all);
      if IsTop(last, all) {
        var r := t + [last];
        forall i, j | 0 <= i < j < |r| ensures !EqCI(r[i], r[j]) {
          if j == |r| - 1 {
            assert r[i] == t[i] && t[i] in init;
            var k :| 0 <= k < |init| && init[k] == t[i];
            assert s[k] == t[i];
          } else {
            assert r[i] == t[i] && r[j] == t[j];
          }
        }
      }
    }
  }

  /** When nothing in `s` lies under an entry of `all`, the filter keeps everything. */
  lemma {:induction false} KeepTopFixes(s: seq<string>, all: seq<string>)
    requires forall x | x in s :: IsTop(x, all)
    ensures KeepTop(s, all) == s
  {
    if s != [] {
      KeepTopFixes(s[..|s| - 1], all);
      assert s == s[..|s| - 1] + [s[|s| - 1]];
    }
  }

  /** Every entry is an entry of `all` or lies under one that has no ancestor in `all`. */
  lemma {:induction false} TopAncestor(all: seq<string>, y: string) returns (z: string)
    requires y in all
    ensures z in all && IsTop(z, all) && (z == y || IsUnder(y, z))
    decreases Depth(y)
  {
    if IsTop(y, all) {
      z := y;
    } else {
      var w :| w in all && IsUnder(y, w);
      IsUnderDepth(y, w);
      z := TopAncestor(all, w);
      if z != w {
        IsUnderTrans(y, w, z);
      }
    }
  }

  // ---------------------------------------------------------------------------
  // CollapseSelections
  // ---------------------------------------------------------------------------

  /** The list `norm` that CollapseSelections iterates over. */
  function PrepareSelections(rels: seq<string>): seq<string> {
    SortByDepth(DistinctCI(NormalizeAll(NonBlank(rels))))
  }

  /** What CollapseSelections returns: the entries of `norm` with no ancestor in `norm`. */
  function Collapsed(rels: seq<string>): seq<string> {
    var norm := PrepareSelections(rels);
    KeepTop(norm, norm)
  }

  /** In a shallowest-first list, an entry has an ancestor among all entries iff it has
      one among the top-level entries met before it: the greedy test of the loop. */
  lemma GreedyStep(norm: seq<string>, i: nat)
    requires SortedByDepth(norm) && i < |norm|
    ensures (exists parent | parent in KeepTop(norm[..i], norm) :: IsUnder(norm[i], parent))
            <==> !IsTop(norm[i], norm)
  {
    var p := norm[i];
    if !IsTop(p, norm) {
      var y :| y in norm && IsUnder(p, y);
      var z := TopAncestor(norm, y);
      if z != y {
        IsUnderTrans(p, y, z);
      }
      IsUnderDepth(p, z);
      var k :| 0 <= k < |norm| && norm[k] == z;
      assert k < i;
      assert z in norm[..i];
      assert z in KeepTop(norm[..i], norm);
    }
  }

  /** Sorting by depth neither adds nor drops an entry. */
  lemma SortByDepthSameElements(s: seq<string>)
    ensures forall x :: x in SortByDepth(s) <==> x in s
  {
    forall x ensures x in SortByDepth(s) <==> x in s {
      assert x in SortByDepth(s) <==> x in multiset(SortByDepth(s));
      assert x in s <==> x in multiset(s);
    }
  }

  /** The list CollapseSelections walks is duplicate-free, shallowest-first, and holds
      exactly the distinct normalised non-blank inputs. */
  lemma PreparedFacts(rels: seq<string>)
    ensures NoDupCI(PrepareSelections(rels))
    ensures SortedByDepth(PrepareSelections(rels))
    ensures forall x :: x in PrepareSelections(rels) <==> x in DistinctCI(NormalizeAll(NonBlank(rels)))
  {
    var distinct := DistinctCI(NormalizeAll(NonBlank(rels)));
    SortByDepthNoDup(distinct);
    SortByDepthSorted(distinct);
    SortByDepthSameElements(distinct);
  }

  /** Collapsed paths are duplicate-free, shallowest-first, and none lies under another. */
  lemma CollapsedShape(rels: seq<string>)
    ensures NoDupCI(Collapsed(rels))
    ensures SortedByDepth(Collapsed(rels))
    ensures forall x, y | x in Collapsed(rels) && y in Collapsed(rels) :: !IsUnder(x, y)
  {
    var norm := PrepareSelections(rels);
    PreparedFacts(rels);
    KeepTopNoDup(norm, norm);
    KeepTopSorted(norm, norm);
  }

  /** Every non-blank input equals, or lies under, some collapsed path (up to case). */
  lemma CollapsedCovers(rels: seq<string>, s: string)
    requires s in rels && !IsBlank(s)
    ensures exists t | t in Collapsed(rels) :: EqCI(Normalize(s), t) || IsUnder(Normalize(s), t)
  {
    var norm := PrepareSelections(rels);
    var n := Normalize(s);
    PreparedFacts(rels);
    var d := PreparedRepresentative(rels, s);
    var z := TopAncestor(norm, d);
    assert z in KeepTop(norm, norm);
    EqCISymm(d, n);
    if z == d {
      assert EqCI(n, z);
    } else {
      EqCIRefl(z);
      IsUnderRespectsEqCI(d, n, z, z);
      assert IsUnder(n, z);
    }
  }

  /** Every non-blank input has a representative, equal up to case to its normal form,
      in the list that CollapseSelections iterates over. */
  lemma PreparedRepresentative(rels: seq<string>, s: string) returns (d: string)
    requires s in rels && !IsBlank(s)
    ensures d in PrepareSelections(rels) && EqCI(d, Normalize(s))
  {
    var nb := NonBlank(rels);
    assert s in nb;
    var k :| 0 <= k < |nb| && nb[k] == s;
    var normalized := NormalizeAll(nb);
    assert normalized[k] == Normalize(s);
    assert Normalize(s) in normalized;
    var distinct := DistinctCI(normalized);
    assert InCI(distinct, Normalize(s));
    var j :| 0 <= j < |distinct| && EqCI(distinct[j], Normalize(s));
    assert distinct[j] in distinct;
    PreparedFacts(rels);
    d := distinct[j];
  }

  /** Every collapsed path is the normal form of some non-blank input. */
  lemma CollapsedFromInputs(rels: seq<string>, t: string) returns (s: string)
    requires t in Collapsed(rels)
    ensures s in rels && !IsBlank(s) && Normalize(s) == t
  {
    var nb := NonBlank(rels);
    var normalized := NormalizeAll(nb);
    PreparedFacts(rels);
    assert t in normalized;
    var k :| 0 <= k < |normalized| && normalized[k] == t;
    assert nb[k] in nb;
    s := nb[k];
  }

  /** The properties CollapseSelections promises its callers. */
  lemma CollapsedProperties(rels: seq<string>)
    ensures NoDupCI(Collapsed(rels))
    ensures SortedByDepth(Collapsed(rels))
    ensures forall x, y | x in Collapsed(rels) && y in Collapsed(rels) :: !IsUnder(x, y)
    ensures forall s | s in rels && !IsBlank(s) ::
              exists t | t in Collapsed(rels) :: EqCI(Normalize(s), t) || IsUnder(Normalize(s), t)
    ensures forall t | t in Collapsed(rels) ::
              exists s | s in rels :: !IsBlank(s) && Normalize(s) == t
  {
    CollapsedShape(rels);
    forall s | s in rels && !IsBlank(s)
      ensures exists t | t in Collapsed(rels) :: EqCI(Normalize(s), t) || IsUnder(Normalize(s), t)
    {
      CollapsedCovers(rels, s);
    }
    forall t | t in Collapsed(rels) ensures exists s | s in rels :: !IsBlank(s) && Normalize(s) == t {
      var s := CollapsedFromInputs(rels, t);
    }
  }

  /**
   * `CollapseSelections(rels)`: normalise, drop blanks and case-insensitive
   * duplicates, order shallowest-first, then keep each path that does not lie
   * under a path already kept.
   */
  method CollapseSelections(rels: seq<string>) returns (result: seq<string>)
    ensures result == Collapsed(rels)
    ensures NoDupCI(result)
    ensures SortedByDepth(result)
    ensures forall x, y | x in result && y in result :: !IsUnder(x, y)
    ensures forall s | s in rels && !IsBlank(s) ::
              exists t | t in result :: EqCI(Normalize(s), t) || IsUnder(Normalize(s), t)
    ensures forall t | t in result :: exists s | s in rels :: !IsBlank(s) && Normalize(s) == t
  {
    PreparedFacts(rels);
    result := KeepTopGreedy(PrepareSelections(rels));
    CollapsedProperties(rels);
  }

  /** The loop of CollapseSelections: keep each path that does not lie under a path
      already kept. */
  method KeepTopGreedy(norm: seq<string>) returns (result: seq<string>)
    requires SortedByDepth(norm)
    ensures result == KeepTop(norm, norm)
  {
    result := [];
    for i := 0 to |norm|
      invariant result == KeepTop(norm[..i], norm)
    {
      var p := norm[i];
      var isChildOfExisting := HasAncestorIn(p, result);
      GreedyLoopStep(norm, i, result, isChildOfExisting);
      if !isChildOfExisting {
        result := result + [p];
      }
    }
    assert norm[..|norm|] == norm;
  }

  lemma GreedyLoopStep(norm: seq<string>, i: nat, kept: seq<string>, isChild: bool)
    requires SortedByDepth(norm) && i < |norm|
    requires kept == KeepTop(norm[..i], norm)
    requires isChild == HasAncestorIn(norm[i], kept)
    ensures (if isChild then kept else kept + [norm[i]]) == KeepTop(norm[..i + 1], norm)
  {
    GreedyStep(norm, i);
    KeepTopSnoc(norm, i, norm);
  }

  /** `result.Any(parent => IsUnder(p, parent))` */
  predicate HasAncestorIn(p: string, kept: seq<string>) {
    exists parent | parent in kept :: IsUnder(p, parent)
  }

  /** One more entry of `s` extends the filter's output by that entry when it is top-level. */
  lemma KeepTopSnoc(s: seq<string>, i: nat, all: seq<string>)
    requires i < |s|
    ensures KeepTop(s[..i + 1], all) == KeepTop(s[..i], all) + (if IsTop(s[i], all) then [s[i]] else [])
  {
    assert s[..i + 1][..i] == s[..i];
  }

  /** Collapsing twice is collapsing once, unless some input normalises to a blank path
      (such as "/", which becomes "" and is dropped on the second pass). */
  lemma CollapsedIdempotent(rels: seq<string>)
    requires forall s | s in rels && !IsBlank(s) :: !IsBlank(Normalize(s))
    ensures Collapsed(Collapsed(rels)) == Collapsed(rels)
  {
    var c := Collapsed(rels);
    CollapsedShape(rels);
    forall t | t in c ensures !IsBlank(t) && IsNormal(t) {
      CollapsedEntryShape(rels, t);
    }
    CollapsedFixes(c);
  }

  lemma CollapsedEntryShape(rels: seq<string>, t: string)
    requires forall s | s in rels && !IsBlank(s) :: !IsBlank(Normalize(s))
    requires t in Collapsed(rels)
    ensures !IsBlank(t) && IsNormal(t)
  {
    var s := CollapsedFromInputs(rels, t);
    NormalizeIsNormal(s);
  }

  /** Collapsing a list that is already normal, non-blank, distinct, shallowest first and
      free of nested paths leaves it as it is. */
  lemma CollapsedFixes(c: seq<string>)
    requires forall t | t in c :: !IsBlank(t) && IsNormal(t)
    requires NoDupCI(c) && SortedByDepth(c)
    requires forall x, y | x in c && y in c :: !IsUnder(x, y)
    ensures Collapsed(c) == c
  {
    NonBlankFixes(c);
    NormalizeAllFixes(c);
    DistinctCIFixes(c);
    SortByDepthFixes(c);
    assert PrepareSelections(c) == c;
    KeepTopFixes(c, c);
  }

  lemma {:induction false} NonBlankFixes(s: seq<string>)
    requires forall x | x in s :: !IsBlank(x)
    ensures NonBlank(s) == s
  {
    if s != [] {
      NonBlankFixes(s[1..]);
      assert [s[0]] + s[1..] == s;
    }
  }

  lemma NormalizeAllFixes(s: seq<string>)
    requires forall x | x in s :: IsNormal(x)
    ensures NormalizeAll(s) == s
  {
    forall i | 0 <= i < |s| ensures NormalizeAll(s)[i] == s[i] {
      NormalizeFixesNormal(s[i]);
    }
  }

  // ---------------------------------------------------------------------------
  // The inline rule of CopyAssets
  // ---------------------------------------------------------------------------

  /** The `selected` set of CopyAssets: normalised selections, case-insensitively distinct. */
  function SelectedSet(selectedAssetFolders: seq<string>): seq<string> {
    DistinctCI(NormalizeAll(selectedAssetFolders))
  }

  /**
   * `topSelected`: the selected paths with no selected proper ancestor,
   * ordered shallowest-first.
   */
  function TopSelected(selected: seq<string>): (r: seq<string>)
    ensures forall x :: x in r <==> x in selected && IsTop(x, selected)
    ensures SortedByDepth(r)
  {
    var top := KeepTop(selected, selected);
    SortByDepthSorted(top);
    SortByDepthSameElements(top);
    SortByDepth(top)
  }

  /** On non-blank inputs the window's two top-level rules pick the same paths. */
  lemma TopSelectedAgreesWithCollapse(rels: seq<string>)
    requires forall s | s in rels :: !IsBlank(s)
    ensures forall x :: x in Collapsed(rels) <==> x in TopSelected(SelectedSet(rels))
  {
    NonBlankFixes(rels);
    var d := SelectedSet(rels);
    var norm := SortByDepth(d);
    SortByDepthSameElements(d);
    forall x ensures IsTop(x, norm) <==> IsTop(x, d) {
    }
  }

  // ---------------------------------------------------------------------------
  // Per-root exclude lists
  // ---------------------------------------------------------------------------

  /** Version-control directories, excluded from every copy. */
  const VCS_PATTERNS: seq<string> := ["/.git", "/.svn"]

  /** The exclude entry for a candidate under `rel`: the candidate with the root cut off. */
  function ChildPattern(rel: string, child: string): string
    requires |rel| <= |child|
  {
    SlashForm(child[|rel|..])
  }

  /** The candidate-derived part of the exclude list for copy root `rel`, in candidate order. */
  function ChildExcludes(rel: string, candidates: seq<string>, selected: seq<string>): seq<string>
  {
    if candidates == [] then []
    else
      var child := candidates[|candidates| - 1];
      ChildExcludes(rel, candidates[..|candidates| - 1], selected) +
        (if IsUnder(child, rel) && !InCI(selected, child) && ChildPattern(rel, child) != []
         then [ChildPattern(rel, child)] else [])
  }

  /** The entries of ChildExcludes are exactly the patterns of unselected candidates under `rel`,
      and each is a non-empty path beginning with '/'. */
  lemma ChildExcludesMembers(rel: string, candidates: seq<string>, selected: seq<string>)
    ensures forall p :: p in ChildExcludes(rel, candidates, selected) <==>
              exists c | c in candidates :: IsUnder(c, rel) && !InCI(selected, c) && p == ChildPattern(rel, c)
    ensures forall p | p in ChildExcludes(rel, candidates, selected) :: |p| > 0 && p[0] == '/'
  {
    forall p | p in ChildExcludes(rel, candidates, selected)
      ensures (exists c | c in candidates :: IsUnder(c, rel) && !InCI(selected, c) && p == ChildPattern(rel, c))
      ensures |p| > 0 && p[0] == '/'
    {
      var c := ChildExcludesSound(rel, candidates, selected, p);
    }
    forall c | c in candidates && IsUnder(c, rel) && !InCI(selected, c)
      ensures ChildPattern(rel, c) in ChildExcludes(rel, candidates, selected)
    {
      ChildExcludesComplete(rel, candidates, selected, c);
    }
  }

  /** Every entry of ChildExcludes comes from an unselected candidate under `rel`. */
  lemma {:induction false} ChildExcludesSound(rel: string, candidates: seq<string>, selected: seq<string>, p: string)
    returns (c: string)
    requires p in ChildExcludes(rel, candidates, selected)
    ensures c in candidates && IsUnder(c, rel) && !InCI(selected, c) && p == ChildPattern(rel, c)
    ensures |p| > 0 && p[0] == '/'
  {
    assert candidates != [];
    var init := candidates[..|candidates| - 1];
    var child := candidates[|candidates| - 1];
    assert candidates == init + [child];
    if p in ChildExcludes(rel, init, selected) {
      c := ChildExcludesSound(rel, init, selected, p);
    } else {
      c := child;
      ChildPatternSlash(rel, child);
    }
  }

  /** Every unselected candidate under `rel` contributes its pattern to ChildExcludes. */
  lemma {:induction false} ChildExcludesComplete(rel: string, candidates: seq<string>, selected: seq<string>, c: string)
    requires c in candidates && IsUnder(c, rel) && !InCI(selected, c)
    ensures ChildPattern(rel, c) in ChildExcludes(rel, candidates, selected)
  {
    var init := candidates[..|candidates| - 1];
    var child := candidates[|candidates| - 1];
    assert candidates == init + [child];
    ChildPatternSlash(rel, c);
    if c != child {
      assert c in init;
      ChildExcludesComplete(rel, init, selected, c);
    }
  }

  /** The pattern of a path strictly under `rel` begins with the separator after `rel`. */
  lemma ChildPatternSlash(rel: string, child: string)
    requires IsUnder(child, rel)
    ensures |ChildPattern(rel, child)| > 0 && ChildPattern(rel, child)[0] == '/'
  {
    assert Fold(child[|rel|]) == Fold((rel + "/")[|rel|]);
  }

  /**
   * The exclude list CopyAssets hands to CopyDirectoryFiltered for copy root
   * `rel`: the version-control patterns, then, for each candidate strictly
   * under `rel` that is not selected, that candidate with `rel` cut off.
   */
  method ExcludesFor(rel: string, candidates: seq<string>, selected: seq<string>)
    returns (exclude: seq<string>)
    ensures exclude == VCS_PATTERNS + ChildExcludes(rel, candidates, selected)
    ensures exclude[..2] == VCS_PATTERNS
    ensures forall p :: p in exclude[2..] <==>
              exists c | c in candidates :: IsUnder(c, rel) && !InCI(selected, c) && p == ChildPattern(rel, c)
    ensures forall p | p in exclude[2..] :: |p| > 0 && p[0] == '/'
  {
    exclude := VCS_PATTERNS;
    for i := 0 to |candidates|
      invariant exclude == VCS_PATTERNS + ChildExcludes(rel, candidates[..i], selected)
    {
      var child := candidates[i];
      assert candidates[..i + 1][..i] == candidates[..i];
      if |child| > |rel| && StartsWithCI(child, rel + "/") {
        if !InCI(selected, child) {
          var relInParent := SlashForm(child[|rel|..]);
          if relInParent != [] {
            exclude := exclude + [relInParent];
          }
        }
      }
    }
    assert candidates[..|candidates|] == candidates;
    ChildExcludesMembers(rel, candidates, selected);
    assert exclude[2..] == ChildExcludes(rel, candidates, selected);
  }

  /** Every unselected candidate under the root is excluded from that root's copy. */
  lemma ExcludeComplete(rel: string, candidates: seq<string>, selected: seq<string>, c: string)
    requires c in candidates && IsUnder(c, rel) && !InCI(selected, c)
    ensures Excluded(ChildPattern(rel, c), VCS_PATTERNS + ChildExcludes(rel, candidates, selected))
  {
    var ce := ChildExcludes(rel, candidates, selected);
    var p := ChildPattern(rel, c);
    ChildExcludesComplete(rel, candidates, selected, c);
    var k :| 0 <= k < |ce| && ce[k] == p;
    var ex := VCS_PATTERNS + ce;
    assert ex[k + 2] == p;
    ContainsCISelf(p);
    assert ContainsCI(p, ex[k + 2]);
  }

  /** Two paths under the same root match up to case iff their root-relative parts do. */
  lemma ChildPatternEqCI(rel: string, a: string, b: string)
    requires IsUnder(a, rel) && IsUnder(b, rel) && '\\' !in a && '\\' !in b
    ensures EqCI(ChildPattern(rel, a), ChildPattern(rel, b)) <==> EqCI(a, b)
  {
    var pa := ChildPattern(rel, a);
    var pb := ChildPattern(rel, b);
    assert pa == a[|rel|..] && pb == b[|rel|..];
    if EqCI(pa, pb) {
      forall i | 0 <= i < |b| ensures Fold(a[i]) == Fold(b[i]) {
        if i < |rel| {
          assert Fold(a[i]) == Fold((rel + "/")[i]) == Fold(b[i]);
        } else {
          assert a[i] == pa[i - |rel|] && b[i] == pb[i - |rel|];
        }
      }
    }
    if EqCI(a, b) {
      forall i | 0 <= i < |pb| ensures Fold(pa[i]) == Fold(pb[i]) {
        assert pa[i] == a[i + |rel|] && pb[i] == b[i + |rel|];
      }
    }
  }

  /** Case-insensitive equality to a common string. */
  lemma EqCIThird(x: string, a: string, b: string)
    requires EqCI(x, a)
    ensures EqCI(x, b) <==> EqCI(b, a)
  {
  }

  /** A selected candidate under the root never contributes its own path as a pattern,
      nor does any candidate that differs from it only in case. */
  lemma SelectedHasNoOwnPattern(rel: string, candidates: seq<string>, selected: seq<string>, c: string)
    requires IsUnder(c, rel) && InCI(selected, c) && '\\' !in c
    requires forall x | x in candidates :: '\\' !in x
    ensures forall p | p in ChildExcludes(rel, candidates, selected) :: !EqCI(p, ChildPattern(rel, c))
  {
    var k :| 0 <= k < |selected| && EqCI(selected[k], c);
    forall p | p in ChildExcludes(rel, candidates, selected) ensures !EqCI(p, ChildPattern(rel, c)) {
      var c' := ChildExcludesSound(rel, candidates, selected, p);
      assert !EqCI(selected[k], c');
      EqCIThird(selected[k], c, c');
      ChildPatternEqCI(rel, c', c);
    }
  }
}
