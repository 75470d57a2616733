/**
 * Path helpers of the template builder window: slash normalisation, the
 * case-insensitive ancestor relation between relative paths, and the small
 * string utilities RelativeFromProject, SanitizeFolderName and EscapeJson.
 *
 * Paths are '/'-separated strings; `Path.GetFullPath`, `Path.Combine` and the
 * platform's invalid-file-name characters are inputs, not computed here.
 */
module Paths {
  import opened Text
  import opened Wrappers

  // ---------------------------------------------------------------------------
  // Canonical form and the ancestor relation
  // ---------------------------------------------------------------------------

  /** `s.Replace("\\", "/").TrimEnd('/')`, applied to every selection and candidate. */
  function Normalize(s: string): (r: string)
    ensures '\\' !in r
    ensures r == [] || r[|r| - 1] != '/'
  {
    TrimEndSlash(SlashForm(s))
  }

  /** A path already in canonical form. */
  predicate IsNormal(s: string) {
    '\\' !in s && (s == [] || s[|s| - 1] != '/')
  }

  lemma NormalizeIsNormal(s: string)
    ensures IsNormal(Normalize(s))
  {
  }

  lemma NormalizeIdempotent(s: string)
    ensures Normalize(Normalize(s)) == Normalize(s)
  {
    NormalizeFixesNormal(Normalize(s));
  }

  /** Canonical paths are left unchanged by `Normalize`. */
  lemma NormalizeFixesNormal(s: string)
    requires IsNormal(s)
    ensures Normalize(s) == s
  {
    assert SlashForm(s) == s;
  }

  /** The '/' count used to order selections shallowest-first. */
  function Depth(s: string): nat {
    CountChar(s, '/')
  }

  /** `p.Length > o.Length && p.StartsWith(o + "/", StringComparison.OrdinalIgnoreCase)`:
      `p` lies strictly below `o`. */
  predicate IsUnder(p: string, o: string) {
    |o| < |p| && StartsWithCI(p, o + "/")
  }

  lemma IsUnderIrreflexive(p: string)
    ensures !IsUnder(p, p)
  {
  }

  lemma IsUnderTrans(p: string, o: string, q: string)
    requires IsUnder(p, o) && IsUnder(o, q)
    ensures IsUnder(p, q)
  {
    forall i | 0 <= i < |q| + 1
      ensures Fold(p[i]) == Fold((q + "/")[i])
    {
      assert Fold(p[i]) == Fold((o + "/")[i]);
      assert (o + "/")[i] == o[i];
      assert Fold(o[i]) == Fold((q + "/")[i]);
    }
  }

  /** An ancestor has strictly fewer separators than its descendant. */
  lemma IsUnderDepth(p: string, o: string)
    requires IsUnder(p, o)
    ensures Depth(o) < Depth(p)
  {
    var k := |o| + 1;
    assert p == p[..k] + p[k..];
    CountAppend(p[..k], p[k..], '/');
    CountSlashFold(p[..k], o + "/");
    CountAppend(o, "/", '/');
    assert CountChar("/", '/') == 1;
  }

  /** The relation only looks at paths up to case. */
  lemma IsUnderRespectsEqCI(p: string, p': string, o: string, o': string)
    requires IsUnder(p, o) && EqCI(p, p') && EqCI(o, o')
    ensures IsUnder(p', o')
  {
    forall i | 0 <= i < |o'| + 1
      ensures Fold(p'[i]) == Fold((o' + "/")[i])
    {
      assert Fold(p'[i]) == Fold(p[i]);
      assert Fold(p[i]) == Fold((o + "/")[i]);
      if i < |o'| {
        assert Fold(o[i]) == Fold(o'[i]);
      }
    }
  }

  /** Paths one equal and one strictly below the other cannot be equal up to case. */
  lemma IsUnderNotEqCI(p: string, o: string)
    requires IsUnder(p, o)
    ensures !EqCI(p, o)
  {
  }

  // ---------------------------------------------------------------------------
  // Exclusion by pattern
  // ---------------------------------------------------------------------------

  /** `patterns.Any(p => rel.IndexOf(p, StringComparison.OrdinalIgnoreCase) >= 0)` */
  predicate Excluded(rel: string, patterns: seq<string>) {
    exists k | 0 <= k < |patterns| :: ContainsCI(rel, patterns[k])
  }

  /** Whatever excludes a directory excludes every path beneath it. */
  lemma ExcludedExtends(dir: string, rest: string, patterns: seq<string>)
    requires Excluded(dir, patterns)
    ensures Excluded(dir + rest, patterns)
  {
    var k :| 0 <= k < |patterns| && ContainsCI(dir, patterns[k]);
    ContainsCIExtend(dir, rest, patterns[k]);
  }

  /** An empty pattern occurs in every path, so it excludes everything. */
  lemma EmptyPatternExcludesAll(rel: string, patterns: seq<string>, k: nat)
    requires k < |patterns| && patterns[k] == []
    ensures Excluded(rel, patterns)
  {
    assert StartsWithCI(rel[0..], patterns[k]);
  }

  // ---------------------------------------------------------------------------
  // Path composition
  // ---------------------------------------------------------------------------

  /** `Path.Combine(a, b)` with '/' as the separator and `b` relative. */
  function Combine(a: string, b: string): string {
    a + "/" + b
  }

  /** `Path.GetDirectoryName(p)`: everything before the last separator ("" when there is none). */
  function DirName(p: string): (r: string)
    ensures |r| < |p| || (r == [] && p == [])
    ensures '/' in p ==> p == r + "/" + p[|r| + 1..] && '/' !in p[|r| + 1..]
    ensures '/' !in p ==> r == []
  {
    if p == [] then []
    else if p[|p| - 1] == '/' then
      assert p == p[..|p| - 1] + "/" + p[|p|..];
      p[..|p| - 1]
    else
      var q := p[..|p| - 1];
      var c := p[|p| - 1];
      assert p == q + [c];
      var r := DirName(q);
      if '/' in q then
        var name := q[|r| + 1..];
        assert p == r + "/" + (name + [c]);
        assert p[|r| + 1..] == name + [c];
        NoSlashSnoc(name, c);
        r
      else
        NoSlashSnoc(q, c);
        r
  }

  lemma {:induction false} NoSlashSnoc(q: string, c: char)
    requires '/' !in q && c != '/'
    ensures '/' !in q + [c]
  {
    forall i | 0 <= i < |q| + 1 ensures (q + [c])[i] != '/' {
      if i < |q| {
        assert (q + [c])[i] == q[i];
      }
    }
  }

  // ---------------------------------------------------------------------------
  // RelativeFromProject
  // ---------------------------------------------------------------------------

  /**
   * `RelativeFromProject(fullPath)`, with the project root and the
   * fully-qualified path passed in: both are put in '/' form and, when the
   * path begins with the root up to case, the root and the separators after
   * it are cut away.
   */
  function RelativeFromProject(fullPath: string, projectRoot: string): (r: string)
    ensures '\\' !in r
  {
    var rel := SlashForm(fullPath);
    var r := RelativeTail(rel, SlashForm(projectRoot));
    SuffixNoBackslash(rel, |rel| - |r|);
    r
  }

  /** The part of a '/'-form path after a root it starts with (up to case), without the
      separators that follow the root; the whole path when it does not start with the root. */
  function RelativeTail(rel: string, root: string): (r: string)
    ensures |r| <= |rel| && r == rel[|rel| - |r|..]
    ensures StartsWithCI(rel, root) ==> |r| <= |rel| - |root| && (r == [] || r[0] != '/')
    ensures StartsWithCI(rel, root) ==> forall i | |root| <= i < |rel| - |r| :: rel[i] == '/'
    ensures !StartsWithCI(rel, root) ==> r == rel
  {
    if StartsWithCI(rel, root) then
      TrimSlashesAfter(rel, |root|);
      TrimStart(rel[|root|..], {'/'})
    else
      assert rel[0..] == rel;
      rel
  }

  /** Cutting the first `k` characters and then the leading '/'s leaves a suffix. */
  lemma {:induction false} TrimSlashesAfter(s: string, k: nat)
    requires k <= |s|
    ensures var r := TrimStart(s[k..], {'/'});
      |r| <= |s| - k && r == s[|s| - |r|..] && forall i | k <= i < |s| - |r| :: s[i] == '/'
  {
    var tail := s[k..];
    var r := TrimStart(tail, {'/'});
    var j := |tail| - |r|;
    assert r == tail[j..];
    assert tail[j..] == s[k + j..];
    forall i | k <= i < |s| - |r| ensures s[i] == '/' {
      assert s[i] == tail[i - k];
    }
  }

  lemma {:induction false} SuffixNoBackslash(s: string, m: nat)
    requires m <= |s| && '\\' !in s
    ensures '\\' !in s[m..]
  {
    forall i | 0 <= i < |s| - m ensures s[m..][i] != '\\' {
      assert s[m..][i] == s[m + i];
    }
  }

  /** A directory `root/rel` is reported as `rel` relative to the project root. */
  lemma {:induction false} RelativeFromProjectOfChild(projectRoot: string, rel: string)
    requires '\\' !in projectRoot && '\\' !in rel
    requires rel != [] && rel[0] != '/'
    ensures RelativeFromProject(Combine(projectRoot, rel), projectRoot) == rel
  {
    var tail := "/" + rel;
    var full := projectRoot + tail;
    assert Combine(projectRoot, rel) == full;
    assert '\\' !in full;
    SlashFormFixes(full);
    SlashFormFixes(projectRoot);
    StartsWithCIAppend(projectRoot, tail);
    assert full[|projectRoot|..] == tail;
    TrimStartOneSlash(rel);
  }

  lemma SlashFormFixes(s: string)
    requires '\\' !in s
    ensures SlashForm(s) == s
  {
    assert forall i | 0 <= i < |s| :: SlashForm(s)[i] == s[i];
  }

  lemma StartsWithCIAppend(a: string, b: string)
    ensures StartsWithCI(a + b, a)
  {
    assert forall i | 0 <= i < |a| :: (a + b)[i] == a[i];
  }

  lemma TrimStartOneSlash(rel: string)
    requires rel != [] && rel[0] != '/'
    ensures TrimStart("/" + rel, {'/'}) == rel
  {
    assert ("/" + rel)[1..] == rel;
  }

  // ---------------------------------------------------------------------------
  // SanitizeFolderName
  // ---------------------------------------------------------------------------

  const DEFAULT_FOLDER_NAME := "Template"

  /** Each character of `invalid` becomes '_' (the `Select` inside SanitizeFolderName). */
  function ReplaceInvalid(s: string, invalid: set<char>): (r: string)
    ensures |r| == |s|
    ensures forall i | 0 <= i < |s| :: r[i] == (if s[i] in invalid then '_' else s[i])
  {
    if s == [] then [] else [if s[0] in invalid then '_' else s[0]] + ReplaceInvalid(s[1..], invalid)
  }

  /** `SanitizeFolderName(s)` with `Path.GetInvalidFileNameChars()` passed in as `invalid`. */
  function SanitizeFolderName(s: string, invalid: set<char>): string {
    var result := Trim(ReplaceInvalid(s, invalid));
    if result == [] then DEFAULT_FOLDER_NAME else result
  }

  /** The platform's invalid set never holds '_' nor a letter of the fallback name. */
  predicate PlausibleInvalidSet(invalid: set<char>) {
    '_' !in invalid && forall c | c in DEFAULT_FOLDER_NAME :: c !in invalid
  }

  /** `Trim` keeps a contiguous run of its input. */
  lemma TrimIsSlice(m: string) returns (a: nat)
    ensures a + |Trim(m)| <= |m| && Trim(m) == m[a..a + |Trim(m)|]
  {
    var u := TrimStartWhiteSpace(m);
    a := |m| - |u|;
    assert Trim(m) == u[..|Trim(m)|];
  }

  /** The folder name is never empty, holds no invalid character and has no white space at either end. */
  lemma SanitizeFolderNameValid(s: string, invalid: set<char>)
    requires PlausibleInvalidSet(invalid)
    ensures SanitizeFolderName(s, invalid) != []
    ensures forall c | c in SanitizeFolderName(s, invalid) :: c !in invalid
    ensures !IsWhiteSpace(SanitizeFolderName(s, invalid)[0])
    ensures !IsWhiteSpace(SanitizeFolderName(s, invalid)[|SanitizeFolderName(s, invalid)| - 1])
  {
    var m := ReplaceInvalid(s, invalid);
    var t := Trim(m);
    var a := TrimIsSlice(m);
    if t == [] {
      assert SanitizeFolderName(s, invalid) == DEFAULT_FOLDER_NAME;
      assert DEFAULT_FOLDER_NAME[0] == 'T' && DEFAULT_FOLDER_NAME[7] == 'e';
    } else {
      assert SanitizeFolderName(s, invalid) == t;
      forall c | c in t ensures c !in invalid {
        var i :| 0 <= i < |t| && t[i] == c;
        assert t[i] == m[a + i];
      }
      var u := TrimStartWhiteSpace(m);
      assert t[0] == u[0];
    }
  }

  /** The fallback is taken exactly when every character maps to white space. */
  lemma SanitizeFolderNameFallback(s: string, invalid: set<char>)
    ensures Trim(ReplaceInvalid(s, invalid)) == [] <==>
            forall i | 0 <= i < |s| :: IsWhiteSpace(if s[i] in invalid then '_' else s[i])
  {
    var m := ReplaceInvalid(s, invalid);
    var u := TrimStartWhiteSpace(m);
    if Trim(m) == [] {
      assert u == [];
    } else {
      assert !IsWhiteSpace(u[0]);
      assert u[0] == m[|m| - |u|];
    }
  }

  /** Sanitising an already sanitised name changes nothing. */
  lemma SanitizeFolderNameIdempotent(s: string, invalid: set<char>)
    requires PlausibleInvalidSet(invalid)
    ensures SanitizeFolderName(SanitizeFolderName(s, invalid), invalid) == SanitizeFolderName(s, invalid)
  {
    var r := SanitizeFolderName(s, invalid);
    SanitizeFolderNameValid(s, invalid);
    var m := ReplaceInvalid(r, invalid);
    assert m == r;
    assert TrimStartWhiteSpace(r) == r;
    assert TrimEndWhiteSpace(r) == r;
  }

  // ---------------------------------------------------------------------------
  // EscapeJson
  // ---------------------------------------------------------------------------

  /** `EscapeJson(s)`: null becomes "", backslashes are doubled first, then quotes are escaped. */
  function EscapeJson(s: Option<string>): string {
    match s
    case None => ""
    case Some(t) => ReplaceChar(ReplaceChar(t, '\\', "\\\\"), '"', "\\\"")
  }

  /** Reading an escaped JSON string body back: a backslash takes the next character literally. */
  function UnescapeJson(e: string): string
    decreases |e|
  {
    if e == [] then []
    else if e[0] == '\\' && |e| >= 2 then [e[1]] + UnescapeJson(e[2..])
    else [e[0]] + UnescapeJson(e[1..])
  }

  /** The two replacements amount to escaping one character at a time. */
  function EscapeChar(c: char): string {
    if c == '\\' then "\\\\" else if c == '"' then "\\\"" else [c]
  }

  lemma {:induction false} ReplaceCharAppend(a: string, b: string, c: char, rep: string)
    ensures ReplaceChar(a + b, c, rep) == ReplaceChar(a, c, rep) + ReplaceChar(b, c, rep)
  {
    if a == [] {
      assert a + b == b;
    } else {
      assert (a + b)[0] == a[0];
      assert (a + b)[1..] == a[1..] + b;
      ReplaceCharAppend(a[1..], b, c, rep);
    }
  }

  lemma {:induction false} EscapeJsonPerChar(t: string)
    requires t != []
    ensures EscapeJson(Some(t)) == EscapeChar(t[0]) + EscapeJson(Some(t[1..]))
  {
    var head := if t[0] == '\\' then "\\\\" else [t[0]];
    assert ReplaceChar(t, '\\', "\\\\") == head + ReplaceChar(t[1..], '\\', "\\\\");
    ReplaceCharAppend(head, ReplaceChar(t[1..], '\\', "\\\\"), '"', "\\\"");
    if t[0] == '\\' {
      assert ReplaceChar(head, '"', "\\\"") == "\\\\" by {
        assert head[1..] == "\\";
        assert ReplaceChar(head[1..][1..], '"', "\\\"") == [];
      }
    } else {
      assert ReplaceChar(head, '"', "\\\"") == EscapeChar(t[0]) by {
        assert head[1..] == [];
      }
    }
  }

  /** Unescaping undoes EscapeJson: no text is lost or altered by escaping. */
  lemma {:induction false} EscapeJsonRoundTrip(t: string)
    ensures UnescapeJson(EscapeJson(Some(t))) == t
    decreases |t|
  {
    if t != [] {
      EscapeJsonPerChar(t);
      var h := EscapeChar(t[0]);
      var rest := EscapeJson(Some(t[1..]));
      EscapeJsonRoundTrip(t[1..]);
      if t[0] == '\\' || t[0] == '"' {
        assert (h + rest)[0] == '\\' && (h + rest)[1] == t[0];
        assert (h + rest)[2..] == rest;
      } else {
        assert (h + rest)[0] == t[0];
        assert (h + rest)[1..] == rest;
      }
      assert t == [t[0]] + t[1..];
    } else {
      assert EscapeJson(Some(t)) == [];
    }
  }
}
