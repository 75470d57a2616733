/**
 * Character and string primitives shared by the template builder model:
 * the case-insensitive comparison policy (OrdinalIgnoreCase, modelled on
 * ASCII), whitespace, trimming and ordinal character replacement.
 */
module Text {

  /** Upper-case folding used by OrdinalIgnoreCase, restricted to ASCII letters. */
  function Fold(c: char): (f: char)
    ensures ('a' <= c <= 'z') == (f != c)
    ensures f == '/' <==> c == '/'
  {
    if 'a' <= c <= 'z' then (c as int - 32) as char else c
  }

  /** `s.StartsWith(p, StringComparison.OrdinalIgnoreCase)` */
  predicate StartsWithCI(s: string, p: string) {
    |p| <= |s| && forall i | 0 <= i < |p| :: Fold(s[i]) == Fold(p[i])
  }

  /** `a.Equals(b, StringComparison.OrdinalIgnoreCase)` */
  predicate EqCI(a: string, b: string) {
    |a| == |b| && StartsWithCI(a, b)
  }

  /** `s.IndexOf(p, StringComparison.OrdinalIgnoreCase) >= 0`; an empty `p` occurs at index 0. */
  predicate ContainsCI(s: string, p: string) {
    exists i | 0 <= i <= |s| - |p| :: StartsWithCI(s[i..], p)
  }

  /** Membership in a collection built with StringComparer.OrdinalIgnoreCase. */
  predicate InCI(xs: seq<string>, x: string) {
    exists i | 0 <= i < |xs| :: EqCI(xs[i], x)
  }

  /** ASCII and Latin-1 part of `char.IsWhiteSpace`. */
  predicate IsWhiteSpace(c: char) {
    c == ' ' || '\t' <= c <= '\r' || c == '\U{0085}' || c == '\U{00A0}'
  }

  /** `string.IsNullOrWhiteSpace` for a non-null string. */
  predicate IsBlank(s: string) {
    forall i | 0 <= i < |s| :: IsWhiteSpace(s[i])
  }

  /** Ordinal `s.Replace(old, rep)` where `old` is the one-character string `[c]`. */
  function ReplaceChar(s: string, c: char, rep: string): (r: string)
    ensures c !in rep ==> c !in r
    ensures (forall i | 0 <= i < |s| :: s[i] != c) ==> r == s
  {
    if s == [] then [] else (if s[0] == c then rep else [s[0]]) + ReplaceChar(s[1..], c, rep)
  }

  /** `s.Replace("\\", "/")` */
  function SlashForm(s: string): (r: string)
    ensures '\\' !in r && |r| == |s|
    ensures forall i | 0 <= i < |s| :: r[i] == (if s[i] == '\\' then '/' else s[i])
  {
    if s == [] then [] else (if s[0] == '\\' then "/" else [s[0]]) + SlashForm(s[1..])
  }

  /** `s.TrimEnd('/')` */
  function TrimEndSlash(s: string): (r: string)
    ensures |r| <= |s| && r == s[..|r|]
    ensures r == [] || r[|r| - 1] != '/'
    ensures forall i | |r| <= i < |s| :: s[i] == '/'
  {
    if |s| > 0 && s[|s| - 1] == '/' then TrimEndSlash(s[..|s| - 1]) else s
  }

  /** `s.TrimStart(cs)` */
  function TrimStart(s: string, cs: set<char>): (r: string)
    ensures |r| <= |s| && r == s[|s| - |r|..]
    ensures r == [] || r[0] !in cs
    ensures forall i | 0 <= i < |s| - |r| :: s[i] in cs
  {
    if |s| > 0 && s[0] in cs then TrimStart(s[1..], cs) else s
  }

  function TrimStartWhiteSpace(s: string): (r: string)
    ensures |r| <= |s| && r == s[|s| - |r|..]
    ensures r == [] || !IsWhiteSpace(r[0])
    ensures forall i | 0 <= i < |s| - |r| :: IsWhiteSpace(s[i])
  {
    if |s| > 0 && IsWhiteSpace(s[0]) then TrimStartWhiteSpace(s[1..]) else s
  }

  function TrimEndWhiteSpace(s: string): (r: string)
    ensures |r| <= |s| && r == s[..|r|]
    ensures r == [] || !IsWhiteSpace(r[|r| - 1])
    ensures forall i | |r| <= i < |s| :: IsWhiteSpace(s[i])
  {
    if |s| > 0 && IsWhiteSpace(s[|s| - 1]) then TrimEndWhiteSpace(s[..|s| - 1]) else s
  }

  /** `s.Trim()`: strips white space at both ends. */
  function Trim(s: string): string {
    TrimEndWhiteSpace(TrimStartWhiteSpace(s))
  }

  /** `s.Count(c => c == x)` */
  function CountChar(s: string, x: char): nat {
    if s == [] then 0 else (if s[0] == x then 1 else 0) + CountChar(s[1..], x)
  }

  /** Ordering of StringComparer.OrdinalIgnoreCase: lexicographic on folded characters. */
  predicate LeqCI(a: string, b: string) {
    if a == [] then true
    else if b == [] then false
    else if Fold(a[0]) != Fold(b[0]) then Fold(a[0]) < Fold(b[0])
    else LeqCI(a[1..], b[1..])
  }

  // ---------------------------------------------------------------------------
  // Facts about the case-insensitive relations
  // ---------------------------------------------------------------------------

  lemma EqCIRefl(a: string)
    ensures EqCI(a, a)
  {
  }

  lemma EqCISymm(a: string, b: string)
    requires EqCI(a, b)
    ensures EqCI(b, a)
  {
  }

  lemma StartsWithCITrans(s: string, t: string, p: string)
    requires StartsWithCI(s, t) && StartsWithCI(t, p)
    ensures StartsWithCI(s, p)
  {
  }

  /** Case-insensitive equal strings hold '/' at exactly the same positions. */
  lemma {:induction false} CountSlashFold(s: string, t: string)
    requires |s| == |t| && forall i | 0 <= i < |s| :: Fold(s[i]) == Fold(t[i])
    ensures CountChar(s, '/') == CountChar(t, '/')
  {
    if s != [] {
      assert Fold(s[0]) == Fold(t[0]);
      CountSlashFold(s[1..], t[1..]);
    }
  }

  lemma {:induction false} CountAppend(a: string, b: string, x: char)
    ensures CountChar(a + b, x) == CountChar(a, x) + CountChar(b, x)
  {
    if a != [] {
      assert (a + b)[1..] == a[1..] + b;
      CountAppend(a[1..], b, x);
    } else {
      assert a + b == b;
    }
  }

  lemma LeqCITotal(a: string, b: string)
    ensures LeqCI(a, b) || LeqCI(b, a)
  {
  }

  lemma {:induction false} LeqCITrans(a: string, b: string, c: string)
    requires LeqCI(a, b) && LeqCI(b, c)
    ensures LeqCI(a, c)
  {
    if a != [] && b != [] && c != [] && Fold(a[0]) == Fold(b[0]) && Fold(b[0]) == Fold(c[0]) {
      LeqCITrans(a[1..], b[1..], c[1..]);
    }
  }

  /** A pattern found inside `s` is also found inside any extension of `s`. */
  lemma ContainsCIExtend(s: string, t: string, p: string)
    requires ContainsCI(s, p)
    ensures ContainsCI(s + t, p)
  {
    var i :| 0 <= i <= |s| - |p| && StartsWithCI(s[i..], p);
    assert (s + t)[i..][..|p|] == s[i..][..|p|];
    assert StartsWithCI((s + t)[i..], p);
  }

  /** Every string contains itself. */
  lemma ContainsCISelf(s: string)
    ensures ContainsCI(s, s)
  {
    assert s[0..] == s;
    assert StartsWithCI(s[0..], s);
  }
}
