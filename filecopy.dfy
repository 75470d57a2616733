/**
 * The filtered recursive copy.  A directory on disk is a map from path to
 * entry; the tree being copied is keyed by path relative to its root (each
 * key begins with '/'), and the destination is a FileStore whose map the
 * copy updates in place.
 */
module FileCopy {
  import opened Wrappers
  import opened Text
  import opened Paths

  /** What a path names on disk.  File contents are carried, never inspected. */
  datatype Entry = Dir | File(data: seq<bv8>)

  /**
   * A path relative to the copied directory, as CopyDirectoryFiltered
   * computes it: a separator, then a non-empty remainder in '/' form.
   */
  predicate RelKey(k: string) {
    |k| >= 2 && k[0] == '/' && k[1] != '/' && '\\' !in k
  }

  /** The entries found below the copied directory, keyed by relative path. */
  predicate ValidSource(src: map<string, Entry>) {
    forall k | k in src :: RelKey(k)
  }

  /** `excludePatterns ??= Array.Empty<string>()` */
  function PatternsOf(excludePatterns: Option<seq<string>>): (r: seq<string>)
    ensures excludePatterns.None? ==> r == []
    ensures excludePatterns.Some? ==> r == excludePatterns.value
  {
    match excludePatterns
    case None => []
    case Some(ps) => ps
  }

  /** `Path.Combine(dstDir, rel.TrimStart('/', '\\'))`: where the entry `rel` lands. */
  function Target(dstDir: string, rel: string): (r: string)
    ensures RelKey(rel) ==> r == dstDir + rel
  {
    var t := TrimStart(rel, {'/', '\\'});
    if RelKey(rel) then
      assert t == rel[1..];
      assert dstDir + "/" + rel[1..] == dstDir + rel by {
        assert rel == "/" + rel[1..];
      }
      Combine(dstDir, t)
    else Combine(dstDir, t)
  }

  // ---------------------------------------------------------------------------
  // Directory creation
  // ---------------------------------------------------------------------------

  /** Whether `p[..i]` is `p` itself or a proper ancestor of `p` ending before a separator. */
  predicate IsCut(p: string, i: int) {
    0 < i <= |p| && (i == |p| || p[i] == '/')
  }

  /** The paths `Directory.CreateDirectory(p)` makes sure exist: `p` and each ancestor. */
  function AncestorsAndSelf(p: string): (r: set<string>)
    ensures p != [] ==> p in r
    ensures forall q | q in r :: q != [] && |q| <= |p| && q == p[..|q|]
  {
    var r := set i | 0 < i <= |p| && IsCut(p, i) :: p[..i];
    assert p != [] ==> IsCut(p, |p|) && p[..|p|] == p;
    r
  }

  /** Each path of `ps` that is not in `m` is added as a directory; nothing present changes. */
  function WithDirs(m: map<string, Entry>, ps: set<string>): (r: map<string, Entry>)
    ensures r.Keys == m.Keys + ps
    ensures forall q | q in m :: r[q] == m[q]
    ensures forall q | q in ps && q !in m :: r[q] == Dir
  {
    map q | q in m.Keys + ps :: if q in m then m[q] else Dir
  }

  /** Adding directories in two rounds is adding them in one. */
  lemma WithDirsTwice(m: map<string, Entry>, a: set<string>, b: set<string>)
    ensures WithDirs(WithDirs(m, a), b) == WithDirs(m, a + b)
  {
  }

  /** `Directory.CreateDirectory(p)` on the map. */
  function CreateDir(m: map<string, Entry>, p: string): map<string, Entry> {
    WithDirs(m, AncestorsAndSelf(p))
  }

  /** `FileUtil.DeleteFileOrDirectory(p)`: `p` and everything beneath it disappear. */
  function DeleteTree(m: map<string, Entry>, p: string): (r: map<string, Entry>)
    ensures forall q :: q in r <==> q in m && q != p && !(|p| < |q| && q[..|p| + 1] == p + "/")
    ensures forall q | q in r :: r[q] == m[q]
  {
    map q | q in m && q != p && !(|p| < |q| && q[..|p| + 1] == p + "/") :: m[q]
  }

  // ---------------------------------------------------------------------------
  // What the copy produces
  // ---------------------------------------------------------------------------

  /** An entry the copy writes: present below the source and matched by no pattern. */
  predicate Copied(src: map<string, Entry>, k: string, patterns: seq<string>) {
    k in src && !Excluded(k, patterns)
  }

  /** Directories created by the first loop, for the directories of `done`. */
  function DirsCreated(src: map<string, Entry>, dstDir: string, patterns: seq<string>, done: set<string>): set<string> {
    set k, q | k in done && Copied(src, k, patterns) && src[k].Dir? && q in AncestorsAndSelf(dstDir + k) :: q
  }

  /** Parent directories created by the second loop, for the files of `done`. */
  function ParentsCreated(src: map<string, Entry>, dstDir: string, patterns: seq<string>, done: set<string>): set<string> {
    set k, q | k in done && Copied(src, k, patterns) && src[k].File? && q in AncestorsAndSelf(DirName(dstDir + k)) :: q
  }

  /** Where the second loop writes files, for the files of `done`. */
  function FileTargets(src: map<string, Entry>, dstDir: string, patterns: seq<string>, done: set<string>): set<string> {
    set k | k in done && Copied(src, k, patterns) && src[k].File? :: dstDir + k
  }

  /** Files written by the second loop, for the files of `done`: each holds its source's contents. */
  function FilesWritten(src: map<string, Entry>, dstDir: string, patterns: seq<string>, done: set<string>): (r: map<string, Entry>)
    ensures r.Keys == FileTargets(src, dstDir, patterns, done)
  {
    map q | q in FileTargets(src, dstDir, patterns, done) :: src[q[|dstDir|..]]
  }

  /** A copied file's target holds that file's contents. */
  lemma FilesWrittenAt(src: map<string, Entry>, dstDir: string, patterns: seq<string>, done: set<string>, k: string)
    requires k in done && Copied(src, k, patterns) && src[k].File?
    ensures dstDir + k in FilesWritten(src, dstDir, patterns, done)
    ensures FilesWritten(src, dstDir, patterns, done)[dstDir + k] == src[k]
  {
    assert (dstDir + k)[|dstDir|..] == k;
  }

  /**
   * The destination after `CopyDirectoryFiltered(srcDir, dstDir, patterns)`:
   * every directory and every parent of a file that is copied exists, and
   * every copied file holds the source's contents.
   */
  function CopyResult(before: map<string, Entry>, src: map<string, Entry>, dstDir: string, patterns: seq<string>): map<string, Entry>
    requires ValidSource(src)
  {
    WithDirs(before, DirsCreated(src, dstDir, patterns, src.Keys) + ParentsCreated(src, dstDir, patterns, src.Keys))
      + FilesWritten(src, dstDir, patterns, src.Keys)
  }

  // ---------------------------------------------------------------------------
  // The file store
  // ---------------------------------------------------------------------------

  /** The destination disk, updated in place. */
  class FileStore {
    var entries: map<string, Entry>

    constructor (initial: map<string, Entry>)
      ensures entries == initial
    {
      entries := initial;
    }

    /** `Directory.Exists(p)` */
    function DirectoryExists(p: string): (b: bool)
      reads this
      ensures b <==> p in entries && entries[p] == Dir
    {
      p in entries && entries[p].Dir?
    }

    /** `Directory.CreateDirectory(p)`: creates `p` and its missing ancestors. */
    method CreateDirectory(p: string)
      modifies this
      ensures entries == CreateDir(old(entries), p)
      ensures forall q | q in old(entries) :: q in entries && entries[q] == old(entries)[q]
      ensures p != [] ==> p in entries
    {
      entries := CreateDir(entries, p);
    }

    /** `File.Copy(source, p, overwrite: true)` with the source's contents. */
    method CopyFile(data: seq<bv8>, p: string)
      modifies this
      ensures entries == old(entries)[p := File(data)]
    {
      entries := entries[p := File(data)];
    }

    /** `FileUtil.DeleteFileOrDirectory(p)` */
    method DeleteFileOrDirectory(p: string)
      modifies this
      ensures entries == DeleteTree(old(entries), p)
    {
      entries := DeleteTree(entries, p);
    }

    /**
     * `CopyDirectoryFiltered(srcDir, dstDir, excludePatterns)`: first every
     * directory below the source, then every file, each skipped when a
     * pattern occurs in its relative path, ignoring case.
     */
    method CopyDirectoryFiltered(src: map<string, Entry>, dstDir: string, excludePatterns: Option<seq<string>>)
      requires ValidSource(src)
      modifies this
      ensures entries == CopyResult(old(entries), src, dstDir, PatternsOf(excludePatterns))
    {
      var patterns := PatternsOf(excludePatterns);
      CopyDirectories(src, dstDir, patterns);
      CopyFiles(src, dstDir, patterns);
      WithDirsTwice(old(entries), DirsCreated(src, dstDir, patterns, src.Keys), ParentsCreated(src, dstDir, patterns, src.Keys));
    }

    /** The first loop of CopyDirectoryFiltered: recreate every directory no pattern matches. */
    method CopyDirectories(src: map<string, Entry>, dstDir: string, patterns: seq<string>)
      requires ValidSource(src)
      modifies this
      ensures entries == WithDirs(old(entries), DirsCreated(src, dstDir, patterns, src.Keys))
    {
      var pending := DirKeys(src);
      while pending != {}
        invariant pending <= DirKeys(src)
        invariant entries == WithDirs(old(entries), DirsCreated(src, dstDir, patterns, DirKeys(src) - pending))
        decreases |pending|
      {
        var rel :| rel in pending;
        ghost var prev := entries;
        if !Excluded(rel, patterns) {
          CreateDirectory(Target(dstDir, rel));
        }
        DirLoopStep(old(entries), prev, entries, src, dstDir, patterns, pending, rel);
        pending := pending - {rel};
      }
      DirsCreatedAll(src, dstDir, patterns, pending);
    }

    /** The second loop of CopyDirectoryFiltered: copy every file no pattern matches,
        creating its parent directory first. */
    method CopyFiles(src: map<string, Entry>, dstDir: string, patterns: seq<string>)
      requires ValidSource(src)
      modifies this
      ensures entries == WithDirs(old(entries), ParentsCreated(src, dstDir, patterns, src.Keys))
                           + FilesWritten(src, dstDir, patterns, src.Keys)
    {
      var pending := FileKeys(src);
      while pending != {}
        invariant pending <= FileKeys(src)
        invariant entries == WithDirs(old(entries), ParentsCreated(src, dstDir, patterns, FileKeys(src) - pending))
                               + FilesWritten(src, dstDir, patterns, FileKeys(src) - pending)
        decreases |pending|
      {
        var rel :| rel in pending;
        ghost var prev := entries;
        if !Excluded(rel, patterns) {
          var outPath := Target(dstDir, rel);
          CreateDirectory(DirName(outPath));
          CopyFile(src[rel].data, outPath);
        }
        FileLoopStep(old(entries), prev, entries, src, dstDir, patterns, pending, rel);
        pending := pending - {rel};
      }
      FilesAll(src, dstDir, patterns, pending);
    }
  }

  // ---------------------------------------------------------------------------
  // The loops' bookkeeping
  // ---------------------------------------------------------------------------

  lemma DirsCreatedStep(src: map<string, Entry>, dstDir: string, patterns: seq<string>, done: set<string>, rel: string)
    requires rel in src && src[rel].Dir?
    ensures DirsCreated(src, dstDir, patterns, done + {rel}) ==
            DirsCreated(src, dstDir, patterns, done) +
            (if !Excluded(rel, patterns) then AncestorsAndSelf(dstDir + rel) else {})
  {
  }

  /** One turn of the directory loop, created or skipped, keeps the loop's account of the destination. */
  lemma DirLoopStep(base: map<string, Entry>, prev: map<string, Entry>, next: map<string, Entry>,
                    src: map<string, Entry>, dstDir: string, patterns: seq<string>, pending: set<string>, rel: string)
    requires ValidSource(src) && rel in pending && pending <= DirKeys(src)
    requires prev == WithDirs(base, DirsCreated(src, dstDir, patterns, DirKeys(src) - pending))
    requires next == if Excluded(rel, patterns) then prev else CreateDir(prev, Target(dstDir, rel))
    ensures next == WithDirs(base, DirsCreated(src, dstDir, patterns, DirKeys(src) - (pending - {rel})))
  {
    var done := DirKeys(src) - pending;
    assert DirKeys(src) - (pending - {rel}) == done + {rel};
    DirsCreatedStep(src, dstDir, patterns, done, rel);
    if !Excluded(rel, patterns) {
      WithDirsTwice(base, DirsCreated(src, dstDir, patterns, done), AncestorsAndSelf(dstDir + rel));
    }
  }

  /** Only directories feed DirsCreated, so its value over the directories is its value over all keys. */
  lemma DirsCreatedAll(src: map<string, Entry>, dstDir: string, patterns: seq<string>, pending: set<string>)
    requires pending == {}
    ensures DirsCreated(src, dstDir, patterns, DirKeys(src) - pending) == DirsCreated(src, dstDir, patterns, src.Keys)
  {
    assert DirKeys(src) - pending == DirKeys(src);
  }

  /** The directories of a source tree. */
  function DirKeys(src: map<string, Entry>): set<string> {
    set k | k in src && src[k].Dir?
  }

  /** The files of a source tree. */
  function FileKeys(src: map<string, Entry>): set<string> {
    set k | k in src && src[k].File?
  }

  lemma FilesAll(src: map<string, Entry>, dstDir: string, patterns: seq<string>, pending: set<string>)
    requires ValidSource(src) && pending == {}
    ensures ParentsCreated(src, dstDir, patterns, FileKeys(src) - pending) == ParentsCreated(src, dstDir, patterns, src.Keys)
    ensures FilesWritten(src, dstDir, patterns, FileKeys(src) - pending) == FilesWritten(src, dstDir, patterns, src.Keys)
  {
    assert FileKeys(src) - pending == FileKeys(src);
  }

  /** One turn of the file loop, copied or skipped, keeps the loop's account of the destination. */
  lemma FileLoopStep(base: map<string, Entry>, prev: map<string, Entry>, next: map<string, Entry>,
                     src: map<string, Entry>, dstDir: string, patterns: seq<string>, pending: set<string>, rel: string)
    requires ValidSource(src) && rel in pending && pending <= FileKeys(src)
    requires prev == WithDirs(base, ParentsCreated(src, dstDir, patterns, FileKeys(src) - pending))
                       + FilesWritten(src, dstDir, patterns, FileKeys(src) - pending)
    requires next == if Excluded(rel, patterns) then prev
                     else CreateDir(prev, DirName(Target(dstDir, rel)))[Target(dstDir, rel) := src[rel]]
    ensures next == WithDirs(base, ParentsCreated(src, dstDir, patterns, FileKeys(src) - (pending - {rel})))
                      + FilesWritten(src, dstDir, patterns, FileKeys(src) - (pending - {rel}))
  {
    var done := FileKeys(src) - pending;
    assert FileKeys(src) - (pending - {rel}) == done + {rel};
    if Excluded(rel, patterns) {
      FileSkip(src, dstDir, patterns, done, rel);
    } else {
      FileStep(base, src, dstDir, patterns, done, rel);
    }
  }

  /** Skipping an excluded file leaves the running result as it is. */
  lemma FileSkip(src: map<string, Entry>, dstDir: string, patterns: seq<string>, done: set<string>, rel: string)
    requires ValidSource(src) && rel in src && Excluded(rel, patterns)
    ensures ParentsCreated(src, dstDir, patterns, done + {rel}) == ParentsCreated(src, dstDir, patterns, done)
    ensures FilesWritten(src, dstDir, patterns, done + {rel}) == FilesWritten(src, dstDir, patterns, done)
  {
  }

  lemma ParentsStep(src: map<string, Entry>, dstDir: string, patterns: seq<string>, done: set<string>, rel: string)
    requires rel in src && src[rel].File? && !Excluded(rel, patterns)
    ensures ParentsCreated(src, dstDir, patterns, done + {rel}) ==
            ParentsCreated(src, dstDir, patterns, done) + AncestorsAndSelf(DirName(dstDir + rel))
  {
  }

  lemma WrittenStep(src: map<string, Entry>, dstDir: string, patterns: seq<string>, done: set<string>, rel: string)
    requires rel in src && src[rel].File? && !Excluded(rel, patterns)
    ensures FilesWritten(src, dstDir, patterns, done + {rel}) == FilesWritten(src, dstDir, patterns, done)[dstDir + rel := src[rel]]
  {
    var a := FilesWritten(src, dstDir, patterns, done + {rel});
    var b := FilesWritten(src, dstDir, patterns, done)[dstDir + rel := src[rel]];
    assert a.Keys == b.Keys;
    forall q | q in a ensures a[q] == b[q] {
      if q != dstDir + rel {
        var k :| k in done && Copied(src, k, patterns) && src[k].File? && q == dstDir + k;
      }
    }
  }

  /** Directories are added only where nothing exists, so they commute with writes of files. */
  lemma DirsThenWrite(base: map<string, Entry>, pc: set<string>, fw: map<string, Entry>, anc: set<string>, out: string, v: Entry)
    ensures WithDirs(WithDirs(base, pc) + fw, anc)[out := v] == WithDirs(base, pc + anc) + fw[out := v]
  {
    var lhs := WithDirs(WithDirs(base, pc) + fw, anc)[out := v];
    var rhs := WithDirs(base, pc + anc) + fw[out := v];
    assert lhs.Keys == rhs.Keys;
    forall q | q in lhs ensures lhs[q] == rhs[q] {
    }
  }

  /** Creating a file's parent and then copying it extends the running result by that file,
      whatever files came before. */
  lemma FileStep(base: map<string, Entry>, src: map<string, Entry>, dstDir: string, patterns: seq<string>,
                 done: set<string>, rel: string)
    requires ValidSource(src) && rel in src && src[rel].File? && !Excluded(rel, patterns)
    ensures CreateDir(WithDirs(base, ParentsCreated(src, dstDir, patterns, done)) + FilesWritten(src, dstDir, patterns, done),
                      DirName(Target(dstDir, rel)))[Target(dstDir, rel) := src[rel]]
            == WithDirs(base, ParentsCreated(src, dstDir, patterns, done + {rel})) + FilesWritten(src, dstDir, patterns, done + {rel})
  {
    ParentsStep(src, dstDir, patterns, done, rel);
    WrittenStep(src, dstDir, patterns, done, rel);
    DirsThenWrite(base, ParentsCreated(src, dstDir, patterns, done), FilesWritten(src, dstDir, patterns, done),
                  AncestorsAndSelf(DirName(dstDir + rel)), dstDir + rel, src[rel]);
  }

  // ---------------------------------------------------------------------------
  // What the copy promises
  // ---------------------------------------------------------------------------

  /** A path is excluded whenever a leading part of it is. */
  lemma ExcludedPrefix(k: string, j: nat, patterns: seq<string>)
    requires j <= |k|
    ensures Excluded(k[..j], patterns) ==> Excluded(k, patterns)
  {
    if Excluded(k[..j], patterns) {
      ExcludedExtends(k[..j], k[j..], patterns);
      assert k[..j] + k[j..] == k;
    }
  }

  /** The parent of a path is a leading part of it. */
  lemma DirNamePrefix(p: string)
    ensures |DirName(p)| <= |p| && DirName(p) == p[..|DirName(p)|]
  {
    if '/' in p {
      var r := DirName(p);
      assert p == r + "/" + p[|r| + 1..];
    }
  }

  /** `q` is `dstDir` itself or one of its ancestors. */
  predicate AncestorOrSelf(q: string, dstDir: string) {
    |q| <= |dstDir| && q == dstDir[..|q|]
  }

  /** `q` lies strictly beneath `dstDir`. */
  predicate Beneath(q: string, dstDir: string) {
    |q| > |dstDir| && q[..|dstDir| + 1] == dstDir + "/"
  }

  /** A leading part of the target of an entry the copy writes is an ancestor of `dstDir`,
      or lies beneath it and stands for a relative path no pattern matches. */
  lemma PrefixOfCopied(src: map<string, Entry>, dstDir: string, patterns: seq<string>, k: string, q: string)
    requires Copied(src, k, patterns) && RelKey(k)
    requires |q| <= |dstDir + k| && q == (dstDir + k)[..|q|]
    ensures AncestorOrSelf(q, dstDir) || (Beneath(q, dstDir) && !Excluded(q[|dstDir|..], patterns))
  {
    if |q| > |dstDir| {
      assert q[|dstDir|..] == k[..|q| - |dstDir|];
      assert q[..|dstDir| + 1] == dstDir + "/";
      ExcludedPrefix(k, |q| - |dstDir|, patterns);
    } else {
      assert q == dstDir[..|q|];
    }
  }

  /** An ancestor of a path's parent is a leading part of the path. */
  lemma AncestorOfParentIsPrefix(p: string, q: string)
    requires q in AncestorsAndSelf(DirName(p))
    ensures |q| <= |p| && q == p[..|q|]
  {
    DirNamePrefix(p);
    PrefixTrans(p, DirName(p), q);
  }

  lemma PrefixTrans(p: string, d: string, q: string)
    requires |q| <= |d| <= |p| && d == p[..|d|] && q == d[..|q|]
    ensures q == p[..|q|]
  {
  }

  lemma ParentTouched(src: map<string, Entry>, dstDir: string, patterns: seq<string>, q: string)
    requires ValidSource(src) && q in ParentsCreated(src, dstDir, patterns, src.Keys)
    ensures AncestorOrSelf(q, dstDir) || (Beneath(q, dstDir) && !Excluded(q[|dstDir|..], patterns))
  {
    var k, q' :| k in src.Keys && Copied(src, k, patterns) && src[k].File? && q' in AncestorsAndSelf(DirName(dstDir + k)) && q' == q;
    AncestorOfParentIsPrefix(dstDir + k, q);
    PrefixOfCopied(src, dstDir, patterns, k, q);
  }

  lemma DirTouched(src: map<string, Entry>, dstDir: string, patterns: seq<string>, q: string)
    requires ValidSource(src) && q in DirsCreated(src, dstDir, patterns, src.Keys)
    ensures AncestorOrSelf(q, dstDir) || (Beneath(q, dstDir) && !Excluded(q[|dstDir|..], patterns))
  {
    var k, q' :| k in src.Keys && Copied(src, k, patterns) && src[k].Dir? && q' in AncestorsAndSelf(dstDir + k) && q' == q;
    PrefixOfCopied(src, dstDir, patterns, k, q);
  }

  lemma FileTouched(src: map<string, Entry>, dstDir: string, patterns: seq<string>, q: string)
    requires ValidSource(src) && q in FileTargets(src, dstDir, patterns, src.Keys)
    ensures Beneath(q, dstDir) && !Excluded(q[|dstDir|..], patterns) && src[q[|dstDir|..]].File?
  {
    var k :| k in src.Keys && Copied(src, k, patterns) && src[k].File? && q == dstDir + k;
    assert q[|dstDir|..] == k;
    PrefixOfCopied(src, dstDir, patterns, k, q);
  }

  /** What the copy creates or writes is `dstDir`, an ancestor of it, or a path beneath it
      whose relative part no pattern matches. */
  lemma CopyTouches(before: map<string, Entry>, src: map<string, Entry>, dstDir: string, patterns: seq<string>)
    requires ValidSource(src)
    ensures forall q | q in DirsCreated(src, dstDir, patterns, src.Keys) + ParentsCreated(src, dstDir, patterns, src.Keys)
                                 + FileTargets(src, dstDir, patterns, src.Keys) ::
              AncestorOrSelf(q, dstDir) || (Beneath(q, dstDir) && !Excluded(q[|dstDir|..], patterns))
  {
    forall q | q in DirsCreated(src, dstDir, patterns, src.Keys) + ParentsCreated(src, dstDir, patterns, src.Keys)
                    + FileTargets(src, dstDir, patterns, src.Keys)
      ensures AncestorOrSelf(q, dstDir) || (Beneath(q, dstDir) && !Excluded(q[|dstDir|..], patterns))
    {
      if q in DirsCreated(src, dstDir, patterns, src.Keys) {
        DirTouched(src, dstDir, patterns, q);
      } else if q in ParentsCreated(src, dstDir, patterns, src.Keys) {
        ParentTouched(src, dstDir, patterns, q);
      } else {
        FileTouched(src, dstDir, patterns, q);
      }
    }
  }

  /** Nothing outside `dstDir` and its ancestors changes, and beneath `dstDir` nothing
      changes at a path whose relative part a pattern matches. */
  lemma CopyFrame(before: map<string, Entry>, src: map<string, Entry>, dstDir: string, patterns: seq<string>, q: string)
    requires ValidSource(src)
    requires !AncestorOrSelf(q, dstDir) && (Beneath(q, dstDir) ==> Excluded(q[|dstDir|..], patterns))
    ensures q in CopyResult(before, src, dstDir, patterns) <==> q in before
    ensures q in before ==> CopyResult(before, src, dstDir, patterns)[q] == before[q]
  {
    CopyTouches(before, src, dstDir, patterns);
  }

  /** An entry some pattern matches does not land: its target is left as it was. */
  lemma CopySkipsExcluded(before: map<string, Entry>, src: map<string, Entry>, dstDir: string, patterns: seq<string>, k: string)
    requires ValidSource(src) && k in src && Excluded(k, patterns)
    ensures Target(dstDir, k) in CopyResult(before, src, dstDir, patterns) <==> Target(dstDir, k) in before
    ensures Target(dstDir, k) in before ==>
              CopyResult(before, src, dstDir, patterns)[Target(dstDir, k)] == before[Target(dstDir, k)]
  {
    var t := dstDir + k;
    assert t[..|dstDir| + 1] == dstDir + "/" && t[|dstDir|..] == k;
    CopyFrame(before, src, dstDir, patterns, t);
  }

  /** A file no pattern matches lands at its target with the source's contents, overwriting whatever was there. */
  lemma CopyWritesFile(before: map<string, Entry>, src: map<string, Entry>, dstDir: string, patterns: seq<string>, k: string)
    requires ValidSource(src) && k in src && src[k].File? && !Excluded(k, patterns)
    ensures Target(dstDir, k) in CopyResult(before, src, dstDir, patterns)
    ensures CopyResult(before, src, dstDir, patterns)[Target(dstDir, k)] == src[k]
  {
    FilesWrittenAt(src, dstDir, patterns, src.Keys, k);
  }

  /** A directory no pattern matches exists at its target; an entry already there is kept. */
  lemma CopyCreatesDirectory(before: map<string, Entry>, src: map<string, Entry>, dstDir: string, patterns: seq<string>, k: string)
    requires ValidSource(src) && k in src && src[k].Dir? && !Excluded(k, patterns)
    ensures Target(dstDir, k) in CopyResult(before, src, dstDir, patterns)
    ensures CopyResult(before, src, dstDir, patterns)[Target(dstDir, k)] ==
              if Target(dstDir, k) in before then before[Target(dstDir, k)] else Dir
  {
    var t := dstDir + k;
    assert t in AncestorsAndSelf(t);
    assert t in DirsCreated(src, dstDir, patterns, src.Keys);
    forall q | q in FileTargets(src, dstDir, patterns, src.Keys) ensures q != t {
      FileTouched(src, dstDir, patterns, q);
      assert t[|dstDir|..] == k;
    }
  }

  /** The parent directory of a created path, and every ancestor of it, exist after the copy. */
  lemma AncestorsOfDirName(p: string)
    ensures AncestorsAndSelf(DirName(p)) <= AncestorsAndSelf(p)
  {
    var d := DirName(p);
    DirNamePrefix(p);
    forall q | q in AncestorsAndSelf(d) ensures q in AncestorsAndSelf(p) {
      assert q == d[..|q|] && q == p[..|q|];
      assert '/' in p;
      assert IsCut(p, |q|);
    }
  }

  /** Copying an entry creates every directory on the way to it. */
  lemma CopyCreatesParents(before: map<string, Entry>, src: map<string, Entry>, dstDir: string, patterns: seq<string>, k: string)
    requires ValidSource(src) && k in src && !Excluded(k, patterns)
    ensures forall q | q in AncestorsAndSelf(DirName(Target(dstDir, k))) :: q in CopyResult(before, src, dstDir, patterns)
  {
    var t := dstDir + k;
    if src[k].Dir? {
      AncestorsOfDirName(t);
      assert AncestorsAndSelf(t) <= DirsCreated(src, dstDir, patterns, src.Keys);
    } else {
      assert AncestorsAndSelf(DirName(t)) <= ParentsCreated(src, dstDir, patterns, src.Keys);
    }
  }

  /** With no pattern list, every file and directory below the source is copied. */
  lemma CopyWithoutPatterns(before: map<string, Entry>, src: map<string, Entry>, dstDir: string)
    requires ValidSource(src)
    ensures forall k | k in src && src[k].File? ::
              CopyResult(before, src, dstDir, PatternsOf(None))[Target(dstDir, k)] == src[k]
    ensures forall k | k in src :: Target(dstDir, k) in CopyResult(before, src, dstDir, PatternsOf(None))
  {
    forall k | k in src ensures Target(dstDir, k) in CopyResult(before, src, dstDir, PatternsOf(None)) &&
                               (src[k].File? ==> CopyResult(before, src, dstDir, PatternsOf(None))[Target(dstDir, k)] == src[k])
    {
      if src[k].File? {
        CopyWritesFile(before, src, dstDir, [], k);
      } else {
        CopyCreatesDirectory(before, src, dstDir, [], k);
      }
    }
  }

  /** An excluded directory keeps everything beneath it out of the copy. */
  lemma ExcludedDirHidesSubtree(before: map<string, Entry>, src: map<string, Entry>, dstDir: string, patterns: seq<string>,
                                dir: string, k: string)
    requires ValidSource(src) && dir in src && Excluded(dir, patterns)
    requires k in src && |dir| < |k| && k[..|dir| + 1] == dir + "/"
    ensures Excluded(k, patterns)
    ensures Target(dstDir, k) in CopyResult(before, src, dstDir, patterns) <==> Target(dstDir, k) in before
    ensures Target(dstDir, k) in before ==>
              CopyResult(before, src, dstDir, patterns)[Target(dstDir, k)] == before[Target(dstDir, k)]
  {
    ExcludedPrefix(k, |dir|, patterns);
    assert k[..|dir|] == dir;
    CopySkipsExcluded(before, src, dstDir, patterns, k);
  }
}
