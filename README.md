# VCC project template builder: selection resolution and filtered copy

This project is a Dafny model of the core of the Unity editor window
`VCCProjectTemplateBuilderWindow` (`Packages/com.mame2an.vccprojecttemplatebuilder/Editor/VCCProjectTemplateBuilderWindow.cs`). The window turns a Unity
project into a VRChat Creator Companion template. The model covers the part
that decides which Assets folders go into the template and how they are copied:

- **Candidate tree.**
  - `BuildAssetsTree` walks the project's Assets folder to a bounded depth and skips hidden folders (names starting with '.').
  - `GetAssetsRootSubfolders` lists the same folders to depth 2, sorted case-insensitively.
  - `RefreshAssetFolderCandidates` resets the selection to the visible first-level folders other than `Editor`.
- **Selection edits.** `SetSelected`, `ToggleWithChildren`, `GetFold` and `SetAllFoldout` update the window's list of ticked folders and its fold-out dictionary.
- **Selection resolution.**
  - `CollapseSelections` normalises, dedupes case-insensitively, depth-sorts and keeps only top-level paths.
  - `CopyAssets` re-implements the same top-level rule inline.
  - For each top-level root, `CopyAssets` builds an exclude list: the VCS folders plus every unselected candidate beneath the root.
- **Filtered copy.**
  - `CopyDirectoryFiltered` recreates a directory tree under a destination and skips every entry whose relative path contains an exclude pattern (case-insensitive substring).
  - `CopyAssets` first empties the template's Assets folder, then copies either everything or each top-level selection.
- **String helpers.** `RelativeFromProject`, `SanitizeFolderName` and `EscapeJson`.

## Model of the environment

- Case-insensitive comparison (`StringComparison.OrdinalIgnoreCase`) is ASCII folding to upper case (`Text.Fold`). `EqCI`, `StartsWithCI`, `ContainsCI` and the ordering `LeqCI` are built on it.
- Paths are strings with '/' as the separator. `Path.Combine(a, b)` is `a + "/" + b`.
- The fully qualified project root and the platform's invalid-file-name characters are parameters.
- The disk the window reads is modelled in two ways:
  - a `DirTree` value, the directory listing walked by the tree builders;
  - a map from project-relative path to `Entry` (`Dir` or `File(bytes)`), which is what gets copied.
- The destination is a `FileCopy.FileStore` object whose `entries` map the copy methods update in place.
- `CopyDirectoryFiltered` is two loops, directories first and then files. Each loop is a method with invariants, proved equal to the map equation `CopyResult`.
- `CopyAssets` is proved equal to `CopyAssetsResult`. The lemmas about both say what lands in the template and what is left untouched.
- The C# `HashSet` of selected paths, built with `StringComparer.OrdinalIgnoreCase`, is a sequence that keeps the first spelling of each case-insensitive class (`Selection.SelectedSet`).
- `AssetNode` is a datatype: the tree is never changed once built.

## Model

| member | source | states |
|---|---|---|
| Text.Fold | Packages/com.mame2an.vccprojecttemplatebuilder/Editor/VCCProjectTemplateBuilderWindow.cs:520 | case folding changes exactly the lower-case ASCII letters and never produces or removes '/' |
| Text.SlashForm | Packages/com.mame2an.vccprojecttemplatebuilder/Editor/VCCProjectTemplateBuilderWindow.cs:516 | `Replace("\\", "/")` keeps the length, maps each '\\' to '/', leaves every other character and leaves no '\\' |
| Text.TrimEndSlash | Packages/com.mame2an.vccprojecttemplatebuilder/Editor/VCCProjectTemplateBuilderWindow.cs:516 | `TrimEnd('/')` yields a prefix not ending in '/' and drops only '/' characters |
| Text.TrimStart | Packages/com.mame2an.vccprojecttemplatebuilder/Editor/VCCProjectTemplateBuilderWindow.cs:665 | `TrimStart(cs)` yields a suffix not starting with a member of `cs` and drops only members of `cs` |
| Text.TrimStartWhiteSpace | Packages/com.mame2an.vccprojecttemplatebuilder/Editor/VCCProjectTemplateBuilderWindow.cs:655 | the leading part of `Trim()` drops exactly the leading white space |
| Text.TrimEndWhiteSpace | Packages/com.mame2an.vccprojecttemplatebuilder/Editor/VCCProjectTemplateBuilderWindow.cs:655 | the trailing part of `Trim()` drops exactly the trailing white space |
| Text.ReplaceChar | Packages/com.mame2an.vccprojecttemplatebuilder/Editor/VCCProjectTemplateBuilderWindow.cs:659 | ordinal one-character `Replace` removes every occurrence when the replacement lacks it, and is the identity when there is none |
| Text.StartsWithCI | Packages/com.mame2an.vccprojecttemplatebuilder/Editor/VCCProjectTemplateBuilderWindow.cs:521 | `StartsWith(p, OrdinalIgnoreCase)`: `p` is no longer than `s` and agrees with its first `|p|` characters after folding |
| Text.EqCI | Packages/com.mame2an.vccprojecttemplatebuilder/Editor/VCCProjectTemplateBuilderWindow.cs:516 | `Equals(b, OrdinalIgnoreCase)`, the comparer of the selected set: the same length and the same characters after folding |
| Text.ContainsCI | Packages/com.mame2an.vccprojecttemplatebuilder/Editor/VCCProjectTemplateBuilderWindow.cs:613 | `IndexOf(p, OrdinalIgnoreCase) >= 0`: some position of `s` starts with `p` up to case, so an empty `p` is always found |
| Text.IsWhiteSpace | Packages/com.mame2an.vccprojecttemplatebuilder/Editor/VCCProjectTemplateBuilderWindow.cs:557 | `char.IsWhiteSpace` on the ASCII and Latin-1 range, the test behind `IsNullOrWhiteSpace` and `Trim()` |
| Text.Trim | Packages/com.mame2an.vccprojecttemplatebuilder/Editor/VCCProjectTemplateBuilderWindow.cs:655 | `Trim()`: the trailing white space is dropped after the leading white space |
| Text.LeqCI | Packages/com.mame2an.vccprojecttemplatebuilder/Editor/VCCProjectTemplateBuilderWindow.cs:331 | the order of `StringComparer.OrdinalIgnoreCase`: lexicographic on folded characters, a prefix before its extensions |
| Text.EqCIRefl | Packages/com.mame2an.vccprojecttemplatebuilder/Editor/VCCProjectTemplateBuilderWindow.cs:515 | case-insensitive equality is reflexive |
| Text.EqCISymm | Packages/com.mame2an.vccprojecttemplatebuilder/Editor/VCCProjectTemplateBuilderWindow.cs:515 | case-insensitive equality is symmetric |
| Text.StartsWithCITrans | Packages/com.mame2an.vccprojecttemplatebuilder/Editor/VCCProjectTemplateBuilderWindow.cs:521 | case-insensitive prefix is transitive |
| Text.CountSlashFold | Packages/com.mame2an.vccprojecttemplatebuilder/Editor/VCCProjectTemplateBuilderWindow.cs:522 | case-insensitively equal strings have the same '/' count (depth) |
| Text.LeqCITotal | Packages/com.mame2an.vccprojecttemplatebuilder/Editor/VCCProjectTemplateBuilderWindow.cs:331 | the OrdinalIgnoreCase order used by `Sort` is total |
| Text.LeqCITrans | Packages/com.mame2an.vccprojecttemplatebuilder/Editor/VCCProjectTemplateBuilderWindow.cs:331 | that order is transitive |
| Text.ContainsCIExtend | Packages/com.mame2an.vccprojecttemplatebuilder/Editor/VCCProjectTemplateBuilderWindow.cs:613 | a pattern found in a path is found in every extension of it |
| Text.ContainsCISelf | Packages/com.mame2an.vccprojecttemplatebuilder/Editor/VCCProjectTemplateBuilderWindow.cs:613 | every string contains itself |
| Paths.Normalize | Packages/com.mame2an.vccprojecttemplatebuilder/Editor/VCCProjectTemplateBuilderWindow.cs:516 | the normal form has no '\\' and no trailing '/' |
| Paths.NormalizeIsNormal | Packages/com.mame2an.vccprojecttemplatebuilder/Editor/VCCProjectTemplateBuilderWindow.cs:558 | `Normalize` always yields a normal path |
| Paths.NormalizeIdempotent | Packages/com.mame2an.vccprojecttemplatebuilder/Editor/VCCProjectTemplateBuilderWindow.cs:558 | normalising twice is normalising once |
| Paths.NormalizeFixesNormal | Packages/com.mame2an.vccprojecttemplatebuilder/Editor/VCCProjectTemplateBuilderWindow.cs:558 | a normal path is its own normal form |
| Paths.Depth | Packages/com.mame2an.vccprojecttemplatebuilder/Editor/VCCProjectTemplateBuilderWindow.cs:522 | the number of '/' in a path, the key of `OrderBy` in the top-level filter and in CollapseSelections |
| Paths.IsUnder | Packages/com.mame2an.vccprojecttemplatebuilder/Editor/VCCProjectTemplateBuilderWindow.cs:521 | `p` lies strictly below `o`: it is longer and starts with `o + "/"` up to case (the definition the ancestor lemmas below are about) |
| Paths.IsUnderIrreflexive | Packages/com.mame2an.vccprojecttemplatebuilder/Editor/VCCProjectTemplateBuilderWindow.cs:521 | no path lies under itself |
| Paths.IsUnderTrans | Packages/com.mame2an.vccprojecttemplatebuilder/Editor/VCCProjectTemplateBuilderWindow.cs:521 | the "starts with o + '/'" ancestor relation is transitive |
| Paths.IsUnderDepth | Packages/com.mame2an.vccprojecttemplatebuilder/Editor/VCCProjectTemplateBuilderWindow.cs:522 | an ancestor has strictly fewer '/' than its descendant |
| Paths.IsUnderRespectsEqCI | Packages/com.mame2an.vccprojecttemplatebuilder/Editor/VCCProjectTemplateBuilderWindow.cs:521 | the ancestor relation depends only on the paths up to case |
| Paths.IsUnderNotEqCI | Packages/com.mame2an.vccprojecttemplatebuilder/Editor/VCCProjectTemplateBuilderWindow.cs:521 | a path under another is not equal to it up to case |
| Paths.Excluded | Packages/com.mame2an.vccprojecttemplatebuilder/Editor/VCCProjectTemplateBuilderWindow.cs:613 | a relative path is excluded when some pattern occurs in it up to case (`IndexOf >= 0`), an empty pattern included |
| Paths.ExcludedExtends | Packages/com.mame2an.vccprojecttemplatebuilder/Editor/VCCProjectTemplateBuilderWindow.cs:613 | whatever excludes a directory's relative path excludes every path beneath it |
| Paths.EmptyPatternExcludesAll | Packages/com.mame2an.vccprojecttemplatebuilder/Editor/VCCProjectTemplateBuilderWindow.cs:613 | an empty pattern excludes every path, which is why 540 guards against it |
| Paths.Combine | Packages/com.mame2an.vccprojecttemplatebuilder/Editor/VCCProjectTemplateBuilderWindow.cs:547 | `Path.Combine(a, b)` for a relative `b`: `a`, one '/', then `b` |
| Paths.DirName | Packages/com.mame2an.vccprojecttemplatebuilder/Editor/VCCProjectTemplateBuilderWindow.cs:621 | `Path.GetDirectoryName` splits the path at its last '/' (the part after holds no '/'), and gives "" when there is no '/'; for a rooted path such as "/a" or "/" it gives "" where .NET gives "/" and null, a shape the copy never produces |
| Paths.RelativeFromProject | Packages/com.mame2an.vccprojecttemplatebuilder/Editor/VCCProjectTemplateBuilderWindow.cs:660-667 | the result never contains '\\' |
| Paths.RelativeTail | Packages/com.mame2an.vccprojecttemplatebuilder/Editor/VCCProjectTemplateBuilderWindow.cs:665 | when the '/'-form path starts with the root up to case, the result is the rest after the root with only leading '/' removed; otherwise the whole path |
| Paths.RelativeFromProjectOfChild | Packages/com.mame2an.vccprojecttemplatebuilder/Editor/VCCProjectTemplateBuilderWindow.cs:660-667 | the directory `root/rel` is reported as exactly `rel` |
| Paths.ReplaceInvalid | Packages/com.mame2an.vccprojecttemplatebuilder/Editor/VCCProjectTemplateBuilderWindow.cs:654 | each invalid character becomes '_' and every other character is kept |
| Paths.SanitizeFolderName | Packages/com.mame2an.vccprojecttemplatebuilder/Editor/VCCProjectTemplateBuilderWindow.cs:651-658 | invalid characters become '_', the result is trimmed, and "Template" replaces an empty result; its guarantees are the three lemmas below |
| Paths.SanitizeFolderNameValid | Packages/com.mame2an.vccprojecttemplatebuilder/Editor/VCCProjectTemplateBuilderWindow.cs:651-658 | the folder name is non-empty, holds no invalid character and has no white space at either end |
| Paths.SanitizeFolderNameFallback | Packages/com.mame2an.vccprojecttemplatebuilder/Editor/VCCProjectTemplateBuilderWindow.cs:656 | the fallback "Template" is used iff every character is white space after replacement |
| Paths.SanitizeFolderNameIdempotent | Packages/com.mame2an.vccprojecttemplatebuilder/Editor/VCCProjectTemplateBuilderWindow.cs:651-658 | sanitising a sanitised name changes nothing |
| Paths.TrimIsSlice | Packages/com.mame2an.vccprojecttemplatebuilder/Editor/VCCProjectTemplateBuilderWindow.cs:655 | `Trim()` yields a contiguous slice of its input |
| Paths.EscapeJson | Packages/com.mame2an.vccprojecttemplatebuilder/Editor/VCCProjectTemplateBuilderWindow.cs:659 | null gives ""; otherwise backslashes are doubled first and then quotes escaped; its guarantees are the two lemmas below |
| Paths.EscapeJsonPerChar | Packages/com.mame2an.vccprojecttemplatebuilder/Editor/VCCProjectTemplateBuilderWindow.cs:659 | the two sequential `Replace` calls escape each character independently: '\\' becomes two, '"' becomes '\\"' |
| Paths.EscapeJsonRoundTrip | Packages/com.mame2an.vccprojecttemplatebuilder/Editor/VCCProjectTemplateBuilderWindow.cs:659 | reading the escaped text back as a JSON string body yields the original string |
| Selection.NonBlank | Packages/com.mame2an.vccprojecttemplatebuilder/Editor/VCCProjectTemplateBuilderWindow.cs:557 | keeps exactly the entries that are not null-or-white-space |
| Selection.NormalizeAll | Packages/com.mame2an.vccprojecttemplatebuilder/Editor/VCCProjectTemplateBuilderWindow.cs:558 | normalises each entry in place |
| Selection.DistinctCI | Packages/com.mame2an.vccprojecttemplatebuilder/Editor/VCCProjectTemplateBuilderWindow.cs:559 | no two entries equal up to case; every entry is an input; every input is represented |
| Selection.DistinctCIFixes | Packages/com.mame2an.vccprojecttemplatebuilder/Editor/VCCProjectTemplateBuilderWindow.cs:559 | a list without case-insensitive duplicates is left unchanged |
| Selection.InsertByDepth | Packages/com.mame2an.vccprojecttemplatebuilder/Editor/VCCProjectTemplateBuilderWindow.cs:560 | insertion keeps the entries as a multiset plus the new one |
| Selection.SortByDepth | Packages/com.mame2an.vccprojecttemplatebuilder/Editor/VCCProjectTemplateBuilderWindow.cs:560 | the stable depth sort is a permutation |
| Selection.SortByDepthSorted | Packages/com.mame2an.vccprojecttemplatebuilder/Editor/VCCProjectTemplateBuilderWindow.cs:560 | its result is ordered by nondecreasing '/' count |
| Selection.SortByDepthFixes | Packages/com.mame2an.vccprojecttemplatebuilder/Editor/VCCProjectTemplateBuilderWindow.cs:560 | an already depth-ordered list is returned unchanged |
| Selection.SortByDepthNoDup | Packages/com.mame2an.vccprojecttemplatebuilder/Editor/VCCProjectTemplateBuilderWindow.cs:560 | sorting keeps the absence of case-insensitive duplicates |
| Selection.SortByDepthSameElements | Packages/com.mame2an.vccprojecttemplatebuilder/Editor/VCCProjectTemplateBuilderWindow.cs:560 | sorting keeps the same elements |
| Selection.InsertByDepthNoDup | Packages/com.mame2an.vccprojecttemplatebuilder/Editor/VCCProjectTemplateBuilderWindow.cs:560 | inserting a case-insensitively new entry keeps the list duplicate-free |
| Selection.IsTop | Packages/com.mame2an.vccprojecttemplatebuilder/Editor/VCCProjectTemplateBuilderWindow.cs:521 | no entry of the reference list is a proper ancestor of the path (`!selected.Any(o => s lies under o)`) |
| Selection.KeepTop | Packages/com.mame2an.vccprojecttemplatebuilder/Editor/VCCProjectTemplateBuilderWindow.cs:563-570 | keeps exactly the entries with no ancestor in the whole list |
| Selection.KeepTopSorted | Packages/com.mame2an.vccprojecttemplatebuilder/Editor/VCCProjectTemplateBuilderWindow.cs:563-570 | filtering keeps the depth order |
| Selection.KeepTopNoDup | Packages/com.mame2an.vccprojecttemplatebuilder/Editor/VCCProjectTemplateBuilderWindow.cs:563-570 | filtering keeps the absence of duplicates |
| Selection.KeepTopFixes | Packages/com.mame2an.vccprojecttemplatebuilder/Editor/VCCProjectTemplateBuilderWindow.cs:563-570 | a list of top entries is unchanged |
| Selection.TopAncestor | Packages/com.mame2an.vccprojecttemplatebuilder/Editor/VCCProjectTemplateBuilderWindow.cs:563-570 | every entry is a top entry or lies under one |
| Selection.GreedyStep | Packages/com.mame2an.vccprojecttemplatebuilder/Editor/VCCProjectTemplateBuilderWindow.cs:565-567 | in a shallowest-first list, the greedy test "has an ancestor among those kept so far" holds iff the entry has an ancestor anywhere in the list |
| Selection.KeepTopSnoc | Packages/com.mame2an.vccprojecttemplatebuilder/Editor/VCCProjectTemplateBuilderWindow.cs:568 | the kept list grows by the next entry exactly when that entry is top |
| Selection.PrepareSelections | Packages/com.mame2an.vccprojecttemplatebuilder/Editor/VCCProjectTemplateBuilderWindow.cs:556-561 | the list CollapseSelections iterates over: non-blank entries, normalised, deduplicated up to case, shallowest first |
| Selection.Collapsed | Packages/com.mame2an.vccprojecttemplatebuilder/Editor/VCCProjectTemplateBuilderWindow.cs:554-572 | what `CollapseSelections` returns: the prepared (non-blank, normalised, deduplicated, depth-sorted) list filtered to its top entries; its properties are the lemmas below |
| Selection.GreedyLoopStep | Packages/com.mame2an.vccprojecttemplatebuilder/Editor/VCCProjectTemplateBuilderWindow.cs:563-570 | one loop iteration turns the kept list for the first i entries into the one for i+1 |
| Selection.PreparedFacts | Packages/com.mame2an.vccprojecttemplatebuilder/Editor/VCCProjectTemplateBuilderWindow.cs:556-561 | the prepared list is duplicate-free and depth-sorted, with the same elements as the deduplicated list |
| Selection.CollapsedShape | Packages/com.mame2an.vccprojecttemplatebuilder/Editor/VCCProjectTemplateBuilderWindow.cs:554-572 | the output is duplicate-free up to case, depth-sorted, and no entry lies under another |
| Selection.CollapsedCovers | Packages/com.mame2an.vccprojecttemplatebuilder/Editor/VCCProjectTemplateBuilderWindow.cs:554-572 | every non-blank input, normalised, equals or lies under some output entry |
| Selection.PreparedRepresentative | Packages/com.mame2an.vccprojecttemplatebuilder/Editor/VCCProjectTemplateBuilderWindow.cs:556-561 | every non-blank input has a case-insensitive representative in the prepared list |
| Selection.CollapsedFromInputs | Packages/com.mame2an.vccprojecttemplatebuilder/Editor/VCCProjectTemplateBuilderWindow.cs:554-572 | every output entry is the normal form of a non-blank input |
| Selection.CollapsedProperties | Packages/com.mame2an.vccprojecttemplatebuilder/Editor/VCCProjectTemplateBuilderWindow.cs:554-572 | all of the above about `Collapsed`, in one statement |
| Selection.CollapseSelections | Packages/com.mame2an.vccprojecttemplatebuilder/Editor/VCCProjectTemplateBuilderWindow.cs:554-572 | the method's loop computes `Collapsed`: duplicate-free, depth-ordered, nesting-free, covering and drawn from the inputs |
| Selection.KeepTopGreedy | Packages/com.mame2an.vccprojecttemplatebuilder/Editor/VCCProjectTemplateBuilderWindow.cs:562-571 | the greedy loop over a depth-sorted list yields exactly its top entries, in order |
| Selection.CollapsedIdempotent | Packages/com.mame2an.vccprojecttemplatebuilder/Editor/VCCProjectTemplateBuilderWindow.cs:554-572 | collapsing twice equals collapsing once, provided no non-blank input normalises to blank |
| Selection.CollapsedEntryShape | Packages/com.mame2an.vccprojecttemplatebuilder/Editor/VCCProjectTemplateBuilderWindow.cs:554-572 | under the same proviso, every output entry is non-blank and normal |
| Selection.CollapsedFixes | Packages/com.mame2an.vccprojecttemplatebuilder/Editor/VCCProjectTemplateBuilderWindow.cs:554-572 | a normal, non-blank, duplicate-free, depth-sorted, nesting-free list collapses to itself |
| Selection.NonBlankFixes | Packages/com.mame2an.vccprojecttemplatebuilder/Editor/VCCProjectTemplateBuilderWindow.cs:557 | a list without blank entries is unchanged by the filter |
| Selection.NormalizeAllFixes | Packages/com.mame2an.vccprojecttemplatebuilder/Editor/VCCProjectTemplateBuilderWindow.cs:558 | a list of normal entries is unchanged by normalisation |
| Selection.SelectedSet | Packages/com.mame2an.vccprojecttemplatebuilder/Editor/VCCProjectTemplateBuilderWindow.cs:514-517 | the case-insensitive `HashSet` of normalised ticked entries, blank ones included, kept in first-occurrence order |
| Selection.TopSelected | Packages/com.mame2an.vccprojecttemplatebuilder/Editor/VCCProjectTemplateBuilderWindow.cs:520-523 | the inline filter keeps exactly the selected paths with no selected proper ancestor, shallowest first |
| Selection.TopSelectedAgreesWithCollapse | Packages/com.mame2an.vccprojecttemplatebuilder/Editor/VCCProjectTemplateBuilderWindow.cs:514-523 | on non-blank inputs, the inline top-level set equals the set `CollapseSelections` returns |
| Selection.ChildExcludesMembers | Packages/com.mame2an.vccprojecttemplatebuilder/Editor/VCCProjectTemplateBuilderWindow.cs:531-544 | an exclude entry exists exactly for each candidate strictly under the root that is not selected, as the candidate with the root cut off; each entry is non-empty and starts with '/' |
| Selection.ChildExcludesSound | Packages/com.mame2an.vccprojecttemplatebuilder/Editor/VCCProjectTemplateBuilderWindow.cs:531-544 | each exclude entry comes from such a candidate |
| Selection.ChildExcludesComplete | Packages/com.mame2an.vccprojecttemplatebuilder/Editor/VCCProjectTemplateBuilderWindow.cs:531-544 | each such candidate contributes its entry |
| Selection.ChildPatternSlash | Packages/com.mame2an.vccprojecttemplatebuilder/Editor/VCCProjectTemplateBuilderWindow.cs:539 | the cut-off candidate starts with '/' |
| Selection.ChildExcludes | Packages/com.mame2an.vccprojecttemplatebuilder/Editor/VCCProjectTemplateBuilderWindow.cs:533-543 | for each candidate strictly under the root and not selected, in candidate order, the candidate with the root cut off; characterised by `ChildExcludesMembers` |
| Selection.ExcludesFor | Packages/com.mame2an.vccprojecttemplatebuilder/Editor/VCCProjectTemplateBuilderWindow.cs:531-544 | the loop builds "/.git", "/.svn" followed by exactly those entries |
| Selection.ExcludeComplete | Packages/com.mame2an.vccprojecttemplatebuilder/Editor/VCCProjectTemplateBuilderWindow.cs:531-544 | an unselected candidate beneath the root is excluded from that root's copy |
| Selection.ChildPatternEqCI | Packages/com.mame2an.vccprojecttemplatebuilder/Editor/VCCProjectTemplateBuilderWindow.cs:539 | two candidates under one root give case-insensitively equal entries iff the candidates are equal up to case |
| Selection.SelectedHasNoOwnPattern | Packages/com.mame2an.vccprojecttemplatebuilder/Editor/VCCProjectTemplateBuilderWindow.cs:535-537 | a selected candidate never gets an exclude entry that equals its own |
| FileCopy.PatternsOf | Packages/com.mame2an.vccprojecttemplatebuilder/Editor/VCCProjectTemplateBuilderWindow.cs:609 | a null pattern list becomes the empty list; otherwise it is used as given |
| FileCopy.Target | Packages/com.mame2an.vccprojecttemplatebuilder/Editor/VCCProjectTemplateBuilderWindow.cs:614 | an entry lands at the destination followed by its relative path |
| FileCopy.AncestorsAndSelf | Packages/com.mame2an.vccprojecttemplatebuilder/Editor/VCCProjectTemplateBuilderWindow.cs:614 | `Directory.CreateDirectory` creates the path and only prefixes of it |
| FileCopy.WithDirs | Packages/com.mame2an.vccprojecttemplatebuilder/Editor/VCCProjectTemplateBuilderWindow.cs:614 | creating directories adds exactly the missing paths as directories and keeps every existing entry |
| FileCopy.WithDirsTwice | Packages/com.mame2an.vccprojecttemplatebuilder/Editor/VCCProjectTemplateBuilderWindow.cs:614 | creating two sets of directories in turn is creating their union |
| FileCopy.CreateDir | Packages/com.mame2an.vccprojecttemplatebuilder/Editor/VCCProjectTemplateBuilderWindow.cs:614 | `Directory.CreateDirectory(p)`: `p` and every missing ancestor become directories, existing entries are kept |
| FileCopy.DeleteTree | Packages/com.mame2an.vccprojecttemplatebuilder/Editor/VCCProjectTemplateBuilderWindow.cs:499 | `FileUtil.DeleteFileOrDirectory` removes the path and everything beneath it and keeps the rest |
| FileCopy.FilesWritten | Packages/com.mame2an.vccprojecttemplatebuilder/Editor/VCCProjectTemplateBuilderWindow.cs:621 | the written files are exactly the targets of the copied source files |
| FileCopy.FilesWrittenAt | Packages/com.mame2an.vccprojecttemplatebuilder/Editor/VCCProjectTemplateBuilderWindow.cs:621 | each copied file's target holds that file's contents |
| FileCopy.CopyResult | Packages/com.mame2an.vccprojecttemplatebuilder/Editor/VCCProjectTemplateBuilderWindow.cs:607-624 | the destination after the copy: every non-excluded directory's target and its ancestors, then every non-excluded file's parents, exist, and each such file's target holds its contents; characterised by the Copy* lemmas below |
| FileCopy.FileStore.constructor | Packages/com.mame2an.vccprojecttemplatebuilder/Editor/VCCProjectTemplateBuilderWindow.cs:607 | a store starts with the given entries |
| FileCopy.FileStore.DirectoryExists | Packages/com.mame2an.vccprojecttemplatebuilder/Editor/VCCProjectTemplateBuilderWindow.cs:498 | `Directory.Exists` holds exactly for directory entries |
| FileCopy.FileStore.CreateDirectory | Packages/com.mame2an.vccprojecttemplatebuilder/Editor/VCCProjectTemplateBuilderWindow.cs:614 | creates the path and its missing ancestors and keeps every existing entry |
| FileCopy.FileStore.CopyFile | Packages/com.mame2an.vccprojecttemplatebuilder/Editor/VCCProjectTemplateBuilderWindow.cs:621 | `File.Copy(..., overwrite: true)` sets the target to the file's contents, whatever was there |
| FileCopy.FileStore.DeleteFileOrDirectory | Packages/com.mame2an.vccprojecttemplatebuilder/Editor/VCCProjectTemplateBuilderWindow.cs:499 | the store after deletion is `DeleteTree` |
| FileCopy.FileStore.CopyDirectoryFiltered | Packages/com.mame2an.vccprojecttemplatebuilder/Editor/VCCProjectTemplateBuilderWindow.cs:607-624 | the store after the copy is `CopyResult` of the store before |
| FileCopy.FileStore.CopyDirectories | Packages/com.mame2an.vccprojecttemplatebuilder/Editor/VCCProjectTemplateBuilderWindow.cs:610-615 | the directory loop creates every ancestor-or-self of each non-excluded directory's target and nothing else |
| FileCopy.FileStore.CopyFiles | Packages/com.mame2an.vccprojecttemplatebuilder/Editor/VCCProjectTemplateBuilderWindow.cs:616-623 | the file loop creates each non-excluded file's parents and writes the file there |
| FileCopy.DirsCreatedStep | Packages/com.mame2an.vccprojecttemplatebuilder/Editor/VCCProjectTemplateBuilderWindow.cs:612-614 | one directory step adds exactly its target's ancestors, or nothing when excluded |
| FileCopy.DirLoopStep | Packages/com.mame2an.vccprojecttemplatebuilder/Editor/VCCProjectTemplateBuilderWindow.cs:611-615 | one pass of the directory loop keeps its invariant |
| FileCopy.DirsCreatedAll | Packages/com.mame2an.vccprojecttemplatebuilder/Editor/VCCProjectTemplateBuilderWindow.cs:610-615 | at loop exit the directories of the whole source have been handled |
| FileCopy.FilesAll | Packages/com.mame2an.vccprojecttemplatebuilder/Editor/VCCProjectTemplateBuilderWindow.cs:616-623 | at loop exit the files of the whole source have been handled |
| FileCopy.FileLoopStep | Packages/com.mame2an.vccprojecttemplatebuilder/Editor/VCCProjectTemplateBuilderWindow.cs:617-622 | one pass of the file loop keeps its invariant |
| FileCopy.FileSkip | Packages/com.mame2an.vccprojecttemplatebuilder/Editor/VCCProjectTemplateBuilderWindow.cs:619 | an excluded file adds nothing |
| FileCopy.ParentsStep | Packages/com.mame2an.vccprojecttemplatebuilder/Editor/VCCProjectTemplateBuilderWindow.cs:621 | a copied file adds exactly its parent's ancestors |
| FileCopy.WrittenStep | Packages/com.mame2an.vccprojecttemplatebuilder/Editor/VCCProjectTemplateBuilderWindow.cs:622 | a copied file adds exactly its own target |
| FileCopy.DirsThenWrite | Packages/com.mame2an.vccprojecttemplatebuilder/Editor/VCCProjectTemplateBuilderWindow.cs:621-622 | creating parents and then writing commutes with the accumulated map |
| FileCopy.FileStep | Packages/com.mame2an.vccprojecttemplatebuilder/Editor/VCCProjectTemplateBuilderWindow.cs:620-622 | one copied file moves the store from the state for the files so far to the state including it |
| FileCopy.ExcludedPrefix | Packages/com.mame2an.vccprojecttemplatebuilder/Editor/VCCProjectTemplateBuilderWindow.cs:613 | if a prefix of a path is excluded, so is the path |
| FileCopy.DirNamePrefix | Packages/com.mame2an.vccprojecttemplatebuilder/Editor/VCCProjectTemplateBuilderWindow.cs:621 | a parent directory is a prefix of the path |
| FileCopy.PrefixOfCopied | Packages/com.mame2an.vccprojecttemplatebuilder/Editor/VCCProjectTemplateBuilderWindow.cs:614 | every prefix of a copied target is on the way to the destination or beneath it and not excluded |
| FileCopy.ParentTouched | Packages/com.mame2an.vccprojecttemplatebuilder/Editor/VCCProjectTemplateBuilderWindow.cs:621 | parents created by the file loop lie on the way to the destination or beneath it and are not excluded |
| FileCopy.DirTouched | Packages/com.mame2an.vccprojecttemplatebuilder/Editor/VCCProjectTemplateBuilderWindow.cs:614 | the same for directories created by the directory loop |
| FileCopy.FileTouched | Packages/com.mame2an.vccprojecttemplatebuilder/Editor/VCCProjectTemplateBuilderWindow.cs:622 | each written target is beneath the destination, not excluded, and comes from a source file |
| FileCopy.CopyTouches | Packages/com.mame2an.vccprojecttemplatebuilder/Editor/VCCProjectTemplateBuilderWindow.cs:607-624 | the copy touches only the destination, its ancestors and non-excluded paths beneath it |
| FileCopy.CopyFrame | Packages/com.mame2an.vccprojecttemplatebuilder/Editor/VCCProjectTemplateBuilderWindow.cs:607-624 | any other path keeps its presence and contents |
| FileCopy.CopySkipsExcluded | Packages/com.mame2an.vccprojecttemplatebuilder/Editor/VCCProjectTemplateBuilderWindow.cs:613-619 | an excluded entry's target keeps its previous state |
| FileCopy.CopyWritesFile | Packages/com.mame2an.vccprojecttemplatebuilder/Editor/VCCProjectTemplateBuilderWindow.cs:617-622 | a non-excluded file lands at its target with its contents, overwriting |
| FileCopy.CopyCreatesDirectory | Packages/com.mame2an.vccprojecttemplatebuilder/Editor/VCCProjectTemplateBuilderWindow.cs:611-615 | a non-excluded directory exists at its target, and an existing entry there is kept |
| FileCopy.AncestorsOfDirName | Packages/com.mame2an.vccprojecttemplatebuilder/Editor/VCCProjectTemplateBuilderWindow.cs:621 | the parent's ancestors are among the path's |
| FileCopy.CopyCreatesParents | Packages/com.mame2an.vccprojecttemplatebuilder/Editor/VCCProjectTemplateBuilderWindow.cs:614-621 | every ancestor of a non-excluded entry's target exists afterwards |
| FileCopy.CopyWithoutPatterns | Packages/com.mame2an.vccprojecttemplatebuilder/Editor/VCCProjectTemplateBuilderWindow.cs:609 | with a null pattern list every entry lands at its target and every file is copied |
| FileCopy.ExcludedDirHidesSubtree | Packages/com.mame2an.vccprojecttemplatebuilder/Editor/VCCProjectTemplateBuilderWindow.cs:611-622 | everything beneath an excluded directory is excluded too, and its target keeps its presence and, when it existed, its contents |
| AssetTree.AddChildren | Packages/com.mame2an.vccprojecttemplatebuilder/Editor/VCCProjectTemplateBuilderWindow.cs:35-52 | the recursive walk returns `Children`: visible subdirectories in listing order, each with its subtree, nothing beyond the depth bound |
| AssetTree.BuildAssetsTree | Packages/com.mame2an.vccprojecttemplatebuilder/Editor/VCCProjectTemplateBuilderWindow.cs:29-56 | the root is "Assets", and it has no children when the Assets folder is missing |
| AssetTree.Hidden | Packages/com.mame2an.vccprojecttemplatebuilder/Editor/VCCProjectTemplateBuilderWindow.cs:41 | `name.StartsWith(".")`, taken as an ordinal test of the first character: such folders are skipped |
| AssetTree.Children | Packages/com.mame2an.vccprojecttemplatebuilder/Editor/VCCProjectTemplateBuilderWindow.cs:35-52 | the nodes AddChildren attaches: nothing beyond `depth`, else one node per visible subfolder in listing order with its relative path and its own children one level deeper |
| AssetTree.AssetsTree | Packages/com.mame2an.vccprojecttemplatebuilder/Editor/VCCProjectTemplateBuilderWindow.cs:29-56 | the tree `BuildAssetsTree` returns: an "Assets" root, childless when the folder is missing, else with `Children` from depth 1 |
| AssetTree.AllVisibleAppend | Packages/com.mame2an.vccprojecttemplatebuilder/Editor/VCCProjectTemplateBuilderWindow.cs:41 | visibility is preserved by concatenation |
| AssetTree.WithinDepthAppend | Packages/com.mame2an.vccprojecttemplatebuilder/Editor/VCCProjectTemplateBuilderWindow.cs:37 | the depth bound is preserved by concatenation |
| AssetTree.ChildrenVisible | Packages/com.mame2an.vccprojecttemplatebuilder/Editor/VCCProjectTemplateBuilderWindow.cs:41 | no node's name starts with '.' |
| AssetTree.ChildrenWithinDepth | Packages/com.mame2an.vccprojecttemplatebuilder/Editor/VCCProjectTemplateBuilderWindow.cs:37 | no node lies deeper than the bound |
| AssetTree.AssetsTreeShape | Packages/com.mame2an.vccprojecttemplatebuilder/Editor/VCCProjectTemplateBuilderWindow.cs:29-56 | no node of the tree is hidden and none lies deeper than `depth` |
| AssetTree.ValidNamesInit | Packages/com.mame2an.vccprojecttemplatebuilder/Editor/VCCProjectTemplateBuilderWindow.cs:39 | well-formed listings stay well-formed when cut |
| AssetTree.PathsUnderAppend | Packages/com.mame2an.vccprojecttemplatebuilder/Editor/VCCProjectTemplateBuilderWindow.cs:46 | path nesting is preserved by concatenation |
| AssetTree.ChildRelPath | Packages/com.mame2an.vccprojecttemplatebuilder/Editor/VCCProjectTemplateBuilderWindow.cs:46 | a subfolder `name` of `rel` is reported as `rel/name` |
| AssetTree.ChildNodePaths | Packages/com.mame2an.vccprojecttemplatebuilder/Editor/VCCProjectTemplateBuilderWindow.cs:43-47 | one node's relPath and its children's lie under the parent's relPath |
| AssetTree.ChildrenPaths | Packages/com.mame2an.vccprojecttemplatebuilder/Editor/VCCProjectTemplateBuilderWindow.cs:35-52 | every node's relPath is its parent's relPath + "/" + its name |
| AssetTree.AssetsTreePaths | Packages/com.mame2an.vccprojecttemplatebuilder/Editor/VCCProjectTemplateBuilderWindow.cs:29-56 | every node of the tree has its path relative to the project, under "Assets" |
| AssetTree.RelPaths | Packages/com.mame2an.vccprojecttemplatebuilder/Editor/VCCProjectTemplateBuilderWindow.cs:317-328 | the relative paths of a list of nodes and their descendants, each node before its children, as AddDirs appends them |
| AssetTree.AddDirs | Packages/com.mame2an.vccprojecttemplatebuilder/Editor/VCCProjectTemplateBuilderWindow.cs:317-328 | the walk lists exactly the relPaths of the depth-bounded tree, node before children |
| AssetTree.InsertCI | Packages/com.mame2an.vccprojecttemplatebuilder/Editor/VCCProjectTemplateBuilderWindow.cs:331 | insertion keeps the entries as a multiset plus the new one |
| AssetTree.SortCI | Packages/com.mame2an.vccprojecttemplatebuilder/Editor/VCCProjectTemplateBuilderWindow.cs:331 | the sort is a permutation |
| AssetTree.SortedCICons | Packages/com.mame2an.vccprojecttemplatebuilder/Editor/VCCProjectTemplateBuilderWindow.cs:331 | a smallest element in front of a sorted list gives a sorted list |
| AssetTree.InsertCIBound | Packages/com.mame2an.vccprojecttemplatebuilder/Editor/VCCProjectTemplateBuilderWindow.cs:331 | insertion keeps a lower bound |
| AssetTree.InsertCISorted | Packages/com.mame2an.vccprojecttemplatebuilder/Editor/VCCProjectTemplateBuilderWindow.cs:331 | insertion into a sorted list keeps it sorted |
| AssetTree.SortCISorted | Packages/com.mame2an.vccprojecttemplatebuilder/Editor/VCCProjectTemplateBuilderWindow.cs:331 | the result is sorted case-insensitively |
| AssetTree.TopFolders | Packages/com.mame2an.vccprojecttemplatebuilder/Editor/VCCProjectTemplateBuilderWindow.cs:104-109 | the folders RefreshAssetFolderCandidates adds: visible subfolders of Assets not named Editor up to case, as project-relative paths in listing order |
| AssetTree.FolderCandidates | Packages/com.mame2an.vccprojecttemplatebuilder/Editor/VCCProjectTemplateBuilderWindow.cs:101-110 | the refreshed selection: nothing when Assets is missing, else the visible first-level folders not named Editor, in listing order |
| AssetTree.GetAssetsRootSubfolders | Packages/com.mame2an.vccprojecttemplatebuilder/Editor/VCCProjectTemplateBuilderWindow.cs:310-333 | the result is exactly the non-root relPaths of `BuildAssetsTree(2)`, as a multiset, sorted case-insensitively |
| AssetTree.TopFoldersAreTreeRoots | Packages/com.mame2an.vccprojecttemplatebuilder/Editor/VCCProjectTemplateBuilderWindow.cs:99-110 | the refreshed folders are exactly the first-level tree nodes not named Editor (up to case) |
| AssetTree.FolderCandidatesAreTreeRoots | Packages/com.mame2an.vccprojecttemplatebuilder/Editor/VCCProjectTemplateBuilderWindow.cs:99-110 | the same, including the case where Assets is missing and the list stays empty |
| TemplateBuilder.RemoveFirst | Packages/com.mame2an.vccprojecttemplatebuilder/Editor/VCCProjectTemplateBuilderWindow.cs:781 | `List.Remove(x)`: the first entry equal to `x` (ordinal) is removed, the list is unchanged when there is none |
| TemplateBuilder.RemoveFirstCount | Packages/com.mame2an.vccprojecttemplatebuilder/Editor/VCCProjectTemplateBuilderWindow.cs:781 | `List.Remove` takes away one occurrence, or none when absent |
| TemplateBuilder.Without | Packages/com.mame2an.vccprojecttemplatebuilder/Editor/VCCProjectTemplateBuilderWindow.cs:781 | removing a set of paths keeps exactly the other entries |
| TemplateBuilder.WithSelected | Packages/com.mame2an.vccprojecttemplatebuilder/Editor/VCCProjectTemplateBuilderWindow.cs:773-783 | the list after SetSelected: ticking appends the path when it is absent, unticking removes its first occurrence |
| TemplateBuilder.SelectOn | Packages/com.mame2an.vccprojecttemplatebuilder/Editor/VCCProjectTemplateBuilderWindow.cs:775-778 | ticking adds the path only when absent and keeps the list duplicate-free |
| TemplateBuilder.SelectOff | Packages/com.mame2an.vccprojecttemplatebuilder/Editor/VCCProjectTemplateBuilderWindow.cs:779-782 | unticking removes only the first occurrence and keeps the rest in order |
| TemplateBuilder.RemoveFirstAt | Packages/com.mame2an.vccprojecttemplatebuilder/Editor/VCCProjectTemplateBuilderWindow.cs:781 | removal cuts the first occurrence out at its index |
| TemplateBuilder.RemoveFirstNoDup | Packages/com.mame2an.vccprojecttemplatebuilder/Editor/VCCProjectTemplateBuilderWindow.cs:781 | on a duplicate-free list, removal is set difference |
| TemplateBuilder.WithoutNone | Packages/com.mame2an.vccprojecttemplatebuilder/Editor/VCCProjectTemplateBuilderWindow.cs:781 | removing absent paths changes nothing |
| TemplateBuilder.WithoutTwice | Packages/com.mame2an.vccprojecttemplatebuilder/Editor/VCCProjectTemplateBuilderWindow.cs:781 | removing one path and then others is removing them all |
| TemplateBuilder.SelectAll | Packages/com.mame2an.vccprojecttemplatebuilder/Editor/VCCProjectTemplateBuilderWindow.cs:785-789 | the list after SetSelected for each path of a sequence in turn |
| TemplateBuilder.SubtreePaths | Packages/com.mame2an.vccprojecttemplatebuilder/Editor/VCCProjectTemplateBuilderWindow.cs:785-789 | the relative paths ToggleWithChildren visits: the node, then its descendants in pre-order |
| TemplateBuilder.SelectAllAppend | Packages/com.mame2an.vccprojecttemplatebuilder/Editor/VCCProjectTemplateBuilderWindow.cs:785-789 | toggling two path lists in turn is toggling their concatenation |
| TemplateBuilder.SelectAllOn | Packages/com.mame2an.vccprojecttemplatebuilder/Editor/VCCProjectTemplateBuilderWindow.cs:785-789 | ticking a subtree keeps the old list as a prefix, in order; adds every path of the subtree and nothing else; keeps the list duplicate-free |
| TemplateBuilder.SelectAllOffCount | Packages/com.mame2an.vccprojecttemplatebuilder/Editor/VCCProjectTemplateBuilderWindow.cs:785-789 | unticking a subtree removes one occurrence per path |
| TemplateBuilder.SelectAllOff | Packages/com.mame2an.vccprojecttemplatebuilder/Editor/VCCProjectTemplateBuilderWindow.cs:785-789 | on a duplicate-free list, unticking a subtree removes exactly its paths |
| TemplateBuilder.SubtreePathsSnoc | Packages/com.mame2an.vccprojecttemplatebuilder/Editor/VCCProjectTemplateBuilderWindow.cs:788 | the subtree's paths are the node's path followed by each child's subtree in turn |
| TemplateBuilder.FoldAll | Packages/com.mame2an.vccprojecttemplatebuilder/Editor/VCCProjectTemplateBuilderWindow.cs:793-797 | subtree keys are set to `open`, other keys are kept |
| TemplateBuilder.FoldAllAppend | Packages/com.mame2an.vccprojecttemplatebuilder/Editor/VCCProjectTemplateBuilderWindow.cs:793-797 | two fold-out passes in turn are one pass over the concatenation |
| TemplateBuilder.SubTree | Packages/com.mame2an.vccprojecttemplatebuilder/Editor/VCCProjectTemplateBuilderWindow.cs:610-618 | what the recursive listings below a root find, keyed by the part after the root (which starts with '/') |
| TemplateBuilder.SubTreeAt | Packages/com.mame2an.vccprojecttemplatebuilder/Editor/VCCProjectTemplateBuilderWindow.cs:610-612 | the listing of a copy root holds each entry beneath it under its relative path, and nothing else |
| TemplateBuilder.SubTreeValid | Packages/com.mame2an.vccprojecttemplatebuilder/Editor/VCCProjectTemplateBuilderWindow.cs:612 | such a listing is a well-formed copy source (relative paths starting with one '/') |
| TemplateBuilder.ClearedAssets | Packages/com.mame2an.vccprojecttemplatebuilder/Editor/VCCProjectTemplateBuilderWindow.cs:497-500 | the template after its Assets folder is deleted (when it is a directory) and created again |
| TemplateBuilder.ClearedAssetsShape | Packages/com.mame2an.vccprojecttemplatebuilder/Editor/VCCProjectTemplateBuilderWindow.cs:497-500 | the template's Assets folder exists afterwards, nothing beneath it survives when it was a directory, and nothing elsewhere changes |
| TemplateBuilder.CopyRoot | Packages/com.mame2an.vccprojecttemplatebuilder/Editor/VCCProjectTemplateBuilderWindow.cs:525-549 | one pass of the root loop: nothing when the root is not a directory, else its target's parent is created and the root copied there with its exclude list |
| TemplateBuilder.AttemptedRoots | Packages/com.mame2an.vccprojecttemplatebuilder/Editor/VCCProjectTemplateBuilderWindow.cs:525-528 | the roots the loop gets through: the longest prefix without a blank root, since `Path.GetFullPath` throws on a blank path |
| TemplateBuilder.AttemptedRootsAt | Packages/com.mame2an.vccprojecttemplatebuilder/Editor/VCCProjectTemplateBuilderWindow.cs:525-528 | a blank-free prefix that reaches the end or a blank root is the attempted one |
| TemplateBuilder.Candidates | Packages/com.mame2an.vccprojecttemplatebuilder/Editor/VCCProjectTemplateBuilderWindow.cs:509-511 | the candidates of the selection branch: GetAssetsRootSubfolders with each entry normalised |
| TemplateBuilder.CopyAssetsResult | Packages/com.mame2an.vccprojecttemplatebuilder/Editor/VCCProjectTemplateBuilderWindow.cs:496-552 | the template after CopyAssets: emptied Assets, then the copy-all result (nothing more when Assets is missing) or the root loop over the attempted top-level selections |
| TemplateBuilder.CombineRelations | Packages/com.mame2an.vccprojecttemplatebuilder/Editor/VCCProjectTemplateBuilderWindow.cs:547 | `Path.Combine` with the template directory preserves the nesting of relative paths |
| TemplateBuilder.BeneathIsUnder | Packages/com.mame2an.vccprojecttemplatebuilder/Editor/VCCProjectTemplateBuilderWindow.cs:521 | a path beneath another lies under it in the case-insensitive sense |
| TemplateBuilder.OnTheWayBeneath | Packages/com.mame2an.vccprojecttemplatebuilder/Editor/VCCProjectTemplateBuilderWindow.cs:548 | a path on the way to a file beneath a root is itself beneath the root |
| TemplateBuilder.BeneathBoth | Packages/com.mame2an.vccprojecttemplatebuilder/Editor/VCCProjectTemplateBuilderWindow.cs:521 | two roots above one path are equal or nested |
| TemplateBuilder.RootsApart | Packages/com.mame2an.vccprojecttemplatebuilder/Editor/VCCProjectTemplateBuilderWindow.cs:525-550 | a file beneath one top-level root is neither beneath nor on the way to another |
| TemplateBuilder.CopyRoots | Packages/com.mame2an.vccprojecttemplatebuilder/Editor/VCCProjectTemplateBuilderWindow.cs:525-550 | the selection-mode loop: `CopyRoot` for each root of the list in order |
| TemplateBuilder.CopyRootFrame | Packages/com.mame2an.vccprojecttemplatebuilder/Editor/VCCProjectTemplateBuilderWindow.cs:525-550 | one root's copy leaves every path outside it unchanged |
| TemplateBuilder.CopyRootsFrame | Packages/com.mame2an.vccprojecttemplatebuilder/Editor/VCCProjectTemplateBuilderWindow.cs:525-550 | the whole loop leaves such paths unchanged |
| TemplateBuilder.CopyRootsAppend | Packages/com.mame2an.vccprojecttemplatebuilder/Editor/VCCProjectTemplateBuilderWindow.cs:525-550 | the loop over a concatenation is the loop over each part in turn |
| TemplateBuilder.TopSelectedApart | Packages/com.mame2an.vccprojecttemplatebuilder/Editor/VCCProjectTemplateBuilderWindow.cs:520-523 | the top-level roots are pairwise distinct and none lies under another |
| TemplateBuilder.ApartPrefix | Packages/com.mame2an.vccprojecttemplatebuilder/Editor/VCCProjectTemplateBuilderWindow.cs:525-550 | the roots attempted before a failure are still apart |
| TemplateBuilder.BlankIsTop | Packages/com.mame2an.vccprojecttemplatebuilder/Editor/VCCProjectTemplateBuilderWindow.cs:520-523 | a blank selection has no selected ancestor, so it is always a top-level root |
| TemplateBuilder.EqCIBlank | Packages/com.mame2an.vccprojecttemplatebuilder/Editor/VCCProjectTemplateBuilderWindow.cs:514-517 | a path equal up to case to a blank one is blank |
| TemplateBuilder.BlankTopSelected | Packages/com.mame2an.vccprojecttemplatebuilder/Editor/VCCProjectTemplateBuilderWindow.cs:510-527 | a blank top-level root exists exactly when some ticked entry normalises to a blank string ("", "/", a backslash, white space) |
| TemplateBuilder.BlankRootFromEntry | Packages/com.mame2an.vccprojecttemplatebuilder/Editor/VCCProjectTemplateBuilderWindow.cs:510-527 | a blank top-level root comes from a ticked entry that normalises to a blank string |
| TemplateBuilder.BlankEntryGivesRoot | Packages/com.mame2an.vccprojecttemplatebuilder/Editor/VCCProjectTemplateBuilderWindow.cs:510-527 | a ticked entry that normalises to a blank string leaves a blank root among the top-level roots |
| TemplateBuilder.CopyRootWritesFile | Packages/com.mame2an.vccprojecttemplatebuilder/Editor/VCCProjectTemplateBuilderWindow.cs:547-549 | a non-excluded file beneath an existing root lands at the same relative place in the template with its contents |
| TemplateBuilder.BeneathSplit | Packages/com.mame2an.vccprojecttemplatebuilder/Editor/VCCProjectTemplateBuilderWindow.cs:526 | a path beneath a root is the root followed by '/' and the rest |
| TemplateBuilder.CopyRootsWritesFile | Packages/com.mame2an.vccprojecttemplatebuilder/Editor/VCCProjectTemplateBuilderWindow.cs:525-550 | that file survives the later roots' copies |
| TemplateBuilder.CopyRootsPrefixWrites | Packages/com.mame2an.vccprojecttemplatebuilder/Editor/VCCProjectTemplateBuilderWindow.cs:525-550 | the file is in place after the loop reaches its root |
| TemplateBuilder.PostRootsLeave | Packages/com.mame2an.vccprojecttemplatebuilder/Editor/VCCProjectTemplateBuilderWindow.cs:525-550 | the later roots do not touch that file |
| TemplateBuilder.CopyRootsSkipsUnselected | Packages/com.mame2an.vccprojecttemplatebuilder/Editor/VCCProjectTemplateBuilderWindow.cs:531-549 | nothing beneath an unselected candidate under a root is written by the loop over any prefix of the roots |
| TemplateBuilder.UnselectedChildExcluded | Packages/com.mame2an.vccprojecttemplatebuilder/Editor/VCCProjectTemplateBuilderWindow.cs:531-544 | every file beneath an unselected candidate under a root is excluded from that root's copy |
| TemplateBuilder.CopyAllWritesFile | Packages/com.mame2an.vccprojecttemplatebuilder/Editor/VCCProjectTemplateBuilderWindow.cs:502-505 | in copy-all mode, every Assets file outside .git/.svn lands in the template with its contents |
| TemplateBuilder.CopyAllSkipsExcluded | Packages/com.mame2an.vccprojecttemplatebuilder/Editor/VCCProjectTemplateBuilderWindow.cs:504 | in copy-all mode, .git/.svn paths keep their state after clearing |
| TemplateBuilder.CopySelectedWritesFile | Packages/com.mame2an.vccprojecttemplatebuilder/Editor/VCCProjectTemplateBuilderWindow.cs:507-550 | in selection mode, a non-excluded file beneath a top-level selection that the loop reaches and that exists lands in the template |
| TemplateBuilder.CopySelectedSkipsUnselected | Packages/com.mame2an.vccprojecttemplatebuilder/Editor/VCCProjectTemplateBuilderWindow.cs:531-549 | in selection mode, files beneath unselected candidates under any top-level selection are not copied |
| TemplateBuilder.CopySelectedFrame | Packages/com.mame2an.vccprojecttemplatebuilder/Editor/VCCProjectTemplateBuilderWindow.cs:507-550 | in selection mode, paths that no root touches keep their state after clearing |
| TemplateBuilder.VcsFoldersExcluded | Packages/com.mame2an.vccprojecttemplatebuilder/Editor/VCCProjectTemplateBuilderWindow.cs:531 | "/.git/config" and "/Scripts/.svn/entries" are excluded and "/Scripts/main.cs" is not |
| TemplateBuilder.ExcludeMatchesSubstrings | Packages/com.mame2an.vccprojecttemplatebuilder/Editor/VCCProjectTemplateBuilderWindow.cs:613-619 | substring matching: "/Bar" also excludes "/Bars/a.txt" and "/X/bar/y.txt" |
| TemplateBuilder.TickTwoSpellings | Packages/com.mame2an.vccprojecttemplatebuilder/Editor/VCCProjectTemplateBuilderWindow.cs:514-517 | ticking "assets/foo" next to "Assets/Foo" keeps both (case-sensitive `Contains`), but resolution sees one path |
| TemplateBuilder.ClearAssets | Packages/com.mame2an.vccprojecttemplatebuilder/Editor/VCCProjectTemplateBuilderWindow.cs:497-500 | clearing leaves `ClearedAssets` |
| TemplateBuilder.CopySelected | Packages/com.mame2an.vccprojecttemplatebuilder/Editor/VCCProjectTemplateBuilderWindow.cs:525-550 | the loop copies the attempted roots (`CopyRoots`) and succeeds iff no top-level root is blank |
| TemplateBuilder.TopFoldersSnoc | Packages/com.mame2an.vccprojecttemplatebuilder/Editor/VCCProjectTemplateBuilderWindow.cs:104-109 | one refresh iteration appends the folder iff it is visible and not Editor |
| TemplateBuilder.TemplateBuilderWindow.constructor | Packages/com.mame2an.vccprojecttemplatebuilder/Editor/VCCProjectTemplateBuilderWindow.cs:69-71 | a new window copies all assets, with an empty selection and no fold-outs |
| TemplateBuilder.TemplateBuilderWindow.SetSelected | Packages/com.mame2an.vccprojecttemplatebuilder/Editor/VCCProjectTemplateBuilderWindow.cs:773-783 | the selection becomes `WithSelected`, and nothing else changes |
| TemplateBuilder.TemplateBuilderWindow.ToggleWithChildren | Packages/com.mame2an.vccprojecttemplatebuilder/Editor/VCCProjectTemplateBuilderWindow.cs:785-789 | the selection becomes `SetSelected` applied to the node's subtree paths in pre-order |
| TemplateBuilder.TemplateBuilderWindow.GetFold | Packages/com.mame2an.vccprojecttemplatebuilder/Editor/VCCProjectTemplateBuilderWindow.cs:791 | a recorded key gives its value; an unknown key gives false |
| TemplateBuilder.TemplateBuilderWindow.SetAllFoldout | Packages/com.mame2an.vccprojecttemplatebuilder/Editor/VCCProjectTemplateBuilderWindow.cs:793-797 | `GetFold` is `open` on the subtree and unchanged elsewhere |
| TemplateBuilder.TemplateBuilderWindow.RefreshAssetFolderCandidates | Packages/com.mame2an.vccprojecttemplatebuilder/Editor/VCCProjectTemplateBuilderWindow.cs:101-110 | the selection becomes the visible first-level folders not named Editor, in listing order |
| TemplateBuilder.TemplateBuilderWindow.CopyAssets | Packages/com.mame2an.vccprojecttemplatebuilder/Editor/VCCProjectTemplateBuilderWindow.cs:496-552 | the template becomes `CopyAssetsResult`; in copy-all mode the call fails iff Assets is missing, in selection mode iff some ticked entry normalises to a blank string, after copying the roots before it |

## Left out

- User interface: `OnGUI`, `DrawNodeRecursive`, the folder selector and template list drawing, dialogs, `Open`/`OnEnable` and `EditorPrefs` persistence (`SavePrefs`/`LoadPrefs`).
- Template metadata: `ValidateInputs`, `GetUnityMajorVersion`, `WritePackageJson`, and the version and internal-name previews. These depend on the Unity version, the clock and file writes. `EscapeJson` is modelled on its own.
- `CopyProjectSettings`, which writes ProjectVersion.txt text.
- `CopyPackagesFolder` and `CopyVpmManifest`: thin wrappers around `CopyDirectoryFiltered` and `File.Copy`.
- `GetTemplatesRootPath` and the related output-path helpers, which depend on the platform and the environment.
- Deleting templates and `AssetDatabase.Refresh`.
- TemplateBuilder.TemplateBuilderWindow.CopyAssets: the failure at a blank top-level folder is modelled for the empty and white-space-only paths that `Path.GetFullPath` rejects on the Mono runtime; other paths it rejects (illegal characters) are not.
- Failures of the file system are not modelled:
  - `CreateDirectory` over an existing file;
  - `File.Copy` onto a directory;
  - permission errors and a full disk;
  - partial output after an exception.
  
  The failures modelled are a missing Assets folder in copy-all mode and a blank top-level folder in selection mode.
- `Path.GetFullPath` and `Path.Combine` with separators other than '/' or with rooted arguments: a selection that is an absolute path is not modelled. `Path.GetFullPath` also collapses repeated separators and "."/".." segments, so the source copies a hand-edited root such as "Assets//Foo", "Assets/./Foo" or "Assets/../Assets/Foo"; `TemplateBuilder.IsDir` needs the exact project key, so the model skips such a root. The project root is a parameter.
- Lookups in the project and destination maps are case-sensitive. A case-insensitive file system that treats "Assets/Foo" and "assets/foo" as one folder is not modelled.
- The order in which `Directory.GetDirectories` and `GetFiles` list entries. The copy is stated as a final map, which does not depend on that order. The tree walks take the order given by the `DirTree` value.
- The directory listing (`DirTree`) and the project map are independent inputs. The model does not require them to describe the same disk.
- Selection.SelectedSet: `HashSet` enumeration order is modelled as first-occurrence order. `TopSelected` is only claimed as a set and as depth-sorted, so the order within one depth is fixed by the model, not by the source. Which top-level folders of depth 0 are copied before a blank one stops the loop is fixed the same way.
- AssetTree.SortCI: `List.Sort` is not stable. The model fixes one order for case-insensitively equal names, which affects only the order of exclude entries and not what is copied.
- Selection.NonBlank: the selection is a list of strings, so the null entries `string.IsNullOrWhiteSpace` also drops are not modelled.
- AssetTree.Hidden: "starts with '.'" is an ordinal test of the first character; the culture-sensitive `StartsWith(".")` also ignores zero-width characters before the '.', which is not modelled.
- Text.Fold: `OrdinalIgnoreCase` folds only ASCII letters here. Text.IsWhiteSpace covers the ASCII and Latin-1 white space of `char.IsWhiteSpace`.
- Paths.SanitizeFolderNameValid: it assumes, as on real platforms, that the invalid-character set holds neither '_' nor a letter of "Template".
- Paths.RelativeFromProject: its own contract states only that no '\\' survives. The rest of its behaviour is stated by `Paths.RelativeTail` and `Paths.RelativeFromProjectOfChild`.
