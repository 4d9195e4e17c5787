# external-hdd-search, modelled in Dafny

The repository is a small PHP web page that searches a drive (an external
hard disk mounted as `E:/`, or a directory typed into a form) for files and
folders by name. Its logic sits at the top of three near-identical pages:

- `scanDirectory($dir)` walks the tree below `$dir` and flattens it into a
  list of `['path' => ..., 'type' => 'file'|'dir']` records, in pre-order,
  skipping `.` and `..` and anything that is neither a file nor a directory;
- `searchFilesAndDirs($directory, $searchTerm, $fullTextSearch)` keeps the
  records whose `basename` matches the term, ignoring case: `strcasecmp`
  equality in "full text" mode, `stripos` containment otherwise;
- `getFileSize($filePath)` formats a size as bytes, KB, MB or GB.

`index.php` and `index2.php` hold the same three functions (lines 3-70 are
identical), so they are modelled once; `index2.php` takes the directory from
the form and searches only when `is_dir` accepts it. `index3.php` keeps
files and directories in two lists, reports matching files before matching
directories, and counts the results of each kind.

The filesystem is a finite tree (`FileSystem.Node`): a directory lists its
children in the order `scandir` returns them, `.` and `..` may appear in a
listing, and `Other` stands for anything for which both `is_file` and
`is_dir` are false (including a path that does not exist). Each loop of the
PHP code is a Dafny method proved equal to a recursive specification
function (`TreeWalker.Scan`, `Search.Select`, `SplitSearch.ScanSplit`,
`SplitSearch.OfKind`), and the properties the pages rely on are lemmas about
those functions.

Modules, one file each:

- `paths.dfy` — `Paths`: the separator, path building, PHP `basename`, and
  "lies inside" on path strings;
- `casefold.dfy` — `Wrappers` (`Option`) and `CaseFold`: ASCII lower-casing,
  `strcasecmp`, `stripos`;
- `filesystem.dfy` — `FileSystem`: the tree, the scanned records, the
  removal of `.` and `..`;
- `walker.dfy` — `TreeWalker`: `scanDirectory` of index.php / index2.php
  and its pre-order and parentage properties;
- `search.dfy` — `Search`: `searchFilesAndDirs` and the request handling of
  index.php / index2.php;
- `split.dfy` — `SplitSearch`: the index3.php variants and the counting loop;
- `size.dfy` — `FileSize`: `getFileSize`.

## Model

| member | source | states |
|---|---|---|
| Paths.BasenameOfJoin | index.php:15 | `basename($dir . SEP . $item)` is `$item` for every non-empty item name without a separator, whatever `$dir` is |
| FileSystem.WithoutDots | index.php:12 | `array_diff` with `.` and `..` keeps exactly the listed nodes not named `.` or `..`, and never adds any |
| FileSystem.WithoutDotsKeepsOrder | index.php:12 | `array_diff` keeps every entry not named `.` or `..` exactly as many times as it is listed, drops every `.` and `..`, and keeps listing order (a subsequence of the listing) |
| CaseFold.StrCaseCmp | index.php:41 | the comparison is -1, 0 or 1, and is 0 exactly when the two strings are equal after ASCII lower-casing |
| CaseFold.StrCaseCmpAntisymmetric | index2.php:41 | a property of `strcasecmp` itself, which the search does not rely on (it tests only `=== 0`): swapping the operands negates the result |
| CaseFold.StrIPos | index.php:46 | `stripos` finds a position exactly when the lower-cased needle occurs in the lower-cased haystack; the position is an occurrence and no earlier position is |
| TreeWalker.ScanDirectory | index.php:3-27 | the loop-and-merge walk returns exactly `Scan(dir, n)`, the recursive pre-order flatten whose properties the lemmas below state |
| TreeWalker.ScanInside | index.php:7-26 | a root that is not a directory yields no record, and every record's path starts with the root followed by a separator |
| TreeWalker.ScanPreOrder | index.php:14-22 | on a tree with distinct, separator-free names: no path is listed twice, a directory's record precedes everything inside it, everything inside it follows as one contiguous block, and only directory records have anything inside them |
| TreeWalker.ScanParents | index.php:12-15 | every record's path is `parent . SEP . item` with `item` its basename, a name other than `.` and `..`; the parent is the root or a directory recorded earlier (that the item is listed in that parent is stated by `TreeWalker.ScanFromChildren`) |
| TreeWalker.ItemsAppend | index.php:14-21 | the items of a listing are scanned in listing order: the scan of `a + b` is the scan of `a` followed by the scan of `b` |
| TreeWalker.ChildListed | index.php:16-21 | item `k` contributes its records right after the records of the items listed before it (at position `|ScanItems(dir, children[..k])|`): a file its 'file' record; a directory its 'dir' record followed immediately by the whole scan of that directory |
| TreeWalker.SiblingOrder | index.php:14-21 | when item `k1` is listed before item `k2` and both give records, every record for `k1`'s path or inside it comes before `k2`'s record: a subtree comes whole before its later siblings |
| TreeWalker.ScanFromChildren | index.php:14-21 | sound converse of `ChildListed`: every record of the scan of a directory is the 'file' or 'dir' record of an item that directory lists (a file or directory, not `.` or `..`), or lies in the scan of such a listed directory; a root that is not a directory gives none |
| TreeWalker.SkippedChildAbsent | index.php:12-22 | `.`, `..` and an item that is neither file nor directory give no record, neither for themselves nor for any path inside them |
| Search.Matches | index.php:39-48 | exact mode matches exactly when the basename equals the term ignoring ASCII case; partial mode exactly when the lower-cased term occurs in the lower-cased basename |
| Search.SelectMembers | index2.php:39-48 | a record is a result exactly when it was scanned and its basename matches under the selected mode (sound and complete) |
| Search.SelectIsSubsequence | index.php:31-52 | the results are a subsequence of the scanned records: unchanged records, in scan order |
| Search.SearchFilesAndDirs | index.php:30-53 | the search loop returns exactly the scanned records whose basename matches, in scan order |
| Search.HandleSearch | index2.php:216-222 | the search runs exactly when the requested directory passes `is_dir`, and then returns the matching records of its scan |
| SplitSearch.ScanDirectorySplit | index3.php:3-23 | the two-list walk returns exactly `ScanSplit(dir, n)` |
| SplitSearch.ScanSplitPartition | index3.php:9-19 | `files` is exactly the 'file' records of index.php's pre-order scan and `dirs` exactly its 'dir' records, each in scan order |
| SplitSearch.ScanSplitKinds | index3.php:4-22 | a root that is not a directory gives two empty lists; every record in `files` is tagged 'file' and every record in `dirs` is tagged 'dir' |
| SplitSearch.OfKindMembers | index3.php:12-14 | the records of one kind are exactly the records of the list tagged with that kind |
| SplitSearch.KindPartitionMultiset | index3.php:9-19 | splitting a list by kind loses and duplicates no record |
| SplitSearch.SelectOfKind | index3.php:28-51 | filtering by name and filtering by kind commute |
| SplitSearch.SearchFilesAndDirsSplit | index3.php:25-53 | the two loops return the matching file records followed by the matching directory records, each in scan order |
| SplitSearch.SplitSearchMatchesSearch | index3.php:25-53 | files-then-dirs holds the same records as index.php's result, as a multiset, and no directory comes before a file |
| SplitSearch.SplitResultsMembers | index3.php:28-51 | a record is in index3.php's results exactly when it was scanned and its basename matches under the selected mode |
| SplitSearch.CountResults | index3.php:139-148 | `$fileCount` is the number of 'file' results, `$dirCount` the number of 'dir' results, and they add up to `count($results)` |
| SplitSearch.HandleSearchCounted | index3.php:136-148 | the search runs exactly when `is_dir` accepts the directory; the results are the matching file records followed by the matching directory records, each in scan order, so they equal index.php's as a multiset and put no directory before a file; they are counted by kind |
| FileSize.GetFileSize | index.php:56-70 | exact bytes exactly below 1024, with a numeral whose value is the size; otherwise the unit is the largest of 1024, 1048576, 1073741824 that the size reaches |
| FileSize.GetFileSizeMonotone | index2.php:61-69 | a larger size never gets a smaller unit, and never the exact bytes form when a smaller size does not |
| FileSize.DecimalValue | index3.php:57 | the numeral written for `$size . ' bytes'` denotes the size |
| FileSize.NumeralDecimal | index3.php:57 | every numeral without a leading zero is the one written for its value, so writing and reading numerals are inverse |
| FileSize.ExactTextInjective | index.php:61-62 | two sizes below 1024 get the same "N bytes" text only when they are equal |

## Left out

- HTML, CSS, JavaScript, the `$_GET` form handling and the `echo` rendering of results: presentation only. The request handlers take the directory, term and mode as parameters.
- download.php: HTTP headers and streaming a file, pure I/O.
- The real filesystem calls `is_dir`, `is_file` and `scandir` are replaced by the tree given as a parameter; the order `scandir` sorts a listing into is the given order of the children. `filesize` is the `size` of a file node: `FileSize.GetFileSize` takes that size as its argument, and `FileSize.FileSizeText` applies it to the file node a scanned 'file' record names (the pages call `getFileSize` only for 'file' records).
- FileSize.GetFileSize: sizes are unbounded naturals; on a 32-bit PHP build `filesize` can return a wrong or negative value for files of 2 GiB or more, which the model cannot show.
- A failing `scandir` on an unreadable directory is not modelled: the code does not handle it, and every listing is taken to succeed.
- Symbolic links: `is_dir` follows them and the code has no cycle guard, so a link loop is followed, path growing at each level, until the operating system refuses to resolve the path (too many links or too long a name); that item then counts as neither file nor directory and the walk returns a very long but finite list. A finite tree cannot express the loop itself.
- `DIRECTORY_SEPARATOR` is `/` (a POSIX host). On Windows it is `\` and `basename` also splits on `/`; that variant is not modelled.
- Case folding is ASCII only, as in PHP 8; locale-dependent folding of older PHP versions is not modelled.
- CaseFold.StrCaseCmp: returns -1, 0 or 1 as PHP 8.2 does; earlier versions return the difference of the first differing characters. Only the test `=== 0` is used, which both agree on.
- The search term is arbitrary: the code has no server-side guard against an empty term, only client-side checks (the HTML `required` attribute, and in index3.php lines 183-189 a JavaScript check of the trimmed directory and term), which a direct GET request bypasses; so in partial mode an empty term matches every record.
- CaseFold.StrIPos: counts the position in characters, while PHP's `stripos` counts bytes of the UTF-8 string; the search tests only `!== false`, on which the two agree (ASCII-only folding keeps containment the same on bytes and on characters).
- Skipped-subtree reporting, cancellation, worker pools, refusing to follow links and rejecting an empty term are not implemented by the code, so they are not modelled.
- FileSize.GetFileSize: the rounded amount `round($size / unit, 2)` and its float-to-string conversion are not modelled; only the branch taken (KB, MB or GB) and the exact "N bytes" form are. A failing `filesize` (which returns `false`) is not modelled either.
- TreeWalker.ScanPreOrder, TreeWalker.ScanParents, TreeWalker.SiblingOrder, TreeWalker.SkippedChildAbsent: stated for trees whose listings hold distinct names without a separator, as a real filesystem guarantees; the scan itself is defined for every tree.
