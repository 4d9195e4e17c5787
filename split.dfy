/** index3.php: the same walk, but `scanDirectory` keeps files and
    directories in two lists, `searchFilesAndDirs` reports the matching
    files before the matching directories, and the page counts both kinds. */
module SplitSearch {
  import opened CaseFold
  import opened Paths
  import opened FileSystem
  import opened TreeWalker
  import opened Search

  /** `['files' => [...], 'dirs' => [...]]`. */
  datatype Listing = Listing(files: seq<Entry>, dirs: seq<Entry>)

  /** What index3.php's `scanDirectory($dir)` returns when `$dir` names `n`. */
  function ScanSplit(dir: string, n: Node): Listing
    decreases n, 1
  {
    match n
    case Dir(_, cs) => ScanSplitItems(dir, cs)
    case _ => Listing([], [])
  }

  function ScanSplitItems(dir: string, cs: seq<Node>): Listing
    decreases cs, 0
  {
    if cs == [] then Listing([], [])
    else
      var before := ScanSplitItems(dir, cs[..|cs| - 1]);
      var block := SplitBlock(dir, cs[|cs| - 1]);
      Listing(before.files + block.files, before.dirs + block.dirs)
  }

  function SplitBlock(dir: string, c: Node): Listing
    decreases c, 2
  {
    if IsDot(c.name) then Listing([], [])
    else
      var path := Join(dir, c.name);
      match c
      case File(_, _) => Listing([Entry(path, FileKind)], [])
      case Dir(_, _) =>
        var below := ScanSplit(path, c);
        Listing(below.files, [Entry(path, DirKind)] + below.dirs)
      case Other(_) => Listing([], [])
  }

  /** index3.php lines 3-23: the loop appends each file's record to `files`,
      each directory's record to `dirs`, and then both lists of its recursive
      scan to the matching lists. */
  method ScanDirectorySplit(dir: string, n: Node) returns (filesAndDirs: Listing)
    ensures filesAndDirs == ScanSplit(dir, n)
    decreases n
  {
    filesAndDirs := Listing([], []);
    if n.Dir? {
      var dirContent := WithoutDots(n.children);
      var i := 0;
      while i < |dirContent|
        invariant 0 <= i <= |dirContent|
        invariant filesAndDirs.files == ScanSplitItems(dir, dirContent[..i]).files
        invariant filesAndDirs.dirs == ScanSplitItems(dir, dirContent[..i]).dirs
      {
        var item := dirContent[i];
        SplitItemsStep(dir, dirContent, i);
        assert !IsDot(item.name);
        ghost var before := filesAndDirs;
        ghost var block := SplitBlock(dir, item);
        var path := Join(dir, item.name);
        if item.File? {
          assert block == Listing([Entry(path, FileKind)], []);
          filesAndDirs := filesAndDirs.(files := filesAndDirs.files + [Entry(path, FileKind)]);
          assert filesAndDirs.dirs == before.dirs + block.dirs;
        } else if item.Dir? {
          assert block == Listing(ScanSplit(path, item).files, [Entry(path, DirKind)] + ScanSplit(path, item).dirs);
          filesAndDirs := filesAndDirs.(dirs := filesAndDirs.dirs + [Entry(path, DirKind)]);
          var below := ScanDirectorySplit(path, item);
          filesAndDirs := filesAndDirs.(files := filesAndDirs.files + below.files);
          filesAndDirs := filesAndDirs.(dirs := filesAndDirs.dirs + below.dirs);
          assert filesAndDirs.dirs == before.dirs + ([Entry(path, DirKind)] + below.dirs);
        } else {
          assert block == Listing([], []);
          assert before.files + block.files == before.files && before.dirs + block.dirs == before.dirs;
        }
        i := i + 1;
      }
      assert dirContent[..i] == dirContent;
      SplitItemsWithoutDots(dir, n.children);
    }
  }

  /** One more listed item appends its block to each list. */
  lemma SplitItemsStep(dir: string, cs: seq<Node>, i: nat)
    requires i < |cs|
    ensures ScanSplitItems(dir, cs[..i + 1])
         == Listing(ScanSplitItems(dir, cs[..i]).files + SplitBlock(dir, cs[i]).files,
                    ScanSplitItems(dir, cs[..i]).dirs + SplitBlock(dir, cs[i]).dirs)
  {
    assert cs[..i + 1][..i] == cs[..i];
  }

  lemma {:induction false} SplitItemsWithoutDots(dir: string, cs: seq<Node>)
    ensures ScanSplitItems(dir, WithoutDots(cs)) == ScanSplitItems(dir, cs)
    decreases cs
  {
    if cs != [] {
      var init, c := cs[..|cs| - 1], cs[|cs| - 1];
      SplitItemsWithoutDots(dir, init);
      var w := WithoutDots(init);
      if !IsDot(c.name) {
        assert WithoutDots(cs) == w + [c];
        assert (w + [c])[..|w|] == w;
        var before, block := ScanSplitItems(dir, w), SplitBlock(dir, c);
        assert ScanSplitItems(dir, w + [c]) == Listing(before.files + block.files, before.dirs + block.dirs);
      } else {
        assert WithoutDots(cs) == w;
      }
    }
  }

  // ---------------------------------------------------------------------
  // The two lists are the kind-partition of the single pre-order list.

  /** The records of `es` of kind `k`, in their order. */
  function OfKind(es: seq<Entry>, k: Kind): seq<Entry> {
    if es == [] then []
    else if es[|es| - 1].kind == k then OfKind(es[..|es| - 1], k) + [es[|es| - 1]]
    else OfKind(es[..|es| - 1], k)
  }

  lemma {:induction false} OfKindAppend(a: seq<Entry>, b: seq<Entry>, k: Kind)
    ensures OfKind(a + b, k) == OfKind(a, k) + OfKind(b, k)
    decreases |b|
  {
    if b != [] {
      var init := b[..|b| - 1];
      OfKindAppend(a, init, k);
      assert (a + b)[..|a + b| - 1] == a + init;
    } else {
      assert a + b == a;
    }
  }

  lemma {:induction false} SplitItemsPartition(dir: string, cs: seq<Node>)
    ensures ScanSplitItems(dir, cs)
         == Listing(OfKind(ScanItems(dir, cs), FileKind), OfKind(ScanItems(dir, cs), DirKind))
    decreases cs, 0
  {
    if cs != [] {
      var init, c := cs[..|cs| - 1], cs[|cs| - 1];
      var a, b := ScanItems(dir, init), Block(dir, c);
      SplitItemsPartition(dir, init);
      SplitBlockPartition(dir, c);
      OfKindAppend(a, b, FileKind);
      OfKindAppend(a, b, DirKind);
      assert ScanItems(dir, cs) == a + b;
    }
  }

  lemma {:induction false} SplitBlockPartition(dir: string, c: Node)
    ensures SplitBlock(dir, c) == Listing(OfKind(Block(dir, c), FileKind), OfKind(Block(dir, c), DirKind))
    decreases c, 1
  {
    if !IsDot(c.name) {
      var p := Join(dir, c.name);
      if c.Dir? {
        var h := Entry(p, DirKind);
        SplitItemsPartition(p, c.children);
        assert Scan(p, c) == ScanItems(p, c.children);
        assert ScanSplit(p, c) == ScanSplitItems(p, c.children);
        OfKindAppend([h], Scan(p, c), FileKind);
        OfKindAppend([h], Scan(p, c), DirKind);
        assert [h][..0] == [];
      } else if c.File? {
        assert [Entry(p, FileKind)][..0] == [];
      }
    }
  }

  /** index3.php lines 9-19: `files` is exactly the file records of the
      single pre-order scan and `dirs` exactly its directory records, each in
      scan order. */
  lemma ScanSplitPartition(dir: string, n: Node)
    ensures ScanSplit(dir, n).files == OfKind(Scan(dir, n), FileKind)
    ensures ScanSplit(dir, n).dirs == OfKind(Scan(dir, n), DirKind)
  {
    if n.Dir? {
      SplitItemsPartition(dir, n.children);
    }
  }

  /** index3.php lines 4-5, 12, 14 and 22: a root that is not a directory
      gives two empty lists; every record in `files` is tagged 'file' and
      every record in `dirs` is tagged 'dir'. */
  lemma ScanSplitKinds(dir: string, n: Node)
    ensures !n.Dir? ==> ScanSplit(dir, n) == Listing([], [])
    ensures forall e | e in ScanSplit(dir, n).files :: e.kind == FileKind
    ensures forall e | e in ScanSplit(dir, n).dirs :: e.kind == DirKind
  {
    ScanSplitPartition(dir, n);
    OfKindMembers(Scan(dir, n), FileKind);
    OfKindMembers(Scan(dir, n), DirKind);
  }

  /** Every record of `OfKind(es, k)` is a record of `es` of kind `k`, and
      every such record is kept. */
  lemma {:induction false} OfKindMembers(es: seq<Entry>, k: Kind)
    ensures forall e :: e in OfKind(es, k) <==> e in es && e.kind == k
  {
    if es != [] {
      OfKindMembers(es[..|es| - 1], k);
      assert es == es[..|es| - 1] + [es[|es| - 1]];
    }
  }

  /** Splitting by kind loses and duplicates nothing. */
  lemma {:induction false} KindPartitionMultiset(es: seq<Entry>)
    ensures multiset(OfKind(es, FileKind)) + multiset(OfKind(es, DirKind)) == multiset(es)
  {
    if es != [] {
      var init, e := es[..|es| - 1], es[|es| - 1];
      KindPartitionMultiset(init);
      var f, d := OfKind(init, FileKind), OfKind(init, DirKind);
      assert es == init + [e];
      assert multiset(es) == multiset(init) + multiset{e};
      if e.kind == FileKind {
        assert multiset(OfKind(es, FileKind)) == multiset(f) + multiset{e};
        assert OfKind(es, DirKind) == d;
      } else {
        assert OfKind(es, FileKind) == f;
        assert multiset(OfKind(es, DirKind)) == multiset(d) + multiset{e};
      }
    }
  }

  /** Filtering by name and by kind commute. */
  lemma {:induction false} SelectOfKind(es: seq<Entry>, k: Kind, term: string, exact: bool)
    ensures Select(OfKind(es, k), term, exact) == OfKind(Select(es, term, exact), k)
  {
    if es != [] {
      var init, e := es[..|es| - 1], es[|es| - 1];
      SelectOfKind(init, k, term, exact);
      var m := Matches(Basename(e.path), term, exact);
      var sel := Select(init, term, exact);
      OfKindAppend(sel, if m then [e] else [], k);
      if e.kind == k {
        var f := OfKind(init, k);
        assert (f + [e])[..|f|] == f;
        if m {
          assert [e][..0] == [];
        }
      } else if m {
        assert [e][..0] == [];
      }
    }
  }

  // ---------------------------------------------------------------------
  // Search and counts.

  /** index3.php lines 25-53: one loop over `files`, then one over `dirs`,
      each appending the records whose basename matches. The results are the
      file results of index.php's search followed by its directory results. */
  method SearchFilesAndDirsSplit(directory: string, root: Node, searchTerm: string, fullTextSearch: bool)
    returns (results: seq<Entry>)
    ensures results == OfKind(Select(Scan(directory, root), searchTerm, fullTextSearch), FileKind)
                     + OfKind(Select(Scan(directory, root), searchTerm, fullTextSearch), DirKind)
  {
    var filesAndDirs := ScanDirectorySplit(directory, root);
    var files, dirs := filesAndDirs.files, filesAndDirs.dirs;
    results := [];
    var i := 0;
    assert files[..i] == [];
    while i < |files|
      invariant 0 <= i <= |files|
      invariant results == Select(files[..i], searchTerm, fullTextSearch)
    {
      var item := files[i];
      SelectStep(files, i, searchTerm, fullTextSearch);
      if fullTextSearch {
        if StrCaseCmp(Basename(item.path), searchTerm) == 0 {
          results := results + [item];
        }
      } else {
        if StrIPos(Basename(item.path), searchTerm).Some? {
          results := results + [item];
        }
      }
      i := i + 1;
    }
    assert files[..i] == files;
    ghost var fileResults := results;
    i := 0;
    assert dirs[..i] == [];
    while i < |dirs|
      invariant 0 <= i <= |dirs|
      invariant results == fileResults + Select(dirs[..i], searchTerm, fullTextSearch)
    {
      var item := dirs[i];
      SelectStepAfter(fileResults, dirs, i, searchTerm, fullTextSearch);
      if fullTextSearch {
        if StrCaseCmp(Basename(item.path), searchTerm) == 0 {
          results := results + [item];
        }
      } else {
        if StrIPos(Basename(item.path), searchTerm).Some? {
          results := results + [item];
        }
      }
      i := i + 1;
    }
    assert dirs[..i] == dirs;
    SplitSelect(directory, root, searchTerm, fullTextSearch);
  }

  /** One more step of the second loop, behind the results of the first. */
  lemma SelectStepAfter(before: seq<Entry>, entries: seq<Entry>, i: nat, term: string, exact: bool)
    requires i < |entries|
    ensures before + Select(entries[..i + 1], term, exact)
         == before + Select(entries[..i], term, exact)
          + (if Matches(Basename(entries[i].path), term, exact) then [entries[i]] else [])
  {
    SelectStep(entries, i, term, exact);
  }

  /** Selecting from each list of the split scan selects the file and the
      directory records of the single scan's results. */
  lemma SplitSelect(directory: string, root: Node, term: string, exact: bool)
    ensures Select(ScanSplit(directory, root).files, term, exact)
         == OfKind(Select(Scan(directory, root), term, exact), FileKind)
    ensures Select(ScanSplit(directory, root).dirs, term, exact)
         == OfKind(Select(Scan(directory, root), term, exact), DirKind)
  {
    ScanSplitPartition(directory, root);
    SelectOfKind(Scan(directory, root), FileKind, term, exact);
    SelectOfKind(Scan(directory, root), DirKind, term, exact);
  }

  /** All file records come before all directory records. */
  ghost predicate FilesBeforeDirs(rs: seq<Entry>) {
    forall i, j :: 0 <= i < j < |rs| ==> !(rs[i].kind == DirKind && rs[j].kind == FileKind)
  }

  /** index3.php lines 25-53 against index.php lines 30-53: on the same
      tree, term and mode both searches return the same records, as a
      multiset; index3.php's order puts no directory before a file, and keeps
      scan order within each kind. */
  lemma SplitSearchMatchesSearch(es: seq<Entry>)
    ensures multiset(OfKind(es, FileKind) + OfKind(es, DirKind)) == multiset(es)
    ensures FilesBeforeDirs(OfKind(es, FileKind) + OfKind(es, DirKind))
  {
    KindPartitionMultiset(es);
    OfKindMembers(es, FileKind);
    OfKindMembers(es, DirKind);
    var f, d := OfKind(es, FileKind), OfKind(es, DirKind);
    var rs := f + d;
    forall i, j | 0 <= i < j < |rs|
      ensures !(rs[i].kind == DirKind && rs[j].kind == FileKind)
    {
      if i < |f| {
        assert rs[i] == f[i] && rs[i] in f;
      } else {
        assert rs[i] == d[i - |f|] && rs[i] in d;
        assert rs[j] == d[j - |f|] && rs[j] in d;
      }
    }
  }

  /** index3.php lines 31, 35, 43 and 47: a record is in index3.php's
      results exactly when it was scanned and its basename matches under the
      selected mode. */
  lemma SplitResultsMembers(es: seq<Entry>, term: string, exact: bool)
    ensures forall e ::
      e in OfKind(Select(es, term, exact), FileKind) + OfKind(Select(es, term, exact), DirKind)
      <==> e in es && Matches(Basename(e.path), term, exact)
  {
    var sel := Select(es, term, exact);
    SelectMembers(es, term, exact);
    KindPartitionMultiset(sel);
    assert multiset(OfKind(sel, FileKind) + OfKind(sel, DirKind)) == multiset(sel);
    forall e
      ensures e in OfKind(sel, FileKind) + OfKind(sel, DirKind) <==> e in sel
    {
      assert e in OfKind(sel, FileKind) + OfKind(sel, DirKind)
         <==> e in multiset(OfKind(sel, FileKind) + OfKind(sel, DirKind));
      assert e in sel <==> e in multiset(sel);
    }
  }

  /** index3.php lines 139-148: count the results of each type. */
  method CountResults(results: seq<Entry>) returns (fileCount: nat, dirCount: nat)
    ensures fileCount == |OfKind(results, FileKind)|
    ensures dirCount == |OfKind(results, DirKind)|
    ensures fileCount + dirCount == |results|
  {
    fileCount, dirCount := 0, 0;
    var i := 0;
    while i < |results|
      invariant 0 <= i <= |results|
      invariant fileCount == |OfKind(results[..i], FileKind)|
      invariant dirCount == |OfKind(results[..i], DirKind)|
    {
      assert results[..i + 1][..i] == results[..i];
      if results[i].kind == FileKind {
        fileCount := fileCount + 1;
      } else if results[i].kind == DirKind {
        dirCount := dirCount + 1;
      }
      i := i + 1;
    }
    assert results[..i] == results;
    KindPartitionMultiset(results);
    assert |multiset(OfKind(results, FileKind))| + |multiset(OfKind(results, DirKind))| == |multiset(results)|;
  }

  /** What index3.php's page shows: the results with their counts, or the
      message that the directory does not exist or cannot be accessed. */
  datatype CountedOutcome = Counted(results: seq<Entry>, fileCount: nat, dirCount: nat) | NoDirectory

  /** index3.php lines 136-148: when the directory passes `is_dir`, search
      it and count the results by type. */
  method HandleSearchCounted(directory: string, root: Node, searchTerm: string, fullTextSearch: bool)
    returns (outcome: CountedOutcome)
    ensures outcome.Counted? <==> root.Dir?
    ensures outcome.Counted? ==>
      && outcome.results == OfKind(Select(Scan(directory, root), searchTerm, fullTextSearch), FileKind)
                          + OfKind(Select(Scan(directory, root), searchTerm, fullTextSearch), DirKind)
      && multiset(outcome.results) == multiset(Select(Scan(directory, root), searchTerm, fullTextSearch))
      && FilesBeforeDirs(outcome.results)
      && outcome.fileCount == |OfKind(Select(Scan(directory, root), searchTerm, fullTextSearch), FileKind)|
      && outcome.dirCount == |OfKind(Select(Scan(directory, root), searchTerm, fullTextSearch), DirKind)|
      && outcome.fileCount + outcome.dirCount == |outcome.results|
  {
    if root.Dir? {
      var results := SearchFilesAndDirsSplit(directory, root, searchTerm, fullTextSearch);
      var fileCount, dirCount := CountResults(results);
      ghost var selected := Select(Scan(directory, root), searchTerm, fullTextSearch);
      SplitSearchMatchesSearch(selected);
      OfKindAppend(OfKind(selected, FileKind), OfKind(selected, DirKind), FileKind);
      OfKindAppend(OfKind(selected, FileKind), OfKind(selected, DirKind), DirKind);
      OfKindIdempotent(selected, FileKind);
      OfKindIdempotent(selected, DirKind);
      OfKindOther(selected);
      outcome := Counted(results, fileCount, dirCount);
    } else {
      outcome := NoDirectory;
    }
  }

  lemma {:induction false} OfKindIdempotent(es: seq<Entry>, k: Kind)
    ensures OfKind(OfKind(es, k), k) == OfKind(es, k)
  {
    if es != [] {
      var init, e := es[..|es| - 1], es[|es| - 1];
      OfKindIdempotent(init, k);
      if e.kind == k {
        var f := OfKind(init, k);
        assert (f + [e])[..|f|] == f;
      }
    }
  }

  lemma {:induction false} OfKindOther(es: seq<Entry>)
    ensures OfKind(OfKind(es, FileKind), DirKind) == []
    ensures OfKind(OfKind(es, DirKind), FileKind) == []
  {
    if es != [] {
      var init, e := es[..|es| - 1], es[|es| - 1];
      OfKindOther(init);
      var f, d := OfKind(init, FileKind), OfKind(init, DirKind);
      if e.kind == FileKind {
        assert (f + [e])[..|f|] == f;
      } else {
        assert (d + [e])[..|d|] == d;
      }
    }
  }
}
