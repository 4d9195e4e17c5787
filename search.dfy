/** `searchFilesAndDirs` of index.php and index2.php, and the request
    handling around it: scan the directory, then keep, in scan order, the
    records whose basename matches the term, ignoring ASCII case. */
module Search {
  import opened CaseFold
  import opened Paths
  import opened FileSystem
  import opened TreeWalker

  /** The match test of index.php lines 39-48 on a basename: `strcasecmp`
      equality in exact ("full text") mode, `stripos` containment otherwise. */
  function Matches(name: string, term: string, exact: bool): (b: bool)
    ensures exact ==> (b <==> Lower(name) == Lower(term))
    ensures !exact ==> (b <==> Contains(Lower(name), Lower(term)))
  {
    if exact then StrCaseCmp(name, term) == 0 else StrIPos(name, term).Some?
  }

  /** The records of `entries` whose basename matches, in their order. */
  function Select(entries: seq<Entry>, term: string, exact: bool): seq<Entry> {
    if entries == [] then []
    else
      var e := entries[|entries| - 1];
      Select(entries[..|entries| - 1], term, exact) + (if Matches(Basename(e.path), term, exact) then [e] else [])
  }

  /** index.php lines 35-50: a record is a result exactly when it was scanned
      and its basename matches. */
  lemma {:induction false} SelectMembers(entries: seq<Entry>, term: string, exact: bool)
    ensures forall e :: e in Select(entries, term, exact) <==> e in entries && Matches(Basename(e.path), term, exact)
  {
    if entries != [] {
      var init, last := entries[..|entries| - 1], entries[|entries| - 1];
      SelectMembers(init, term, exact);
      assert entries == init + [last];
    }
  }

  /** One more step of the scan: the record at `i` is appended exactly when
      it matches. */
  lemma SelectStep(entries: seq<Entry>, i: nat, term: string, exact: bool)
    requires i < |entries|
    ensures Select(entries[..i + 1], term, exact)
         == Select(entries[..i], term, exact)
          + (if Matches(Basename(entries[i].path), term, exact) then [entries[i]] else [])
  {
    assert entries[..i + 1][..i] == entries[..i];
  }

  /** index.php lines 31-52: the results are a subsequence of the scan, each
      record unchanged and in scan order. */
  lemma {:induction false} SelectIsSubsequence(entries: seq<Entry>, term: string, exact: bool)
    ensures IsSubsequence(Select(entries, term, exact), entries)
  {
    if entries != [] {
      var init, e := entries[..|entries| - 1], entries[|entries| - 1];
      var r := Select(init, term, exact);
      SelectIsSubsequence(init, term, exact);
      if Matches(Basename(e.path), term, exact) {
        assert (r + [e])[..|r|] == r;
      } else {
        assert r + [] == r;
        if r != [] {
          assert IsSubsequence(r, init);
        }
      }
    }
  }

  /** index.php lines 30-53: scan once, then test each record in scan order
      and append the ones that match. */
  method SearchFilesAndDirs(directory: string, root: Node, searchTerm: string, fullTextSearch: bool)
    returns (results: seq<Entry>)
    ensures results == Select(Scan(directory, root), searchTerm, fullTextSearch)
  {
    var filesAndDirs := ScanDirectory(directory, root);
    results := [];
    var i := 0;
    assert filesAndDirs[..i] == [];
    while i < |filesAndDirs|
      invariant 0 <= i <= |filesAndDirs|
      invariant results == Select(filesAndDirs[..i], searchTerm, fullTextSearch)
    {
      var item := filesAndDirs[i];
      SelectStep(filesAndDirs, i, searchTerm, fullTextSearch);
      if fullTextSearch {
        if StrCaseCmp(Basename(item.path), searchTerm) == 0 {
          results := results + [item];
        }
      } else {
        if StrIPos(Basename(item.path), searchTerm).Some? {
          results := results + [item];
        }
      }
      i := i + 1;
    }
    assert filesAndDirs[..i] == filesAndDirs;
  }

  /** What the page shows: the results, or the message that the directory
      does not exist or cannot be accessed. */
  datatype Outcome = Found(results: seq<Entry>) | DirectoryNotFound

  /** index2.php lines 216-222: the search runs only when the requested
      directory passes `is_dir`. (index.php lines 281-290 do the same with a
      fixed directory.) */
  method HandleSearch(directory: string, root: Node, searchTerm: string, fullTextSearch: bool)
    returns (outcome: Outcome)
    ensures outcome.Found? <==> root.Dir?
    ensures outcome.Found? ==> outcome.results == Select(Scan(directory, root), searchTerm, fullTextSearch)
  {
    if root.Dir? {
      var results := SearchFilesAndDirs(directory, root, searchTerm, fullTextSearch);
      outcome := Found(results);
    } else {
      outcome := DirectoryNotFound;
    }
  }
}
