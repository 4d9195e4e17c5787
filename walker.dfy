/** `scanDirectory` of index.php and index2.php (the two copies are the
    same): a recursive walk that flattens a directory tree into one list of
    `{path, type}` records in pre-order. */
module TreeWalker {
  import opened Paths
  import opened FileSystem

  /** The records `scanDirectory($dir)` returns when `$dir` names `n`. */
  function Scan(dir: string, n: Node): seq<Entry>
    decreases n, 1
  {
    match n
    case Dir(_, cs) => ScanItems(dir, cs)
    case _ => []
  }

  /** The records produced by the listed items `cs` of directory `dir`, in order. */
  function ScanItems(dir: string, cs: seq<Node>): seq<Entry>
    decreases cs, 0
  {
    if cs == [] then []
    else ScanItems(dir, cs[..|cs| - 1]) + Block(dir, cs[|cs| - 1])
  }

  /** The records one listed item contributes: none for `.`, `..` and for
      what is neither file nor directory; one for a file; for a directory
      its own record followed by everything below it. */
  function Block(dir: string, c: Node): seq<Entry>
    decreases c, 2
  {
    if IsDot(c.name) then []
    else
      var path := Join(dir, c.name);
      match c
      case File(_, _) => [Entry(path, FileKind)]
      case Dir(_, _) => [Entry(path, DirKind)] + Scan(path, c)
      case Other(_) => []
  }

  /** Every record of a listing lies inside the listed directory. */
  lemma {:induction false} ItemsInside(dir: string, cs: seq<Node>)
    ensures forall e | e in ScanItems(dir, cs) :: Under(dir, e.path)
    decreases cs
  {
    if cs != [] {
      var c := cs[|cs| - 1];
      ItemsInside(dir, cs[..|cs| - 1]);
      if !IsDot(c.name) {
        var p := Join(dir, c.name);
        assert Under(dir, p);
        if c.Dir? {
          ItemsInside(p, c.children);
          forall e | e in Scan(p, c)
            ensures Under(dir, e.path)
          {
            UnderTop(dir, p, e.path);
          }
        }
      }
    }
  }

  /** index.php lines 7 and 15: a root that is not a directory yields no
      record, and every record's path starts with the root and a separator. */
  lemma ScanInside(dir: string, n: Node)
    ensures !n.Dir? ==> Scan(dir, n) == []
    ensures forall e | e in Scan(dir, n) :: Under(dir, e.path)
  {
    if n.Dir? {
      ItemsInside(dir, n.children);
    }
  }

  /** index.php lines 3-27: the loop over the listing appends each file's
      record, and each directory's record followed by its recursive scan. */
  method ScanDirectory(dir: string, n: Node) returns (filesAndDirs: seq<Entry>)
    ensures filesAndDirs == Scan(dir, n)
    decreases n
  {
    filesAndDirs := [];
    if n.Dir? {
      var dirContent := WithoutDots(n.children);
      var i := 0;
      while i < |dirContent|
        invariant 0 <= i <= |dirContent|
        invariant filesAndDirs == ScanItems(dir, dirContent[..i])
      {
        var item := dirContent[i];
        ItemsStep(dir, dirContent, i);
        assert !IsDot(item.name);
        ghost var before := filesAndDirs;
        var path := Join(dir, item.name);
        if item.File? {
          filesAndDirs := filesAndDirs + [Entry(path, FileKind)];
        } else if item.Dir? {
          assert Block(dir, item) == [Entry(path, DirKind)] + Scan(path, item);
          filesAndDirs := filesAndDirs + [Entry(path, DirKind)];
          var below := ScanDirectory(path, item);
          filesAndDirs := filesAndDirs + below;
          assert filesAndDirs == before + ([Entry(path, DirKind)] + below);
        }
        i := i + 1;
      }
      assert dirContent[..i] == dirContent;
      ItemsWithoutDots(dir, n.children);
    }
  }

  /** One more listed item appends its block. */
  lemma ItemsStep(dir: string, cs: seq<Node>, i: nat)
    requires i < |cs|
    ensures ScanItems(dir, cs[..i + 1]) == ScanItems(dir, cs[..i]) + Block(dir, cs[i])
  {
    assert cs[..i + 1][..i] == cs[..i];
  }

  /** Dropping `.` and `..` first changes nothing: they contribute no record. */
  lemma {:induction false} ItemsWithoutDots(dir: string, cs: seq<Node>)
    ensures ScanItems(dir, WithoutDots(cs)) == ScanItems(dir, cs)
    decreases cs
  {
    if cs != [] {
      var init, c := cs[..|cs| - 1], cs[|cs| - 1];
      ItemsWithoutDots(dir, init);
      var w := WithoutDots(init);
      if !IsDot(c.name) {
        assert WithoutDots(cs) == w + [c];
        assert (w + [c])[..|w|] == w;
      } else {
        assert WithoutDots(cs) == w;
      }
    }
  }

  // ---------------------------------------------------------------------
  // Pre-order: what lies inside a directory follows its record, as one block.

  /** Whatever lies inside an entry's path comes right after it, without a gap. */
  ghost predicate InsideContiguous(s: seq<Entry>) {
    forall i, j, k :: 0 <= i < j < k < |s| && Under(s[i].path, s[k].path) ==> Under(s[i].path, s[j].path)
  }

  /** Nothing inside an entry's path comes before it. */
  ghost predicate ContainerFirst(s: seq<Entry>) {
    forall i, k :: 0 <= k <= i < |s| ==> !Under(s[i].path, s[k].path)
  }

  /** Only directory records have records inside them. */
  ghost predicate OnlyDirsContain(s: seq<Entry>) {
    forall i, k :: 0 <= i < |s| && 0 <= k < |s| && Under(s[i].path, s[k].path) ==> s[i].kind == DirKind
  }

  /** No path is listed twice. */
  ghost predicate DistinctPaths(s: seq<Entry>) {
    forall i, k :: 0 <= i < k < |s| ==> s[i].path != s[k].path
  }

  ghost predicate PreOrder(s: seq<Entry>) {
    InsideContiguous(s) && ContainerFirst(s) && OnlyDirsContain(s) && DistinctPaths(s)
  }

  /** No record of `a` lies inside, contains or equals a record of `b`. */
  ghost predicate Separated(a: seq<Entry>, b: seq<Entry>) {
    forall x, y | x in a && y in b :: !Under(x.path, y.path) && !Under(y.path, x.path) && x.path != y.path
  }

  lemma ConcatInsideContiguous(a: seq<Entry>, b: seq<Entry>)
    requires InsideContiguous(a) && InsideContiguous(b) && Separated(a, b)
    ensures InsideContiguous(a + b)
  {
    var s := a + b;
    forall i, j, k | 0 <= i < j < k < |s| && Under(s[i].path, s[k].path)
      ensures Under(s[i].path, s[j].path)
    {
      if k < |a| {
        assert s[i] == a[i] && s[j] == a[j] && s[k] == a[k];
      } else if |a| <= i {
        assert s[i] == b[i - |a|] && s[j] == b[j - |a|] && s[k] == b[k - |a|];
      } else {
        assert false;
      }
    }
  }

  lemma ConcatContainerFirst(a: seq<Entry>, b: seq<Entry>)
    requires ContainerFirst(a) && ContainerFirst(b) && Separated(a, b)
    ensures ContainerFirst(a + b)
  {
    var s := a + b;
    forall i, k | 0 <= k <= i < |s|
      ensures !Under(s[i].path, s[k].path)
    {
      if i < |a| {
        assert s[i] == a[i] && s[k] == a[k];
      } else if |a| <= k {
        assert s[i] == b[i - |a|] && s[k] == b[k - |a|];
      } else {
        assert s[k] in a && s[i] in b;
      }
    }
  }

  lemma ConcatOnlyDirsContain(a: seq<Entry>, b: seq<Entry>)
    requires OnlyDirsContain(a) && OnlyDirsContain(b) && Separated(a, b)
    ensures OnlyDirsContain(a + b)
  {
    var s := a + b;
    forall i, k | 0 <= i < |s| && 0 <= k < |s| && Under(s[i].path, s[k].path)
      ensures s[i].kind == DirKind
    {
      if i < |a| && k < |a| {
        assert s[i] == a[i] && s[k] == a[k];
      } else if |a| <= i && |a| <= k {
        assert s[i] == b[i - |a|] && s[k] == b[k - |a|];
      } else if i < |a| {
        assert false;
      } else {
        assert false;
      }
    }
  }

  lemma ConcatDistinctPaths(a: seq<Entry>, b: seq<Entry>)
    requires DistinctPaths(a) && DistinctPaths(b) && Separated(a, b)
    ensures DistinctPaths(a + b)
  {
    var s := a + b;
    forall i, k | 0 <= i < k < |s|
      ensures s[i].path != s[k].path
    {
      if k < |a| {
        assert s[i] == a[i] && s[k] == a[k];
      } else if |a| <= i {
        assert s[i] == b[i - |a|] && s[k] == b[k - |a|];
      } else {
        assert s[i] in a && s[k] in b;
      }
    }
  }

  lemma HeadInsideContiguous(h: Entry, t: seq<Entry>)
    requires InsideContiguous(t)
    requires forall e | e in t :: Under(h.path, e.path)
    ensures InsideContiguous([h] + t)
  {
    var s := [h] + t;
    forall i, j, k | 0 <= i < j < k < |s| && Under(s[i].path, s[k].path)
      ensures Under(s[i].path, s[j].path)
    {
      if i == 0 {
        assert s[j] == t[j - 1] && t[j - 1] in t;
      } else {
        TailInsideContiguous(h, t, i, j, k);
      }
    }
  }

  /** The triples of `[h] + t` that avoid `h` are triples of `t`. */
  lemma TailInsideContiguous(h: Entry, t: seq<Entry>, i: int, j: int, k: int)
    requires InsideContiguous(t)
    requires 0 < i < j < k <= |t| && Under(([h] + t)[i].path, ([h] + t)[k].path)
    ensures Under(([h] + t)[i].path, ([h] + t)[j].path)
  {
    var s := [h] + t;
    assert s[i] == t[i - 1] && s[j] == t[j - 1] && s[k] == t[k - 1];
  }

  lemma HeadContainerFirst(h: Entry, t: seq<Entry>)
    requires ContainerFirst(t)
    requires forall e | e in t :: Under(h.path, e.path)
    ensures ContainerFirst([h] + t)
  {
    var s := [h] + t;
    forall i, k | 0 <= k <= i < |s|
      ensures !Under(s[i].path, s[k].path)
    {
      if k == 0 && 0 < i {
        assert s[i] in t;
      } else if 0 < k {
        assert s[i] == t[i - 1] && s[k] == t[k - 1];
      }
    }
  }

  lemma HeadOnlyDirsContain(h: Entry, t: seq<Entry>)
    requires OnlyDirsContain(t) && h.kind == DirKind
    requires forall e | e in t :: Under(h.path, e.path)
    ensures OnlyDirsContain([h] + t)
  {
    var s := [h] + t;
    forall i, k | 0 <= i < |s| && 0 <= k < |s| && Under(s[i].path, s[k].path)
      ensures s[i].kind == DirKind
    {
      if 0 < i && 0 < k {
        assert s[i] == t[i - 1] && s[k] == t[k - 1];
      } else if 0 < i {
        assert false;
      }
    }
  }

  lemma HeadDistinctPaths(h: Entry, t: seq<Entry>)
    requires DistinctPaths(t)
    requires forall e | e in t :: Under(h.path, e.path)
    ensures DistinctPaths([h] + t)
  {
    var s := [h] + t;
    forall i, k | 0 <= i < k < |s|
      ensures s[i].path != s[k].path
    {
      if i == 0 {
        assert s[k] in t;
      } else {
        assert s[i] == t[i - 1] && s[k] == t[k - 1];
      }
    }
  }

  /** The names of the listed items that produce records. */
  function Listed(cs: seq<Node>): set<string> {
    set i | 0 <= i < |cs| && !IsDot(cs[i].name) && !cs[i].Other? :: cs[i].name
  }

  /** Every record of a listed item lies below that item's name. */
  lemma BlockTops(dir: string, c: Node)
    requires IsItemName(c.name)
    ensures forall e | e in Block(dir, c) :: Under(dir, e.path) && Top(dir, e.path) == c.name
  {
    var p := Join(dir, c.name);
    JoinTop(dir, c.name);
    if !IsDot(c.name) && c.Dir? {
      ScanInside(p, c);
      forall e | e in Scan(p, c)
        ensures Top(dir, e.path) == c.name
      {
        UnderTop(dir, p, e.path);
      }
    }
  }

  /** Every record of a listing lies below the name of an item that produces records. */
  lemma {:induction false} ItemsTops(dir: string, cs: seq<Node>)
    requires forall i :: 0 <= i < |cs| ==> IsItemName(cs[i].name)
    ensures forall e | e in ScanItems(dir, cs) :: Under(dir, e.path) && Top(dir, e.path) in Listed(cs)
    decreases cs
  {
    if cs != [] {
      var init, c := cs[..|cs| - 1], cs[|cs| - 1];
      ItemsTops(dir, init);
      BlockTops(dir, c);
      assert Listed(init) <= Listed(cs) by {
        forall x | x in Listed(init) ensures x in Listed(cs) {
          var i :| 0 <= i < |init| && !IsDot(init[i].name) && !init[i].Other? && init[i].name == x;
          assert cs[i] == init[i];
        }
      }
      if Block(dir, c) != [] {
        assert c.name in Listed(cs) by {
          assert cs[|cs| - 1] == c;
        }
      }
    }
  }

  /** The listing of a well-formed directory is flattened in pre-order. */
  lemma {:induction false} ItemsPreOrder(dir: string, cs: seq<Node>)
    requires ChildrenWellFormed(cs)
    ensures PreOrder(ScanItems(dir, cs))
    decreases cs
  {
    if cs != [] {
      var init, c := cs[..|cs| - 1], cs[|cs| - 1];
      var a, b := ScanItems(dir, init), Block(dir, c);
      assert ChildrenWellFormed(init);
      ItemsPreOrder(dir, init);
      if !IsDot(c.name) && c.Dir? {
        var p := Join(dir, c.name);
        ItemsPreOrder(p, c.children);
        var h, t := Entry(p, DirKind), Scan(p, c);
        ScanInside(p, c);
        HeadInsideContiguous(h, t);
        HeadContainerFirst(h, t);
        HeadOnlyDirsContain(h, t);
        HeadDistinctPaths(h, t);
      }
      assert PreOrder(b);
      ItemsTops(dir, init);
      BlockTops(dir, c);
      assert c.name !in Listed(init);
      forall x, y | x in a && y in b
        ensures !Under(x.path, y.path) && !Under(y.path, x.path) && x.path != y.path
      {
        if Under(x.path, y.path) {
          UnderTop(dir, x.path, y.path);
        }
        if Under(y.path, x.path) {
          UnderTop(dir, y.path, x.path);
        }
      }
      ConcatInsideContiguous(a, b);
      ConcatContainerFirst(a, b);
      ConcatOnlyDirsContain(a, b);
      ConcatDistinctPaths(a, b);
    }
  }

  /** index.php lines 14-22: the scan of a well-formed tree lists every path
      once, and each directory's record is followed, as one block, by exactly
      the records inside it; a file's record has nothing inside it. */
  lemma ScanPreOrder(dir: string, n: Node)
    requires WellFormed(n)
    ensures PreOrder(Scan(dir, n))
  {
    if n.Dir? {
      ItemsPreOrder(dir, n.children);
    }
  }

  // ---------------------------------------------------------------------
  // Each record is built from a listed item of its parent.

  /** Record `k` of `s` is `Join(parent, item)` for a non-dot item name, where
      the parent is the scanned directory itself or a directory recorded earlier. */
  ghost predicate ParentListed(dir: string, s: seq<Entry>, k: int)
    requires 0 <= k < |s|
  {
    var item := Basename(s[k].path);
    && IsItemName(item)
    && !IsDot(item)
    && (|| s[k].path == Join(dir, item)
        || exists i :: 0 <= i < k && s[i].kind == DirKind && s[k].path == Join(s[i].path, item))
  }

  lemma ParentsKeepPrefix(dir: string, a: seq<Entry>, b: seq<Entry>, k: int)
    requires 0 <= k < |a| && ParentListed(dir, a, k)
    ensures ParentListed(dir, a + b, k)
  {
    var s := a + b;
    assert s[k] == a[k];
    var item := Basename(a[k].path);
    if a[k].path != Join(dir, item) {
      var i :| 0 <= i < k && a[i].kind == DirKind && a[k].path == Join(a[i].path, item);
      assert s[i] == a[i];
    }
  }

  lemma ParentOfHead(dir: string, a: seq<Entry>, item: string, kind: Kind, t: seq<Entry>)
    requires IsItemName(item) && !IsDot(item)
    ensures ParentListed(dir, a + [Entry(Join(dir, item), kind)] + t, |a|)
  {
    BasenameOfJoin(dir, item);
    assert (a + [Entry(Join(dir, item), kind)] + t)[|a|] == Entry(Join(dir, item), kind);
  }

  lemma ParentBelowHead(dir: string, a: seq<Entry>, p: string, t: seq<Entry>, j: int)
    requires 0 <= j < |t| && ParentListed(p, t, j)
    ensures ParentListed(dir, a + [Entry(p, DirKind)] + t, |a| + 1 + j)
  {
    var s := a + [Entry(p, DirKind)] + t;
    var item := Basename(t[j].path);
    assert s[|a| + 1 + j] == t[j];
    if t[j].path == Join(p, item) {
      assert s[|a|] == Entry(p, DirKind);
    } else {
      var i :| 0 <= i < j && t[i].kind == DirKind && t[j].path == Join(t[i].path, item);
      assert s[|a| + 1 + i] == t[i];
    }
  }

  lemma {:induction false} ItemsParents(dir: string, cs: seq<Node>)
    requires ChildrenWellFormed(cs)
    ensures forall k :: 0 <= k < |ScanItems(dir, cs)| ==> ParentListed(dir, ScanItems(dir, cs), k)
    decreases cs
  {
    if cs != [] {
      var init, c := cs[..|cs| - 1], cs[|cs| - 1];
      var a, b := ScanItems(dir, init), Block(dir, c);
      assert ChildrenWellFormed(init);
      ItemsParents(dir, init);
      forall k | 0 <= k < |a|
        ensures ParentListed(dir, a + b, k)
      {
        ParentsKeepPrefix(dir, a, b, k);
      }
      if b != [] {
        var p := Join(dir, c.name);
        var t := Scan(p, c);
        if c.Dir? {
          assert b == [Entry(p, DirKind)] + t;
          assert a + b == a + [Entry(p, DirKind)] + t;
          ParentOfHead(dir, a, c.name, DirKind, t);
          ItemsParents(p, c.children);
          assert t == ScanItems(p, c.children);
          forall k | |a| + 1 <= k < |a| + 1 + |t|
            ensures ParentListed(dir, a + b, k)
          {
            ParentBelowHead(dir, a, p, t, k - |a| - 1);
          }
        } else {
          assert a + b == a + [Entry(p, FileKind)] + [];
          ParentOfHead(dir, a, c.name, FileKind, []);
        }
      }
    }
  }

  /** index.php lines 14-15: every record's path is its parent's path, a
      separator and a listed name other than `.` or `..`, and that name is its
      basename; the parent is the scanned directory or a directory recorded
      before it. */
  lemma ScanParents(dir: string, n: Node)
    requires WellFormed(n)
    ensures forall k :: 0 <= k < |Scan(dir, n)| ==> ParentListed(dir, Scan(dir, n), k)
  {
    if n.Dir? {
      ItemsParents(dir, n.children);
    }
  }

  // ---------------------------------------------------------------------
  // Each listed item produces its records, and only files and directories do.

  /** The scan of the first `m` items is a prefix of the scan of all of them. */
  lemma {:induction false} ItemsPrefix(dir: string, cs: seq<Node>, m: int)
    requires 0 <= m <= |cs|
    ensures ScanItems(dir, cs[..m]) <= ScanItems(dir, cs)
    decreases |cs| - m
  {
    if m < |cs| {
      ItemsPrefix(dir, cs, m + 1);
      assert cs[..m + 1][..m] == cs[..m];
    } else {
      assert cs[..m] == cs;
    }
  }

  /** index.php lines 14-21: the items of a listing are scanned in listing
      order, so the scan of a listing is the scan of any prefix of it followed
      by the scan of the rest. */
  lemma {:induction false} ItemsAppend(dir: string, a: seq<Node>, b: seq<Node>)
    ensures ScanItems(dir, a + b) == ScanItems(dir, a) + ScanItems(dir, b)
    decreases |b|
  {
    if b == [] {
      assert a + b == a;
    } else {
      var init := b[..|b| - 1];
      ItemsAppend(dir, a, init);
      assert (a + b)[..|a + b| - 1] == a + init;
      assert (a + b)[|a + b| - 1] == b[|b| - 1];
    }
  }

  /** index.php lines 16-21: item `k` of the listing contributes its records
      right after the records of the items listed before it: a file its 'file'
      record, a directory its 'dir' record followed at once by the whole scan
      of that directory. */
  lemma ChildListed(dir: string, n: Node, k: int)
    requires n.Dir? && 0 <= k < |n.children| && !IsDot(n.children[k].name)
    ensures ScanItems(dir, n.children[..k]) + Block(dir, n.children[k]) <= Scan(dir, n)
    ensures n.children[k].File? ==>
      var a := |ScanItems(dir, n.children[..k])|;
      a < |Scan(dir, n)| && Scan(dir, n)[a] == Entry(Join(dir, n.children[k].name), FileKind)
    ensures n.children[k].Dir? ==>
      var a := |ScanItems(dir, n.children[..k])|;
      var c := n.children[k];
      var p := Join(dir, c.name);
      && a + 1 + |Scan(p, c)| <= |Scan(dir, n)|
      && Scan(dir, n)[a] == Entry(p, DirKind)
      && Scan(dir, n)[a + 1..a + 1 + |Scan(p, c)|] == Scan(p, c)
  {
    var cs, c := n.children, n.children[k];
    var before, b := ScanItems(dir, cs[..k]), Block(dir, c);
    var a := |before|;
    ChildBlock(dir, cs, k);
    var s := ScanItems(dir, cs);
    assert Scan(dir, n) == s;
    if !c.Other? {
      assert s[a] == (before + b)[a] == b[0];
    }
    if c.Dir? {
      var p := Join(dir, c.name);
      assert b == [Entry(p, DirKind)] + Scan(p, c);
      assert s[a + 1..a + |b|] == (before + b)[a + 1..a + |b|] == b[1..];
    }
  }

  /** The block of item `k` follows the records of the items before it. */
  lemma ChildBlock(dir: string, cs: seq<Node>, k: int)
    requires 0 <= k < |cs|
    ensures ScanItems(dir, cs[..k]) + Block(dir, cs[k]) <= ScanItems(dir, cs)
  {
    ItemsPrefix(dir, cs, k + 1);
    assert cs[..k + 1][..k] == cs[..k];
  }

  /** index.php lines 14-21: siblings keep listing order. When item `k1` is
      listed before item `k2` and both give records, every record for the
      path of `k1` or inside it comes before the record of `k2`. */
  lemma SiblingOrder(dir: string, n: Node, k1: int, k2: int)
    requires WellFormed(n) && n.Dir? && 0 <= k1 < k2 < |n.children|
    requires !IsDot(n.children[k1].name) && !n.children[k1].Other?
    requires !IsDot(n.children[k2].name) && !n.children[k2].Other?
    ensures forall i, j ::
      && 0 <= i < |Scan(dir, n)| && 0 <= j < |Scan(dir, n)|
      && (|| Scan(dir, n)[i].path == Join(dir, n.children[k1].name)
          || Under(Join(dir, n.children[k1].name), Scan(dir, n)[i].path))
      && Scan(dir, n)[j].path == Join(dir, n.children[k2].name)
      ==> i < j
  {
    var cs, s := n.children, Scan(dir, n);
    var name1, name2 := cs[k1].name, cs[k2].name;
    var p1, p2 := Join(dir, name1), Join(dir, name2);
    var m := k1 + 1;
    var pre, post := ScanItems(dir, cs[0..m]), ScanItems(dir, cs[m..|cs|]);
    assert cs[0..m] + cs[m..|cs|] == cs;
    ItemsAppend(dir, cs[0..m], cs[m..|cs|]);
    assert s == pre + post;
    TopsAvoid(dir, cs, m, |cs|, k1);
    TopsAvoid(dir, cs, 0, m, k2);
    JoinTop(dir, name1);
    forall i, j | 0 <= i < |s| && 0 <= j < |s| && (s[i].path == p1 || Under(p1, s[i].path)) && s[j].path == p2
      ensures i < j
    {
      if Under(p1, s[i].path) {
        UnderTop(dir, p1, s[i].path);
      }
    }
  }

  /** In a well-formed listing, no record of the items `lo..hi` lies below
      the name of item `k` listed outside that range. */
  lemma TopsAvoid(dir: string, cs: seq<Node>, lo: int, hi: int, k: int)
    requires ChildrenWellFormed(cs)
    requires 0 <= k < |cs| && 0 <= lo <= hi <= |cs| && !(lo <= k < hi)
    ensures forall x | 0 <= x < |ScanItems(dir, cs[lo..hi])| ::
      Under(dir, ScanItems(dir, cs[lo..hi])[x].path) && Top(dir, ScanItems(dir, cs[lo..hi])[x].path) != cs[k].name
  {
    var t := ScanItems(dir, cs[lo..hi]);
    ItemsTops(dir, cs[lo..hi]);
    NameNotListed(cs, k, lo, hi);
    forall x | 0 <= x < |t|
      ensures Under(dir, t[x].path) && Top(dir, t[x].path) != cs[k].name
    {
      assert t[x] in t;
    }
  }

  /** In a well-formed listing, an item's name is not listed again elsewhere. */
  lemma NameNotListed(cs: seq<Node>, k: int, lo: int, hi: int)
    requires ChildrenWellFormed(cs)
    requires 0 <= k < |cs| && 0 <= lo <= hi <= |cs| && !(lo <= k < hi)
    ensures cs[k].name !in Listed(cs[lo..hi])
  {
    forall x | x in Listed(cs[lo..hi])
      ensures x != cs[k].name
    {
      var q :| 0 <= q < hi - lo && !IsDot(cs[lo..hi][q].name) && !cs[lo..hi][q].Other? && cs[lo..hi][q].name == x;
      assert cs[lo..hi][q] == cs[lo + q];
    }
  }

  /** Record `e` comes from item `c` of the directory `dir`: it is the
      record of `c`'s own path, or lies in the scan of `c` when `c` is a
      directory. */
  ghost predicate FromChild(dir: string, c: Node, e: Entry) {
    && !IsDot(c.name)
    && (|| (c.File? && e == Entry(Join(dir, c.name), FileKind))
        || (c.Dir? && (e == Entry(Join(dir, c.name), DirKind) || e in Scan(Join(dir, c.name), c))))
  }

  /** index.php lines 14-21, the converse of `ChildListed`: every record of
      a listing comes from one of its items that is a file or a directory and
      not `.` or `..`. */
  lemma {:induction false} ItemsFromChildren(dir: string, cs: seq<Node>)
    ensures forall e | e in ScanItems(dir, cs) :: exists k :: 0 <= k < |cs| && FromChild(dir, cs[k], e)
    decreases |cs|
  {
    if cs != [] {
      var init, c := cs[..|cs| - 1], cs[|cs| - 1];
      ItemsFromChildren(dir, init);
      forall e | e in ScanItems(dir, cs)
        ensures exists k :: 0 <= k < |cs| && FromChild(dir, cs[k], e)
      {
        if e in ScanItems(dir, init) {
          var k :| 0 <= k < |init| && FromChild(dir, init[k], e);
          assert cs[k] == init[k];
        } else {
          assert e in Block(dir, c);
          assert FromChild(dir, cs[|cs| - 1], e);
        }
      }
    }
  }

  /** index.php lines 14-21: every record the scan of directory `n` returns
      was built from an item `n` lists, either as that item's own record or
      inside that item's scan. */
  lemma ScanFromChildren(dir: string, n: Node)
    ensures forall e | e in Scan(dir, n) :: n.Dir? && exists k :: 0 <= k < |n.children| && FromChild(dir, n.children[k], e)
  {
    if n.Dir? {
      ItemsFromChildren(dir, n.children);
    }
  }

  /** index.php lines 12 and 16-22: an item that is neither file nor
      directory, and the pseudo-entries `.` and `..`, give no record, neither
      for themselves nor for anything below them. */
  lemma SkippedChildAbsent(dir: string, n: Node, k: int)
    requires WellFormed(n) && n.Dir? && 0 <= k < |n.children|
    requires n.children[k].Other? || IsDot(n.children[k].name)
    ensures forall e | e in Scan(dir, n) ::
      e.path != Join(dir, n.children[k].name) && !Under(Join(dir, n.children[k].name), e.path)
  {
    var cs, o := n.children, n.children[k];
    var p := Join(dir, o.name);
    ItemsTops(dir, cs);
    JoinTop(dir, o.name);
    forall e | e in Scan(dir, n)
      ensures e.path != p && !Under(p, e.path)
    {
      if e.path == p || Under(p, e.path) {
        if Under(p, e.path) {
          UnderTop(dir, p, e.path);
        }
        assert false;
      }
    }
  }
}
