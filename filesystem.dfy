/** The filesystem as the search pages observe it through `is_dir`,
    `is_file` and `scandir`: a finite tree whose directories list their
    children in the order `scandir` returns them, and the `{path, type}`
    records the scan produces. */
module FileSystem {
  import opened Paths

  /** A node reached by a path. `Other` is anything for which both `is_file`
      and `is_dir` are false: a socket, a device, a dangling link, or a path
      that does not exist. A listing may hold the entries `.` and `..`. */
  datatype Node =
    | File(name: string, size: nat)
    | Dir(name: string, children: seq<Node>)
    | Other(name: string)

  /** The `type` of a scanned record: 'file' or 'dir'. */
  datatype Kind = FileKind | DirKind

  /** One scanned record, `['path' => ..., 'type' => ...]`. */
  datatype Entry = Entry(path: string, kind: Kind)

  /** The two pseudo-entries `scandir` lists in every directory. */
  predicate IsDot(name: string) {
    name == "." || name == ".."
  }

  /** `a` is `b` with some elements left out: the rest in the same order. */
  predicate IsSubsequence<T(==)>(a: seq<T>, b: seq<T>)
    decreases |b|
  {
    if a == [] then true
    else if b == [] then false
    else if a[|a| - 1] == b[|b| - 1] && IsSubsequence(a[..|a| - 1], b[..|b| - 1]) then true
    else IsSubsequence(a, b[..|b| - 1])
  }

  /** Extending the longer sequence keeps a subsequence, and extending both
      by the same element does too. */
  lemma SubsequenceExtend<T>(a: seq<T>, b: seq<T>, x: T)
    requires IsSubsequence(a, b)
    ensures IsSubsequence(a, b + [x]) && IsSubsequence(a + [x], b + [x])
  {
    assert (b + [x])[..|b|] == b;
    assert (a + [x])[..|a|] == a;
  }

  /** `array_diff($dirContent, array('.', '..'))`: the listing without the
      pseudo-entries. */
  function WithoutDots(cs: seq<Node>): (r: seq<Node>)
    ensures forall c :: c in r <==> c in cs && !IsDot(c.name)
  {
    if cs == [] then []
    else
      var c := cs[|cs| - 1];
      WithoutDots(cs[..|cs| - 1]) + (if IsDot(c.name) then [] else [c])
  }

  /** `array_diff` keeps every other entry as often as it is listed, and in
      listing order. */
  lemma {:induction false} WithoutDotsKeepsOrder(cs: seq<Node>)
    ensures forall c :: multiset(WithoutDots(cs))[c] == if IsDot(c.name) then 0 else multiset(cs)[c]
    ensures IsSubsequence(WithoutDots(cs), cs)
  {
    if cs != [] {
      var init, c := cs[..|cs| - 1], cs[|cs| - 1];
      WithoutDotsKeepsOrder(init);
      var w := WithoutDots(init);
      assert cs == init + [c];
      SubsequenceExtend(w, init, c);
      if IsDot(c.name) {
        assert WithoutDots(cs) == w;
      } else {
        assert WithoutDots(cs) == w + [c];
      }
    }
  }

  /** What a real filesystem guarantees of a directory listing: every name
      is non-empty and free of separators, and no name is listed twice. */
  predicate WellFormed(n: Node)
    decreases n, 1
  {
    n.Dir? ==> ChildrenWellFormed(n.children)
  }

  predicate ChildrenWellFormed(cs: seq<Node>)
    decreases cs, 0
  {
    && (forall i :: 0 <= i < |cs| ==> IsItemName(cs[i].name) && WellFormed(cs[i]))
    && (forall i, j :: 0 <= i < j < |cs| ==> cs[i].name != cs[j].name)
  }
}
