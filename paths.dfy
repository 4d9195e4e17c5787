/** Path strings as the search pages build and read them: the separator,
    `$dir . DIRECTORY_SEPARATOR . $item`, and PHP's `basename`. */
module Paths {

  /** DIRECTORY_SEPARATOR on a POSIX host. */
  const Sep: char := '/'

  /** A name as a directory listing returns it: non-empty, without a separator. */
  predicate IsItemName(s: string) {
    |s| > 0 && Sep !in s
  }

  /** The path built for a listed item (index.php line 15). */
  function Join(dir: string, item: string): string {
    dir + [Sep] + item
  }

  /** `q` lies strictly inside directory `p`: it starts with `p` and a separator. */
  predicate Under(p: string, q: string) {
    |p| < |q| && q[..|p| + 1] == p + [Sep]
  }

  /** The longest prefix of `s` without a separator. */
  function FirstSegment(s: string): (r: string)
    ensures Sep !in r && r <= s
    ensures |r| == |s| || s[|r|] == Sep
  {
    if s == [] || s[0] == Sep then [] else [s[0]] + FirstSegment(s[1..])
  }

  /** The first component of `q` below directory `dir`. */
  function Top(dir: string, q: string): string
    requires Under(dir, q)
  {
    FirstSegment(q[|dir| + 1..])
  }

  /** `s` without its trailing separators. */
  function StripTrailingSeps(s: string): string {
    if s != [] && s[|s| - 1] == Sep then StripTrailingSeps(s[..|s| - 1]) else s
  }

  /** The longest suffix of `s` without a separator. */
  function LastSegment(s: string): string {
    if s == [] || s[|s| - 1] == Sep then []
    else LastSegment(s[..|s| - 1]) + [s[|s| - 1]]
  }

  /** PHP's `basename` without a suffix argument: the last component once
      trailing separators are removed. */
  function Basename(p: string): string {
    LastSegment(StripTrailingSeps(p))
  }

  /** Stripping keeps a prefix, removes only separators, and leaves none at the end. */
  lemma {:induction false} StripTrailingSepsSpec(s: string)
    ensures StripTrailingSeps(s) <= s
    ensures StripTrailingSeps(s) == [] || StripTrailingSeps(s)[|StripTrailingSeps(s)| - 1] != Sep
    ensures forall i :: |StripTrailingSeps(s)| <= i < |s| ==> s[i] == Sep
  {
    if s != [] && s[|s| - 1] == Sep {
      StripTrailingSepsSpec(s[..|s| - 1]);
    }
  }

  /** The last segment is a separator-free suffix preceded by a separator,
      unless it is the whole string. */
  lemma {:induction false} LastSegmentSpec(s: string)
    ensures Sep !in LastSegment(s)
    ensures |LastSegment(s)| <= |s| && LastSegment(s) == s[|s| - |LastSegment(s)|..]
    ensures |LastSegment(s)| == |s| || s[|s| - |LastSegment(s)| - 1] == Sep
  {
    if s != [] && s[|s| - 1] != Sep {
      var init := s[..|s| - 1];
      LastSegmentSpec(init);
      var r := LastSegment(init);
      assert LastSegment(s) == r + [s[|s| - 1]];
      assert s[|s| - |r| - 1..] == init[|init| - |r|..] + [s[|s| - 1]];
      if |r| < |init| {
        assert s[|s| - |r| - 2] == init[|init| - |r| - 1];
      }
    }
  }

  /** A separator-free suffix that follows a separator (or is all of `s`)
      is the last segment. */
  lemma LastSegmentUnique(s: string, t: string)
    requires Sep !in t && |t| <= |s| && t == s[|s| - |t|..]
    requires |t| == |s| || s[|s| - |t| - 1] == Sep
    ensures LastSegment(s) == t
  {
    LastSegmentSpec(s);
    var r := LastSegment(s);
    if |r| < |t| {
      assert false;
    } else if |t| < |r| {
      assert false;
    }
  }

  /** The basename of a built path is the item name it was built from. */
  lemma BasenameOfJoin(dir: string, item: string)
    requires IsItemName(item)
    ensures Basename(Join(dir, item)) == item
  {
    var p := Join(dir, item);
    var stripped := StripTrailingSeps(p);
    StripTrailingSepsSpec(p);
    if |stripped| < |p| {
      assert false;
    }
    assert stripped == p;
    assert p[|p| - |item|..] == item;
    if |item| < |p| {
      assert p[|p| - |item| - 1] == Sep;
    }
    LastSegmentUnique(p, item);
  }

  /** The first segment is decided before the first separator. */
  lemma {:induction false} FirstSegmentBeforeSep(x: string, y: string)
    ensures FirstSegment(x + [Sep] + y) == FirstSegment(x)
  {
    if x != [] && x[0] != Sep {
      assert (x + [Sep] + y)[1..] == x[1..] + [Sep] + y;
      FirstSegmentBeforeSep(x[1..], y);
    }
  }

  /** The first segment of an item name is the whole name. */
  lemma FirstSegmentOfName(item: string)
    requires Sep !in item
    ensures FirstSegment(item) == item
  {
    var r := FirstSegment(item);
    if |r| < |item| {
      assert false;
    }
  }

  /** A built path lies inside its directory, with the item as its top component. */
  lemma JoinTop(dir: string, item: string)
    requires IsItemName(item)
    ensures Under(dir, Join(dir, item)) && Top(dir, Join(dir, item)) == item
  {
    assert Join(dir, item)[|dir| + 1..] == item;
    FirstSegmentOfName(item);
  }

  /** Inside-ness is transitive and keeps the top component. */
  lemma UnderTop(dir: string, p: string, q: string)
    requires Under(dir, p) && Under(p, q)
    ensures Under(dir, q) && Top(dir, q) == Top(dir, p)
  {
    assert q[..|dir| + 1] == q[..|p| + 1][..|dir| + 1];
    assert q[|dir| + 1..] == p[|dir| + 1..] + [Sep] + q[|p| + 1..];
    FirstSegmentBeforeSep(p[|dir| + 1..], q[|p| + 1..]);
  }
}
