/** The optional value returned by a search that may find nothing. */
module Wrappers {
  datatype Option<+T> = None | Some(value: T)
}

/** The case-insensitive string operations the search relies on, with
    PHP 8's locale-independent ASCII case folding: `strcasecmp` and `stripos`. */
module CaseFold {
  import opened Wrappers

  /** ASCII lower-casing of one character; everything outside A-Z is kept. */
  function ToLowerAscii(c: char): char {
    if 'A' <= c <= 'Z' then (c as int + 32) as char else c
  }

  /** `s` with every ASCII upper-case letter lowered. */
  function Lower(s: string): (r: string)
    ensures |r| == |s|
    ensures forall i :: 0 <= i < |s| ==> r[i] == ToLowerAscii(s[i])
  {
    if s == [] then [] else [ToLowerAscii(s[0])] + Lower(s[1..])
  }

  /** Three-way comparison of `a` and `b` after ASCII lower-casing: the
      first differing character decides, otherwise the shorter string is
      smaller. Only "equal to 0" is used by the search. */
  function StrCaseCmp(a: string, b: string): (r: int)
    ensures -1 <= r <= 1
    ensures r == 0 <==> Lower(a) == Lower(b)
  {
    if a == [] || b == [] then
      (if |a| < |b| then -1 else if |a| > |b| then 1 else 0)
    else if ToLowerAscii(a[0]) < ToLowerAscii(b[0]) then -1
    else if ToLowerAscii(a[0]) > ToLowerAscii(b[0]) then 1
    else
      assert Lower(a) == [ToLowerAscii(a[0])] + Lower(a[1..]);
      assert Lower(b) == [ToLowerAscii(b[0])] + Lower(b[1..]);
      StrCaseCmp(a[1..], b[1..])
  }

  /** Swapping the operands of the comparison flips its sign. */
  lemma {:induction false} StrCaseCmpAntisymmetric(a: string, b: string)
    ensures StrCaseCmp(a, b) == -StrCaseCmp(b, a)
  {
    if a != [] && b != [] && ToLowerAscii(a[0]) == ToLowerAscii(b[0]) {
      StrCaseCmpAntisymmetric(a[1..], b[1..]);
    }
  }

  /** `needle` occurs in `hay` at position `j`. */
  predicate OccursAt(hay: string, needle: string, j: nat) {
    j + |needle| <= |hay| && hay[j..j + |needle|] == needle
  }

  /** `needle` occurs somewhere in `hay`. */
  ghost predicate Contains(hay: string, needle: string) {
    exists j :: OccursAt(hay, needle, j)
  }

  /** The first position at or after `from` where `needle` occurs in `hay`. */
  function IndexOf(hay: string, needle: string, from: nat): (r: Option<nat>)
    requires from <= |hay|
    ensures r.Some? ==> from <= r.value && OccursAt(hay, needle, r.value)
    ensures r.Some? ==> forall j :: from <= j < r.value ==> !OccursAt(hay, needle, j)
    ensures r.None? ==> forall j :: from <= j ==> !OccursAt(hay, needle, j)
    decreases |hay| - from
  {
    if from + |needle| > |hay| then None
    else if hay[from..from + |needle|] == needle then Some(from)
    else IndexOf(hay, needle, from + 1)
  }

  /** `stripos($haystack, $needle)`: the first position of the needle in the
      haystack, both lower-cased, or nothing. An empty needle is found at 0. */
  function StrIPos(haystack: string, needle: string): (r: Option<nat>)
    ensures r.Some? <==> Contains(Lower(haystack), Lower(needle))
    ensures r.Some? ==> OccursAt(Lower(haystack), Lower(needle), r.value)
    ensures r.Some? ==> forall j :: 0 <= j < r.value ==> !OccursAt(Lower(haystack), Lower(needle), j)
  {
    var r := IndexOf(Lower(haystack), Lower(needle), 0);
    assert r.Some? ==> OccursAt(Lower(haystack), Lower(needle), r.value);
    assert r.None? ==> forall j :: !OccursAt(Lower(haystack), Lower(needle), j);
    r
  }
}
