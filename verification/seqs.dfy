/** Sequence helpers shared by the store queries, the header lookup and the
    subscriber fan-out: "first row matching" and "rows matching, in order". */
module Seqs {
  import opened Wrappers

  /** Position of the first element satisfying `p`, like Rust's
      `iter().position(p)` or taking `.next()` of a filtered iterator. */
  function FirstIndex<T>(s: seq<T>, p: T -> bool): (r: Option<nat>)
    ensures r.Some? ==> r.value < |s| && p(s[r.value])
    ensures r.Some? ==> forall j :: 0 <= j < r.value ==> !p(s[j])
    ensures r.None? <==> forall j :: 0 <= j < |s| ==> !p(s[j])
  {
    if |s| == 0 then None
    else if p(s[0]) then Some(0)
    else match FirstIndex(s[1..], p)
      case None => None
      case Some(i) => Some(i + 1)
  }

  /** The elements satisfying `p`, in their original order (an SQL `WHERE`
      evaluated over a table read in storage order). */
  function Filter<T>(s: seq<T>, p: T -> bool): (r: seq<T>)
    ensures |r| <= |s|
    ensures forall i :: 0 <= i < |r| ==> r[i] in s && p(r[i])
    ensures forall i :: 0 <= i < |s| && p(s[i]) ==> s[i] in r
  {
    if |s| == 0 then []
    else (if p(s[0]) then [s[0]] else []) + Filter(s[1..], p)
  }

  /** Filtering distributes over concatenation, so the order of the source
      is the order of the result. */
  lemma {:induction false} FilterAppend<T>(a: seq<T>, b: seq<T>, p: T -> bool)
    ensures Filter(a + b, p) == Filter(a, p) + Filter(b, p)
    decreases |a|
  {
    if |a| == 0 {
      assert a + b == b;
    } else {
      assert (a + b)[1..] == a[1..] + b;
      FilterAppend(a[1..], b, p);
    }
  }

  /** `s` is `e` with none, some or all of its trailing `pad` elements
      removed (how far an encoder's padding may be left off). */
  predicate DropsTrailing<T(==)>(e: seq<T>, s: seq<T>, pad: T) {
    |s| <= |e| && s == e[..|s|] && forall i :: |s| <= i < |e| ==> e[i] == pad
  }
}
