/** Generic sequence operations with the meaning of the Python list
    operations the service uses: prefix slicing and order-preserving
    filtering. */
module Sequences {

  function Min(a: int, b: int): (r: int) { if a <= b then a else b }

  function Max(a: int, b: int): (r: int) { if a <= b then b else a }

  /** The number of elements `xs[:k]` keeps from a list of length `len`,
      under Python's slice rules: a negative bound counts from the end,
      and any bound is clamped to the list. */
  function SliceLength(len: nat, k: int): (n: nat)
    ensures n <= len
    ensures 0 <= k ==> n == Min(k, len)
    ensures k < 0 ==> n == Max(0, len + k)
  {
    if k < 0 then (if len + k < 0 then 0 else len + k)
    else if k < len then k
    else len
  }

  /** The Python slice `xs[:k]`. */
  function Take<T>(xs: seq<T>, k: int): (r: seq<T>)
    ensures r <= xs
    ensures |r| == SliceLength(|xs|, k)
  {
    xs[..SliceLength(|xs|, k)]
  }

  /** A bound at least as large as the list keeps the whole list. */
  lemma TakeAll<T>(xs: seq<T>, k: int)
    requires |xs| <= k
    ensures Take(xs, k) == xs
  {
  }

  /** `idx` lists, in strictly increasing order, the positions in `b` that
      the elements of `a` were taken from: `a` is an order-preserving
      subsequence of `b` and no position of `b` is used twice. */
  ghost predicate Embeds<T>(a: seq<T>, b: seq<T>, idx: seq<nat>)
  {
    && |idx| == |a|
    && (forall j :: 0 <= j < |idx| ==> idx[j] < |b| && a[j] == b[idx[j]])
    && (forall j, k :: 0 <= j < k < |idx| ==> idx[j] < idx[k])
  }

  /** The elements of `xs` satisfying `p`, in order; the list comprehension
      `[x for x in xs if p(x)]`, built as a loop appending to a list. */
  function Filter<T>(xs: seq<T>, p: T -> bool): (r: seq<T>)
    ensures |r| <= |xs|
    ensures forall x :: x in r ==> x in xs && p(x)
    ensures forall i :: 0 <= i < |xs| && p(xs[i]) ==> xs[i] in r
  {
    if |xs| == 0 then []
    else Filter(xs[..|xs| - 1], p) + (if p(xs[|xs| - 1]) then [xs[|xs| - 1]] else [])
  }

  /** The positions of `xs` whose element satisfies `p`, increasing. */
  function Positions<T>(xs: seq<T>, p: T -> bool): (r: seq<nat>)
    ensures forall j :: 0 <= j < |r| ==> r[j] < |xs| && p(xs[r[j]])
    ensures forall j, k :: 0 <= j < k < |r| ==> r[j] < r[k]
    ensures forall i :: 0 <= i < |xs| && p(xs[i]) ==> i in r
  {
    if |xs| == 0 then []
    else
      var front := Positions(xs[..|xs| - 1], p);
      assert forall j :: 0 <= j < |front| ==> xs[..|xs| - 1][front[j]] == xs[front[j]];
      front + (if p(xs[|xs| - 1]) then [|xs| - 1] else [])
  }

  /** `Filter` keeps exactly the positions `Positions` lists: the result is
      the in-order subsequence of the elements satisfying `p`, each input
      position used at most once. */
  lemma {:induction false} FilterEmbeds<T>(xs: seq<T>, p: T -> bool)
    ensures Embeds(Filter(xs, p), xs, Positions(xs, p))
  {
    if |xs| > 0 {
      var init, last := xs[..|xs| - 1], xs[|xs| - 1];
      FilterEmbeds(init, p);
      var f, q := Filter(init, p), Positions(init, p);
      var tail: seq<T> := if p(last) then [last] else [];
      var tailIdx: seq<nat> := if p(last) then [|xs| - 1] else [];
      assert Filter(xs, p) == f + tail;
      assert Positions(xs, p) == q + tailIdx;
      forall j | 0 <= j < |q|
        ensures q[j] < |xs| && (f + tail)[j] == xs[(q + tailIdx)[j]]
      {
        assert f[j] == init[q[j]];
      }
    }
  }

  /** A prefix of an embedded sequence is embedded by the prefix of the
      positions. */
  lemma EmbedsTake<T>(a: seq<T>, b: seq<T>, idx: seq<nat>, k: int)
    requires Embeds(a, b, idx)
    ensures Embeds(Take(a, k), b, Take(idx, k))
  {
  }

  /** Every prefix is embedded by the identity positions. */
  lemma EmbedsPrefix<T>(xs: seq<T>, n: nat)
    requires n <= |xs|
    ensures Embeds(xs[..n], xs, seq(n, i => i))
  {
  }
}
