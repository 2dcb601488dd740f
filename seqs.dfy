/** Sequence helpers: duplicate-freedom and Python's `list(set(xs))`. */
module Seqs {

  /** No element occurs twice. */
  predicate NoDuplicates(s: seq<string>)
  {
    forall i, j :: 0 <= i < j < |s| ==> s[i] != s[j]
  }

  /** Python's `list(set(xs))`: the distinct elements of `xs`. Python leaves
      the order unspecified; this one keeps first occurrences in order. */
  function Dedupe(xs: seq<string>): (r: seq<string>)
    ensures NoDuplicates(r)
    ensures forall x :: x in r <==> x in xs
    ensures |r| <= |xs|
  {
    if xs == [] then []
    else
      var rest := Dedupe(xs[..|xs| - 1]);
      var last := xs[|xs| - 1];
      assert xs == xs[..|xs| - 1] + [last];
      if last in rest then rest else rest + [last]
  }

  /** Concatenates what `f` yields for each element of `xs`, in order. */
  function FlatMap<T>(f: T -> seq<string>, xs: seq<T>): seq<string>
  {
    if xs == [] then [] else FlatMap(f, xs[..|xs| - 1]) + f(xs[|xs| - 1])
  }

  /** An element comes out of `FlatMap` exactly when `f` yields it for some
      element of the input. */
  lemma {:induction false} FlatMapMember<T>(f: T -> seq<string>, xs: seq<T>, x: string)
    ensures x in FlatMap(f, xs) <==> exists j :: 0 <= j < |xs| && x in f(xs[j])
    decreases |xs|
  {
    if xs != [] {
      var init := xs[..|xs| - 1];
      FlatMapMember(f, init, x);
      if x in FlatMap(f, init) {
        var j :| 0 <= j < |init| && x in f(init[j]);
        assert xs[j] == init[j];
      }
      if exists j :: 0 <= j < |xs| && x in f(xs[j]) {
        var j :| 0 <= j < |xs| && x in f(xs[j]);
        if j < |init| {
          assert xs[j] == init[j];
        }
      }
    }
  }

  /** The elements of `xs` that are not in `ys`, in order: Python's
      `[x for x in xs if x not in ys]`. */
  function Without(xs: seq<string>, ys: seq<string>): (r: seq<string>)
    ensures forall x :: x in r <==> x in xs && x !in ys
    ensures |r| <= |xs|
  {
    if xs == [] then []
    else
      var init := Without(xs[..|xs| - 1], ys);
      var last := xs[|xs| - 1];
      assert xs == xs[..|xs| - 1] + [last];
      if last in ys then init else init + [last]
  }
}
