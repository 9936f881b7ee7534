/**
 Small sequence vocabulary shared by the modules: an optional value
 (Ruby's nil, a missing map entry), duplicate-freedom and Ruby's
 order-keeping `uniq`.
 */
module Seqs {

  datatype Option<T> = None | Some(value: T)

  predicate Distinct<T(==)>(xs: seq<T>) {
    forall i, j :: 0 <= i < j < |xs| ==> xs[i] != xs[j]
  }

  /** Ruby `uniq`: the first occurrence of every element, in order. */
  function Uniq<T(==)>(xs: seq<T>): (u: seq<T>)
    ensures Distinct(u)
    ensures forall i :: 0 <= i < |xs| ==> xs[i] in u
    ensures forall i :: 0 <= i < |u| ==> u[i] in xs
    ensures |u| <= |xs|
  {
    if |xs| == 0 then []
    else
      var pre := Uniq(xs[..|xs| - 1]);
      var x := xs[|xs| - 1];
      assert xs == xs[..|xs| - 1] + [x];
      if x in pre then pre else pre + [x]
  }

  /** `uniq` keeps a duplicate-free sequence as it is. */
  lemma {:induction false} UniqDistinct<T>(xs: seq<T>)
    requires Distinct(xs)
    ensures Uniq(xs) == xs
  {
    if |xs| > 0 {
      var pre := xs[..|xs| - 1];
      UniqDistinct(pre);
      assert xs[|xs| - 1] !in pre;
      assert xs == pre + [xs[|xs| - 1]];
    }
  }

  /** The elements of a sequence, as a set. */
  function Elems<T>(xs: seq<T>): (e: set<T>)
    ensures forall i :: 0 <= i < |xs| ==> xs[i] in e
    ensures forall x :: x in e ==> x in xs
  {
    if |xs| == 0 then {} else Elems(xs[..|xs| - 1]) + {xs[|xs| - 1]}
  }

  /** A duplicate-free sequence has as many elements as its set, and any
      sequence at least as many. */
  lemma {:induction false} ElemsCard<T>(xs: seq<T>)
    ensures |Elems(xs)| <= |xs|
    ensures Distinct(xs) ==> |Elems(xs)| == |xs|
  {
    if |xs| > 0 {
      var pre := xs[..|xs| - 1];
      ElemsCard(pre);
      if Distinct(xs) {
        assert xs[|xs| - 1] !in pre;
      }
    }
  }

  lemma {:induction false} SubsetCard<T>(a: set<T>, b: set<T>)
    requires a <= b
    ensures |a| <= |b|
    decreases a
  {
    if a != {} {
      var x :| x in a;
      SubsetCard(a - {x}, b - {x});
    }
  }

  /** A duplicate-free sequence drawn from ys is no longer than ys. */
  lemma DistinctWithin<T>(xs: seq<T>, ys: seq<T>)
    requires Distinct(xs)
    requires forall i :: 0 <= i < |xs| ==> xs[i] in ys
    ensures |xs| <= |ys|
  {
    ElemsCard(xs);
    ElemsCard(ys);
    SubsetCard(Elems(xs), Elems(ys));
  }

  /** a is an order-preserving subsequence of b. */
  predicate Subsequence<T(==)>(a: seq<T>, b: seq<T>)
    decreases |b|
  {
    if |b| == 0 then |a| == 0
    else
      (|a| > 0 && a[|a| - 1] == b[|b| - 1] && Subsequence(a[..|a| - 1], b[..|b| - 1]))
      || Subsequence(a, b[..|b| - 1])
  }

  /** The sequences of bs, one after the other. */
  function Concat<T>(bs: seq<seq<T>>): seq<T> {
    if |bs| == 0 then [] else Concat(bs[..|bs| - 1]) + bs[|bs| - 1]
  }
}
