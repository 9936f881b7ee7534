/**
 The work split of the threaded C++ `find_best_guess`: guess number k goes
 to batch k mod nthreads, the batch index advancing as `i = (i + 1) % nthreads`,
 and `progress_goal` counts the guesses dealt.
 */
module Batches {
  import opened Seqs
  import opened Positional

  /** The batches after dealing out gs. */
  function Deal<T>(gs: seq<T>, n: nat): (bs: seq<seq<T>>)
    requires n > 0
    ensures |bs| == n
  {
    if |gs| == 0 then seq(n, _ => [])
    else
      var bs := Deal(gs[..|gs| - 1], n);
      var t := (|gs| - 1) % n;
      bs[t := bs[t] + [gs[|gs| - 1]]]
  }

  /** Reference: the elements of gs at the positions congruent to t modulo n, in order. */
  function Stride<T>(gs: seq<T>, t: nat, n: nat): seq<T>
    requires n > 0
  {
    if |gs| == 0 then []
    else Stride(gs[..|gs| - 1], t, n) + (if (|gs| - 1) % n == t then [gs[|gs| - 1]] else [])
  }

  /** Batch t is the stride of positions congruent to t. */
  lemma {:induction false} DealStride<T>(gs: seq<T>, n: nat)
    requires n > 0
    ensures forall t :: 0 <= t < n ==> Deal(gs, n)[t] == Stride(gs, t, n)
  {
    if |gs| > 0 {
      DealStride(gs[..|gs| - 1], n);
    }
  }

  /** A stride holds exactly the elements at its positions. */
  lemma {:induction false} StrideMembers<T>(gs: seq<T>, t: nat, n: nat, x: T)
    requires n > 0
    ensures x in Stride(gs, t, n) <==> exists k :: 0 <= k < |gs| && k % n == t && gs[k] == x
  {
    if |gs| > 0 {
      var pre := gs[..|gs| - 1];
      StrideMembers(pre, t, n, x);
      assert forall k :: 0 <= k < |pre| ==> gs[k] == pre[k];
    }
  }

  /** Each batch keeps the order of the guesses. */
  lemma {:induction false} StrideSubsequence<T>(gs: seq<T>, t: nat, n: nat)
    requires n > 0
    ensures Subsequence(Stride(gs, t, n), gs)
  {
    if |gs| > 0 {
      var pre := gs[..|gs| - 1];
      StrideSubsequence(pre, t, n);
      var s := Stride(gs, t, n);
      if (|gs| - 1) % n == t {
        assert s[..|s| - 1] == Stride(pre, t, n);
      } else {
        assert s == Stride(pre, t, n);
      }
    }
  }

  /** Appending to one batch adds one element to the concatenation. */
  lemma {:induction false} ConcatAppend<T>(bs: seq<seq<T>>, t: nat, x: T)
    requires t < |bs|
    ensures multiset(Concat(bs[t := bs[t] + [x]])) == multiset(Concat(bs)) + multiset{x}
  {
    var n := |bs| - 1;
    var bs' := bs[t := bs[t] + [x]];
    assert Concat(bs') == Concat(bs'[..n]) + bs'[n];
    assert Concat(bs) == Concat(bs[..n]) + bs[n];
    if t < n {
      assert bs'[..n] == bs[..n][t := bs[t] + [x]];
      ConcatAppend(bs[..n], t, x);
    } else {
      assert bs'[..n] == bs[..n];
    }
  }

  lemma {:induction false} ConcatEmpty<T>(n: nat)
    ensures Concat(seq<seq<T>>(n, _ => [])) == []
  {
    if n > 0 {
      ConcatEmpty<T>(n - 1);
      assert seq<seq<T>>(n, _ => [])[..n - 1] == seq<seq<T>>(n - 1, _ => []);
    }
  }

  /** The batches partition the guesses: together they hold every guess as
      many times as gs does. */
  lemma {:induction false} DealPartition<T>(gs: seq<T>, n: nat)
    requires n > 0
    ensures multiset(Concat(Deal(gs, n))) == multiset(gs)
    ensures |Concat(Deal(gs, n))| == |gs|
  {
    if |gs| == 0 {
      ConcatEmpty<T>(n);
    } else {
      var pre := gs[..|gs| - 1];
      DealPartition(pre, n);
      ConcatAppend(Deal(pre, n), (|gs| - 1) % n, gs[|gs| - 1]);
      assert gs == pre + [gs[|gs| - 1]];
    }
    assert |multiset(Concat(Deal(gs, n)))| == |Concat(Deal(gs, n))|;
  }

  /** One step of `i = (i + 1) % nthreads` keeps the counter at k mod n. */
  lemma {:induction false} NextBatch(k: nat, n: nat)
    requires n > 0
    ensures (k + 1) % n == (k % n + 1) % n
  {
    var q, r := k / n, k % n;
    if r + 1 < n {
      DivModUnique(k + 1, n, q, r + 1);
      DivModUnique(r + 1, n, 0, r + 1);
    } else {
      DivModUnique(k + 1, n, q + 1, 0);
      DivModUnique(r + 1, n, 1, 0);
    }
  }

  /** The dealing loop of the threaded overload. */
  method MakeBatches<T>(gs: seq<T>, n: nat) returns (batches: seq<seq<T>>, goal: nat)
    requires n > 0
    ensures batches == Deal(gs, n)
    ensures goal == |gs|
  {
    batches := seq(n, _ => []);
    goal := 0;
    var i := 0;
    while goal != |gs|
      invariant 0 <= goal <= |gs|
      invariant i == goal % n
      invariant batches == Deal(gs[..goal], n)
    {
      assert gs[..goal + 1][..goal] == gs[..goal];
      batches := batches[i := batches[i] + [gs[goal]]];
      NextBatch(goal, n);
      i := (i + 1) % n;
      goal := goal + 1;
    }
    assert gs[..goal] == gs;
  }
}
