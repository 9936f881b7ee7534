/**
 The selection loops of the C++ `find_best_guess`: a running best
 (information, guess) that starts at (0, 0) and is replaced only by a
 strictly greater value, and the same rule applied to the per-batch bests
 of the threaded overload. The information of a guess is an abstract
 valuation; None stands for a NaN, which `>` never prefers.
 */
module Argmax {
  import opened Seqs
  import opened Codec

  datatype Pick = Pick(info: real, guess: WordId)

  /** `most_information_gained = 0`, `best_guess = 0`. */
  const Start: Pick := Pick(0.0, 0)

  type Valuation = WordId -> Option<real>

  predicate Beats(o: Option<real>, m: real) {
    o.Some? && o.value > m
  }

  predicate AtLeast(o: Option<real>, m: real) {
    o.Some? && o.value >= m
  }

  /** One iteration: `if (information > most_information_gained)`. */
  function Step(p: Pick, o: Option<real>, g: WordId): Pick {
    if Beats(o, p.info) then Pick(o.value, g) else p
  }

  /** The sequential loop over the guesses. */
  function Best(gs: seq<WordId>, value: Valuation): Pick {
    if |gs| == 0 then Start
    else
      var g := gs[|gs| - 1];
      Step(Best(gs[..|gs| - 1], value), value(g), g)
  }

  /** An acceptable answer for xs: no member beats it, and it is either the
      starting pick or a member together with that member's value. */
  predicate Chosen(p: Pick, xs: seq<WordId>, value: Valuation) {
    && p.info >= 0.0
    && (forall k :: 0 <= k < |xs| ==> !Beats(value(xs[k]), p.info))
    && (p == Start || (p.info > 0.0 && p.guess in xs && value(p.guess) == Some(p.info)))
  }

  lemma {:induction false} BestChosen(gs: seq<WordId>, value: Valuation)
    ensures Chosen(Best(gs, value), gs, value)
  {
    if |gs| > 0 {
      var pre := gs[..|gs| - 1];
      BestChosen(pre, value);
      assert gs == pre + [gs[|gs| - 1]];
    }
  }

  /** The sequential loop keeps the first guess of greatest value; it
      returns (0, 0) exactly when no value exceeds 0. */
  lemma {:induction false} BestFirst(gs: seq<WordId>, value: Valuation) returns (k: int)
    ensures k == -1 <==> Best(gs, value) == Start
    ensures k == -1 ==> forall j :: 0 <= j < |gs| ==> !Beats(value(gs[j]), 0.0)
    ensures k != -1 ==>
              && 0 <= k < |gs| && Beats(value(gs[k]), 0.0)
              && Best(gs, value) == Pick(value(gs[k]).value, gs[k])
              && (forall j :: 0 <= j < k ==> !AtLeast(value(gs[j]), value(gs[k]).value))
              && (forall j :: k < j < |gs| ==> !Beats(value(gs[j]), value(gs[k]).value))
  {
    if |gs| == 0 {
      k := -1;
    } else {
      var pre := gs[..|gs| - 1];
      var g := gs[|gs| - 1];
      var k' := BestFirst(pre, value);
      BestChosen(pre, value);
      if Beats(value(g), Best(pre, value).info) {
        k := |gs| - 1;
        assert forall j :: 0 <= j < k ==> gs[j] == pre[j];
      } else {
        k := k';
        assert forall j :: 0 <= j < |pre| ==> gs[j] == pre[j];
      }
    }
  }

  /** Two acceptable answers for sequences with the same members carry the same value. */
  lemma ChosenUnique(p: Pick, xs: seq<WordId>, q: Pick, ys: seq<WordId>, value: Valuation)
    requires Chosen(p, xs, value) && Chosen(q, ys, value)
    requires forall x :: x in xs <==> x in ys
    ensures p.info == q.info
  {
    if q != Start {
      var k :| 0 <= k < |xs| && xs[k] == q.guess;
    }
    if p != Start {
      var k :| 0 <= k < |ys| && ys[k] == p.guess;
    }
  }

  // ---------------------------------------------------------------------
  // The reduction over the threads' results

  /** The final loop of the threaded overload, over the per-thread bests. */
  function Reduce(ps: seq<Pick>): Pick {
    if |ps| == 0 then Start
    else
      var p := ps[|ps| - 1];
      Step(Reduce(ps[..|ps| - 1]), Some(p.info), p.guess)
  }

  /** Reducing acceptable answers for every batch gives an acceptable answer
      for all the batches together. */
  lemma {:induction false} ReduceChosen(bs: seq<seq<WordId>>, ps: seq<Pick>, value: Valuation)
    requires |ps| == |bs|
    requires forall t :: 0 <= t < |bs| ==> Chosen(ps[t], bs[t], value)
    ensures Chosen(Reduce(ps), Concat(bs), value)
  {
    if |bs| > 0 {
      var n := |bs| - 1;
      ReduceChosen(bs[..n], ps[..n], value);
      var r := Reduce(ps[..n]);
      var p := ps[n];
      var c := Concat(bs);
      assert c == Concat(bs[..n]) + bs[n];
      assert Chosen(p, bs[n], value);
      if p.info > r.info {
        assert Reduce(ps) == p;
        forall k | 0 <= k < |c|
          ensures !Beats(value(c[k]), p.info)
        {
          if k >= |Concat(bs[..n])| {
            assert c[k] == bs[n][k - |Concat(bs[..n])|];
          }
        }
      } else {
        assert Reduce(ps) == r;
        forall k | 0 <= k < |c|
          ensures !Beats(value(c[k]), r.info)
        {
          if k >= |Concat(bs[..n])| {
            assert c[k] == bs[n][k - |Concat(bs[..n])|];
          }
        }
      }
    }
  }
}
