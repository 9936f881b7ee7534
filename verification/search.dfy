/**
 The two C++ `find_best_guess` overloads. Both rate each guess by
 `average_information_gained` over a pool of candidate solutions and keep
 the first strictly greatest rating. As written, the pool handed to
 `average_information_gained` is `candidate_guesses`, so the result does
 not depend on `candidate_solutions` at all; the corrected search rates
 over `candidate_solutions`.
 */
module Search {
  import opened Seqs
  import opened Codec
  import opened Scoring
  import opened Filtering
  import opened Argmax
  import opened Batches

  /** The rating of a guess when the candidates of `pool` remain. */
  function Information(sc: Scorer, pool: seq<WordId>, h: Entropy): Valuation {
    (g: WordId) => if Scored(sc, pool, g) then Average(sc, g, pool, h) else None
  }

  /** Every guess can be rated over the pool: each pair has a score, and each
      score fits the memo of `average_information_gained`. */
  predicate Ready(sc: Scorer, gs: seq<WordId>, pool: seq<WordId>) {
    forall k :: 0 <= k < |gs| ==> Scored(sc, pool, gs[k]) && Patterns(sc, pool, gs[k])
  }

  /** The sequential selection loop, rating each guess over `pool`. */
  method SelectBest(sc: Scorer, gs: seq<WordId>, pool: seq<WordId>, h: Entropy) returns (best: Pick)
    requires Ready(sc, gs, pool)
    ensures best == Best(gs, Information(sc, pool, h))
  {
    best := Start;
    var k := 0;
    while k != |gs|
      invariant 0 <= k <= |gs|
      invariant best == Best(gs[..k], Information(sc, pool, h))
    {
      assert gs[..k + 1][..k] == gs[..k];
      var information := AverageInformation(sc, gs[k], pool, h);
      if information.Some? && information.value > best.info {
        best := Pick(information.value, gs[k]);
      }
      k := k + 1;
    }
    assert gs[..k] == gs;
  }

  // ---------------------------------------------------------------------
  // Sequential find_best_guess

  /** The sequential overload as written: the guesses are rated over
      `candidate_guesses`. */
  function FindBestAsWritten(sc: Scorer, solutions: seq<WordId>, guesses: seq<WordId>, h: Entropy): WordId {
    Best(guesses, Information(sc, guesses, h)).guess
  }

  /** The sequential overload as intended: the guesses are rated over the
      remaining `candidate_solutions`. */
  function FindBest(sc: Scorer, solutions: seq<WordId>, guesses: seq<WordId>, h: Entropy): WordId {
    Best(guesses, Information(sc, solutions, h)).guess
  }

  method FindBestGuessAsWritten(sc: Scorer, solutions: seq<WordId>, guesses: seq<WordId>, h: Entropy)
    returns (best: WordId)
    requires Ready(sc, guesses, guesses)
    ensures best == FindBestAsWritten(sc, solutions, guesses, h)
  {
    var p := SelectBest(sc, guesses, guesses, h);
    best := p.guess;
  }

  method FindBestGuess(sc: Scorer, solutions: seq<WordId>, guesses: seq<WordId>, h: Entropy)
    returns (best: WordId)
    requires Ready(sc, guesses, solutions)
    ensures best == FindBest(sc, solutions, guesses, h)
  {
    var p := SelectBest(sc, guesses, solutions, h);
    best := p.guess;
  }

  /** The corrected search returns the first guess whose average
      information over the solutions is greatest, or 0 when no guess has an
      average above 0. */
  lemma FindBestFirst(sc: Scorer, solutions: seq<WordId>, guesses: seq<WordId>, h: Entropy) returns (k: int)
    requires Ready(sc, guesses, solutions)
    ensures k == -1 ==>
              && FindBest(sc, solutions, guesses, h) == 0
              && forall j :: 0 <= j < |guesses| ==> !Beats(Average(sc, guesses[j], solutions, h), 0.0)
    ensures k != -1 ==>
              && 0 <= k < |guesses| && FindBest(sc, solutions, guesses, h) == guesses[k]
              && Beats(Average(sc, guesses[k], solutions, h), 0.0)
              && var v := Average(sc, guesses[k], solutions, h).value;
                 && (forall j :: 0 <= j < k ==> !AtLeast(Average(sc, guesses[j], solutions, h), v))
                 && (forall j :: k < j < |guesses| ==> !Beats(Average(sc, guesses[j], solutions, h), v))
  {
    var value := Information(sc, solutions, h);
    assert forall j :: 0 <= j < |guesses| ==> value(guesses[j]) == Average(sc, guesses[j], solutions, h);
    k := BestFirst(guesses, value);
  }

  // ---------------------------------------------------------------------
  // Threaded find_best_guess

  /** What the threads leave behind: thread t's best over batch t, each
      starting from `*mig = 0` and a zero-initialised `best_guess`. */
  function ThreadBests(gs: seq<WordId>, n: nat, value: Valuation): (ps: seq<Pick>)
    requires n > 0
    ensures |ps| == n
  {
    var bs := Deal(gs, n);
    seq(n, t requires 0 <= t < n => Best(bs[t], value))
  }

  function FindBestThreadedAsWritten(sc: Scorer, solutions: seq<WordId>, guesses: seq<WordId>, n: nat, h: Entropy): WordId
    requires n > 0
  {
    Reduce(ThreadBests(guesses, n, Information(sc, guesses, h))).guess
  }

  function FindBestThreaded(sc: Scorer, solutions: seq<WordId>, guesses: seq<WordId>, n: nat, h: Entropy): WordId
    requires n > 0
  {
    Reduce(ThreadBests(guesses, n, Information(sc, solutions, h))).guess
  }

  /** Every guess of every batch can be rated over the pool. */
  lemma BatchesReady(sc: Scorer, gs: seq<WordId>, pool: seq<WordId>, n: nat, t: nat)
    requires n > 0 && t < n && Ready(sc, gs, pool)
    ensures Ready(sc, Deal(gs, n)[t], pool)
  {
    var b := Deal(gs, n)[t];
    DealStride(gs, n);
    forall k | 0 <= k < |b|
      ensures Scored(sc, pool, b[k]) && Patterns(sc, pool, b[k])
    {
      StrideMembers(gs, t, n, b[k]);
    }
  }

  /** The threads, run one after another: each selects over its batch. */
  method RunThreads(sc: Scorer, gs: seq<WordId>, batches: seq<seq<WordId>>, pool: seq<WordId>, n: nat, h: Entropy)
    returns (bests: seq<Pick>)
    requires n > 0 && Ready(sc, gs, pool) && batches == Deal(gs, n)
    ensures bests == ThreadBests(gs, n, Information(sc, pool, h))
  {
    bests := [];
    var t := 0;
    while t != n
      invariant 0 <= t <= n
      invariant bests == ThreadBests(gs, n, Information(sc, pool, h))[..t]
    {
      BatchesReady(sc, gs, pool, n, t);
      var p := SelectBest(sc, batches[t], pool, h);
      bests := bests + [p];
      t := t + 1;
    }
  }

  /** The final loop over the threads' results. */
  method ReduceBests(bests: seq<Pick>) returns (r: Pick)
    ensures r == Reduce(bests)
  {
    r := Start;
    var i := 0;
    while i != |bests|
      invariant 0 <= i <= |bests|
      invariant r == Reduce(bests[..i])
    {
      assert bests[..i + 1][..i] == bests[..i];
      if bests[i].info > r.info {
        r := bests[i];
      }
      i := i + 1;
    }
    assert bests[..i] == bests;
  }

  /** The threaded overload: deal the guesses, run the threads, reduce. */
  method FindBestGuessThreaded(sc: Scorer, guesses: seq<WordId>, pool: seq<WordId>, n: nat, h: Entropy)
    returns (best: WordId)
    requires n > 0 && Ready(sc, guesses, pool)
    ensures best == Reduce(ThreadBests(guesses, n, Information(sc, pool, h))).guess
  {
    var batches, goal := MakeBatches(guesses, n);
    var bests := RunThreads(sc, guesses, batches, pool, n, h);
    var r := ReduceBests(bests);
    best := r.guess;
  }

  /** Every batch best is acceptable for its batch, so the reduction is
      acceptable for all guesses and carries the same information as the
      sequential search. */
  lemma {:induction false} ThreadedChosen(gs: seq<WordId>, n: nat, value: Valuation)
    requires n > 0
    ensures Chosen(Reduce(ThreadBests(gs, n, value)), gs, value)
    ensures Reduce(ThreadBests(gs, n, value)).info == Best(gs, value).info
  {
    var bs := Deal(gs, n);
    var ps := ThreadBests(gs, n, value);
    forall t | 0 <= t < n
      ensures Chosen(ps[t], bs[t], value)
    {
      BestChosen(bs[t], value);
    }
    ReduceChosen(bs, ps, value);
    DealPartition(gs, n);
    var c := Concat(bs);
    assert forall x :: x in c <==> x in gs by {
      forall x
        ensures x in c <==> x in gs
      {
        assert x in c <==> x in multiset(c);
        assert x in gs <==> x in multiset(gs);
      }
    }
    var r := Reduce(ps);
    assert Chosen(r, gs, value) by {
      forall k | 0 <= k < |gs|
        ensures !Beats(value(gs[k]), r.info)
      {
        assert gs[k] in c;
        var j :| 0 <= j < |c| && c[j] == gs[k];
      }
    }
    BestChosen(gs, value);
    ChosenUnique(r, gs, Best(gs, value), gs, value);
  }

  /** Dealing three guesses to two threads. */
  lemma DealThree()
    ensures Deal<WordId>([1, 2, 3], 2) == [[1, 3], [2]]
  {
    var gs: seq<WordId> := [1, 2, 3];
    var e: seq<seq<WordId>> := seq(2, _ => []);
    assert e == [[], []];
    assert gs[..1][..0] == [];
    var d1: seq<seq<WordId>> := [[1], []];
    assert Deal(gs[..1], 2) == d1 by {
      assert Deal(gs[..1], 2) == e[0 := e[0] + [1]];
      assert e[0] + [1] == [1];
      assert e[0 := e[0] + [1]] == d1;
    }
    var d2: seq<seq<WordId>> := [[1], [2]];
    assert Deal(gs[..2], 2) == d2 by {
      assert gs[..2][..1] == gs[..1];
      assert (|gs[..2]| - 1) % 2 == 1;
      assert Deal(gs[..2], 2) == d1[1 := d1[1] + [2]];
      assert d1[1] + [2] == [2];
      assert d1[1 := d1[1] + [2]] == d2;
    }
    assert gs[..2] == gs[..|gs| - 1];
    assert (|gs| - 1) % 2 == 0;
    assert Deal(gs, 2) == d2[0 := d2[0] + [3]];
    assert d2[0] + [3] == [1, 3];
  }

  /** Guess 1 rates 0.5, every other guess 1.0. */
  function TieValue(g: WordId): Option<real> {
    if g == 1 then Some(0.5) else Some(1.0)
  }

  /** The two overloads can disagree on ties: the sequential loop keeps the
      earliest best guess, the threaded one the best of the earliest batch. */
  lemma TieBreaksDiffer()
    ensures Best([1, 2, 3], TieValue).guess == 2
    ensures Reduce(ThreadBests([1, 2, 3], 2, TieValue)).guess == 3
  {
    var gs: seq<WordId> := [1, 2, 3];
    assert gs[..2][..1] == gs[..1] && gs[..1][..0] == [];
    assert Best(gs[..1], TieValue) == Pick(0.5, 1);
    assert Best(gs[..2], TieValue) == Pick(1.0, 2);
    assert Best(gs, TieValue) == Pick(1.0, 2);
    DealThree();
    var b0: seq<WordId> := [1, 3];
    assert b0[..1] == [1] && b0[..1][..0] == [];
    var b1: seq<WordId> := [2];
    assert b1[..0] == [];
    var ps := ThreadBests(gs, 2, TieValue);
    assert ps[0] == Best(b0, TieValue) == Pick(1.0, 3);
    assert ps[1] == Best(b1, TieValue) == Pick(1.0, 2);
    assert ps[..1][..0] == [];
    assert Reduce(ps[..1]) == Pick(1.0, 3);
  }
}
