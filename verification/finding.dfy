/**
 Both `find_best_guess` overloads rate a guess by its average information
 over `candidate_guesses` instead of `candidate_solutions`. A synthetic
 three-id file shows the difference: ids 1, 2 and 3 score all-correct
 (242) against themselves and all-wrong (0) against each other, the scores
 the preprocessor writes for three letter-disjoint words such as "abcde",
 "fghij" and "klmno" (Feedback.DisjointAllWrong), here renumbered 1 to 3.
 With solutions 1 and 2 left and guesses 3 and 1, the code as written
 picks 3, which scores 0 against both solutions and so cannot tell them
 apart; rating over the solutions picks 1. The proof holds for every
 scorer of the same shape, whatever its ids mean.
 */
module PoolFinding {
  import opened Seqs
  import opened Codec
  import opened Compressed
  import opened Scoring
  import opened Filtering
  import opened Argmax
  import opened Batches
  import opened Search

  /** A synthetic file for three ids: all-correct on the diagonal, all-wrong
      elsewhere. */
  function ExampleLayout(): (l: Layout)
    ensures Sized(l) && Distinct(l.ids)
  {
    Layout(3, [1, 2, 3], [242, 0, 0, 0, 242, 0, 0, 0, 242])
  }

  function ExampleScorer(): Scorer {
    Load(ExampleLayout())
  }

  /** What `lookup` answers for the loaded example. */
  lemma ExampleLookup(i: nat, j: nat)
    requires i < 3 && j < 3
    ensures Has(ExampleScorer(), i + 1, j + 1)
    ensures Lookup(ExampleScorer(), i + 1, j + 1) == if i == j then 242 else 0
  {
    var l := ExampleLayout();
    LoadLookup(l, i, j);
    assert l.ids[i] == i + 1 && l.ids[j] == j + 1;
    CellIndex(3, i, j);
  }

  /** A two-candidate filter keeps each candidate whose score matches. */
  lemma FilterTwo(sc: Scorer, x: WordId, y: WordId, g: WordId, s: ScoreId)
    requires Has(sc, x, g) && Has(sc, y, g)
    ensures Scored(sc, [x, y], g)
    ensures |FilterWords(sc, [x, y], g, s)|
            == (if Lookup(sc, x, g) == s then 1 else 0) + (if Lookup(sc, y, g) == s then 1 else 0)
  {
    var xy := [x, y];
    assert xy[..1] == [x] && xy[..1][..0] == [];
  }

  /** The average over two candidates is the mean of their two measures. */
  lemma AverageTwo(sc: Scorer, g: WordId, x: WordId, y: WordId, h: Entropy)
    requires Has(sc, x, g) && Has(sc, y, g)
    ensures Scored(sc, [x, y], g)
    ensures Average(sc, g, [x, y], h)
            == Some((Measure(sc, Lookup(sc, x, g), g, [x, y], h) + Measure(sc, Lookup(sc, y, g), g, [x, y], h)) / 2.0)
  {
    var xy := [x, y];
    assert xy[..1] == [x] && xy[..1][..0] == [];
    assert Total(sc, g, xy[..1][..0], xy, h) == 0.0;
    assert Total(sc, g, xy[..1], xy, h) == Measure(sc, Lookup(sc, x, g), g, xy, h);
  }

  /** A guess that scores two candidates alike has the information of no
      split; one that scores them apart, that of an even split. */
  lemma RateTwo(sc: Scorer, g: WordId, x: WordId, y: WordId, h: Entropy)
    requires Has(sc, x, g) && Has(sc, y, g)
    ensures Scored(sc, [x, y], g)
    ensures Lookup(sc, x, g) == Lookup(sc, y, g) ==> Average(sc, g, [x, y], h) == Some(h(2, 0))
    ensures Lookup(sc, x, g) != Lookup(sc, y, g) ==> Average(sc, g, [x, y], h) == Some(h(1, 1))
  {
    FilterTwo(sc, x, y, g, Lookup(sc, x, g));
    FilterTwo(sc, x, y, g, Lookup(sc, y, g));
    AverageTwo(sc, g, x, y, h);
  }

  /** The scores the counterexample needs: guesses 3 and 1 each tell 3 and
      1 apart, guess 1 tells 1 and 2 apart, and guess 3 scores 1 and 2 alike. */
  predicate Shape(sc: Scorer) {
    && Has(sc, 3, 3) && Has(sc, 1, 3) && Has(sc, 2, 3)
    && Has(sc, 3, 1) && Has(sc, 1, 1) && Has(sc, 2, 1)
    && Lookup(sc, 3, 3) != Lookup(sc, 1, 3) && Lookup(sc, 3, 1) != Lookup(sc, 1, 1)
    && Lookup(sc, 1, 1) != Lookup(sc, 2, 1) && Lookup(sc, 1, 3) == Lookup(sc, 2, 3)
  }

  /** The loaded synthetic file has that shape. */
  lemma ExampleShape()
    ensures Shape(ExampleScorer())
  {
    ExampleLookup(2, 2);
    ExampleLookup(0, 2);
    ExampleLookup(1, 2);
    ExampleLookup(2, 0);
    ExampleLookup(0, 0);
    ExampleLookup(1, 0);
  }

  /** Rated over the guesses 3 and 1 themselves, both guesses split them evenly. */
  lemma WrittenRatings(sc: Scorer, h: Entropy)
    requires Shape(sc)
    ensures Information(sc, [3, 1], h)(3) == Some(h(1, 1))
    ensures Information(sc, [3, 1], h)(1) == Some(h(1, 1))
  {
    RateTwo(sc, 3, 3, 1, h);
    RateTwo(sc, 1, 3, 1, h);
  }

  /** Rated over the solutions 1 and 2, guess 3 does not split them and guess 1 does. */
  lemma FixedRatings(sc: Scorer, h: Entropy)
    requires Shape(sc) && h(2, 0) == 0.0
    ensures Information(sc, [1, 2], h)(3) == Some(0.0)
    ensures Information(sc, [1, 2], h)(1) == Some(h(1, 1))
  {
    RateTwo(sc, 3, 1, 2, h);
    RateTwo(sc, 1, 1, 2, h);
  }

  /** Two-guess searches, as the loop sees them. */
  lemma BestTwo(a: WordId, b: WordId, value: Valuation)
    ensures Best([a, b], value) == Step(Step(Start, value(a), a), value(b), b)
  {
    var ab := [a, b];
    assert ab[..1] == [a] && ab[..1][..0] == [];
    assert Best(ab[..1][..0], value) == Start;
    assert Best(ab[..1], value) == Step(Start, value(a), a);
  }

  lemma DealTwo(a: WordId, b: WordId)
    ensures Deal([a, b], 2) == [[a], [b]]
  {
    var ab := [a, b];
    var e: seq<seq<WordId>> := seq(2, _ => []);
    assert ab[..1] == [a] && ab[..1][..0] == [];
    assert Deal(ab[..1], 2) == e[0 := e[0] + [a]];
    assert e[0] + [a] == [a];
    var d: seq<seq<WordId>> := [[a], []];
    assert Deal(ab[..1], 2) == d;
    assert (|ab| - 1) % 2 == 1;
    assert d[1] + [b] == [b];
    assert d[1 := d[1] + [b]] == [[a], [b]];
  }

  lemma ReduceTwo(p: Pick, q: Pick)
    ensures Reduce([p, q]) == Step(Step(Start, Some(p.info), p.guess), Some(q.info), q.guess)
  {
    var pq := [p, q];
    assert pq[..1] == [p] && pq[..1][..0] == [];
    assert Reduce(pq[..1][..0]) == Start;
  }

  lemma BestOne(a: WordId, value: Valuation)
    ensures Best([a], value) == Step(Start, value(a), a)
  {
    var s := [a];
    assert s[..0] == [];
  }

  /** With solutions 1 and 2 and guesses 3 and 1, for any measure under
      which an even split of two is informative and no split is not, both
      overloads as written pick 3, although guess 3 scores the two solutions
      alike; rating over the solutions picks 1. */
  lemma PoolCounterexample(sc: Scorer, h: Entropy)
    requires Shape(sc) && h(1, 1) > 0.0 && h(2, 0) == 0.0
    ensures Lookup(sc, 1, 3) == Lookup(sc, 2, 3)
    ensures FindBestAsWritten(sc, [1, 2], [3, 1], h) == 3
    ensures FindBestThreadedAsWritten(sc, [1, 2], [3, 1], 2, h) == 3
    ensures FindBest(sc, [1, 2], [3, 1], h) == 1
    ensures FindBestThreaded(sc, [1, 2], [3, 1], 2, h) == 1
  {
    var guesses: seq<WordId> := [3, 1];
    var written := Information(sc, guesses, h);
    var fixed := Information(sc, [1, 2], h);
    WrittenRatings(sc, h);
    FixedRatings(sc, h);
    BestTwo(3, 1, written);
    BestTwo(3, 1, fixed);
    DealTwo(3, 1);
    BestOne(3, written);
    BestOne(1, written);
    BestOne(3, fixed);
    BestOne(1, fixed);
    assert ThreadBests(guesses, 2, written) == [Pick(h(1, 1), 3), Pick(h(1, 1), 1)];
    assert ThreadBests(guesses, 2, fixed) == [Start, Pick(h(1, 1), 1)];
    ReduceTwo(Pick(h(1, 1), 3), Pick(h(1, 1), 1));
    ReduceTwo(Start, Pick(h(1, 1), 1));
  }
}
