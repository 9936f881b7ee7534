/**
 The C++ candidate filter and the integer skeleton of the information
 measure: `filter_words`, the compatible/incompatible counts of
 `measure_information_gained`, and the per-score memo of
 `average_information_gained`. The floating-point entropy formula is a
 parameter `h`: the information of splitting the candidates into c
 compatible and i incompatible ones.
 */
module Filtering {
  import opened Seqs
  import opened Codec
  import opened Scoring

  /** Every candidate has a score against the guess; `lookup` of a missing
      pair is undefined, so the C++ callers rely on this. */
  predicate Scored(sc: Scorer, words: seq<WordId>, guess: WordId) {
    forall i :: 0 <= i < |words| ==> Has(sc, words[i], guess)
  }

  predicate Matches(sc: Scorer, w: WordId, guess: WordId, score: ScoreId) {
    Has(sc, w, guess) && Lookup(sc, w, guess) == score
  }

  /** `filter_words`: the candidates whose score against the guess is `score`, in order. */
  function FilterWords(sc: Scorer, words: seq<WordId>, guess: WordId, score: ScoreId): (r: seq<WordId>)
    requires Scored(sc, words, guess)
    ensures |r| <= |words|
    ensures forall w :: w in r <==> w in words && Matches(sc, w, guess, score)
  {
    if |words| == 0 then []
    else
      var w := words[|words| - 1];
      var pre := FilterWords(sc, words[..|words| - 1], guess, score);
      assert words == words[..|words| - 1] + [w];
      if Lookup(sc, w, guess) == score then pre + [w] else pre
  }

  /** Filtering keeps the relative order of the words it keeps. */
  lemma {:induction false} FilterSubsequence(sc: Scorer, words: seq<WordId>, guess: WordId, score: ScoreId)
    requires Scored(sc, words, guess)
    ensures Subsequence(FilterWords(sc, words, guess, score), words)
  {
    if |words| > 0 {
      var pre := words[..|words| - 1];
      FilterSubsequence(sc, pre, guess, score);
      var r := FilterWords(sc, words, guess, score);
      if Lookup(sc, words[|words| - 1], guess) == score {
        assert r[..|r| - 1] == FilterWords(sc, pre, guess, score);
      }
    }
  }

  /** Filtering what was already filtered changes nothing. */
  lemma {:induction false} FilterIdempotent(sc: Scorer, words: seq<WordId>, guess: WordId, score: ScoreId)
    requires Scored(sc, words, guess)
    ensures Scored(sc, FilterWords(sc, words, guess, score), guess)
    ensures FilterWords(sc, FilterWords(sc, words, guess, score), guess, score) == FilterWords(sc, words, guess, score)
  {
    var r := FilterWords(sc, words, guess, score);
    assert Scored(sc, r, guess) by {
      forall i | 0 <= i < |r|
        ensures Has(sc, r[i], guess)
      {
        assert r[i] in r;
      }
    }
    if |words| > 0 {
      var pre := words[..|words| - 1];
      var w := words[|words| - 1];
      FilterIdempotent(sc, pre, guess, score);
      if Lookup(sc, w, guess) == score {
        var p := FilterWords(sc, pre, guess, score);
        assert r == p + [w];
        assert r[..|r| - 1] == p;
      }
    }
  }

  // ---------------------------------------------------------------------
  // measure_information_gained

  /** The information measure of one split, the floating-point part of the source. */
  type Entropy = (nat, nat) -> real

  function Compatible(sc: Scorer, cands: seq<WordId>, guess: WordId, score: ScoreId): (c: nat)
    requires Scored(sc, cands, guess)
    ensures c <= |cands|
  {
    |FilterWords(sc, cands, guess, score)|
  }

  /** The information `measure_information_gained` returns: h of the two counts. */
  function Measure(sc: Scorer, score: ScoreId, guess: WordId, cands: seq<WordId>, h: Entropy): real
    requires Scored(sc, cands, guess)
  {
    var c := Compatible(sc, cands, guess, score);
    h(c, |cands| - c)
  }

  /** The counting loop of `measure_information_gained`. */
  method MeasureInformation(sc: Scorer, score: ScoreId, guess: WordId, cands: seq<WordId>, h: Entropy)
    returns (compatible: nat, incompatible: nat, information: real)
    requires Scored(sc, cands, guess)
    ensures compatible + incompatible == |cands|
    ensures compatible == |FilterWords(sc, cands, guess, score)|
    ensures information == h(compatible, incompatible) == Measure(sc, score, guess, cands, h)
  {
    compatible, incompatible := 0, 0;
    var k := 0;
    while k != |cands|
      invariant 0 <= k <= |cands|
      invariant compatible + incompatible == k
      invariant compatible == |FilterWords(sc, cands[..k], guess, score)|
    {
      assert cands[..k + 1][..k] == cands[..k];
      if Lookup(sc, cands[k], guess) == score {
        compatible := compatible + 1;
      } else {
        incompatible := incompatible + 1;
      }
      k := k + 1;
    }
    assert cands[..k] == cands;
    information := h(compatible, incompatible);
  }

  // ---------------------------------------------------------------------
  // average_information_gained

  /** The sum, over the candidates xs, of the information of the score each
      gets against the guess, every measure taken over all of cands. */
  function Total(sc: Scorer, guess: WordId, xs: seq<WordId>, cands: seq<WordId>, h: Entropy): real
    requires Scored(sc, xs, guess) && Scored(sc, cands, guess)
  {
    if |xs| == 0 then 0.0
    else
      var x := xs[|xs| - 1];
      Total(sc, guess, xs[..|xs| - 1], cands, h) + Measure(sc, Lookup(sc, x, guess), guess, cands, h)
  }

  /** `average_information_gained`; an empty candidate list divides zero by
      zero, a NaN that no comparison prefers, written None. */
  function Average(sc: Scorer, guess: WordId, cands: seq<WordId>, h: Entropy): Option<real>
    requires Scored(sc, cands, guess)
  {
    if |cands| == 0 then None else Some(Total(sc, guess, cands, cands, h) / (|cands| as real))
  }

  const Unset: real := -1.0

  /** Every candidate's score indexes the 243-entry memo; a larger byte
      would read past it. */
  predicate Patterns(sc: Scorer, cands: seq<WordId>, guess: WordId)
    requires Scored(sc, cands, guess)
  {
    forall i :: 0 <= i < |cands| ==> Lookup(sc, cands[i], guess) < PatternSpace
  }

  /** The memo holds, for every score, either the sentinel or that score's measure. */
  predicate Memo(table: seq<real>, sc: Scorer, guess: WordId, cands: seq<WordId>, h: Entropy)
    requires Scored(sc, cands, guess)
  {
    |table| == PatternSpace &&
    forall k :: 0 <= k < PatternSpace ==> table[k] == Unset || table[k] == Measure(sc, k, guess, cands, h)
  }

  /** The loop of `average_information_gained` with its 243-entry memo,
      initialised to -1. Whatever the sentinel, the memo gives the same
      average as measuring every candidate afresh. */
  method AverageInformation(sc: Scorer, guess: WordId, cands: seq<WordId>, h: Entropy) returns (average: Option<real>)
    requires Scored(sc, cands, guess) && Patterns(sc, cands, guess)
    ensures average == Average(sc, guess, cands, h)
  {
    var table := seq(PatternSpace, _ => Unset);
    var total := 0.0;
    var count := 0;
    while count != |cands|
      invariant 0 <= count <= |cands|
      invariant Memo(table, sc, guess, cands, h)
      invariant total == Total(sc, guess, cands[..count], cands, h)
    {
      var score := Lookup(sc, cands[count], guess);
      if table[score] == Unset {
        var _, _, information := MeasureInformation(sc, score, guess, cands, h);
        table := table[score := information];
      }
      assert cands[..count + 1][..count] == cands[..count];
      total := total + table[score];
      count := count + 1;
    }
    assert cands[..count] == cands;
    if count == 0 {
      average := None;
    } else {
      average := Some(total / (count as real));
    }
  }
}
