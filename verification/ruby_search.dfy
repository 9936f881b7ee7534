/**
 The integer skeleton of the two Ruby solvers' search: wordle.rb counts
 the candidates compatible with one score (`information_gained`),
 ruby/wordle.rb buckets the candidates by score with `group_by`, and both
 pick a guess with `max_by`. Scores come from the table lookup, nil (None)
 for a missing key; the floating-point entropy is left to the caller.
 */
module RubySearch {
  import opened Seqs
  import opened ScoreTable

  /** The score block of both solvers: a candidate's score against the guess. */
  function ScoreAgainst(t: Table, guess: string): string -> Option<int> {
    c => Lookup(t, c, guess)
  }

  // ---------------------------------------------------------------------
  // wordle.rb information_gained

  /** `candidate_solutions.count { score(...) == guess_score }`. */
  function CompatibleCount(t: Table, guessScore: Option<int>, guess: string, cands: seq<string>): (n: nat)
    ensures n <= |cands|
  {
    if |cands| == 0 then 0
    else
      CompatibleCount(t, guessScore, guess, cands[..|cands| - 1])
      + (if Lookup(t, cands[|cands| - 1], guess) == guessScore then 1 else 0)
  }

  /** `incompatible_count = candidate_solutions.size - compatible_count`. */
  function IncompatibleCount(t: Table, guessScore: Option<int>, guess: string, cands: seq<string>): nat {
    |cands| - CompatibleCount(t, guessScore, guess, cands)
  }

  /** Reference: the candidates whose score differs, counted directly. */
  function MismatchCount(t: Table, guessScore: Option<int>, guess: string, cands: seq<string>): nat {
    if |cands| == 0 then 0
    else
      MismatchCount(t, guessScore, guess, cands[..|cands| - 1])
      + (if Lookup(t, cands[|cands| - 1], guess) != guessScore then 1 else 0)
  }

  /** The incompatible count is the number of candidates with another
      score, so the two counts add up to the candidate count. */
  lemma {:induction false} CountsSplit(t: Table, guessScore: Option<int>, guess: string, cands: seq<string>)
    ensures IncompatibleCount(t, guessScore, guess, cands) == MismatchCount(t, guessScore, guess, cands)
    ensures CompatibleCount(t, guessScore, guess, cands) + IncompatibleCount(t, guessScore, guess, cands) == |cands|
  {
    if |cands| > 0 {
      CountsSplit(t, guessScore, guess, cands[..|cands| - 1]);
    }
  }

  // ---------------------------------------------------------------------
  // ruby/wordle.rb group_by

  datatype Group<K, V> = Group(key: K, members: seq<V>)

  function GroupKeys<K, V>(gs: seq<Group<K, V>>): (ks: seq<K>)
    ensures |ks| == |gs| && forall j :: 0 <= j < |gs| ==> ks[j] == gs[j].key
  {
    seq(|gs|, j requires 0 <= j < |gs| => gs[j].key)
  }

  /** Adding one element: to the group of its key, or to a new group at the end. */
  function Place<K(==), V>(gs: seq<Group<K, V>>, k: K, v: V): seq<Group<K, V>> {
    if |gs| == 0 then [Group(k, [v])]
    else if gs[0].key == k then [Group(k, gs[0].members + [v])] + gs[1..]
    else [gs[0]] + Place(gs[1..], k, v)
  }

  /** Ruby `group_by`: a hash from key to the elements with that key, in the
      order the keys first appear. */
  function GroupBy<K(==), V>(xs: seq<V>, key: V -> K): seq<Group<K, V>> {
    if |xs| == 0 then []
    else Place(GroupBy(xs[..|xs| - 1], key), key(xs[|xs| - 1]), xs[|xs| - 1])
  }

  /** The members of the first group with key k; none when there is no such group. */
  function MembersOf<K(==), V>(gs: seq<Group<K, V>>, k: K): seq<V> {
    if |gs| == 0 then []
    else if gs[0].key == k then gs[0].members
    else MembersOf(gs[1..], k)
  }

  /** Reference: the elements of xs with key k, in order. */
  function Select<K(==), V>(xs: seq<V>, key: V -> K, k: K): seq<V> {
    if |xs| == 0 then []
    else Select(xs[..|xs| - 1], key, k) + (if key(xs[|xs| - 1]) == k then [xs[|xs| - 1]] else [])
  }

  function Sizes<K, V>(gs: seq<Group<K, V>>): nat {
    if |gs| == 0 then 0 else |gs[0].members| + Sizes(gs[1..])
  }

  function KeysOf<K, V>(xs: seq<V>, key: V -> K): (ks: seq<K>)
    ensures |ks| == |xs| && forall i :: 0 <= i < |xs| ==> ks[i] == key(xs[i])
  {
    seq(|xs|, i requires 0 <= i < |xs| => key(xs[i]))
  }

  lemma {:induction false} PlaceKeys<K, V>(gs: seq<Group<K, V>>, k: K, v: V)
    ensures GroupKeys(Place(gs, k, v)) == if k in GroupKeys(gs) then GroupKeys(gs) else GroupKeys(gs) + [k]
  {
    if |gs| > 0 {
      var ks := GroupKeys(gs);
      var p := Place(gs, k, v);
      if gs[0].key == k {
        assert ks[0] == k;
        assert GroupKeys(p) == ks;
      } else {
        var rest := gs[1..];
        PlaceKeys(rest, k, v);
        assert ks == [gs[0].key] + GroupKeys(rest);
        assert p == [gs[0]] + Place(rest, k, v);
        assert GroupKeys(p) == [gs[0].key] + GroupKeys(Place(rest, k, v));
        assert (k in ks) == (k in GroupKeys(rest));
      }
    }
  }

  lemma {:induction false} PlaceMembers<K, V>(gs: seq<Group<K, V>>, k: K, v: V, k': K)
    ensures MembersOf(Place(gs, k, v), k') == MembersOf(gs, k') + (if k' == k then [v] else [])
  {
    if |gs| > 0 && gs[0].key != k {
      PlaceMembers(gs[1..], k, v, k');
      assert Place(gs, k, v)[1..] == Place(gs[1..], k, v);
    } else if |gs| > 0 {
      assert Place(gs, k, v)[1..] == gs[1..];
    }
  }

  lemma {:induction false} PlaceSizes<K, V>(gs: seq<Group<K, V>>, k: K, v: V)
    ensures Sizes(Place(gs, k, v)) == Sizes(gs) + 1
  {
    if |gs| > 0 && gs[0].key != k {
      PlaceSizes(gs[1..], k, v);
      assert Place(gs, k, v)[1..] == Place(gs[1..], k, v);
    } else if |gs| > 0 {
      assert Place(gs, k, v)[1..] == gs[1..];
    } else {
      assert Place(gs, k, v)[1..] == [];
    }
  }

  /** With distinct keys, each group holds the members MembersOf finds for its key. */
  lemma {:induction false} MembersOfAt<K, V>(gs: seq<Group<K, V>>, j: nat)
    requires j < |gs| && Distinct(GroupKeys(gs))
    ensures MembersOf(gs, gs[j].key) == gs[j].members
  {
    if j > 0 {
      assert GroupKeys(gs)[0] != GroupKeys(gs)[j];
      var rest := gs[1..];
      assert GroupKeys(rest) == GroupKeys(gs)[1..];
      MembersOfAt(rest, j - 1);
    }
  }

  /** The keys of `group_by` are the distinct keys of the elements, in order
      of first appearance. */
  lemma {:induction false} GroupByKeys<K, V>(xs: seq<V>, key: V -> K)
    ensures GroupKeys(GroupBy(xs, key)) == Uniq(KeysOf(xs, key))
  {
    if |xs| > 0 {
      var pre := xs[..|xs| - 1];
      var x := xs[|xs| - 1];
      GroupByKeys(pre, key);
      PlaceKeys(GroupBy(pre, key), key(x), x);
      var ks := KeysOf(xs, key);
      assert ks[..|ks| - 1] == KeysOf(pre, key);
      var u := Uniq(KeysOf(pre, key));
      assert Uniq(ks) == if key(x) in u then u else u + [key(x)];
    }
  }

  /** Each key's group is exactly the elements with that key, in order. */
  lemma {:induction false} GroupByMembers<K, V>(xs: seq<V>, key: V -> K, k: K)
    ensures MembersOf(GroupBy(xs, key), k) == Select(xs, key, k)
  {
    if |xs| > 0 {
      var pre := xs[..|xs| - 1];
      GroupByMembers(pre, key, k);
      PlaceMembers(GroupBy(pre, key), key(xs[|xs| - 1]), xs[|xs| - 1], k);
    }
  }

  /** The group sizes add up to the number of elements. */
  lemma {:induction false} GroupBySizes<K, V>(xs: seq<V>, key: V -> K)
    ensures Sizes(GroupBy(xs, key)) == |xs|
  {
    if |xs| > 0 {
      var pre := xs[..|xs| - 1];
      GroupBySizes(pre, key);
      PlaceSizes(GroupBy(pre, key), key(xs[|xs| - 1]), xs[|xs| - 1]);
    }
  }

  /** The number of candidates `select`ed for a score is its compatible count. */
  lemma {:induction false} SelectCount(t: Table, guessScore: Option<int>, guess: string, cands: seq<string>)
    ensures |Select(cands, ScoreAgainst(t, guess), guessScore)| == CompatibleCount(t, guessScore, guess, cands)
  {
    if |cands| > 0 {
      SelectCount(t, guessScore, guess, cands[..|cands| - 1]);
    }
  }

  /** The buckets of `average_information_gained`: distinct scores in order
      of first appearance; each bucket holds exactly the candidates with its
      score, as many as `information_gained` counts compatible; and the
      bucket sizes add up to the candidate count. */
  lemma {:induction false} Buckets(t: Table, guess: string, cands: seq<string>)
    ensures var gs := GroupBy(cands, ScoreAgainst(t, guess));
            && GroupKeys(gs) == Uniq(KeysOf(cands, ScoreAgainst(t, guess)))
            && (forall j :: 0 <= j < |gs| ==>
                  && gs[j].members == Select(cands, ScoreAgainst(t, guess), gs[j].key)
                  && |gs[j].members| == CompatibleCount(t, gs[j].key, guess, cands))
            && Sizes(gs) == |cands|
  {
    var key := ScoreAgainst(t, guess);
    var gs := GroupBy(cands, key);
    GroupByKeys(cands, key);
    forall j | 0 <= j < |gs|
      ensures gs[j].members == Select(cands, key, gs[j].key)
      ensures |gs[j].members| == CompatibleCount(t, gs[j].key, guess, cands)
    {
      MembersOfAt(gs, j);
      GroupByMembers(cands, key, gs[j].key);
      SelectCount(t, gs[j].key, guess, cands);
    }
    GroupBySizes(cands, key);
  }

  // ---------------------------------------------------------------------
  // find_best_guess: max_by

  /** Ruby `max_by`: nil for an empty list, otherwise the first element of
      greatest value (a later element replaces it only when strictly greater). */
  function MaxBy<T>(xs: seq<T>, f: T -> real): (r: Option<T>)
    ensures r.None? <==> |xs| == 0
    ensures r.Some? ==> r.value in xs && forall i :: 0 <= i < |xs| ==> f(xs[i]) <= f(r.value)
  {
    if |xs| == 0 then None
    else
      var m := MaxBy(xs[..|xs| - 1], f);
      var x := xs[|xs| - 1];
      assert xs == xs[..|xs| - 1] + [x];
      if m.None? || f(x) > f(m.value) then Some(x) else m
  }

  /** The element `max_by` returns comes before every other element of the same value. */
  lemma {:induction false} MaxByFirst<T>(xs: seq<T>, f: T -> real) returns (k: nat)
    requires |xs| > 0
    ensures k < |xs| && MaxBy(xs, f) == Some(xs[k])
    ensures forall j :: 0 <= j < k ==> f(xs[j]) < f(xs[k])
  {
    var pre := xs[..|xs| - 1];
    var x := xs[|xs| - 1];
    if |pre| == 0 {
      k := 0;
    } else {
      var k' := MaxByFirst(pre, f);
      if f(x) > f(MaxBy(pre, f).value) {
        k := |xs| - 1;
        assert forall j :: 0 <= j < k ==> xs[j] == pre[j];
      } else {
        k := k';
      }
    }
  }
}
