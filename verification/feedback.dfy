/**
 Wordle feedback: the verdict each position of a guess receives against a
 solution (score.rb).

 `Score` is the two-pass algorithm of the source: pass one marks exact
 matches and consumes them from a letter tally of the solution; pass two
 walks left to right and marks a still-wrong position misplaced while the
 tally holds its letter. `Reference` is an independent, closed-form
 statement of the same greedy rule, and `Score` is proved to compute it.
 */
module Feedback {

  datatype Verdict = Correct | Misplaced | Wrong

  /** Position i holds the same letter in solution and guess. A guess
      shorter than the solution has no letter there (Ruby's zip pads with nil). */
  predicate Exact(s: string, g: string, i: nat)
    requires i < |s|
  {
    i < |g| && s[i] == g[i]
  }

  /** How many of the first n positions are exact matches holding letter x. */
  function ExactCount(s: string, g: string, x: char, n: nat): nat
    requires n <= |s|
  {
    if n == 0 then 0
    else ExactCount(s, g, x, n - 1) + (if Exact(s, g, n - 1) && s[n - 1] == x then 1 else 0)
  }

  /** How many of the first n positions are not exactly matched and hold x in the solution. */
  function OpenCount(s: string, g: string, x: char, n: nat): nat
    requires n <= |s|
  {
    if n == 0 then 0
    else OpenCount(s, g, x, n - 1) + (if !Exact(s, g, n - 1) && s[n - 1] == x then 1 else 0)
  }

  /** The copies of x in the solution left over for misplaced marks. */
  function Unmatched(s: string, g: string, x: char): nat
  {
    OpenCount(s, g, x, |s|)
  }

  /** How many of the first n positions compete for a misplaced mark with
      letter x: inside the guess, not exactly matched, guessing x. */
  function ContenderCount(s: string, g: string, x: char, n: nat): nat
    requires n <= |s|
  {
    if n == 0 then 0
    else
      ContenderCount(s, g, x, n - 1)
      + (if n - 1 < |g| && !Exact(s, g, n - 1) && g[n - 1] == x then 1 else 0)
  }

  /** The greedy rule in closed form: a non-exact position is misplaced when
      fewer earlier contenders with its letter exist than unmatched solution
      copies of that letter. */
  function VerdictAt(s: string, g: string, i: nat): Verdict
    requires i < |s|
  {
    if Exact(s, g, i) then Correct
    else if i < |g| && ContenderCount(s, g, g[i], i) < Unmatched(s, g, g[i]) then Misplaced
    else Wrong
  }

  /** The reference verdict sequence, one verdict per solution position. */
  function Reference(s: string, g: string): (r: seq<Verdict>)
    ensures |r| == |s|
  {
    seq(|s|, i => if 0 <= i < |s| then VerdictAt(s, g, i) else Wrong)
  }

  // ---------------------------------------------------------------------
  // The letter tally of score.rb

  /** Ruby's Hash from letter to remaining count. */
  type Tally = map<char, int>

  /** Ruby's `tally`: every letter of s mapped to its number of occurrences. */
  function TallyOf(s: string): Tally
  {
    map x | x in multiset(s) :: multiset(s)[x]
  }

  /** Decrement a letter's count, deleting the entry when it reaches zero. */
  function Consume(t: Tally, x: char): Tally
    requires x in t
  {
    var n := t[x] - 1;
    if n == 0 then t - {x} else t[x := n]
  }

  /** The tally pass one holds after i positions: the solution letters not
      consumed by an exact match, with positive counts only. */
  function AfterExact(s: string, g: string, i: nat): Tally
    requires i <= |s|
  {
    map x | x in multiset(s) && multiset(s)[x] - ExactCount(s, g, x, i) > 0
      :: multiset(s)[x] - ExactCount(s, g, x, i)
  }

  /** The tally pass two holds after i positions: the unmatched letters not
      yet claimed by a contender, with positive counts only. */
  function AfterContenders(s: string, g: string, i: nat): Tally
    requires i <= |s|
  {
    map x | x in multiset(s) && Unmatched(s, g, x) - ContenderCount(s, g, x, i) > 0
      :: Unmatched(s, g, x) - ContenderCount(s, g, x, i)
  }

  // ---------------------------------------------------------------------
  // Counting lemmas

  /** Every solution position up to n is either exact or open. */
  lemma {:induction false} SplitCount(s: string, g: string, x: char, n: nat)
    requires n <= |s|
    ensures ExactCount(s, g, x, n) + OpenCount(s, g, x, n) == multiset(s[..n])[x]
  {
    if n > 0 {
      SplitCount(s, g, x, n - 1);
      assert s[..n] == s[..n - 1] + [s[n - 1]];
    }
  }

  /** A prefix holds no more copies of x than the whole solution. */
  lemma PrefixCount(s: string, x: char, n: nat)
    requires n <= |s|
    ensures multiset(s[..n])[x] <= multiset(s)[x]
  {
    assert s == s[..n] + s[n..];
  }

  /** The solution's copies of x are the exactly matched ones plus the unmatched ones. */
  lemma SolutionCount(s: string, g: string, x: char)
    ensures ExactCount(s, g, x, |s|) + Unmatched(s, g, x) == multiset(s)[x]
  {
    SplitCount(s, g, x, |s|);
    assert s[..|s|] == s;
  }

  /** The unmatched copies of a letter are among the solution's copies. */
  lemma UnmatchedBound(s: string, g: string, x: char)
    ensures Unmatched(s, g, x) <= multiset(s)[x]
  {
    SolutionCount(s, g, x);
  }

  /** The tally before pass one is the whole solution's tally. */
  lemma TallyStart(s: string, g: string)
    ensures TallyOf(s) == AfterExact(s, g, 0)
  {
  }

  /** After pass one the tally holds exactly the unmatched letters. */
  lemma TallyTurn(s: string, g: string)
    ensures AfterExact(s, g, |s|) == AfterContenders(s, g, 0)
  {
    forall x ensures multiset(s)[x] - ExactCount(s, g, x, |s|) == Unmatched(s, g, x) {
      SolutionCount(s, g, x);
    }
  }

  /** One step of pass one at an exact match: the tally still holds the
      solution letter, and consuming it gives the next tally. */
  lemma ExactStep(s: string, g: string, i: nat)
    requires i < |s| && Exact(s, g, i)
    ensures s[i] in AfterExact(s, g, i)
    ensures Consume(AfterExact(s, g, i), s[i]) == AfterExact(s, g, i + 1)
  {
    var t := AfterExact(s, g, i);
    var t' := AfterExact(s, g, i + 1);
    var c := s[i];
    SplitCount(s, g, c, i);
    PrefixCount(s, c, i + 1);
    assert s[..i + 1] == s[..i] + [c];
    assert c in t;
    forall x ensures x in Consume(t, c) <==> x in t' {
    }
    forall x | x in t' ensures Consume(t, c)[x] == t'[x] {
    }
  }

  /** Pass one leaves the tally alone at a position that is not an exact match. */
  lemma InexactStep(s: string, g: string, i: nat)
    requires i < |s| && !Exact(s, g, i)
    ensures AfterExact(s, g, i) == AfterExact(s, g, i + 1)
  {
    var t := AfterExact(s, g, i);
    var t' := AfterExact(s, g, i + 1);
    forall x ensures x in t <==> x in t' {
    }
  }

  /** The tally's membership test in pass two decides the reference verdict. */
  lemma VerdictByTally(s: string, g: string, i: nat)
    requires i < |s|
    ensures VerdictAt(s, g, i)
      == if Exact(s, g, i) then Correct
         else if i < |g| && g[i] in AfterContenders(s, g, i) then Misplaced
         else Wrong
  {
    if i < |g| {
      UnmatchedBound(s, g, g[i]);
    }
  }

  /** A contender whose letter the tally holds claims one copy of it. */
  lemma ClaimStep(s: string, g: string, i: nat)
    requires i < |s| && i < |g| && !Exact(s, g, i) && g[i] in AfterContenders(s, g, i)
    ensures Consume(AfterContenders(s, g, i), g[i]) == AfterContenders(s, g, i + 1)
  {
    var t := AfterContenders(s, g, i);
    var t' := AfterContenders(s, g, i + 1);
    var c := g[i];
    forall x ensures x in Consume(t, c) <==> x in t' {
    }
    forall x | x in t' ensures Consume(t, c)[x] == t'[x] {
    }
  }

  /** Any other position of pass two leaves the tally alone. */
  lemma SkipStep(s: string, g: string, i: nat)
    requires i < |s| && !(i < |g| && !Exact(s, g, i) && g[i] in AfterContenders(s, g, i))
    ensures AfterContenders(s, g, i) == AfterContenders(s, g, i + 1)
  {
    var t := AfterContenders(s, g, i);
    var t' := AfterContenders(s, g, i + 1);
    forall x ensures x in t <==> x in t' {
    }
  }

  // ---------------------------------------------------------------------
  // The algorithm

  /** The verdicts after pass one: exact matches Correct, the rest Wrong. */
  function Marked(s: string, g: string): (r: seq<Verdict>)
    ensures |r| == |s|
  {
    seq(|s|, i => if 0 <= i < |s| && Exact(s, g, i) then Correct else Wrong)
  }

  /** Pass one: exact matches become Correct and are taken out of the tally. */
  method PassOne(s: string, g: string) returns (r: seq<Verdict>, t: Tally)
    ensures r == Marked(s, g)
    ensures t == AfterContenders(s, g, 0)
  {
    t := TallyOf(s);
    TallyStart(s, g);
    r := seq(|s|, _ => Wrong);
    ghost var target := Marked(s, g);
    var i := 0;
    while i < |s|
      invariant 0 <= i <= |s| == |r|
      invariant r[..i] == target[..i]
      invariant forall k :: i <= k < |s| ==> r[k] == Wrong
      invariant t == AfterExact(s, g, i)
    {
      if i < |g| && s[i] == g[i] {
        ExactStep(s, g, i);
        r := r[i := Correct];
        t := Consume(t, s[i]);
      } else {
        InexactStep(s, g, i);
      }
      i := i + 1;
    }
    assert r == r[..|s|];
    TallyTurn(s, g);
  }

  /** The body of pass two at position i: a position still Wrong whose guess
      letter the tally holds becomes Misplaced and consumes one copy. */
  method MarkMisplaced(s: string, g: string, i: nat, r: seq<Verdict>, t: Tally)
    returns (r': seq<Verdict>, t': Tally)
    requires i < |s| == |r|
    requires r[i] == if Exact(s, g, i) then Correct else Wrong
    requires t == AfterContenders(s, g, i)
    ensures r' == r[i := Reference(s, g)[i]]
    ensures t' == AfterContenders(s, g, i + 1)
  {
    VerdictByTally(s, g, i);
    if i < |g| && g[i] in t && r[i] == Wrong {
      ClaimStep(s, g, i);
      r' := r[i := Misplaced];
      t' := Consume(t, g[i]);
    } else {
      SkipStep(s, g, i);
      r', t' := r, t;
    }
  }

  /** Pass two: the positions are visited left to right, so an earlier guess
      letter takes an available copy before a later duplicate does. */
  method PassTwo(s: string, g: string, r0: seq<Verdict>, t0: Tally) returns (r: seq<Verdict>, t: Tally)
    requires r0 == Marked(s, g)
    requires t0 == AfterContenders(s, g, 0)
    ensures r == Reference(s, g)
    ensures t == AfterContenders(s, g, |s|)
  {
    r, t := r0, t0;
    var i := 0;
    ghost var target := Reference(s, g);
    while i < |s|
      invariant 0 <= i <= |s| == |r|
      invariant r[..i] == target[..i]
      invariant r[i..] == r0[i..]
      invariant t == AfterContenders(s, g, i)
    {
      assert r[i] == r0[i];
      r, t := MarkMisplaced(s, g, i, r, t);
      i := i + 1;
    }
    assert r == r[..|s|];
  }

  /** score.rb's `score`: one verdict per solution position. */
  method Score(s: string, g: string) returns (r: seq<Verdict>)
    ensures |r| == |s|
    ensures forall i :: 0 <= i < |s| ==> (r[i] == Correct <==> i < |g| && s[i] == g[i])
    ensures r == Reference(s, g)
  {
    var r1, t1 := PassOne(s, g);
    var t2;
    r, t2 := PassTwo(s, g, r1, t1);
  }

  /** score.rb's `score?`: whether the feedback equals a given pattern. */
  method IsScore(pattern: seq<Verdict>, s: string, g: string) returns (b: bool)
    ensures b <==> pattern == Reference(s, g)
  {
    var r := Score(s, g);
    b := r == pattern;
  }

  // ---------------------------------------------------------------------
  // Properties of the feedback

  /** How many of the first n guess positions hold x and get credit in r
      (Correct or Misplaced). */
  function CreditCount(g: string, r: seq<Verdict>, x: char, n: nat): nat
    requires n <= |r|
  {
    if n == 0 then 0
    else CreditCount(g, r, x, n - 1) + (if n - 1 < |g| && g[n - 1] == x && r[n - 1] != Wrong then 1 else 0)
  }

  function Min(a: int, b: int): int {
    if a <= b then a else b
  }

  /** Credit for x: the exact matches plus as many contenders as there are
      unmatched copies of x. */
  lemma {:induction false} CreditSplit(s: string, g: string, x: char, n: nat)
    requires n <= |s|
    ensures CreditCount(g, Reference(s, g), x, n)
      == ExactCount(s, g, x, n) + Min(ContenderCount(s, g, x, n), Unmatched(s, g, x))
  {
    if n > 0 {
      CreditSplit(s, g, x, n - 1);
      assert Reference(s, g)[n - 1] == VerdictAt(s, g, n - 1);
    }
  }

  /** For every letter, the guess positions credited with it (Correct or
      Misplaced) never outnumber its occurrences in the solution. */
  lemma CreditBound(s: string, g: string, x: char)
    ensures CreditCount(g, Reference(s, g), x, |s|) <= multiset(s)[x]
  {
    CreditSplit(s, g, x, |s|);
    SolutionCount(s, g, x);
  }

  /** A guess equal to the solution is correct everywhere. */
  lemma IdenticalAllCorrect(s: string)
    ensures forall i :: 0 <= i < |s| ==> Reference(s, s)[i] == Correct
  {
  }

  /** A misplaced letter is absent from that position of the solution but present elsewhere in it. */
  lemma MisplacedInSolution(s: string, g: string, i: nat)
    requires i < |s| && Reference(s, g)[i] == Misplaced
    ensures i < |g| && g[i] != s[i] && g[i] in multiset(s)
  {
    UnmatchedBound(s, g, g[i]);
  }

  /** A guess sharing no letter with the solution is wrong everywhere. */
  lemma DisjointAllWrong(s: string, g: string)
    requires forall i, j :: 0 <= i < |s| && 0 <= j < |g| ==> s[i] != g[j]
    ensures forall i :: 0 <= i < |s| ==> Reference(s, g)[i] == Wrong
  {
    forall i | 0 <= i < |s|
      ensures Reference(s, g)[i] == Wrong
    {
      if i < |g| {
        UnmatchedBound(s, g, g[i]);
        assert g[i] !in multiset(s);
      }
    }
  }

  /** An open contender at position i is counted by every later prefix. */
  lemma {:induction false} ContendersGrow(s: string, g: string, i: nat, j: nat)
    requires i < j <= |s| && i < |g| && !Exact(s, g, i)
    ensures ContenderCount(s, g, g[i], j) >= ContenderCount(s, g, g[i], i) + 1
  {
    if j > i + 1 {
      ContendersGrow(s, g, i, j - 1);
    }
  }

  /** Misplaced marks go left to right: when a later duplicate of a guess
      letter is misplaced, an earlier non-exact occurrence is misplaced too. */
  lemma EarlierDuplicateFirst(s: string, g: string, i: nat, j: nat)
    requires i < j < |s| && j < |g| && g[i] == g[j]
    requires !Exact(s, g, i) && Reference(s, g)[j] == Misplaced
    ensures Reference(s, g)[i] == Misplaced
  {
    ContendersGrow(s, g, i, j);
  }

  /** Contenders for x are guess positions holding x. */
  lemma {:induction false} ContendersInGuess(s: string, g: string, x: char, n: nat)
    requires n <= |s| && n <= |g|
    ensures ContenderCount(s, g, x, n) <= multiset(g[..n])[x]
  {
    if n > 0 {
      ContendersInGuess(s, g, x, n - 1);
      assert g[..n] == g[..n - 1] + [g[n - 1]];
    }
  }

  /** An open solution position leaves its letter unmatched. */
  lemma {:induction false} OpenContains(s: string, g: string, k: nat, n: nat)
    requires k < n <= |s| && !Exact(s, g, k)
    ensures OpenCount(s, g, s[k], n) >= 1
  {
    if n > k + 1 {
      OpenContains(s, g, k, n - 1);
    }
  }

  /** A guess of distinct letters all drawn from the solution: every position
      not in place is misplaced. */
  lemma {:induction false} PermutationMisplaced(s: string, g: string)
    requires |g| == |s|
    requires forall i :: 0 <= i < |g| ==> g[i] in s
    requires forall i, j :: 0 <= i < j < |g| ==> g[i] != g[j]
    ensures forall i :: 0 <= i < |s| ==> Reference(s, g)[i] == if s[i] == g[i] then Correct else Misplaced
  {
    forall i | 0 <= i < |s| && s[i] != g[i]
      ensures Reference(s, g)[i] == Misplaced
    {
      var x := g[i];
      var k :| 0 <= k < |s| && s[k] == x;
      assert k != i;
      assert !Exact(s, g, k);
      OpenContains(s, g, k, |s|);
      ContendersInGuess(s, g, x, i);
      assert x !in multiset(g[..i]);
    }
  }

  /** tests.rb, first case: "abcde" against itself is CCCCC. */
  lemma ExampleIdentical()
    ensures Reference("abcde", "abcde") == [Correct, Correct, Correct, Correct, Correct]
  {
    IdenticalAllCorrect("abcde");
  }

  /** tests.rb, second case: "xxxxx" against "abcde" is WWWWW. */
  lemma ExampleDisjoint()
    ensures Reference("abcde", "xxxxx") == [Wrong, Wrong, Wrong, Wrong, Wrong]
  {
    DisjointAllWrong("abcde", "xxxxx");
  }

  /** tests.rb, third case generalised: five distinct letters guessed in
      reverse order score MMCMM ("edcba" against "abcde"). */
  lemma ReversedFive(s: string, g: string)
    requires |s| == |g| == 5
    requires forall i, j :: 0 <= i < j < 5 ==> s[i] != s[j]
    requires forall i :: 0 <= i < 5 ==> g[i] == s[4 - i]
    ensures Reference(s, g) == [Misplaced, Misplaced, Correct, Misplaced, Misplaced]
  {
    assert forall i :: 0 <= i < 5 ==> g[i] in s;
    PermutationMisplaced(s, g);
    var r := Reference(s, g);
    assert s[0] != g[0] && s[1] != g[1] && s[2] == g[2] && s[3] != g[3] && s[4] != g[4];
  }
}
