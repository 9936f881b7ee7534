/**
 The C++ `Scorer`: the set of solution ids it has seen and an ordered map
 from a 64-bit key, the solution id in the high half and the guess id in
 the low half, to the score byte; and `load_scorer`, which fills it from
 the three reads of the compressed file, row by row.
 */
module Scoring {
  import opened Seqs
  import opened Positional
  import opened Feedback
  import opened Codec
  import opened ScoreTable
  import opened Compressed

  // ---------------------------------------------------------------------
  // Keys

  /** `(s << 32) | g` on 64-bit values is s * 2^32 + g when both fit in 32 bits. */
  lemma KeyLayout(s: bv64, g: bv64)
    requires s < 0x1_0000_0000 && g < 0x1_0000_0000
    ensures (s << 32) | g == s * 0x1_0000_0000 + g
  {
  }

  /** `derive_key`, as the number the 64-bit key stands for. */
  function DeriveKey(s: WordId, g: WordId): (k: int)
    ensures 0 <= k < Modulus32 * Modulus32
  {
    MulMonotone(s, Modulus32 - 1, Modulus32);
    s * Modulus32 + g
  }

  /** The high half of a key is the solution, the low half the guess. */
  lemma KeyHalves(s: WordId, g: WordId)
    ensures DeriveKey(s, g) / Modulus32 == s && DeriveKey(s, g) % Modulus32 == g
  {
    DivModUnique(DeriveKey(s, g), Modulus32, s, g);
  }

  /** Distinct pairs get distinct keys. */
  lemma DeriveKeyInjective(s: WordId, g: WordId, s': WordId, g': WordId)
    ensures DeriveKey(s, g) == DeriveKey(s', g') <==> s == s' && g == g'
  {
    KeyHalves(s, g);
    KeyHalves(s', g');
  }

  // ---------------------------------------------------------------------
  // The scorer

  datatype Scorer = Scorer(words: set<WordId>, table: map<int, ScoreId>)

  const Empty: Scorer := Scorer({}, map[])

  /** `add`: remember the solution and set the pair's score. */
  function Add(sc: Scorer, s: WordId, g: WordId, v: ScoreId): Scorer {
    Scorer(sc.words + {s}, sc.table[DeriveKey(s, g) := v])
  }

  predicate Has(sc: Scorer, s: WordId, g: WordId) {
    DeriveKey(s, g) in sc.table
  }

  /** `lookup`: `table.find(id)->second`, which is undefined for a pair never added. */
  function Lookup(sc: Scorer, s: WordId, g: WordId): ScoreId
    requires Has(sc, s, g)
  {
    sc.table[DeriveKey(s, g)]
  }

  /** Adding a pair sets its score and leaves every other pair as it was. */
  lemma AddLookup(sc: Scorer, s: WordId, g: WordId, v: ScoreId, s': WordId, g': WordId)
    ensures Has(Add(sc, s, g, v), s', g') <==> (s' == s && g' == g) || Has(sc, s', g')
    ensures Has(Add(sc, s, g, v), s', g') ==>
              Lookup(Add(sc, s, g, v), s', g') == if s' == s && g' == g then v else Lookup(sc, s', g')
  {
    DeriveKeyInjective(s, g, s', g');
  }

  // ---------------------------------------------------------------------
  // load_scorer

  /** The score byte read for solution i and guess j. */
  function ScoreAt(l: Layout, i: nat, j: nat): ScoreId
    requires Sized(l) && i < l.count && j < l.count
  {
    CellIndex(l.count, i, j);
    assert Cell(l.scores, l.count, i, j) == l.scores[i * l.count + j];
    Cell(l.scores, l.count, i, j)
  }

  /** Cells (i, 0) to (i, j - 1) of row i added to sc, in order. */
  function AddRow(sc: Scorer, l: Layout, i: nat, j: nat): Scorer
    requires Sized(l) && i < l.count && j <= l.count
  {
    if j == 0 then sc
    else Add(AddRow(sc, l, i, j - 1), l.ids[i], l.ids[j - 1], ScoreAt(l, i, j - 1))
  }

  /** Rows 0 to i - 1 added to an empty scorer. */
  function AddRows(l: Layout, i: nat): Scorer
    requires Sized(l) && i <= l.count
  {
    if i == 0 then Empty else AddRow(AddRows(l, i - 1), l, i - 1, l.count)
  }

  /** The scorer `load_scorer` returns for what it read. */
  function Load(l: Layout): Scorer
    requires Sized(l)
  {
    AddRows(l, l.count)
  }

  /** `load_scorer` after its reads: the nested loops with the running
      32-bit index into the score buffer. */
  method LoadScorer(l: Layout) returns (sc: Scorer)
    requires Sized(l)
    ensures sc == Load(l)
  {
    var n := l.count;
    sc := Empty;
    var index: int := 0;
    var i := 0;
    while i != n
      invariant 0 <= i <= n
      invariant index == i * n
      invariant sc == AddRows(l, i)
    {
      var solution := l.ids[i];
      var j := 0;
      while j != n
        invariant 0 <= j <= n
        invariant index == i * n + j
        invariant sc == AddRow(AddRows(l, i), l, i, j)
      {
        var guess := l.ids[j];
        CellIndex(n, i, j);
        sc := Add(sc, solution, guess, l.scores[index]);
        index := index + 1;
        j := j + 1;
      }
      assert (i + 1) * n == i * n + n;
      i := i + 1;
    }
  }

  // ---------------------------------------------------------------------
  // What the loaded scorer holds

  /** A row adds its solution to the set of words once it has a cell. */
  lemma {:induction false} AddRowWords(sc: Scorer, l: Layout, i: nat, j: nat)
    requires Sized(l) && i < l.count && j <= l.count
    ensures AddRow(sc, l, i, j).words == if j == 0 then sc.words else sc.words + {l.ids[i]}
  {
    if j > 0 {
      AddRowWords(sc, l, i, j - 1);
    }
  }

  /** `wordids` of the loaded scorer: exactly the ids read. */
  lemma {:induction false} LoadWords(l: Layout)
    requires Sized(l)
    ensures Load(l).words == Elems(l.ids)
  {
    RowsWords(l, l.count);
    assert l.ids[..l.count] == l.ids;
  }

  lemma {:induction false} RowsWords(l: Layout, i: nat)
    requires Sized(l) && i <= l.count
    ensures AddRows(l, i).words == Elems(l.ids[..i])
  {
    if i > 0 {
      RowsWords(l, i - 1);
      AddRowWords(AddRows(l, i - 1), l, i - 1, l.count);
      assert l.ids[..i][..i - 1] == l.ids[..i - 1];
    }
  }

  /** A row only adds keys for its own solution and the guesses it has reached. */
  lemma {:induction false} AddRowHas(sc: Scorer, l: Layout, i: nat, j: nat, s: WordId, g: WordId)
    requires Sized(l) && i < l.count && j <= l.count
    ensures Has(AddRow(sc, l, i, j), s, g) <==> Has(sc, s, g) || (s == l.ids[i] && g in l.ids[..j])
  {
    if j > 0 {
      AddRowHas(sc, l, i, j - 1, s, g);
      AddLookup(AddRow(sc, l, i, j - 1), l.ids[i], l.ids[j - 1], ScoreAt(l, i, j - 1), s, g);
      assert l.ids[..j] == l.ids[..j - 1] + [l.ids[j - 1]];
    }
  }

  lemma {:induction false} RowsHas(l: Layout, i: nat, s: WordId, g: WordId)
    requires Sized(l) && i <= l.count
    ensures Has(AddRows(l, i), s, g) <==> s in l.ids[..i] && g in l.ids
  {
    if i > 0 {
      RowsHas(l, i - 1, s, g);
      AddRowHas(AddRows(l, i - 1), l, i - 1, l.count, s, g);
      assert l.ids[..l.count] == l.ids;
      assert l.ids[..i] == l.ids[..i - 1] + [l.ids[i - 1]];
    }
  }

  /** The loaded scorer has a score for a pair exactly when both ids were read. */
  lemma LoadHas(l: Layout, s: WordId, g: WordId)
    requires Sized(l)
    ensures Has(Load(l), s, g) <==> s in l.ids && g in l.ids
  {
    RowsHas(l, l.count, s, g);
    assert l.ids[..l.count] == l.ids;
  }

  /** A row leaves the pairs of other solutions as they were. */
  lemma {:induction false} AddRowKeep(sc: Scorer, l: Layout, i: nat, j: nat, s: WordId, g: WordId)
    requires Sized(l) && i < l.count && j <= l.count
    requires s != l.ids[i] && Has(sc, s, g)
    ensures Has(AddRow(sc, l, i, j), s, g) && Lookup(AddRow(sc, l, i, j), s, g) == Lookup(sc, s, g)
  {
    if j > 0 {
      AddRowKeep(sc, l, i, j - 1, s, g);
      AddLookup(AddRow(sc, l, i, j - 1), l.ids[i], l.ids[j - 1], ScoreAt(l, i, j - 1), s, g);
    }
  }

  /** With duplicate-free ids, a row leaves each of its cells in place. */
  lemma {:induction false} AddRowSet(sc: Scorer, l: Layout, i: nat, j: nat, k: nat)
    requires Sized(l) && Distinct(l.ids) && i < l.count && k < j <= l.count
    ensures Has(AddRow(sc, l, i, j), l.ids[i], l.ids[k])
    ensures Lookup(AddRow(sc, l, i, j), l.ids[i], l.ids[k]) == ScoreAt(l, i, k)
  {
    AddLookup(AddRow(sc, l, i, j - 1), l.ids[i], l.ids[j - 1], ScoreAt(l, i, j - 1), l.ids[i], l.ids[k]);
    if k < j - 1 {
      AddRowSet(sc, l, i, j - 1, k);
    }
  }

  lemma {:induction false} RowsLookup(l: Layout, i: nat, a: nat, b: nat)
    requires Sized(l) && Distinct(l.ids) && a < i <= l.count && b < l.count
    ensures Has(AddRows(l, i), l.ids[a], l.ids[b])
    ensures Lookup(AddRows(l, i), l.ids[a], l.ids[b]) == ScoreAt(l, a, b)
  {
    if a == i - 1 {
      AddRowSet(AddRows(l, i - 1), l, i - 1, l.count, b);
    } else {
      RowsLookup(l, i - 1, a, b);
      AddRowKeep(AddRows(l, i - 1), l, i - 1, l.count, l.ids[a], l.ids[b]);
    }
  }

  /** With duplicate-free ids, looking up the i-th and j-th ids read gives
      the byte at row i, column j of the score matrix. */
  lemma LoadLookup(l: Layout, i: nat, j: nat)
    requires Sized(l) && Distinct(l.ids) && i < l.count && j < l.count
    ensures Has(Load(l), l.ids[i], l.ids[j])
    ensures Lookup(Load(l), l.ids[i], l.ids[j]) == Cell(l.scores, l.count, i, j)
  {
    RowsLookup(l, l.count, i, j);
  }

  // ---------------------------------------------------------------------
  // From the dictionary to the scorer

  /** The ids of distinct dictionary words are distinct. */
  lemma BuiltIdsDistinct(d: seq<string>, ws: seq<string>, ids: seq<WordId>)
    requires AllWords(d) && Distinct(ws) && (forall w :: w in ws <==> w in d)
    requires |ids| == |ws| && forall i :: 0 <= i < |ws| ==> ids[i] == FromWord(ws[i])
    ensures Distinct(ids)
  {
    forall a, b | 0 <= a < b < |ids|
      ensures ids[a] != ids[b]
    {
      assert ws[a] in d && ws[b] in d;
      var a' :| 0 <= a' < |d| && d[a'] == ws[a];
      var b' :| 0 <= b' < |d| && d[b'] == ws[b];
      if ids[a] == ids[b] {
        FromWordInjective(ws[a], ws[b]);
        assert false;
      }
    }
  }

  /** The scorer the solver loads from the file preprocessing wrote for a
      dictionary knows every dictionary word, and its score for a pair of
      dictionary words is the packed feedback of the guess against the
      solution. */
  lemma {:induction false} ScorerOfBuilt(d: seq<string>, s: string, g: string)
    requires AllWords(d) && |Uniq(d)| < 65536 && s in d && g in d
    ensures Write(BuildTable(d)).Some? && Read(Write(BuildTable(d)).value).Some?
    ensures var l := Read(Write(BuildTable(d)).value).value;
            Sized(l) && FromWord(s) in Load(l).words &&
            Has(Load(l), FromWord(s), FromWord(g)) &&
            Lookup(Load(l), FromWord(s), FromWord(g)) == PackScore(Reference(s, g))
  {
    BuiltRoundTrip(d);
    var ws := Words(BuildTable(d));
    var l := Read(Write(BuildTable(d)).value).value;
    assert s in ws && g in ws;
    var i :| 0 <= i < |ws| && ws[i] == s;
    var j :| 0 <= j < |ws| && ws[j] == g;
    BuiltIdsDistinct(d, ws, l.ids);
    LoadLookup(l, i, j);
    LoadWords(l);
    assert l.ids[i] == FromWord(s);
  }
}
