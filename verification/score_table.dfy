/**
 The Ruby score table: `build_table` of the preprocessors, which maps the
 key "solution:guess" of every ordered pair of dictionary words to the
 packed feedback code, and the two uses the Ruby solvers make of it —
 the `score` lookup and the dictionary recovered from the keys.

 A Ruby Hash keeps its keys in insertion order and updates an existing
 key in place; it is modelled as a sequence of entries with distinct keys.
 */
module ScoreTable {
  import opened Seqs
  import opened Feedback
  import opened Codec

  datatype Entry = Entry(key: string, value: int)

  /** A Ruby Hash from String to Integer, in insertion order. */
  type Table = seq<Entry>

  function Keys(t: Table): (ks: seq<string>)
    ensures |ks| == |t|
  {
    seq(|t|, i => if 0 <= i < |t| then t[i].key else "")
  }

  /** `table[k]`: the value stored under k, or nil. */
  function Get(t: Table, k: string): (r: Option<int>)
    ensures r.Some? <==> k in Keys(t)
  {
    if |t| == 0 then None
    else if t[0].key == k then
      assert Keys(t)[0] == k;
      Some(t[0].value)
    else
      assert Keys(t) == [t[0].key] + Keys(t[1..]);
      Get(t[1..], k)
  }

  /** `table[k] = v`: an existing key keeps its place and takes the new
      value; a new key is appended. */
  function Put(t: Table, k: string, v: int): (t': Table)
  {
    if |t| == 0 then [Entry(k, v)]
    else if t[0].key == k then [Entry(k, v)] + t[1..]
    else [t[0]] + Put(t[1..], k, v)
  }

  /** Writing keeps the key order and appends only a new key. */
  lemma {:induction false} PutKeys(t: Table, k: string, v: int)
    ensures Keys(Put(t, k, v)) == if k in Keys(t) then Keys(t) else Keys(t) + [k]
  {
    if |t| > 0 {
      assert Keys(t) == [t[0].key] + Keys(t[1..]);
      if t[0].key != k {
        PutKeys(t[1..], k, v);
        assert Keys(Put(t, k, v)) == [t[0].key] + Keys(Put(t[1..], k, v));
      } else {
        assert Keys(Put(t, k, v)) == [k] + Keys(t[1..]);
      }
    }
  }

  /** Writing adds no entry other than the written one. */
  lemma {:induction false} PutEntries(t: Table, k: string, v: int)
    ensures forall e :: e in Put(t, k, v) ==> e == Entry(k, v) || e in t
  {
    if |t| > 0 && t[0].key != k {
      PutEntries(t[1..], k, v);
    }
  }

  /** A stored value is the value of an entry with that key. */
  lemma {:induction false} GetEntry(t: Table, k: string)
    requires Get(t, k).Some?
    ensures Entry(k, Get(t, k).value) in t
  {
    if t[0].key != k {
      GetEntry(t[1..], k);
    }
  }

  /** Reading after writing gives the written value; other keys are unchanged. */
  lemma {:induction false} GetPut(t: Table, k: string, v: int, k': string)
    ensures Get(Put(t, k, v), k') == if k' == k then Some(v) else Get(t, k')
  {
    if |t| > 0 && t[0].key != k {
      GetPut(t[1..], k, v, k');
    }
  }

  // ---------------------------------------------------------------------
  // build_table

  /** The interpolated key "#{solution}:#{guess}". */
  function Key(s: string, g: string): string {
    s + ":" + g
  }

  predicate ColonFree(w: string) {
    ':' !in w
  }

  /** Colon-free words meet in a key only as themselves. */
  lemma KeyInjective(s: string, g: string, s': string, g': string)
    requires ColonFree(s) && ColonFree(s') && Key(s, g) == Key(s', g')
    ensures s == s' && g == g'
  {
    var k := Key(s, g);
    assert |s| == |s'| by {
      assert k[|s|] == ':' && k[|s'|] == ':';
    }
    assert s == k[..|s|] == s';
    assert g == k[|s| + 1..] == g';
  }

  /** The value build_table stores for a pair: the packed feedback. */
  function Code(s: string, g: string): int {
    PackScore(Reference(s, g))
  }

  /** The pair-scoring function build_table is run with. */
  type Coder = (string, string) -> int

  /** The inner loop: one solution against every guess, in order. */
  function PutRow(t: Table, s: string, gs: seq<string>, code: Coder): Table
    decreases |gs|
  {
    if |gs| == 0 then t
    else PutRow(Put(t, Key(s, gs[0]), code(s, gs[0])), s, gs[1..], code)
  }

  /** The outer loop over the solutions. */
  function PutRows(t: Table, ss: seq<string>, gs: seq<string>, code: Coder): Table
    decreases |ss|
  {
    if |ss| == 0 then t
    else PutRows(PutRow(t, ss[0], gs, code), ss[1..], gs, code)
  }

  /** preprocess.rb `build_table`. */
  function BuildTable(d: seq<string>): Table {
    Pairs(d, Code)
  }

  /** Every entry is the key and code of some pair of words from d. */
  predicate Sound(t: Table, d: seq<string>, code: Coder) {
    forall i :: 0 <= i < |t| ==>
      exists a, b :: 0 <= a < |d| && 0 <= b < |d| && t[i] == Entry(Key(d[a], d[b]), code(d[a], d[b]))
  }

  /** The key of every pair (s, g) with g in gs. */
  predicate Covers(t: Table, s: string, gs: seq<string>) {
    forall b :: 0 <= b < |gs| ==> Key(s, gs[b]) in Keys(t)
  }

  lemma PutSound(t: Table, d: seq<string>, code: Coder, a: nat, b: nat)
    requires Sound(t, d, code) && a < |d| && b < |d|
    ensures Sound(Put(t, Key(d[a], d[b]), code(d[a], d[b])), d, code)
  {
    var t' := Put(t, Key(d[a], d[b]), code(d[a], d[b]));
    PutEntries(t, Key(d[a], d[b]), code(d[a], d[b]));
    forall i | 0 <= i < |t'|
      ensures exists a', b' :: 0 <= a' < |d| && 0 <= b' < |d| && t'[i] == Entry(Key(d[a'], d[b']), code(d[a'], d[b']))
    {
      if t'[i] != Entry(Key(d[a], d[b]), code(d[a], d[b])) {
        assert t'[i] in t';
        var j :| 0 <= j < |t| && t[j] == t'[i];
      }
    }
  }

  /** Each step of build_table stores the key and code of a pair of words. */
  lemma {:induction false} PutRowSound(t: Table, d: seq<string>, code: Coder, a: nat, gs: seq<string>)
    requires a < |d| && Sound(t, d, code)
    requires forall b :: 0 <= b < |gs| ==> gs[b] in d
    ensures Sound(PutRow(t, d[a], gs, code), d, code)
    decreases |gs|
  {
    if |gs| > 0 {
      var b :| 0 <= b < |d| && d[b] == gs[0];
      PutSound(t, d, code, a, b);
      PutRowSound(Put(t, Key(d[a], gs[0]), code(d[a], gs[0])), d, code, a, gs[1..]);
    }
  }

  lemma {:induction false} PutRowsSound(t: Table, d: seq<string>, code: Coder, ss: seq<string>)
    requires Sound(t, d, code)
    requires forall a :: 0 <= a < |ss| ==> ss[a] in d
    ensures Sound(PutRows(t, ss, d, code), d, code)
    decreases |ss|
  {
    if |ss| > 0 {
      var a :| 0 <= a < |d| && d[a] == ss[0];
      PutRowSound(t, d, code, a, d);
      PutRowsSound(PutRow(t, d[a], d, code), d, code, ss[1..]);
    }
  }

  /** Keys are never removed. */
  lemma {:induction false} PutRowGrows(t: Table, s: string, gs: seq<string>, code: Coder)
    ensures forall k :: k in Keys(t) ==> k in Keys(PutRow(t, s, gs, code))
    decreases |gs|
  {
    if |gs| > 0 {
      PutKeys(t, Key(s, gs[0]), code(s, gs[0]));
      PutRowGrows(Put(t, Key(s, gs[0]), code(s, gs[0])), s, gs[1..], code);
    }
  }

  lemma {:induction false} PutRowsGrow(t: Table, ss: seq<string>, gs: seq<string>, code: Coder)
    ensures forall k :: k in Keys(t) ==> k in Keys(PutRows(t, ss, gs, code))
    decreases |ss|
  {
    if |ss| > 0 {
      PutRowGrows(t, ss[0], gs, code);
      PutRowsGrow(PutRow(t, ss[0], gs, code), ss[1..], gs, code);
    }
  }

  /** Keys stay distinct, as in any Ruby Hash. */
  lemma {:induction false} PutRowDistinct(t: Table, s: string, gs: seq<string>, code: Coder)
    requires Distinct(Keys(t))
    ensures Distinct(Keys(PutRow(t, s, gs, code)))
    decreases |gs|
  {
    if |gs| > 0 {
      PutKeys(t, Key(s, gs[0]), code(s, gs[0]));
      PutRowDistinct(Put(t, Key(s, gs[0]), code(s, gs[0])), s, gs[1..], code);
    }
  }

  lemma {:induction false} PutRowsDistinct(t: Table, ss: seq<string>, gs: seq<string>, code: Coder)
    requires Distinct(Keys(t))
    ensures Distinct(Keys(PutRows(t, ss, gs, code)))
    decreases |ss|
  {
    if |ss| > 0 {
      PutRowDistinct(t, ss[0], gs, code);
      PutRowsDistinct(PutRow(t, ss[0], gs, code), ss[1..], gs, code);
    }
  }

  /** The inner loop adds the key of every guess. */
  lemma {:induction false} PutRowCovers(t: Table, s: string, gs: seq<string>, code: Coder)
    ensures Covers(PutRow(t, s, gs, code), s, gs)
    decreases |gs|
  {
    if |gs| > 0 {
      var t1 := Put(t, Key(s, gs[0]), code(s, gs[0]));
      PutKeys(t, Key(s, gs[0]), code(s, gs[0]));
      PutRowCovers(t1, s, gs[1..], code);
      PutRowGrows(t1, s, gs[1..], code);
      var t' := PutRow(t, s, gs, code);
      forall j | 0 <= j < |gs| ensures Key(s, gs[j]) in Keys(t') {
        if j > 0 {
          assert gs[j] == gs[1..][j - 1];
        }
      }
    }
  }

  /** The outer loop adds the keys of every solution's row. */
  lemma {:induction false} PutRowsCovers(t: Table, ss: seq<string>, gs: seq<string>, code: Coder)
    ensures forall a :: 0 <= a < |ss| ==> Covers(PutRows(t, ss, gs, code), ss[a], gs)
    decreases |ss|
  {
    if |ss| > 0 {
      var t1 := PutRow(t, ss[0], gs, code);
      PutRowCovers(t, ss[0], gs, code);
      PutRowsCovers(t1, ss[1..], gs, code);
      PutRowsGrow(t1, ss[1..], gs, code);
      var t' := PutRows(t, ss, gs, code);
      forall a | 0 <= a < |ss| ensures Covers(t', ss[a], gs) {
        if a > 0 {
          assert ss[a] == ss[1..][a - 1];
        }
      }
    }
  }

  /** The all-pairs table of d under a pair-scoring function. */
  function Pairs(d: seq<string>, code: Coder): Table {
    PutRows([], d, d, code)
  }

  lemma PairsShape(d: seq<string>, code: Coder)
    ensures Sound(Pairs(d, code), d, code)
    ensures Distinct(Keys(Pairs(d, code)))
    ensures forall a, b :: 0 <= a < |d| && 0 <= b < |d| ==> Key(d[a], d[b]) in Keys(Pairs(d, code))
  {
    PutRowsSound([], d, code, d);
    PutRowsDistinct([], d, d, code);
    PutRowsCovers([], d, d, code);
  }

  lemma PairsHasKey(d: seq<string>, code: Coder, a: nat, b: nat)
    requires a < |d| && b < |d|
    ensures Key(d[a], d[b]) in Keys(Pairs(d, code))
  {
    PutRowsCovers([], d, d, code);
    assert Covers(Pairs(d, code), d[a], d);
  }

  /** Every entry of the table is the key and code of a pair of words. */
  lemma PairsAt(d: seq<string>, code: Coder, i: nat) returns (a: nat, b: nat)
    requires i < |Pairs(d, code)|
    ensures a < |d| && b < |d|
    ensures Pairs(d, code)[i] == Entry(Key(d[a], d[b]), code(d[a], d[b]))
  {
    PutRowsSound([], d, code, d);
    var t := Pairs(d, code);
    a, b :| 0 <= a < |d| && 0 <= b < |d| && t[i] == Entry(Key(d[a], d[b]), code(d[a], d[b]));
  }

  /** The entry of a stored key comes from a pair with that key. */
  lemma PairsEntry(d: seq<string>, code: Coder, k: string) returns (a: nat, b: nat)
    requires k in Keys(Pairs(d, code))
    ensures a < |d| && b < |d| && k == Key(d[a], d[b])
    ensures Get(Pairs(d, code), k) == Some(code(d[a], d[b]))
  {
    var t := Pairs(d, code);
    PutRowsSound([], d, code, d);
    GetEntry(t, k);
    var i :| 0 <= i < |t| && t[i] == Entry(k, Get(t, k).value);
    a, b :| 0 <= a < |d| && 0 <= b < |d| && t[i] == Entry(Key(d[a], d[b]), code(d[a], d[b]));
  }

  lemma PairsCode(d: seq<string>, code: Coder, a: nat, b: nat)
    requires forall a :: 0 <= a < |d| ==> ColonFree(d[a])
    requires a < |d| && b < |d|
    ensures Get(Pairs(d, code), Key(d[a], d[b])) == Some(code(d[a], d[b]))
  {
    PairsHasKey(d, code, a, b);
    var a', b' := PairsEntry(d, code, Key(d[a], d[b]));
    KeyInjective(d[a], d[b], d[a'], d[b']);
  }

  /** build_table has one key per ordered pair of words, each holding the
      code of some pair with that key, and no other keys. */
  lemma BuildTableShape(d: seq<string>)
    ensures Sound(BuildTable(d), d, Code)
    ensures Distinct(Keys(BuildTable(d)))
    ensures forall a, b :: 0 <= a < |d| && 0 <= b < |d| ==> Key(d[a], d[b]) in Keys(BuildTable(d))
  {
    PairsShape(d, Code);
  }

  /** For a colon-free dictionary the entry of every pair holds that pair's
      packed feedback. */
  lemma BuildTableCode(d: seq<string>, s: string, g: string)
    requires forall a :: 0 <= a < |d| ==> ColonFree(d[a])
    requires s in d && g in d
    ensures Get(BuildTable(d), Key(s, g)) == Some(Code(s, g))
  {
    var a :| 0 <= a < |d| && d[a] == s;
    var b :| 0 <= b < |d| && d[b] == g;
    PairsCode(d, Code, a, b);
    assert BuildTable(d) == Pairs(d, Code);
  }

  /** For five-letter words every stored value lies in [0, 243). */
  lemma BuildTableRange(d: seq<string>, i: nat)
    requires forall a :: 0 <= a < |d| ==> |d[a]| == 5
    requires i < |BuildTable(d)|
    ensures 0 <= BuildTable(d)[i].value < PatternSpace
  {
    assert BuildTable(d) == Pairs(d, Code);
    var a, b := PairsAt(d, Code, i);
    PackScoreRange(Reference(d[a], d[b]));
  }

  // ---------------------------------------------------------------------
  // The Ruby solvers' view of the table

  /** wordle.rb `score`: the table's value for "solution:guess", nil when absent. */
  function Lookup(t: Table, s: string, g: string): (r: Option<int>)
    ensures r.Some? <==> Key(s, g) in Keys(t)
  {
    Get(t, Key(s, g))
  }

  /** A built table answers a lookup of two dictionary words with their packed feedback. */
  lemma LookupBuilt(d: seq<string>, s: string, g: string)
    requires forall a :: 0 <= a < |d| ==> ColonFree(d[a])
    requires s in d && g in d
    ensures Lookup(BuildTable(d), s, g) == Some(PackScore(Reference(s, g)))
  {
    BuildTableCode(d, s, g);
  }

  /** The text before the first ':' (all of k when it has none). */
  function BeforeColon(k: string): (p: string)
    ensures ColonFree(p)
  {
    if |k| == 0 || k[0] == ':' then "" else [k[0]] + BeforeColon(k[1..])
  }

  /** Ruby `k.split(':')[0]`: nil when k has no field at all (it is empty
      or all colons, since split drops trailing empty fields), otherwise
      the text before the first ':'. */
  function FirstField(k: string): Option<string>
  {
    if forall i :: 0 <= i < |k| ==> k[i] == ':' then None else Some(BeforeColon(k))
  }

  /** wordle.rb's `$dictionary`: the first fields of the keys, duplicates removed. */
  function Dictionary(t: Table): (ws: seq<Option<string>>)
    ensures Distinct(ws)
    ensures forall w :: w in ws <==> exists i :: 0 <= i < |t| && FirstField(t[i].key) == w
  {
    var fields := seq(|t|, i => if 0 <= i < |t| then FirstField(t[i].key) else None);
    assert forall i :: 0 <= i < |t| ==> fields[i] == FirstField(t[i].key);
    Uniq(fields)
  }

  lemma {:induction false} BeforeColonKey(s: string, g: string)
    requires ColonFree(s)
    ensures BeforeColon(Key(s, g)) == s
  {
    if |s| > 0 {
      assert Key(s, g)[1..] == Key(s[1..], g);
      BeforeColonKey(s[1..], g);
    }
  }

  /** A key of a non-empty, colon-free solution has that solution as first field. */
  lemma FirstFieldKey(s: string, g: string)
    requires ColonFree(s) && |s| > 0
    ensures FirstField(Key(s, g)) == Some(s)
  {
    BeforeColonKey(s, g);
    assert Key(s, g)[0] == s[0] != ':';
  }

  lemma DictionaryOfPairs(d: seq<string>, code: Coder)
    requires forall a :: 0 <= a < |d| ==> ColonFree(d[a]) && |d[a]| > 0
    ensures forall w :: Some(w) in Dictionary(Pairs(d, code)) <==> w in d
    ensures None !in Dictionary(Pairs(d, code))
  {
    var t := Pairs(d, code);
    forall i | 0 <= i < |t|
      ensures FirstField(t[i].key) != None && FirstField(t[i].key).value in d
    {
      var a, b := PairsAt(d, code, i);
      FirstFieldKey(d[a], d[b]);
    }
    forall w | w in d
      ensures Some(w) in Dictionary(t)
    {
      var a :| 0 <= a < |d| && d[a] == w;
      PairsHasKey(d, code, a, a);
      var i :| 0 <= i < |t| && Keys(t)[i] == Key(w, w);
      FirstFieldKey(w, w);
    }
  }

  /** The dictionary recovered from a built table is the set of words of a
      dictionary of non-empty, colon-free words, without repetition. */
  lemma DictionaryOfBuilt(d: seq<string>)
    requires forall a :: 0 <= a < |d| ==> ColonFree(d[a]) && |d[a]| > 0
    ensures Distinct(Dictionary(BuildTable(d)))
    ensures forall w :: Some(w) in Dictionary(BuildTable(d)) <==> w in d
    ensures None !in Dictionary(BuildTable(d))
  {
    DictionaryOfPairs(d, Code);
    assert BuildTable(d) == Pairs(d, Code);
  }
}
