/**
 The compressed score file: `write_compressed` of the Ruby preprocessor
 and the reading half of the C++ `load_scorer`.

 Layout: the word count N as a 32-bit unsigned integer, then the N word
 ids as 32-bit unsigned integers, then the N*N score bytes, row i holding
 the scores of solution i against every guess. Integers are in the
 machine's byte order (Ruby `pack('L')`, a raw C++ read), taken here to be
 little-endian. Bytes are integers in [0, 256).
 */
module Compressed {
  import opened Seqs
  import opened Positional
  import opened Feedback
  import opened Codec
  import opened ScoreTable

  predicate IsByte(b: int) {
    0 <= b < 256
  }

  predicate AllBytes(bs: seq<int>) {
    forall i :: 0 <= i < |bs| ==> IsByte(bs[i])
  }

  lemma Pow256()
    ensures Pow(256, 4) == Modulus32
  {
    assert Pow(256, 2) == 65536;
  }

  // ---------------------------------------------------------------------
  // 32-bit little-endian integers

  /** The four bytes of v, least significant first (pack 'L'). */
  function Le32(v: nat): (bs: seq<int>)
    ensures |bs| == 4 && AllBytes(bs)
  {
    var ds := Unpack(v, 256, 4);
    [ds[3], ds[2], ds[1], ds[0]]
  }

  /** The value of four bytes, least significant first. */
  function Le32Value(b0: int, b1: int, b2: int, b3: int): int {
    Pack([b3, b2, b1, b0], 256)
  }

  /** Reading the four bytes written for v gives v modulo 2^32. */
  lemma Le32RoundTrip(v: nat)
    ensures Le32Value(Le32(v)[0], Le32(v)[1], Le32(v)[2], Le32(v)[3]) == v % Modulus32
  {
    var ds := Unpack(v, 256, 4);
    assert [ds[0], ds[1], ds[2], ds[3]] == ds;
    PackUnpack(v, 256, 4);
    Pow256();
  }

  lemma Le32ValueRange(b0: int, b1: int, b2: int, b3: int)
    requires IsByte(b0) && IsByte(b1) && IsByte(b2) && IsByte(b3)
    ensures 0 <= Le32Value(b0, b1, b2, b3) < Modulus32
  {
    PackBound([b3, b2, b1, b0], 256);
    Pow256();
  }

  /** The bytes of a sequence of 32-bit integers, one after the other (pack 'L*'). */
  function Le32s(vs: seq<WordId>): (bs: seq<int>)
    ensures |bs| == 4 * |vs| && AllBytes(bs)
  {
    if |vs| == 0 then []
    else Le32s(vs[..|vs| - 1]) + Le32(vs[|vs| - 1])
  }

  /** Integer i of the sequence occupies bytes 4i to 4i+3. */
  lemma {:induction false} Le32sAt(vs: seq<WordId>, i: nat, k: nat, p: nat)
    requires i < |vs| && k < 4 && p == 4 * i + k
    ensures p < |Le32s(vs)| && Le32s(vs)[p] == Le32(vs[i])[k]
  {
    var pre := vs[..|vs| - 1];
    if i < |vs| - 1 {
      Le32sAt(pre, i, k, p);
      assert vs[i] == pre[i];
    }
  }

  // ---------------------------------------------------------------------
  // The word list: key prefixes, duplicates removed, sorted

  /** Ruby `key[0...5]`: the first five characters, or all of a shorter key. */
  function Prefix5(k: string): string {
    if |k| <= 5 then k else k[..5]
  }

  /** Ruby's String ordering: by character code, a proper prefix first. */
  predicate LexLe(a: string, b: string) {
    |a| == 0 || (|b| > 0 && (a[0] < b[0] || (a[0] == b[0] && LexLe(a[1..], b[1..]))))
  }

  lemma {:induction false} LexTotal(a: string, b: string)
    ensures LexLe(a, b) || LexLe(b, a)
  {
    if |a| > 0 && |b| > 0 && a[0] == b[0] {
      LexTotal(a[1..], b[1..]);
    }
  }

  lemma {:induction false} LexAntisymmetric(a: string, b: string)
    requires LexLe(a, b) && LexLe(b, a)
    ensures a == b
  {
    if |a| > 0 {
      LexAntisymmetric(a[1..], b[1..]);
      assert a == [a[0]] + a[1..];
      assert b == [b[0]] + b[1..];
    }
  }

  predicate Sorted(ws: seq<string>) {
    forall i :: 0 <= i < |ws| - 1 ==> LexLe(ws[i], ws[i + 1])
  }

  /** Insertion of w before the first element it precedes. */
  function Insert(w: string, ws: seq<string>): (r: seq<string>)
    ensures |r| == |ws| + 1
    ensures forall x :: x in r <==> x == w || x in ws
    ensures |r| > 0 && (r[0] == w || (|ws| > 0 && r[0] == ws[0]))
  {
    if |ws| == 0 then [w]
    else if LexLe(w, ws[0]) then [w] + ws
    else [ws[0]] + Insert(w, ws[1..])
  }

  lemma {:induction false} InsertSorted(w: string, ws: seq<string>)
    requires Sorted(ws)
    ensures Sorted(Insert(w, ws))
  {
    if |ws| > 0 && !LexLe(w, ws[0]) {
      LexTotal(w, ws[0]);
      InsertSorted(w, ws[1..]);
      var r := Insert(w, ws[1..]);
      assert Insert(w, ws) == [ws[0]] + r;
    }
  }

  lemma {:induction false} InsertDistinct(w: string, ws: seq<string>)
    requires Distinct(ws) && w !in ws
    ensures Distinct(Insert(w, ws))
  {
    if |ws| > 0 && !LexLe(w, ws[0]) {
      InsertDistinct(w, ws[1..]);
      var r := Insert(w, ws[1..]);
      assert ws[0] !in r;
      assert Insert(w, ws) == [ws[0]] + r;
    }
  }

  /** Insertion adds exactly one copy of w. */
  lemma {:induction false} InsertMultiset(w: string, ws: seq<string>)
    ensures multiset(Insert(w, ws)) == multiset(ws) + multiset{w}
  {
    if |ws| > 0 {
      assert ws == [ws[0]] + ws[1..];
      if !LexLe(w, ws[0]) {
        InsertMultiset(w, ws[1..]);
      }
    }
  }

  /** Ruby `sort` on strings (an insertion sort here). */
  function Sort(ws: seq<string>): (r: seq<string>)
    ensures |r| == |ws|
    ensures forall x :: x in r <==> x in ws
  {
    if |ws| == 0 then [] else Insert(ws[|ws| - 1], Sort(ws[..|ws| - 1]))
  }

  /** Sorting orders the words, is a permutation of them, and keeps a
      duplicate-free list duplicate-free. */
  lemma {:induction false} SortFacts(ws: seq<string>)
    ensures Sorted(Sort(ws))
    ensures multiset(Sort(ws)) == multiset(ws)
    ensures Distinct(ws) ==> Distinct(Sort(ws))
  {
    if |ws| > 0 {
      var pre := ws[..|ws| - 1];
      SortFacts(pre);
      InsertSorted(ws[|ws| - 1], Sort(pre));
      InsertMultiset(ws[|ws| - 1], Sort(pre));
      assert ws == pre + [ws[|ws| - 1]];
      if Distinct(ws) {
        assert Distinct(pre);
        assert ws[|ws| - 1] !in pre;
        InsertDistinct(ws[|ws| - 1], Sort(pre));
      }
    }
  }

  /** `table.keys.map { |key| key[0...5] }.uniq.sort`. */
  function Words(t: Table): (ws: seq<string>)
    ensures forall w :: w in ws <==> exists i :: 0 <= i < |t| && Prefix5(t[i].key) == w
  {
    var prefixes := seq(|t|, i => if 0 <= i < |t| then Prefix5(t[i].key) else "");
    assert forall i :: 0 <= i < |t| ==> prefixes[i] == Prefix5(t[i].key);
    Sort(Uniq(prefixes))
  }

  /** The word list is sorted and duplicate-free. */
  lemma WordsSorted(t: Table)
    ensures Sorted(Words(t)) && Distinct(Words(t))
  {
    var prefixes := seq(|t|, i => if 0 <= i < |t| then Prefix5(t[i].key) else "");
    SortFacts(Uniq(prefixes));
  }

  // ---------------------------------------------------------------------
  // The writer

  /** Every cell of the matrix is present in the table. */
  predicate Complete(t: Table, ws: seq<string>) {
    forall a, b :: 0 <= a < |ws| && 0 <= b < |ws| ==> Key(ws[a], ws[b]) in Keys(t)
  }

  /** The word ids, wrapped to 32 bits by pack('L'). */
  function Ids(ws: seq<string>): (ids: seq<WordId>)
    ensures |ids| == |ws|
  {
    seq<WordId>(|ws|, i => if 0 <= i < |ws| then RubyWordId(ws[i]) % Modulus32 else 0)
  }

  /** The bytes of one solution's row: `table["#{solution}:#{guess}"]` for
      every guess, truncated to 8 bits by pack('C'). */
  function RowBytes(t: Table, s: string, gs: seq<string>): (bs: seq<int>)
    ensures |bs| == |gs| && AllBytes(bs)
  {
    seq(|gs|, j => if 0 <= j < |gs| && Get(t, Key(s, gs[j])).Some? then Get(t, Key(s, gs[j])).value % 256 else 0)
  }

  /** `flat_map` over the solutions: the rows one after the other. */
  function Matrix(t: Table, ss: seq<string>, gs: seq<string>): (bs: seq<int>)
    ensures |bs| == |ss| * |gs| && AllBytes(bs)
  {
    if |ss| == 0 then []
    else
      var pre := Matrix(t, ss[..|ss| - 1], gs);
      assert |ss| * |gs| == (|ss| - 1) * |gs| + |gs|;
      pre + RowBytes(t, ss[|ss| - 1], gs)
  }

  /** The byte of row i, column j sits at offset i * |gs| + j. */
  lemma {:induction false} MatrixAt(t: Table, ss: seq<string>, gs: seq<string>, i: nat, j: nat)
    requires i < |ss| && j < |gs|
    ensures i * |gs| + j < |ss| * |gs|
    ensures Matrix(t, ss, gs)[i * |gs| + j] == RowBytes(t, ss[i], gs)[j]
  {
    var pre := ss[..|ss| - 1];
    assert |ss| * |gs| == (|ss| - 1) * |gs| + |gs|;
    if i < |ss| - 1 {
      MatrixAt(t, pre, gs, i, j);
      assert ss[i] == pre[i];
    } else {
      assert i * |gs| == (|ss| - 1) * |gs|;
    }
  }

  /** The score bytes, solution-major. */
  function ScoreBytes(t: Table, ws: seq<string>): (bs: seq<int>)
    ensures |bs| == |ws| * |ws| && AllBytes(bs)
  {
    Matrix(t, ws, ws)
  }

  /** `write_compressed`: nil (Ruby raises TypeError in pack) when a cell's key
      is missing from the table. */
  function Write(t: Table): Option<seq<int>>
  {
    var ws := Words(t);
    if Complete(t, ws) then
      Some(Le32(|ws|) + Le32s(Ids(ws)) + ScoreBytes(t, ws))
    else None
  }

  lemma CellIndex(n: nat, i: nat, j: nat)
    requires i < n && j < n
    ensures i * n + j < n * n
  {
    MulMonotone(i, n - 1, n);
    assert (n - 1) * n == n * n - n;
  }

  /** Cell (i, j) of an N*N matrix stored row by row. */
  function Cell(cells: seq<int>, n: nat, i: nat, j: nat): int
    requires |cells| == n * n && i < n && j < n
  {
    CellIndex(n, i, j);
    cells[i * n + j]
  }

  /** The byte of cell (i, j) is the table's value for "words[i]:words[j]"
      modulo 256. */
  lemma ScoreBytesAt(t: Table, ws: seq<string>, i: nat, j: nat)
    requires Complete(t, ws) && i < |ws| && j < |ws|
    ensures Get(t, Key(ws[i], ws[j])).Some?
    ensures Cell(ScoreBytes(t, ws), |ws|, i, j) == Get(t, Key(ws[i], ws[j])).value % 256
  {
    MatrixAt(t, ws, ws, i, j);
    assert Key(ws[i], ws[j]) in Keys(t);
  }

  // ---------------------------------------------------------------------
  // The reader

  /** What `load_scorer` has in memory after its reads. */
  datatype Layout = Layout(count: nat, ids: seq<WordId>, scores: seq<ScoreId>)

  /** N ids and N*N scores, with N*N within 32 bits. */
  predicate Sized(l: Layout) {
    |l.ids| == l.count && |l.scores| == l.count * l.count && l.count * l.count < Modulus32
  }

  /** A read past the end of the file leaves the zero the buffer was initialised with. */
  function ByteAt(bs: seq<int>, k: int): ScoreId
  {
    if 0 <= k < |bs| && IsByte(bs[k]) then bs[k] else 0
  }

  function WordAt(bs: seq<int>, k: int): WordId
  {
    Le32ValueRange(ByteAt(bs, k), ByteAt(bs, k + 1), ByteAt(bs, k + 2), ByteAt(bs, k + 3));
    Le32Value(ByteAt(bs, k), ByteAt(bs, k + 1), ByteAt(bs, k + 2), ByteAt(bs, k + 3))
  }

  /** `m` consecutive little-endian words from offset `start`. */
  function WordsAt(bs: seq<int>, start: int, m: nat): (ws: seq<WordId>)
    ensures |ws| == m
  {
    seq<WordId>(m, i => WordAt(bs, start + 4 * i))
  }

  /** `m` consecutive bytes from offset `start`. */
  function BytesAt(bs: seq<int>, start: int, m: nat): (r: seq<ScoreId>)
    ensures |r| == m
  {
    seq<ScoreId>(m, k => ByteAt(bs, start + k))
  }

  /** The reads of `load_scorer`. None where the C++ behaviour is undefined:
      a file shorter than the count leaves part of it uninitialised, and
      when N*N overflows 32 bits the matrix buffer is smaller than the
      indices the loops read. */
  function Read(bs: seq<int>): (r: Option<Layout>)
    ensures r.Some? ==> Sized(r.value)
  {
    if |bs| < 4 then None
    else
      var n := WordAt(bs, 0);
      var cells := n * n;
      if cells >= Modulus32 then None
      else
        Some(Layout(n, WordsAt(bs, 4, n), BytesAt(bs, 4 + 4 * n, cells)))
  }

  lemma ModSmall(v: int)
    requires 0 <= v < Modulus32
    ensures v % Modulus32 == v
  {
    DivModUnique(v, Modulus32, 0, v);
  }

  /** The count comes back from the first four bytes. */
  lemma ReadHeader(n: nat, mid: seq<int>, tail: seq<int>)
    requires n < Modulus32
    ensures WordAt(Le32(n) + mid + tail, 0) == n
  {
    var bs := Le32(n) + mid + tail;
    assert forall k :: 0 <= k < 4 ==> bs[k] == Le32(n)[k];
    Le32RoundTrip(n);
    ModSmall(n);
  }

  /** Decoding the four bytes of integer i, at offset p = 4i, gives it back. */
  lemma Le32sValue(vs: seq<WordId>, i: nat, p: nat)
    requires i < |vs| && p == 4 * i
    ensures p + 4 <= |Le32s(vs)|
    ensures Le32Value(Le32s(vs)[p], Le32s(vs)[p + 1], Le32s(vs)[p + 2], Le32s(vs)[p + 3]) == vs[i] % Modulus32
  {
    var l, w := Le32s(vs), Le32(vs[i]);
    Le32sAt(vs, i, 0, p);
    Le32sAt(vs, i, 1, p + 1);
    Le32sAt(vs, i, 2, p + 2);
    Le32sAt(vs, i, 3, p + 3);
    Le32RoundTrip(vs[i]);
  }

  /** In a file made of a 4-byte head, a block of bytes and a tail, the word
      at offset 4 + p is read from bytes p to p+3 of the block. */
  lemma WordInBlock(head: seq<int>, l: seq<int>, tail: seq<int>, p: nat)
    requires |head| == 4 && p + 4 <= |l| && AllBytes(l)
    ensures WordAt(head + l + tail, 4 + p) == Le32Value(l[p], l[p + 1], l[p + 2], l[p + 3])
  {
    var bs := head + l + tail;
    assert bs[4 + p] == l[p] && bs[4 + p + 1] == l[p + 1];
    assert bs[4 + p + 2] == l[p + 2] && bs[4 + p + 3] == l[p + 3];
  }

  lemma WordsAtIndex(bs: seq<int>, start: int, m: nat, i: nat, p: nat)
    requires i < m && p == 4 * i
    ensures WordsAt(bs, start, m)[i] == WordAt(bs, start + p)
  {
  }

  /** Id i of a written file, below 2^32, is read back from offset 4 + 4i. */
  lemma {:induction false} ReadIdAt(head: seq<int>, vs: seq<WordId>, tail: seq<int>, i: nat)
    requires |head| == 4 && i < |vs|
    ensures WordsAt(head + Le32s(vs) + tail, 4, |vs|)[i] == vs[i]
  {
    var p := 4 * i;
    WordsAtIndex(head + Le32s(vs) + tail, 4, |vs|, i, p);
    Le32sValue(vs, i, p);
    WordInBlock(head, Le32s(vs), tail, p);
    ModSmall(vs[i]);
  }

  lemma SameSeq(a: seq<WordId>, b: seq<WordId>)
    requires |a| == |b| && forall i :: 0 <= i < |a| ==> a[i] == b[i]
    ensures a == b
  {
  }

  /** The ids come back from the bytes after the count. */
  lemma {:induction false} ReadIds(head: seq<int>, vs: seq<WordId>, tail: seq<int>)
    requires |head| == 4
    ensures WordsAt(head + Le32s(vs) + tail, 4, |vs|) == vs
  {
    var r := WordsAt(head + Le32s(vs) + tail, 4, |vs|);
    forall i | 0 <= i < |vs|
      ensures r[i] == vs[i]
    {
      ReadIdAt(head, vs, tail, i);
    }
    SameSeq(r, vs);
  }

  /** Bytes come back from where they were written. */
  lemma ReadBytes(head: seq<int>, tail: seq<int>, start: int, m: nat)
    requires AllBytes(tail) && start == |head| && m == |tail|
    ensures BytesAt(head + tail, start, m) == tail
  {
    var bs := head + tail;
    var r := BytesAt(bs, start, m);
    forall k | 0 <= k < m
      ensures r[k] == tail[k]
    {
      assert r[k] == ByteAt(bs, start + k);
      assert bs[start + k] == tail[k] && IsByte(tail[k]);
    }
  }

  /** Once the count is known to be n, the reads are the n ids and n*n bytes after it. */
  lemma ReadShape(bs: seq<int>, n: nat)
    requires |bs| >= 4 && WordAt(bs, 0) == n && n * n < Modulus32
    ensures Read(bs) == Some(Layout(n, WordsAt(bs, 4, n), BytesAt(bs, 4 + 4 * n, n * n)))
  {
  }

  /** A file of the written shape reads back as its three parts. */
  lemma {:induction false} ReadLayout(n: nat, vs: seq<WordId>, sb: seq<int>)
    requires n < 65536 && |vs| == n && |sb| == n * n && AllBytes(sb)
    ensures Read(Le32(n) + Le32s(vs) + sb).Some?
    ensures Read(Le32(n) + Le32s(vs) + sb).value.count == n
    ensures Read(Le32(n) + Le32s(vs) + sb).value.ids == vs
    ensures Read(Le32(n) + Le32s(vs) + sb).value.scores == sb
  {
    var bs := Le32(n) + Le32s(vs) + sb;
    var cells := n * n;
    var start := 4 + 4 * n;
    assert WordAt(bs, 0) == n by {
      ReadHeader(n, Le32s(vs), sb);
    }
    assert cells < Modulus32 by {
      MulMonotone(n, 65535, n);
      MulMonotone(n, 65535, 65535);
    }
    assert WordsAt(bs, 4, n) == vs by {
      ReadIds(Le32(n), vs, sb);
    }
    assert BytesAt(bs, start, cells) == sb by {
      ReadBytes(Le32(n) + Le32s(vs), sb, start, cells);
    }
    ReadShape(bs, n);
  }

  /** Reading a written file gives back the count, the ids and the score
      bytes, as long as N*N fits in 32 bits. */
  lemma WriteRead(t: Table)
    requires Write(t).Some?
    requires |Words(t)| < 65536
    ensures Read(Write(t).value).Some?
    ensures Read(Write(t).value).value.count == |Words(t)|
    ensures Read(Write(t).value).value.ids == Ids(Words(t))
    ensures Read(Write(t).value).value.scores == ScoreBytes(t, Words(t))
  {
    var ws := Words(t);
    assert Write(t).value == Le32(|ws|) + Le32s(Ids(ws)) + ScoreBytes(t, ws);
    ReadLayout(|ws|, Ids(ws), ScoreBytes(t, ws));
  }

  // ---------------------------------------------------------------------
  // The file written for a table built from a dictionary

  predicate AllWords(d: seq<string>) {
    forall a :: 0 <= a < |d| ==> IsWord(d[a])
  }

  lemma WordsColonFree(d: seq<string>)
    requires AllWords(d)
    ensures forall a :: 0 <= a < |d| ==> ColonFree(d[a])
  {
    forall a | 0 <= a < |d|
      ensures ColonFree(d[a])
    {
      assert forall i :: 0 <= i < |d[a]| ==> d[a][i] != ':' by {
        assert forall i :: 0 <= i < 5 ==> IsLower(d[a][i]);
      }
    }
  }

  /** The first five characters of the key of a five-letter solution are the solution. */
  lemma Prefix5Key(s: string, g: string)
    requires |s| == 5
    ensures Prefix5(Key(s, g)) == s
  {
    assert Key(s, g)[..5] == s;
  }

  /** Every word of a built table's word list is a dictionary word. */
  lemma WordsOfBuiltWithin(d: seq<string>, w: string)
    requires AllWords(d) && w in Words(BuildTable(d))
    ensures w in d
  {
    var t := BuildTable(d);
    var i :| 0 <= i < |t| && Prefix5(t[i].key) == w;
    var a, b := PairsAt(d, Code, i);
    Prefix5Key(d[a], d[b]);
  }

  /** Every dictionary word is in a built table's word list. */
  lemma WordsOfBuiltCover(d: seq<string>, a: nat)
    requires AllWords(d) && a < |d|
    ensures d[a] in Words(BuildTable(d))
  {
    var t := BuildTable(d);
    PairsHasKey(d, Code, a, a);
    var i :| 0 <= i < |Keys(t)| && Keys(t)[i] == Key(d[a], d[a]);
    assert t[i].key == Key(d[a], d[a]);
    Prefix5Key(d[a], d[a]);
  }

  /** The word list of a built table holds exactly the dictionary's words. */
  lemma WordsOfBuilt(d: seq<string>)
    requires AllWords(d)
    ensures forall w :: w in Words(BuildTable(d)) <==> w in d
  {
    forall w | w in Words(BuildTable(d))
      ensures w in d
    {
      WordsOfBuiltWithin(d, w);
    }
    forall w | w in d
      ensures w in Words(BuildTable(d))
    {
      var a :| 0 <= a < |d| && d[a] == w;
      WordsOfBuiltCover(d, a);
    }
  }

  /** Every cell of a built table's matrix is present. */
  lemma BuiltComplete(d: seq<string>)
    requires AllWords(d)
    ensures Complete(BuildTable(d), Words(BuildTable(d)))
  {
    var t := BuildTable(d);
    var ws := Words(t);
    WordsOfBuilt(d);
    forall a, b | 0 <= a < |ws| && 0 <= b < |ws|
      ensures Key(ws[a], ws[b]) in Keys(t)
    {
      assert ws[a] in d && ws[b] in d;
      var a' :| 0 <= a' < |d| && d[a'] == ws[a];
      var b' :| 0 <= b' < |d| && d[b'] == ws[b];
      PairsHasKey(d, Code, a', b');
    }
  }

  /** A table missing the key of two of its listed words cannot be written:
      the cell's nil makes `pack('C*')` raise. */
  lemma WriteMissing(t: Table, s: string, g: string)
    requires s in Words(t) && g in Words(t) && Key(s, g) !in Keys(t)
    ensures Write(t).None?
  {
    var ws := Words(t);
    var a :| 0 <= a < |ws| && ws[a] == s;
    var b :| 0 <= b < |ws| && ws[b] == g;
    assert !Complete(t, ws);
  }

  /** The table `build_table` makes for a dictionary of five-letter words
      can always be written. */
  lemma BuiltWrites(d: seq<string>)
    requires AllWords(d)
    ensures Write(BuildTable(d)).Some?
  {
    BuiltComplete(d);
  }

  lemma ByteSmall(v: int)
    requires 0 <= v < 256
    ensures v % 256 == v
  {
    DivModUnique(v, 256, 0, v);
  }

  /** Cell (i, j) of a built table's file is the packed feedback of guess
      words[j] against solution words[i]. */
  lemma {:induction false} BuiltCell(d: seq<string>, i: nat, j: nat)
    requires AllWords(d)
    requires i < |Words(BuildTable(d))| && j < |Words(BuildTable(d))|
    ensures Cell(ScoreBytes(BuildTable(d), Words(BuildTable(d))), |Words(BuildTable(d))|, i, j)
            == PackScore(Reference(Words(BuildTable(d))[i], Words(BuildTable(d))[j]))
  {
    var t := BuildTable(d);
    var ws := Words(t);
    var s, g := ws[i], ws[j];
    assert Cell(ScoreBytes(t, ws), |ws|, i, j) == Get(t, Key(s, g)).value % 256 by {
      BuiltComplete(d);
      ScoreBytesAt(t, ws, i, j);
    }
    assert s in d && g in d by {
      WordsOfBuilt(d);
    }
    assert |s| == 5 by {
      var a :| 0 <= a < |d| && d[a] == s;
    }
    assert Get(t, Key(s, g)) == Some(PackScore(Reference(s, g))) by {
      WordsColonFree(d);
      BuildTableCode(d, s, g);
    }
    PackScoreRange(Reference(s, g));
    ByteSmall(PackScore(Reference(s, g)));
  }

  /** Id i of a built table's file is the C++ `from_word` of words[i]. */
  lemma {:induction false} BuiltId(d: seq<string>, i: nat)
    requires AllWords(d)
    requires i < |Words(BuildTable(d))|
    ensures Ids(Words(BuildTable(d)))[i] == FromWord(Words(BuildTable(d))[i])
  {
    var ws := Words(BuildTable(d));
    WordsOfBuilt(d);
    assert IsWord(ws[i]) by {
      assert ws[i] in d;
      var a :| 0 <= a < |d| && d[a] == ws[i];
    }
    WordIdsAgree(ws[i]);
    ModSmall(RubyWordId(ws[i]));
  }

  /** The word list of a built table is no longer than the dictionary's
      distinct words. */
  lemma BuiltCount(d: seq<string>)
    requires AllWords(d)
    ensures |Words(BuildTable(d))| <= |Uniq(d)|
  {
    var ws := Words(BuildTable(d));
    var u := Uniq(d);
    WordsOfBuilt(d);
    WordsSorted(BuildTable(d));
    forall i | 0 <= i < |ws|
      ensures ws[i] in u
    {
      InUniq(d, ws[i]);
    }
    DistinctWithin(ws, u);
  }

  lemma InUniq(d: seq<string>, w: string)
    requires w in d
    ensures w in Uniq(d)
  {
    var a :| 0 <= a < |d| && d[a] == w;
  }

  /** The ids read back from a built table's file are the C++ ids of its words. */
  lemma {:induction false} BuiltIds(d: seq<string>)
    requires AllWords(d) && |Uniq(d)| < 65536
    ensures Write(BuildTable(d)).Some? && Read(Write(BuildTable(d)).value).Some?
    ensures var ws := Words(BuildTable(d));
            var r := Read(Write(BuildTable(d)).value).value;
            |r.ids| == |ws| && forall i :: 0 <= i < |ws| ==> r.ids[i] == FromWord(ws[i])
  {
    var t := BuildTable(d);
    var ws := Words(t);
    BuiltWrites(d);
    BuiltCount(d);
    WriteRead(t);
    forall i | 0 <= i < |ws|
      ensures Ids(ws)[i] == FromWord(ws[i])
    {
      BuiltId(d, i);
    }
  }

  /** The scores read back from a built table's file are the packed feedback. */
  lemma {:induction false} BuiltScores(d: seq<string>)
    requires AllWords(d) && |Uniq(d)| < 65536
    ensures Write(BuildTable(d)).Some? && Read(Write(BuildTable(d)).value).Some?
    ensures var ws := Words(BuildTable(d));
            var r := Read(Write(BuildTable(d)).value).value;
            |r.scores| == |ws| * |ws| &&
            forall i, j :: 0 <= i < |ws| && 0 <= j < |ws| ==>
              Cell(r.scores, |ws|, i, j) == PackScore(Reference(ws[i], ws[j]))
  {
    var t := BuildTable(d);
    var ws := Words(t);
    BuiltWrites(d);
    BuiltCount(d);
    WriteRead(t);
    var sb := ScoreBytes(t, ws);
    forall i, j | 0 <= i < |ws| && 0 <= j < |ws|
      ensures Cell(sb, |ws|, i, j) == PackScore(Reference(ws[i], ws[j]))
    {
      BuiltCell(d, i, j);
    }
  }

  /** The whole preprocessing pipeline: the file written for the table of a
      dictionary of fewer than 65536 distinct words reads back as the sorted,
      duplicate-free dictionary, the C++ ids of its words and, in cell
      i * N + j, the packed feedback of words[j] against words[i]. */
  lemma {:induction false} BuiltRoundTrip(d: seq<string>)
    requires AllWords(d) && |Uniq(d)| < 65536
    ensures Write(BuildTable(d)).Some?
    ensures Read(Write(BuildTable(d)).value).Some?
    ensures var ws := Words(BuildTable(d));
            var r := Read(Write(BuildTable(d)).value).value;
            && Sorted(ws) && Distinct(ws)
            && (forall w :: w in ws <==> w in d)
            && r.count == |ws| && |r.ids| == |ws| && |r.scores| == |ws| * |ws|
            && (forall i :: 0 <= i < |ws| ==> r.ids[i] == FromWord(ws[i]))
            && (forall i, j :: 0 <= i < |ws| && 0 <= j < |ws| ==>
                  Cell(r.scores, |ws|, i, j) == PackScore(Reference(ws[i], ws[j])))
  {
    var t := BuildTable(d);
    BuiltWrites(d);
    BuiltCount(d);
    WordsSorted(t);
    WordsOfBuilt(d);
    BuiltIds(d);
    BuiltScores(d);
  }
}
