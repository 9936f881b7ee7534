/**
 Positional (base-b) numerals, most significant digit first.

 Both integer encodings of the system are instances of this one scheme:
 words are packed base 26 and feedback patterns base 3. `Pack` is the
 left fold `acc * b + d` that the encoders run; `Unpack` is the
 fixed-width decoder that peels the least significant digit off last.
 */
module Positional {

  function Pow(b: nat, k: nat): (p: nat)
    ensures b > 0 ==> p > 0
  {
    if k == 0 then 1 else b * Pow(b, k - 1)
  }

  /** All digits lie in [0, b). */
  predicate AllDigits(ds: seq<int>, b: int) {
    forall i :: 0 <= i < |ds| ==> 0 <= ds[i] < b
  }

  /** The left fold `acc * b + d` over the digits, starting from 0. */
  function Pack(ds: seq<int>, b: int): int
  {
    if |ds| == 0 then 0 else Pack(ds[..|ds| - 1], b) * b + ds[|ds| - 1]
  }

  /** The k lowest base-b digits of n, most significant first. */
  function Unpack(n: nat, b: nat, k: nat): (ds: seq<int>)
    requires b > 0
    ensures |ds| == k
    ensures AllDigits(ds, b)
    decreases k
  {
    if k == 0 then []
    else
      DivNonNegative(n, b);
      Unpack(n / b, b, k - 1) + [n % b]
  }

  /** Quotient and remainder are determined by any decomposition n == q*d + r with 0 <= r < d. */
  lemma DivModUnique(n: int, d: int, q: int, r: int)
    requires d > 0 && 0 <= r < d && n == q * d + r
    ensures n / d == q && n % d == r
  {
    var q' := n / d;
    var r' := n % d;
    assert n == q' * d + r';
    assert (q - q') * d == r' - r;
    if q > q' {
      MulAtLeast(q - q', d);
    } else if q < q' {
      MulAtLeast(q' - q, d);
    }
  }

  lemma DivNonNegative(n: int, d: int)
    requires n >= 0 && d > 0
    ensures n / d >= 0
  {
  }

  lemma MulAtLeast(a: int, d: int)
    requires a >= 1 && d > 0
    ensures a * d >= d
  {
    assert a * d == d + (a - 1) * d;
    MulNonNegative(a - 1, d);
  }

  lemma MulNonNegative(a: int, d: int)
    requires a >= 0 && d >= 0
    ensures a * d >= 0
  {
  }

  lemma MulAssociative(a: int, c: int, d: int)
    ensures a * c * d == a * (c * d)
  {
  }

  lemma MulMonotone(a: int, c: int, d: int)
    requires a <= c && d >= 0
    ensures a * d <= c * d
  {
    assert c * d - a * d == (c - a) * d;
    MulNonNegative(c - a, d);
  }

  lemma PowPositive(b: nat, k: nat)
    requires b > 0
    ensures Pow(b, k) >= 1
  {
  }

  lemma PowMonotone(b: nat, j: nat, k: nat)
    requires b > 0 && j <= k
    ensures Pow(b, j) <= Pow(b, k)
  {
    if j < k {
      PowMonotone(b, j, k - 1);
      PowPositive(b, k - 1);
    }
  }

  /** A number with k digits below b is below b^k. */
  lemma {:induction false} PackBound(ds: seq<int>, b: nat)
    requires b > 0 && AllDigits(ds, b)
    ensures 0 <= Pack(ds, b) < Pow(b, |ds|)
  {
    if |ds| > 0 {
      var pre := ds[..|ds| - 1];
      var d := ds[|ds| - 1];
      assert AllDigits(pre, b);
      PackBound(pre, b);
      var p := Pack(pre, b);
      var m := Pow(b, |pre|);
      assert Pack(ds, b) == p * b + d;
      assert Pow(b, |ds|) == b * m;
      MulMonotone(p, m - 1, b);
      MulNonNegative(p, b);
      assert (m - 1) * b == b * m - b;
      assert p * b + d < b * m;
    }
  }

  /** Decoding the packed digits recovers them. */
  lemma {:induction false} UnpackPack(ds: seq<int>, b: nat)
    requires b > 0 && AllDigits(ds, b)
    ensures Pack(ds, b) >= 0
    ensures Unpack(Pack(ds, b), b, |ds|) == ds
  {
    PackBound(ds, b);
    if |ds| > 0 {
      var pre := ds[..|ds| - 1];
      assert AllDigits(pre, b);
      UnpackPack(pre, b);
      var n := Pack(ds, b);
      DivModUnique(n, b, Pack(pre, b), ds[|ds| - 1]);
      assert ds == pre + [ds[|ds| - 1]];
    }
  }

  /** Packing the k low digits of n gives n modulo b^k. */
  lemma {:induction false} PackUnpack(n: nat, b: nat, k: nat)
    requires b > 0
    ensures Pack(Unpack(n, b, k), b) == n % Pow(b, k)
    decreases k
  {
    if k > 0 {
      var ds := Unpack(n, b, k);
      DivNonNegative(n, b);
      var q: nat := n / b;
      assert ds[..k - 1] == Unpack(q, b, k - 1);
      PackUnpack(q, b, k - 1);
      PowPositive(b, k - 1);
      NestedMod(n, b, Pow(b, k - 1));
    }
  }

  /** (n / b mod m) * b + n mod b == n mod (m * b). */
  lemma NestedMod(n: int, b: int, m: int)
    requires b > 0 && m > 0
    ensures ((n / b) % m) * b + n % b == n % (m * b)
  {
    var q := n / b;
    var r := n % b;
    var t := q / m;
    var u := q % m;
    assert n == q * b + r;
    assert q == t * m + u;
    assert n == t * (m * b) + (u * b + r) by {
      calc {
        n;
        q * b + r;
        (t * m + u) * b + r;
        { assert (t * m + u) * b == t * m * b + u * b; }
        t * m * b + u * b + r;
        { MulAssociative(t, m, b); }
        t * (m * b) + (u * b + r);
      }
    }
    assert 0 <= u * b + r < m * b by {
      assert u <= m - 1;
      MulMonotone(u, m - 1, b);
      MulNonNegative(u, b);
      assert (m - 1) * b == m * b - b;
    }
    MulAtLeast(m, b);
    DivModUnique(n, m * b, t, u * b + r);
  }

  /** Reducing every intermediate accumulator modulo M does not change the final residue. */
  lemma ModStep(a: int, b: int, d: int, M: int)
    requires M > 0
    ensures ((a % M) * b + d) % M == (a * b + d) % M
  {
    var q := a / M;
    var r := a % M;
    assert a == q * M + r;
    assert a * b + d == (r * b + d) + (q * b) * M by {
      calc {
        a * b + d;
        (q * M + r) * b + d;
        (r * b + d) + (q * b) * M;
      }
    }
    var x := r * b + d;
    var y := x + (q * b) * M;
    DivModUnique(y, M, x / M + q * b, x % M);
  }

  /** Unpacking 0 gives k zero digits. */
  lemma {:induction false} UnpackZero(b: nat, k: nat)
    requires b > 0
    ensures forall i :: 0 <= i < k ==> Unpack(0, b, k)[i] == 0
  {
    if k > 0 {
      UnpackZero(b, k - 1);
    }
  }
}
