/**
 Division by precomputed reciprocals (Moller and Granlund, "Improved division by
 invariant integers"): why one multiplication and two conditional corrections
 give the exact quotient.  Everything here holds in any base b.
 */
module Reciprocal {
  import opened Arith

  /** m is floor((b^3 - 1) / d) - b. */
  ghost predicate Inverse3by2(b: int, d: int, m: int)
  {
    0 <= b * b * b - 1 - (b + m) * d < d
  }

  /** m is floor((b^2 - 1) / d) - b. */
  ghost predicate Inverse2by1(b: int, d: int, m: int)
  {
    0 <= b * b - 1 - (b + m) * d < d
  }

  lemma MulCancel(r: int, t: int, b: int)
    requires 0 < b && b * r < b * t
    ensures r < t
  {
    if r >= t { MulMono(t, r, b); }
  }

  lemma MulCancelGe(r: int, t: int, b: int)
    requires 0 < b && b * r >= b * t
    ensures r >= t
  {
    if r < t { MulMono(r, t - 1, b); Dist(t, -1, b); }
  }

  /** Bounds on the candidate remainder of a 3/2 division: it is in a window of length b^2. */
  lemma Candidate3by2(b: int, d: int, v: int, n2: int, n1: int, n0: int, q1: int, q0: int)
    requires 1 < b && b * b <= 2 * d && d < b * b && Inverse3by2(b, d, v)
    requires 0 <= n2 && 0 <= n1 < b && 0 <= n0 < b && n2 * b + n1 < d
    requires 0 <= q0 < b && q1 * b + q0 == (b + v) * n2 + n1
    ensures var r := n2 * b * b + n1 * b + n0 - (q1 + 1) * d;
            && -d <= r && q0 * b - b * b <= r && (r < b * b - d || r < q0 * b)
  {
    var r := n2 * b * b + n1 * b + n0 - (q1 + 1) * d;
    var k, e := b * b * b - (b + v) * d, b * b - d;
    Scaled3by2(b, d, v, n2, n1, n0, q1, q0);
    var s := n2 * k + n1 * e + n0 * b;
    MulMono(0, n2, k); MulMono(0, n1, e); MulMono(0, n0, b);
    Lower(b, d, s, q0, r);
    if e <= b - 1 {
      assert k <= b * e by { NearInverse(b, d, e, v); }
      UpperNear(b, d, e, k, n2, n1, n0, q0, r);
    } else {
      UpperFar(b, d, e, k, n2, n1, n0, q0, r, if e >= q0 * b then e else q0 * b);
    }
  }

  lemma Scaled3by2(b: int, d: int, v: int, n2: int, n1: int, n0: int, q1: int, q0: int)
    requires q1 * b + q0 == (b + v) * n2 + n1
    ensures var k, e := b * b * b - (b + v) * d, b * b - d;
            b * (n2 * b * b + n1 * b + n0 - (q1 + 1) * d) == n2 * k + n1 * e + n0 * b + q0 * d - b * d
  {
    ScaleNumerator(b, n2, n1, n0);
    ScaleQuotient(b + v, n2, n1, q0, d);
    ScaleDifference(b, n2 * b * b + n1 * b + n0, q1, d);
  }

  lemma ScaleNumerator(b: int, n2: int, n1: int, n0: int)
    ensures b * (n2 * b * b + n1 * b + n0) == n2 * (b * b * b) + n1 * (b * b) + n0 * b
  {
  }

  lemma ScaleQuotient(s: int, n2: int, n1: int, q0: int, d: int)
    ensures (s * n2 + n1 - q0) * d == n2 * (s * d) + n1 * d - q0 * d
  {
  }

  lemma ScaleDifference(b: int, x: int, q1: int, d: int)
    ensures b * (x - (q1 + 1) * d) == b * x - (q1 * b) * d - b * d
  {
  }

  lemma Lower(b: int, d: int, s: int, q0: int, r: int)
    requires 0 < b && 0 < d <= b * b && 0 <= s && 0 <= q0 < b
    requires b * r == s + q0 * d - b * d
    ensures r >= -d && r >= q0 * b - b * b
  {
    MulMono(0, q0, d);
    MulCancelGe(r, -d, b);
    MulMono(d, b * b, b - q0);
    Dist(b, -q0, d);
    Dist(q0, -b, b * b);
    Assoc(b, q0, b);
    MulCancelGe(r, q0 * b - b * b, b);
  }

  /** A divisor just below b^2 has reciprocal 0, so b e is all that is left of b^3. */
  lemma NearInverse(b: int, d: int, e: int, v: int)
    requires 1 < b && d + e == b * b && 0 < d && 0 < e && Inverse3by2(b, d, v)
    ensures b * b * b - (b + v) * d <= b * e
  {
    Dist(b, v, d);
    Dist(d, e, b);
    if v < 0 {
      MulMono(v, -1, d);
      MulMono(1, e, b);
    } else {
      MulMono(0, v, d);
    }
  }

  lemma UpperNear(b: int, d: int, e: int, k: int, n2: int, n1: int, n0: int, q0: int, r: int)
    requires 1 < b && d + e == b * b && 0 < d && 0 <= e <= b - 1 && k <= b * e
    requires 0 <= n2 && 0 <= n0 < b && n2 * b + n1 < d && 0 <= q0
    requires b * r == n2 * k + n1 * e + n0 * b + q0 * d - b * d
    ensures r < q0 * b
  {
    NearTerms(b, d, e, k, n2, n1);
    MulMono(n0, b - 1, b);
    NearIdentity(b, d, e);
    MulMono(e + 1 - b, 0, d);
    MulMono(d, b * b, q0);
    Assoc(b, q0, b);
    Assoc(q0, b, b);
    MulCancel(r, q0 * b, b);
  }

  lemma NearTerms(b: int, d: int, e: int, k: int, n2: int, n1: int)
    requires 0 <= e && k <= b * e && 0 <= n2 && n2 * b + n1 < d
    ensures n2 * k + n1 * e <= (d - 1) * e
  {
    MulMono(k, b * e, n2);
    MulMono(n2 * b + n1, d - 1, e);
    Assoc(n2, b, e);
    Dist(n2 * b, n1, e);
  }

  lemma NearIdentity(b: int, d: int, e: int)
    requires d + e == b * b
    ensures (d - 1) * e + (b - 1) * b - b * d == (e + 1 - b) * d - b
  {
  }

  lemma UpperFar(b: int, d: int, e: int, k: int, n2: int, n1: int, n0: int, q0: int, r: int, c: int)
    requires 1 < b && d + e == b * b && 0 < d && b <= e && 0 <= k <= d
    requires 0 <= n2 && 0 <= n1 < b && 0 <= n0 < b && n2 * b + n1 < d && 0 <= q0
    requires c >= e && c >= q0 * b
    requires b * r == n2 * k + n1 * e + n0 * b + q0 * d - b * d
    ensures r < c
  {
    var x := n2 * d + n1 * e + (b - 1) * b + q0 * d - b * d;
    MulMono(k, d, n2);
    MulMono(n0, b - 1, b);
    FarBound(b, d, e, n2, n1, q0, c);
    CancelTwice(b, r, x, c);
  }

  lemma CancelTwice(b: int, r: int, x: int, c: int)
    requires 0 < b && b * r <= x && b * x < (b * b) * c
    ensures r < c
  {
    MulMono(b * r, x, b);
    Assoc(b, b, c);
    MulCancel(b * r, b * c, b);
    MulCancel(r, c, b);
  }

  lemma FarBound(b: int, d: int, e: int, n2: int, n1: int, q0: int, c: int)
    requires 1 < b && d + e == b * b && 0 < d && b <= e
    requires 0 <= n1 < b && n2 * b + n1 < d && c >= e && c >= q0 * b
    ensures b * (n2 * d + n1 * e + (b - 1) * b + q0 * d - b * d) < (b * b) * c
  {
    FarScale(b, n2, d, n1, e, q0);
    MulMono(n2 * b, d - 1 - n1, d);
    MulMono(b, e, b);
    MulMono(n1, b - 1, b * e - d);
    FarIdentity(b, d, e, n1);
    MulMono(e, c, e); MulMono(q0 * b, c, d); Dist(e, d, c);
  }

  lemma FarScale(b: int, n2: int, d: int, n1: int, e: int, q0: int)
    ensures b * (n2 * d + n1 * e + (b - 1) * b + q0 * d - b * d)
         == (n2 * b) * d + n1 * (b * e) + (b * b) * (b - 1) + (q0 * b) * d - (b * b) * d
  {
    Dist(n2 * d, n1 * e + (b - 1) * b + q0 * d - b * d, b);
    Dist(n1 * e, (b - 1) * b + q0 * d - b * d, b);
    Dist((b - 1) * b, q0 * d - b * d, b);
    Dist(q0 * d, -(b * d), b);
    Assoc(n2, b, d); Assoc(n1, b, e); Assoc(b, b, b - 1); Assoc(q0, b, d); Assoc(b, b, d);
    Assoc(n2, d, b); Assoc(n1, e, b); Assoc(b - 1, b, b); Assoc(q0, d, b); Assoc(b, d, b);
  }

  lemma FarIdentity(b: int, d: int, e: int, n1: int)
    requires d + e == b * b
    ensures (d - 1 - n1) * d + n1 * (b * e) + (b * b) * (b - 1) - (b * b) * d
         == n1 * (b * e - d) - (b - 1) * (b * e - d) + e * e - b * b
  {
    var z := b * e - d;
    assert (d - 1 - n1) * d + n1 * (b * e) == (d - 1) * d + n1 * z;
    assert e == b * b - d;
  }

  /** What the first conditional correction does with a remainder held modulo b^2. */
  lemma Correct3by2(b: int, d: int, n: int, q1: int, q0: int, m: int)
    requires 1 < b && 0 < d < b * b && 0 <= q0 < b
    requires var r := n - (q1 + 1) * d;
             && -d <= r && q0 * b - b * b <= r && (r < b * b - d || r < q0 * b)
             && m == if r < 0 then r + b * b else r
    ensures 0 <= m < b * b
    ensures if m >= q0 * b then q1 * d + (if m + d >= b * b then m + d - b * b else m + d) == n
            else (q1 + 1) * d + m == n
  {
    Dist(q1, 1, d);
    MulMono(q0, b - 1, b);
  }

  /** The same window for a 2/1 division. */
  lemma Candidate2by1(b: int, d: int, v: int, n1: int, n0: int, q1: int, q0: int)
    requires 1 < b && b <= 2 * d && d < b && Inverse2by1(b, d, v)
    requires 0 <= n1 < d && 0 <= n0 < b && 0 <= q0 < b && q1 * b + q0 == (b + v) * n1 + n0
    ensures var r := n1 * b + n0 - (q1 + 1) * d;
            && -d <= r && q0 - b < r && (r < b - d || r < q0)
  {
    var r := n1 * b + n0 - (q1 + 1) * d;
    var k, e := b * b - (b + v) * d, b - d;
    Scaled2by1(b, d, v, n1, n0, q1, q0);
    Terms2by1(b, d, k, e, n1, n0);
    Lower2by1(b, d, n1 * k + n0 * e, q0, r);
    Upper2by1(b, d, e, q0, r);
  }

  lemma Terms2by1(b: int, d: int, k: int, e: int, n1: int, n0: int)
    requires 0 <= n1 < d && 0 <= n0 < b && 0 <= k <= d && 0 <= e
    ensures 0 <= n1 * k + n0 * e <= (d - 1) * d + (b - 1) * e
  {
    MulMono(0, n1, k); MulMono(0, n0, e);
    MulMono(n1, d - 1, k); MulMono(k, d, d - 1); MulMono(n0, b - 1, e);
  }

  lemma Lower2by1(b: int, d: int, s: int, q0: int, r: int)
    requires 0 < b && 0 < d < b && 0 <= s && 0 <= q0 < b
    requires b * r == s + q0 * d - b * d
    ensures r >= -d && r > q0 - b
  {
    MulMono(0, q0, d);
    MulCancelGe(r, -d, b);
    Dist(b, -q0, d);
    MulMono(d, b - 1, b - q0);
    Dist(b, -1, b - q0);
    MulCancel(q0 - b, r, b);
  }

  lemma Scaled2by1(b: int, d: int, v: int, n1: int, n0: int, q1: int, q0: int)
    requires q1 * b + q0 == (b + v) * n1 + n0
    ensures var k, e := b * b - (b + v) * d, b - d;
            b * (n1 * b + n0 - (q1 + 1) * d) == n1 * k + n0 * e + q0 * d - b * d
  {
    ScaleQuotient(b + v, n1, n0, q0, d);
    ScaleDifference(b, n1 * b + n0, q1, d);
  }

  lemma Upper2by1(b: int, d: int, e: int, q0: int, r: int)
    requires 1 < b && d + e == b && 0 < d && 0 < e && 0 <= q0
    requires b * r <= (d - 1) * d + (b - 1) * e + q0 * d - b * d
    ensures r < e || r < q0
  {
    Identity2by1(d, e);
    var c := if e >= q0 then e else q0;
    MulMono(e, c, e); MulMono(q0, c, d); Dist(e, d, c);
    MulCancel(r, c, b);
  }

  lemma Identity2by1(d: int, e: int)
    ensures (d - 1) * d + (d + e - 1) * e - (d + e) * d == e * e - (d + e)
  {
  }

  lemma Correct2by1(b: int, d: int, n: int, q1: int, q0: int, m: int)
    requires 1 < b && 0 < d < b && 0 <= q0 < b
    requires var r := n - (q1 + 1) * d;
             && -d <= r && q0 - b < r && (r < b - d || r < q0)
             && m == if r < 0 then r + b else r
    ensures 0 <= m < b
    ensures if m > q0 then q1 * d + (if m + d >= b then m + d - b else m + d) == n
            else (q1 + 1) * d + m == n
  {
    Dist(q1, 1, d);
  }
}
