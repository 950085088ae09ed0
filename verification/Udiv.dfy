/**
 The double-word steps of mini-gmp: sums and differences of limb pairs, and the
 2/1 and 3/2 division steps with a reciprocal.
 */
module Udiv {
  import opened Arith
  import opened Limbs
  import opened MpnArith
  import opened Reciprocal

  const BB: nat := 0x1_0000_0000_0000_0000_0000_0000_0000_0000

  /** gmp_add_ssaaaa: double-limb addition modulo B^2. */
  function AddPair(ah: Limb, al: Limb, bh: Limb, bl: Limb): (s: (Limb, Limb))
    ensures s.0 * B + s.1 == (ah * B + al + bh * B + bl) % BB
  {
    var x := Wrap(al + bl);
    var y := Wrap(ah + bh + if x < al then 1 else 0);
    PairSum(ah, al, bh, bl, x, y);
    (y, x)
  }

  lemma PairSum(ah: Limb, al: Limb, bh: Limb, bl: Limb, x: Limb, y: Limb)
    requires x == Wrap(al + bl) && y == Wrap(ah + bh + if x < al then 1 else 0)
    ensures y * B + x == (ah * B + al + bh * B + bl) % BB
  {
    var c := if x < al then 1 else 0;
    assert x + c * B == al + bl;
    var c' := if ah + bh + c >= B then 1 else 0;
    assert y + c' * B == ah + bh + c;
    DivModUnique(ah * B + al + bh * B + bl, BB, c', y * B + x);
  }

  /** gmp_sub_ddmmss: double-limb subtraction modulo B^2. */
  function SubPair(ah: Limb, al: Limb, bh: Limb, bl: Limb): (s: (Limb, Limb))
    ensures s.0 * B + s.1 == (ah * B + al - bh * B - bl) % BB
  {
    var y := Wrap(ah - bh - if al < bl then 1 else 0);
    var x := Wrap(al - bl);
    PairDifference(ah, al, bh, bl, x, y);
    (y, x)
  }

  lemma PairDifference(ah: Limb, al: Limb, bh: Limb, bl: Limb, x: Limb, y: Limb)
    requires x == Wrap(al - bl) && y == Wrap(ah - bh - if al < bl then 1 else 0)
    ensures y * B + x == (ah * B + al - bh * B - bl) % BB
  {
    var c := if al < bl then 1 else 0;
    assert x - c * B == al - bl;
    var c' := if ah - bh - c < 0 then 1 else 0;
    assert y - c' * B == ah - bh - c;
    DivModUnique(ah * B + al - bh * B - bl, BB, -c', y * B + x);
  }

  /** An exact quotient of a number below d B fits in a limb. */
  lemma QuotientFits(q: int, r: int, d: int, n: int)
    requires 0 < d && q * d + r == n && 0 <= r < d && 0 <= n < d * B
    ensures 0 <= q < B
  {
    if q < 0 { MulMono(q, -1, d); }
    if q >= B { MulMono(B, q, d); }
  }

  /** A remainder between d and 2 d: the next quotient is exact. */
  lemma OneMore(q: int, r: int, d: int, n: int)
    requires q * d + r == n && d <= r < 2 * d && 0 <= n < d * B
    ensures (q + 1) * d + (r - d) == n && 0 <= q + 1 < B
  {
    Dist(q, 1, d);
    QuotientFits(q + 1, r - d, d, n);
  }

  /** gmp_udiv_qrnnd_preinv.  Adding the mask of a true comparison subtracts 1. */
  method UdivPreinv(nh: Limb, nl: Limb, d: Limb, di: Limb) returns (q: Limb, r: Limb)
    requires B / 2 <= d && nh < d && Inverse2by1(B, d, di)
    ensures q * d + r == nh * B + nl && r < d
  {
    hide Wrap, AddPair;
    var qh, ql := UmulPpmm(nh, di);
    var s := AddPair(qh, ql, nh + 1, nl);
    qh, ql := s.0, s.1;
    r := Wrap(nl - qh * d);
    ghost var q1 := Quotient2by1(nh, nl, d, di, qh, ql);
    Candidate2by1(B, d, di, nh, nl, q1, ql);
    Residue2by1(nh, nl, d, q1, qh);
    q, r := Adjust2by1(nh, nl, d, q1, qh, ql, r);
  }

  /** The candidate quotient before the macro adds 1 and wraps. */
  lemma Quotient2by1(nh: Limb, nl: Limb, d: Limb, di: Limb, qh: Limb, ql: Limb) returns (q1: int)
    requires nh < d && Inverse2by1(B, d, di) && B / 2 <= d
    requires qh * B + ql == (nh * di + (nh + 1) * B + nl) % BB
    ensures q1 * B + ql == (B + di) * nh + nl && qh == Wrap(q1 + 1) && 0 <= q1 < B
  {
    hide Inverse2by1;
    var t := (B + di) * nh + nl;
    q1 := t / B;
    Dist(B, di, nh);
    Bound2by1(nh, nl, d, di);
    SplitCandidate(t, qh, ql);
  }

  lemma Bound2by1(nh: Limb, nl: Limb, d: Limb, di: Limb)
    requires nh < d && Inverse2by1(B, d, di)
    ensures 0 <= (B + di) * nh + nl < BB
  {
    ScaledBelow(B + di, nh, nl, d, BB);
  }

  lemma ScaledBelow(m: int, n: int, lo: int, d: int, top: int)
    requires 0 <= n < d && 0 <= lo < m && m * d < top
    ensures 0 <= m * n + lo < top
  {
    MulMono(0, n, m);
    MulMono(n + 1, d, m);
    Dist(n, 1, m);
  }

  lemma SplitCandidate(t: int, qh: Limb, ql: Limb)
    requires 0 <= t < BB && qh * B + ql == (t + B) % BB
    ensures t / B * B + ql == t && qh == Wrap(t / B + 1) && 0 <= t / B < B
  {
    assert t == t / B * B + t % B;
    var j := if t + B >= BB then 1 else 0;
    assert qh * B + ql == t + B - j * BB;
    assert (qh - t / B - 1 + j * B) * B == t % B - ql;
  }

  /** One limb is enough to hold the candidate remainder. */
  lemma Residue2by1(nh: Limb, nl: Limb, d: Limb, q1: int, qh: Limb)
    requires qh == Wrap(q1 + 1) && 0 <= q1 < B
    requires -(B as int) < nh * B + nl - (q1 + 1) * d < B
    ensures var x := nh * B + nl - (q1 + 1) * d;
            Wrap(nl - qh * d) == if x < 0 then x + B else x
  {
    var x := nh * B + nl - (q1 + 1) * d;
    var j := if q1 + 1 == B then 1 else 0;
    assert qh == q1 + 1 - j * B;
    Dist(q1 + 1, -j * B, d);
    assert nl - qh * d == x - nh * B + (j * d) * B by { Assoc(j, B, d); Assoc(j, d, B); }
    var y := if x < 0 then x + B else x;
    DivModUnique(nl - qh * d, B, (if x < 0 then -1 else 0) + j * d - nh, y);
  }

  /** The two conditional corrections of the 2/1 macro. */
  method Adjust2by1(nh: Limb, nl: Limb, d: Limb, ghost q1: int, qh: Limb, ql: Limb, m: Limb)
    returns (q: Limb, r: Limb)
    requires B / 2 <= d && nh < d && 0 <= q1 < B && qh == Wrap(q1 + 1)
    requires var x := nh * B + nl - (q1 + 1) * d;
             && -(d as int) <= x && ql - B < x && (x < B - d || x < ql) && m == if x < 0 then x + B else x
    ensures q * d + r == nh * B + nl && r < d
  {
    hide Wrap;
    ghost var n, q' := nh * B + nl, q1 + 1;
    Correct2by1(B, d, n, q1, ql, m);
    q, r := qh, m;
    if r > ql {
      q, r, q' := Wrap(q - 1), Wrap(r + d), q1;
      Decrement(qh, q1);
      WrapSum(m, d);
    }
    if r >= d {
      Dist(q', 1, d);
      QuotientFits(q' + 1, r - d, d, n);
      Increment(q, q');
      r, q := r - d, Wrap(q + 1);
    } else {
      QuotientFits(q', r, d, n);
      Decrement(qh, q1);
    }
  }

  lemma Decrement(q: Limb, q1: int)
    requires q == Wrap(q1 + 1) && 0 <= q1 < B
    ensures Wrap(q - 1) == q1 && (q1 + 1 < B ==> q == q1 + 1)
  {
  }

  lemma Increment(q: Limb, q1: int)
    requires (q == q1 || q == Wrap(q1)) && 0 <= q1 < B - 1
    ensures Wrap(q + 1) == q1 + 1
  {
  }

  lemma WrapSum(x: Limb, y: Limb)
    ensures Wrap(x + y) == if x + y >= B then x + y - B else x + y
  {
  }

  /** gmp_udiv_qr_3by2 */
  method Udiv3by2(n2: Limb, n1: Limb, n0: Limb, d1: Limb, d0: Limb, dinv: Limb)
    returns (q: Limb, r1: Limb, r0: Limb)
    requires B / 2 <= d1 && n2 * B + n1 < d1 * B + d0 && Inverse3by2(B, d1 * B + d0, dinv)
    ensures q * (d1 * B + d0) + (r1 * B + r0) == n2 * BB + n1 * B + n0
    ensures r1 * B + r0 < d1 * B + d0
  {
    hide Wrap, AddPair, SubPair, Inverse3by2;
    ghost var d, n := d1 * B + d0, n2 * BB + n1 * B + n0;
    var q0, m1, m0: Limb;
    q, q0 := UmulPpmm(n2, dinv);
    var s := AddPair(q, q0, n2, n1);
    q, q0 := s.0, s.1;
    Quotient3by2(n2, n1, n0, d, dinv, q, q0);
    m1, m0 := Remainder3by2(n2, n1, n0, d1, d0, q);
    q, r1, r0 := Adjust3by2(n, d, d1, d0, q, q0, m1, m0);
  }

  /** The remainder that goes with quotient q + 1, modulo B^2. */
  method Remainder3by2(ghost n2: Limb, n1: Limb, n0: Limb, d1: Limb, d0: Limb, q: Limb) returns (m1: Limb, m0: Limb)
    requires var x := n2 * BB + n1 * B + n0 - (q + 1) * (d1 * B + d0);
             -(BB as int) < x < BB
    ensures var x := n2 * BB + n1 * B + n0 - (q + 1) * (d1 * B + d0);
            m1 * B + m0 == if x < 0 then x + BB else x
  {
    hide Wrap, AddPair, SubPair;
    var r1 := Wrap(n1 - d1 * q);
    var s := SubPair(r1, n0, d1, d0);
    var t1, t0 := UmulPpmm(d0, q);
    s := SubPair(s.0, s.1, t1, t0);
    Residue3by2(n2, n1, n0, d1, d0, q);
    m1, m0 := s.0, s.1;
  }

  lemma Quotient3by2(n2: Limb, n1: Limb, n0: Limb, d: int, v: Limb, q: Limb, q0: Limb)
    requires BB <= 2 * d && d < BB && n2 * B + n1 < d && Inverse3by2(B, d, v)
    requires q * B + q0 == (n2 * v + n2 * B + n1) % BB
    ensures var x := n2 * BB + n1 * B + n0 - (q + 1) * d;
            -d <= x && q0 * B - BB <= x && (x < BB - d || x < q0 * B) && n2 * BB + n1 * B + n0 < d * B
  {
    hide Inverse3by2;
    var t := (B + v) * n2 + n1;
    Dist(B, v, n2);
    var a, b := t / B, t % B;
    assert t == a * B + b;
    QuotientWindow(n2, n1, n0, d, v, t, a, b);
    SameDigits(q, q0, a, b, t);
  }

  lemma QuotientWindow(n2: Limb, n1: Limb, n0: Limb, d: int, v: Limb, t: int, a: int, b: Limb)
    requires BB <= 2 * d && d < BB && n2 * B + n1 < d && Inverse3by2(B, d, v)
    requires t == (B + v) * n2 + n1 && t == a * B + b
    ensures var x := n2 * BB + n1 * B + n0 - (a + 1) * d;
            -d <= x && b * B - BB <= x && (x < BB - d || x < b * B) && n2 * BB + n1 * B + n0 < d * B
    ensures 0 <= t < BB
  {
    hide Inverse3by2;
    MulMono(0, n2, B + v);
    Candidate3by2(B, d, v, n2, n1, n0, a, b);
    CandidateFits(a, d, n2 * BB + n1 * B + n0);
  }

  lemma SameDigits(q: Limb, q0: Limb, a: int, b: Limb, t: int)
    requires q * B + q0 == t % BB && 0 <= t < BB && t == a * B + b
    ensures q == a && q0 == b
  {
  }

  lemma CandidateFits(q: int, d: int, n: int)
    requires 0 < d && n < d * B && -d <= n - (q + 1) * d
    ensures q < B
  {
    Dist(q, 1, d);
    if q >= B { MulMono(B, q, d); }
  }

  /** Two limbs are enough to hold the candidate remainder. */
  lemma Residue3by2(n2: Limb, n1: Limb, n0: Limb, d1: Limb, d0: Limb, q: Limb)
    requires var x := n2 * BB + n1 * B + n0 - (q + 1) * (d1 * B + d0);
             -(BB as int) < x < BB
    ensures var x := n2 * BB + n1 * B + n0 - (q + 1) * (d1 * B + d0);
            ((Wrap(n1 - d1 * q) * B + n0 - d1 * B - d0) % BB - d0 * q) % BB == if x < 0 then x + BB else x
  {
    var x := n2 * BB + n1 * B + n0 - (q + 1) * (d1 * B + d0);
    var y := n1 - d1 * q;
    var j := y / B;
    assert y == j * B + Wrap(y);
    var z := Wrap(y) * B + n0 - d1 * B - d0;
    var i := z / BB;
    assert z == i * BB + z % BB;
    ResidueIdentity(d1, d0, q);
    DivModUnique(z % BB - d0 * q, BB, (if x < 0 then -1 else 0) - n2 - j - i, if x < 0 then x + BB else x);
  }

  lemma ResidueIdentity(d1: int, d0: int, q: int)
    ensures (q + 1) * (d1 * B + d0) == d1 * q * B + d1 * B + d0 + d0 * q
  {
    Dist(d1 * B, d0, q + 1);
    Assoc(q, d1, B);
  }

  /** The two conditional corrections of the 3/2 macro. */
  method Adjust3by2(ghost n: int, ghost d: int, d1: Limb, d0: Limb, q1: Limb, q0: Limb, m1: Limb, m0: Limb)
    returns (q: Limb, r1: Limb, r0: Limb)
    requires B / 2 <= d1 && d == d1 * B + d0 && 0 <= n < d * B
    requires var x := n - (q1 + 1) * d;
             && -d <= x && q0 * B - BB <= x && (x < BB - d || x < q0 * B)
             && m1 * B + m0 == if x < 0 then x + BB else x
    ensures q * d + (r1 * B + r0) == n && r1 * B + r0 < d
  {
    ghost var q';
    q, r1, r0, q' := First3by2(n, d, d1, d0, q1, q0, m1, m0);
    q, r1, r0 := Second3by2(n, d, d1, d0, q, r1, r0, q');
  }

  /** The unlikely correction: one divisor more. */
  method Second3by2(ghost n: int, ghost d: int, d1: Limb, d0: Limb, q1: Limb, m1: Limb, m0: Limb, ghost q': int)
    returns (q: Limb, r1: Limb, r0: Limb)
    requires B / 2 <= d1 && d == d1 * B + d0 && 0 <= n < d * B
    requires q' * d + (m1 * B + m0) == n && q1 == Wrap(q') && 0 <= q'
    ensures q * d + (r1 * B + r0) == n && r1 * B + r0 < d
  {
    hide Wrap;
    ghost var r := m1 * B + m0;
    q, r1, r0 := q1, m1, m0;
    if r1 >= d1 && (r1 > d1 || r0 >= d0) {
      OneMore(q', r, d, n);
      Increment(q, q');
      q := Wrap(q + 1);
      r1, r0 := TakeOff(r1, r0, d1, d0);
    } else {
      QuotientFits(q', r, d, n);
      WrapLimb(q');
    }
  }

  method TakeOff(r1: Limb, r0: Limb, d1: Limb, d0: Limb) returns (s1: Limb, s0: Limb)
    requires d1 * B + d0 <= r1 * B + r0
    ensures s1 * B + s0 == r1 * B + r0 - (d1 * B + d0)
  {
    hide SubPair;
    var s := SubPair(r1, r0, d1, d0);
    s1, s0 := s.0, s.1;
  }

  method First3by2(ghost n: int, ghost d: int, d1: Limb, d0: Limb, q1: Limb, q0: Limb, m1: Limb, m0: Limb)
    returns (q: Limb, r1: Limb, r0: Limb, ghost q': int)
    requires B / 2 <= d1 && d == d1 * B + d0
    requires var x := n - (q1 + 1) * d;
             && -d <= x && q0 * B - BB <= x && (x < BB - d || x < q0 * B)
             && m1 * B + m0 == if x < 0 then x + BB else x
    ensures q' * d + (r1 * B + r0) == n && q == Wrap(q') && 0 <= q'
  {
    hide Wrap, AddPair;
    Correct3by2(B, d, n, q1, q0, m1 * B + m0);
    q, r1, r0, q' := Wrap(q1 + 1), m1, m0, q1 + 1;
    Decrement(q, q1);
    if r1 >= q0 {
      q := Wrap(q - 1);
      q' := q1;
      var s := AddPair(r1, r0, d1, d0);
      PairWrap(m1 * B + m0, d);
      r1, r0 := s.0, s.1;
      WrapLimb(q1);
    }
  }

  lemma WrapLimb(q: int)
    requires 0 <= q < B
    ensures Wrap(q) == q
  {
  }

  lemma PairWrap(x: int, y: int)
    requires 0 <= x < BB && 0 <= y < BB
    ensures (x + y) % BB == if x + y >= BB then x + y - BB else x + y
  {
  }
}
