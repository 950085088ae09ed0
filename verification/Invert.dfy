/**
 Quotients from half limbs: the inverse-free 2/1 division of the uint64 overlay,
 and mpn_invert_3by2, which starts with the same half-limb step.
 */
module Invert {
  import opened Arith
  import opened BitOps
  import opened Limbs
  import opened MpnArith
  import opened MpnShift
  import opened Reciprocal
  import opened Udiv

  lemma OrHalf(x: Half, lo: Half)
    ensures Or(Wrap(x * H), lo) == x * H + lo
  {
    hide Word;
    Pow2At();
    OrPieces(x, lo, 32);
  }

  /** One half-limb quotient digit: estimate by the high half of d, then correct at most twice. */
  method HalfStep(n: Limb, lo: Half, d: Limb) returns (q: Half, r: Limb)
    requires B / 2 <= d && n < d
    ensures q * d + r == n * H + lo && r < d
  {
    hide Or, Wrap;
    var d1, d0 := d / H, d % H;
    var q1 := n / d1;
    r := n - q1 * d1;
    HalfEstimate(n, lo, d, q1);
    var m: Limb := q1 * d0;
    OrHalf(r, lo);
    r := Or(Wrap(r * H), lo);
    q, r := HalfAdjust(n * H + lo, d, q1, r, m);
  }

  lemma HalfEstimate(n: Limb, lo: Half, d: Limb, q: int)
    requires B / 2 <= d && n < d && q == n / (d / H)
    ensures var d1, d0 := d / H, d % H;
            var r := n - q * d1;
            && 0 <= q <= H + 1 && 0 <= r < d1 && 0 <= q * d0 < B
            && n * H + lo - q * d == r * H + lo - q * d0
  {
    var d1, d0 := d / H, d % H;
    assert d == d1 * H + d0 && H / 2 <= d1 < H;
    assert n == q * d1 + n % d1;
    HalfDigit(n, d, d1, d0, q, n % d1);
    HalfRemainder(n, lo, d, d1, d0, q);
  }

  lemma HalfDigit(n: int, d: int, d1: int, d0: int, q: int, r: int)
    requires 0 <= n < d < B && d == d1 * H + d0 && H / 2 <= d1 && 0 <= d0 < H && n == q * d1 + r && 0 <= r < d1
    ensures 0 <= q <= H + 1 && 0 <= q * d0 < B
  {
    if q < 0 { MulMono(q, -1, d1); }
    if q >= H + 2 { MulMono(H + 2, q, d1); }
    MulMono(q, H + 1, d0);
    MulMono(0, q, d0);
  }

  lemma HalfRemainder(n: int, lo: int, d: int, d1: int, d0: int, q: int)
    requires d == d1 * H + d0
    ensures n * H + lo - q * d == (n - q * d1) * H + lo - q * d0
  {
    Dist(d1 * H, d0, q);
    Assoc(q, d1, H);
  }

  method HalfAdjust(ghost t: int, d: Limb, q1: nat, r1: Limb, m: Limb) returns (q: Half, r: Limb)
    requires B / 2 <= d && t - q1 * d == r1 - m && r1 < d && 0 <= t < d * H
    ensures q * d + r == t && r < d
  {
    hide Wrap;
    var q', r' := q1, r1;
    if r' < m {
      q', r' := q' - 1, Wrap(r' + d);
      WrapSum(r1, d);
      Dist(q1, -1, d);
      if r' >= d && r' < m {
        WrapSum(r', d);
        Dist(q1, -2, d);
        q', r' := q' - 1, Wrap(r' + d);
      }
    }
    r := Wrap(r' - m);
    HalfFits(q', t, d, r1 - m + (q1 - q') * d);
    WrapDifference(r', m, r1 - m + (q1 - q') * d);
    q := q';
  }

  lemma HalfFits(q: int, t: int, d: int, r: int)
    requires 0 < d && 0 <= t < d * H && q * d + r == t && 0 <= r < d
    ensures 0 <= q < H
  {
    if q < 0 { MulMono(q, -1, d); }
    if q >= H { MulMono(H, q, d); }
  }

  lemma WrapDifference(r: Limb, m: Limb, x: int)
    requires 0 <= x < B && (r - m == x || r - m == x - B)
    ensures Wrap(r - m) == x
  {
  }

  /** __udiv_qrnnd_c: two half-limb digits make the 2/1 quotient. */
  method UdivQrnndC(n1: Limb, n0: Limb, d: Limb) returns (q: Limb, r: Limb)
    requires B / 2 <= d && n1 < d
    ensures q * d + r == n1 * B + n0 && r < d
  {
    hide Or, Wrap;
    var q1, r1 := HalfStep(n1, n0 / H, d);
    var q0, r0 := HalfStep(r1, n0 % H, d);
    OrHalf(q1, q0);
    q, r := Or(Wrap(q1 * H), q0), r0;
    Dist(q1 * H, q0, d);
    Assoc(H, q1, d);
  }

  /** The 2/1 inverse of u, with the remainder that mpn_invert_3by2 goes on from. */
  method InvertLimb(u: Limb) returns (m: Limb, r: Limb)
    requires B / 2 <= u
    ensures (B + m) * u + r == BB - 1 && r < u
  {
    hide Wrap, Inverse3by2;
    var qh, r1 := HalfStep(B - 1 - u, H - 1, u);
    HalfInverse(u, qh, r1);
    var p := Wrap(r1 / H * qh + r1);
    HalfCandidate(u, qh, r1);
    var ql: Limb := p / H + 1;
    r := Wrap(Wrap(r1 * H) + (H - 1) - ql * u);
    HalfResidue(r1, u, ql);
    ShiftHigh(p);
    Correct3by2(H, u, r1 * H + (H - 1), ql - 1, p % H, r);
    ghost var r2 := r;
    if r >= Wrap(p * H) {
      ql, r := ql - 1, Wrap(r + u);
      WrapSum(r2, u);
    }
    m := Wrap(qh * H + ql);
    ghost var q := ql;
    if r >= u {
      m, r := Wrap(m + 1), r - u;
      q := q + 1;
      Dist(ql, 1, u);
    }
    HalfFits(q, r1 * H + (H - 1), u, r);
    InverseFits(qh, ql, q, m);
    InverseValue(u, qh, r1, q, r);
  }

  lemma HalfInverse(u: Limb, qh: Half, r: Limb)
    requires qh * u + r == (B - 1 - u) * H + (H - 1) && r < u
    ensures Inverse3by2(H, u, qh)
  {
    Dist(H, qh, u);
  }

  lemma HalfCandidate(u: Limb, qh: Half, r: Limb)
    requires B / 2 <= u && r < u && Inverse3by2(H, u, qh)
    ensures var p := r / H * qh + r;
            var x := r * H + (H - 1) - (p / H + 1) * u;
            && 0 <= p < B && Wrap(p) == p
            && -(u as int) <= x && p % H * H - B <= x && (x < B - u || x < p % H * H)
  {
    hide Inverse3by2, Wrap;
    var p := r / H * qh + r;
    MulMono(0, r / H, qh);
    assert (H + qh) * (r / H) + r % H == p by { Dist(H, qh, r / H); }
    Candidate3by2(H, u, qh, r / H, r % H, H - 1, p / H, p % H);
    Dist(p / H, 1, u);
    if p / H >= H { MulMono(H, p / H, u); }
    WrapLimb(p);
  }

  lemma HalfResidue(r: Limb, u: Limb, ql: Limb)
    requires var x := r * H + (H - 1) - ql * u; -(u as int) <= x < B
    ensures var x := r * H + (H - 1) - ql * u;
            Wrap(Wrap(r * H) + (H - 1) - ql * u) == if x < 0 then x + B else x
  {
    var x := r * H + (H - 1) - ql * u;
    var j := r * H / B;
    assert r * H == j * B + Wrap(r * H);
    DivModUnique(x - j * B, B, (if x < 0 then -1 else 0) - j, if x < 0 then x + B else x);
  }

  lemma InverseFits(qh: Half, ql: int, q: int, m: Limb)
    requires 0 <= q < H && (q == ql || q == ql + 1)
    requires m == if q == ql then Wrap(qh * H + ql) else Wrap(Wrap(qh * H + ql) + 1)
    ensures m == qh * H + q
  {
  }

  lemma InverseValue(u: int, qh: int, r1: int, q: int, r: int)
    requires qh * u + r1 == (B - 1 - u) * H + (H - 1)
    requires q * u + r == r1 * H + (H - 1)
    ensures (B + (qh * H + q)) * u + r == BB - 1
  {
    Dist(B + qh * H, q, u);
    Dist(B, qh * H, u);
    Assoc(H, qh, u);
  }

  /** What m leaves of B^3 - 1, negated: nonnegative exactly when m is too large. */
  ghost function Excess(d: int, m: int): int
  {
    (B + m) * d - BB * B
  }

  /** mpn_invert_3by2 */
  method Invert3by2(u1: Limb, u0: Limb) returns (m: Limb)
    requires B / 2 <= u1
    ensures Inverse3by2(B, u1 * B + u0, m)
  {
    hide Wrap, Excess, Inverse3by2;
    ghost var d := u1 * B + u0;
    var r;
    m, r := InvertLimb(u1);
    StartExcess(u1, u0, d, m, r);
    if u0 > 0 {
      m, r := AbsorbHigh(u1, u0, d, m, r);
      m := AbsorbLow(u1, u0, d, m, r);
    }
    ExcessInverse(d, m);
  }

  lemma StartExcess(u1: Limb, u0: Limb, d: int, m: Limb, r: Limb)
    requires d == u1 * B + u0 && (B + m) * u1 + r == BB - 1 && r < u1
    ensures Excess(d, m) == B * (u0 - 1 - r) + m * u0 && Excess(d, m) >= -d
    ensures u0 == 0 ==> Excess(d, m) < 0
  {
    Dist(u1 * B, u0, B + m);
    Assoc(B + m, u1, B);
    Dist(B, m, u0);
    MulMono(0, m, u0);
  }

  lemma ExcessInverse(d: int, m: int)
    requires -d <= Excess(d, m) < 0
    ensures Inverse3by2(B, d, m)
  {
  }

  /** While the excess is nonnegative, m can be decremented. */
  lemma ExcessStep(d: int, m: Limb)
    requires 0 < d < BB && Excess(d, m) >= 0
    ensures m > 0 && Excess(d, m - 1) == Excess(d, m) - d
  {
    Dist(B + m, -1, d);
    if m == 0 { MulMono(d, BB - 1, B); }
  }

  /** First correction: by the high part of the excess.  Afterwards rr = r - B is negative. */
  method AbsorbHigh(u1: Limb, u0: Limb, ghost d: int, m0: Limb, r0: Limb) returns (m: Limb, r: Limb)
    requires B / 2 <= u1 && d == u1 * B + u0 && r0 < u1
    requires Excess(d, m0) == B * (u0 - 1 - r0) + m0 * u0 && Excess(d, m0) >= -d
    ensures Excess(d, m) == B * (r - B) + m * u0 && Excess(d, m) >= -d
  {
    hide Wrap, Excess;
    m := m0;
    r := B - 1 - r0;
    WrapSum(r, u0);
    r := Wrap(r + u0);
    if r < u0 {
      HighStep(u1, u0, d, m, r);
      m := m - 1;
      if r >= u1 {
        HighStep(u1, u0, d, m, r - u1);
        m, r := m - 1, r - u1;
      }
      WrapDifference(r, u1, r - u1 + B);
      r := Wrap(r - u1);
    }
  }

  lemma HighStep(u1: Limb, u0: Limb, d: int, m: Limb, r: int)
    requires B / 2 <= u1 && d == u1 * B + u0 && 0 <= r && Excess(d, m) == B * r + m * u0
    ensures m > 0 && Excess(d, m - 1) == B * (r - u1) + (m - 1) * u0 && Excess(d, m - 1) >= -d
  {
    hide Excess;
    MulMono(0, m, u0);
    ExcessStep(d, m);
    Dist(m, -1, u0);
  }

  /** Second correction: by the product m u0. */
  method AbsorbLow(u1: Limb, u0: Limb, ghost d: int, m0: Limb, r0: Limb) returns (m: Limb)
    requires B / 2 <= u1 && 0 < u0 && d == u1 * B + u0
    requires Excess(d, m0) == B * (r0 - B) + m0 * u0 && Excess(d, m0) >= -d
    ensures -d <= Excess(d, m) < 0
  {
    hide Wrap, Excess;
    m := m0;
    var th, tl := UmulPpmm(u0, m);
    WrapSum(r0, th);
    var r := Wrap(r0 + th);
    if r < th {
      assert Excess(d, m0) == B * r + tl;
      ExcessStep(d, m);
      m := m - 1;
      NeverEqual(d, m);
      if r > u1 || (r == u1 && tl > u0) {
        ExcessStep(d, m);
        m := m - 1;
      }
    }
  }

  /** The strict test on tl is exact: the excess d would make d a power of two between B^2/2 and B^2. */
  lemma NeverEqual(d: int, m: Limb)
    requires BB / 2 < d < BB
    ensures Excess(d, m) != 0
  {
    if Excess(d, m) == 0 {
      Pow2At();
      Pow2Add(64, 64); Pow2Add(128, 64);
      var k := PowDivisor(d, B + m, 192);
      assert Pow2(128) == 2 * Pow2(127);
      if k < 128 { Pow2Mono(k, 127); } else { Pow2Mono(128, k); }
    }
  }

  lemma {:induction false} PowDivisor(x: int, y: int, n: nat) returns (k: nat)
    requires x * y == Pow2(n) && x > 0 && y > 0
    ensures x == Pow2(k)
    decreases n, x
  {
    if x == 1 {
      k := 0;
    } else if n == 0 {
      MulMono(2, x, y);
    } else if x % 2 == 0 {
      Assoc(2, x / 2, y);
      k := PowDivisor(x / 2, y, n - 1);
      k := k + 1;
    } else {
      OddProduct(x, y);
      Assoc(2, y / 2, x);
      k := PowDivisor(x, y / 2, n - 1);
    }
  }

  lemma OddProduct(x: int, y: int)
    requires x % 2 == 1 && x * y % 2 == 0
    ensures y % 2 == 0
  {
    Dist(x / 2 * 2, 1, y);
    Assoc(2, x / 2, y);
  }
}
