/**
 Schoolbook division of limb arrays by a normalised divisor (mpn_div_qr_pi1): the
 quotient digit from the top limbs, its special case, and the add-back step.
 */
module MpnDiv {
  import opened Arith
  import opened Limbs
  import opened MpnArith
  import opened Reciprocal
  import opened Udiv

  /** One digit of schoolbook division in exact arithmetic: the window stays below D. */
  method QuotientLimb(np: array<Limb>, o: nat, n1: Limb, dp: array<Limb>, dn: nat, dinv: Limb)
    returns (q: Limb, n1': Limb)
    requires 2 < dn <= dp.Length && o + dn <= np.Length && np != dp && B / 2 <= dp[dn - 1]
    requires Inverse3by2(B, dp[dn - 1] * B + dp[dn - 2], dinv)
    requires n1 * BPow(dn - 1) + Val(np[o + 1..o + dn]) < Val(dp[..dn])
    modifies np
    ensures q * Val(dp[..dn]) + (n1' * BPow(dn - 1) + Val(np[o..o + dn - 1]))
         == n1 * BPow(dn) + old(Val(np[o..o + dn]))
    ensures n1' * BPow(dn - 1) + Val(np[o..o + dn - 1]) < Val(dp[..dn])
    ensures SameOutside(np[..], old(np[..]), o, dn)
  {
    hide Val, BPow, Inverse3by2;
    var d1, d0, n0 := dp[dn - 1], dp[dn - 2], np[o + dn - 1];
    ghost var x, d := np[o..o + dn], dp[..dn];
    assert x[1..] == np[o + 1..o + dn];
    if n1 == d1 && n0 == d0 {
      q := B - 1;
      assert dp[0..0 + dn] == d;
      MaxDigit(n1, x, d);
      var cl := SubMul1(np, o, dp, 0, dn, q);
      n1' := np[o + dn - 1];
      MaxDigitResult(n1, x, d, np[o..o + dn], cl);
      assert np[o..o + dn][..dn - 1] == np[o..o + dn - 1];
    } else {
      EstimateOk(n1, n0, x, d);
      q, n1' := EstimatedDigit(np, o, n1, dp, dn, dinv, x, d);
    }
  }

  /** Both tops equal: the digit is B - 1. */
  lemma MaxDigit(n1: Limb, x: seq<Limb>, d: seq<Limb>)
    requires |x| == |d| > 2 && n1 == d[|d| - 1] && x[|x| - 1] == d[|d| - 2] && B / 2 <= n1
    requires n1 * BPow(|d| - 1) + Val(x[1..]) < Val(d)
    ensures (B - 1) * Val(d) <= n1 * BPow(|d|) + Val(x) < B * Val(d)
  {
    hide Val, BPow;
    MaxDigitBelow(n1, x, d);
    var n := |d|;
    BPowSucc(n - 1); BPowSucc(n - 2);
    TopTwo(d);
    ValTake(x, n - 1);
    assert x[..n] == x;
    var d2, p := d[n - 1] * B + d[n - 2], BPow(n - 2);
    assert n1 * BPow(n) + Val(x) >= d2 * (B * p) by { TwoTerms(d[n - 1], d[n - 2], B * p); }
    assert Val(d) <= (d2 + 1) * p - 1 by { ValBound(d[..n - 2]); Dist(d2, 1, p); }
    MaxDigitArith(d2, p, Val(d));
  }

  lemma MaxDigitBelow(n1: Limb, x: seq<Limb>, d: seq<Limb>)
    requires |x| == |d| > 0 && n1 * BPow(|d| - 1) + Val(x[1..]) < Val(d)
    ensures n1 * BPow(|d|) + Val(x) < B * Val(d)
  {
    hide Val, BPow;
    ValSplit(x, 1);
    assert x[..1] == [x[0]];
    ValOne(x[0]);
    BPowSucc(|d| - 1);
    Assoc(B, n1, BPow(|d| - 1)); Assoc(n1, B, BPow(|d| - 1));
  }

  lemma MaxDigitArith(d2: int, p: int, d: int)
    requires B <= d2 && 1 <= p && d <= (d2 + 1) * p - 1 && 0 <= d
    ensures (B - 1) * d <= d2 * (B * p)
  {
    MulMono(B, d2, p);
    Dist(d2, 1, p);
    Assoc(d2, B, p);
    Assoc(B, d2, p);
  }

  /** A limb sequence from its two top limbs. */
  lemma TopTwo(d: seq<Limb>)
    requires |d| >= 2
    ensures Val(d) == (d[|d| - 1] * B + d[|d| - 2]) * BPow(|d| - 2) + Val(d[..|d| - 2])
  {
    hide Val, BPow;
    var n := |d|;
    ValTake(d, n - 1);
    ValTake(d, n - 2);
    assert d[..n] == d;
    BPowSucc(n - 2);
    TwoTerms(d[n - 1], d[n - 2], BPow(n - 2));
  }

  lemma TwoTerms(a: int, b: int, p: int)
    ensures (a * B + b) * p == a * (B * p) + b * p
  {
    Dist(a * B, b, p);
    Assoc(a, B, p);
  }

  lemma MaxDigitResult(n1: Limb, x: seq<Limb>, d: seq<Limb>, y: seq<Limb>, cl: Limb)
    requires |x| == |d| == |y| > 2
    requires (B - 1) * Val(d) <= n1 * BPow(|d|) + Val(x) < B * Val(d)
    requires Val(y) - cl * BPow(|d|) == Val(x) - Val(d) * (B - 1)
    ensures (B - 1) * Val(d) + Val(y) == n1 * BPow(|d|) + Val(x) && Val(y) < Val(d)
    ensures Val(y) == y[|d| - 1] * BPow(|d| - 1) + Val(y[..|d| - 1])
  {
    hide Val, BPow;
    var n := |d|;
    ValBound(y); ValBound(d);
    ValTake(y, n - 1);
    assert y[..n] == y;
    SameTop(n1, cl, BPow(n), Val(y));
  }

  lemma SameTop(a: int, c: int, p: int, y: int)
    requires 0 <= y < p && 0 <= a * p - c * p + y < p
    ensures a == c
  {
    Dist(a, -c, p);
    if a < c { MulMono(a - c, -1, p); }
    if a > c { MulMono(1, a - c, p); }
  }

  /** Tops differ: the two top limbs are below those of the divisor, as the 3/2 step wants. */
  lemma EstimateOk(n1: Limb, n0: Limb, x: seq<Limb>, d: seq<Limb>)
    requires |x| == |d| > 2 && n0 == x[|x| - 1] && !(n1 == d[|d| - 1] && n0 == d[|d| - 2])
    requires n1 * BPow(|d| - 1) + Val(x[1..]) < Val(d)
    ensures n1 * B + n0 < d[|d| - 1] * B + d[|d| - 2]
  {
    hide Val;
    var n := |d|;
    var p, d2, n2 := BPow(n - 2), d[n - 1] * B + d[n - 2], n1 * B + n0;
    TopTwo(d);
    ValBound(d[..n - 2]);
    ValTake(x[1..], n - 2);
    assert x[1..][..n - 1] == x[1..];
    TwoTerms(n1, n0, p);
    if n2 > d2 { MulMono(d2 + 1, n2, p); Dist(d2, 1, p); }
  }

  /** The general digit: 3/2 estimate, subtract, and add back at most once. */
  method EstimatedDigit(np: array<Limb>, o: nat, n1: Limb, dp: array<Limb>, dn: nat, dinv: Limb,
                        ghost x: seq<Limb>, ghost d: seq<Limb>)
    returns (q: Limb, r1: Limb)
    requires 2 < dn <= dp.Length && o + dn <= np.Length && np != dp && B / 2 <= dp[dn - 1]
    requires x == np[o..o + dn] && d == dp[..dn]
    requires Inverse3by2(B, d[dn - 1] * B + d[dn - 2], dinv)
    requires n1 * B + x[dn - 1] < d[dn - 1] * B + d[dn - 2]
    modifies np
    ensures q * Val(d) + (r1 * BPow(dn - 1) + Val(np[o..o + dn - 1])) == n1 * BPow(dn) + Val(x)
    ensures r1 * BPow(dn - 1) + Val(np[o..o + dn - 1]) < Val(d)
    ensures SameOutside(np[..], old(np[..]), o, dn)
  {
    hide Val, BPow, Inverse3by2, Wrap;
    var d1, d0, k := dp[dn - 1], dp[dn - 2], dn - 2;
    ghost var t := n1 * BPow(dn) + Val(x);
    var r0;
    q, r1, r0 := Udiv3by2(n1, np[o + dn - 1], np[o + k], d1, d0, dinv);
    assert np[o..o + k] == x[..k] && dp[0..0 + k] == d[..k];
    var cy := SubMul1(np, o, dp, 0, k, q);
    ghost var lo := np[o..o + k];
    ghost var rho := r1 * B + r0;
    var borrow;
    r1, r0, borrow := BorrowPair(r1, r0, cy);
    np[o + k] := r0;
    assert np[o..o + dn - 1] == lo + [r0];
    EstimateLeaves(n1, x, d, q, rho, lo, cy, r1, r0, borrow);
    if borrow != 0 { q, r1 := AddBackOnce(np, o, dp, dn, q, r1, d, t); }
  }

  /** The estimate was one too large: add the divisor back. */
  method AddBackOnce(np: array<Limb>, o: nat, dp: array<Limb>, dn: nat, q0: Limb, m1: Limb, ghost d: seq<Limb>,
                     ghost t: int) returns (q: Limb, r1: Limb)
    requires 2 < dn <= dp.Length && o + dn <= np.Length && np != dp && d == dp[..dn] && q0 > 0
    requires t - q0 * Val(d) == m1 * BPow(dn - 1) + Val(np[o..o + dn - 1]) - BPow(dn)
    requires 0 - Val(d) < t - q0 * Val(d) < 0
    modifies np
    ensures q * Val(d) + (r1 * BPow(dn - 1) + Val(np[o..o + dn - 1])) == t
    ensures r1 * BPow(dn - 1) + Val(np[o..o + dn - 1]) < Val(d)
    ensures SameOutside(np[..], old(np[..]), o, dn - 1)
  {
    hide Val, BPow, Wrap;
    ghost var y := np[o..o + dn - 1];
    assert dp[0..0 + (dn - 1)] == d[..dn - 1] && np[o..o + (dn - 1)] == y;
    var a := AddN(np, o, np, o, dp, 0, dn - 1);
    AddBack(d, y, m1, np[o..o + dn - 1], a, q0, t);
    q, r1 := q0 - 1, Wrap(m1 + dp[dn - 1] + a);
  }

  method BorrowPair(n1: Limb, n0: Limb, cy: Limb) returns (r1: Limb, r0: Limb, borrow: Limb)
    ensures borrow <= 1 && r1 * B + r0 - borrow * BB == n1 * B + n0 - cy
  {
    var cy1: Limb := if n0 < cy then 1 else 0;
    r0 := Wrap(n0 - cy);
    borrow := if n1 < cy1 then 1 else 0;
    r1 := Wrap(n1 - cy1);
  }

  /** What is left of the window after the estimate: a remainder, or one divisor too little. */
  lemma EstimateLeaves(n1: Limb, x: seq<Limb>, d: seq<Limb>, q: Limb, rho: int, lo: seq<Limb>, cy: Limb,
                       r1: Limb, r0: Limb, borrow: Limb)
    requires |x| == |d| > 2 && |lo| == |d| - 2 && B / 2 <= d[|d| - 1]
    requires var k := |d| - 2;
             && q * (d[k + 1] * B + d[k]) + rho == n1 * BB + x[k + 1] * B + x[k]
             && 0 <= rho < d[k + 1] * B + d[k]
             && Val(lo) - cy * BPow(k) == Val(x[..k]) - Val(d[..k]) * q
    requires borrow <= 1 && r1 * B + r0 - borrow * BB == rho - cy
    ensures var z, y := n1 * BPow(|d|) + Val(x) - q * Val(d), r1 * BPow(|d| - 1) + Val(lo + [r0]);
            && (borrow == 0 ==> z == y < Val(d))
            && (borrow == 1 ==> z == y - BPow(|d|) && 0 - Val(d) < z < 0 && q > 0)
  {
    hide Val, BPow;
    var z := n1 * BPow(|d|) + Val(x) - q * Val(d);
    EstimateSplit(n1, x, d, q, rho, lo, cy, z);
    AfterBorrow(r1, r0, borrow, lo, d, z);
  }

  /** Subtracting q D from the window, in terms of what the two subtractions leave. */
  lemma EstimateSplit(n1: Limb, x: seq<Limb>, d: seq<Limb>, q: Limb, rho: int, lo: seq<Limb>, cy: Limb, z: int)
    requires |x| == |d| > 2 && |lo| == |d| - 2 && B / 2 <= d[|d| - 1]
    requires var k := |d| - 2;
             && q * (d[k + 1] * B + d[k]) + rho == n1 * BB + x[k + 1] * B + x[k]
             && 0 <= rho < d[k + 1] * B + d[k]
             && Val(lo) - cy * BPow(k) == Val(x[..k]) - Val(d[..k]) * q
    requires z == n1 * BPow(|d|) + Val(x) - q * Val(d)
    ensures z == (rho - cy) * BPow(|d| - 2) + Val(lo)
    ensures 0 - Val(d) < z < Val(d) && (q == 0 ==> z >= 0)
  {
    hide Val, BPow;
    var k := |d| - 2;
    var p, d2 := BPow(k), d[k + 1] * B + d[k];
    TopTwo(d);
    Window(n1, x);
    ValBound(d[..k]); ValBound(x[..k]);
    EstimateCore(n1, x[k + 1] * B + x[k], d2, p, Val(d[..k]), Val(x[..k]), q, rho, cy, Val(lo), Val(d), z);
    EstimateBounds(d2, p, Val(d[..k]), Val(x[..k]), q, rho, z);
  }

  lemma Window(n1: Limb, x: seq<Limb>)
    requires |x| >= 2
    ensures var k := |x| - 2;
            n1 * BPow(|x|) + Val(x) == n1 * (BB * BPow(k)) + ((x[k + 1] * B + x[k]) * BPow(k) + Val(x[..k]))
  {
    hide Val, BPow;
    TopTwo(x);
    BPowSucc(|x| - 2); BPowSucc(|x| - 1);
  }

  lemma EstimateCore(n1: int, x2: int, d2: int, p: int, dl: int, xl: int, q: int, rho: int,
                     cy: int, lo: int, d: int, z: int)
    requires q * d2 + rho == n1 * BB + x2 && d == d2 * p + dl && lo - cy * p == xl - dl * q
    requires z == n1 * (BB * p) + (x2 * p + xl) - q * d
    ensures z == rho * p + xl - dl * q == (rho - cy) * p + lo
  {
    Dist(rho, -cy, p);
    Assoc(n1, BB, p);
    Dist(n1 * BB, x2, p);
    Dist(q * d2, rho, p);
    Assoc(q, d2, p);
    Dist(d2 * p, dl, q);
  }

  lemma EstimateBounds(d2: int, p: int, dl: int, xl: int, q: Limb, rho: int, z: int)
    requires B <= d2 && 0 <= dl < p && 0 <= xl < p && 0 <= rho < d2 && z == rho * p + xl - dl * q
    ensures -(d2 * p + dl) < z < d2 * p + dl && (q == 0 ==> z >= 0)
  {
    MulMono(rho, d2 - 1, p); Dist(d2, -1, p);
    MulMono(0, rho, p);
    MulMono(q, B - 1, dl); MulMono(0, q, dl);
    MulMono(B, d2, p);
  }

  lemma AfterBorrow(r1: Limb, r0: Limb, borrow: Limb, lo: seq<Limb>, d: seq<Limb>, z: int)
    requires |d| == |lo| + 2 && borrow <= 1
    requires z == (r1 * B + r0 - borrow * BB) * BPow(|lo|) + Val(lo)
    ensures z == r1 * BPow(|d| - 1) + Val(lo + [r0]) - borrow * BPow(|d|)
    ensures borrow == 0 ==> z >= 0
    ensures borrow == 1 ==> z < 0
  {
    hide Val, BPow;
    var p := BPow(|lo|);
    BPowSucc(|lo|); BPowSucc(|lo| + 1);
    ValAppend(lo, r0);
    ValBound(lo + [r0]);
    Dist(r1 * B + r0, -(borrow * BB), p);
    TwoTerms(r1, r0, p);
    Assoc(borrow, BB, p);
    MulMono(0, r1, B * p);
    MulMono(r1, B - 1, B * p);
  }

  /** One add-back of D restores a nonnegative window, and the wrapped top limb is right. */
  lemma AddBack(d: seq<Limb>, y: seq<Limb>, r1: Limb, y': seq<Limb>, a: Limb, q: Limb, t: int)
    requires |d| > 2 && |y| == |y'| == |d| - 1
    requires t - q * Val(d) == r1 * BPow(|d| - 1) + Val(y) - BPow(|d|) && t - q * Val(d) > 0 - Val(d)
    requires t - q * Val(d) < 0
    requires Val(y') + a * BPow(|d| - 1) == Val(y) + Val(d[..|d| - 1])
    ensures var top := Wrap(r1 + d[|d| - 1] + a);
            && (q - 1) * Val(d) + (top * BPow(|d| - 1) + Val(y')) == t
            && top * BPow(|d| - 1) + Val(y') < Val(d)
  {
    hide Val, BPow;
    var n := |d|;
    var p, d1 := BPow(n - 1), d[n - 1];
    BPowSucc(n - 1);
    ValTake(d, n - 1);
    assert d[..n] == d;
    ValBound(d); ValBound(y');
    Dist(q, -1, Val(d));
    var u: int := r1 + d1 + a - B;
    TopSum(r1, d1, a, p);
    TopFits(u, p, Val(y'));
  }

  lemma TopSum(r1: int, d1: int, a: int, p: int)
    ensures (r1 + d1 + a - B) * p == r1 * p + d1 * p + a * p - B * p
  {
    Dist(r1 + d1, a - B, p);
    Dist(r1, d1, p);
    Dist(a, -(B as int), p);
  }

  lemma TopFits(u: int, p: int, y: int)
    requires 0 <= y < p && 0 <= u * p + y < B * p
    ensures 0 <= u < B && Wrap(u + B) == u
  {
    if u < 0 { MulMono(u, -1, p); }
    if u >= B { MulMono(B, u, p); }
  }

  /** mpn_div_qr_pi1 */
  method DivQrPi1(qp: array?<Limb>, np: array<Limb>, nn: nat, n1: Limb, dp: array<Limb>, dn: nat, dinv: Limb)
    requires 2 < dn <= nn <= np.Length && dn <= dp.Length && B / 2 <= dp[dn - 1]
    requires np != dp && qp != np && qp != dp && (qp != null ==> nn - dn + 1 <= qp.Length)
    requires Inverse3by2(B, dp[dn - 1] * B + dp[dn - 2], dinv)
    requires n1 * BPow(dn - 1) + Val(np[nn - dn + 1..nn]) < Val(dp[..dn])
    modifies np, qp
    ensures Val(dp[..dn]) > 0
    ensures Val(np[..dn]) == (n1 * BPow(nn) + old(Val(np[..nn]))) % Val(dp[..dn])
    ensures qp != null ==> Val(qp[..nn - dn + 1]) == (n1 * BPow(nn) + old(Val(np[..nn]))) / Val(dp[..dn])
    ensures SameOutside(np[..], old(np[..]), 0, nn)
    ensures qp != null ==> SameOutside(qp[..], old(qp[..]), 0, nn - dn + 1)
  {
    hide Val, BPow, Inverse3by2;
    ghost var s, d, t, sq := np[..nn], dp[..dn], n1 * BPow(nn) + Val(np[..nn]), [];
    var top: Limb, i := n1, nn - dn + 1;
    ghost var w := top * BPow(dn - 1) + Val(np[i..i + (dn - 1)]);
    assert np[i..i + (dn - 1)] == np[nn - dn + 1..nn] == s[i..];
    WindowStart(n1, s, dn);
    ValNil(s);
    while i > 0
      invariant 0 <= i <= nn - dn + 1 && |sq| == nn - dn + 1 - i
      invariant w == top * BPow(dn - 1) + Val(np[i..i + (dn - 1)]) && w < Val(d)
      invariant t == (Val(sq) * Val(d) + w) * BPow(i) + Val(s[..i])
      invariant forall k :: 0 <= k < i ==> np[k] == s[k]
      invariant forall k :: nn <= k < np.Length ==> np[k] == old(np[k])
      invariant qp != null ==> forall k :: 0 <= k < |sq| ==> qp[i + k] == sq[k]
      invariant qp != null ==> forall k :: nn - dn + 1 <= k < qp.Length ==> qp[k] == old(qp[k])
    {
      i := i - 1;
      ghost var w0 := w;
      var q;
      q, top, w := NextDigit(np, i, top, dp, dn, dinv, w);
      DigitDone(sq, q, Val(d), w0, w, s, i, t);
      sq := [q] + sq;
      if qp != null { qp[i] := q; }
    }
    assert np[0..0 + dn - 1] == np[..dn - 1];
    ghost var lo := np[..dn - 1];
    np[dn - 1] := top;
    assert np[..dn] == lo + [top];
    LastWindow(lo, top, s, Val(sq), Val(d), w, t);
    if qp != null { assert qp[..nn - dn + 1] == sq; }
  }

  lemma LastWindow(lo: seq<Limb>, top: Limb, s: seq<Limb>, q: int, d: int, w: int, t: int)
    requires w == top * BPow(|lo|) + Val(lo) && w < d && t == (q * d + w) * BPow(0) + Val(s[..0])
    ensures d > 0 && Val(lo + [top]) == t % d && q == t / d
  {
    hide Val, BPow;
    ValAppend(lo, top);
    ValNil(s);
    MulMono(0, top, BPow(|lo|));
    DivModUnique(t, d, q, w);
  }

  /** The loop body, with the window as a number. */
  method NextDigit(np: array<Limb>, o: nat, n1: Limb, dp: array<Limb>, dn: nat, dinv: Limb, ghost w: int)
    returns (q: Limb, top: Limb, ghost w': int)
    requires 2 < dn <= dp.Length && o + dn <= np.Length && np != dp && B / 2 <= dp[dn - 1]
    requires Inverse3by2(B, dp[dn - 1] * B + dp[dn - 2], dinv)
    requires w == n1 * BPow(dn - 1) + Val(np[o + 1..o + dn]) && w < Val(dp[..dn])
    modifies np
    ensures w' == top * BPow(dn - 1) + Val(np[o..o + dn - 1]) && w' < Val(dp[..dn])
    ensures q * Val(dp[..dn]) + w' == B * w + old(np[o])
    ensures SameOutside(np[..], old(np[..]), o, dn)
  {
    hide Val, BPow, Inverse3by2;
    assert np[o..o + dn][1..] == np[o + 1..o + dn];
    WindowShift(n1, np[o..o + dn]);
    q, top := QuotientLimb(np, o, n1, dp, dn, dinv);
    w' := top * BPow(dn - 1) + Val(np[o..o + dn - 1]);
  }

  lemma WindowStart(n1: Limb, s: seq<Limb>, dn: nat)
    requires 1 <= dn <= |s|
    ensures var i := |s| - dn + 1;
            n1 * BPow(|s|) + Val(s) == (n1 * BPow(dn - 1) + Val(s[i..])) * BPow(i) + Val(s[..i])
  {
    hide Val, BPow;
    var i := |s| - dn + 1;
    ValSplit(s, i);
    BPowAdd(dn - 1, i);
    Assoc(n1, BPow(dn - 1), BPow(i));
    Dist(n1 * BPow(dn - 1), Val(s[i..]), BPow(i));
  }

  lemma WindowShift(top: Limb, x: seq<Limb>)
    requires |x| >= 1
    ensures top * BPow(|x|) + Val(x) == B * (top * BPow(|x| - 1) + Val(x[1..])) + x[0]
  {
    hide Val, BPow;
    assert x == [x[0]] + x[1..];
    ValCons(x[0], x[1..]);
    BPowSucc(|x| - 1);
    Assoc(top, B, BPow(|x| - 1));
    Assoc(B, top, BPow(|x| - 1));
  }

  /** Prepending a quotient digit accounts for one more numerator limb. */
  lemma DigitDone(sq: seq<Limb>, q: Limb, d: int, w0: int, w: int, s: seq<Limb>, i: nat, t: int)
    requires i < |s| && q * d + w == B * w0 + s[i]
    requires t == (Val(sq) * d + w0) * BPow(i + 1) + Val(s[..i + 1])
    ensures t == (Val([q] + sq) * d + w) * BPow(i) + Val(s[..i])
  {
    hide Val, BPow;
    ValCons(q, sq);
    ValTake(s, i);
    BPowSucc(i);
    var v, p := Val(sq), BPow(i);
    Assoc(v * d + w0, B, p);
    Dist(q, B * v, d); Assoc(B, v, d);
    Dist(B * (v * d + w0), s[i], p);
    Assoc(B, v * d + w0, p);
  }
}
