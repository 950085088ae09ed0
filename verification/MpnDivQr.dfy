/** The drivers of limb division: inverses, small divisors, normalisation and mpn_div_qr. */
module MpnDivQr {
  import opened Arith
  import opened BitOps
  import opened Limbs
  import opened MpnArith
  import opened MpnShift
  import opened Reciprocal
  import opened Udiv
  import opened Invert
  import opened MpnDiv

  /** struct gmp_div_inverse */
  datatype DivInverse = DivInverse(shift: nat, d1: Limb, d0: Limb, di: Limb)

  ghost predicate InverseOf1(inv: DivInverse, d: int)
  {
    && inv.shift < 64 && d > 0 && inv.d1 == d * Pow2(inv.shift)
    && B / 2 <= inv.d1 && Inverse2by1(B, inv.d1, inv.di)
  }

  ghost predicate InverseOf2(inv: DivInverse, d: int)
  {
    && inv.shift < 64 && d > 0 && inv.d1 * B + inv.d0 == d * Pow2(inv.shift)
    && B / 2 <= inv.d1 && Inverse3by2(B, inv.d1 * B + inv.d0, inv.di)
  }

  /** For three and more limbs the inverse is that of the two top limbs of the shifted divisor. */
  ghost predicate InverseOfTop(inv: DivInverse, d: int, dn: nat)
    requires dn > 2
  {
    && inv.shift < 64 && d > 0 && TopLimbs(d * Pow2(inv.shift), dn, inv.d1, inv.d0)
    && B / 2 <= inv.d1 && Inverse3by2(B, inv.d1 * B + inv.d0, inv.di)
  }

  ghost predicate TopLimbs(v: int, n: nat, d1: Limb, d0: Limb)
    requires n >= 2
  {
    (d1 * B + d0) * BPow(n - 2) <= v < (d1 * B + d0 + 1) * BPow(n - 2)
  }

  /** inv serves division by d, a number of dn limbs. */
  ghost predicate InverseOf(inv: DivInverse, d: int, dn: nat)
  {
    dn > 0 && if dn == 1 then InverseOf1(inv, d) else if dn == 2 then InverseOf2(inv, d) else InverseOfTop(inv, d, dn)
  }

  /** mpn_div_qr_1_invert */
  method DivQr1Invert(d: Limb) returns (inv: DivInverse)
    requires d > 0
    ensures InverseOf1(inv, d)
  {
    hide Pow2, Wrap;
    var shift := Clz(d);
    var d1 := Shl(d, shift);
    WrapLimb(d * Pow2(shift));
    var di := Invert3by2(d1, 0);
    LimbInverse(d1, di);
    inv := DivInverse(shift, d1, 0, di);
  }

  lemma LimbInverse(d: Limb, m: Limb)
    requires Inverse3by2(B, d * B, m)
    ensures Inverse2by1(B, d, m)
  {
    Assoc(B + m, d, B);
  }

  /** mpn_div_qr_2_invert */
  method DivQr2Invert(d1: Limb, d0: Limb) returns (inv: DivInverse)
    requires d1 > 0
    ensures InverseOf2(inv, d1 * B + d0)
  {
    hide Pow2, Shl, Shr, Or, Inverse3by2;
    var shift := Clz(d1);
    var e1, e0 := d1, d0;
    if shift > 0 {
      TopShift(d1, d0, shift);
      e1 := Or(Shl(d1, shift), Shr(d0, 64 - shift));
      e0 := Shl(d0, shift);
    } else {
      PowZero();
    }
    var di := Invert3by2(e1, e0);
    inv := DivInverse(shift, e1, e0, di);
  }

  /** The top limb absorbs the bits shifted out of the next one without overflow. */
  lemma TopShift(d1: Limb, d0: Limb, s: nat)
    requires 0 < s < 64 && B / 2 <= d1 * Pow2(s) < B
    ensures Or(Shl(d1, s), Shr(d0, 64 - s)) == d1 * Pow2(s) + Shr(d0, 64 - s)
    ensures (d1 * B + d0) * Pow2(s) == (d1 * Pow2(s) + Shr(d0, 64 - s)) * B + Shl(d0, s)
  {
    hide Pow2, Or, Shr;
    ShiftParts(d1, s);
    ShiftParts(d0, s);
    WrapLimb(d1 * Pow2(s));
    OrPieces(d1, Shr(d0, 64 - s), s);
    Dist(d1 * B, d0, Pow2(s));
    Assoc(d1, B, Pow2(s)); Assoc(d1, Pow2(s), B);
  }

  /** mpn_div_qr_1_preinv; q may be null, and may be n itself. */
  method DivQr1Preinv(qp: array?<Limb>, np: array<Limb>, nn: nat, inv: DivInverse, ghost d: int) returns (r: Limb)
    requires 1 <= nn <= np.Length && (qp != null ==> nn <= qp.Length) && InverseOf1(inv, d)
    modifies qp
    ensures r == old(Val(np[..nn])) % d
    ensures qp != null ==> Val(qp[..nn]) == old(Val(np[..nn])) / d
    ensures qp != null ==> SameOutside(qp[..], old(qp[..]), 0, nn)
  {
    hide Val, BPow, Pow2, Inverse2by1;
    var tp := np;
    ghost var n := Val(np[..nn]);
    r := 0;
    if inv.shift > 0 {
      tp := new Limb[nn];
      assert np[..nn] == np[0..0 + nn];
      r := Lshift(tp, 0, np, 0, nn, inv.shift);
      assert tp[..nn] == tp[0..0 + nn];
    } else {
      PowZero();
    }
    ghost var s, top, sq := tp[..nn], r, [];
    SmallTop(inv, d, r);
    var i := nn;
    ValNil(s);
    assert s[nn..] == [];
    while i > 0
      invariant 0 <= i <= nn && |sq| == nn - i && r < inv.d1
      invariant top * BPow(nn - i) + Val(s[i..]) == Val(sq) * inv.d1 + r
      invariant forall k :: 0 <= k < i ==> tp[k] == s[k]
      invariant qp != null ==> forall k :: 0 <= k < |sq| ==> qp[i + k] == sq[k]
      invariant qp != null ==> forall k :: nn <= k < qp.Length ==> qp[k] == old(qp[k])
    {
      i := i - 1;
      var q;
      ghost var r0 := r;
      q, r := UdivPreinv(r, tp[i], inv.d1, inv.di);
      Digit1Done(top, s, i, sq, q, inv.d1, r0, r);
      sq := [q] + sq;
      if qp != null { qp[i] := q; }
    }
    assert s[0..] == s;
    if qp != null { assert qp[..nn] == sq; }
    Unscale(n, d, Pow2(inv.shift), Val(sq), r);
    r := Shr(r, inv.shift);
  }

  lemma SmallTop(inv: DivInverse, d: int, r: Limb)
    requires InverseOf1(inv, d) && r < Pow2(inv.shift)
    ensures r < inv.d1
  {
    MulMono(1, d, Pow2(inv.shift));
  }

  lemma Digit1Done(top: Limb, s: seq<Limb>, i: nat, sq: seq<Limb>, q: Limb, d: int, r0: int, r: int)
    requires i < |s| && |sq| == |s| - i - 1
    requires top * BPow(|sq|) + Val(s[i + 1..]) == Val(sq) * d + r0
    requires q * d + r == r0 * B + s[i]
    ensures top * BPow(|sq| + 1) + Val(s[i..]) == Val([q] + sq) * d + r
  {
    hide Val, BPow;
    assert s[i..] == [s[i]] + s[i + 1..];
    ValCons(s[i], s[i + 1..]);
    ValCons(q, sq);
    BPowSucc(|sq|);
    Assoc(top, B, BPow(|sq|)); Assoc(B, top, BPow(|sq|));
    Dist(q, B * Val(sq), d); Assoc(B, Val(sq), d);
  }

  /** Dividing both numbers scaled by p: same quotient, scaled remainder. */
  lemma Unscale(n: int, d: int, p: int, q: int, r: int)
    requires 0 < d && 0 < p && n * p == q * (d * p) + r && 0 <= r < d * p
    ensures n / d == q && r == n % d * p && r / p == n % d && r % p == 0
  {
    Assoc(q, d, p);
    var m := n - q * d;
    Dist(n, -(q * d), p);
    if m < 0 { MulMono(m, -1, p); }
    if m >= d { MulMono(d, m, p); }
    DivModUnique(n, d, q, m);
    DivModUnique(r, p, m, 0);
  }

  /** mpn_div_qr_1; powers of two are shifts. */
  method DivQr1(qp: array?<Limb>, np: array<Limb>, nn: nat, d: Limb) returns (r: Limb)
    requires 1 <= nn <= np.Length && (qp != null ==> nn <= qp.Length) && d > 0
    modifies qp
    ensures r == old(Val(np[..nn])) % d
    ensures qp != null ==> Val(qp[..nn]) == old(Val(np[..nn])) / d
    ensures qp != null ==> SameOutside(qp[..], old(qp[..]), 0, nn)
  {
    hide Val, BPow, Pow2, Word, Twos, InverseOf1;
    Pow2At();
    if Word(AND, d, d - 1, 64) == 0 {
      PowerTest(d, 64);
      r := Word(AND, np[0], d - 1, 64);
      PowerRemainder(np[..nn], d, Twos(d));
      if qp != null {
        ghost var s := np[..nn];
        assert np[0..0 + nn] == s;
        if d <= 1 {
          CopyI(qp, 0, np, 0, nn);
          assert qp[..nn] == qp[0..0 + nn];
        } else {
          var shift := Ctz(d);
          PowZero();
          var out := Rshift(qp, 0, np, 0, nn, shift);
          assert qp[..nn] == qp[0..0 + nn];
        }
      }
    } else {
      var inv := DivQr1Invert(d);
      r := DivQr1Preinv(qp, np, nn, inv, d);
    }
  }

  lemma PowerRemainder(s: seq<Limb>, d: Limb, c: nat)
    requires |s| >= 1 && d == Pow2(c)
    ensures Word(AND, s[0], d - 1, 64) == Val(s) % d
  {
    hide Val, Word, BPow;
    Pow2At();
    if c >= 64 { Pow2Mono(64, c); }
    AndMask(s[0], c, 64);
    assert s == [s[0]] + s[1..];
    ValCons(s[0], s[1..]);
    Pow2Add(64 - c, c);
    HighMultiple(s[0], Val(s[1..]), Pow2(64 - c), d);
  }

  lemma HighMultiple(x: int, y: int, k: int, d: int)
    requires d > 0 && k * d == B
    ensures (x + B * y) % d == x % d
  {
    var q := x / d;
    assert x == q * d + x % d;
    Assoc(y, k, d);
    Dist(q, y * k, d);
    DivModUnique(x + B * y, d, q + y * k, x % d);
  }

  /** mpn_div_qr_2_preinv; r may be n itself. */
  method DivQr2Preinv(qp: array?<Limb>, rp: array<Limb>, np: array<Limb>, nn: nat, inv: DivInverse, ghost d: int)
    requires 2 <= nn <= np.Length && 2 <= rp.Length && qp != rp && qp != np
    requires (qp != null ==> nn - 1 <= qp.Length) && InverseOf2(inv, d)
    modifies qp, rp
    ensures Val(rp[..2]) == old(Val(np[..nn])) % d
    ensures qp != null ==> Val(qp[..nn - 1]) == old(Val(np[..nn])) / d
    ensures SameOutside(rp[..], old(rp[..]), 0, 2)
    ensures qp != null ==> SameOutside(qp[..], old(qp[..]), 0, nn - 1)
  {
    hide Val, BPow, Pow2, Inverse3by2, Shl, Shr, Or;
    var shift := inv.shift;
    var tp := np;
    ghost var n := Val(np[..nn]);
    var r1: Limb := 0;
    if shift > 0 {
      tp := new Limb[nn];
      assert np[..nn] == np[0..0 + nn];
      r1 := Lshift(tp, 0, np, 0, nn, shift);
      assert tp[..nn] == tp[0..0 + nn];
    } else {
      PowZero();
    }
    var r0: Limb;
    ghost var sq;
    r1, r0, sq := Digits2(qp, tp, nn, inv, r1, d);
    Unscale(n, d, Pow2(shift), Val(sq), r1 * B + r0);
    if shift > 0 {
      ShiftBack(r1, r0, shift);
      r0, r1 := Or(Shl(r1, 64 - shift), Shr(r0, shift)), Shr(r1, shift);
    }
    rp[1] := r1;
    rp[0] := r0;
    assert rp[..2] == [r0] + [r1];
    ValCons(r0, [r1]); ValOne(r1);
  }

  /** The loop of mpn_div_qr_2_preinv over a shifted number with a limb on top of it. */
  method Digits2(qp: array?<Limb>, tp: array<Limb>, nn: nat, inv: DivInverse, top: Limb, ghost d: int)
    returns (r1: Limb, r0: Limb, ghost sq: seq<Limb>)
    requires 2 <= nn <= tp.Length && qp != tp && (qp != null ==> nn - 1 <= qp.Length)
    requires InverseOf2(inv, d) && top < Pow2(inv.shift)
    modifies qp
    ensures r1 * B + r0 < inv.d1 * B + inv.d0 && |sq| == nn - 1
    ensures top * BPow(nn) + Val(tp[..nn]) == Val(sq) * (inv.d1 * B + inv.d0) + (r1 * B + r0)
    ensures qp != null ==> qp[..nn - 1] == sq && SameOutside(qp[..], old(qp[..]), 0, nn - 1)
  {
    hide Val, BPow, Pow2, Inverse3by2;
    ghost var s, dd := tp[..nn], inv.d1 * B + inv.d0;
    Start2(inv, d, s, top);
    r1, r0, sq := top, tp[nn - 1], [];
    var i := nn - 1;
    while i > 0
      invariant 0 <= i <= nn - 1 && |sq| == nn - 1 - i && r1 * B + r0 < dd
      invariant top * BPow(nn - i) + Val(s[i..]) == Val(sq) * dd + (r1 * B + r0)
      invariant qp != null ==> forall k :: 0 <= k < |sq| ==> qp[i + k] == sq[k]
      invariant qp != null ==> forall k :: nn - 1 <= k < qp.Length ==> qp[k] == old(qp[k])
    {
      i := i - 1;
      var q;
      ghost var r := r1 * B + r0;
      q, r1, r0 := Udiv3by2(r1, r0, tp[i], inv.d1, inv.d0, inv.di);
      Digit2Done(top, s, i, sq, q, dd, r, r1 * B + r0);
      sq := [q] + sq;
      if qp != null { qp[i] := q; }
    }
    assert s[0..] == s;
  }

  lemma Start2(inv: DivInverse, d: int, s: seq<Limb>, top: Limb)
    requires InverseOf2(inv, d) && |s| >= 2 && top < Pow2(inv.shift)
    ensures top * B + s[|s| - 1] < inv.d1 * B + inv.d0
    ensures top * BPow(1) + Val(s[|s| - 1..]) == Val([]) * (inv.d1 * B + inv.d0) + (top * B + s[|s| - 1])
  {
    hide Val, BPow, Pow2, Inverse3by2;
    Pow2At();
    Pow2Mono(inv.shift, 63);
    assert s[|s| - 1..] == [s[|s| - 1]];
    ValOne(s[|s| - 1]);
    ValNil([]);
  }

  lemma Digit2Done(top: Limb, s: seq<Limb>, i: nat, sq: seq<Limb>, q: Limb, d: int, r: int, r': int)
    requires i < |s| && |sq| == |s| - i - 2
    requires top * BPow(|sq| + 1) + Val(s[i + 1..]) == Val(sq) * d + r
    requires q * d + r' == r * B + s[i]
    ensures top * BPow(|sq| + 2) + Val(s[i..]) == Val([q] + sq) * d + r'
  {
    hide Val, BPow;
    assert s[i..] == [s[i]] + s[i + 1..];
    ValCons(s[i], s[i + 1..]);
    ValCons(q, sq);
    BPowSucc(|sq| + 1);
    Assoc(top, B, BPow(|sq| + 1)); Assoc(B, top, BPow(|sq| + 1));
    Dist(q, B * Val(sq), d); Assoc(B, Val(sq), d);
  }

  /** Shifting a two-limb number right when nothing is lost. */
  lemma ShiftBack(r1: Limb, r0: Limb, s: nat)
    requires 0 < s < 64 && (r1 * B + r0) % Pow2(s) == 0
    ensures Shr(r1, s) * B + Or(Shl(r1, 64 - s), Shr(r0, s)) == (r1 * B + r0) / Pow2(s)
  {
    hide Pow2, Or, Shr, Shl;
    var p, t := Pow2(s), Pow2(64 - s);
    ShiftParts(r1, 64 - s);
    ShiftParts(r0, 64 - s);
    OrPieces(r1, Shr(r0, s), 64 - s);
    ShrDef(r0, s);
    assert r1 * B == (r1 * t) * p by { Assoc(r1, t, p); }
    DivSum(r1 * t, p, r0);
  }

  lemma DivSum(x: int, p: int, y: int)
    requires p > 0
    ensures (x * p + y) / p == x + y / p
  {
    assert y == y / p * p + y % p;
    Dist(x, y / p, p);
    DivModUnique(x * p + y, p, x + y / p, y % p);
  }

  lemma ShrDef(x: Limb, s: nat)
    ensures Shr(x, s) == x / Pow2(s)
  {
  }

  /** mpn_div_qr_invert */
  method DivQrInvert(dp: array<Limb>, dn: nat) returns (inv: DivInverse)
    requires 0 < dn <= dp.Length && dp[dn - 1] > 0
    ensures InverseOf(inv, Val(dp[..dn]), dn)
    ensures dn > 2 ==> Val(dp[..dn]) * Pow2(inv.shift) < BPow(dn)
  {
    hide Val, BPow, Pow2, Shl, Shr, Or, Inverse3by2, InverseOf1, InverseOf2, TopLimbs;
    ghost var d := dp[..dn];
    if dn == 1 {
      inv := DivQr1Invert(dp[0]);
      assert d == [dp[0]];
      ValOne(dp[0]);
    } else if dn == 2 {
      inv := DivQr2Invert(dp[1], dp[0]);
      assert d == [dp[0]] + [dp[1]];
      ValCons(dp[0], [dp[1]]); ValOne(dp[1]);
    } else {
      var d1, d0 := dp[dn - 1], dp[dn - 2];
      var shift := Clz(d1);
      if shift > 0 {
        OrPieces(d0, Shr(dp[dn - 3], 64 - shift), shift) by { ShiftParts(dp[dn - 3], shift); }
        ThreeTops(d, shift);
        TopShift(d1, d0, shift);
        d1, d0 := Or(Shl(d1, shift), Shr(d0, 64 - shift)), Or(Shl(d0, shift), Shr(dp[dn - 3], 64 - shift));
      } else {
        PowZero();
        TwoTops(d);
      }
      var di := Invert3by2(d1, d0);
      inv := DivInverse(shift, d1, d0, di);
      assert Val(d) > 0 by { NormalBound(d); }
      TopBound(Val(d) * Pow2(shift), dn, d1, d0);
    }
  }

  lemma TwoTops(d: seq<Limb>)
    requires |d| > 2
    ensures TopLimbs(Val(d), |d|, d[|d| - 1], d[|d| - 2])
  {
    hide Val, BPow;
    TopTwo(d);
    ValBound(d[..|d| - 2]);
    Dist(d[|d| - 1] * B + d[|d| - 2], 1, BPow(|d| - 2));
  }

  lemma TopBound(v: int, n: nat, d1: Limb, d0: Limb)
    requires n > 2 && TopLimbs(v, n, d1, d0)
    ensures v < BPow(n)
  {
    MulMono(d1 * B + d0 + 1, BB, BPow(n - 2));
    assert BPow(n) == B * BPow(n - 1) == BB * BPow(n - 2);
  }

  /** The two top limbs of a shifted number come from its three top limbs. */
  lemma ThreeTops(d: seq<Limb>, s: nat)
    requires |d| > 2 && 0 < s < 64 && B / 2 <= d[|d| - 1] * Pow2(s) < B
    ensures var n := |d|;
            var e1, e0 := d[n - 1] * Pow2(s) + Shr(d[n - 2], 64 - s), Shl(d[n - 2], s) + Shr(d[n - 3], 64 - s);
            && 0 <= e1 < B && 0 <= e0 < B && TopLimbs(Val(d) * Pow2(s), n, e1, e0)
  {
    hide Val, BPow, Pow2, Shl, Shr, Or;
    var n := |d|;
    var p, w := Pow2(s), BPow(n - 3);
    var lo := Val(d[..n - 3]);
    TopShift(d[n - 1], d[n - 2], s);
    OrPieces(d[n - 2], Shr(d[n - 3], 64 - s), s) by { ShiftParts(d[n - 3], s); }
    ShiftParts(d[n - 3], s);
    TopTwo(d);
    ValTake(d, n - 3);
    ValBound(d[..n - 3]);
    BPowSucc(n - 3);
    ThreeTopsCore(d[n - 1] * B + d[n - 2], d[n - 3], lo, p, w,
                  d[n - 1] * p + Shr(d[n - 2], 64 - s), Shl(d[n - 2], s), Shr(d[n - 3], 64 - s), Shl(d[n - 3], s),
                  d[n - 3] % Pow2(64 - s), Pow2(64 - s), Val(d));
  }

  lemma ThreeTopsCore(d2: int, c: int, lo: int, p: int, w: int, e1: int, m: int, ch: int, cl: int, k: int, t: int,
                      d: int)
    requires d == d2 * (B * w) + (lo + c * w) && 0 <= lo < w && 0 < p && p * t == B
    requires d2 * p == e1 * B + m && c * p == ch * B + cl && cl == k * p && 0 <= k < t
    ensures var e := e1 * B + (m + ch);
            e * (B * w) <= d * p < (e + 1) * (B * w)
  {
    var e := e1 * B + (m + ch);
    assert d * p == e * (B * w) + (cl * w + lo * p) by { ThreeTopsSum(d2, c, lo, p, w, e1 * B + m, ch, cl, d); }
    MulMono(0, lo, p); MulMono(0, k, p);
    MulMono(0, cl, w);
    MulMono(lo, w - 1, p); Dist(w, -1, p);
    MulMono(k, t - 1, p); Dist(t, -1, p);
    MulMono(cl, B - p, w); Dist(B, -p, w);
    Dist(e, 1, B * w);
  }

  lemma ThreeTopsSum(d2: int, c: int, lo: int, p: int, w: int, x: int, ch: int, cl: int, d: int)
    requires d == d2 * (B * w) + (lo + c * w) && d2 * p == x && c * p == ch * B + cl
    ensures d * p == (x + ch) * (B * w) + (cl * w + lo * p)
  {
    Dist(d2 * (B * w), lo + c * w, p); Dist(lo, c * w, p);
    assert d2 * (B * w) * p == x * (B * w) by { Assoc(d2, p, B * w); Assoc(d2, B * w, p); }
    assert c * w * p == ch * (B * w) + cl * w by {
      Assoc(c, p, w); Assoc(c, w, p);
      Dist(ch * B, cl, w); Assoc(ch, B, w);
    }
    Dist(x, ch, B * w);
  }

  /** Limbs with given top limbs. */
  lemma TopUnique(s: seq<Limb>, d1: Limb, d0: Limb)
    requires |s| > 2 && TopLimbs(Val(s), |s|, d1, d0)
    ensures s[|s| - 1] == d1 && s[|s| - 2] == d0
  {
    hide Val, BPow;
    var n := |s|;
    var p, e, f := BPow(n - 2), s[n - 1] * B + s[n - 2], d1 * B + d0;
    TopTwo(s);
    ValBound(s[..n - 2]);
    if e < f { MulMono(e + 1, f, p); Dist(e, 1, p); }
    if e > f { MulMono(f + 1, e, p); }
  }

  /** mpn_div_qr_preinv: the remainder replaces the low dn limbs of n. */
  method DivQrPreinv(qp: array?<Limb>, np: array<Limb>, nn: nat, dp: array<Limb>, dn: nat,
                     inv: DivInverse, ghost d: int)
    requires 0 < dn <= nn <= np.Length && dn <= dp.Length && np != dp && qp != np && qp != dp
    requires (qp != null ==> nn - dn + 1 <= qp.Length) && InverseOf(inv, d, dn)
    requires dn > 2 ==> Val(dp[..dn]) == d * Pow2(inv.shift)
    modifies np, qp
    ensures d > 0
    ensures Val(np[..dn]) == old(Val(np[..nn])) % d
    ensures qp != null ==> Val(qp[..nn - dn + 1]) == old(Val(np[..nn])) / d
    ensures SameOutside(np[..], old(np[..]), 0, nn)
    ensures qp != null ==> SameOutside(qp[..], old(qp[..]), 0, nn - dn + 1)
  {
    hide Val, BPow, Pow2, Inverse2by1, Inverse3by2, TopLimbs;
    if dn == 1 {
      var r := DivQr1Preinv(qp, np, nn, inv, d);
      np[0] := r;
      assert np[..1] == [r];
      ValOne(r);
    } else if dn == 2 {
      DivQr2Preinv(qp, np, np, nn, inv, d);
    } else {
      DivQrNormal(qp, np, nn, dp, dn, inv, d);
    }
  }

  /** The case of three and more limbs: shift, divide, shift back. */
  method DivQrNormal(qp: array?<Limb>, np: array<Limb>, nn: nat, dp: array<Limb>, dn: nat,
                     inv: DivInverse, ghost d: int)
    requires 2 < dn <= nn <= np.Length && dn <= dp.Length && np != dp && qp != np && qp != dp
    requires (qp != null ==> nn - dn + 1 <= qp.Length) && InverseOfTop(inv, d, dn)
    requires Val(dp[..dn]) == d * Pow2(inv.shift)
    modifies np, qp
    ensures Val(np[..dn]) == old(Val(np[..nn])) % d
    ensures qp != null ==> Val(qp[..nn - dn + 1]) == old(Val(np[..nn])) / d
    ensures SameOutside(np[..], old(np[..]), 0, nn)
    ensures qp != null ==> SameOutside(qp[..], old(qp[..]), 0, nn - dn + 1)
  {
    hide Val, BPow, Pow2, Inverse3by2, TopLimbs;
    ghost var n, p := Val(np[..nn]), Pow2(inv.shift);
    TopUnique(dp[..dn], inv.d1, inv.d0);
    var nh := ScaleUp(np, nn, inv.shift);
    assert np[nn - dn + 1..nn] == np[..nn][nn - dn + 1..];
    HighWindow(nh, inv.shift, np[..nn][nn - dn + 1..], dp[..dn]);
    DivQrPi1(qp, np, nn, nh, dp, dn, inv.di);
    UnscaleMod(n, d, p, Val(np[..dn]));
    ScaleDown(np, dn, inv.shift);
  }

  /** The numerator shifted up; the bits shifted out are returned. */
  method ScaleUp(np: array<Limb>, n: nat, shift: nat) returns (nh: Limb)
    requires 0 < n <= np.Length && shift < 64
    modifies np
    ensures nh < Pow2(shift) && nh * BPow(n) + Val(np[..n]) == old(Val(np[..n])) * Pow2(shift)
    ensures SameOutside(np[..], old(np[..]), 0, n)
  {
    hide Val, BPow, Pow2;
    nh := 0;
    if shift > 0 {
      assert np[0..0 + n] == np[..n];
      nh := Lshift(np, 0, np, 0, n, shift);
      assert np[0..0 + n] == np[..n];
    } else {
      PowZero();
    }
  }

  /** The remainder shifted back, which loses nothing. */
  method ScaleDown(np: array<Limb>, n: nat, shift: nat)
    requires 0 < n <= np.Length && shift < 64 && Val(np[..n]) % Pow2(shift) == 0
    modifies np
    ensures Val(np[..n]) == old(Val(np[..n])) / Pow2(shift)
    ensures SameOutside(np[..], old(np[..]), 0, n)
  {
    hide Val, BPow, Pow2;
    if shift > 0 {
      assert np[0..0 + n] == np[..n];
      var out := Rshift(np, 0, np, 0, n, shift);
      assert np[0..0 + n] == np[..n];
      assert out == 0;
    } else {
      PowZero();
    }
  }

  /** The bits shifted out are below the top limb of the normalised divisor. */
  lemma HighWindow(nh: Limb, shift: nat, w: seq<Limb>, d: seq<Limb>)
    requires shift < 64 && nh < Pow2(shift) && |d| == |w| + 1 && B / 2 <= d[|d| - 1]
    ensures nh * BPow(|d| - 1) + Val(w) < Val(d)
  {
    hide Val, BPow, Pow2;
    Pow2At();
    Pow2Mono(shift, 63);
    ValBound(w);
    ValTake(d, |d| - 1);
    assert d[..|d|] == d;
    MulMono(nh + 1, d[|d| - 1], BPow(|d| - 1));
    Dist(nh, 1, BPow(|d| - 1));
  }

  lemma UnscaleMod(n: int, d: int, p: int, r: int)
    requires 0 < d && 0 < p && 0 < d * p && r == n * p % (d * p)
    ensures n * p / (d * p) == n / d && r / p == n % d && r % p == 0
  {
    Unscale(n, d, p, n * p / (d * p), r);
  }

  /** mpn_div_qr */
  method DivQr(qp: array?<Limb>, np: array<Limb>, nn: nat, dp: array<Limb>, dn: nat)
    requires 0 < dn <= nn <= np.Length && dn <= dp.Length && dp[dn - 1] > 0
    requires np != dp && qp != np && qp != dp && (qp != null ==> nn - dn + 1 <= qp.Length)
    modifies np, qp
    ensures Val(dp[..dn]) > 0
    ensures Val(np[..dn]) == old(Val(np[..nn])) % Val(dp[..dn])
    ensures qp != null ==> Val(qp[..nn - dn + 1]) == old(Val(np[..nn])) / Val(dp[..dn])
    ensures SameOutside(np[..], old(np[..]), 0, nn)
    ensures qp != null ==> SameOutside(qp[..], old(qp[..]), 0, nn - dn + 1)
  {
    hide Val, BPow, Pow2, InverseOf;
    var inv := DivQrInvert(dp, dn);
    var tp := dp;
    if dn > 2 && inv.shift > 0 {
      tp := new Limb[dn];
      assert dp[0..0 + dn] == dp[..dn];
      ShiftInRange(inv, Val(dp[..dn]), dn);
      var out := Lshift(tp, 0, dp, 0, dn, inv.shift);
      assert tp[0..0 + dn] == tp[..dn];
      NothingOut(out, BPow(dn), Val(tp[..dn]));
      assert out == 0;
    } else {
      PowZero();
    }
    DivQrPreinv(qp, np, nn, tp, dn, inv, Val(dp[..dn]));
  }

  lemma ShiftInRange(inv: DivInverse, d: int, dn: nat)
    requires InverseOf(inv, d, dn)
    ensures inv.shift < 64
  {
  }

  lemma NothingOut(c: int, p: int, v: int)
    requires 0 <= c && 0 < p && 0 <= v && c * p + v < p
    ensures c == 0
  {
    if c > 0 { MulMono(1, c, p); }
  }
}
