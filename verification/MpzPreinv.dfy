/** Reduction by a modulus whose inverse is kept, as mpz_powm does it. */
module MpzPreinv {
  import opened Arith
  import opened Limbs
  import opened MpnArith
  import opened MpnShift
  import opened Reciprocal
  import opened MpnDivQr
  import opened MpzCore
  import opened MpzDivFast
  import opened MpzMore
  import opened MpzVars

  /** The inverse of d serves the shifted divisor when its shift is set to zero. */
  lemma ShiftedInverse(inv: DivInverse, d: int, dn: nat)
    requires InverseOf(inv, d, dn)
    ensures InverseOf(inv.(shift := 0), d * Pow2(inv.shift), dn)
  {
    hide Pow2, Inverse2by1, Inverse3by2, TopLimbs;
    PowZero();
    MulMono(1, Pow2(inv.shift), d);
  }

  /** What mp points to: the modulus shifted up, in tp, or the limbs of m themselves. */
  ghost predicate Points(x: Vars, m: nat, tp: array?<Limb>, mn: nat, shifted: int)
    requires x.Valid() && m < |x.vals|
    reads x, x.repr, tp
  {
    && mn == Size(Abs(x.vals[m])) && mn > 0
    && if tp == null then shifted == Abs(x.vals[m])
       else tp !in x.repr && mn <= tp.Length && Val(tp[..mn]) == shifted
  }

  /** mpn_div_qr_invert for |m|; a positive shift is set to zero and the modulus shifted up. */
  method InvertModulus(x: Vars, m: nat) returns (mn: nat, shift: nat, inv: DivInverse, tp: array?<Limb>)
    requires x.Valid() && m < |x.vals| && x.vals[m] != 0
    ensures (tp != null ==> fresh(tp)) && Points(x, m, tp, mn, Abs(x.vals[m]) * Pow2(shift))
    ensures InverseOf(inv, Abs(x.vals[m]) * Pow2(shift), mn) && inv.shift == 0
    ensures InverseOf(inv.(shift := shift), Abs(x.vals[m]), mn)
  {
    hide Val, BPow, Pow2, Size, InverseOf;
    var o := x.regs[m];
    ghost var a := NonzeroMag(o);
    mn := Abs(o.size);
    SizeIs(o.d[..mn]);
    TopNonzero(o.d[..mn]);
    inv := DivQrInvert(o.d, mn);
    ShiftedInverse(inv, a, mn);
    shift, tp := inv.shift, null;
    if shift > 0 {
      ShiftRoom(inv, a, mn);
      inv := inv.(shift := 0);
      tp := new Limb[mn];
      var cy := Lshift(tp, 0, o.d, 0, mn, shift);
      assert tp[0..0 + mn] == tp[..mn] && o.d[0..0 + mn] == o.d[..mn];
      ValBound(tp[..mn]);
      NoCarry(cy, Val(tp[..mn]), BPow(mn));
    } else {
      PowZero();
    }
  }

  lemma NoCarry(cy: Limb, v: int, p: int)
    requires 0 <= v && 0 < p && cy * p + v < p
    ensures cy == 0
  {
    if cy > 0 { MulMono(1, cy, p); }
  }

  lemma NoBorrow(cy: Limb, v: int, p: int)
    requires 0 < p && v < p && 0 <= v - cy * p
    ensures cy == 0
  {
    if cy > 0 { MulMono(1, cy, p); }
  }

  /** The shift leaves the modulus within its limbs. */
  lemma ShiftRoom(inv: DivInverse, d: int, dn: nat)
    requires InverseOf(inv, d, dn) && (dn > 2 ==> d * Pow2(inv.shift) < BPow(dn))
    ensures 0 < inv.shift < 64 || inv.shift == 0
    ensures d * Pow2(inv.shift) < BPow(dn)
  {
    hide Pow2, Inverse2by1, Inverse3by2;
    if dn == 1 { ValOne(0); } else if dn == 2 { BPowSucc(1); ValOne(0); }
  }

  /** The limbs of a replaced by their remainder, and its size by the normalised one. */
  method ReduceLimbs(a: Mpz, mp: array<Limb>, mn: nat, inv: DivInverse, ghost d: int)
    requires a.Valid() && 0 < mn <= a.size && mn <= mp.Length && mp != a.d
    requires InverseOf(inv, d, mn) && Val(mp[..mn]) == d * Pow2(inv.shift)
    modifies a`size, a.d
    ensures d > 0 && a.Valid() && a.Value() == old(a.Value()) % d
  {
    hide Val, Pow2, InverseOf, Normal;
    DivQrPreinv(null, a.d, a.size, mp, mn, inv, d);
    a.size := NormalizedSize(a.d, mn);
  }

  /** mpn_div_qr_preinv on variable a. */
  method Reduce(x: Vars, a: nat, m: nat, tp: array?<Limb>, mn: nat, inv: DivInverse, ghost d: int)
    requires x.Valid() && a < |x.vals| && m < |x.vals| && a != m && x.vals[a] >= 0 && mn <= Size(x.vals[a])
    requires InverseOf(inv, d, mn) && Points(x, m, tp, mn, d * Pow2(inv.shift))
    modifies x.repr
    ensures x.Valid() && fresh(x.repr - old(x.repr)) && d > 0 && x.vals == old(x.vals)[a := old(x.vals[a]) % d]
  {
    hide Val, Pow2, InverseOf, Normal, Size;
    ghost var v := NonzeroMag(x.regs[a]);
    var mp := if tp != null then tp else x.regs[m].d;
    SizeIs(x.regs[a].d[..Abs(x.regs[a].size)]);
    SizeIs(x.regs[m].d[..Abs(x.regs[m].size)]);
    ReduceLimbs(x.regs[a], mp, mn, inv, d);
    hide Holds;
    x.Renew(a, x.vals[a] % d);
  }

  /** |b| reduced when it has as many limbs as the modulus d, and subtracted from d when b is negative. */
  ghost function BaseOf(b: int, mn: nat, d: int): (r: int)
    requires d > 0
  {
    var a := if Size(Abs(b)) >= mn then Abs(b) % d else Abs(b);
    if b < 0 then d - a else a
  }

  /** The first half: bn limbs that hold the magnitude, reduced when it is long. */
  method BaseMag(base: Mpz, b: Mpz, mp: array<Limb>, mn: nat, inv: DivInverse, ghost d: int) returns (bn: nat)
    requires b.Valid() && base != b && base.d != b.d && 0 < mn <= mp.Length && mp != base.d
    requires InverseOf(inv, d, mn) && inv.shift == 0 && Val(mp[..mn]) == d
    modifies base, base.d
    ensures d > 0 && bn <= mn && bn <= base.d.Length
    ensures Val(base.d[..bn]) == BaseOf(Abs(b.Value()), mn, d)
    ensures base.d == old(base.d) || fresh(base.d)
  {
    hide Val, BPow, InverseOf, Normal, Size;
    DivisorPositive(inv, d, mn);
    MpzAbs(base, b);
    ghost var r := NonzeroMag(base);
    bn := base.size;
    SizeIs(base.d[..bn]);
    PowZero();
    if bn >= mn {
      DivQrPreinv(null, base.d, bn, mp, mn, inv, d);
      bn := mn;
    }
  }

  lemma DivisorPositive(inv: DivInverse, d: int, dn: nat)
    requires InverseOf(inv, d, dn)
    ensures d > 0
  {
  }

  method BaseLimbs(base: Mpz, b: Mpz, mp: array<Limb>, mn: nat, inv: DivInverse, ghost d: int)
    requires b.Valid() && base != b && base.d != b.d && 0 < mn <= mp.Length && mp != base.d
    requires InverseOf(inv, d, mn) && inv.shift == 0 && Val(mp[..mn]) == d && BPow(mn - 1) <= d
    modifies base, base.d
    ensures d > 0 && base.Valid() && base.Value() == BaseOf(b.Value(), mn, d)
    ensures base.d == old(base.d) || fresh(base.d)
  {
    hide Val, BPow, InverseOf, Normal, BaseOf, Mpz.Mag;
    ghost var z := b.Value();
    ghost var m := NonzeroMag(b);
    var bn := BaseMag(base, b, mp, mn, inv, d);
    BaseSigned(z, mn, d);
    if b.size < 0 {
      ghost var t := base.d[..];
      base.Realloc(mn);
      assert base.d[..bn] == t[..bn];
      var cy := Sub(base.d, mp, mn, base.d, bn);
      ValBound(base.d[..mn]);
      assert cy == 0 by { NoBorrow(cy, Val(base.d[..mn]), BPow(mn)); }
      bn := mn;
    }
    base.size := NormalizedSize(base.d, bn);
    SizedValue(base, base.size);
  }

  lemma BaseSigned(b: int, mn: nat, d: int)
    requires 0 < mn && BPow(mn - 1) <= d
    ensures d > 0 && 0 <= BaseOf(Abs(b), mn, d) <= d
    ensures BaseOf(b, mn, d) == if b < 0 then d - BaseOf(Abs(b), mn, d) else BaseOf(Abs(b), mn, d)
  {
    hide BPow, Size;
    SizeBound(Abs(b), mn - 1);
  }

  /** The base of mpz_powm, for a nonnegative exponent. */
  method SetBase(x: Vars, base: nat, b: nat, m: nat, tp: array?<Limb>, mn: nat, inv: DivInverse, ghost d: int)
    requires x.Valid() && base < |x.vals| && b < |x.vals| && m < |x.vals| && base != b && base != m
    requires InverseOf(inv, d, mn) && inv.shift == 0 && Points(x, m, tp, mn, d) && Abs(x.vals[m]) <= d
    modifies x.repr
    ensures x.Valid() && fresh(x.repr - old(x.repr)) && d > 0
    ensures x.vals == old(x.vals)[base := BaseOf(old(x.vals[b]), mn, d)]
  {
    hide Val, InverseOf, Normal, Size, BaseOf, BPow;
    var mp := if tp != null then tp else x.regs[m].d;
    SizeIs(x.regs[m].d[..Abs(x.regs[m].size)]);
    SizeBound(Abs(x.vals[m]), mn - 1);
    BaseLimbs(x.regs[base], x.regs[b], mp, mn, inv, d);
    hide Holds;
    x.Renew(base, BaseOf(x.vals[b], mn, d));
  }
}
