/**
 mpz_t objects: a sign in `size`, a magnitude in the low |size| limbs of `d`,
 no zero limb on top.  Outputs may be the same object as inputs.
 */
module MpzCore {
  import opened Arith
  import opened Limbs
  import opened MpnArith
  import opened MpnShift

  function Abs(x: int): (r: nat)
  {
    if x < 0 then -x else x
  }

  class Mpz {
    var size: int
    var d: array<Limb>

    ghost predicate Valid()
      reads this, d
    {
      Abs(size) <= d.Length && Normal(d[..Abs(size)])
    }

    /** |value| */
    ghost function Mag(): (m: nat)
      requires Valid()
      reads this, d
    {
      Val(d[..Abs(size)])
    }

    ghost function Value(): (v: int)
      requires Valid()
      reads this, d
    {
      if size < 0 then 0 - Mag() else Mag()
    }

    /** mpz_init */
    constructor ()
      ensures Valid() && Value() == 0 && fresh(d)
    {
      size, d := 0, new Limb[0];
      new;
      assert d[..0] == [];
    }

    /** MPZ_REALLOC: room for n limbs, contents kept. */
    method Realloc(n: nat)
      modifies this`d
      ensures n <= d.Length && old(d.Length) <= d.Length && d[..old(d.Length)] == old(d[..])
      ensures d == old(d) || fresh(d)
    {
      if n > d.Length {
        var old_d := d;
        var e := new Limb[n];
        CopyI(e, 0, old_d, 0, old_d.Length);
        assert e[..old_d.Length] == e[0..0 + old_d.Length] == old_d[..];
        d := e;
      } else {
        assert d[..d.Length] == d[..];
      }
    }
  }

  /** Writing r's limbs leaves those of a alone, unless a is r. */
  ghost predicate Own(r: Mpz, a: Mpz)
    reads r, a
  {
    r == a || r.d != a.d
  }

  /** A number of n limbs that is at least B^(n-1) has a nonzero top limb. */
  lemma NormalByBound(s: seq<Limb>)
    requires s != [] && Val(s) >= BPow(|s| - 1)
    ensures Normal(s)
  {
    if s[|s| - 1] == 0 { ValBound(s[..|s| - 1]); }
  }

  lemma NormalZero(s: seq<Limb>)
    requires Normal(s)
    ensures Val(s) == 0 <==> s == []
  {
    if s != [] { NormalBound(s); }
  }

  /** mpz_abs_add: |a| + |b| into r's limbs, size returned but not stored. */
  method AbsAdd(r: Mpz, a: Mpz, b: Mpz) returns (rn: nat)
    requires a.Valid() && b.Valid() && Own(r, a) && Own(r, b)
    modifies r`d, r.d
    ensures rn <= r.d.Length && Normal(r.d[..rn]) && Val(r.d[..rn]) == old(a.Mag()) + old(b.Mag())
    ensures r.d == old(r.d) || fresh(r.d)
  {
    hide Val, BPow;
    if Abs(a.size) < Abs(b.size) {
      rn := AbsAddOrdered(r, b, a);
    } else {
      rn := AbsAddOrdered(r, a, b);
    }
  }

  method AbsAddOrdered(r: Mpz, a: Mpz, b: Mpz) returns (rn: nat)
    requires a.Valid() && b.Valid() && Own(r, a) && Own(r, b) && Abs(b.size) <= Abs(a.size)
    modifies r`d, r.d
    ensures rn <= r.d.Length && Normal(r.d[..rn]) && Val(r.d[..rn]) == old(a.Mag()) + old(b.Mag())
    ensures r.d == old(r.d) || fresh(r.d)
  {
    hide Val, BPow;
    var an, bn := Abs(a.size), Abs(b.size);
    ghost var sa, sb := a.d[..an], b.d[..bn];
    r.Realloc(an + 1);
    assert a.d[..an] == sa && b.d[..bn] == sb;
    var cy := Add(r.d, a.d, an, b.d, bn);
    ghost var lo := r.d[..an];
    r.d[an] := cy;
    rn := an + cy;
    ValNil(sb);
    SumSize(lo, sa, Val(sb), cy);
    assert r.d[..an] == lo;
    if cy == 1 { assert r.d[..rn] == lo + [1]; }
  }

  lemma SumSize(lo: seq<Limb>, su: seq<Limb>, v: nat, cy: Limb)
    requires |lo| == |su| && Normal(su) && cy <= 1 && Val(lo) + cy * BPow(|lo|) == Val(su) + v
    requires su == [] ==> v == 0
    ensures cy == 0 ==> Normal(lo)
    ensures cy == 1 ==> Val(lo + [1]) == Val(su) + v
  {
    hide Val, BPow;
    ValAppend(lo, 1);
    if su != [] && cy == 0 {
      NormalBound(su);
      NormalByBound(lo);
    }
  }

  /** mpn_cmp4 on normalised magnitudes. */
  method CmpMag(a: Mpz, b: Mpz) returns (c: int)
    requires a.Valid() && b.Valid()
    ensures c == Sign(a.Mag() - b.Mag())
  {
    hide Val, BPow;
    var an, bn := Abs(a.size), Abs(b.size);
    if an != bn {
      LongerLarger(a.d[..an], b.d[..bn]);
      return if an < bn then -1 else 1;
    }
    c := Cmp(a.d, b.d, an);
  }

  lemma LongerLarger(s: seq<Limb>, t: seq<Limb>)
    requires Normal(s) && Normal(t)
    ensures |s| < |t| ==> Val(s) < Val(t)
    ensures |s| > |t| ==> Val(s) > Val(t)
  {
    hide Val, BPow;
    ValBound(s); ValBound(t);
    if |s| < |t| { NormalBound(t); BPowMono(|s|, |t| - 1); }
    if |s| > |t| { NormalBound(s); BPowMono(|t|, |s| - 1); }
  }

  lemma {:induction false} BPowMono(m: nat, n: nat)
    requires m <= n
    ensures BPow(m) <= BPow(n)
  {
    if m < n { BPowMono(m, n - 1); }
  }

  /** mpz_abs_sub: ||a| - |b|| into r's limbs, with the sign of |a| - |b| on the returned size. */
  method AbsSub(r: Mpz, a: Mpz, b: Mpz) returns (rn: int)
    requires a.Valid() && b.Valid() && Own(r, a) && Own(r, b)
    modifies r`d, r.d
    ensures Abs(rn) <= r.d.Length && Normal(r.d[..Abs(rn)])
    ensures (if rn < 0 then 0 - Val(r.d[..Abs(rn)]) else Val(r.d[..Abs(rn)])) == old(a.Mag()) - old(b.Mag())
    ensures r.d == old(r.d) || fresh(r.d)
  {
    hide Val, BPow;
    var cmp := CmpMag(a, b);
    if cmp > 0 {
      rn := AbsSubOrdered(r, a, b);
    } else if cmp < 0 {
      rn := AbsSubOrdered(r, b, a);
      rn := -rn;
    } else {
      rn := 0;
      ValNil(r.d[..]);
      assert r.d[..0] == [];
    }
  }

  method AbsSubOrdered(r: Mpz, a: Mpz, b: Mpz) returns (rn: nat)
    requires a.Valid() && b.Valid() && Own(r, a) && Own(r, b) && a.Mag() > b.Mag()
    modifies r`d, r.d
    ensures rn <= r.d.Length && Normal(r.d[..rn]) && Val(r.d[..rn]) == old(a.Mag()) - old(b.Mag())
    ensures rn > 0
    ensures r.d == old(r.d) || fresh(r.d)
  {
    hide Val, BPow;
    var an, bn := Abs(a.size), Abs(b.size);
    ghost var sa, sb := a.d[..an], b.d[..bn];
    LongerLarger(sa, sb);
    r.Realloc(an);
    assert a.d[..an] == sa && b.d[..bn] == sb;
    var cy := Sub(r.d, a.d, an, b.d, bn);
    ValBound(r.d[..an]);
    NoCarry(cy, BPow(an), Val(r.d[..an]), Val(sa) - Val(sb));
    assert cy == 0;
    rn := NormalizedSize(r.d, an);
    NormalZero(r.d[..rn]);
  }

  lemma NoCarry(cy: Limb, p: int, v: int, x: int)
    requires v - cy * p == x && 0 <= x && v < p && 0 < p
    ensures cy == 0 && v == x
  {
    if cy > 0 { MulMono(1, cy, p); }
  }

  /** mpz_add */
  method MpzAdd(r: Mpz, a: Mpz, b: Mpz)
    requires a.Valid() && b.Valid() && Own(r, a) && Own(r, b)
    modifies r, r.d
    ensures r.Valid() && r.Value() == old(a.Value()) + old(b.Value())
    ensures r.d == old(r.d) || fresh(r.d)
  {
    hide Val;
    var neg, rn := a.size < 0, 0;
    ghost var na := NonzeroMag(a);
    if (a.size < 0) == (b.size < 0) {
      rn := AbsAdd(r, a, b);
      NormalZero(r.d[..rn]);
    } else {
      rn := AbsSub(r, a, b);
      NormalZero(r.d[..Abs(rn)]);
    }
    r.size := if neg then -rn else rn;
  }

  /** mpz_sub */
  method MpzSub(r: Mpz, a: Mpz, b: Mpz)
    requires a.Valid() && b.Valid() && Own(r, a) && Own(r, b)
    modifies r, r.d
    ensures r.Valid() && r.Value() == old(a.Value()) - old(b.Value())
    ensures r.d == old(r.d) || fresh(r.d)
  {
    hide Val;
    var neg, rn := a.size < 0, 0;
    ghost var na := NonzeroMag(a);
    if (a.size < 0) == (b.size < 0) {
      rn := AbsSub(r, a, b);
      NormalZero(r.d[..Abs(rn)]);
    } else {
      rn := AbsAdd(r, a, b);
      NormalZero(r.d[..rn]);
    }
    r.size := if neg then -rn else rn;
  }

  /** The sign of the size field is the sign of the value. */
  lemma NonzeroMag(a: Mpz) returns (m: nat)
    requires a.Valid()
    ensures m == a.Mag() && (m == 0 <==> a.size == 0) && Sign(a.Value()) == Sign(a.size)
  {
    NormalZero(a.d[..Abs(a.size)]);
    m := a.Mag();
  }

  /** mpz_set_ui */
  method SetUi(r: Mpz, x: Limb)
    modifies r, r.d
    ensures r.Valid() && r.Value() == x
    ensures r.d == old(r.d) || fresh(r.d)
  {
    if x > 0 {
      r.size := 1;
      r.Realloc(1);
      r.d[0] := x;
      assert r.d[..1] == [x];
      ValOne(x);
    } else {
      SetZero(r);
    }
  }

  method SetZero(r: Mpz)
    modifies r`size
    ensures r.Valid() && r.Value() == 0
  {
    r.size := 0;
    assert r.d[..0] == [];
  }

  /** mpz_set */
  method Set(r: Mpz, x: Mpz)
    requires x.Valid() && Own(r, x)
    modifies r, r.d
    ensures r.Valid() && r.Value() == old(x.Value())
    ensures r.d == old(r.d) || fresh(r.d)
  {
    hide Val, Normal;
    if r != x {
      var n := Abs(x.size);
      r.Realloc(n);
      CopyI(r.d, 0, x.d, 0, n);
      assert r.d[..n] == r.d[0..0 + n] == x.d[0..0 + n] == x.d[..n];
      r.size := x.size;
    }
  }

  /** mpz_swap */
  method MpzSwap(a: Mpz, b: Mpz)
    requires b.Valid() && a != b
    modifies a, b
    ensures a.Valid() && a.Value() == old(b.Value()) && a.d == old(b.d) && a.size == old(b.size)
    ensures b.d == old(a.d) && b.size == old(a.size)
  {
    a.size, b.size := b.size, a.size;
    a.d, b.d := b.d, a.d;
  }

  /** mpz_neg */
  method MpzNeg(r: Mpz, x: Mpz)
    requires x.Valid() && Own(r, x)
    modifies r, r.d
    ensures r.Valid() && r.Value() == -old(x.Value())
    ensures r.d == old(r.d) || fresh(r.d)
  {
    Set(r, x);
    r.size := -r.size;
    NormalZero(r.d[..Abs(r.size)]);
  }

  /** mpz_abs_add_ui */
  method AbsAddUi(r: Mpz, a: Mpz, b: Limb) returns (rn: nat)
    requires a.Valid() && Own(r, a)
    modifies r`d, r.d
    ensures rn <= r.d.Length && Normal(r.d[..rn]) && Val(r.d[..rn]) == old(a.Mag()) + b
    ensures r.d == old(r.d) || fresh(r.d)
  {
    hide Val, BPow;
    var an := Abs(a.size);
    ghost var sa := a.d[..an];
    if an == 0 {
      r.Realloc(1);
      r.d[0] := b;
      rn := if b > 0 then 1 else 0;
      assert r.d[..1] == [b] && r.d[..0] == [] && sa == [];
      ValOne(b);
      ValNil(sa);
      return;
    }
    r.Realloc(an + 1);
    assert a.d[..an] == sa;
    rn := AddLimb(r.d, a.d, an, b);
  }

  method AddLimb(rp: array<Limb>, ap: array<Limb>, an: nat, b: Limb) returns (rn: nat)
    requires 0 < an <= ap.Length && an + 1 <= rp.Length && Normal(ap[..an])
    modifies rp
    ensures rn <= rp.Length && Normal(rp[..rn]) && Val(rp[..rn]) == old(Val(ap[..an])) + b
  {
    hide Val, BPow;
    ghost var sa := ap[..an];
    assert ap[0..0 + an] == sa;
    var cy := Add1(rp, 0, ap, 0, an, b);
    ghost var lo := rp[0..0 + an];
    rp[an] := cy;
    rn := an + cy;
    SumSize(lo, sa, b, cy);
    assert rp[..an] == lo;
    if cy == 1 { assert rp[..rn] == lo + [1]; }
  }

  /** mpz_abs_sub_ui: |a| - b, with its sign on the returned size. */
  method AbsSubUi(r: Mpz, a: Mpz, b: Limb) returns (rn: int)
    requires a.Valid() && Own(r, a)
    modifies r`d, r.d
    ensures Abs(rn) <= r.d.Length && Normal(r.d[..Abs(rn)])
    ensures (if rn < 0 then 0 - Val(r.d[..Abs(rn)]) else Val(r.d[..Abs(rn)])) == old(a.Mag()) - b
    ensures r.d == old(r.d) || fresh(r.d)
  {
    hide Val, BPow;
    var an := Abs(a.size);
    ghost var sa := a.d[..an];
    ValNil(sa);
    if an == 0 {
      r.Realloc(1);
      r.d[0] := b;
      rn := if b > 0 then -1 else 0;
      assert r.d[..1] == [b] && r.d[..0] == [] && sa == [];
      ValOne(b);
      return;
    }
    r.Realloc(an);
    assert a.d[..an] == sa;
    if an == 1 && a.d[0] < b {
      assert sa == [a.d[0]];
      ValOne(a.d[0]); ValOne(b - a.d[0]);
      r.d[0] := b - a.d[0];
      rn := -1;
      assert r.d[..1] == [b - sa[0]];
    } else {
      assert a.d[0..0 + an] == sa;
      var cy := Sub1(r.d, 0, a.d, 0, an, b);
      assert r.d[..an] == r.d[0..0 + an];
      ValBound(r.d[..an]);
      AtLeast(sa, b);
      NoCarry(cy, BPow(an), Val(r.d[..an]), Val(sa) - b);
      assert cy == 0;
      rn := NormalizedSize(r.d, an);
    }
  }

  lemma AtLeast(s: seq<Limb>, b: Limb)
    requires s != [] && Normal(s) && (|s| == 1 ==> s[0] >= b)
    ensures Val(s) >= b
  {
    if |s| == 1 {
      assert s == [s[0]];
      ValOne(s[0]);
    } else {
      NormalBound(s);
      BPowMono(1, |s| - 1);
      ValOne(b);
    }
  }

  /** mpz_add_ui */
  method AddUi(r: Mpz, a: Mpz, b: Limb)
    requires a.Valid() && Own(r, a)
    modifies r, r.d
    ensures r.Valid() && r.Value() == old(a.Value()) + b
    ensures r.d == old(r.d) || fresh(r.d)
  {
    hide Val;
    if a.size >= 0 {
      var rn := AbsAddUi(r, a, b);
      r.size := rn;
    } else {
      var rn := AbsSubUi(r, a, b);
      NormalZero(r.d[..Abs(rn)]);
      r.size := -rn;
    }
  }

  /** mpz_sub_ui */
  method SubUi(r: Mpz, a: Mpz, b: Limb)
    requires a.Valid() && Own(r, a)
    modifies r, r.d
    ensures r.Valid() && r.Value() == old(a.Value()) - b
    ensures r.d == old(r.d) || fresh(r.d)
  {
    hide Val;
    ghost var m := NonzeroMag(a);
    if a.size < 0 {
      var rn := AbsAddUi(r, a, b);
      NormalZero(r.d[..rn]);
      r.size := -(rn as int);
    } else {
      var rn := AbsSubUi(r, a, b);
      r.size := rn;
    }
  }

  /** mpz_mul: the product is built in a fresh buffer, so any aliasing is allowed. */
  method MpzMul(r: Mpz, u: Mpz, v: Mpz)
    requires u.Valid() && v.Valid()
    modifies r
    ensures r.Valid() && r.Value() == old(u.Value()) * old(v.Value())
    ensures r.d == old(r.d) || fresh(r.d)
  {
    hide Val, BPow, Normal;
    ghost var mu := NonzeroMag(u);
    ghost var mv := NonzeroMag(v);
    if u.size == 0 || v.size == 0 {
      SetZero(r);
      return;
    }
    var neg := (u.size < 0) != (v.size < 0);
    var tp, rn;
    if Abs(u.size) >= Abs(v.size) {
      tp, rn := MulMag(u, v);
    } else {
      tp, rn := MulMag(v, u);
    }
    SignedProduct(mu, mv);
    r.d := tp;
    r.size := if neg then -(rn as int) else rn;
  }

  lemma SignedProduct(x: nat, y: nat)
    ensures (0 - x) * y == x * (0 - y) == 0 - x * y && (0 - x) * (0 - y) == x * y == y * x
  {
  }

  method MulMag(u: Mpz, v: Mpz) returns (tp: array<Limb>, rn: nat)
    requires u.Valid() && v.Valid() && Abs(u.size) >= Abs(v.size) >= 1
    ensures fresh(tp) && rn <= tp.Length && Normal(tp[..rn]) && Val(tp[..rn]) == u.Mag() * v.Mag()
    ensures rn > 0
  {
    hide Val, BPow;
    var un, vn := Abs(u.size), Abs(v.size);
    tp := new Limb[un + vn];
    var top := Mul(tp, u.d, un, v.d, vn);
    rn := un + vn;
    ProductSize(tp[..rn], u.d[..un], v.d[..vn]);
    if tp[rn - 1] == 0 {
      assert tp[..rn][..rn - 1] == tp[..rn - 1];
      rn := rn - 1;
    }
  }

  /** The product of normalised numbers has at most one zero limb on top. */
  lemma ProductSize(t: seq<Limb>, u: seq<Limb>, v: seq<Limb>)
    requires |t| == |u| + |v| && u != [] && v != [] && Normal(u) && Normal(v) && Val(t) == Val(u) * Val(v)
    ensures t[|t| - 1] == 0 ==> Val(t[..|t| - 1]) == Val(t) && Normal(t[..|t| - 1])
  {
    hide Val, BPow, Normal;
    var n := |t|;
    ProductAtLeast(u, v);
    ValTake(t, n - 1);
    assert t[..n] == t;
    if t[n - 1] == 0 { NormalByBound(t[..n - 1]); }
  }

  lemma ProductAtLeast(u: seq<Limb>, v: seq<Limb>)
    requires u != [] && v != [] && Normal(u) && Normal(v)
    ensures Val(u) * Val(v) >= BPow(|u| + |v| - 2)
  {
    hide Val, BPow;
    NormalBound(u); NormalBound(v);
    BPowAdd(|u| - 1, |v| - 1);
    ProductBound(Val(u), Val(v), BPow(|u| - 1), BPow(|v| - 1));
  }

  lemma ProductBound(x: int, y: int, p: int, q: int)
    requires 0 <= p <= x && 0 <= q <= y
    ensures p * q <= x * y
  {
    MulMono(p, x, q);
    MulMono(q, y, x);
  }
}
