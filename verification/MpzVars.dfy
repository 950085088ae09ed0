/**
 The mpz_t variables that a function works on, numbered.  Two parameters that are
 the same variable have the same number, so outputs may be inputs; the variables
 that a function initialises for itself come behind those of its caller.
 */
module MpzVars {
  import opened Arith
  import opened Limbs
  import opened MpnShift
  import opened MpnDivQr
  import opened MpzCore
  import opened MpzDiv
  import opened MpzDivFast
  import opened MpzBits
  import opened MpzMore

  ghost predicate Holds(m: Mpz, v: int)
    reads m, m.d
  {
    m.Valid() && m.Value() == v
  }

  /** Writing an output that may be null, which is variable -1. */
  ghost function Put(w: seq<int>, i: int, v: int): (r: seq<int>)
    requires -1 <= i < |w|
  {
    if i < 0 then w else w[i := v]
  }

  class Vars {
    var regs: seq<Mpz>
    ghost var vals: seq<int>
    ghost var repr: set<object>

    /** Variables and their limbs are different, and part of repr. */
    ghost predicate Shape()
      reads this, repr
    {
      && this in repr && |vals| == |regs|
      && (forall i :: 0 <= i < |regs| ==> regs[i] in repr && regs[i].d in repr)
      && (forall i :: 0 <= i < |regs| ==> regs[i] as object != this && regs[i].d as object != this)
      && (forall i, j :: 0 <= i < j < |regs| ==> regs[i] != regs[j] && regs[i].d != regs[j].d)
    }

    /** Each variable holds its value, except those in open. */
    ghost predicate Held(open: set<int>)
      requires Shape()
      reads this, repr
    {
      forall i :: 0 <= i < |regs| && i !in open ==> Holds(regs[i], vals[i])
    }

    ghost predicate Valid()
      reads this, repr
      ensures Valid() ==> this in repr
    {
      Shape() && Held({})
    }

    constructor ()
      ensures Valid() && vals == [] && fresh(repr)
    {
      regs, vals, repr := [], [], {};
      new;
      repr := {this};
    }

    /** The bookkeeping after variable r has been given the value v. */
    ghost method Renew(r: nat, v: int)
      requires this in repr && |vals| == |regs| && r < |regs|
      requires forall i :: 0 <= i < |regs| ==> regs[i] in repr && (i != r ==> regs[i].d in repr)
      requires forall i :: 0 <= i < |regs| ==> regs[i] as object != this && regs[i].d as object != this
      requires forall i, j :: 0 <= i < j < |regs| ==> regs[i] != regs[j] && regs[i].d != regs[j].d
      requires forall i :: 0 <= i < |regs| && i != r ==> Holds(regs[i], vals[i])
      requires Holds(regs[r], v)
      modifies this`vals, this`repr
      ensures Valid() && vals == old(vals)[r := v] && repr == old(repr) + {regs[r].d}
    {
      hide Holds;
      vals := vals[r := v];
      repr := repr + {regs[r].d};
    }

    /** The same after two variables have been given values. */
    ghost method RenewTwo(q: nat, r: nat, x: int, y: int)
      requires this in repr && |vals| == |regs| && q < |regs| && r < |regs| && q != r
      requires forall i :: 0 <= i < |regs| ==> regs[i] in repr && (i != q && i != r ==> regs[i].d in repr)
      requires forall i :: 0 <= i < |regs| ==> regs[i] as object != this && regs[i].d as object != this
      requires forall i, j :: 0 <= i < j < |regs| ==> regs[i] != regs[j] && regs[i].d != regs[j].d
      requires forall i :: 0 <= i < |regs| && i != q && i != r ==> Holds(regs[i], vals[i])
      requires Holds(regs[q], x) && Holds(regs[r], y)
      modifies this`vals, this`repr
      ensures Valid() && vals == old(vals)[q := x][r := y] && repr == old(repr) + {regs[q].d, regs[r].d}
    {
      hide Holds;
      vals := vals[q := x][r := y];
      repr := repr + {regs[q].d, regs[r].d};
    }

    /** mpz_init: a new variable, behind the others. */
    method Init() returns (r: nat)
      requires Valid()
      modifies repr
      ensures Valid() && fresh(repr - old(repr)) && r == old(|vals|) && vals == old(vals) + [0]
    {
      var m := new Mpz();
      assert Holds(m, 0);
      hide Holds;
      r := |regs|;
      regs, vals, repr := regs + [m], vals + [0], repr + {m, m.d};
    }

    /** mpz_clear: the last variables are gone. */
    method Clear(n: nat)
      requires Valid() && n <= |vals|
      modifies repr
      ensures Valid() && fresh(repr - old(repr)) && vals == old(vals)[..n]
    {
      hide Holds;
      regs, vals := regs[..n], vals[..n];
    }

    /** mpz_set_ui */
    method SetLimb(r: nat, x: Limb)
      requires Valid() && r < |vals|
      modifies repr
      ensures Valid() && fresh(repr - old(repr)) && regs == old(regs)
      ensures vals == old(vals)[r := x]
    {
      hide Val, Normal, Mpz.Value, Mpz.Mag;
      ghost var v := x;
      SetUi(regs[r], x);
      hide Holds;
      Renew(r, v);
    }

    /** mpz_set_si, of a sign */
    method SetSign(r: nat, x: int)
      requires Valid() && r < |vals|
      requires -1 <= x <= 1
      modifies repr
      ensures Valid() && fresh(repr - old(repr)) && regs == old(regs)
      ensures vals == old(vals)[r := x]
    {
      hide Val, Normal, Mpz.Value, Mpz.Mag;
      ghost var v := x;
      SetSigned(regs[r], Abs(x), x < 0);
      hide Holds;
      Renew(r, v);
    }

    /** mpz_set */
    method Copy(r: nat, a: nat)
      requires Valid() && r < |vals| && a < |vals|
      modifies repr
      ensures Valid() && fresh(repr - old(repr)) && regs == old(regs)
      ensures vals == old(vals)[r := old(vals)[a]]
    {
      hide Val, Normal, Mpz.Value, Mpz.Mag;
      ghost var v := vals[a];
      Set(regs[r], regs[a]);
      hide Holds;
      Renew(r, v);
    }

    /** mpz_abs */
    method SetAbs(r: nat, a: nat)
      requires Valid() && r < |vals| && a < |vals|
      modifies repr
      ensures Valid() && fresh(repr - old(repr)) && regs == old(regs)
      ensures vals == old(vals)[r := Abs(old(vals)[a])]
    {
      hide Val, Normal, Mpz.Value, Mpz.Mag;
      ghost var v := Abs(vals[a]);
      MpzAbs(regs[r], regs[a]);
      hide Holds;
      Renew(r, v);
    }

    /** mpz_neg */
    method Neg(r: nat, a: nat)
      requires Valid() && r < |vals| && a < |vals|
      modifies repr
      ensures Valid() && fresh(repr - old(repr)) && regs == old(regs)
      ensures vals == old(vals)[r := 0 - old(vals)[a]]
    {
      hide Val, Normal, Mpz.Value, Mpz.Mag;
      ghost var v := 0 - vals[a];
      MpzNeg(regs[r], regs[a]);
      hide Holds;
      Renew(r, v);
    }

    /** mpz_add */
    method Add(r: nat, a: nat, b: nat)
      requires Valid() && r < |vals| && a < |vals| && b < |vals|
      modifies repr
      ensures Valid() && fresh(repr - old(repr)) && regs == old(regs)
      ensures vals == old(vals)[r := old(vals)[a] + old(vals)[b]]
    {
      hide Val, Normal, Mpz.Value, Mpz.Mag;
      ghost var v := vals[a] + vals[b];
      MpzAdd(regs[r], regs[a], regs[b]);
      hide Holds;
      Renew(r, v);
    }

    /** mpz_sub */
    method Sub(r: nat, a: nat, b: nat)
      requires Valid() && r < |vals| && a < |vals| && b < |vals|
      modifies repr
      ensures Valid() && fresh(repr - old(repr)) && regs == old(regs)
      ensures vals == old(vals)[r := old(vals)[a] - old(vals)[b]]
    {
      hide Val, Normal, Mpz.Value, Mpz.Mag;
      ghost var v := vals[a] - vals[b];
      MpzSub(regs[r], regs[a], regs[b]);
      hide Holds;
      Renew(r, v);
    }

    /** mpz_abs_sub_ui, with the size stored */
    method AbsSubLimb(r: nat, a: nat, x: Limb)
      requires Valid() && r < |vals| && a < |vals|
      modifies repr
      ensures Valid() && fresh(repr - old(repr)) && regs == old(regs)
      ensures vals == old(vals)[r := Abs(old(vals)[a]) - x]
    {
      hide Val, Normal;
      ghost var v := Abs(vals[a]) - x;
      regs[r].size := AbsSubUi(regs[r], regs[a], x);
      hide Holds;
      Renew(r, v);
    }

    /** mpz_mul */
    method Mul(r: nat, a: nat, b: nat)
      requires Valid() && r < |vals| && a < |vals| && b < |vals|
      modifies repr
      ensures Valid() && fresh(repr - old(repr)) && regs == old(regs)
      ensures vals == old(vals)[r := old(vals)[a] * old(vals)[b]]
    {
      hide Val, Normal, Mpz.Value, Mpz.Mag;
      ghost var v := vals[a] * vals[b];
      MpzMul(regs[r], regs[a], regs[b]);
      hide Holds;
      Renew(r, v);
    }

    /** mpz_mul_ui */
    method MulLimb(r: nat, a: nat, x: Limb)
      requires Valid() && r < |vals| && a < |vals|
      modifies repr
      ensures Valid() && fresh(repr - old(repr)) && regs == old(regs)
      ensures vals == old(vals)[r := old(vals)[a] * x]
    {
      hide Val, Normal, Mpz.Value, Mpz.Mag;
      ghost var v := vals[a] * x;
      MpzMulUi(regs[r], regs[a], x);
      hide Holds;
      Renew(r, v);
    }

    /** mpz_mul_2exp */
    method Mul2exp(r: nat, a: nat, bits: nat)
      requires Valid() && r < |vals| && a < |vals|
      modifies repr
      ensures Valid() && fresh(repr - old(repr)) && regs == old(regs)
      ensures vals == old(vals)[r := old(vals)[a] * Pow2(bits)]
    {
      hide Val, Normal, Mpz.Value, Mpz.Mag, Pow2;
      ghost var v := vals[a] * Pow2(bits);
      MpzMul2exp(regs[r], regs[a], bits);
      hide Holds;
      Renew(r, v);
    }

    /** mpz_tdiv_q_2exp */
    method Div2exp(r: nat, a: nat, bits: nat)
      requires Valid() && r < |vals| && a < |vals|
      modifies repr
      ensures Valid() && fresh(repr - old(repr)) && regs == old(regs)
      ensures vals == old(vals)[r := Quo(Trunc, old(vals)[a], Pow2(bits))]
    {
      hide Val, Normal, Mpz.Value, Mpz.Mag, Pow2, Quo;
      ghost var v := Quo(Trunc, vals[a], Pow2(bits));
      DivQ2exp(regs[r], regs[a], bits, Trunc);
      hide Holds;
      Renew(r, v);
    }

    /** mpz_tdiv_q */
    method DivQ(r: nat, a: nat, b: nat)
      requires Valid() && r < |vals| && a < |vals| && b < |vals|
      requires vals[b] != 0
      modifies repr
      ensures Valid() && fresh(repr - old(repr)) && regs == old(regs)
      ensures vals == old(vals)[r := Quo(Trunc, old(vals)[a], old(vals)[b])]
    {
      hide Val, Normal, Mpz.Value, Mpz.Mag, Quo, Rem;
      ghost var v := Quo(Trunc, vals[a], vals[b]);
      var res := MpzDivQr(regs[r], null, regs[a], regs[b], Trunc);
      hide Holds;
      Renew(r, v);
    }

    /** mpz_tdiv_r */
    method DivR(r: nat, a: nat, b: nat)
      requires Valid() && r < |vals| && a < |vals| && b < |vals|
      requires vals[b] != 0
      modifies repr
      ensures Valid() && fresh(repr - old(repr)) && regs == old(regs)
      ensures vals == old(vals)[r := Rem(Trunc, old(vals)[a], old(vals)[b])]
    {
      hide Val, Normal, Mpz.Value, Mpz.Mag, Quo, Rem;
      ghost var v := Rem(Trunc, vals[a], vals[b]);
      var res := MpzDivQr(null, regs[r], regs[a], regs[b], Trunc);
      hide Holds;
      Renew(r, v);
    }

    /** mpz_tdiv_q_ui */
    method DivQLimb(r: nat, a: nat, x: Limb)
      requires Valid() && r < |vals| && a < |vals|
      requires x > 0
      modifies repr
      ensures Valid() && fresh(repr - old(repr)) && regs == old(regs)
      ensures vals == old(vals)[r := Quo(Trunc, old(vals)[a], x)]
    {
      hide Val, Normal, Mpz.Value, Mpz.Mag, Quo, Rem;
      ghost var v := Quo(Trunc, vals[a], x);
      var l := DivQrUi(regs[r], null, regs[a], x, Trunc);
      hide Holds;
      Renew(r, v);
    }

    /** mpz_divexact, which asserts that nothing remains */
    method DivExact(r: nat, a: nat, b: nat)
      requires Valid() && r < |vals| && a < |vals| && b < |vals|
      requires vals[b] != 0 && vals[a] % vals[b] == 0
      modifies repr
      ensures Valid() && fresh(repr - old(repr)) && regs == old(regs)
      ensures vals == old(vals)[r := old(vals)[a] / old(vals)[b]]
    {
      hide Val, Normal, Mpz.Value, Mpz.Mag, Quo, Rem;
      ExactQuo(vals[a], vals[b]);
      ghost var v := vals[a] / vals[b];
      var res := MpzDivQr(regs[r], null, regs[a], regs[b], Trunc);
      assert !res.inexact;
      hide Holds;
      Renew(r, v);
    }

    /** mpz_divexact_ui, which asserts that nothing remains */
    method DivExactLimb(r: nat, a: nat, x: Limb)
      requires Valid() && r < |vals| && a < |vals| && x > 0 && vals[a] % x == 0
      modifies repr
      ensures Valid() && fresh(repr - old(repr)) && regs == old(regs)
      ensures vals == old(vals)[r := old(vals)[a] / x]
    {
      hide Val, Normal, Mpz.Value, Mpz.Mag, Quo, Rem;
      ExactQuo(vals[a], x);
      ghost var v := vals[a] / x;
      var l := DivQrUi(regs[r], null, regs[a], x, Trunc);
      assert l == 0;
      hide Holds;
      Renew(r, v);
    }

    /** mpz_setbit, of a variable that is zero */
    method SetPower(r: nat, i: nat)
      requires Valid() && r < |vals| && vals[r] == 0
      modifies repr
      ensures Valid() && fresh(repr - old(repr)) && regs == old(regs)
      ensures vals == old(vals)[r := Pow2(i)]
    {
      hide Pow2;
      TBitSign(0, i);
      SetBit(regs[r], i);
      hide Holds;
      Renew(r, Pow2(i));
    }

    /** mpz_tdiv_qr */
    method DivQR(q: nat, r: nat, a: nat, b: nat)
      requires Valid() && q < |vals| && r < |vals| && a < |vals| && b < |vals| && q != r && vals[b] != 0
      modifies repr
      ensures Valid() && fresh(repr - old(repr)) && regs == old(regs)
      ensures vals == old(vals)[q := old(Quo(Trunc, vals[a], vals[b]))][r := old(Rem(Trunc, vals[a], vals[b]))]
    {
      hide Val, Normal, Mpz.Value, Mpz.Mag, Quo, Rem;
      ghost var x, y := Quo(Trunc, vals[a], vals[b]), Rem(Trunc, vals[a], vals[b]);
      var res := MpzDivQr(regs[q], regs[r], regs[a], regs[b], Trunc);
      hide Holds;
      RenewTwo(q, r, x, y);
    }

    /** mpz_swap */
    method Swap(a: nat, b: nat)
      requires Valid() && a < |vals| && b < |vals| && a != b
      modifies repr
      ensures Valid() && fresh(repr - old(repr)) && regs == old(regs)
      ensures vals == old(vals)[a := old(vals)[b]][b := old(vals)[a]]
    {
      ghost var x, y := vals[b], vals[a];
      MpzSwap(regs[a], regs[b]);
      hide Holds;
      RenewTwo(a, b, x, y);
    }

    /** mpz_make_odd */
    method MakeOdd(r: nat) returns (shift: nat)
      requires Valid() && r < |vals| && vals[r] > 0
      modifies repr
      ensures Valid() && fresh(repr - old(repr)) && regs == old(regs) && |vals| == old(|vals|)
      ensures vals == old(vals)[r := vals[r]] && 0 < vals[r] <= old(vals)[r] && vals[r] % 2 == 1
      ensures old(vals)[r] == vals[r] * Pow2(shift)
    {
      hide Pow2, Twos, Quo, Val, Normal;
      shift := ScanOne(regs[r].d, Abs(regs[r].size));
      OddPart(vals[r]);
      Div2exp(r, r, shift);
    }

    /** mpz_scan1 from bit 0, of a positive number */
    method Scan1(a: nat) returns (shift: nat)
      requires Valid() && a < |vals| && vals[a] > 0
      ensures shift == Twos(vals[a])
    {
      hide Twos, Val, Normal;
      shift := ScanOne(regs[a].d, Abs(regs[a].size));
    }

    /** mpz_sgn, also written as a test of _mp_size */
    method Sgn(a: nat) returns (s: int)
      requires Valid() && a < |vals|
      ensures s == Sign(vals[a])
    {
      ghost var m := NonzeroMag(regs[a]);
      s := Sign(regs[a].size);
    }

    /** |_mp_size| */
    method SizeOf(a: nat) returns (n: nat)
      requires Valid() && a < |vals|
      ensures n == Size(Abs(vals[a]))
    {
      n := Abs(regs[a].size);
      SizeIs(regs[a].d[..n]);
    }

    /** mpz_cmp */
    method Cmp(a: nat, b: nat) returns (c: int)
      requires Valid() && a < |vals| && b < |vals|
      ensures c == Sign(vals[a] - vals[b])
    {
      c := MpzCmp(regs[a], regs[b]);
    }

    /** mpz_cmpabs */
    method CmpAbs(a: nat, b: nat) returns (c: int)
      requires Valid() && a < |vals| && b < |vals|
      ensures c == Sign(Abs(vals[a]) - Abs(vals[b]))
    {
      c := CmpMag(regs[a], regs[b]);
    }

    /** mpz_cmpabs_ui */
    method CmpAbsLimb(a: nat, x: Limb) returns (c: int)
      requires Valid() && a < |vals|
      ensures c == Sign(Abs(vals[a]) - x)
    {
      c := MpzCmpAbsUi(regs[a], x);
    }

    /** mpz_cmp_ui */
    method CmpLimb(a: nat, x: Limb) returns (c: int)
      requires Valid() && a < |vals|
      ensures c == Sign(vals[a] - x)
    {
      ghost var m := NonzeroMag(regs[a]);
      if regs[a].size < 0 { return -1; }
      c := MpzCmpAbsUi(regs[a], x);
    }

    /** Limb i of the magnitude. */
    method LimbOf(a: nat, i: nat) returns (l: Limb)
      requires Valid() && a < |vals| && i < Size(Abs(vals[a]))
      ensures l == Abs(vals[a]) / BPow(i) % B
    {
      hide Size;
      SizeIs(regs[a].d[..Abs(regs[a].size)]);
      l := regs[a].d[i];
      LimbAt(regs[a].d[..Abs(regs[a].size)], i);
    }

    /** mpz_odd_p */
    method Odd(a: nat) returns (odd: bool)
      requires Valid() && a < |vals|
      ensures odd <==> vals[a] % 2 == 1
    {
      odd := regs[a].size != 0 && regs[a].d[0] % 2 == 1;
      LowParity(regs[a]);
    }

    /** mpn_div_qr_1 on the limbs, for the remainder alone */
    method RemLimb(a: nat, x: Limb) returns (l: Limb)
      requires Valid() && a < |vals| && vals[a] != 0 && x > 0
      ensures l == Abs(vals[a]) % x
    {
      ghost var m := NonzeroMag(regs[a]);
      l := DivQr1(null, regs[a].d, Abs(regs[a].size), x);
    }

    /** mpz_tdiv_ui */
    method ModLimb(a: nat, x: Limb) returns (l: Limb)
      requires Valid() && a < |vals| && x > 0
      ensures l == Abs(vals[a]) % x
    {
      SignedTrunc(vals[a] < 0, false, Abs(vals[a]), x);
      l := DivQrUi(null, null, regs[a], x, Trunc);
    }
  }

  /** What remains when all factors two are shifted out. */
  lemma OddPart(v: int)
    requires v > 0
    ensures var p := Pow2(Twos(v));
            p > 0 && Quo(Trunc, v, p) == v / p && 0 < v / p <= v && v / p % 2 == 1 && v == v / p * p
  {
    hide Pow2, Twos;
    var p := Pow2(Twos(v));
    TwosDivide(v);
    var q := v / p;
    assert v == q * p + v % p;
    if q <= 0 { MulMono(q, 0, p); }
    MulMono(1, p, q);
    ExactQuo(v, p);
  }

  lemma ExactQuo(n: int, d: int)
    requires d != 0 && n % d == 0
    ensures Quo(Trunc, n, d) == n / d && Rem(Trunc, n, d) == 0
  {
  }

  lemma LimbAt(s: seq<Limb>, i: nat)
    requires i < |s|
    ensures Val(s) / BPow(i) % B == s[i]
  {
    hide Val, BPow;
    ValSplit(s, i);
    ValBound(s[..i]);
    DivModUnique(Val(s), BPow(i), Val(s[i..]), Val(s[..i]));
    assert s[i..] == [s[i]] + s[i + 1..];
    ValCons(s[i], s[i + 1..]);
    DivModUnique(Val(s[i..]), B, Val(s[i + 1..]), s[i]);
  }

  /** Parity of a number is that of its low limb. */
  lemma LowParity(m: Mpz)
    requires m.Valid()
    ensures m.Value() % 2 == 1 <==> m.size != 0 && m.d[0] % 2 == 1
  {
    hide Val, Normal;
    var n := Abs(m.size);
    if n == 0 {
      ValNil(m.d[..n]);
    } else {
      assert m.d[..n] == [m.d[0]] + m.d[1..n];
      ValCons(m.d[0], m.d[1..n]);
      EvenPart(m.d[0], Val(m.d[1..n]));
    }
  }

  lemma EvenPart(x: int, y: int)
    ensures (x + B * y) % 2 == x % 2 && (0 - (x + B * y)) % 2 == x % 2
  {
  }
}
