/** Signed division in the three rounding modes, on mpz_t objects that may alias. */
module MpzDiv {
  import opened Arith
  import opened Limbs
  import opened MpnShift
  import opened MpnDivQr
  import opened MpzCore

  /** enum mpz_div_round_mode */
  datatype Mode = Floor | Ceil | Trunc

  /** What a rounding mode promises of quotient and remainder. */
  ghost predicate Rounded(mode: Mode, n: int, d: int, q: int, r: int)
  {
    n == q * d + r && Abs(r) < Abs(d) &&
    match mode
    case Floor => r == 0 || (r < 0) == (d < 0)
    case Ceil => r == 0 || (r < 0) != (d < 0)
    case Trunc => r == 0 || (r < 0) == (n < 0)
  }

  /** The quotient and the remainder, from Euclidean division. */
  ghost function Quo(mode: Mode, n: int, d: int): (q: int)
    requires d != 0
  {
    if n % d == 0 then n / d
    else match mode
         case Floor => if d > 0 then n / d else n / d - 1
         case Ceil => if d > 0 then n / d + 1 else n / d
         case Trunc => if n >= 0 then n / d else if d > 0 then n / d + 1 else n / d - 1
  }

  ghost function Rem(mode: Mode, n: int, d: int): (r: int)
    requires d != 0
  {
    n - Quo(mode, n, d) * d
  }

  lemma QuoRem(mode: Mode, n: int, d: int)
    requires d != 0
    ensures Rounded(mode, n, d, Quo(mode, n, d), Rem(mode, n, d))
  {
    var e, m := n / d, n % d;
    assert n == e * d + m;
    RoundOff(mode, n, d, e * d, m, e, Quo(mode, n, d));
  }

  /** Rounding the Euclidean quotient e with remainder m. */
  lemma RoundOff(mode: Mode, n: int, d: int, p: int, m: int, e: int, q: int)
    requires d != 0 && p == e * d && n == p + m && 0 <= m < Abs(d)
    requires q == if m == 0 then e
                  else match mode
                       case Floor => if d > 0 then e else e - 1
                       case Ceil => if d > 0 then e + 1 else e
                       case Trunc => if n >= 0 then e else if d > 0 then e + 1 else e - 1
    ensures Rounded(mode, n, d, q, n - q * d)
  {
    Dist(e, 1, d);
    Dist(e, -1, d);
  }

  /** The rounding mode determines quotient and remainder. */
  lemma RoundedUnique(mode: Mode, n: int, d: int, q: int, r: int)
    requires d != 0 && Rounded(mode, n, d, q, r)
    ensures q == Quo(mode, n, d) && r == Rem(mode, n, d)
  {
    hide Quo, Rem;
    var q', r' := Quo(mode, n, d), Rem(mode, n, d);
    QuoRem(mode, n, d);
    Dist(q, -q', d);
    SmallMultiple(q - q', d, r' - r);
  }

  lemma SmallMultiple(k: int, d: int, x: int)
    requires k * d == x && Abs(x) < Abs(d)
    ensures k == 0
  {
    if d > 0 {
      if k >= 1 { MulMono(1, k, d); }
      if k <= -1 { MulMono(k, -1, d); }
    } else {
      if k >= 1 { MulMono(1, k, -d); }
      if k <= -1 { MulMono(k, -1, -d); }
    }
  }

  ghost function Rep(x: Mpz?): set<object?>
    reads x
  {
    if x == null then {} else {x, x.d}
  }

  /** Truncating division into fresh objects; the quotient only when wanted. */
  method TruncDivide(n: Mpz, d: Mpz, wantQ: bool) returns (tq: Mpz?, tr: Mpz)
    requires n.Valid() && d.Valid() && 0 < Abs(d.size) <= Abs(n.size)
    ensures fresh(tr) && fresh(tr.d) && tr.Valid() && d.Value() != 0
    ensures tr.Value() == Rem(Trunc, n.Value(), d.Value())
    ensures wantQ ==> tq != null && fresh(tq) && fresh(tq.d) && tq.d != tr.d && tq != tr && tq.Valid()
    ensures wantQ ==> tq.Value() == Quo(Trunc, n.Value(), d.Value())
  {
    hide Val, BPow, Quo, Rem, Normal, Mpz.Value, Mpz.Mag;
    var nn, dn := Abs(n.size), Abs(d.size);
    TruncValues(n, d);
    var qp, np := DivideLimbs(n, d, wantQ);
    tq := null;
    if wantQ {
      var qn := nn - dn + 1;
      QuotientSize(qp[..qn], n.d[..nn], d.d[..dn]);
      assert qp[..qn][..qn - 1] == qp[..qn - 1];
      qn := if qp[qn - 1] == 0 then qn - 1 else qn;
      tq := FromLimbs(qp, qn, (n.size < 0) != (d.size < 0));
    }
    var rn := NormalizedSize(np, dn);
    tr := FromLimbs(np, rn, n.size < 0);
  }

  method DivideLimbs(n: Mpz, d: Mpz, wantQ: bool) returns (qp: array?<Limb>, np: array<Limb>)
    requires n.Valid() && d.Valid() && 0 < Abs(d.size) <= Abs(n.size)
    ensures fresh(np) && np.Length == Abs(n.size) && Val(d.d[..Abs(d.size)]) > 0
    ensures Val(np[..Abs(d.size)]) == Val(n.d[..Abs(n.size)]) % Val(d.d[..Abs(d.size)])
    ensures wantQ ==> qp != null && fresh(qp) && qp != np && qp.Length == Abs(n.size) - Abs(d.size) + 1
    ensures wantQ ==> Val(qp[..qp.Length]) == Val(n.d[..Abs(n.size)]) / Val(d.d[..Abs(d.size)])
  {
    hide Val, BPow, Normal;
    var nn, dn := Abs(n.size), Abs(d.size);
    TopNonzero(d.d[..dn]);
    np := new Limb[nn];
    CopyI(np, 0, n.d, 0, nn);
    assert np[..nn] == np[0..0 + nn] == n.d[0..0 + nn] == n.d[..nn];
    qp := null;
    if wantQ { qp := new Limb[nn - dn + 1]; }
    DivQr(qp, np, nn, d.d, dn);
  }

  lemma TruncValues(n: Mpz, d: Mpz)
    requires n.Valid() && d.Valid() && d.size != 0
    ensures var m, k := Val(n.d[..Abs(n.size)]), Val(d.d[..Abs(d.size)]);
            && k > 0 && d.Value() != 0
            && Quo(Trunc, n.Value(), d.Value()) == (if (n.size < 0) != (d.size < 0) then 0 - m / k else m / k)
            && Rem(Trunc, n.Value(), d.Value()) == (if n.size < 0 then 0 - m % k else m % k)
  {
    hide Val, Quo, Rem;
    var z := NonzeroMag(d);
    SignedTrunc(n.size < 0, d.size < 0, n.Mag(), d.Mag());
  }

  method FromLimbs(p: array<Limb>, n: nat, neg: bool) returns (x: Mpz)
    requires n <= p.Length && Normal(p[..n])
    ensures fresh(x) && x.d == p && x.Valid() && x.Value() == if neg then 0 - Val(p[..n]) else Val(p[..n])
  {
    x := new Mpz();
    x.d := p;
    x.size := if neg then -(n as int) else n;
    NormalZero(p[..n]);
  }

  /** A quotient of normalised numbers has at most one zero limb on top. */
  lemma QuotientSize(q: seq<Limb>, n: seq<Limb>, d: seq<Limb>)
    requires 0 < |d| <= |n| && |q| == |n| - |d| + 1 && Normal(n) && Normal(d)
    requires 0 < Val(d) && Val(q) == Val(n) / Val(d)
    ensures q[|q| - 1] != 0 ==> Normal(q)
    ensures q[|q| - 1] == 0 ==> Val(q[..|q| - 1]) == Val(q) && Normal(q[..|q| - 1])
  {
    hide Val, BPow;
    var k := |q| - 1;
    ValTake(q, k);
    assert q[..k + 1] == q;
    if k > 0 && q[k] == 0 {
      NormalBound(n);
      ValBound(d);
      BPowAdd(k - 1, |d|);
      QuotientLower(Val(n), Val(d), BPow(k - 1), BPow(|d|));
      NormalByBound(q[..k]);
    }
  }

  lemma QuotientLower(n: int, d: int, x: int, y: int)
    requires 0 < d <= y && 0 <= x && x * y <= n
    ensures x <= n / d
  {
    MulMono(d, y, x);
    var q := n / d;
    assert n == q * d + n % d;
    if q < x { MulMono(q + 1, x, d); Dist(q, 1, d); }
  }

  /** Truncating division of signed numbers from division of magnitudes. */
  lemma SignedTrunc(sn: bool, sd: bool, m: nat, k: nat)
    requires k > 0
    ensures var n, d := if sn then 0 - m else m, if sd then 0 - k else k;
            && Quo(Trunc, n, d) == (if sn != sd then 0 - m / k else m / k)
            && Rem(Trunc, n, d) == (if sn then 0 - m % k else m % k)
  {
    hide Quo, Rem;
    var n, d := if sn then 0 - m else m, if sd then 0 - k else k;
    var q, r := m / k, m % k;
    assert m == q * k + r;
    if r < 0 || q < 0 { MulMono(q, -1, k); }
    SignedProduct(q, k);
    RoundedUnique(Trunc, n, d, if sn != sd then 0 - q else q, if sn then 0 - r else r);
  }

  /** gmp_die, or whether there is a remainder. */
  datatype DivResult = DivideByZero | Divided(inexact: bool)

  /** mpz_div_qr.  q or r may be null; each may be the same object as n or d. */
  method MpzDivQr(q: Mpz?, r: Mpz?, n: Mpz, d: Mpz, mode: Mode) returns (res: DivResult)
    requires n.Valid() && d.Valid()
    requires q != null ==> Own(q, n) && Own(q, d) && q != r && (r != null ==> q.d != r.d)
    requires r != null ==> Own(r, n) && Own(r, d)
    modifies Rep(q), Rep(r)
    ensures res.DivideByZero? <==> old(d.Value()) == 0
    ensures res.Divided? && q != null ==> q.Valid() && q.Value() == old(Quo(mode, n.Value(), d.Value()))
    ensures res.Divided? && r != null ==> r.Valid() && r.Value() == old(Rem(mode, n.Value(), d.Value()))
    ensures res.Divided? ==> (res.inexact <==> old(Rem(mode, n.Value(), d.Value())) != 0)
    ensures q != null ==> q.d == old(q.d) || fresh(q.d)
    ensures r != null ==> (r.d == old(r.d) || fresh(r.d)) && (q != null ==> q.d != r.d)
  {
    hide Quo, Rem, Mpz.Value, Mpz.Mag, Normal;
    ghost var z := NonzeroMag(d);
    if d.size == 0 { return DivideByZero; }
    var inexact := DivideNonzero(q, r, n, d, mode);
    res := Divided(inexact);
  }

  method DivideNonzero(q: Mpz?, r: Mpz?, n: Mpz, d: Mpz, mode: Mode) returns (inexact: bool)
    requires n.Valid() && d.Valid() && d.Value() != 0
    requires q != null ==> Own(q, n) && Own(q, d) && q != r && (r != null ==> q.d != r.d)
    requires r != null ==> Own(r, n) && Own(r, d)
    modifies Rep(q), Rep(r)
    ensures q != null ==> q.Valid() && q.Value() == old(Quo(mode, n.Value(), d.Value()))
    ensures r != null ==> r.Valid() && r.Value() == old(Rem(mode, n.Value(), d.Value()))
    ensures inexact <==> old(Rem(mode, n.Value(), d.Value())) != 0
    ensures q != null ==> q.d == old(q.d) || fresh(q.d)
    ensures r != null ==> (r.d == old(r.d) || fresh(r.d)) && (q != null ==> q.d != r.d)
  {
    hide Val, BPow, Quo, Rem, Normal, Mpz.Value, Mpz.Mag;
    ghost var x, y := n.Value(), d.Value();
    ghost var z := NonzeroMag(n);
    z := NonzeroMag(d);
    var ns, ds := n.size, d.size;
    var neg := (ns < 0) != (ds < 0);
    if ns == 0 {
      ZeroNumerator(mode, y);
      if q != null { SetZero(q); }
      if r != null { SetZero(r); }
      return false;
    }
    if Abs(ns) < Abs(ds) {
      ShorterSmaller(n, d);
      SmallNumerator(mode, x, y, neg);
      DivideSmall(q, r, n, d, mode, neg);
      return true;
    }
    inexact := DivideLong(q, r, n, d, mode, neg);
  }

  /** The branch |n| has at least as many limbs as |d|: truncate, then correct by one. */
  method DivideLong(q: Mpz?, r: Mpz?, n: Mpz, d: Mpz, mode: Mode, neg: bool) returns (inexact: bool)
    requires n.Valid() && d.Valid() && 0 < Abs(d.size) <= Abs(n.size) && n.Value() != 0 && d.Value() != 0
    requires neg == ((n.Value() < 0) != (d.Value() < 0))
    requires q != null ==> Own(q, n) && Own(q, d) && q != r && (r != null ==> q.d != r.d)
    requires r != null ==> Own(r, n) && Own(r, d)
    modifies Rep(q), Rep(r)
    ensures q != null ==> q.Valid() && q.Value() == old(Quo(mode, n.Value(), d.Value()))
    ensures r != null ==> r.Valid() && r.Value() == old(Rem(mode, n.Value(), d.Value()))
    ensures inexact <==> old(Rem(mode, n.Value(), d.Value())) != 0
    ensures q != null ==> q.d == old(q.d) || fresh(q.d)
    ensures r != null ==> (r.d == old(r.d) || fresh(r.d)) && (q != null ==> q.d != r.d)
  {
    hide Val, BPow, Quo, Rem, Normal, Mpz.Value, Mpz.Mag;
    TruncToMode(mode, n.Value(), d.Value(), neg);
    var tq, tr := TruncDivide(n, d, q != null);
    inexact := tr.size != 0;
    ghost var z := NonzeroMag(tr);
    if inexact { AdjustMode(if q != null then tq else null, tr, d, mode, neg, r != null); }
    if q != null { MpzSwap(q, tq); }
    if r != null { MpzSwap(r, tr); }
  }

  lemma ShorterSmaller(a: Mpz, b: Mpz)
    requires a.Valid() && b.Valid() && Abs(a.size) < Abs(b.size)
    ensures Abs(a.Value()) < Abs(b.Value())
  {
    LongerLarger(a.d[..Abs(a.size)], b.d[..Abs(b.size)]);
  }

  /** The correction by one after truncation, on the temporaries. */
  method AdjustMode(tq: Mpz?, tr: Mpz, d: Mpz, mode: Mode, neg: bool, wantR: bool)
    requires tr.Valid() && d.Valid() && tr != d && tr.d != d.d
    requires tq != null ==> tq.Valid() && tq != tr && tq.d != tr.d && tq != d && tq.d != d.d
    modifies Rep(tq), Rep(tr)
    ensures tq != null ==> tq.Valid() && tq.Value() == old(tq.Value()) + SmallQuo(mode, neg)
    ensures tr.Valid() && (wantR ==> tr.Value() == old(tr.Value()) - SmallQuo(mode, neg) * d.Value())
    ensures tr.d == old(tr.d) || fresh(tr.d)
    ensures tq != null ==> (tq.d == old(tq.d) || fresh(tq.d)) && tq.d != tr.d
  {
    hide Val, BPow, Normal;
    if mode == Floor && neg {
      if tq != null { SubUi(tq, tq, 1); }
      if wantR { MpzAdd(tr, tr, d); }
    } else if mode == Ceil && !neg {
      if tq != null { AddUi(tq, tq, 1); }
      if wantR { MpzSub(tr, tr, d); }
    }
  }

  lemma ZeroNumerator(mode: Mode, d: int)
    requires d != 0
    ensures Quo(mode, 0, d) == 0 && Rem(mode, 0, d) == 0
  {
    RoundedUnique(mode, 0, d, 0, 0);
  }

  ghost function SmallQuo(mode: Mode, neg: bool): (q: int)
  {
    if mode == Ceil && !neg then 1 else if mode == Floor && neg then -1 else 0
  }

  lemma SmallNumerator(mode: Mode, n: int, d: int, neg: bool)
    requires 0 < Abs(n) < Abs(d) && neg == ((n < 0) != (d < 0))
    ensures Rem(mode, n, d) != 0
    ensures Quo(mode, n, d) == SmallQuo(mode, neg) && Rem(mode, n, d) == n - SmallQuo(mode, neg) * d
  {
    hide Quo, Rem;
    RoundedUnique(mode, n, d, SmallQuo(mode, neg), n - SmallQuo(mode, neg) * d);
  }

  /** Correcting a truncated quotient by one. */
  lemma TruncToMode(mode: Mode, n: int, d: int, neg: bool)
    requires d != 0 && n != 0 && neg == ((n < 0) != (d < 0))
    ensures var q, r := Quo(Trunc, n, d), Rem(Trunc, n, d);
            && (Rem(mode, n, d) == 0 <==> r == 0)
            && Quo(mode, n, d) == (if r == 0 then q else q + SmallQuo(mode, neg))
            && Rem(mode, n, d) == (if r == 0 then r else r - SmallQuo(mode, neg) * d)
  {
    hide Quo, Rem;
    var q, r, c := Quo(Trunc, n, d), Rem(Trunc, n, d), SmallQuo(mode, neg);
    QuoRem(Trunc, n, d);
    Dist(q, c, d);
    if r == 0 { RoundedUnique(mode, n, d, q, r); } else { RoundedUnique(mode, n, d, q + c, r - c * d); }
  }

  /** The branch |n| has fewer limbs than |d|. */
  method DivideSmall(q: Mpz?, r: Mpz?, n: Mpz, d: Mpz, mode: Mode, neg: bool)
    requires n.Valid() && d.Valid()
    requires q != null ==> Own(q, n) && Own(q, d) && q != r && (r != null ==> q.d != r.d)
    requires r != null ==> Own(r, n) && Own(r, d)
    modifies Rep(q), Rep(r)
    ensures q != null ==> q.Valid() && q.Value() == SmallQuo(mode, neg)
    ensures r != null ==> r.Valid() && r.Value() == old(n.Value()) - SmallQuo(mode, neg) * old(d.Value())
    ensures q != null ==> q.d == old(q.d) || fresh(q.d)
    ensures r != null ==> (r.d == old(r.d) || fresh(r.d)) && (q != null ==> q.d != r.d)
  {
    hide Val, BPow, Normal;
    if mode == Ceil && !neg {
      if r != null { MpzSub(r, n, d); }
      if q != null { SetUi(q, 1); }
    } else if mode == Floor && neg {
      if r != null { MpzAdd(r, n, d); }
      if q != null { SetUi(q, 1); MpzNeg(q, q); }
    } else {
      if r != null { Set(r, n); }
      if q != null { SetZero(q); }
    }
  }
}
