/** More mpz_t operations: products with a limb and with powers of two, comparisons, and the scan for the lowest bit. */
module MpzMore {
  import opened Arith
  import opened Limbs
  import opened MpnArith
  import opened MpnShift
  import opened MpzCore
  import opened MpzDivFast

  /** The number of limbs of a magnitude. */
  function Size(x: nat): (n: nat)
  {
    if x == 0 then 0 else 1 + Size(x / B)
  }

  lemma {:induction false} SizeBound(x: nat, n: nat)
    ensures Size(x) <= n <==> x < BPow(n)
    decreases n
  {
    if n == 0 || x == 0 {
    } else {
      SizeBound(x / B, n - 1);
      assert x == x / B * B + x % B;
    }
  }

  /** A normalised number has as many limbs as its size says. */
  lemma SizeIs(s: seq<Limb>)
    requires Normal(s)
    ensures Size(Val(s)) == |s|
  {
    hide Val, BPow, Size;
    ValBound(s);
    SizeBound(Val(s), |s|);
    if s == [] {
      ValNil(s);
      SizeBound(0, 0);
    } else {
      NormalBound(s);
      SizeBound(Val(s), |s| - 1);
    }
  }

  /** mpz_abs */
  method MpzAbs(r: Mpz, x: Mpz)
    requires x.Valid() && Own(r, x)
    modifies r, r.d
    ensures r.Valid() && r.Value() == Abs(old(x.Value()))
    ensures r.d == old(r.d) || fresh(r.d)
  {
    hide Val, Normal;
    Set(r, x);
    r.size := Abs(r.size);
  }

  /** mpz_mul_ui */
  method MpzMulUi(r: Mpz, u: Mpz, v: Limb)
    requires u.Valid() && Own(r, u)
    modifies r, r.d
    ensures r.Valid() && r.Value() == old(u.Value()) * v
    ensures r.d == old(r.d) || fresh(r.d)
  {
    hide Val, BPow, Normal;
    ghost var m := NonzeroMag(u);
    if u.size == 0 || v == 0 {
      SetZero(r);
      return;
    }
    var un, neg := Abs(u.size), u.size < 0;
    ghost var s := u.d[..un];
    r.Realloc(un + 1);
    assert u.d[0..0 + un] == s;
    var cy := Mul1(r.d, 0, u.d, 0, un, v);
    ghost var lo := r.d[0..0 + un];
    r.d[un] := cy;
    assert r.d[..un] == lo && r.d[..un + 1] == lo + [cy];
    LimbProduct(lo, s, cy, v);
    if cy > 0 { un := un + 1; }
    SignedProduct(Val(s), v);
    r.size := if neg then -(un as int) else un;
  }

  lemma LimbProduct(lo: seq<Limb>, s: seq<Limb>, cy: Limb, v: Limb)
    requires |lo| == |s| > 0 && Normal(s) && v > 0 && Val(lo) + cy * BPow(|s|) == Val(s) * v
    ensures Val(lo + [cy]) == Val(s) * v && (cy > 0 ==> Normal(lo + [cy]))
    ensures cy == 0 ==> Val(lo) == Val(s) * v && Normal(lo)
  {
    hide Val, BPow;
    ValAppend(lo, cy);
    if cy == 0 {
      NormalBound(s);
      MulMono(1, v, Val(s));
      NormalByBound(lo);
    }
  }

  /** mpn_copyd: from the top down, so that the target may lie above the source. */
  method CopyD(rp: array<Limb>, ro: nat, up: array<Limb>, uo: nat, n: nat)
    requires ro + n <= rp.Length && uo + n <= up.Length && (rp == up ==> uo <= ro || ro + n <= uo)
    modifies rp
    ensures rp[ro..ro + n] == old(up[uo..uo + n])
    ensures SameOutside(rp[..], old(rp[..]), ro, n)
  {
    ghost var src := up[uo..uo + n];
    var i := n;
    while i > 0
      invariant 0 <= i <= n
      invariant forall k :: i <= k < n ==> rp[ro + k] == src[k]
      invariant forall k :: 0 <= k < i ==> up[uo + k] == src[k]
      invariant forall k :: 0 <= k < rp.Length && !(ro <= k < ro + n) ==> rp[k] == old(rp[k])
    {
      i := i - 1;
      rp[ro + i] := up[uo + i];
    }
  }

  /** mpn_zero */
  method ZeroLow(rp: array<Limb>, n: nat)
    requires n <= rp.Length
    modifies rp
    ensures Val(rp[..n]) == 0 && rp[n..] == old(rp[n..])
  {
    hide Val, BPow;
    ValNil(rp[..]);
    assert rp[..0] == [];
    for i := 0 to n
      invariant Val(rp[..i]) == 0
      invariant forall k :: n <= k < rp.Length ==> rp[k] == old(rp[k])
    {
      ghost var t := rp[..i];
      rp[i] := 0;
      assert rp[..i + 1] == t + [0];
      ValAppend(t, 0);
    }
  }

  /** mpz_mul_2exp */
  method MpzMul2exp(r: Mpz, u: Mpz, bits: nat)
    requires u.Valid() && Own(r, u)
    modifies r, r.d
    ensures r.Valid() && r.Value() == old(u.Value()) * Pow2(bits)
    ensures r.d == old(r.d) || fresh(r.d)
  {
    hide Val, BPow, Pow2, Normal;
    ghost var m := NonzeroMag(u);
    if u.size == 0 {
      SetZero(r);
      return;
    }
    var un, neg, limbs := Abs(u.size), u.size < 0, bits / 64;
    var rn := ShiftUp(r, u, limbs, bits % 64);
    BitSplit(limbs, bits % 64);
    SignedProduct(m, Pow2(bits));
    NormalZero(r.d[..rn]);
    r.size := if neg then -(rn as int) else rn;
  }

  /** The shifted limbs, above limbs zero ones. */
  method ShiftUp(r: Mpz, u: Mpz, limbs: nat, shift: nat) returns (rn: nat)
    requires u.Valid() && Own(r, u) && u.size != 0 && shift < 64
    modifies r`d, r.d
    ensures rn <= r.d.Length && Normal(r.d[..rn]) && Val(r.d[..rn]) == old(u.Mag()) * (BPow(limbs) * Pow2(shift))
    ensures r.d == old(r.d) || fresh(r.d)
  {
    hide Val, BPow, Pow2, Normal;
    ghost var m := u.Mag();
    rn := ShiftHigh(r, u, limbs, shift);
    ghost var hi := r.d[limbs..rn];
    ghost var top := r.d[limbs..];
    assert hi == top[..rn - limbs];
    ZeroLow(r.d, limbs);
    assert r.d[..rn] == r.d[..limbs] + r.d[limbs..][..rn - limbs];
    ZeroBelow(r.d[..limbs], hi);
    Assoc(m, Pow2(shift), BPow(limbs));
  }

  lemma ZeroBelow(lo: seq<Limb>, hi: seq<Limb>)
    requires Val(lo) == 0 && Normal(hi) && hi != []
    ensures Val(lo + hi) == Val(hi) * BPow(|lo|) && Normal(lo + hi)
  {
    ValConcat(lo, hi);
  }

  method ShiftHigh(r: Mpz, u: Mpz, limbs: nat, shift: nat) returns (rn: nat)
    requires u.Valid() && Own(r, u) && u.size != 0 && shift < 64
    modifies r`d, r.d
    ensures limbs < rn <= r.d.Length && Normal(r.d[limbs..rn]) && Val(r.d[limbs..rn]) == old(u.Mag()) * Pow2(shift)
    ensures r.d == old(r.d) || fresh(r.d)
  {
    hide Val, BPow, Pow2, Normal;
    var un := Abs(u.size);
    ghost var s := u.d[..un];
    r.Realloc(un + limbs + if shift > 0 then 1 else 0);
    assert u.d[..un] == s;
    rn := HighLimbs(r.d, limbs, u.d, un, shift);
  }

  /** The limbs of u shifted up by less than a limb, from place limbs on. */
  method HighLimbs(rp: array<Limb>, limbs: nat, up: array<Limb>, un: nat, shift: nat) returns (rn: nat)
    requires 0 < un <= up.Length && Normal(up[..un]) && shift < 64
    requires un + limbs + (if shift > 0 then 1 else 0) <= rp.Length
    modifies rp
    ensures limbs < rn <= rp.Length && Normal(rp[limbs..rn])
    ensures Val(rp[limbs..rn]) == old(Val(up[..un])) * Pow2(shift)
  {
    hide Val, BPow, Pow2, Normal;
    ghost var s := up[..un];
    assert up[0..0 + un] == s;
    rn := un + limbs;
    if shift > 0 {
      var cy := Lshift(rp, limbs, up, 0, un, shift);
      ghost var lo := rp[limbs..limbs + un];
      rp[rn] := cy;
      assert rp[limbs..rn] == lo && rp[limbs..rn + 1] == lo + [cy];
      ShiftedTop(lo, s, cy, shift);
      if cy != 0 { rn := rn + 1; }
    } else {
      CopyD(rp, limbs, up, 0, un);
      assert rp[limbs..limbs + un] == s;
      UnitShift(Val(s));
    }
  }

  lemma UnitShift(v: int)
    ensures Pow2(0) == 1 && v * 1 == v
  {
  }

  lemma ShiftedTop(lo: seq<Limb>, s: seq<Limb>, cy: Limb, shift: nat)
    requires |lo| == |s| > 0 && Normal(s) && cy * BPow(|s|) + Val(lo) == Val(s) * Pow2(shift)
    ensures cy != 0 ==> Val(lo + [cy]) == Val(s) * Pow2(shift) && Normal(lo + [cy])
    ensures cy == 0 ==> Val(lo) == Val(s) * Pow2(shift) && Normal(lo)
  {
    hide Val, BPow, Pow2;
    ValAppend(lo, cy);
    if cy == 0 {
      NormalBound(s);
      MulMono(1, Pow2(shift), Val(s));
      NormalByBound(lo);
    }
  }

  /** mpz_cmp */
  method MpzCmp(a: Mpz, b: Mpz) returns (c: int)
    requires a.Valid() && b.Valid()
    ensures c == Sign(a.Value() - b.Value())
  {
    hide Val;
    ghost var x := NonzeroMag(a);
    ghost var y := NonzeroMag(b);
    if a.size != b.size {
      LongerLarger(a.d[..Abs(a.size)], b.d[..Abs(b.size)]);
      return if a.size < b.size then -1 else 1;
    }
    if a.size >= 0 {
      c := Cmp(a.d, b.d, a.size);
    } else {
      c := Cmp(b.d, a.d, -a.size);
    }
  }

  /** mpz_cmpabs_ui */
  method MpzCmpAbsUi(u: Mpz, v: Limb) returns (c: int)
    requires u.Valid()
    ensures c == Sign(u.Mag() - v)
  {
    hide Val, BPow;
    var un := Abs(u.size);
    ghost var s := u.d[..un];
    if un > 1 {
      NormalBound(s);
      BPowMono(1, un - 1);
      ValOne(v);
      return 1;
    }
    var x: Limb := 0;
    ValNil(s);
    if un == 1 {
      x := u.d[0];
      assert s == [x];
      ValOne(x);
    }
    c := Sign(x - v);
  }

  /** The limb scan of mpz_make_odd: whole zero limbs, then the bits of the first other one. */
  method ScanOne(p: array<Limb>, n: nat) returns (shift: nat)
    requires n <= p.Length && Val(p[..n]) > 0
    ensures shift == Twos(Val(p[..n]))
  {
    hide Val, BPow, Pow2, Twos;
    ghost var s := p[..n];
    var i := 0;
    ValNil(s);
    SomeLimb(s, 0);
    while p[i] == 0
      invariant 0 <= i < n && Val(s[..i]) == 0 && Val(s) > 0
      decreases n - i
    {
      ValTake(s, i);
      SomeLimb(s, i + 1);
      i := i + 1;
    }
    var cnt := Ctz(p[i]);
    shift := i * 64 + cnt;
    ScanValue(s, i, cnt);
  }

  /** Where all limbs so far are zero there is another one. */
  lemma SomeLimb(s: seq<Limb>, i: nat)
    requires i <= |s| && Val(s[..i]) == 0 && Val(s) > 0
    ensures i < |s|
  {
    assert s[..|s|] == s;
  }

  lemma ScanValue(s: seq<Limb>, i: nat, c: nat)
    requires i < |s| && Val(s[..i]) == 0 && s[i] > 0 && c == Twos(s[i]) && Val(s) > 0
    ensures Twos(Val(s)) == 64 * i + c
  {
    hide Val, BPow, Pow2, Twos;
    ValSplit(s, i);
    assert s[i..] == [s[i]] + s[i + 1..];
    ValCons(s[i], s[i + 1..]);
    var x, hi := s[i], Val(s[i + 1..]);
    BPowBits(i);
    LowTwos(x, hi);
    TwosScaled(x + B * hi, 64 * i);
  }

  /** The factors two of the low limb are those of the number. */
  lemma {:induction false} LowTwos(x: nat, hi: nat)
    requires 0 < x < B
    ensures x + B * hi > 0 && Twos(x + B * hi) == Twos(x)
  {
    TwosBelow(x, hi, 64) by { Pow2At(); }
    Pow2At();
  }

  lemma {:induction false} TwosBelow(x: nat, hi: nat, w: nat)
    requires 0 < x < Pow2(w)
    ensures x + Pow2(w) * hi > 0 && Twos(x + Pow2(w) * hi) == Twos(x)
    decreases w
  {
    var h := Pow2(w - 1) * hi;
    assert Pow2(w) * hi == 2 * h by { Assoc(2, Pow2(w - 1), hi); }
    MulMono(0, hi, Pow2(w - 1));
    hide Twos, Pow2;
    TwosStep(x); TwosStep(x + 2 * h);
    EvenAdd(x, h);
    if x % 2 == 0 { TwosBelow(x / 2, hi, w - 1); }
  }

  lemma EvenAdd(x: int, h: int)
    ensures (x + 2 * h) % 2 == x % 2 && (x + 2 * h) / 2 == x / 2 + h
  {
  }

  lemma {:induction false} TwosScaled(x: nat, k: nat)
    requires x > 0
    ensures x * Pow2(k) > 0 && Twos(x * Pow2(k)) == Twos(x) + k
    decreases k
  {
    hide Twos;
    if k == 0 {
      UnitShift(x);
    } else {
      TwosScaled(x, k - 1);
      assert x * Pow2(k) == 2 * (x * Pow2(k - 1)) by { Assoc(2, x, Pow2(k - 1)); Assoc(x, 2, Pow2(k - 1)); }
      TwosStep(x * Pow2(k));
    }
  }
}
