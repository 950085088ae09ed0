/**
 Bit operations on sign-magnitude numbers agree, bit by bit and at every index,
 with the infinite two's complement that mpz_tstbit reads.
 */
module MpzBits {
  import opened Arith
  import opened BitOps
  import opened Limbs
  import opened MpnArith
  import opened MpnShift
  import opened MpnDivQr
  import opened MpzCore
  import opened MpzDivFast

  // ----- two's complement of integers

  /** Bits of a number cut at width w. */
  lemma {:induction false} TBitCut(x: nat, z: int, w: nat, i: nat)
    requires x < Pow2(w)
    ensures TBit(x + Pow2(w) * z, i) == if i < w then TBit(x, i) else TBit(z, i - w)
    decreases w
  {
    if w == 0 {
    } else {
      var p := Pow2(w - 1);
      Assoc(2, p, z);
      assert (x + Pow2(w) * z) / 2 == x / 2 + p * z && (x + Pow2(w) * z) % 2 == x % 2;
      if i > 0 { TBitCut(x / 2, z, w - 1, i - 1); }
    }
  }

  /** Beyond the width of a number every bit is its sign. */
  lemma {:induction false} TBitSign(z: int, i: nat)
    requires -(Pow2(i) as int) <= z < Pow2(i)
    ensures TBit(z, i) == (z < 0)
    decreases i
  {
    if i > 0 { TBitSign(z / 2, i - 1); }
  }

  lemma {:induction false} TBitNot(z: int, i: nat)
    ensures TBit(-1 - z, i) == !TBit(z, i)
    decreases i
  {
    if i > 0 {
      assert (-1 - z) / 2 == -1 - z / 2;
      TBitNot(z / 2, i - 1);
    }
  }

  /** Negation complements exactly the bits above the lowest set bit. */
  lemma {:induction false} TBitNegate(m: nat, i: nat)
    ensures TBit(-(m as int), i) == (TBit(m, i) == (m % Pow2(i) == 0))
    decreases i
  {
    if i > 0 {
      if m % 2 == 0 {
        assert -(m as int) / 2 == -((m / 2) as int);
        TBitNegate(m / 2, i - 1);
        ModDouble(m, Pow2(i - 1));
      } else {
        assert -(m as int) / 2 == -1 - m / 2;
        TBitNot(m / 2, i - 1);
        ModDouble(m, Pow2(i - 1));
      }
    }
  }

  lemma {:induction false} TBitDiv(x: nat, i: nat)
    ensures TBit(x, i) == (x / Pow2(i) % 2 == 1)
    decreases i
  {
    if i > 0 {
      TBitDiv(x / 2, i - 1);
      DivTwice(x, Pow2(i - 1));
    }
  }

  lemma DivTwice(x: nat, p: nat)
    requires p > 0
    ensures x / 2 / p == x / (2 * p)
  {
    var q, r := x / 2 / p, x / 2 % p;
    assert x / 2 == q * p + r;
    Assoc(q, 2, p); Assoc(2, q, p);
    DivModUnique(x, 2 * p, q, 2 * r + x % 2);
  }

  /** Adding 2^i where bit i is clear sets that bit and nothing else. */
  lemma {:induction false} TBitSet(z: int, i: nat, j: nat)
    requires !TBit(z, i)
    ensures TBit(z + Pow2(i), j) == (j == i || TBit(z, j))
    decreases i
  {
    if i > 0 {
      assert (z + Pow2(i)) / 2 == z / 2 + Pow2(i - 1);
      if j > 0 { TBitSet(z / 2, i - 1, j - 1); }
    } else {
      assert j > 0 ==> (z + 1) / 2 == z / 2;
    }
  }

  lemma {:induction false} TBitClear(z: int, i: nat, j: nat)
    requires TBit(z, i)
    ensures TBit(z - Pow2(i), j) == (j != i && TBit(z, j))
    decreases i
  {
    if i > 0 {
      assert (z - Pow2(i)) / 2 == z / 2 - Pow2(i - 1);
      if j > 0 { TBitClear(z / 2, i - 1, j - 1); }
    } else {
      assert j > 0 ==> (z - 1) / 2 == z / 2;
    }
  }

  /** Bit j of a limb sequence is a bit of one limb. */
  lemma {:induction false} TBitLimb(s: seq<Limb>, j: nat)
    requires j / 64 < |s|
    ensures TBit(Val(s), j) == TBit(s[j / 64], j % 64)
    decreases |s|
  {
    hide Val, BPow, TBit, Pow2;
    Pow2At();
    var rest := s[1..];
    assert s == [s[0]] + rest;
    ValCons(s[0], rest);
    TBitCut(s[0], Val(rest), 64, j);
    if j >= 64 {
      assert (j - 64) / 64 == j / 64 - 1 && (j - 64) % 64 == j % 64;
      TBitLimb(rest, j - 64);
    }
  }

  // ----- single bits

  /** mpz_tstbit */
  method TstBit(d: Mpz, i: nat) returns (bit: bool)
    requires d.Valid()
    ensures bit == TBit(d.Value(), i)
  {
    hide Val, BPow, Pow2, TBit, Shl, Shr;
    var dn, k, shift := Abs(d.size), i / 64, i % 64;
    ghost var s := d.d[..dn];
    if k >= dn {
      NormalZero(s);
      OutsideBits(s, d.size < 0, i);
      return d.size < 0;
    }
    var w := d.d[k];
    bit := Shr(w, shift) % 2 == 1;
    TBitLimb(s, i);
    ShrDef(w, shift);
    TBitDiv(w, shift);
    if d.size < 0 {
      TBitNegate(Val(s), i);
      ShiftedOut(s, k, shift);
      ShiftParts(w, 64 - shift);
      BitsBelow(w, shift);
      if shift > 0 && Shl(w, 64 - shift) > 0 {
        return !bit;
      }
      var any := AnyNonzero(d.d, k);
      assert s[..k] == d.d[..k];
      if any { return !bit; }
    }
  }

  lemma BitsBelow(w: Limb, shift: nat)
    requires shift < 64
    ensures w % Pow2(shift) != 0 <==> shift > 0 && Shl(w, 64 - shift) > 0
  {
    hide Pow2;
    ShiftParts(w, 64 - shift);
    PowZero();
    if w % Pow2(shift) != 0 { MulMono(1, w % Pow2(shift), Pow2(64 - shift)); }
  }

  method AnyNonzero(p: array<Limb>, n: nat) returns (any: bool)
    requires n <= p.Length
    ensures any <==> Val(p[..n]) != 0
  {
    hide Val;
    var i := n;
    while i > 0
      invariant 0 <= i <= n && forall k :: i <= k < n ==> p[k] == 0
    {
      i := i - 1;
      if p[i] > 0 {
        NonzeroLimb(p[..n], i);
        return true;
      }
    }
    ZeroLimbs(p[..n]);
    return false;
  }

  lemma {:induction false} ZeroLimbs(s: seq<Limb>)
    requires forall k :: 0 <= k < |s| ==> s[k] == 0
    ensures Val(s) == 0
  {
    if s != [] { ZeroLimbs(s[..|s| - 1]); }
  }

  lemma NonzeroLimb(s: seq<Limb>, i: nat)
    requires i < |s| && s[i] > 0
    ensures Val(s) > 0
  {
    hide Val, BPow;
    ValSplit(s, i + 1);
    ValTake(s, i);
    MulMono(1, s[i], BPow(i));
    MulMono(0, Val(s[i + 1..]), BPow(i + 1));
  }

  /** Bits beyond the limbs are the sign. */
  lemma OutsideBits(s: seq<Limb>, neg: bool, i: nat)
    requires |s| <= i / 64 && (neg ==> Val(s) > 0)
    ensures TBit(if neg then 0 - Val(s) else Val(s), i) == neg
  {
    hide Val, BPow, Pow2, TBit;
    ValBound(s);
    BPowBits(|s|);
    Pow2Mono(64 * |s|, i);
    TBitSign(if neg then 0 - Val(s) else Val(s), i);
  }

  /** mpz_abs_add_bit: |d| + 2^i */
  method AbsAddBit(d: Mpz, i: nat)
    requires d.Valid()
    modifies d, d.d
    ensures d.Valid() && (d.size < 0) == old(d.size < 0) && d.Mag() == old(d.Mag()) + Pow2(i)
    ensures d.d == old(d.d) || fresh(d.d)
  {
    hide Val, BPow, Pow2, Shl, Normal;
    var dn, k := Abs(d.size), i / 64;
    var bit := Shl(1, i % 64);
    ShiftOne(i % 64);
    BitSplit(k, i % 64);
    var neg := d.size < 0;
    if k >= dn {
      BitBeyond(d, dn, k, bit);
      dn := k + 1;
    } else {
      dn := BitWithin(d, dn, k, bit);
    }
    d.size := if neg then -(dn as int) else dn;
  }

  /** The bit lies beyond the number, which grows to reach it. */
  method BitBeyond(d: Mpz, dn: nat, k: nat, bit: Limb)
    requires dn <= k && dn <= d.d.Length && bit > 0
    modifies d`d, d.d
    ensures k + 1 <= d.d.Length && Normal(d.d[..k + 1])
    ensures Val(d.d[..k + 1]) == old(Val(d.d[..dn])) + BPow(k) * bit
    ensures d.d == old(d.d) || fresh(d.d)
  {
    hide Val, BPow, Normal;
    ghost var s := d.d[..dn];
    d.Realloc(k + 1);
    assert d.d[..dn] == s;
    d.d[k] := bit;
    assert d.d[..dn] == s;
    ZeroFill(d.d, dn, k);
    assert d.d[..k + 1] == d.d[..k] + [bit];
    ValAppend(d.d[..k], bit);
    TopSet(d.d[..k + 1]);
  }

  /** The bit lies within the number, which may carry into one more limb. */
  method BitWithin(d: Mpz, dn: nat, k: nat, bit: Limb) returns (rn: nat)
    requires k < dn <= d.d.Length && Normal(d.d[..dn])
    modifies d`d, d.d
    ensures 0 < rn <= d.d.Length && Normal(d.d[..rn])
    ensures Val(d.d[..rn]) == old(Val(d.d[..dn])) + BPow(k) * bit
    ensures d.d == old(d.d) || fresh(d.d)
  {
    hide Val, BPow, Normal;
    ghost var s := d.d[..dn];
    assert d.d[k..k + (dn - k)] == s[k..] && d.d[..k] == s[..k];
    var cy := Add1(d.d, k, d.d, k, dn - k, bit);
    assert d.d[..k] == s[..k] && d.d[..dn] == s[..k] + d.d[k..k + (dn - k)];
    BitCarry(s, d.d[k..k + (dn - k)], k, bit, cy);
    MulMono(0, bit, BPow(k));
    ghost var t := d.d[..dn];
    rn := dn;
    if cy > 0 {
      d.Realloc(dn + 1);
      d.d[dn] := cy;
      assert d.d[..dn + 1] == t + [1];
      ValAppend(t, 1);
      rn := dn + 1;
      TopSet(d.d[..rn]);
    } else {
      SumNormal(t, s);
    }
  }

  lemma ShiftOne(b: nat)
    requires b < 64
    ensures 0 < Shl(1, b) == Pow2(b) < B
  {
    hide Pow2;
    Pow2At();
    Pow2Strict(b, 64);
    WrapOne(Pow2(b));
  }

  lemma WrapOne(x: int)
    requires 0 <= x < B
    ensures Wrap(1 * x) == x
  {
  }

  lemma SumNormal(t: seq<Limb>, s: seq<Limb>)
    requires |t| == |s| && s != [] && Normal(s) && Val(t) >= Val(s)
    ensures Normal(t)
  {
    NormalBound(s);
    NormalByBound(t);
  }

  method ZeroFill(p: array<Limb>, lo: nat, hi: nat)
    requires lo <= hi <= p.Length
    modifies p
    ensures Val(p[..hi]) == old(Val(p[..lo])) && SameOutside(p[..], old(p[..]), lo, hi - lo)
  {
    hide Val, BPow;
    for i := lo to hi
      invariant Val(p[..i]) == old(Val(p[..lo]))
      invariant forall k :: 0 <= k < p.Length && !(lo <= k < hi) ==> p[k] == old(p[k])
    {
      ghost var t := p[..i];
      p[i] := 0;
      assert p[..i + 1] == t + [0];
      ValAppend(t, 0);
    }
  }

  /** Adding a bit at limb k. */
  lemma BitCarry(s: seq<Limb>, hi: seq<Limb>, k: nat, bit: int, cy: int)
    requires k < |s| && |hi| == |s| - k && Val(hi) + cy * BPow(|hi|) == Val(s[k..]) + bit
    ensures Val(s[..k] + hi) + cy * BPow(|s|) == Val(s) + BPow(k) * bit
  {
    hide Val, BPow;
    ValConcat(s[..k], hi);
    ValSplit(s, k);
    BPowAdd(|hi|, k);
    Assoc(cy, BPow(|hi|), BPow(k));
    Dist(Val(hi), cy * BPow(|hi|), BPow(k));
    Dist(Val(s[k..]), bit, BPow(k));
  }

  /** mpz_abs_sub_bit: |d| - 2^i, which must not be negative. */
  method AbsSubBit(d: Mpz, i: nat)
    requires d.Valid() && d.Mag() >= Pow2(i)
    modifies d, d.d
    ensures d.Valid() && d.Mag() == old(d.Mag()) - Pow2(i)
    ensures d.size != 0 ==> (d.size < 0) == old(d.size < 0)
    ensures d.d == old(d.d)
  {
    hide Val, BPow, Pow2, Shl, Normal;
    var dn, k := Abs(d.size), i / 64;
    var bit := Shl(1, i % 64);
    ShiftOne(i % 64);
    BitSplit(k, i % 64);
    var neg := d.size < 0;
    ghost var s := d.d[..dn];
    BitInside(s, i);
    assert d.d[k..k + (dn - k)] == s[k..] && d.d[..k] == s[..k];
    var cy := Sub1(d.d, k, d.d, k, dn - k, bit);
    assert d.d[..k] == s[..k] && d.d[..dn] == s[..k] + d.d[k..k + (dn - k)];
    BitCarry(s, d.d[k..k + (dn - k)], k, -(bit as int), -(cy as int));
    NegMul(BPow(k), bit);
    ValBound(d.d[..dn]);
    NoCarry(cy, BPow(dn), Val(d.d[..dn]), Val(s) - Pow2(i));
    assert cy == 0;
    dn := NormalizedSize(d.d, dn);
    d.size := if neg then -(dn as int) else dn;
  }

  lemma NegMul(x: int, y: int)
    ensures x * -y == -(x * y)
  {
  }

  lemma BitInside(s: seq<Limb>, i: nat)
    requires Val(s) >= Pow2(i)
    ensures i / 64 < |s|
  {
    hide Val, BPow, Pow2;
    ValBound(s);
    BPowBits(|s|);
    if i / 64 >= |s| { Pow2Mono(64 * |s|, i); }
  }

  /** A set bit of a nonnegative number, or a clear bit of a negative one, bounds the magnitude. */
  lemma BitBound(z: int, i: nat)
    requires TBit(z, i) != (z < 0)
    ensures Abs(z) >= Pow2(i) && (z < 0 ==> Abs(z) > Pow2(i))
  {
    if -(Pow2(i) as int) <= z < Pow2(i) { TBitSign(z, i); }
  }

  /** mpz_setbit */
  method SetBit(d: Mpz, i: nat)
    requires d.Valid()
    modifies d, d.d
    ensures d.Valid() && forall j: nat :: TBit(d.Value(), j) == (j == i || TBit(old(d.Value()), j))
    ensures d.Value() == old(d.Value()) + if old(TBit(d.Value(), i)) then 0 else Pow2(i)
    ensures d.d == old(d.d) || fresh(d.d)
  {
    hide Val, Pow2, TBit, Normal;
    ghost var z := d.Value();
    ghost var m := NonzeroMag(d);
    var t := TstBit(d, i);
    if !t {
      if d.size >= 0 {
        AbsAddBit(d, i);
      } else {
        BitBound(z, i);
        AbsSubBit(d, i);
      }
      m := NonzeroMag(d);
      forall j: nat ensures TBit(z + Pow2(i), j) == (j == i || TBit(z, j)) { TBitSet(z, i, j); }
    }
  }

  /** mpz_clrbit */
  method ClrBit(d: Mpz, i: nat)
    requires d.Valid()
    modifies d, d.d
    ensures d.Valid() && forall j: nat :: TBit(d.Value(), j) == (j != i && TBit(old(d.Value()), j))
    ensures d.d == old(d.d) || fresh(d.d)
  {
    hide Val, Pow2, TBit, Normal;
    ghost var z := d.Value();
    ghost var m := NonzeroMag(d);
    var t := TstBit(d, i);
    if t {
      if d.size >= 0 {
        BitBound(z, i);
        AbsSubBit(d, i);
      } else {
        AbsAddBit(d, i);
      }
      m := NonzeroMag(d);
      forall j: nat ensures TBit(z - Pow2(i), j) == (j != i && TBit(z, j)) { TBitClear(z, i, j); }
    }
  }

  /** mpz_combit */
  method ComBit(d: Mpz, i: nat)
    requires d.Valid()
    modifies d, d.d
    ensures d.Valid() && forall j: nat :: TBit(d.Value(), j) == ((j == i) != TBit(old(d.Value()), j))
    ensures d.d == old(d.d) || fresh(d.d)
  {
    hide Val, Pow2, TBit, Normal;
    ghost var z := d.Value();
    ghost var m := NonzeroMag(d);
    var t := TstBit(d, i);
    if t != (d.size < 0) {
      BitBound(z, i);
      AbsSubBit(d, i);
    } else {
      AbsAddBit(d, i);
    }
    m := NonzeroMag(d);
    ComplementOne(z, d.Value(), i, t);
  }

  lemma ComplementOne(z: int, y: int, i: nat, t: bool)
    requires t == TBit(z, i) && y == if t then z - Pow2(i) else z + Pow2(i)
    ensures forall j: nat :: TBit(y, j) == ((j == i) != TBit(z, j))
  {
    hide Pow2, TBit;
    forall j: nat ensures TBit(y, j) == ((j == i) != TBit(z, j)) {
      if t { TBitClear(z, i, j); } else { TBitSet(z, i, j); }
    }
  }
}
