/** mpz_pow_ui and mpz_powm: powers by repeated squaring, reduced by a shifted modulus. */
module PowMod {
  import opened Arith
  import opened BitOps
  import opened Limbs
  import opened MpzCore
  import opened MpzMore
  import opened MpzVars
  import opened MpnDivQr
  import opened MpzPreinv
  import MpzBits
  import opened Gcd
  import opened GcdBinary
  import opened Modular

  // ----- exponent bits

  /** w & 2^k tests bit k. */
  lemma {:induction false} AndBit(x: nat, k: nat, w: nat)
    requires k < w
    ensures Word(AND, x, Pow2(k), w) != 0 <==> x / Pow2(k) % 2 == 1
    decreases w
  {
    if k == 0 {
      AndZero(x / 2, w - 1);
    } else {
      assert Pow2(k) / 2 == Pow2(k - 1) && Pow2(k) % 2 == 0;
      AndBit(x / 2, k - 1, w - 1);
      MpzBits.DivTwice(x, Pow2(k - 1));
    }
  }

  /** One more exponent bit. */
  lemma NextBit(e: nat, k: nat)
    ensures e / Pow2(k) == 2 * (e / Pow2(k + 1)) + e / Pow2(k) % 2
  {
    DivPow(e, k);
  }

  lemma DivPow(e: nat, k: nat)
    ensures e / Pow2(k) / 2 == e / Pow2(k + 1)
  {
    var p := Pow2(k);
    var q := e / p;
    assert e == q * p + e % p;
    assert q == q / 2 * 2 + q % 2;
    Dist(q / 2 * 2, q % 2, p);
    Assoc(q / 2, 2, p);
    MulMono(q % 2, 1, p); MulMono(0, q % 2, p);
    DivModUnique(e, 2 * p, q / 2, q % 2 * p + e % p);
  }

  lemma SquareStep(b: int, n: nat, bit: nat)
    requires bit < 2
    ensures Pow(b, 2 * n + bit) == Pow(b, n) * Pow(b, n) * (if bit == 1 then b else 1)
  {
    PowAdd(b, n, n);
    PowAdd(b, 2 * n, bit);
    assert Pow(b, 1) == b * Pow(b, 0);
  }

  /** mpz_pow_ui: all 64 bits of the exponent, from the top.  r may be b. */
  method PowUi(x: Vars, r: nat, b: nat, e: Limb)
    requires x.Valid() && r < |x.vals| && b < |x.vals|
    modifies x.repr
    ensures x.Valid() && fresh(x.repr - old(x.repr)) && x.vals == old(x.vals)[r := Pow(old(x.vals[b]), e)]
  {
    hide Pow2, Word, Pow, Vars.Valid;
    ghost var vals, y := x.vals, x.vals[b];
    var tr := x.Init();
    x.SetLimb(tr, 1);
    var k := 64;
    Pow2At();
    AllBits(e);
    PowStart(y);
    while k > 0
      invariant x.Valid() && fresh(x.repr - old(x.repr)) && |x.vals| == tr + 1 && x.vals[..tr] == vals
      invariant 0 <= k <= 64 && 0 <= e / Pow2(k) && x.vals[tr] == Pow(y, e / Pow2(k))
    {
      k := k - 1;
      NextBit(e, k);
      AndBit(e, k, 64);
      SquareStep(y, e / Pow2(k + 1), e / Pow2(k) % 2);
      x.Mul(tr, tr, tr);
      if Word(AND, e, Pow2(k), 64) != 0 {
        assert x.vals[b] == x.vals[..tr][b];
        x.Mul(tr, tr, b);
      }
    }
    PowZero();
    x.Swap(r, tr);
    x.Clear(tr);
  }

  lemma AllBits(e: Limb)
    ensures e / Pow2(64) == 0
  {
    Pow2At();
  }

  lemma PowStart(b: int)
    ensures Pow(b, 0) == 1
  {
  }

  // ----- mpz_powm

  /** What the repeated squarings compute, modulo m. */
  ghost predicate Residue(tr: int, base: int, n: nat, m: int)
  {
    tr >= 0 && Cong(tr, Pow(base, n), m)
  }

  /** What the squarings work with: the modulus m, shifted up to m k, and an inverse for that. */
  ghost predicate Ready(x: Vars, m: nat, tp: array?<Limb>, mn: nat, inv: DivInverse, k: int)
    reads x, x.repr, tp
    ensures Ready(x, m, tp, mn, inv, k) ==> x.Valid() && m < |x.vals|
  {
    && x.Valid() && m < |x.vals| && k > 0 && inv.shift == 0
    && InverseOf(inv, Abs(x.vals[m]) * k, mn) && Points(x, m, tp, mn, Abs(x.vals[m]) * k)
  }

  /** One exponent bit: square, multiply, reduce by the shifted modulus only when too long. */
  method PowmBit(x: Vars, tr: nat, base: nat, m: nat, bit: bool, tp: array?<Limb>, mn: nat, inv: DivInverse,
                 ghost k: int, ghost n: nat)
    requires Ready(x, m, tp, mn, inv, k) && tr < |x.vals| && base < |x.vals| && tr != m && tr != base
    requires x.vals[base] >= 0 && Residue(x.vals[tr], x.vals[base], n, Abs(x.vals[m]))
    modifies x.repr
    ensures Ready(x, m, tp, mn, inv, k) && fresh(x.repr - old(x.repr)) && |x.vals| == old(|x.vals|)
    ensures x.vals == old(x.vals)[tr := x.vals[tr]]
    ensures Residue(x.vals[tr], x.vals[base], 2 * n + (if bit then 1 else 0), Abs(x.vals[m]))
  {
    hide Vars.Valid, InverseOf, Size, Val, Residue, Pow;
    ghost var y, z, a := x.vals[tr], x.vals[base], Abs(x.vals[m]);
    ResidueStep(y, z, n, a, bit);
    x.Mul(tr, tr, tr);
    if bit {
      x.Mul(tr, tr, base);
    }
    var size := x.SizeOf(tr);
    if size > mn {
      PowZero();
      DivisorPositive(inv, a * k, mn);
      ResidueReduce(x.vals[tr], z, 2 * n + (if bit then 1 else 0), a, k);
      Reduce(x, tr, m, tp, mn, inv, a * k);
    }
  }

  lemma ResidueStep(y: int, z: int, n: nat, m: int, bit: bool)
    requires Residue(y, z, n, m) && z >= 0
    ensures var r := if bit then y * y * z else y * y; r >= 0 && Residue(r, z, 2 * n + (if bit then 1 else 0), m)
  {
    hide Cong, Pow;
    SquareStep(z, n, if bit then 1 else 0);
    CongMul(y, Pow(z, n), y, Pow(z, n), m);
    MulMono(0, y, y);
    if bit {
      CongRefl(z, m);
      CongMul(y * y, Pow(z, n) * Pow(z, n), z, z, m);
      MulMono(0, y * y, z);
    }
  }

  lemma ResidueReduce(y: int, z: int, n: nat, m: int, k: int)
    requires Residue(y, z, n, m) && m * k > 0
    ensures Residue(y % (m * k), z, n, m)
  {
    hide Cong, Pow;
    CongMod(y, m * k);
    CongWeaken(y % (m * k), y, m, k);
    CongTrans(y % (m * k), y, Pow(z, n), m);
  }

  /** The do loop over the bits of one exponent limb. */
  method PowmLimb(x: Vars, tr: nat, base: nat, m: nat, w: Limb, tp: array?<Limb>, mn: nat, inv: DivInverse,
                  ghost k: int, ghost e: nat, ghost en: nat)
    requires Ready(x, m, tp, mn, inv, k) && tr < |x.vals| && base < |x.vals| && tr != m && tr != base
    requires x.vals[base] >= 0 && w == e / BPow(en) % B
    requires 0 <= e / BPow(en + 1) && Residue(x.vals[tr], x.vals[base], e / BPow(en + 1), Abs(x.vals[m]))
    modifies x.repr
    ensures Ready(x, m, tp, mn, inv, k) && fresh(x.repr - old(x.repr)) && |x.vals| == old(|x.vals|)
    ensures x.vals == old(x.vals)[tr := x.vals[tr]]
    ensures 0 <= e / BPow(en) && Residue(x.vals[tr], x.vals[base], e / BPow(en), Abs(x.vals[m]))
  {
    hide Pow2, Word, Residue, BPow, Vars.Valid, Ready;
    var j := 64;
    ghost var y := e / BPow(en);
    LimbStart(e, en);
    while j > 0
      invariant Ready(x, m, tp, mn, inv, k) && fresh(x.repr - old(x.repr)) && |x.vals| == old(|x.vals|)
      invariant x.vals == old(x.vals)[tr := x.vals[tr]]
      invariant 0 <= j <= 64 && 0 <= y / Pow2(j)
      invariant Residue(x.vals[tr], x.vals[base], y / Pow2(j), Abs(x.vals[m]))
    {
      j := j - 1;
      NextBit(y, j);
      AndBit(w, j, 64);
      LowBitSame(y, w, j);
      PowmBit(x, tr, base, m, Word(AND, w, Pow2(j), 64) != 0, tp, mn, inv, k, y / Pow2(j + 1));
    }
    PowZero();
  }

  lemma LimbStart(e: nat, en: nat)
    ensures 0 <= e / BPow(en) && e / BPow(en) / Pow2(64) == e / BPow(en + 1)
  {
    hide BPow;
    Pow2At();
    var p := BPow(en);
    var q := e / p;
    assert e == q * p + e % p;
    if q < 0 { MulMono(q, -1, p); }
    assert q == q / B * B + q % B;
    Dist(q / B * B, q % B, p);
    Assoc(q / B, B, p);
    BPowSucc(en);
    MulMono(q % B, B - 1, p); MulMono(0, q % B, p); Dist(B, -1, p);
    DivModUnique(e, B * p, q / B, q % B * p + e % p);
  }

  /** Bit j < 64 of a number is bit j of its low limb. */
  lemma LowBitSame(x: nat, w: Limb, j: nat)
    requires w == x % B && j < 64
    ensures x / Pow2(j) % 2 == w / Pow2(j) % 2 && 0 <= x / Pow2(j) && 0 <= x / Pow2(j + 1)
  {
    hide TBit, Pow2;
    Pow2At();
    assert x == w + Pow2(64) * (x / B);
    MpzBits.TBitCut(w, x / B, 64, j);
    MpzBits.TBitDiv(x, j);
    MpzBits.TBitDiv(w, j);
    DivNonneg(x, Pow2(j)); DivNonneg(x, Pow2(j + 1));
  }

  lemma DivNonneg(x: nat, p: nat)
    requires p > 0
    ensures 0 <= x / p
  {
    assert x == x / p * p + x % p;
    if x / p < 0 { MulMono(x / p, -1, p); }
  }

  /** mpz_powm, which dies on a zero modulus and on a negative exponent of a base that is no unit.
      An exponent of zero stores 1 without reducing it.  r may be any of the inputs. */
  method MpzPowm(x: Vars, r: nat, b: nat, e: nat, m: nat) returns (died: bool)
    requires x.Valid() && r < |x.vals| && b < |x.vals| && e < |x.vals| && m < |x.vals|
    modifies x.repr
    ensures died <==> old(x.vals[m]) == 0 || (old(x.vals[e]) < 0 && !Unit(old(x.vals[b]), old(x.vals[m])))
    ensures !died ==> x.Valid() && fresh(x.repr - old(x.repr)) && |x.vals| == old(|x.vals|)
    ensures !died ==> x.vals == old(x.vals)[r := x.vals[r]]
    ensures !died ==> IsPowm(x.vals[r], old(x.vals[b]), old(x.vals[e]), old(x.vals[m]))
  {
    hide Vars.Valid, Size, Unit, IsPowm;
    ghost var y, z, n := x.vals[b], x.vals[e], x.vals[m];
    var c := x.Sgn(m);
    if c == 0 { return true; }
    var en := x.SizeOf(e);
    SizeZero(z);
    if en == 0 {
      ZeroExponent(y, n);
      x.SetLimb(r, 1);
      return false;
    }
    died := PowmNonzero(x, r, b, e, m, en);
  }

  /** mpz_powm_ui, with a read-only variable for the exponent. */
  method PowmUi(x: Vars, r: nat, b: nat, e: Limb, m: nat) returns (died: bool)
    requires x.Valid() && r < |x.vals| && b < |x.vals| && m < |x.vals|
    modifies x.repr
    ensures died <==> old(x.vals[m]) == 0
    ensures !died ==> x.Valid() && fresh(x.repr - old(x.repr)) && |x.vals| == old(|x.vals|)
    ensures !died ==> x.vals == old(x.vals)[r := x.vals[r]]
    ensures !died ==> IsPowm(x.vals[r], old(x.vals[b]), e, old(x.vals[m]))
  {
    hide Vars.Valid, IsPowm, Unit;
    var t := x.Init();
    x.SetLimb(t, e);
    died := MpzPowm(x, r, b, t, m);
    if !died { x.Clear(t); }
  }

  /** The base is invertible modulo |m|, which is not 1. */
  ghost predicate Unit(b: int, m: int)
  {
    Abs(m) > 1 && IsGcd(1, b, m)
  }

  /** r is b^e modulo m, with the inverse of b for negative e; it is reduced unless e is zero. */
  ghost predicate IsPowm(r: int, b: int, e: int, m: int)
  {
    && (if e >= 0 then Cong(r, Pow(b, e), m) else Cong(r * Pow(b, -e), 1, m))
    && if e == 0 then r == 1 else 0 <= r < Abs(m)
  }

  /** When the result is reduced. */
  lemma PowmReduced(r: int, b: int, e: int, m: int)
    requires m != 0 && IsPowm(r, b, e, m)
    ensures 0 <= r < Abs(m) <==> !(e == 0 && Abs(m) == 1)
  {
  }

  lemma SizeZero(z: int)
    ensures Size(Abs(z)) == 0 <==> z == 0
  {
  }

  lemma ZeroExponent(b: int, m: int)
    requires m != 0
    ensures IsPowm(1, b, 0, m)
  {
    PowStart(b);
    CongRefl(1, m);
  }

  /** Modulo 1 the exponent zero gives 1, where 0 is the reduced power. */
  lemma ZeroExponentModOne(b: int, r: int)
    requires IsPowm(r, b, 0, 1)
    ensures r == 1 && !(0 <= r < 1) && Cong(0, Pow(b, 0), 1)
  {
    PowStart(b);
    CongIntro(0, 1, 1, -1);
  }

  method PowmNonzero(x: Vars, r: nat, b: nat, e: nat, m: nat, en: nat) returns (died: bool)
    requires x.Valid() && r < |x.vals| && b < |x.vals| && e < |x.vals| && m < |x.vals|
    requires x.vals[m] != 0 && x.vals[e] != 0 && en == Size(Abs(x.vals[e]))
    modifies x.repr
    ensures died <==> old(x.vals[e]) < 0 && !Unit(old(x.vals[b]), old(x.vals[m]))
    ensures !died ==> x.Valid() && fresh(x.repr - old(x.repr)) && |x.vals| == old(|x.vals|)
    ensures !died ==> x.vals == old(x.vals)[r := x.vals[r]]
    ensures !died ==> IsPowm(x.vals[r], old(x.vals[b]), old(x.vals[e]), old(x.vals[m]))
  {
    hide Vars.Valid, Size, Unit, IsPowm, InverseOf, Pow2, Cong, Pow, IsBase;
    ghost var vals, y, z, n := x.vals, x.vals[b], x.vals[e], x.vals[m];
    var mn, shift, inv, tp := InvertModulus(x, m);
    ghost var k := Pow2(shift);
    var base := x.Init();
    var ok := PowmBase(x, base, b, e, m, tp, mn, inv, k);
    if !ok { return true; }
    var tr := x.Init();
    x.SetLimb(tr, 1);
    PowmLoop(x, tr, base, e, m, en, tp, mn, inv, k);
    PowmFinal(x, tr, m, tp, mn, inv, shift, x.vals[base], Abs(z));
    PowmResult(x.vals[tr], x.vals[base], y, z, n);
    x.Swap(r, tr);
    x.Clear(base);
    died := false;
  }

  /** base stands for b, or for its inverse when the exponent is negative. */
  ghost predicate IsBase(base: int, b: int, e: int, m: int)
  {
    base >= 0 && if e < 0 then Divides(m, base * b - 1) else Cong(base, b, Abs(m))
  }

  method PowmBase(x: Vars, base: nat, b: nat, e: nat, m: nat, tp: array?<Limb>, mn: nat, inv: DivInverse,
                  ghost k: int) returns (ok: bool)
    requires Ready(x, m, tp, mn, inv, k) && base < |x.vals| && b < |x.vals| && e < |x.vals|
    requires base != b && base != e && base != m
    modifies x.repr
    ensures !ok <==> old(x.vals[e]) < 0 && !Unit(old(x.vals[b]), old(x.vals[m]))
    ensures Ready(x, m, tp, mn, inv, k) && fresh(x.repr - old(x.repr)) && |x.vals| == old(|x.vals|)
    ensures ok ==> x.vals == old(x.vals)[base := x.vals[base]]
    ensures ok ==> x.vals[base] >= 0 && IsBase(x.vals[base], x.vals[b], x.vals[e], x.vals[m])
  {
    hide Vars.Valid, InverseOf, Size, IsGcd, Divides, Cong, BaseOf;
    ghost var n := x.vals[m];
    var c := x.Sgn(e);
    if c < 0 {
      ok := MpzInvert(x, base, b, m);
    } else {
      SizeZero(n);
      BaseCongruent(x.vals[b], n, mn, k);
      SetBase(x, base, b, m, tp, mn, inv, Abs(n) * k);
      ok := true;
    }
  }

  lemma BaseCongruent(b: int, n: int, mn: nat, k: int)
    requires n != 0 && k > 0 && mn == Size(Abs(n)) > 0
    ensures Abs(n) <= Abs(n) * k && BaseOf(b, mn, Abs(n) * k) >= 0 && Cong(BaseOf(b, mn, Abs(n) * k), b, Abs(n))
  {
    hide Cong, Size, BPow;
    var m := Abs(n);
    var d := m * k;
    MulMono(1, k, m);
    SizeBound(m, mn - 1);
    BaseSigned(b, mn, d);
    var a := BaseOf(Abs(b), mn, d);
    CongRefl(Abs(b), m);
    if Size(Abs(b)) >= mn {
      CongMod(Abs(b), d);
      CongWeaken(Abs(b) % d, Abs(b), m, k);
    }
    if b < 0 {
      CongIntro(d, 0, m, k);
      CongIntro(-1, -1, m, 0);
      CongMul(a, -b, -1, -1, m);
      CongAdd(d, 0, a * -1, -b * -1, m);
    }
  }

  /** The loop over the limbs of the exponent. */
  method PowmLoop(x: Vars, tr: nat, base: nat, e: nat, m: nat, en0: nat, tp: array?<Limb>, mn: nat, inv: DivInverse,
                  ghost k: int)
    requires Ready(x, m, tp, mn, inv, k) && tr < |x.vals| && base < |x.vals| && e < |x.vals|
    requires tr != base && tr != e && tr != m && x.vals[base] >= 0 && x.vals[tr] == 1
    requires en0 == Size(Abs(x.vals[e]))
    modifies x.repr
    ensures Ready(x, m, tp, mn, inv, k) && fresh(x.repr - old(x.repr)) && |x.vals| == old(|x.vals|)
    ensures x.vals == old(x.vals)[tr := x.vals[tr]]
    ensures Residue(x.vals[tr], x.vals[base], Abs(x.vals[e]), Abs(x.vals[m]))
  {
    hide Pow, BPow, Size, Vars.Valid, Ready, Residue;
    var en: nat := en0;
    ghost var n: nat := Abs(x.vals[e]);
    SizeBound(n, en);
    ResidueOne(x.vals[base], Abs(x.vals[m]));
    DivModUnique(n, BPow(en), 0, n);
    while en > 0
      invariant Ready(x, m, tp, mn, inv, k) && fresh(x.repr - old(x.repr)) && |x.vals| == old(|x.vals|)
      invariant x.vals == old(x.vals)[tr := x.vals[tr]] && en <= en0
      invariant 0 <= n / BPow(en) && Residue(x.vals[tr], x.vals[base], n / BPow(en), Abs(x.vals[m]))
    {
      en := en - 1;
      var w := x.LimbOf(e, en);
      PowmLimb(x, tr, base, m, w, tp, mn, inv, k, n, en);
    }
    ValNil([]);
  }

  lemma ResidueOne(base: int, m: int)
    ensures Residue(1, base, 0, m)
  {
    PowStart(base);
    CongRefl(1, m);
  }

  /** The final reduction, with the shift restored. */
  method PowmFinal(x: Vars, tr: nat, m: nat, tp: array?<Limb>, mn: nat, inv: DivInverse, shift: nat,
                   ghost base: int, ghost n: nat)
    requires Ready(x, m, tp, mn, inv, Pow2(shift)) && tr < |x.vals| && tr != m
    requires InverseOf(inv.(shift := shift), Abs(x.vals[m]), mn)
    requires Residue(x.vals[tr], base, n, Abs(x.vals[m]))
    modifies x.repr
    ensures x.Valid() && fresh(x.repr - old(x.repr)) && |x.vals| == old(|x.vals|)
    ensures x.vals == old(x.vals)[tr := x.vals[tr]]
    ensures x.vals[tr] < Abs(x.vals[m]) && Residue(x.vals[tr], base, n, Abs(x.vals[m]))
  {
    hide Vars.Valid, Pow2, InverseOf, Size, Val, BPow, Pow, Cong;
    ghost var y, a := x.vals[tr], Abs(x.vals[m]);
    var size := x.SizeOf(tr);
    SizeBound(y, mn - 1);
    SizeBound(a, mn - 1);
    if size >= mn {
      DivisorPositive(inv.(shift := shift), a, mn);
      ResidueReduce(y, base, n, a, 1);
      Reduce(x, tr, m, tp, mn, inv.(shift := shift), a);
    }
  }

  lemma PowmResult(r: int, base: int, b: int, e: int, m: int)
    requires m != 0 && e != 0 && IsBase(base, b, e, m) && Residue(r, base, Abs(e), Abs(m)) && r < Abs(m)
    ensures IsPowm(r, b, e, m)
  {
    hide Cong, Pow, Divides;
    if e < 0 {
      InversePower(r, base, b, -e, m);
    } else {
      CongPow(base, b, e, Abs(m));
      CongTrans(r, Pow(base, e), Pow(b, e), Abs(m));
      CongAbs(r, Pow(b, e), m);
    }
  }

  lemma CongAbs(a: int, b: int, m: int)
    requires Cong(a, b, Abs(m))
    ensures Cong(a, b, m)
  {
    if m < 0 {
      var k: int :| Abs(m) * k == a - b;
      CongIntro(a, b, m, -k);
    }
  }

  lemma InversePower(r: int, base: int, b: int, n: nat, m: int)
    requires m != 0 && Cong(r, Pow(base, n), Abs(m)) && Divides(m, base * b - 1)
    ensures Cong(r * Pow(b, n), 1, m)
  {
    hide Pow;
    CongAbs(r, Pow(base, n), m);
    CongRefl(Pow(b, n), m);
    CongMul(r, Pow(base, n), Pow(b, n), Pow(b, n), m);
    PowProduct(base, b, n);
    CongPow(base * b, 1, n, m);
    PowOne(n);
    CongTrans(r * Pow(b, n), Pow(base * b, n), 1, m);
  }

  lemma {:induction false} PowProduct(a: int, b: int, n: nat)
    ensures Pow(a * b, n) == Pow(a, n) * Pow(b, n)
    decreases n
  {
    if n > 0 {
      PowProduct(a, b, n - 1);
      var x, y := Pow(a, n - 1), Pow(b, n - 1);
      Assoc(a, b, x * y); Assoc(b, x, y); Assoc(a, x, b * y); Assoc(x, b, y);
    }
  }

  lemma {:induction false} PowOne(n: nat)
    ensures Pow(1, n) == 1
  {
    if n > 0 { PowOne(n - 1); }
  }
}
