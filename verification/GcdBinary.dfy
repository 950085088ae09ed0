/** Binary gcd: mpn_gcd_11, mpz_gcd_ui, mpz_gcd; and the modular inverse. */
module GcdBinary {
  import opened Arith
  import opened BitOps
  import opened Limbs
  import opened MpnShift
  import opened MpzCore
  import opened MpzDiv
  import opened MpzMore
  import opened MpzVars
  import opened Gcd

  // ----- what each step of the loops keeps

  lemma {:induction false} GcdExists(u: nat, v: nat) returns (g: int)
    ensures IsGcd(g, u, v)
    decreases v
  {
    if v == 0 {
      g := u;
      GcdIntro(g, u, v, 1, 0, 1, 0);
    } else {
      g := GcdExists(v, u % v);
      var a, b := GcdFactors(g, v, u % v);
      var s: int, t: int :| Bezout(g, v, u % v, s, t);
      var q := u / v;
      assert u == q * v + u % v;
      assert u == g * (q * a + b) by { Assoc(q, a, g); Dist(q * a, b, g); }
      assert g == t * u + (s - t * q) * v by { Dist(q * v, u % v, t); Assoc(t, q, v); Dist(s, -(t * q), v); }
      GcdIntro(g, u, v, q * a + b, a, t, s - t * q);
    }
  }

  lemma GcdSwap(g: int, u: int, v: int)
    requires IsGcd(g, u, v)
    ensures IsGcd(g, v, u)
  {
    var s: int, t: int :| Bezout(g, u, v, s, t);
    assert Bezout(g, v, u, t, s);
  }

  lemma GcdSubtract(g: int, u: int, v: int, q: int)
    requires IsGcd(g, u, v)
    ensures IsGcd(g, u - q * v, v)
  {
    var a, b := GcdFactors(g, u, v);
    var s: int, t: int :| Bezout(g, u, v, s, t);
    assert u - q * v == g * (a - q * b) by { Assoc(q, b, g); Dist(a, -(q * b), g); }
    assert g == s * (u - q * v) + (t + s * q) * v by { Dist(u, -(q * v), s); Assoc(s, q, v); Dist(t, s * q, v); }
    GcdIntro(g, u - q * v, v, a - q * b, b, s, t + s * q);
  }

  lemma GcdHalve(g: int, x: int, v: int)
    requires IsGcd(g, 2 * x, v) && v % 2 == 1
    ensures IsGcd(g, x, v)
  {
    var a, b := GcdFactors(g, 2 * x, v);
    var s: int, t: int :| Bezout(g, 2 * x, v, s, t);
    ParityProduct(g, b); ParityProduct(g, a);
    assert g % 2 == 1 && a % 2 == 0;
    assert x == g * (a / 2) by { Assoc(2, a / 2, g); }
    Assoc(s, 2, x);
    GcdIntro(g, x, v, a / 2, b, 2 * s, t);
  }

  lemma {:induction false} GcdStrip(g: int, x: int, k: nat, v: int)
    requires IsGcd(g, x * Pow2(k), v) && v % 2 == 1
    ensures IsGcd(g, x, v)
    decreases k
  {
    if k > 0 {
      assert x * Pow2(k) == 2 * (x * Pow2(k - 1)) by { Assoc(2, x, Pow2(k - 1)); Assoc(x, 2, Pow2(k - 1)); }
      GcdHalve(g, x * Pow2(k - 1), v);
      GcdStrip(g, x, k - 1, v);
    }
  }

  lemma GcdUnscale(g: int, u: int, v: int, m: int) returns (h: int)
    requires IsGcd(g, u * m, v * m) && m > 0
    ensures IsGcd(h, u, v) && g == h * m
  {
    var a, b := GcdFactors(g, u * m, v * m);
    var s: int, t: int :| Bezout(g, u * m, v * m, s, t);
    h := s * u + t * v;
    assert g == h * m by { Dist(s * u, t * v, m); Assoc(s, u, m); Assoc(t, v, m); }
    if h < 0 { MulMono(h, -1, m); }
    assert u * m == (h * a) * m by { Assoc(h, m, a); Assoc(h, a, m); }
    assert v * m == (h * b) * m by { Assoc(h, m, b); Assoc(h, b, m); }
    CancelFactor(u, h * a, m);
    CancelFactor(v, h * b, m);
    GcdIntro(h, u, v, a, b, s, t);
  }

  lemma GcdSelf(g: int, x: int)
    requires IsGcd(g, x, x) && x >= 0
    ensures g == x
  {
    GcdIntro(x, x, x, 1, 1, 1, 0);
    GcdUnique(g, x, x, x);
  }

  lemma GcdZero(g: int, x: int)
    requires IsGcd(g, 0, x) && x >= 0
    ensures g == x
  {
    GcdIntro(x, 0, x, 0, 1, 0, 1);
    GcdUnique(g, x, 0, x);
  }

  lemma GcdAbs(g: int, u: int, v: int)
    requires IsGcd(g, Abs(u), Abs(v))
    ensures IsGcd(g, u, v)
  {
    var a, b := GcdFactors(g, Abs(u), Abs(v));
    var s: int, t: int :| Bezout(g, Abs(u), Abs(v), s, t);
    SignedTerm(s, u); SignedTerm(t, v);
    GcdIntro(g, u, v, if u < 0 then -a else a, if v < 0 then -b else b,
             if u < 0 then -s else s, if v < 0 then -t else t);
  }

  // ----- mpn_gcd_11

  /** The lowest set bit of an or is the lower one. */
  lemma {:induction false} TwosOr(u: nat, v: nat, w: nat)
    requires 0 < u < Pow2(w) && 0 < v < Pow2(w)
    ensures Word(IOR, u, v, w) > 0
    ensures Twos(Word(IOR, u, v, w)) == if Twos(u) <= Twos(v) then Twos(u) else Twos(v)
    decreases w
  {
    hide Word, Twos;
    var r := Word(IOR, u, v, w);
    WordHalf(u, v, w);
    TwosStep(u); TwosStep(v);
    if u % 2 == 0 && v % 2 == 0 { TwosOr(u / 2, v / 2, w - 1); }
    TwosStep(r);
  }

  lemma WordHalf(u: nat, v: nat, w: nat)
    requires w > 0
    ensures Word(IOR, u, v, w) / 2 == Word(IOR, u / 2, v / 2, w - 1)
    ensures Word(IOR, u, v, w) % 2 == if u % 2 == 1 || v % 2 == 1 then 1 else 0
  {
  }

  /** Shifting out all factors two, at least one of them. */
  method ShiftOdd(x: int, ghost g: int, ghost v: int) returns (y: int)
    requires x > 0 && x % 2 == 0 && v % 2 == 1 && IsGcd(g, x, v)
    ensures y % 2 == 1 && 0 < y < x && IsGcd(g, y, v)
  {
    hide IsGcd;
    y := x / 2;
    GcdHalve(g, y, v);
    while y % 2 == 0
      invariant 0 < y < x && IsGcd(g, y, v)
      decreases y
    {
      GcdHalve(g, y / 2, v);
      y := y / 2;
    }
  }

  /** The subtract-and-shift loop on two odd numbers. */
  method OddGcd(a0: int, b0: int, ghost g: int) returns (a: int)
    requires a0 > 0 && b0 > 0 && a0 % 2 == 1 && b0 % 2 == 1 && IsGcd(g, a0, b0)
    ensures a == g
  {
    hide IsGcd;
    a := a0;
    var b := b0;
    while a != b
      invariant a > 0 && b > 0 && a % 2 == 1 && b % 2 == 1 && IsGcd(g, a, b)
      decreases a + b
    {
      if a > b {
        GcdSubtract(g, a, b, 1);
        a := ShiftOdd(a - b, g, b);
      } else {
        GcdSwap(g, a, b);
        GcdSubtract(g, b, a, 1);
        b := ShiftOdd(b - a, g, a);
        GcdSwap(g, b, a);
      }
    }
    GcdSelf(g, a);
  }

  /** mpn_gcd_11 */
  method Gcd11(u: Limb, v: Limb) returns (g: Limb)
    requires u > 0 || v > 0
    ensures IsGcd(g, u, v)
  {
    hide IsGcd, Pow2, Twos, Word;
    if u == 0 {
      GcdIntro(v, u, v, 0, 1, 0, 1);
      return v;
    } else if v == 0 {
      GcdIntro(u, u, v, 1, 0, 1, 0);
      return u;
    }
    Pow2At();
    TwosOr(u, v, 64);
    var shift := Ctz(Word(IOR, u, v, 64));
    ghost var big := GcdExists(u, v);
    GcdFits(big, u, v);
    TwosSplit(u, shift); TwosSplit(v, shift);
    var a, b := u / Pow2(shift), v / Pow2(shift);
    ghost var h := GcdUnscale(big, a, b, Pow2(shift));
    if a % 2 == 0 {
      GcdSwap(h, a, b);
      a, b := b, a;
    }
    if b % 2 == 0 {
      GcdSwap(h, a, b);
      b := ShiftOdd(b, h, a);
      GcdSwap(h, b, a);
    }
    a := OddGcd(a, b, h);
    g := a * Pow2(shift);
  }

  /** Dividing by a power of two no larger than the lowest set bit. */
  lemma TwosSplit(x: nat, k: nat)
    requires x > 0 && k <= Twos(x)
    ensures x == x / Pow2(k) * Pow2(k) && x / Pow2(k) > 0
    ensures k == Twos(x) ==> x / Pow2(k) % 2 == 1
  {
    hide Pow2, Twos;
    var c := Twos(x);
    TwosDivide(x);
    Pow2Add(c - k, k);
    ExactSplit(x, Pow2(c), Pow2(c - k), Pow2(k));
  }

  lemma ExactSplit(x: int, p: int, a: int, b: int)
    requires x > 0 && p > 0 && p == a * b && b > 0 && x % p == 0
    ensures x == x / b * b && x / b > 0
  {
    var q := x / p;
    assert x == q * p;
    Assoc(q, a, b);
    DivModUnique(x, b, q * a, 0);
    if x / b <= 0 { MulMono(x / b, 0, b); }
  }

  lemma GcdFits(g: int, u: Limb, v: Limb)
    requires IsGcd(g, u, v) && u > 0
    ensures 0 < g <= u
  {
    var a, b := GcdFactors(g, u, v);
    if a <= 0 { MulMono(a, 0, g); }
    MulMono(1, a, g);
  }

  /** mpz_gcd_ui: one remainder, then mpn_gcd_11; what it returns is 0 when v is 0.  g may be null. */
  method GcdUi(x: Vars, g: int, u: nat, v0: Limb) returns (v: Limb, ghost d: int)
    requires x.Valid() && -1 <= g < |x.vals| && u < |x.vals|
    modifies x.repr
    ensures x.Valid() && fresh(x.repr - old(x.repr)) && x.vals == Put(old(x.vals), g, d)
    ensures IsGcd(d, old(x.vals[u]), v0)
    ensures v == if v0 == 0 then 0 else d
  {
    hide IsGcd, Vars.Valid;
    v := v0;
    ghost var y := x.vals[u];
    if v == 0 {
      d := Abs(y);
      GcdIntro(d, y, 0, if y < 0 then -1 else 1, 0, if y < 0 then -1 else 1, 0);
      if g >= 0 { x.SetAbs(g, u); }
    } else {
      var un := x.Sgn(u);
      if un != 0 {
        var r := x.RemLimb(u, v);
        v := Gcd11(r, v);
        GcdRemainder(v, Abs(y), v0);
        GcdAbs(v, y, v0);
      } else {
        GcdIntro(v, y, v, 0, 1, 0, 1);
      }
      d := v;
      if g >= 0 { x.SetLimb(g, v); }
    }
  }

  lemma GcdRemainder(g: int, u: int, v: int)
    requires v > 0 && IsGcd(g, u % v, v)
    ensures IsGcd(g, u, v)
  {
    hide IsGcd;
    GcdSubtract(g, u % v, v, -(u / v));
  }

  lemma GcdReduce(g: int, u: int, v: int)
    requires v > 0 && IsGcd(g, u, v)
    ensures IsGcd(g, u % v, v)
  {
    hide IsGcd;
    GcdSubtract(g, u, v, u / v);
  }

  /** mpz_gcd.  g may be u or v. */
  method MpzGcd(x: Vars, g: nat, u: nat, v: nat) returns (ghost d: int)
    requires x.Valid() && g < |x.vals| && u < |x.vals| && v < |x.vals|
    modifies x.repr
    ensures x.Valid() && fresh(x.repr - old(x.repr)) && x.vals == old(x.vals)[g := d]
    ensures IsGcd(d, old(x.vals[u]), old(x.vals[v]))
  {
    hide IsGcd, Vars.Valid;
    ghost var y, z := x.vals[u], x.vals[v];
    var c := x.Sgn(u);
    var e := x.Sgn(v);
    if c == 0 {
      d := Abs(z);
      GcdIntro(d, y, z, 0, Sign(z), 0, Sign(z));
      x.SetAbs(g, v);
    } else if e == 0 {
      d := Abs(y);
      GcdIntro(d, y, z, Sign(y), 0, Sign(y), 0);
      x.SetAbs(g, u);
    } else {
      d := GcdNonzero(x, g, u, v);
    }
  }

  method GcdNonzero(x: Vars, g: nat, u: nat, v: nat) returns (ghost d: int)
    requires x.Valid() && g < |x.vals| && u < |x.vals| && v < |x.vals| && x.vals[u] != 0 && x.vals[v] != 0
    modifies x.repr
    ensures x.Valid() && fresh(x.repr - old(x.repr)) && x.vals == old(x.vals)[g := d]
    ensures IsGcd(d, old(x.vals[u]), old(x.vals[v]))
  {
    hide IsGcd, Pow2, Vars.Valid;
    ghost var y, z := x.vals[u], x.vals[v];
    d := GcdExists(Abs(y), Abs(z));
    GcdAbs(d, y, z);
    var tu := x.Init();
    var tv := x.Init();
    var uz, vz := OddMagnitudes(x, tu, u, v);
    var gz := if uz <= vz then uz else vz;
    ghost var h := OddParts(d, Abs(y), Abs(z), x.vals[tu], uz, x.vals[tv], vz, gz);
    GcdOdd(x, tu, g, h);
    x.Clear(tu);
    x.Mul2exp(g, g, gz);
  }

  /** One division, then the loop. */
  method GcdOdd(x: Vars, n: nat, g: nat, ghost h: int)
    requires x.Valid() && |x.vals| == n + 2 && g < n && IsGcd(h, x.vals[n], x.vals[n + 1])
    requires x.vals[n] > 0 && x.vals[n + 1] > 0 && x.vals[n] % 2 == 1 && x.vals[n + 1] % 2 == 1
    modifies x.repr
    ensures x.Valid() && fresh(x.repr - old(x.repr)) && |x.vals| == n + 2
    ensures x.vals[..n] == old(x.vals[..n])[g := h]
  {
    hide IsGcd, Vars.Valid, Size, Rem;
    var tu, tv := n, n + 1;
    var un := x.SizeOf(tu);
    var vn := x.SizeOf(tv);
    if un < vn {
      GcdSwap(h, x.vals[tu], x.vals[tv]);
      x.Swap(tu, tv);
    }
    GcdReduce(h, x.vals[tu], x.vals[tv]);
    SignedTrunc(false, false, x.vals[tu], x.vals[tv]);
    x.DivR(tu, tu, tv);
    var c := x.Sgn(tu);
    if c == 0 {
      GcdZero(h, x.vals[tv]);
      x.Swap(g, tv);
    } else {
      GcdLoop(x, n, g, h);
    }
  }

  /** The gcd of two numbers from that of their odd parts. */
  lemma OddParts(g: int, u: int, v: int, tu: int, uz: nat, tv: int, vz: nat, gz: nat) returns (h: int)
    requires IsGcd(g, u, v) && u == tu * Pow2(uz) && v == tv * Pow2(vz) && tu % 2 == 1 && tv % 2 == 1
    requires gz == if uz <= vz then uz else vz
    ensures IsGcd(h, tu, tv) && g == h * Pow2(gz)
  {
    hide IsGcd, Pow2;
    Pow2Add(uz - gz, gz); Pow2Add(vz - gz, gz);
    Assoc(tu, Pow2(uz - gz), Pow2(gz)); Assoc(tv, Pow2(vz - gz), Pow2(gz));
    h := GcdUnscale(g, tu * Pow2(uz - gz), tv * Pow2(vz - gz), Pow2(gz));
    PowZero();
    if uz <= vz {
      GcdSwap(h, tu, tv * Pow2(vz - gz));
      GcdStrip(h, tv, vz - gz, tu);
      GcdSwap(h, tv, tu);
    } else {
      GcdStrip(h, tu, uz - gz, tv);
    }
  }

  /** The subtract-and-shift loop on tu and tv, until one of them fits a limb or they are equal. */
  method GcdLoop(x: Vars, n: nat, g: nat, ghost h: int)
    requires x.Valid() && |x.vals| == n + 2 && g < n
    requires x.vals[n] > 0 && x.vals[n + 1] > 0 && x.vals[n + 1] % 2 == 1 && IsGcd(h, x.vals[n], x.vals[n + 1])
    modifies x.repr
    ensures x.Valid() && fresh(x.repr - old(x.repr)) && |x.vals| == n + 2
    ensures x.vals[..n] == old(x.vals[..n])[g := h]
  {
    hide IsGcd, Pow2, Vars.Valid, Size;
    var tu, tv := n, n + 1;
    while true
      invariant x.Valid() && fresh(x.repr - old(x.repr)) && |x.vals| == n + 2 && x.vals[..n] == old(x.vals[..n])
      invariant x.vals[tu] > 0 && x.vals[tv] > 0 && x.vals[tv] % 2 == 1 && IsGcd(h, x.vals[tu], x.vals[tv])
      decreases x.vals[tu] + x.vals[tv]
    {
      var shift := x.MakeOdd(tu);
      GcdStrip(h, x.vals[tu], shift, x.vals[tv]);
      var c := x.Cmp(tu, tv);
      if c == 0 {
        GcdSelf(h, x.vals[tu]);
        x.Swap(g, tu);
        break;
      }
      if c < 0 {
        GcdSwap(h, x.vals[tu], x.vals[tv]);
        x.Swap(tu, tv);
      }
      var vn := x.SizeOf(tv);
      if vn == 1 {
        LastLimb(x, n, g, h);
        break;
      }
      GcdSubtract(h, x.vals[tu], x.vals[tv], 1);
      x.Sub(tu, tu, tv);
    }
  }

  /** tv is one limb: a remainder and mpn_gcd_11 finish. */
  method LastLimb(x: Vars, n: nat, g: nat, ghost h: int)
    requires x.Valid() && |x.vals| == n + 2 && g < n && Size(Abs(x.vals[n + 1])) == 1
    requires x.vals[n] > 0 && x.vals[n + 1] > 0 && IsGcd(h, x.vals[n], x.vals[n + 1])
    modifies x.repr
    ensures x.Valid() && fresh(x.repr - old(x.repr)) && x.vals == old(x.vals)[g := h]
  {
    hide IsGcd, Vars.Valid;
    ghost var y, z := x.vals[n], x.vals[n + 1];
    SizeBound(z, 1);
    var vl := x.LimbOf(n + 1, 0);
    var ul := x.ModLimb(n, vl);
    GcdReduce(h, y, z);
    var r := Gcd11(ul, vl);
    GcdUnique(r, h, y % z, z);
    x.SetLimb(g, r);
  }

  // ----- mpz_invert

  /** mpz_invert: succeeds exactly on the units modulo |m|; r is then the inverse, and else unchanged. */
  method MpzInvert(x: Vars, r: nat, u: nat, m: nat) returns (ok: bool)
    requires x.Valid() && r < |x.vals| && u < |x.vals| && m < |x.vals|
    modifies x.repr
    ensures x.Valid() && fresh(x.repr - old(x.repr)) && |x.vals| == old(|x.vals|)
    ensures ok <==> Abs(old(x.vals[m])) > 1 && IsGcd(1, old(x.vals[u]), old(x.vals[m]))
    ensures !ok ==> x.vals == old(x.vals)
    ensures ok ==> x.vals == old(x.vals)[r := x.vals[r]] && 0 < x.vals[r] < Abs(old(x.vals[m]))
    ensures ok ==> Divides(old(x.vals[m]), x.vals[r] * old(x.vals[u]) - 1)
  {
    hide IsGcd, Vars.Valid, Divides;
    ghost var y, z := x.vals[u], x.vals[m];
    var c := x.Sgn(u);
    var e := x.CmpAbsLimb(m, 1);
    if c == 0 || e <= 0 {
      if Abs(z) > 1 && IsGcd(1, y, z) { ZeroNotUnit(z); }
      return false;
    }
    ok := InvertUnit(x, r, u, m);
  }

  method InvertUnit(x: Vars, r: nat, u: nat, m: nat) returns (ok: bool)
    requires x.Valid() && r < |x.vals| && u < |x.vals| && m < |x.vals| && x.vals[u] != 0 && Abs(x.vals[m]) > 1
    modifies x.repr
    ensures x.Valid() && fresh(x.repr - old(x.repr)) && |x.vals| == old(|x.vals|)
    ensures ok <==> IsGcd(1, old(x.vals[u]), old(x.vals[m]))
    ensures !ok ==> x.vals == old(x.vals)
    ensures ok ==> x.vals == old(x.vals)[r := x.vals[r]] && 0 < x.vals[r] < Abs(old(x.vals[m]))
    ensures ok ==> Divides(old(x.vals[m]), x.vals[r] * old(x.vals[u]) - 1)
  {
    hide IsGcd, Vars.Valid, Divides;
    ghost var y, z := x.vals[u], x.vals[m];
    var g := x.Init();
    var tr := x.Init();
    ghost var d, s, t := GcdExt(x, g, tr, -1, u, m);
    var c := x.CmpLimb(g, 1);
    ok := c == 0;
    if IsGcd(1, y, z) { GcdUnique(d, 1, y, z); }
    if ok {
      InverseBound(y, z, s, t);
      MakePositive(x, tr, m);
      InverseCongruent(y, z, x.vals[tr], t, if z >= 0 then 1 else -1);
      x.Swap(r, tr);
    }
    x.Clear(g);
  }

  /** A negative cofactor is moved up by |m|. */
  method MakePositive(x: Vars, tr: nat, m: nat)
    requires x.Valid() && tr < |x.vals| && m < |x.vals| && tr != m
    modifies x.repr
    ensures x.Valid() && fresh(x.repr - old(x.repr))
    ensures x.vals == old(x.vals)[tr := old(x.vals[tr]) + if old(x.vals[tr]) < 0 then Abs(old(x.vals[m])) else 0]
  {
    hide Vars.Valid;
    var e := x.Sgn(tr);
    if e < 0 {
      e := x.Sgn(m);
      if e >= 0 { x.Add(tr, tr, m); } else { x.Sub(tr, tr, m); }
    }
  }

  lemma ZeroNotUnit(m: int)
    requires Abs(m) > 1
    ensures !IsGcd(1, 0, m)
  {
    if IsGcd(1, 0, m) {
      GcdIntro(Abs(m), 0, m, 0, Sign(m), 0, Sign(m));
      GcdUnique(1, Abs(m), 0, m);
    }
  }

  /** The cofactor of u is nonzero and smaller than |m|. */
  lemma InverseBound(u: int, m: int, s: int, t: int)
    requires u != 0 && Abs(m) > 1 && s * u + t * m == 1
    requires 2 * Abs(s) <= Abs(m) || 2 * Abs(t) <= Abs(u)
    ensures s != 0 && Abs(s) < Abs(m)
  {
    if s == 0 { UnitFactor(t, m); }
    if 2 * Abs(s) > Abs(m) {
      AbsProduct(s, u); AbsProduct(t, m);
      OtherBound(Abs(s), Abs(t), Abs(u), Abs(m));
    }
  }

  lemma OtherBound(s: int, t: int, u: int, m: int)
    requires m >= 2 && u >= 1 && 2 * t <= u && s * u <= 1 + t * m
    ensures s < m
  {
    MulMono(2 * t, u, m);
    Assoc(2, t, m);
    MulMono(2, m, u);
    if s >= m { MulMono(m, s, u); }
  }

  lemma UnitFactor(t: int, m: int)
    requires t * m == 1
    ensures Abs(m) == 1
  {
    AbsProduct(t, m);
    if Abs(t) == 0 {
    } else if Abs(m) >= 2 {
      MulMono(1, Abs(t), Abs(m));
    }
  }

  lemma AbsProduct(x: int, y: int)
    ensures Abs(x * y) == Abs(x) * Abs(y)
  {
  }

  lemma InverseCongruent(u: int, m: int, s: int, t: int, e: int)
    requires exists s0: int :: s0 * u + t * m == 1 && (s == s0 || s == s0 + e * m)
    ensures Divides(m, s * u - 1)
  {
    var s0: int :| s0 * u + t * m == 1 && (s == s0 || s == s0 + e * m);
    if s == s0 {
      assert m * -t == s * u - 1;
    } else {
      Dist(s0, e * m, u);
      assert m * (e * u - t) == s * u - 1 by { Dist(e * u, -t, m); Assoc(e, m, u); Assoc(e, u, m); }
    }
  }
}
