/** Greatest common divisors as generators, and mpz_gcdext with its cofactors. */
module Gcd {
  import opened Arith
  import opened MpnShift
  import opened MpzCore
  import opened MpzDiv
  import opened MpzMore
  import opened MpzVars

  ghost predicate Divides(d: int, n: int)
  {
    exists k: int :: d * k == n
  }

  ghost predicate Bezout(g: int, u: int, v: int, s: int, t: int)
  {
    g == s * u + t * v
  }

  /** g is the nonnegative generator of the integer combinations of u and v. */
  ghost predicate IsGcd(g: int, u: int, v: int)
  {
    g >= 0 && Divides(g, u) && Divides(g, v) && exists s: int, t: int :: Bezout(g, u, v, s, t)
  }

  /** It is the greatest common divisor: every common divisor divides it. */
  lemma GcdGreatest(g: int, u: int, v: int, d: int)
    requires IsGcd(g, u, v) && Divides(d, u) && Divides(d, v)
    ensures Divides(d, g) && (g > 0 ==> d <= g)
  {
    var s: int, t: int :| Bezout(g, u, v, s, t);
    var a :| d * a == u;
    var b :| d * b == v;
    Assoc(s, d, a); Assoc(t, d, b);
    assert d * (s * a + t * b) == g by { Dist(s * a, t * b, d); Assoc(s, a, d); Assoc(t, b, d); }
    if g > 0 && d > g {
      var k := s * a + t * b;
      if k >= 1 { MulMono(1, k, d); } else { MulMono(k, 0, d); }
    }
  }

  lemma GcdUnique(g: int, h: int, u: int, v: int)
    requires IsGcd(g, u, v) && IsGcd(h, u, v)
    ensures g == h
  {
    GcdGreatest(g, u, v, h);
    GcdGreatest(h, u, v, g);
    if g == 0 { DividesZero(h, g, u, v); }
    if h == 0 { DividesZero(g, h, u, v); }
  }

  /** Zero divides only zero. */
  lemma DividesZero(h: int, g: int, u: int, v: int)
    requires g == 0 && IsGcd(g, u, v) && IsGcd(h, u, v)
    ensures h == 0
  {
    var s: int, t: int :| Bezout(h, u, v, s, t);
    assert u == 0 && v == 0;
  }

  /** From an explicit combination. */
  lemma GcdIntro(g: int, u: int, v: int, a: int, b: int, s: int, t: int)
    requires g >= 0 && u == g * a && v == g * b && g == s * u + t * v
    ensures IsGcd(g, u, v)
  {
    assert Divides(g, u) && Divides(g, v);
    assert Bezout(g, u, v, s, t);
  }

  // ----- mpz_gcdext

  /** The loop invariant of mpz_gcdext: cofactors with determinant p. */
  ghost predicate Cofactors(u: int, v: int, tu: int, tv: int, t0: int, t1: int, s0: int, s1: int, p: int)
  {
    && u == t0 * tu + t1 * tv && v == s0 * tu + s1 * tv && t0 * s1 - t1 * s0 == p
    && 0 <= t0 && 0 <= t1 && 0 <= s0 && 0 <= s1
  }

  lemma ShearV(u: int, v: int, tu: int, tv: int, t0: int, t1: int, s0: int, s1: int, p: int)
    requires Cofactors(u, v, tu, tv, t0, t1, s0, s1, p)
    ensures Cofactors(u, v, tu, tv - tu, t0 + t1, t1, s0 + s1, s1, p)
  {
    Dist(t0, t1, tu); Dist(tv, -tu, t1);
    Dist(s0, s1, tu); Dist(tv, -tu, s1);
    Dist(t0, t1, s1); Dist(s0, s1, t1);
  }

  lemma ShearU(u: int, v: int, tu: int, tv: int, t0: int, t1: int, s0: int, s1: int, p: int)
    requires Cofactors(u, v, tu, tv, t0, t1, s0, s1, p)
    ensures Cofactors(u, v, tu - tv, tv, t0, t0 + t1, s0, s0 + s1, p)
  {
    Dist(t0, t1, tv); Dist(tu, -tv, t0);
    Dist(s0, s1, tv); Dist(tu, -tv, s0);
    Dist(s0, s1, t0); Dist(t0, t1, s0);
  }

  lemma ScaleV(u: int, v: int, tu: int, y: int, m: int, t0: int, t1: int, s0: int, s1: int, p: int)
    requires Cofactors(u, v, tu, y * m, t0, t1, s0, s1, p) && m > 0
    ensures Cofactors(u, v, tu, y, t0, t1 * m, s0, s1 * m, p * m)
  {
    Assoc(t1, m, y); Assoc(s1, m, y);
    Assoc(t0, s1, m); Assoc(s0, t1, m);
    Dist(t0 * s1, -(t1 * s0), m);
    MulMono(0, t1, m); MulMono(0, s1, m);
  }

  lemma ScaleU(u: int, v: int, y: int, m: int, tv: int, t0: int, t1: int, s0: int, s1: int, p: int)
    requires Cofactors(u, v, y * m, tv, t0, t1, s0, s1, p) && m > 0
    ensures Cofactors(u, v, y, tv, t0 * m, t1, s0 * m, s1, p * m)
  {
    Assoc(t0, m, y); Assoc(s0, m, y);
    Assoc(s1, t0, m); Assoc(t1, s0, m);
    Dist(t0 * s1, -(t1 * s0), m);
    MulMono(0, t0, m); MulMono(0, s0, m);
  }

  /** Cramer's rule: the combination that gives p tv. */
  lemma Cramer(u: int, v: int, tu: int, tv: int, t0: int, t1: int, s0: int, s1: int, p: int)
    requires Cofactors(u, v, tu, tv, t0, t1, s0, s1, p)
    ensures p * tv == -s0 * u + t0 * v
  {
    Dist(t0 * s1, -(t1 * s0), tv);
    Dist(s0 * tu, s1 * tv, t0); Assoc(t0, s1, tv); Assoc(t0, s0, tu);
    Dist(t0 * tu, t1 * tv, s0); Assoc(s0, t0, tu); Assoc(s0, t1, tv);
  }

  /** The locals tu, tv, s0, s1, t0, t1 of mpz_gcdext, in this order. */
  ghost predicate InLoop(w: seq<int>, u: int, v: int, power: nat)
  {
    && |w| == 6 && w[0] > 0 && w[1] > 0 && w[0] % 2 == 1 && w[1] % 2 == 1
    && Cofactors(u, v, w[0], w[1], w[4], w[5], w[2], w[3], Pow2(power))
  }

  /** tu < tv: subtract, and shift out the factors two. */
  method StepV(x: Vars, n: nat, power: nat, ghost u: int, ghost v: int) returns (shift: nat)
    requires x.Valid() && |x.vals| == n + 6 && InLoop(x.vals[n..], u, v, power) && x.vals[n] < x.vals[n + 1]
    modifies x.repr
    ensures x.Valid() && fresh(x.repr - old(x.repr)) && |x.vals| == n + 6 && x.vals[..n] == old(x.vals[..n])
    ensures InLoop(x.vals[n..], u, v, power + shift)
    ensures x.vals[n] + x.vals[n + 1] < old(x.vals[n] + x.vals[n + 1])
  {
    hide Pow2, Cofactors, Vars.Valid;
    var tu, tv, s0, s1, t0, t1 := n, n + 1, n + 2, n + 3, n + 4, n + 5;
    ghost var w := x.vals[n..];
    ShearV(u, v, w[0], w[1], w[4], w[5], w[2], w[3], Pow2(power));
    x.Sub(tv, tv, tu);
    x.Add(t0, t0, t1);
    x.Add(s0, s0, s1);
    shift := x.MakeOdd(tv);
    ScaleV(u, v, w[0], x.vals[tv], Pow2(shift), w[4] + w[5], w[5], w[2] + w[3], w[3], Pow2(power));
    x.Mul2exp(t1, t1, shift);
    x.Mul2exp(s1, s1, shift);
    Pow2Add(power, shift);
  }

  /** tu > tv: the same the other way round. */
  method StepU(x: Vars, n: nat, power: nat, ghost u: int, ghost v: int) returns (shift: nat)
    requires x.Valid() && |x.vals| == n + 6 && InLoop(x.vals[n..], u, v, power) && x.vals[n] > x.vals[n + 1]
    modifies x.repr
    ensures x.Valid() && fresh(x.repr - old(x.repr)) && |x.vals| == n + 6 && x.vals[..n] == old(x.vals[..n])
    ensures InLoop(x.vals[n..], u, v, power + shift)
    ensures x.vals[n] + x.vals[n + 1] < old(x.vals[n] + x.vals[n + 1])
  {
    hide Pow2, Cofactors, Vars.Valid;
    var tu, tv, s0, s1, t0, t1 := n, n + 1, n + 2, n + 3, n + 4, n + 5;
    ghost var w := x.vals[n..];
    ShearU(u, v, w[0], w[1], w[4], w[5], w[2], w[3], Pow2(power));
    x.Sub(tu, tu, tv);
    x.Add(t1, t0, t1);
    x.Add(s1, s0, s1);
    shift := x.MakeOdd(tu);
    ScaleU(u, v, x.vals[tu], Pow2(shift), w[1], w[4], w[4] + w[5], w[2], w[2] + w[3], Pow2(power));
    x.Mul2exp(t0, t0, shift);
    x.Mul2exp(s0, s0, shift);
    Pow2Add(power, shift);
  }

  /** The division and the subtract-and-shift loop, for u = tu 2^uz and v = tv 2^vz. */
  method CofactorLoop(x: Vars, n: nat, uz: nat, vz: nat) returns (power: nat, ghost a: int, ghost b: int)
    requires x.Valid() && |x.vals| == n + 6 && x.vals[n + 2] == 0 && x.vals[n + 3] == 0 && x.vals[n + 4] == 0
    requires x.vals[n] > 0 && x.vals[n + 1] > 0 && x.vals[n + 1] % 2 == 1
    modifies x.repr
    ensures x.Valid() && fresh(x.repr - old(x.repr)) && |x.vals| == n + 6 && x.vals[..n] == old(x.vals[..n])
    ensures x.vals[n + 1] > 0 && x.vals[n + 1] % 2 == 1
    ensures old(x.vals[n]) * Pow2(uz) == x.vals[n + 1] * a && old(x.vals[n + 1]) * Pow2(vz) == x.vals[n + 1] * b
    ensures Pow2(power) * x.vals[n + 1] ==
            -x.vals[n + 2] * (old(x.vals[n]) * Pow2(uz)) + x.vals[n + 4] * (old(x.vals[n + 1]) * Pow2(vz))
    ensures 0 <= x.vals[n + 2] <= b
  {
    hide Pow2, Cofactors, Quo, Rem, Vars.Valid;
    var tu, tv, s0, s1, t0, t1 := n, n + 1, n + 2, n + 3, n + 4, n + 5;
    ghost var u, v := x.vals[tu] * Pow2(uz), x.vals[tv] * Pow2(vz);
    FirstDivision(x.vals[tu], x.vals[tv], uz, vz);
    x.SetPower(t0, uz);
    x.DivQR(t1, tu, tu, tv);
    x.Mul2exp(t1, t1, uz);
    x.SetPower(s1, vz);
    power := uz + vz;
    var c := x.Sgn(tu);
    if c > 0 {
      power := SubtractLoop(x, n, power, u, v);
    }
    ghost var w := x.vals[n..];
    Cramer(u, v, w[0], w[1], w[4], w[5], w[2], w[3], Pow2(power));
    a, b := LoopEnd(u, v, w[0], w[1], w[4], w[5], w[2], w[3], Pow2(power));
  }

  method SubtractLoop(x: Vars, n: nat, power0: nat, ghost u: int, ghost v: int) returns (power: nat)
    requires x.Valid() && |x.vals| == n + 6 && x.vals[n] > 0 && x.vals[n + 1] > 0 && x.vals[n + 1] % 2 == 1
    requires Cofactors(u, v, x.vals[n], x.vals[n + 1], x.vals[n + 4], x.vals[n + 5], x.vals[n + 2], x.vals[n + 3],
                       Pow2(power0))
    modifies x.repr
    ensures x.Valid() && fresh(x.repr - old(x.repr)) && |x.vals| == n + 6 && x.vals[..n] == old(x.vals[..n])
    ensures InLoop(x.vals[n..], u, v, power) && x.vals[n] == x.vals[n + 1]
  {
    hide Pow2, Cofactors, Vars.Valid;
    var tu, tv, s0, t0 := n, n + 1, n + 2, n + 4;
    ghost var w := x.vals[n..];
    var shift := x.MakeOdd(tu);
    ScaleU(u, v, x.vals[tu], Pow2(shift), w[1], w[4], w[5], w[2], w[3], Pow2(power0));
    x.Mul2exp(t0, t0, shift);
    x.Mul2exp(s0, s0, shift);
    Pow2Add(power0, shift);
    power := power0 + shift;
    while true
      invariant x.Valid() && fresh(x.repr - old(x.repr)) && |x.vals| == n + 6 && x.vals[..n] == old(x.vals[..n])
      invariant InLoop(x.vals[n..], u, v, power)
      decreases x.vals[n] + x.vals[n + 1]
    {
      var c := x.Cmp(tu, tv);
      if c == 0 {
        break;
      }
      if c < 0 {
        shift := StepV(x, n, power, u, v);
      } else {
        shift := StepU(x, n, power, u, v);
      }
      power := power + shift;
    }
  }

  lemma FirstDivision(tu: int, tv: int, uz: nat, vz: nat)
    requires tu > 0 && tv > 0
    ensures Cofactors(tu * Pow2(uz), tv * Pow2(vz), Rem(Trunc, tu, tv), tv,
                      Pow2(uz), Quo(Trunc, tu, tv) * Pow2(uz), 0, Pow2(vz), Pow2(uz + vz))
    ensures 0 <= Rem(Trunc, tu, tv)
  {
    hide Quo, Rem, Pow2;
    SignedTrunc(false, false, tu, tv);
    var q, r, m := tu / tv, tu % tv, Pow2(uz);
    assert tu == q * tv + r;
    Dist(q * tv, r, m);
    Assoc(q, tv, m); Assoc(q, m, tv);
    if q < 0 { MulMono(q, -1, tv); }
    MulMono(0, q, m);
    Pow2Add(uz, vz);
  }

  lemma LoopEnd(u: int, v: int, tu: int, tv: int, t0: int, t1: int, s0: int, s1: int, p: int)
    returns (a: int, b: int)
    requires Cofactors(u, v, tu, tv, t0, t1, s0, s1, p) && tv > 0
    requires tu == tv || (tu == 0 && s0 == 0)
    ensures u == tv * a && v == tv * b && 0 <= s0 <= b
  {
    if tu == tv {
      a, b := t0 + t1, s0 + s1;
      Dist(t0, t1, tv); Dist(s0, s1, tv);
    } else {
      a, b := t1, s1;
    }
  }

  /** Removing the factor 2^power from s0 and t0, one exact halving at a time. */
  method HalveCofactors(x: Vars, n: nat, power0: nat)
    requires x.Valid() && |x.vals| == n + 6
    requires Pow2(power0) == x.vals[n + 2] * x.vals[n + 5] + x.vals[n + 4] * x.vals[n + 3]
    requires (x.vals[n + 3] % 2 == 1 || x.vals[n + 5] % 2 == 1) && -x.vals[n + 3] <= x.vals[n + 2] <= 0
    modifies x.repr
    ensures x.Valid() && fresh(x.repr - old(x.repr)) && |x.vals| == n + 6
    ensures x.vals == old(x.vals)[n + 2 := x.vals[n + 2]][n + 4 := x.vals[n + 4]]
    ensures 1 == x.vals[n + 2] * x.vals[n + 5] + x.vals[n + 4] * x.vals[n + 3]
    ensures -x.vals[n + 3] <= x.vals[n + 2] <= 0
  {
    hide Pow2, Vars.Valid;
    var s0, s1, t0, t1 := n + 2, n + 3, n + 4, n + 5;
    var power := power0;
    while power > 0
      invariant x.Valid() && fresh(x.repr - old(x.repr)) && |x.vals| == n + 6
      invariant x.vals == old(x.vals)[s0 := x.vals[s0]][t0 := x.vals[t0]]
      invariant Pow2(power) == x.vals[s0] * x.vals[t1] + x.vals[t0] * x.vals[s1] && -x.vals[s1] <= x.vals[s0] <= 0
    {
      power := power - 1;
      HalvingStep(x.vals[s0], x.vals[t0], x.vals[s1], x.vals[t1], power);
      var odd := x.Odd(s0);
      if !odd { odd := x.Odd(t0); }
      if odd {
        x.Sub(s0, s0, s1);
        x.Add(t0, t0, t1);
      }
      x.DivExactLimb(s0, s0, 2);
      x.DivExactLimb(t0, t0, 2);
    }
    PowZero();
  }

  lemma HalvingStep(s0: int, t0: int, s1: int, t1: int, k: nat)
    requires Pow2(k + 1) == s0 * t1 + t0 * s1 && (s1 % 2 == 1 || t1 % 2 == 1) && -s1 <= s0 <= 0
    ensures var odd := s0 % 2 == 1 || t0 % 2 == 1;
            var x, y := if odd then s0 - s1 else s0, if odd then t0 + t1 else t0;
            && x % 2 == 0 && y % 2 == 0 && Pow2(k) == x / 2 * t1 + y / 2 * s1 && -s1 <= x / 2 <= 0
  {
    hide Pow2;
    HalvingExact(s0, t0, s1, t1, k);
    if s0 % 2 == 1 || t0 % 2 == 1 {
      ShiftPair(s0, t0, s1, t1);
      HalvePair((s0 - s1) / 2, (t0 + t1) / 2, s1, t1, k);
    } else {
      HalvePair(s0 / 2, t0 / 2, s1, t1, k);
    }
  }

  lemma ShiftPair(s0: int, t0: int, s1: int, t1: int)
    ensures (s0 - s1) * t1 + (t0 + t1) * s1 == s0 * t1 + t0 * s1
  {
    Dist(s0, -s1, t1);
    Dist(t0, t1, s1);
  }

  lemma HalvePair(x: int, y: int, s1: int, t1: int, k: nat)
    requires Pow2(k + 1) == 2 * x * t1 + 2 * y * s1
    ensures Pow2(k) == x * t1 + y * s1
  {
    Assoc(2, x, t1); Assoc(2, y, s1);
  }

  /** An even combination: both cofactors are even, or become even after the shift. */
  lemma HalvingExact(s0: int, t0: int, s1: int, t1: int, k: nat)
    requires Pow2(k + 1) == s0 * t1 + t0 * s1 && (s1 % 2 == 1 || t1 % 2 == 1)
    ensures s0 % 2 == 1 || t0 % 2 == 1 ==> (s0 - s1) % 2 == 0 && (t0 + t1) % 2 == 0
  {
    hide Pow2;
    EvenPow(k);
    ParityProduct(s0, t1); ParityProduct(t0, s1);
    EvenSum(s0 * t1, t0 * s1);
    OddCases(s0, t0, s1, t1, s0 * t1 % 2, t0 * s1 % 2);
  }

  lemma OddCases(s0: int, t0: int, s1: int, t1: int, p: int, q: int)
    requires p == q && (s1 % 2 == 1 || t1 % 2 == 1)
    requires p == (if s0 % 2 == 1 && t1 % 2 == 1 then 1 else 0) && q == (if t0 % 2 == 1 && s1 % 2 == 1 then 1 else 0)
    ensures s0 % 2 == 1 || t0 % 2 == 1 ==> (s0 - s1) % 2 == 0 && (t0 + t1) % 2 == 0
  {
  }

  lemma EvenSum(x: int, y: int)
    requires (x + y) % 2 == 0
    ensures x % 2 == y % 2
  {
  }

  lemma EvenPow(k: nat)
    ensures Pow2(k + 1) % 2 == 0
  {
    hide Pow2;
    Pow2Next(k);
  }

  lemma ParityProduct(x: int, y: int)
    ensures x * y % 2 == (if x % 2 == 1 && y % 2 == 1 then 1 else 0)
  {
    var c, d := x % 2, y % 2;
    var e := SplitParity(x, y, x / 2, y / 2, c, d);
    EvenPlus(x * y, e, if c == 1 && d == 1 then 1 else 0);
  }

  lemma SplitParity(x: int, y: int, a: int, b: int, c: int, d: int) returns (e: int)
    requires x == 2 * a + c && y == 2 * b + d && 0 <= c < 2 && 0 <= d < 2
    ensures x * y == 2 * e + if c == 1 && d == 1 then 1 else 0
  {
    if c == 0 {
      e := a * y;
      Assoc(2, a, y);
    } else {
      e := a * y + b;
      Dist(2 * a, 1, y); Assoc(2, a, y);
    }
  }

  lemma EvenPlus(p: int, e: int, r: int)
    requires p == 2 * e + r && 0 <= r < 2
    ensures p % 2 == r
  {
  }

  /** The outputs of mpz_gcdext, in either order: they differ only if s and t are the same variable. */
  ghost predicate Stored(w: seq<int>, w0: seq<int>, g: nat, s: int, t: int, d: int, a: int, b: int)
    requires g < |w0| && -1 <= s < |w0| && -1 <= t < |w0|
  {
    w == Put(Put(w0[g := d], s, a), t, b) || w == Put(Put(w0[g := d], t, b), s, a)
  }

  /** The gcd d of y and z with cofactors a and b, one of which is small. */
  ghost predicate Cofactor(d: int, a: int, b: int, y: int, z: int)
  {
    && IsGcd(d, y, z) && d == a * y + b * z
    && (y != 0 && z != 0 ==> d > 0 && (2 * Abs(a) * d <= Abs(z) || 2 * Abs(b) * d <= Abs(y)))
  }

  /** mpz_gcdext.  s and t may be null; the outputs may be inputs. */
  method GcdExt(x: Vars, g: nat, s: int, t: int, u: nat, v: nat) returns (ghost d: int, ghost a: int, ghost b: int)
    requires x.Valid() && g < |x.vals| && u < |x.vals| && v < |x.vals|
    requires -1 <= s < |x.vals| && -1 <= t < |x.vals|
    modifies x.repr
    ensures x.Valid() && fresh(x.repr - old(x.repr))
    ensures Cofactor(d, a, b, old(x.vals[u]), old(x.vals[v])) && Stored(x.vals, old(x.vals), g, s, t, d, a, b)
  {
    hide Vars.Valid, IsGcd;
    ghost var y, z := x.vals[u], x.vals[v];
    var c := x.Sgn(u);
    var e := x.Sgn(v);
    if c == 0 {
      d, a, b := Abs(z), 0, Sign(z);
      GcdIntro(d, y, z, 0, Sign(z), a, b);
      x.SetAbs(g, v);
      if s >= 0 { x.SetLimb(s, 0); }
      if t >= 0 { x.SetSign(t, e); }
    } else if e == 0 {
      d, a, b := Abs(y), Sign(y), 0;
      GcdIntro(d, y, z, Sign(y), 0, a, b);
      x.SetAbs(g, u);
      if s >= 0 { x.SetSign(s, c); }
      if t >= 0 { x.SetLimb(t, 0); }
    } else {
      d, a, b := GcdExtNonzero(x, g, s, t, u, v);
    }
  }

  method GcdExtNonzero(x: Vars, g: nat, s: int, t: int, u: nat, v: nat)
    returns (ghost d: int, ghost a: int, ghost b: int)
    requires x.Valid() && g < |x.vals| && u < |x.vals| && v < |x.vals|
    requires -1 <= s < |x.vals| && -1 <= t < |x.vals| && x.vals[u] != 0 && x.vals[v] != 0
    modifies x.repr
    ensures x.Valid() && fresh(x.repr - old(x.repr))
    ensures Cofactor(d, a, b, old(x.vals[u]), old(x.vals[v])) && Stored(x.vals, old(x.vals), g, s, t, d, a, b)
  {
    hide Vars.Valid, Pow2, ExtGcd, Size;
    var n := NewLocals(x);
    var uz, vz := OddMagnitudes(x, n, u, v);
    var gz := if uz <= vz then uz else vz;
    var un := x.SizeOf(n);
    var vn := x.SizeOf(n + 1);
    if un < vn {
      x.Swap(n, n + 1);
      GcdExtOrdered(x, n, v, u, vz - gz, uz - gz, gz);
      d, a, b := x.vals[n + 1], x.vals[n + 4], x.vals[n + 2];
      ExtCofactor(d, b, a, old(x.vals[v]), old(x.vals[u]));
      StoreLocals(x, n, g, t, s);
    } else {
      GcdExtOrdered(x, n, u, v, uz - gz, vz - gz, gz);
      d, a, b := x.vals[n + 1], x.vals[n + 2], x.vals[n + 4];
      ExtCofactor(d, a, b, old(x.vals[u]), old(x.vals[v]));
      StoreLocals(x, n, g, s, t);
    }
  }

  lemma ExtCofactor(d: int, a: int, b: int, y: int, z: int)
    requires ExtGcd(d, a, b, y, z)
    ensures Cofactor(d, a, b, y, z) && Cofactor(d, b, a, z, y)
  {
    assert Bezout(d, y, z, a, b) && Bezout(d, z, y, b, a);
  }

  method NewLocals(x: Vars) returns (n: nat)
    requires x.Valid()
    modifies x.repr
    ensures x.Valid() && fresh(x.repr - old(x.repr)) && n == old(|x.vals|)
    ensures x.vals == old(x.vals) + [0, 0, 0, 0, 0, 0]
  {
    hide Vars.Valid;
    n := x.Init();
    for i := 1 to 6
      invariant x.Valid() && fresh(x.repr - old(x.repr)) && x.vals == old(x.vals) + seq(i, _ => 0)
    {
      var k := x.Init();
    }
  }

  /** tu and tv: the magnitudes of the inputs without their factors two. */
  method OddMagnitudes(x: Vars, n: nat, u: nat, v: nat) returns (uz: nat, vz: nat)
    requires x.Valid() && |x.vals| >= n + 2 && u < n && v < n && x.vals[u] != 0 && x.vals[v] != 0
    modifies x.repr
    ensures x.Valid() && fresh(x.repr - old(x.repr)) && |x.vals| == old(|x.vals|)
    ensures x.vals == old(x.vals)[n := x.vals[n]][n + 1 := x.vals[n + 1]]
    ensures x.vals[n] > 0 && x.vals[n + 1] > 0 && x.vals[n] % 2 == 1 && x.vals[n + 1] % 2 == 1
    ensures Abs(x.vals[u]) == x.vals[n] * Pow2(uz) && Abs(x.vals[v]) == x.vals[n + 1] * Pow2(vz)
  {
    hide Vars.Valid, Pow2;
    x.SetAbs(n, u);
    uz := x.MakeOdd(n);
    x.SetAbs(n + 1, v);
    vz := x.MakeOdd(n + 1);
  }

  /** The gcd and the cofactors wanted are swapped out, and the locals cleared. */
  method StoreLocals(x: Vars, n: nat, g: nat, s: int, t: int)
    requires x.Valid() && |x.vals| == n + 6 && g < n && -1 <= s < n && -1 <= t < n
    modifies x.repr
    ensures x.Valid() && fresh(x.repr - old(x.repr))
    ensures x.vals == Put(Put(old(x.vals[..n])[g := old(x.vals[n + 1])], s, old(x.vals[n + 2])), t, old(x.vals[n + 4]))
  {
    hide Vars.Valid;
    x.Swap(g, n + 1);
    if s >= 0 { x.Swap(s, n + 2); }
    if t >= 0 { x.Swap(t, n + 4); }
    x.Clear(n);
  }

  lemma GcdFactors(g: int, u: int, v: int) returns (a: int, b: int)
    requires Divides(g, u) && Divides(g, v)
    ensures g * a == u && g * b == v
  {
    a :| g * a == u;
    b :| g * b == v;
  }

  /** After the inputs are put in order: the gcd in tv, the cofactors in s0 and t0, |s0| made smallest. */
  method GcdExtOrdered(x: Vars, n: nat, u: nat, v: nat, uz: nat, vz: nat, gz: nat)
    requires x.Valid() && |x.vals| == n + 6 && x.vals[n + 2] == 0 && x.vals[n + 3] == 0 && x.vals[n + 4] == 0
    requires u < n && v < n && x.vals[u] != 0 && x.vals[v] != 0
    requires x.vals[n] > 0 && x.vals[n + 1] > 0 && x.vals[n] % 2 == 1 && x.vals[n + 1] % 2 == 1
    requires (uz == 0 || vz == 0)
    requires Abs(x.vals[u]) == x.vals[n] * Pow2(uz + gz) && Abs(x.vals[v]) == x.vals[n + 1] * Pow2(vz + gz)
    modifies x.repr
    ensures x.Valid() && fresh(x.repr - old(x.repr)) && |x.vals| == n + 6 && x.vals[..n] == old(x.vals[..n])
    ensures ExtGcd(x.vals[n + 1], x.vals[n + 2], x.vals[n + 4], x.vals[u], x.vals[v])
  {
    hide Pow2, Vars.Valid, ExtGcd;
    ghost var base := x.vals[..n];
    ghost var ou, ov := x.vals[n], x.vals[n + 1];
    var tv, s0, t0 := n + 1, n + 2, n + 4;
    var power;
    ghost var a, b;
    power, a, b := CofactorLoop(x, n, uz, vz);
    assert x.vals[u] == base[u] && x.vals[v] == base[v];
    ghost var h := x.vals[tv];
    ghost var g := h * Pow2(gz);
    Remainders(base[u], base[v], ou, ov, uz, vz, gz, h, a, b, g);
    DivideCombination(h, power, x.vals[s0], x.vals[t0], a, b, ou * Pow2(uz), ov * Pow2(vz));
    x.Mul2exp(tv, tv, gz);
    x.Neg(s0, s0);
    Quotients(x, n, u, v, g);
    HalveCofactors(x, n, power);
    SmallestCofactor(x, n, g, a, b);
    FixSigns(x, n, u, v, g, a, b);
  }

  /** s1 and t1: the inputs divided by the gcd in tv. */
  method Quotients(x: Vars, n: nat, u: nat, v: nat, ghost g: int)
    requires x.Valid() && |x.vals| == n + 6 && u < n && v < n && x.vals[n + 1] == g > 0
    requires x.vals[u] % g == 0 && x.vals[v] % g == 0
    modifies x.repr
    ensures x.Valid() && fresh(x.repr - old(x.repr))
    ensures x.vals == old(x.vals)[n + 3 := Abs(old(x.vals[v]) / g)][n + 5 := Abs(old(x.vals[u]) / g)]
  {
    hide Vars.Valid;
    var tv, s1, t1 := n + 1, n + 3, n + 5;
    x.DivExact(s1, v, tv);
    x.SetAbs(s1, s1);
    x.DivExact(t1, u, tv);
    x.SetAbs(t1, t1);
  }

  /** The divisions of the inputs by the gcd are exact, and one quotient is odd. */
  lemma Remainders(y: int, z: int, tu: int, tv: int, uz: nat, vz: nat, gz: nat, h: int, a: int, b: int, g: int)
    requires tu % 2 == 1 && tv % 2 == 1 && (uz == 0 || vz == 0) && h > 0 && g == h * Pow2(gz)
    requires tu * Pow2(uz) == h * a && tv * Pow2(vz) == h * b
    requires Abs(y) == tu * Pow2(uz + gz) && Abs(z) == tv * Pow2(vz + gz)
    ensures g > 0 && Abs(y) == g * a && Abs(z) == g * b && (a % 2 == 1 || b % 2 == 1)
    ensures y % g == 0 && Abs(y / g) == a && z % g == 0 && Abs(z / g) == b
  {
    hide Pow2;
    SplitOff(Abs(y), tu, uz, gz, h, a, g);
    SplitOff(Abs(z), tv, vz, gz, h, b, g);
    OddCofactor(tu, uz, tv, vz, h, a, b);
    ExactAbs(y, g, a);
    ExactAbs(z, g, b);
  }

  /** g > 0 is a common divisor and a combination, with a small first cofactor. */
  ghost predicate ExtGcd(g: int, s: int, t: int, u: int, v: int)
  {
    g > 0 && Divides(g, u) && Divides(g, v) && g == s * u + t * v && 2 * Abs(s) * g <= Abs(v)
  }

  lemma ExactAbs(u: int, g: int, a: int)
    requires g > 0 && Abs(u) == g * a
    ensures u % g == 0 && Abs(u / g) == a
  {
    if u < 0 { DivModUnique(u, g, -a, 0); } else { DivModUnique(u, g, a, 0); }
    if a < 0 { MulMono(a, -1, g); }
  }

  /** Of s0 and s0 + s1, the one of smaller magnitude. */
  method SmallestCofactor(x: Vars, n: nat, ghost g: int, ghost a: int, ghost b: int)
    requires x.Valid() && |x.vals| == n + 6 && x.vals[n + 1] == g && x.vals[n + 3] == b && x.vals[n + 5] == a
    requires 1 == x.vals[n + 2] * a + x.vals[n + 4] * b && -b <= x.vals[n + 2] <= 0
    modifies x.repr
    ensures x.Valid() && fresh(x.repr - old(x.repr)) && |x.vals| == n + 6 && x.vals[..n] == old(x.vals[..n])
    ensures x.vals[n + 1] == g && 1 == x.vals[n + 2] * a + x.vals[n + 4] * b && 2 * Abs(x.vals[n + 2]) <= b
  {
    hide Vars.Valid;
    var s0, s1, t0, t1 := n + 2, n + 3, n + 4, n + 5;
    x.Add(s1, s0, s1);
    var c := x.CmpAbs(s0, s1);
    if c > 0 {
      Dist(x.vals[s0], b, a); Dist(x.vals[t0], -a, b);
      x.Swap(s0, s1);
      x.Sub(t0, t0, t1);
    }
  }

  /** The cofactors of u and v from those of |u| and |v|. */
  method FixSigns(x: Vars, n: nat, u: nat, v: nat, ghost g: int, ghost a: int, ghost b: int)
    requires x.Valid() && |x.vals| == n + 6 && x.vals[n + 1] == g > 0 && u < n && v < n
    requires Abs(x.vals[u]) == g * a && Abs(x.vals[v]) == g * b
    requires 1 == x.vals[n + 2] * a + x.vals[n + 4] * b && 2 * Abs(x.vals[n + 2]) <= b
    modifies x.repr
    ensures x.Valid() && fresh(x.repr - old(x.repr)) && |x.vals| == n + 6 && x.vals[..n] == old(x.vals[..n])
    ensures ExtGcd(x.vals[n + 1], x.vals[n + 2], x.vals[n + 4], x.vals[u], x.vals[v])
  {
    hide Vars.Valid, Divides;
    var s0, t0 := n + 2, n + 4;
    ghost var s, t, y, z := x.vals[s0], x.vals[t0], x.vals[u], x.vals[v];
    Recombine(g, a, b, s, t);
    SmallCofactor(Abs(s), b, g);
    DividesAbs(g, y, a); DividesAbs(g, z, b);
    SignedTerm(s, y); SignedTerm(t, z);
    var c := x.Sgn(u);
    if c < 0 { x.Neg(s0, s0); }
    c := x.Sgn(v);
    if c < 0 { x.Neg(t0, t0); }
  }

  lemma SplitOff(n: int, x: int, z: nat, gz: nat, h: int, a: int, g: int)
    requires n == x * Pow2(z + gz) && x * Pow2(z) == h * a && h > 0 && g == h * Pow2(gz)
    ensures g > 0 && n == g * a
  {
    Pow2Add(z, gz);
    Assoc(x, Pow2(z), Pow2(gz));
    Assoc(h, a, Pow2(gz)); Assoc(h, Pow2(gz), a);
    MulMono(1, Pow2(gz), h);
  }

  /** One of the cofactors u/g, v/g is odd. */
  lemma OddCofactor(tu: int, uz: nat, tv: int, vz: nat, h: int, a: int, b: int)
    requires tu % 2 == 1 && tv % 2 == 1 && (uz == 0 || vz == 0)
    requires tu * Pow2(uz) == h * a && tv * Pow2(vz) == h * b
    ensures a % 2 == 1 || b % 2 == 1
  {
    PowZero();
    ParityProduct(h, a); ParityProduct(h, b);
  }

  lemma DivideCombination(h: int, power: nat, s0: int, t0: int, a: int, b: int, u: int, v: int)
    requires h > 0 && u == h * a && v == h * b && Pow2(power) * h == -s0 * u + t0 * v
    ensures Pow2(power) == -s0 * a + t0 * b
  {
    Assoc(-s0, a, h); Assoc(t0, b, h);
    Dist(-s0 * a, t0 * b, h);
    CancelFactor(Pow2(power), -s0 * a + t0 * b, h);
  }

  lemma CancelFactor(x: int, y: int, h: int)
    requires h > 0 && x * h == y * h
    ensures x == y
  {
    if x < y { MulMono(x + 1, y, h); Dist(x, 1, h); }
    if y < x { MulMono(y + 1, x, h); Dist(y, 1, h); }
  }

  lemma Recombine(g: int, a: int, b: int, s0: int, t0: int)
    requires 1 == s0 * a + t0 * b
    ensures g == s0 * (g * a) + t0 * (g * b)
  {
    Assoc(s0, a, g); Assoc(t0, b, g);
    Dist(s0 * a, t0 * b, g);
  }

  lemma SmallCofactor(x: int, b: int, g: int)
    requires 2 * x <= b && g > 0
    ensures 2 * x * g <= g * b
  {
    MulMono(2 * x, b, g);
  }

  lemma DividesAbs(g: int, u: int, a: int)
    requires Abs(u) == g * a
    ensures Divides(g, u)
  {
    if u < 0 { assert g * -a == u; }
  }

  lemma SignedTerm(s0: int, u: int)
    ensures (if u < 0 then -s0 else s0) * u == s0 * Abs(u)
  {
  }
}
