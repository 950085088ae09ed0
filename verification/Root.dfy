/** mpz_rootrem: integer Newton iteration for the z-th root. */
module Root {
  import opened Arith
  import opened Limbs
  import opened MpzCore
  import opened Modular
  import opened PowMod
  import opened MpzDiv
  import opened MpzVars
  import opened RadixText

  // ----- powers of nonnegative numbers

  lemma {:induction false} PowMono(a: nat, b: nat, n: nat)
    requires a <= b
    ensures Pow(a, n) <= Pow(b, n)
    decreases n
  {
    if n > 0 {
      PowMono(a, b, n - 1);
      PowNonneg(a, n - 1);
      MulMono(Pow(a, n - 1), Pow(b, n - 1), b);
      MulMono(a, b, Pow(a, n - 1));
    }
  }

  /** x^z + (z - 1) u^z >= z x u^(z-1): the tangent of the z-th power lies below it. */
  lemma {:induction false} Tangent(x: nat, u: nat, z: nat)
    requires z >= 1
    ensures Pow(x, z) + (z - 1) * Pow(u, z) >= z * x * Pow(u, z - 1)
    decreases z
  {
    if z == 1 {
      assert Pow(x, 1) == x * Pow(x, 0) && Pow(u, 0) == 1;
    } else {
      Tangent(x, u, z - 1);
      PowNonneg(u, z - 2);
      TangentStep(x, u, z - 1, Pow(x, z - 1), Pow(u, z - 2));
    }
  }

  lemma TangentStep(x: nat, u: nat, k: nat, xk: int, w: int)
    requires k >= 1 && w >= 0 && xk + (k - 1) * (u * w) >= k * x * w
    ensures x * xk + k * (u * (u * w)) >= (k + 1) * x * (u * w)
  {
    var s := xk + (k - 1) * (u * w) - k * x * w;
    MulMono(0, s, x);
    var d := (x - u) * (x - u);
    SquareNonneg(x - u);
    MulMono(0, d, w);
    MulMono(0, d * w, k);
    TangentIdentity(x, u, k, xk, w);
  }

  lemma SquareNonneg(y: int)
    ensures y * y >= 0
  {
    if y >= 0 { MulMono(0, y, y); } else { MulMono(0, -y, -y); }
  }

  lemma TangentIdentity(x: int, u: int, k: int, xk: int, w: int)
    ensures x * xk + k * (u * (u * w)) - (k + 1) * x * (u * w)
         == x * (xk + (k - 1) * (u * w) - k * x * w) + k * ((x - u) * (x - u) * w)
  {
  }

  // ----- one Newton step

  ghost function Newton(y: nat, z: nat, u: nat): int
    requires z >= 1 && u >= 1
  {
    PowNonneg(u, z - 1);
    (y / Pow(u, z - 1) + u * (z - 1)) / z
  }

  /** A step never goes below the root. */
  lemma NewtonAbove(y: nat, z: nat, u: nat, x: nat)
    requires z >= 1 && u >= 1 && Pow(x, z) <= y
    ensures Newton(y, z, u) >= x
  {
    hide Pow;
    var p := Pow(u, z - 1);
    PowNonneg(u, z - 1);
    Tangent(x, u, z);
    PowUnfold(u, z);
    AboveArith(y, z, u, x, p);
  }

  lemma PowUnfold(u: int, z: nat)
    requires z >= 1
    ensures Pow(u, z) == u * Pow(u, z - 1)
  {
  }

  lemma AboveArith(y: int, z: int, u: int, x: int, p: int)
    requires z >= 1 && p >= 1 && y + (z - 1) * (u * p) >= z * x * p
    ensures (y / p + u * (z - 1)) / z >= x
  {
    var k := z * x - (z - 1) * u;
    assert k * p <= y by { Dist(z * x, -((z - 1) * u), p); Assoc(z - 1, u, p); }
    assert y / p >= k by { AtLeastQuotient(y, p, k); }
    AtLeastQuotient(y / p + u * (z - 1), z, x);
  }

  lemma AtLeastQuotient(n: int, d: int, k: int)
    requires d > 0 && k * d <= n
    ensures n / d >= k
  {
    var q := n / d;
    assert n == q * d + n % d;
    if q < k { MulMono(q + 1, k, d); Dist(q, 1, d); }
  }

  /** From above the root a step goes down. */
  lemma NewtonBelow(y: nat, z: nat, u: nat)
    requires z >= 1 && u >= 1 && y < Pow(u, z)
    ensures Newton(y, z, u) < u
  {
    hide Pow;
    var p := Pow(u, z - 1);
    PowNonneg(u, z - 1);
    PowUnfold(u, z);
    BelowQuotient(y, p, u);
    Dist(z - 1, 1, u);
    BelowQuotient(y / p + u * (z - 1), z, u);
  }

  lemma BelowQuotient(n: int, d: int, k: int)
    requires d > 0 && n < k * d
    ensures n / d < k
  {
    var q := n / d;
    assert n == q * d + n % d;
    if q >= k { MulMono(k, q, d); }
  }

  /** u bounds every candidate root. */
  ghost predicate Above(u: int, y: nat, z: nat)
  {
    forall x: nat :: Pow(x, z) <= y ==> x <= u
  }

  lemma AboveStart(u: nat, y: nat, z: nat)
    requires y < Pow(u, z)
    ensures Above(u, y, z)
  {
    forall x: nat | Pow(x, z) <= y ensures x <= u { if x > u { PowMono(u, x, z); } }
  }

  lemma AboveStep(u: nat, y: nat, z: nat)
    requires z >= 1 && u >= 1
    ensures Above(Newton(y, z, u), y, z)
  {
    forall x: nat | Pow(x, z) <= y ensures x <= Newton(y, z, u) { NewtonAbove(y, z, u, x); }
  }

  lemma AbovePositive(u: int, y: nat, z: nat)
    requires Above(u, y, z) && y >= 1
    ensures u >= 1
  {
    PowOne(z);
    assert Pow(1, z) <= y;
  }

  /** Where a step does not go down, the bound is the root. */
  lemma NewtonStops(u: nat, y: nat, z: nat)
    requires z >= 1 && u >= 1 && Above(u, y, z) && Newton(y, z, u) >= u
    ensures Pow(u, z) <= y < Pow(u + 1, z)
  {
    if y < Pow(u, z) { NewtonBelow(y, z, u); }
    AboveNext(u, y, z);
  }

  lemma AboveNext(u: nat, y: nat, z: nat)
    requires Above(u, y, z)
    ensures y < Pow(u + 1, z)
  {
  }

  // ----- the starting point

  /** The number of binary digits. */
  lemma {:induction false} BitBound(x: nat)
    ensures x < Pow2(|Digits(x, 2)|)
  {
    if x > 0 { BitBound(x / 2); }
  }

  lemma StartAbove(y: nat, z: nat)
    requires z >= 1
    ensures 0 <= |Digits(y, 2)| / z + 1 && y < Pow(Pow2(|Digits(y, 2)| / z + 1), z)
  {
    hide Pow, Pow2, Digits;
    var n := |Digits(y, 2)|;
    var k := n / z + 1;
    assert n == n / z * z + n % z;
    if n / z < 0 { MulMono(n / z, -1, z); }
    Dist(n / z, 1, z);
    BitBound(y);
    PowOfTwo(k, z);
    Pow2Mono(n, k * z);
  }

  // ----- mpz_rootrem

  /** The truncated z-th root of y. */
  ghost predicate IsRoot(x: int, y: int, z: nat)
  {
    && Pow(Abs(x), z) <= Abs(y) < Pow(Abs(x) + 1, z)
    && (x < 0 ==> y < 0) && (x > 0 ==> y > 0)
  }

  /** The outputs of mpz_rootrem, in either order: they differ only if both are the same variable. */
  ghost predicate RootStored(w: seq<int>, w0: seq<int>, s: int, r: int, root: int, rem: int)
    requires -1 <= s < |w0| && -1 <= r < |w0|
  {
    w == Put(Put(w0, s, root), r, rem) || w == Put(Put(w0, r, rem), s, root)
  }

  /** mpz_rootrem: the root into s and the remainder into r.  Both may be null, and both may be y. */
  method RootRem(x: Vars, s: int, r: int, y: nat, z: Limb) returns (died: bool, ghost root: int)
    requires x.Valid() && -1 <= s < |x.vals| && -1 <= r < |x.vals| && y < |x.vals|
    modifies x.repr
    ensures died <==> z == 0 || (old(x.vals[y]) < 0 && z % 2 == 0)
    ensures !died ==> x.Valid() && fresh(x.repr - old(x.repr)) && IsRoot(root, old(x.vals[y]), z)
    ensures !died ==> RootStored(x.vals, old(x.vals), s, r, root, old(x.vals[y]) - Pow(root, z))
  {
    hide Vars.Valid, IsRoot, Pow;
    var sgn := x.Sgn(y);
    root := x.vals[y];
    if (sgn < 0 && z % 2 == 0) || z == 0 { return true, root; }
    var c := x.CmpAbsLimb(y, 1);
    if c <= 0 {
      SmallRoot(x.vals[y], z);
      if s >= 0 { x.Copy(s, y); }
      if r >= 0 { x.SetLimb(r, 0); }
      return false, root;
    }
    root := LargeRoot(x, s, r, y, z, sgn < 0);
    died := false;
  }

  /** Magnitudes above 1: the Newton iteration on new variables u and t. */
  method LargeRoot(x: Vars, s: int, r: int, y: nat, z: Limb, neg: bool) returns (ghost root: int)
    requires x.Valid() && -1 <= s < |x.vals| && -1 <= r < |x.vals| && y < |x.vals|
    requires Abs(x.vals[y]) >= 2 && z >= 1 && neg == (x.vals[y] < 0) && (neg ==> z % 2 == 1)
    modifies x.repr
    ensures x.Valid() && fresh(x.repr - old(x.repr)) && IsRoot(root, old(x.vals[y]), z)
    ensures RootStored(x.vals, old(x.vals), s, r, root, old(x.vals[y]) - Pow(root, z))
  {
    hide Vars.Valid, IsRoot, Pow, Pow2, Above, Digits;
    ghost var vals := x.vals;
    ghost var w := x.vals[y];
    var u := x.Init();
    var t := x.Init();
    var bits := BitSize(x, y);
    StartAbove(Abs(w), z);
    x.SetPower(t, bits / z + 1);
    AboveStart(x.vals[t], Abs(w), z);
    if z == 2 {
      SqrtLoop(x, u, y);
    } else {
      NewtonLoop(x, u, y, z, neg);
    }
    root := x.vals[u];
    assert x.vals[..u] == vals;
    StoreRoot(x, u, s, r, y, z);
  }

  /** The branch z != 2, with one more variable. */
  method NewtonLoop(x: Vars, u: nat, y: nat, z: Limb, neg: bool)
    requires x.Valid() && |x.vals| == u + 2 && y < u && Abs(x.vals[y]) >= 2 && z >= 1
    requires neg == (x.vals[y] < 0) && (neg ==> z % 2 == 1) && x.vals[u + 1] >= 0
    requires Above(x.vals[u + 1], Abs(x.vals[y]), z)
    modifies x.repr
    ensures x.Valid() && fresh(x.repr - old(x.repr)) && |x.vals| == u + 2 && x.vals[..u] == old(x.vals[..u])
    ensures IsRoot(x.vals[u], x.vals[y], z)
  {
    hide Vars.Valid, IsRoot, Above;
    ghost var vals := x.vals[..u];
    AbovePositive(x.vals[u + 1], Abs(x.vals[y]), z);
    var v := x.Init();
    if neg { x.Neg(u + 1, u + 1); }
    assert x.vals[..u] == vals && x.vals[y] == vals[y];
    RootLoop(x, u, y, z);
    x.Clear(v);
  }

  /** The remainder is computed and the root swapped out, where they are wanted. */
  method StoreRoot(x: Vars, u: nat, s: int, r: int, y: nat, z: Limb)
    requires x.Valid() && |x.vals| == u + 2 && -1 <= s < u && -1 <= r < u && y < u
    modifies x.repr
    ensures x.Valid() && fresh(x.repr - old(x.repr))
    ensures var root := old(x.vals[u]);
            x.vals == Put(Put(old(x.vals[..u]), r, old(x.vals[y]) - Pow(root, z)), s, root)
  {
    hide Vars.Valid, Pow;
    var t := u + 1;
    if r >= 0 {
      PowUi(x, t, u, z);
      x.Sub(r, y, t);
    }
    if s >= 0 { x.Swap(s, u); }
    x.Clear(u);
  }

  /** mpz_sizeinbase (y, 2) */
  method BitSize(x: Vars, y: nat) returns (n: nat)
    requires x.Valid() && y < |x.vals| && x.vals[y] != 0
    ensures n == |Digits(Abs(x.vals[y]), 2)|
  {
    hide Digits;
    n := SizeInBase(x.regs[y], 2);
  }

  lemma SmallRoot(y: int, z: nat)
    requires Abs(y) <= 1 && z >= 1 && (y < 0 ==> z % 2 == 1)
    ensures IsRoot(y, y, z) && Pow(y, z) == y
  {
    PowOne(z);
    PowZeroBase(z);
    PowOfTwo(1, z);
    assert Pow2(1) == 2 * Pow2(0);
    Pow2Mono(1, z);
    if y < 0 { PowSign(1, z); }
  }

  lemma PowZeroBase(z: nat)
    requires z >= 1
    ensures Pow(0, z) == 0
  {
  }

  lemma {:induction false} PowSign(b: int, z: nat)
    ensures Pow(-b, z) == if z % 2 == 1 then -Pow(b, z) else Pow(b, z)
    decreases z
  {
    if z > 0 {
      PowSign(b, z - 1);
      NegFactor(b, Pow(b, z - 1));
    }
  }

  lemma NegFactor(b: int, p: int)
    ensures -b * p == -(b * p) && -b * -p == b * p
  {
  }

  /** The loop for z == 2, on u and t = u + 1; y is positive here. */
  method SqrtLoop(x: Vars, u: nat, y: nat)
    requires x.Valid() && |x.vals| == u + 2 && y < u && x.vals[y] >= 2 && Above(x.vals[u + 1], x.vals[y], 2)
    modifies x.repr
    ensures x.Valid() && fresh(x.repr - old(x.repr)) && |x.vals| == u + 2 && x.vals[..u] == old(x.vals[..u])
    ensures IsRoot(x.vals[u], x.vals[y], 2)
  {
    hide Pow, Vars.Valid, Above, Quo, Newton, Pow2;
    var t := u + 1;
    ghost var w := x.vals[y];
    AbovePositive(x.vals[t], w, 2);
    while true
      invariant x.Valid() && fresh(x.repr - old(x.repr)) && |x.vals| == u + 2 && x.vals[..u] == old(x.vals[..u])
      invariant x.vals[t] >= 1 && x.vals[y] == w && Above(x.vals[t], w, 2)
      decreases x.vals[t]
    {
      SqrtStep(w, x.vals[t]);
      x.Swap(u, t);
      x.DivQ(t, y, u);
      x.Add(t, t, u);
      x.Div2exp(t, t, 1);
      var c := x.CmpAbs(t, u);
      if c >= 0 {
        break;
      }
      AboveStep(x.vals[u], w, 2);
      AbovePositive(x.vals[t], w, 2);
    }
    NewtonStops(x.vals[u], w, 2);
  }

  lemma SqrtStep(y: int, u: int)
    requires y >= 2 && u >= 1
    ensures Pow2(1) == 2 && Quo(Trunc, Quo(Trunc, y, u) + u, 2) == Newton(y, 2, u) >= 0
  {
    hide Quo;
    assert Pow(u, 1) == u * Pow(u, 0);
    DivNonneg(y, u);
    SignedTrunc(false, false, y, u);
    SignedTrunc(false, false, y / u + u, 2);
  }

  /** The loop for z != 2, on u, t = u + 1 and v = u + 2; for negative y everything is mirrored. */
  method RootLoop(x: Vars, u: nat, y: nat, z: Limb)
    requires x.Valid() && |x.vals| == u + 3 && y < u && Abs(x.vals[y]) >= 2 && z >= 1
    requires (x.vals[y] < 0 ==> z % 2 == 1) && (x.vals[u + 1] < 0) == (x.vals[y] < 0)
    requires Above(Abs(x.vals[u + 1]), Abs(x.vals[y]), z)
    modifies x.repr
    ensures x.Valid() && fresh(x.repr - old(x.repr)) && |x.vals| == u + 3 && x.vals[..u] == old(x.vals[..u])
    ensures IsRoot(x.vals[u], x.vals[y], z)
  {
    hide Pow, Above, Newton, Vars.Valid, Quo;
    var t, v := u + 1, u + 2;
    ghost var w := x.vals[y];
    AbovePositive(Abs(x.vals[t]), Abs(w), z);
    while true
      invariant x.Valid() && fresh(x.repr - old(x.repr)) && |x.vals| == u + 3 && x.vals[..u] == old(x.vals[..u])
      invariant x.vals[y] == w && x.vals[t] != 0 && (x.vals[t] < 0) == (w < 0) && Above(Abs(x.vals[t]), Abs(w), z)
      decreases Abs(x.vals[t])
    {
      RootStep(w, z, x.vals[t]);
      x.Swap(u, t);
      PowUi(x, t, u, z - 1);
      x.DivQ(t, y, t);
      x.MulLimb(v, u, z - 1);
      x.Add(t, t, v);
      x.DivQLimb(t, t, z);
      var c := x.CmpAbs(t, u);
      if c >= 0 {
        break;
      }
      AboveStep(Abs(x.vals[u]), Abs(w), z);
      AbovePositive(Abs(x.vals[t]), Abs(w), z);
    }
    NewtonStops(Abs(x.vals[u]), Abs(w), z);
  }

  /** One signed pass of the loop is a Newton step on magnitudes, with the sign of y. */
  lemma RootStep(y: int, z: nat, u: int)
    requires Abs(y) >= 2 && z >= 1 && u != 0 && (u < 0) == (y < 0) && (y < 0 ==> z % 2 == 1)
    ensures Pow(u, z - 1) >= 1
    ensures var t := Quo(Trunc, Quo(Trunc, y, Pow(u, z - 1)) + u * (z - 1), z);
            Abs(t) == Newton(Abs(y), z, Abs(u)) && (t != 0 ==> (t < 0) == (y < 0))
  {
    hide Pow, Quo;
    var p := Pow(u, z - 1);
    PowNonneg(Abs(u), z - 1);
    if u < 0 { PowSign(-u, z - 1); }
    var a, b := Abs(y) / p, Abs(u) * (z - 1);
    SignedTrunc(y < 0, false, Abs(y), p);
    DivNonneg(Abs(y), p);
    MulMono(0, Abs(u), z - 1);
    NegFactor(Abs(u), z - 1);
    SignedTrunc(y < 0, false, a + b, z);
    DivNonneg(a + b, z);
    assert Newton(Abs(y), z, Abs(u)) == (a + b) / z;
  }
}
