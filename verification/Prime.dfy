/** mpz_probab_prime_p: a bit mask, a gcd filter, and Miller-Rabin rounds. */
module Prime {
  import opened Arith
  import opened BitOps
  import opened Limbs
  import opened MpzCore
  import opened Gcd
  import opened GcdBinary
  import opened Modular
  import opened MpnShift
  import opened MpzDiv
  import opened MpzVars
  import opened PowMod
  import opened Fermat

  const PRIME_PRODUCT: Limb := 3 * 5 * 7 * 11 * 13 * 17 * 19 * 23 * 29
  const PRIME_MASK: Limb := 0xc969_96dc

  // ----- small numbers

  lemma TrialDivision(n: int, b: int)
    requires 2 <= n < b * b && 2 <= b && forall d :: 2 <= d < b && d < n ==> n % d != 0
    ensures IsPrime(n)
  {
    forall d | 2 <= d < n ensures n % d != 0 {
      if n % d == 0 && d >= b {
        OtherFactor(n, b, d, n / d);
        assert false;
      }
    }
  }

  /** The cofactor of a large divisor is a small one. */
  lemma OtherFactor(n: int, b: int, d: int, e: int)
    requires 2 <= b <= d < n < b * b && n == e * d
    ensures 2 <= e < b && e < n && n % e == 0
  {
    if e <= 1 { MulMono(e, 1, d); }
    if e >= b { MulMono(b, e, d); MulMono(b, d, b); }
    DivModUnique(n, e, d, 0);
    if e >= n { MulMono(2, d, e); }
  }

  lemma NotPrimeBy(n: int, d: int)
    requires 2 <= d < n && n % d == 0
    ensures !IsPrime(n)
  {
  }

  predicate Unsieved(n: int)
  {
    n == 3 || n == 5 || n == 7 || (n > 1 && n % 3 != 0 && n % 5 != 0 && n % 7 != 0)
  }

  /** Below 64 the odd primes are 3, 5, 7 and the numbers without those factors. */
  lemma OddPrimesBelow64(n: int)
    requires 0 < n < 64 && n % 2 == 1
    ensures IsPrime(n) <==> Unsieved(n)
  {
    if n == 3 || n == 5 || n == 7 {
      TrialDivision(n, 3);
    } else if n > 1 {
      if n % 3 == 0 { NotPrimeBy(n, 3); }
      else if n % 5 == 0 { NotPrimeBy(n, 5); }
      else if n % 7 == 0 { NotPrimeBy(n, 7); }
      else {
        assert n % 4 != 0 && n % 6 != 0;
        TrialDivision(n, 8);
      }
    }
  }

  ghost function Halve(x: nat, k: nat): nat
    decreases k, x
  {
    if k == 0 then x else Halve(x / 2, k - 1)
  }

  lemma {:induction false} HalveDiv(x: nat, k: nat)
    ensures Halve(x, k) == x / Pow2(k)
    decreases k
  {
    if k > 0 {
      HalveDiv(x / 2, k - 1);
      MpzBits.DivTwice(x, Pow2(k - 1));
    }
  }

  /** The bits of x, from the lowest, tell which of n, n + 2, ... below 64 are unsieved. */
  predicate MaskFrom(x: nat, n: nat)
    decreases 64 - n, x
  {
    n >= 64 || ((x % 2 == 1) == Unsieved(n) && MaskFrom(x / 2, n + 2))
  }

  lemma {:induction false} MaskAt(x: nat, n: nat, k: nat)
    requires MaskFrom(x, n) && n + 2 * k < 64
    ensures Halve(x, k) % 2 == 1 <==> Unsieved(n + 2 * k)
    decreases k
  {
    if k > 0 { MaskAt(x / 2, n + 2, k - 1); }
  }

  lemma UpperMaskTable()
    ensures MaskFrom(0x64b4, 33)
  {
    assert MaskFrom(0x6, 57);
    assert MaskFrom(0x64, 49);
    assert MaskFrom(0x64b, 41);
  }

  lemma MiddleMaskTable()
    ensures MaskFrom(0x64_b4cb, 17)
  {
    UpperMaskTable();
    assert MaskFrom(0x6_4b4c, 25);
  }

  lemma MaskTable()
    ensures MaskFrom(PRIME_MASK / 2, 1)
  {
    MiddleMaskTable();
    assert MaskFrom(0x64b_4cb6, 9);
    assert MaskFrom(0x64b4_cb6e, 1);
    assert PRIME_MASK / 2 == 0x64b4_cb6e;
  }

  /** (GMP_PRIME_MASK >> (n >> 1)) & 2 */
  method MaskLookup(n: Limb) returns (r: Limb)
    requires 0 < n < 64 && n % 2 == 1
    ensures r == if IsPrime(n) then 2 else 0
  {
    hide Pow2, Word, IsPrime, MaskFrom, Halve;
    var k := n / 2;
    var x := PRIME_MASK / Pow2(k);
    DivNonneg(PRIME_MASK, Pow2(k));
    MaskTable();
    MaskAt(PRIME_MASK / 2, 1, k);
    HalveDiv(PRIME_MASK / 2, k);
    MpzBits.DivTwice(PRIME_MASK, Pow2(k));
    DivPow(PRIME_MASK, k);
    Pow2Next(k);
    OddPrimesBelow64(n);
    AndTwo(x);
    r := Word(AND, x, 2, 64);
  }

  lemma AndTwo(x: nat)
    ensures Word(AND, x, 2, 64) == 2 * (x / 2 % 2)
  {
    AndZero(x / 2 / 2, 62);
    assert Word(AND, x / 2, 1, 63) == x / 2 % 2 + 2 * Word(AND, x / 2 / 2, 0, 62);
    assert Word(AND, x, 2, 64) == 0 + 2 * Word(AND, x / 2, 1, 63);
  }

  // ----- the gcd filter

  /** A prime above 29 is coprime to the product. */
  lemma PrimeCoprime(n: int, g: int)
    requires IsPrime(n) && n > 29 && IsGcd(g, n, PRIME_PRODUCT)
    ensures g == 1
  {
    var a, b := GcdFactors(g, n, PRIME_PRODUCT);
    assert g > 0;
    PrimeDivisor(n, g);
    if g == n { ProductFactors(n); }
  }

  lemma ProductFactors(n: int)
    requires IsPrime(n) && n > 29
    ensures !Divides(n, PRIME_PRODUCT)
  {
    if Divides(n, PRIME_PRODUCT) {
      Peel(n, 3, 5 * 7 * 11 * 13 * 17 * 19 * 23 * 29);
      Peel(n, 5, 7 * 11 * 13 * 17 * 19 * 23 * 29);
      Peel(n, 7, 11 * 13 * 17 * 19 * 23 * 29);
      Peel(n, 11, 13 * 17 * 19 * 23 * 29);
      Peel(n, 13, 17 * 19 * 23 * 29);
      Peel(n, 17, 19 * 23 * 29);
      Peel(n, 19, 23 * 29);
      Peel(n, 23, 29);
      TooSmall(n, 29);
    }
  }

  lemma Peel(n: int, q: int, rest: int)
    requires IsPrime(n) && 0 < q < n && Divides(n, q * rest)
    ensures Divides(n, rest)
  {
    EuclidLemma(n, q, rest);
    TooSmall(n, q);
  }

  lemma TooSmall(n: int, q: int)
    requires 0 < q < n
    ensures !Divides(n, q)
  {
    DividesMod(n, q);
    DivModUnique(q, n, 0, q);
  }

  /** Odd, coprime to the product and below 31^2: prime. */
  lemma FilteredPrime(n: int)
    requires 64 <= n < 31 * 31 && n % 2 == 1 && IsGcd(1, n, PRIME_PRODUCT)
    ensures IsPrime(n)
  {
    forall d | 2 <= d < 31 && d < n ensures n % d != 0 {
      if n % d == 0 { NoSmallFactor(n, d); }
    }
    TrialDivision(n, 31);
  }

  /** Every d below 31 has a factor 2, 3 or 5, or divides the product. */
  lemma NoSmallFactor(n: int, d: int)
    requires 2 <= d < 31 && n % 2 == 1 && n > 0 && IsGcd(1, n, PRIME_PRODUCT)
    ensures n % d != 0
  {
    hide IsGcd;
    if n % d == 0 {
      var q := SmallPrimeFactor(d);
      MultipleOf(n, n / d, d, q);
      if q != 2 { CommonFactor(n, q); }
    }
  }

  lemma SmallPrimeFactor(d: int) returns (q: int)
    requires 2 <= d < 31
    ensures q > 1 && d % q == 0 && (q == 2 || PRIME_PRODUCT % q == 0)
  {
    q := if d % 2 == 0 then 2 else if d % 3 == 0 then 3 else if d % 5 == 0 then 5 else d;
    if q == d { assert d in {2, 3, 5, 7, 11, 13, 17, 19, 23, 29}; }
  }

  lemma MultipleOf(n: int, k: int, d: int, q: int)
    requires n == k * d && q > 0 && d % q == 0
    ensures n % q == 0
  {
    assert d == d / q * q;
    Assoc(k, d / q, q);
    DivModUnique(n, q, k * (d / q), 0);
  }

  lemma CommonFactor(n: int, q: int)
    requires q > 1 && PRIME_PRODUCT % q == 0 && IsGcd(1, n, PRIME_PRODUCT)
    ensures n % q != 0
  {
    if n % q == 0 {
      DividesMod(q, n); DividesMod(q, PRIME_PRODUCT);
      GcdGreatest(1, n, PRIME_PRODUCT, q);
    }
  }

  // ----- Miller-Rabin

  /** y is the residue of a^(q 2^i) modulo p. */
  ghost predicate Witness(y: int, a: int, q: nat, i: nat, p: int)
    requires p > 0
  {
    0 <= y < p && 0 <= q * Pow2(i) && Cong(y, Pow(a, q * Pow2(i)), p)
  }

  lemma ToModulus(a: int, b: int, m: int)
    requires Cong(a, b, m)
    ensures Cong(a, b, Abs(m))
  {
    var k: int :| m * k == a - b;
    CongIntro(a, b, Abs(m), if m < 0 then -k else k);
  }

  lemma PowmPositive(r: int, y: int, e: int, n: int)
    requires n != 0 && e > 0 && IsPowm(r, y, e, n)
    ensures 0 <= r < Abs(n) && Cong(r, Pow(y, e), Abs(n))
  {
    hide Cong, Pow;
    ToModulus(r, Pow(y, e), n);
  }

  lemma WitnessStart(y: int, a: int, q: nat, p: int)
    requires p > 0 && 0 <= y < p && Cong(y, Pow(a, q), p)
    ensures Witness(y, a, q, 0, p)
  {
  }

  lemma WitnessSquare(y: int, y': int, a: int, q: nat, i: nat, p: int)
    requires p > 0 && Witness(y, a, q, i, p) && 0 <= y' < p && Cong(y', Pow(y, 2), p)
    ensures Witness(y', a, q, i + 1, p) && Cong(y', y * y, p)
  {
    hide Cong, Pow;
    SquareIsProduct(y);
    var e := q * Pow2(i);
    assert q * Pow2(i + 1) == e + e by { Assoc(q, 2, Pow2(i)); Assoc(2, q, Pow2(i)); }
    PowAdd(a, e, e);
    CongMul(y, Pow(a, e), y, Pow(a, e), p);
    CongTrans(y', y * y, Pow(a, e + e), p);
  }

  lemma SquareIsProduct(y: int)
    ensures Pow(y, 2) == y * y
  {
    assert Pow(y, 1) == y * Pow(y, 0);
  }

  /** Modulo a prime, a square congruent to 1 comes from 1 or p - 1. */
  lemma SquareOne(p: int, y: int, z: int)
    requires IsPrime(p) && 0 <= y < p && Cong(z, y * y, p) && Cong(z, 1, p)
    ensures y == 1 || y == p - 1
  {
    hide Cong;
    CongSym(z, y * y, p);
    CongTrans(y * y, z, 1, p);
    RootsOfOne(p, y);
    if Cong(y, 1, p) {
      CongUnique(y, 1, p);
    } else {
      CongIntro(-1, p - 1, p, -1);
      CongTrans(y, -1, p - 1, p);
      CongUnique(y, p - 1, p);
    }
  }

  /** The last square is a^(p-1). */
  lemma WitnessEnd(p: int, y: int, a: nat, q: nat, k: nat)
    requires IsPrime(p) && !Divides(p, a) && k > 0 && p - 1 == q * Pow2(k) && Witness(y, a, q, k - 1, p)
    ensures y == 1 || y == p - 1
  {
    hide Cong, Pow;
    FermatLittle(p, a);
    var e := q * Pow2(k - 1);
    assert q * Pow2(k) == e + e by { Assoc(q, 2, Pow2(k - 1)); Assoc(2, q, Pow2(k - 1)); }
    PowAdd(a, e, e);
    CongMul(y, Pow(a, e), y, Pow(a, e), p);
    CongTrans(y * y, Pow(a, e + e), 1, p);
    CongRefl(y * y, p);
    SquareOne(p, y, y * y);
  }

  /** a^(q 2^i) is -1 modulo p. */
  ghost predicate MinusOneAt(a: int, q: nat, i: nat, p: int)
  {
    0 <= q * Pow2(i) && Cong(Pow(a, q * Pow2(i)), -1, p)
  }

  /** The strong test of p = 1 + q 2^k to the base a: a^q is 1, or some a^(q 2^i) before the last square is -1. */
  ghost predicate Passes(a: int, q: nat, k: nat, p: int)
  {
    Cong(Pow(a, q), 1, p) || exists i: nat :: i < k && MinusOneAt(a, q, i, p)
  }

  /** A prime passes the test to every base it does not divide. */
  lemma PrimePasses(p: int, a: nat, q: nat, k: nat)
    requires IsPrime(p) && p >= 3 && !Divides(p, a) && k > 0 && p - 1 == q * Pow2(k)
    ensures Passes(a, q, k, p)
  {
    hide Cong, Pow, IsPrime, Divides, Pow2, Witness, MinusOneAt;
    var y := FirstResidue(a, q, p);
    var i := 0;
    while i < k - 1 && y != 1 && y != p - 1
      invariant 0 <= i < k && Witness(y, a, q, i, p) && (i > 0 ==> y != 1)
    {
      var z := y;
      y := SquareResidue(y, a, q, i, p);
      i := i + 1;
      WitnessRange(z, a, q, i - 1, p);
      if y == 1 { CongRefl(1, p); SquareOne(p, z, y); }
    }
    if y != 1 && y != p - 1 { WitnessEnd(p, y, a, q, k); }
    if y == p - 1 { LastIsMinusOne(y, a, q, i, p); } else { FirstIsOne(y, a, q, p); }
  }

  lemma FirstResidue(a: int, q: nat, p: int) returns (y: int)
    requires p > 0
    ensures Witness(y, a, q, 0, p)
  {
    hide Cong, Pow;
    y := Pow(a, q) % p;
    CongMod(Pow(a, q), p);
    WitnessStart(y, a, q, p);
  }

  lemma SquareResidue(y: int, a: int, q: nat, i: nat, p: int) returns (y': int)
    requires p > 0 && Witness(y, a, q, i, p)
    ensures Witness(y', a, q, i + 1, p) && Cong(y', y * y, p)
  {
    hide Cong, Pow, Witness, Pow2;
    y' := Pow(y, 2) % p;
    CongMod(Pow(y, 2), p);
    WitnessSquare(y, y', a, q, i, p);
  }

  /** A residue is p - 1 exactly when the power is -1, and 1 exactly when it is 1. */
  lemma LastIsMinusOne(y: int, a: int, q: nat, i: nat, p: int)
    requires p > 0 && Witness(y, a, q, i, p)
    ensures y == p - 1 <==> MinusOneAt(a, q, i, p)
  {
    hide Cong, Pow, Pow2;
    var e := Pow(a, q * Pow2(i));
    CongIntro(p - 1, -1, p, 1);
    CongSym(y, e, p);
    if y == p - 1 { CongTrans(e, y, -1, p); }
    if MinusOneAt(a, q, i, p) {
      CongTrans(y, e, -1, p);
      CongSym(p - 1, -1, p);
      CongTrans(y, -1, p - 1, p);
      CongUnique(y, p - 1, p);
    }
  }

  lemma FirstIsOne(y: int, a: int, q: nat, p: int)
    requires p > 1 && Witness(y, a, q, 0, p)
    ensures y == 1 <==> Cong(Pow(a, q), 1, p)
  {
    hide Cong, Pow;
    PowZero();
    CongSym(y, Pow(a, q), p);
    if Cong(Pow(a, q), 1, p) {
      CongTrans(y, Pow(a, q), 1, p);
      CongUnique(y, 1, p);
    }
  }

  /** Residues 0 and 1 stay what they are, so no later power is -1. */
  lemma {:induction false} NeverAgain(y: int, a: int, q: nat, i: nat, j: nat, p: int)
    requires p >= 3 && 0 <= y <= 1 && Witness(y, a, q, i, p) && i <= j
    ensures !MinusOneAt(a, q, j, p)
    decreases j - i
  {
    hide Cong, Pow, Pow2, Witness, MinusOneAt;
    if i == j {
      LastIsMinusOne(y, a, q, i, p);
    } else {
      var z := SquareResidue(y, a, q, i, p);
      WitnessRange(z, a, q, i + 1, p);
      assert y * y == y;
      CongUnique(z, y, p);
      NeverAgain(z, a, q, i + 1, j, p);
    }
  }

  lemma WitnessRange(y: int, a: int, q: nat, i: nat, p: int)
    requires p > 0 && Witness(y, a, q, i, p)
    ensures 0 <= y < p
  {
  }

  /** gmp_millerrabin, with the base in y: exactly the strong test. */
  method MillerRabin(x: Vars, n: nat, nm1: nat, y: nat, q: nat, k: nat) returns (ok: bool)
    requires x.Valid() && n < |x.vals| && nm1 < |x.vals| && y < |x.vals| && q < |x.vals|
    requires y != n && y != nm1 && y != q && x.vals[y] >= 0 && Abs(x.vals[n]) >= 3
    requires x.vals[q] > 0 && k > 0 && x.vals[nm1] == Abs(x.vals[n]) - 1 == x.vals[q] * Pow2(k)
    modifies x.repr
    ensures x.Valid() && fresh(x.repr - old(x.repr)) && |x.vals| == old(|x.vals|)
    ensures x.vals == old(x.vals)[y := x.vals[y]]
    ensures ok <==> Passes(old(x.vals[y]), x.vals[q], k, Abs(x.vals[n]))
  {
    hide Cong, Pow, Witness, Pow2, Vars.Valid, IsPowm, Unit, MinusOneAt;
    ghost var p, a, e := Abs(x.vals[n]), x.vals[y], x.vals[q];
    var died := MpzPowm(x, y, y, q, n);
    PowmPositive(x.vals[y], a, e, x.vals[n]);
    WitnessStart(x.vals[y], a, e, p);
    FirstIsOne(x.vals[y], a, e, p);
    LastIsMinusOne(x.vals[y], a, e, 0, p);
    var one := x.CmpLimb(y, 1);
    var last := x.Cmp(y, nm1);
    if one == 0 || last == 0 { return true; }
    for i := 1 to k
      invariant x.Valid() && fresh(x.repr - old(x.repr)) && |x.vals| == old(|x.vals|)
      invariant x.vals == old(x.vals)[y := x.vals[y]]
      invariant Witness(x.vals[y], a, e, i - 1, p)
      invariant forall j: nat :: j < i ==> !MinusOneAt(a, e, j, p)
    {
      ghost var z := x.vals[y];
      died := PowmUi(x, y, y, 2, n);
      PowmPositive(x.vals[y], z, 2, x.vals[n]);
      WitnessSquare(z, x.vals[y], a, e, i - 1, p);
      LastIsMinusOne(x.vals[y], a, e, i, p);
      last := x.Cmp(y, nm1);
      if last == 0 { return true; }
      one := x.CmpLimb(y, 1);
      if one <= 0 {
        forall j: nat | i <= j < k ensures !MinusOneAt(a, e, j, p) { NeverAgain(x.vals[y], a, e, i, j, p); }
        return false;
      }
    }
    return false;
  }

  /** The C type int. */
  type Int32 = x: int | -0x8000_0000 <= x < 0x8000_0000

  /** The j-th base, from Euler's polynomial. */
  ghost function BaseAt(j: nat): (a: int)
    ensures a > 0
  {
    MulMono(0, j, j);
    j * j + j + 41
  }

  /** m passes the strong test to base a, where m - 1 is split at its lowest set bit. */
  ghost predicate StrongTo(a: int, m: int)
    requires m > 1
  {
    TwosDivide(m - 1);
    var k := Twos(m - 1);
    OddPart(m - 1);
    Passes(a, (m - 1) / Pow2(k), k, m)
  }

  /** m passes the test to each of the first reps bases that is below m - 1. */
  ghost predicate AllPass(m: int, reps: int)
    requires m > 1
  {
    forall j: nat :: j < reps && BaseAt(j) < m - 1 ==> StrongTo(BaseAt(j), m)
  }

  /** A prime passes them all. */
  lemma PrimeAllPass(m: int, reps: int)
    requires IsPrime(m) && m >= 3 && m % 2 == 1
    ensures AllPass(m, reps)
  {
    hide Passes, IsPrime, Twos, Pow2;
    forall j: nat | j < reps && BaseAt(j) < m - 1 ensures StrongTo(BaseAt(j), m) {
      OddPart(m - 1);
      if Twos(m - 1) == 0 { PowZero(); }
      BaseUnit(m, BaseAt(j));
      PrimePasses(m, BaseAt(j), (m - 1) / Pow2(Twos(m - 1)), Twos(m - 1));
    }
  }

  /**
   mpz_probab_prime_p: 2 exactly for the primes below 31^2; 1 exactly for larger numbers that are odd, coprime
   to the small primes and pass every strong test tried; so 0 is never said of a prime.
   */
  method ProbabPrime(x: Vars, n: nat, reps: Int32) returns (r: Limb)
    requires x.Valid() && n < |x.vals|
    modifies x.repr
    ensures x.Valid() && fresh(x.repr - old(x.repr)) && x.vals == old(x.vals)
    ensures var m := Abs(x.vals[n]);
            && r <= 2 && (r == 2 <==> IsPrime(m) && m < 31 * 31)
            && (r == 1 <==> m >= 31 * 31 && m % 2 == 1 && IsGcd(1, m, PRIME_PRODUCT) && AllPass(m, reps))
            && (r == 0 ==> !IsPrime(m))
  {
    hide IsPrime, Vars.Valid, IsGcd, AllPass;
    ghost var a := Abs(x.vals[n]);
    var odd := x.Odd(n);
    if !odd {
      var c := x.CmpAbsLimb(n, 2);
      EvenPrime(a);
      return if c == 0 then 2 else 0;
    }
    var c := x.CmpAbsLimb(n, 64);
    if c < 0 {
      r := SmallPrime(x, n);
      return;
    }
    var g := Filter(x, n);
    if g != 1 { return 0; }
    c := x.CmpAbsLimb(n, 31 * 31);
    if c < 0 {
      FilteredPrime(a);
      return 2;
    }
    r := Rounds(x, n, reps);
    if IsPrime(a) { PrimeAllPass(a, reps); }
  }

  /** The mask lookup on the low limb of an odd number below 64. */
  method SmallPrime(x: Vars, n: nat) returns (r: Limb)
    requires x.Valid() && n < |x.vals| && Abs(x.vals[n]) < 64 && x.vals[n] % 2 == 1
    ensures r == if IsPrime(Abs(x.vals[n])) then 2 else 0
  {
    hide Vars.Valid, IsPrime;
    ValNil([]);
    var l := x.LimbOf(n, 0);
    r := MaskLookup(l);
  }

  /** The gcd with the product of the odd primes below 31. */
  method Filter(x: Vars, n: nat) returns (g: Limb)
    requires x.Valid() && n < |x.vals| && Abs(x.vals[n]) >= 64
    modifies x.repr
    ensures x.Valid() && fresh(x.repr - old(x.repr)) && x.vals == old(x.vals)
    ensures g != 1 ==> !IsPrime(Abs(x.vals[n]))
    ensures g == 1 <==> IsGcd(1, Abs(x.vals[n]), PRIME_PRODUCT)
  {
    hide Vars.Valid, IsPrime, IsGcd;
    ghost var d;
    g, d := GcdUi(x, -1, n, PRIME_PRODUCT);
    GcdOfAbs(g, x.vals[n], PRIME_PRODUCT);
    if IsGcd(1, Abs(x.vals[n]), PRIME_PRODUCT) { GcdUnique(1, g, Abs(x.vals[n]), PRIME_PRODUCT); }
    if g != 1 && IsPrime(Abs(x.vals[n])) { PrimeCoprime(Abs(x.vals[n]), g); }
  }

  /** The rounds with the bases j^2 + j + 41. */
  method Rounds(x: Vars, n: nat, reps: Int32) returns (r: Limb)
    requires x.Valid() && n < |x.vals| && Abs(x.vals[n]) >= 31 * 31 && x.vals[n] % 2 == 1
    modifies x.repr
    ensures x.Valid() && fresh(x.repr - old(x.repr)) && x.vals == old(x.vals)
    ensures r <= 1 && (r == 1 <==> AllPass(Abs(x.vals[n]), reps))
  {
    hide AllPass, Pow2, Vars.Valid, Twos, Quo;
    ghost var vals, a := x.vals, Abs(x.vals[n]);
    var nm1 := x.Init();
    var q := x.Init();
    var y := x.Init();
    x.AbsSubLimb(nm1, n, 1);
    var k := x.Scan1(nm1);
    OddPart(a - 1);
    x.Div2exp(q, nm1, k);
    if k == 0 { PowZero(); }
    r := BaseLoop(x, n, nm1, k, reps);
    x.Clear(nm1);
  }

  /** nm1 is |n| - 1, q and y are the next two variables. */
  method BaseLoop(x: Vars, n: nat, nm1: nat, k: nat, reps: Int32) returns (r: Limb)
    requires x.Valid() && n < nm1 && |x.vals| == nm1 + 3 && Abs(x.vals[n]) >= 31 * 31
    requires k > 0 && x.vals[nm1 + 1] > 0 && x.vals[nm1] == Abs(x.vals[n]) - 1 == x.vals[nm1 + 1] * Pow2(k)
    requires k == Twos(Abs(x.vals[n]) - 1) && x.vals[nm1 + 1] == (Abs(x.vals[n]) - 1) / Pow2(k)
    modifies x.repr
    ensures x.Valid() && fresh(x.repr - old(x.repr)) && |x.vals| == nm1 + 3
    ensures x.vals == old(x.vals)[nm1 + 2 := x.vals[nm1 + 2]]
    ensures r <= 1 && (r == 1 <==> AllPass(Abs(x.vals[n]), reps))
  {
    hide Pow2, Vars.Valid, Twos, Passes, AllPass, Passed, BaseAt;
    var q, y := nm1 + 1, nm1 + 2;
    ghost var m := Abs(x.vals[n]);
    var isPrime, j: nat := true, 0;
    NonePassed(m);
    while isPrime && j < reps
      invariant x.Valid() && fresh(x.repr - old(x.repr)) && |x.vals| == nm1 + 3
      invariant x.vals == old(x.vals)[y := x.vals[y]]
      invariant if isPrime then Passed(m, j) else !AllPass(m, reps)
      decreases reps - j
    {
      BaseFits(j);
      BaseIs(j);
      x.SetLimb(y, j * j + j + 41);
      var c := x.Cmp(y, nm1);
      if c >= 0 {
        BaseIndex(j);
        assert j >= 30;
        NoMoreBases(m, j, reps);
        break;
      }
      isPrime := MillerRabin(x, n, nm1, y, q, k);
      OneBase(m, j, reps, isPrime);
      j := j + 1;
    }
    if isPrime && j >= reps { EnoughBases(m, j, reps); }
    return if isPrime then 1 else 0;
  }

  /** The first j bases are below m - 1 and passed. */
  ghost predicate Passed(m: int, j: nat)
    requires m > 1
  {
    forall i: nat :: i < j ==> BaseAt(i) < m - 1 && StrongTo(BaseAt(i), m)
  }

  lemma NonePassed(m: int)
    requires m > 1
    ensures Passed(m, 0)
  {
  }

  lemma BaseIs(j: nat)
    ensures BaseAt(j) == j * j + j + 41
  {
  }

  lemma OneBase(m: int, j: nat, reps: int, ok: bool)
    requires m > 1 && Passed(m, j) && j < reps && BaseAt(j) < m - 1 && ok == StrongTo(BaseAt(j), m)
    ensures if ok then Passed(m, j + 1) else !AllPass(m, reps)
  {
    hide StrongTo, BaseAt;
  }

  /** Bases only grow: from the first that is too large on, none is tried. */
  lemma NoMoreBases(m: int, j: nat, reps: int)
    requires m > 1 && Passed(m, j) && BaseAt(j) >= m - 1
    ensures AllPass(m, reps)
  {
    hide StrongTo, BaseAt;
    forall i: nat | i < reps && BaseAt(i) < m - 1 ensures StrongTo(BaseAt(i), m) {
      if i >= j { BasesGrow(j, i); }
    }
  }

  lemma EnoughBases(m: int, j: nat, reps: int)
    requires m > 1 && Passed(m, j) && j >= reps
    ensures AllPass(m, reps)
  {
    hide StrongTo, BaseAt;
  }

  lemma BasesGrow(i: nat, j: nat)
    requires i <= j
    ensures BaseAt(i) <= BaseAt(j)
  {
    MulMono(i, j, i); MulMono(i, j, j);
  }

  lemma BaseFits(j: nat)
    requires j < 0x8000_0000
    ensures 0 < j * j + j + 41 < B
  {
    MulMono(j, 0x8000_0000, j);
    MulMono(0, j, j);
  }

  lemma EvenPrime(a: int)
    requires a % 2 == 0
    ensures IsPrime(a) <==> a == 2
  {
    if a > 2 { NotPrimeBy(a, 2); }
  }

  lemma GcdOfAbs(g: int, n: int, m: int)
    requires IsGcd(g, n, m)
    ensures IsGcd(g, Abs(n), m)
  {
    var a, b := GcdFactors(g, n, m);
    var s: int, t: int :| Bezout(g, n, m, s, t);
    if n < 0 { GcdIntro(g, -n, m, -a, b, -s, t); }
  }

  lemma BaseIndex(j: nat)
    requires j * j + j + 41 >= 960
    ensures j >= 30
  {
    if j <= 29 { MulMono(j, 29, j); }
  }

  lemma BaseUnit(p: int, y: int)
    requires 0 < y < p - 1
    ensures !Divides(p, y)
  {
    TooSmall(p, y);
  }
}
