/** Primes: Euclid's lemma, Fermat's little theorem, and the square roots of one. */
module Fermat {
  import opened Arith
  import opened Gcd
  import opened GcdBinary
  import opened Modular

  ghost predicate IsPrime(p: int)
  {
    p >= 2 && forall d :: 2 <= d < p ==> p % d != 0
  }

  lemma DividesMod(d: int, n: int)
    requires d > 0
    ensures Divides(d, n) <==> n % d == 0
  {
    if n % d == 0 { assert d * (n / d) == n; }
    if Divides(d, n) {
      var k: int :| d * k == n;
      DivModUnique(n, d, k, 0);
    }
  }

  lemma PrimeDivisor(p: int, d: int)
    requires IsPrime(p) && d > 0 && Divides(d, p)
    ensures d == 1 || d == p
  {
    var k: int :| d * k == p;
    if k <= 0 { MulMono(k, 0, d); }
    MulMono(1, k, d);
    DividesMod(d, p);
  }

  /** Euclid's lemma. */
  lemma EuclidLemma(p: int, a: int, b: int)
    requires IsPrime(p) && Divides(p, a * b)
    ensures Divides(p, a) || Divides(p, b)
  {
    var x := if a < 0 then -a else a;
    var g := GcdExists(x, p);
    var i, j := GcdFactors(g, x, p);
    assert g > 0;
    assert Divides(g, p);
    PrimeDivisor(p, g);
    if g == p {
      if a < 0 { assert p * -i == a; }
    } else {
      var s: int, t: int :| Bezout(g, x, p, s, t);
      var k: int :| p * k == a * b;
      EuclidCombine(p, a, b, if a < 0 then -s else s, t, k);
    }
  }

  lemma EuclidCombine(p: int, a: int, b: int, s: int, t: int, k: int)
    requires s * a + t * p == 1 && p * k == a * b
    ensures Divides(p, b)
  {
    assert p * (s * k + t * b) == b by {
      Dist(s * k, t * b, p);
      Assoc(s, k, p); Assoc(s, a, b);
      Assoc(t, b, p); Assoc(t, p, b);
      Dist(s * a, t * p, b);
    }
  }

  /** Modulo a prime only 1 and -1 square to 1. */
  lemma RootsOfOne(p: int, z: int)
    requires IsPrime(p) && Cong(z * z, 1, p)
    ensures Cong(z, 1, p) || Cong(z, -1, p)
  {
    assert z * z - 1 == (z - 1) * (z + 1);
    EuclidLemma(p, z - 1, z + 1);
  }

  // ----- binomial coefficients

  ghost function Choose(n: nat, k: nat): nat
  {
    if k == 0 then 1 else if n == 0 then 0 else Choose(n - 1, k - 1) + Choose(n - 1, k)
  }

  lemma {:induction false} ChooseOutside(n: nat, k: nat)
    requires k > n
    ensures Choose(n, k) == 0
  {
    if n > 0 {
      ChooseOutside(n - 1, k - 1);
      ChooseOutside(n - 1, k);
    }
  }

  lemma {:induction false} ChooseAll(n: nat)
    ensures Choose(n, n) == 1
  {
    if n > 0 {
      ChooseAll(n - 1);
      ChooseOutside(n - 1, n);
    }
  }

  /** k C(n, k) = n C(n-1, k-1) */
  lemma {:induction false} ChooseAbsorb(n: nat, k: nat)
    requires k >= 1 && n >= 1
    ensures k * Choose(n, k) == n * Choose(n - 1, k - 1)
    decreases n
  {
    if n == 1 {
      if k == 1 {
        assert Choose(1, 1) == Choose(0, 0) + Choose(0, 1);
      } else {
        ChooseOutside(1, k); ChooseOutside(0, k - 1);
      }
    } else {
      ChooseAbsorb(n - 1, k);
      if k >= 2 {
        ChooseAbsorb(n - 1, k - 1);
        AbsorbArith(k, n, Choose(n - 1, k - 1), Choose(n - 1, k), Choose(n - 2, k - 2), Choose(n - 2, k - 1));
      } else {
        assert Choose(n, 1) == Choose(n - 1, 0) + Choose(n - 1, 1);
      }
    }
  }

  lemma AbsorbArith(k: int, n: int, a: int, b: int, c: int, d: int)
    requires a == c + d && (k - 1) * a == (n - 1) * c && k * b == (n - 1) * d
    ensures k * (a + b) == n * a
  {
    Dist(a, b, k);
    Dist(k, -1, a);
    Dist(n, -1, c); Dist(n, -1, d); Dist(c, d, n);
  }

  /** The first k + 1 terms of (1 + a)^n. */
  ghost function BinSum(n: nat, a: int, k: nat): int
  {
    Choose(n, k) * Pow(a, k) + if k == 0 then 0 else BinSum(n, a, k - 1)
  }

  lemma {:induction false} BinPascal(n: nat, a: int, k: nat)
    requires n >= 1
    ensures BinSum(n, a, k) == BinSum(n - 1, a, k) + if k == 0 then 0 else a * BinSum(n - 1, a, k - 1)
    decreases k
  {
    if k > 0 {
      BinPascal(n, a, k - 1);
      var r := if k == 1 then 0 else BinSum(n - 1, a, k - 2);
      PascalTerm(Choose(n - 1, k - 1), Choose(n - 1, k), Pow(a, k - 1), r, a);
    }
  }

  lemma PascalTerm(x: int, y: int, p: int, r: int, a: int)
    ensures (x + y) * (a * p) == a * (x * p) + y * (a * p)
    ensures a * (x * p + r) == a * (x * p) + a * r
  {
    Dist(x, y, a * p);
    Assoc(x, a, p); Assoc(a, x, p);
    Dist(x * p, r, a);
  }

  /** The binomial theorem. */
  lemma {:induction false} Binomial(n: nat, a: int)
    ensures Pow(1 + a, n) == BinSum(n, a, n)
    decreases n
  {
    if n == 0 {
      assert Pow(a, 0) == 1;
    } else {
      Binomial(n - 1, a);
      BinPascal(n, a, n);
      ChooseOutside(n - 1, n);
      Dist(1, a, BinSum(n - 1, a, n - 1));
    }
  }

  /** A prime divides its middle binomial coefficients. */
  lemma PrimeChoose(p: int, k: int)
    requires IsPrime(p) && 1 <= k < p
    ensures Divides(p, Choose(p, k))
  {
    ChooseAbsorb(p, k);
    assert Divides(p, k * Choose(p, k));
    EuclidLemma(p, k, Choose(p, k));
    if Divides(p, k) { DividesMod(p, k); DivModUnique(k, p, 0, k); }
  }

  lemma {:induction false} MiddleTerms(p: int, a: int, k: nat)
    requires IsPrime(p) && k < p
    ensures Cong(BinSum(p, a, k), 1, p)
    decreases k
  {
    if k == 0 {
      assert BinSum(p, a, 0) == 1 * Pow(a, 0);
      CongRefl(1, p);
    } else {
      MiddleTerms(p, a, k - 1);
      PrimeChoose(p, k);
      var c: int :| p * c == Choose(p, k);
      Assoc(p, c, Pow(a, k));
      CongIntro(Choose(p, k) * Pow(a, k), 0, p, c * Pow(a, k));
      CongAdd(Choose(p, k) * Pow(a, k), 0, BinSum(p, a, k - 1), 1, p);
    }
  }

  lemma {:induction false} FermatPower(p: int, a: nat)
    requires IsPrime(p)
    ensures Cong(Pow(a, p), a, p)
    decreases a
  {
    if a == 0 {
      assert Pow(0, p) == 0 * Pow(0, p - 1);
      CongRefl(0, p);
    } else {
      var b := a - 1;
      FermatPower(p, b);
      Binomial(p, b);
      MiddleTerms(p, b, p - 1);
      ChooseAll(p);
      CongAdd(Pow(b, p), b, BinSum(p, b, p - 1), 1, p);
    }
  }

  /** Fermat's little theorem. */
  lemma FermatLittle(p: int, a: nat)
    requires IsPrime(p) && !Divides(p, a)
    ensures Cong(Pow(a, p - 1), 1, p)
  {
    FermatPower(p, a);
    assert Pow(a, p) - a == a * (Pow(a, p - 1) - 1) by { Dist(Pow(a, p - 1), -1, a); }
    EuclidLemma(p, a, Pow(a, p - 1) - 1);
  }
}
