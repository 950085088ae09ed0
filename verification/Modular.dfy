/** Integer powers and congruences. */
module Modular {
  import opened Arith
  import opened Gcd

  ghost function Pow(b: int, n: nat): int
  {
    if n == 0 then 1 else b * Pow(b, n - 1)
  }

  lemma {:induction false} PowAdd(b: int, m: nat, n: nat)
    ensures Pow(b, m + n) == Pow(b, m) * Pow(b, n)
    decreases m
  {
    if m > 0 {
      PowAdd(b, m - 1, n);
      Assoc(b, Pow(b, m - 1), Pow(b, n));
    }
  }

  lemma {:induction false} PowMul(b: int, m: nat, n: nat)
    ensures 0 <= m * n && Pow(b, m * n) == Pow(Pow(b, m), n)
    decreases n
  {
    MulMono(0, m, n);
    if n > 0 {
      PowMul(b, m, n - 1);
      Dist(n - 1, 1, m);
      PowAdd(b, m, m * (n - 1));
    }
  }

  ghost predicate Cong(a: int, b: int, m: int)
  {
    Divides(m, a - b)
  }

  lemma CongIntro(a: int, b: int, m: int, k: int)
    requires a - b == m * k
    ensures Cong(a, b, m)
  {
  }

  lemma CongRefl(a: int, m: int)
    ensures Cong(a, a, m)
  {
    CongIntro(a, a, m, 0);
  }

  lemma CongSym(a: int, b: int, m: int)
    requires Cong(a, b, m)
    ensures Cong(b, a, m)
  {
    var k: int :| m * k == a - b;
    CongIntro(b, a, m, -k);
  }

  lemma CongTrans(a: int, b: int, c: int, m: int)
    requires Cong(a, b, m) && Cong(b, c, m)
    ensures Cong(a, c, m)
  {
    var k: int :| m * k == a - b;
    var l: int :| m * l == b - c;
    Dist(k, l, m);
    CongIntro(a, c, m, k + l);
  }

  lemma CongAdd(a: int, b: int, c: int, d: int, m: int)
    requires Cong(a, b, m) && Cong(c, d, m)
    ensures Cong(a + c, b + d, m)
  {
    var k: int :| m * k == a - b;
    var l: int :| m * l == c - d;
    Dist(k, l, m);
    CongIntro(a + c, b + d, m, k + l);
  }

  lemma CongMul(a: int, b: int, c: int, d: int, m: int)
    requires Cong(a, b, m) && Cong(c, d, m)
    ensures Cong(a * c, b * d, m)
  {
    var k: int :| m * k == a - b;
    var l: int :| m * l == c - d;
    assert a * c - b * d == m * (k * c + b * l) by {
      Dist(k * c, b * l, m);
      Assoc(m, k, c); Assoc(b, l, m);
      Dist(a, -b, c); Dist(c, -d, b);
    }
    CongIntro(a * c, b * d, m, k * c + b * l);
  }

  lemma {:induction false} CongPow(a: int, b: int, n: nat, m: int)
    requires Cong(a, b, m)
    ensures Cong(Pow(a, n), Pow(b, n), m)
    decreases n
  {
    if n == 0 {
      CongRefl(1, m);
    } else {
      CongPow(a, b, n - 1, m);
      CongMul(a, b, Pow(a, n - 1), Pow(b, n - 1), m);
    }
  }

  lemma CongMod(a: int, m: int)
    requires m > 0
    ensures Cong(a % m, a, m)
  {
    assert a == a / m * m + a % m;
    CongIntro(a % m, a, m, -(a / m));
  }

  /** A congruence modulo a multiple is one modulo the divisor. */
  lemma CongWeaken(a: int, b: int, m: int, k: int)
    requires Cong(a, b, m * k)
    ensures Cong(a, b, m)
  {
    var l: int :| m * k * l == a - b;
    Assoc(m, k, l);
    CongIntro(a, b, m, k * l);
  }

  /** Congruent residues are equal. */
  lemma CongUnique(a: int, b: int, m: int)
    requires m > 0 && 0 <= a < m && 0 <= b < m && Cong(a, b, m)
    ensures a == b
  {
    var k: int :| m * k == a - b;
    if k >= 1 { MulMono(1, k, m); }
    if k <= -1 { MulMono(k, -1, m); }
  }

  lemma {:induction false} PowNonneg(b: nat, n: nat)
    ensures Pow(b, n) >= 0 && (b >= 1 ==> Pow(b, n) >= 1)
  {
    if n > 0 {
      PowNonneg(b, n - 1);
      MulMono(0, Pow(b, n - 1), b);
      if b >= 1 { MulMono(1, b, Pow(b, n - 1)); }
    }
  }

  lemma {:induction false} PowOfTwo(k: nat, z: nat)
    ensures 0 <= k * z && Pow(Pow2(k), z) == Pow2(k * z)
    decreases z
  {
    MulMono(0, k, z);
    if z > 0 {
      var m := k * (z - 1);
      PowOfTwo(k, z - 1);
      assert k * z == k + m by { Dist(z - 1, 1, k); }
      assert Pow(Pow2(k), z) == Pow2(k) * Pow(Pow2(k), z - 1);
      hide Pow, Pow2;
      Pow2Add(k, m);
    }
  }
}
