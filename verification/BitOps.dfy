/**
 The C operators &, |, ^ on machine words, as functions on naturals of a given
 width, and their meaning bit by bit.
 */
module BitOps {
  import opened Arith

  datatype Op = AND | IOR | XOR

  predicate Apply(op: Op, p: bool, q: bool)
  {
    match op
    case AND => p && q
    case IOR => p || q
    case XOR => p != q
  }

  function Word(op: Op, x: nat, y: nat, w: nat): (r: nat)
    ensures r < Pow2(w)
    decreases w, x
  {
    if w == 0 then 0
    else (if Apply(op, x % 2 == 1, y % 2 == 1) then 1 else 0) + 2 * Word(op, x / 2, y / 2, w - 1)
  }

  /** Bit i of the infinite two's complement of z. */
  ghost predicate TBit(z: int, i: nat)
    decreases i
  {
    if i == 0 then z % 2 == 1 else TBit(z / 2, i - 1)
  }

  lemma {:induction false} WordBit(op: Op, x: nat, y: nat, w: nat, i: nat)
    requires i < w
    ensures TBit(Word(op, x, y, w), i) == Apply(op, TBit(x, i), TBit(y, i))
  {
    if i > 0 { WordBit(op, x / 2, y / 2, w - 1, i - 1); }
  }

  /** Or of words without a common bit position is their sum. */
  lemma {:induction false} OrSum(x: nat, y: nat, k: nat, w: nat)
    requires x < Pow2(w) && k <= w && x % Pow2(k) == 0 && y < Pow2(k)
    ensures Word(IOR, x, y, w) == x + y
    decreases w
  {
    if w == 0 {
    } else if k == 0 {
      assert x / 2 < Pow2(w - 1);
      OrSum(x / 2, 0, 0, w - 1);
    } else {
      HalfMultiple(x, k);
      OrSum(x / 2, y / 2, k - 1, w - 1);
    }
  }

  lemma HalfMultiple(x: nat, k: nat)
    requires k > 0 && x % Pow2(k) == 0
    ensures x % 2 == 0 && x / 2 % Pow2(k - 1) == 0
  {
    var q, p := x / Pow2(k), Pow2(k - 1);
    assert x == q * Pow2(k);
    assert q * (2 * p) == 2 * (q * p) by { Assoc(2, q, p); Assoc(q, 2, p); }
    DivModUnique(x / 2, p, q, 0);
  }

  /** And with a run of k ones keeps the low k bits. */
  lemma {:induction false} AndMask(x: nat, k: nat, w: nat)
    requires x < Pow2(w) && k <= w
    ensures Word(AND, x, Pow2(k) - 1, w) == x % Pow2(k)
    decreases w
  {
    hide Word, Pow2;
    if k == 0 {
      AndZero(x, w);
      OneUnit(x);
    } else {
      HalfPow(x, w); HalfPow(0, k);
      var h := x / 2;
      AndMask(h, k - 1, w - 1);
      AndMaskStep(x, h, Pow2(k - 1), Pow2(k), w);
    }
  }

  lemma OneUnit(x: nat)
    ensures Pow2(0) == 1 && x % 1 == 0
  {
  }

  lemma AndMaskStep(x: nat, h: nat, p: nat, q: nat, w: nat)
    requires w > 0 && p >= 1 && q == 2 * p && h == x / 2 && Word(AND, h, p - 1, w - 1) == h % p
    ensures Word(AND, x, q - 1, w) == x % q
  {
    hide Word;
    AndOnes(x, p, w);
    ModDouble(x, p);
  }

  lemma HalfPow(x: nat, w: nat)
    requires w > 0 && x < Pow2(w)
    ensures Pow2(w) == 2 * Pow2(w - 1) && x / 2 < Pow2(w - 1)
  {
  }

  /** The lowest bit of a mask is one. */
  lemma AndOnes(x: nat, p: nat, w: nat)
    requires w > 0 && p >= 1
    ensures Word(AND, x, 2 * p - 1, w) == x % 2 + 2 * Word(AND, x / 2, p - 1, w - 1)
  {
    assert (2 * p - 1) % 2 == 1 && (2 * p - 1) / 2 == p - 1;
  }

  lemma ModDouble(x: nat, p: nat)
    requires p > 0
    ensures x % (2 * p) == 2 * (x / 2 % p) + x % 2
  {
    var q, r := x / 2 / p, x / 2 % p;
    assert x / 2 == q * p + r;
    assert q * (2 * p) == 2 * (q * p) by { Assoc(q, 2, p); Assoc(2, q, p); }
    DivModUnique(x, 2 * p, q, 2 * r + x % 2);
  }

  lemma {:induction false} AndZero(x: nat, w: nat)
    ensures Word(AND, x, 0, w) == 0
    decreases w
  {
    if w > 0 { AndZero(x / 2, w - 1); }
  }

  /** Exclusive or with all zeros or all ones: the identity and the complement. */
  lemma {:induction false} XorMask(x: nat, ones: bool, w: nat)
    requires x < Pow2(w)
    ensures Word(XOR, x, if ones then Pow2(w) - 1 else 0, w) == if ones then Pow2(w) - 1 - x else x
    decreases w
  {
    if w > 0 {
      assert (Pow2(w) - 1) / 2 == Pow2(w - 1) - 1 && (Pow2(w) - 1) % 2 == 1;
      XorMask(x / 2, ones, w - 1);
    }
  }
}
