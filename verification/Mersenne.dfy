/** The 64-bit Mersenne Twister (mt19937-64.c): block refill in place against the word-by-word recurrence. */
module Mersenne {

  const NN: nat := 312
  const MM: nat := 156
  const MATRIX_A: bv64 := 0xB5026F5AA96619E9
  const UM: bv64 := 0xFFFFFFFF80000000
  const LM: bv64 := 0x7FFFFFFF

  function Xor(x: bv64, y: bv64): (z: bv64) { x ^ y }

  /** The high bits of one word joined to the low bits of the next. */
  function Mix(u: bv64, v: bv64): (x: bv64)
  {
    (u & UM) | (v & LM)
  }

  function Mag(x: bv64): (m: bv64)
  {
    if x & 1 == 0 then 0 else MATRIX_A
  }

  /** A word of the next block, from the word MM places on and a mixed one. */
  function Renew(far: bv64, x: bv64): (y: bv64)
  {
    Xor(Xor(far, x >> 1), Mag(x))
  }

  /** The infinite sequence of words that starts with s. */
  ghost function Word(s: seq<bv64>, n: nat): (x: bv64)
    requires |s| == NN
  {
    if n < NN then s[n] else Renew(Word(s, n - NN + MM), Mix(Word(s, n - NN), Word(s, n - NN + 1)))
  }

  /** The NN words from k on. */
  ghost predicate Block(a: seq<bv64>, s: seq<bv64>, k: nat)
    requires |s| == NN
  {
    |a| == NN && forall j :: 0 <= j < NN ==> a[j] == Word(s, k + j)
  }

  /** The first i words are those of the next block already. */
  ghost predicate Partly(a: seq<bv64>, s: seq<bv64>, k: nat, i: nat)
    requires |s| == NN
  {
    |a| == NN && i <= NN && forall j :: 0 <= j < NN ==> a[j] == Word(s, if j < i then k + NN + j else k + j)
  }

  /** Replacing word i, from places that hold words k + i, k + i + 1 and k + i + MM. */
  lemma RefillOne(a: seq<bv64>, s: seq<bv64>, k: nat, i: nat, next: nat, far: nat)
    requires |s| == NN && Partly(a, s, k, i) && i < NN
    requires next == (if i + 1 < NN then i + 1 else 0) && far == (if i + MM < NN then i + MM else i + MM - NN)
    ensures Partly(a[i := Renew(a[far], Mix(a[i], a[next]))], s, k, i + 1)
  {
    hide Word, Renew, Mix;
    assert a[i] == Word(s, k + i) && a[next] == Word(s, k + i + 1) && a[far] == Word(s, k + i + MM);
    WordStep(s, k + i);
  }

  lemma WordStep(s: seq<bv64>, n: nat)
    requires |s| == NN
    ensures Word(s, n + NN) == Renew(Word(s, n + MM), Mix(Word(s, n), Word(s, n + 1)))
  {
    hide Renew, Mix;
  }

  lemma PartlyEnds(a: seq<bv64>, s: seq<bv64>, k: nat)
    requires |s| == NN
    ensures Block(a, s, k) <==> Partly(a, s, k, 0)
    ensures Block(a, s, k + NN) <==> Partly(a, s, k, NN)
  {
    hide Word;
  }

  function Shift1(x: bv64): (y: bv64) { (x >> 29) & 0x5555555555555555 }

  function Shift2(x: bv64): (y: bv64) { (x << 17) & 0x71D67FFFEDA60000 }

  function Shift3(x: bv64): (y: bv64) { (x << 37) & 0xFFF7EEE000000000 }

  function Shift4(x: bv64): (y: bv64) { x >> 43 }

  /** The four tempering steps. */
  function Temper(x: bv64): (y: bv64)
  {
    var x1 := Xor(x, Shift1(x));
    var x2 := Xor(x1, Shift2(x1));
    var x3 := Xor(x2, Shift3(x2));
    Xor(x3, Shift4(x3))
  }

  /** Shifting and masking goes through exclusive or. */
  lemma Linear1(x: bv64, y: bv64)
    ensures Shift1(Xor(x, y)) == Xor(Shift1(x), Shift1(y))
  {
  }

  lemma Linear2(x: bv64, y: bv64)
    ensures Shift2(Xor(x, y)) == Xor(Shift2(x), Shift2(y))
  {
  }

  lemma Linear3(x: bv64, y: bv64)
    ensures Shift3(Xor(x, y)) == Xor(Shift3(x), Shift3(y))
  {
  }

  lemma Linear4(x: bv64, y: bv64)
    ensures Shift4(Xor(x, y)) == Xor(Shift4(x), Shift4(y))
  {
  }

  /** Enough of it leaves nothing. */
  lemma Nilpotent(x: bv64)
    ensures Shift1(Shift1(Shift1(x))) == 0 && Shift2(Shift2(Shift2(Shift2(x)))) == 0
    ensures Shift3(Shift3(x)) == 0 && Shift4(Shift4(x)) == 0
  {
  }

  lemma Telescope(x: bv64, a: bv64, b: bv64)
    ensures Xor(Xor(x, a), Xor(a, b)) == Xor(x, b)
  {
    assert (x ^ a) ^ (a ^ b) == x ^ b;
  }

  lemma XorZero(x: bv64)
    ensures Xor(x, 0) == x
  {
  }

  /** Each step can be undone. */
  lemma Undo1(x: bv64)
    ensures var t := Xor(x, Shift1(x)); Xor(Xor(t, Shift1(t)), Shift1(Shift1(t))) == x
  {
    hide Shift1, Xor;
    var a := Shift1(x);
    Linear1(x, a); Linear1(a, Shift1(a));
    Nilpotent(x);
    Telescope(x, a, Shift1(a)); Telescope(x, Shift1(a), 0);
    XorZero(x);
  }

  lemma Undo2(x: bv64)
    ensures var t := Xor(x, Shift2(x));
            Xor(Xor(Xor(t, Shift2(t)), Shift2(Shift2(t))), Shift2(Shift2(Shift2(t)))) == x
  {
    hide Shift2, Xor;
    var a := Shift2(x);
    var b := Shift2(a);
    Linear2(x, a); Linear2(a, b); Linear2(b, Shift2(b));
    Nilpotent(x);
    Telescope(x, a, b); Telescope(x, b, Shift2(b)); Telescope(x, Shift2(b), 0);
    XorZero(x);
  }

  lemma Undo3(x: bv64)
    ensures var t := Xor(x, Shift3(x)); Xor(t, Shift3(t)) == x
  {
    hide Shift3, Xor;
    Linear3(x, Shift3(x));
    Nilpotent(x);
    Telescope(x, Shift3(x), 0);
    XorZero(x);
  }

  lemma Undo4(x: bv64)
    ensures var t := Xor(x, Shift4(x)); Xor(t, Shift4(t)) == x
  {
    hide Shift4, Xor;
    Linear4(x, Shift4(x));
    Nilpotent(x);
    Telescope(x, Shift4(x), 0);
    XorZero(x);
  }

  /** Tempering loses nothing. */
  lemma TemperInjective(x: bv64, y: bv64)
    requires Temper(x) == Temper(y)
    ensures x == y
  {
    hide Shift1, Shift2, Shift3, Shift4, Xor;
    var x1, y1 := Xor(x, Shift1(x)), Xor(y, Shift1(y));
    var x2, y2 := Xor(x1, Shift2(x1)), Xor(y1, Shift2(y1));
    var x3, y3 := Xor(x2, Shift3(x2)), Xor(y2, Shift3(y2));
    Undo4(x3); Undo4(y3);
    Undo3(x2); Undo3(y2);
    Undo2(x1); Undo2(y1);
    Undo1(x); Undo1(y);
  }

  /** The words a seed starts with. */
  function Seeded(seed: bv64, i: nat): (x: bv64)
    requires i < NN
  {
    if i == 0 then seed else NextSeed(Seeded(seed, i - 1), i)
  }

  function NextSeed(p: bv64, i: nat): (x: bv64)
    requires i < NN
  {
    6364136223846793005 * (p ^ (p >> 62)) + i as bv64
  }

  ghost function SeedBlock(seed: bv64): (s: seq<bv64>)
    ensures |s| == NN
  {
    seq(NN, i requires 0 <= i < NN => Seeded(seed, i))
  }

  class Generator {
    const mt: array<bv64>
    var mti: nat
    /** The starting words, and how many words the block in mt is past them. */
    ghost var start: seq<bv64>
    ghost var passed: nat

    ghost predicate Valid()
      reads this, mt
    {
      mt.Length == NN && |start| == NN && (mti == NN + 1 || (mti <= NN <= passed + mti && Block(mt[..], start, passed)))
    }

    /** How many numbers have been drawn since seeding. */
    ghost function Drawn(): (n: int)
      reads this
    {
      passed + mti - NN
    }

    constructor ()
      ensures Valid() && mti == NN + 1
    {
      mt, mti, start, passed := new bv64[NN], NN + 1, SeedBlock(0), 0;
    }

    /** init_genrand64 */
    method Seed(seed: bv64)
      requires Valid()
      modifies this, mt
      ensures Valid() && start == SeedBlock(seed) && mti == NN && Drawn() == 0
    {
      hide NextSeed, Word, Seeded, Block, SeedBlock;
      mt[0] := seed;
      mti := 1;
      SeedFirst(seed);
      while mti < NN
        invariant 1 <= mti <= NN && forall j :: 0 <= j < mti ==> mt[j] == Seeded(seed, j)
      {
        SeedNext(seed, mti);
        mt[mti] := NextSeed(mt[mti - 1], mti);
        mti := mti + 1;
      }
      start, passed := SeedBlock(seed), 0;
      FirstBlock(mt[..], seed);
    }

    /** The refill loops of genrand64_int64. */
    method Refill()
      requires mt.Length == NN && |start| == NN && Block(mt[..], start, passed)
      modifies mt
      ensures Block(mt[..], start, passed + NN)
    {
      hide Word, Mix, Renew, Partly, Block;
      PartlyEnds(mt[..], start, passed);
      var i := 0;
      while i < NN - MM
        invariant 0 <= i <= NN - MM && Partly(mt[..], start, passed, i)
      {
        ghost var a := mt[..];
        RefillOne(a, start, passed, i, i + 1, i + MM);
        mt[i] := Renew(mt[i + MM], Mix(mt[i], mt[i + 1]));
        assert mt[..] == a[i := mt[i]];
        i := i + 1;
      }
      while i < NN - 1
        invariant NN - MM <= i <= NN - 1 && Partly(mt[..], start, passed, i)
      {
        ghost var a := mt[..];
        RefillOne(a, start, passed, i, i + 1, i + MM - NN);
        mt[i] := Renew(mt[i + MM - NN], Mix(mt[i], mt[i + 1]));
        assert mt[..] == a[i := mt[i]];
        i := i + 1;
      }
      ghost var a := mt[..];
      RefillOne(a, start, passed, NN - 1, 0, MM - 1);
      mt[NN - 1] := Renew(mt[MM - 1], Mix(mt[NN - 1], mt[0]));
      assert mt[..] == a[NN - 1 := mt[NN - 1]];
      PartlyEnds(mt[..], start, passed);
    }

    /** genrand64_int64: the n-th number drawn is the tempered word NN + n. */
    method Next() returns (x: bv64)
      requires Valid()
      modifies this, mt
      ensures Valid() && mti <= NN
      ensures old(mti) <= NN ==> start == old(start) && Drawn() == old(Drawn()) + 1
      ensures old(mti) == NN + 1 ==> start == SeedBlock(5489) && Drawn() == 1
      ensures Drawn() >= 1 && x == Temper(Word(start, NN + Drawn() - 1))
    {
      hide Word, Temper, SeedBlock;
      if mti >= NN {
        if mti == NN + 1 { Seed(5489); }
        Refill();
        mti, passed := 0, passed + NN;
      }
      x := Temper(mt[mti]);
      mti := mti + 1;
    }
  }

  lemma SeedFirst(seed: bv64)
    ensures Seeded(seed, 0) == seed
  {
  }

  lemma SeedNext(seed: bv64, i: nat)
    requires 1 <= i < NN
    ensures Seeded(seed, i) == NextSeed(Seeded(seed, i - 1), i)
  {
  }

  lemma FirstBlock(a: seq<bv64>, seed: bv64)
    requires |a| == NN && forall j :: 0 <= j < NN ==> a[j] == Seeded(seed, j)
    ensures Block(a, SeedBlock(seed), 0)
  {
    hide Seeded;
  }
}
