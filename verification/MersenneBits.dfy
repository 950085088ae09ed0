/** The Mersenne Twister bit by bit, and the first number that an unseeded generator draws. */
module MersenneBits {
  import opened Mersenne

  function Half(x: bv64): (y: bv64) { x >> 1 }

  predicate Odd(x: bv64) { x & 1 == 1 }

  function And(x: bv64, y: bv64): (z: bv64) { x & y }

  function Or(x: bv64, y: bv64): (z: bv64) { x | y }

  /** Bit j of a word, counted from the lowest; there is none from 64 on. */
  ghost predicate Bit(x: bv64, j: nat)
    decreases j
  {
    if j == 0 then Odd(x) else Bit(Half(x), j - 1)
  }

  lemma BitStep(x: bv64, j: nat)
    ensures Bit(x, j) == if j == 0 then Odd(x) else Bit(Half(x), j - 1)
  {
  }

  // ----- the operators, bit by bit

  lemma HalfAnd(x: bv64, y: bv64)
    ensures Half(And(x, y)) == And(Half(x), Half(y))
  {
  }

  lemma HalfOr(x: bv64, y: bv64)
    ensures Half(Or(x, y)) == Or(Half(x), Half(y))
  {
  }

  lemma HalfXor(x: bv64, y: bv64)
    ensures Half(Xor(x, y)) == Xor(Half(x), Half(y))
  {
  }

  lemma OddOps(x: bv64, y: bv64)
    ensures Odd(And(x, y)) == (Odd(x) && Odd(y))
    ensures Odd(Or(x, y)) == (Odd(x) || Odd(y))
    ensures Odd(Xor(x, y)) == (Odd(x) != Odd(y))
  {
  }

  lemma {:induction false} OpBit(x: bv64, y: bv64, j: nat)
    ensures Bit(And(x, y), j) == (Bit(x, j) && Bit(y, j))
    ensures Bit(Or(x, y), j) == (Bit(x, j) || Bit(y, j))
    ensures Bit(Xor(x, y), j) == (Bit(x, j) != Bit(y, j))
    decreases j
  {
    hide Half, Odd, And, Or, Xor;
    if j == 0 {
      OddOps(x, y);
    } else {
      HalfAnd(x, y); HalfOr(x, y); HalfXor(x, y);
      OpBit(Half(x), Half(y), j - 1);
    }
  }

  // ----- shifts to the right

  /** n shifts by one. */
  ghost function Down(x: bv64, n: nat): (y: bv64)
  {
    if n == 0 then x else Down(Half(x), n - 1)
  }

  lemma {:induction false} DownBit(x: bv64, n: nat, j: nat)
    ensures Bit(Down(x, n), j) == Bit(x, j + n)
    decreases n
  {
    hide Half, Odd;
    if n > 0 { DownBit(Half(x), n - 1, j); }
  }

  lemma {:induction false} DownAdd(x: bv64, m: nat, n: nat)
    ensures Down(x, m + n) == Down(Down(x, m), n)
    decreases m
  {
    hide Half;
    if m > 0 { DownAdd(Half(x), m - 1, n); }
  }

  function Right4(x: bv64): (y: bv64) { x >> 4 }

  function Right16(x: bv64): (y: bv64) { x >> 16 }

  function Right29(x: bv64): (y: bv64) { x >> 29 }

  lemma Right4Half(x: bv64)
    ensures Right4(x) == Half(Half(Half(Half(x))))
  {
  }

  lemma Right16Four(x: bv64)
    ensures Right16(x) == Right4(Right4(Right4(Right4(x))))
  {
  }

  lemma Right29Four(x: bv64)
    ensures Right29(x) == Half(Right4(Right4(Right4(Right16(x)))))
  {
  }

  lemma Shift4Four(x: bv64)
    ensures Shift4(x) == Half(Half(Half(Right4(Right4(Right16(Right16(x)))))))
  {
  }

  lemma NothingLeft(x: bv64)
    ensures Right16(Right16(Right16(Right16(x)))) == 0
  {
  }

  lemma Down1(x: bv64)
    ensures Down(x, 1) == Half(x)
  {
    hide Half;
  }

  lemma Down4(x: bv64)
    ensures Down(x, 4) == Right4(x)
  {
    hide Half, Right4, Down;
    Right4Half(x);
    var y := Half(x);
    var z := Half(y);
    Down1(x); Down1(y); Down1(z); Down1(Half(z));
    DownAdd(x, 1, 1); DownAdd(x, 2, 1); DownAdd(x, 3, 1);
  }

  lemma Down16(x: bv64)
    ensures Down(x, 16) == Right16(x)
  {
    hide Right4, Right16, Down;
    Right16Four(x);
    var y := Right4(x);
    var z := Right4(y);
    Down4(x); Down4(y); Down4(z); Down4(Right4(z));
    DownAdd(x, 4, 4); DownAdd(x, 8, 4); DownAdd(x, 12, 4);
  }

  lemma Down29(x: bv64)
    ensures Down(x, 29) == Right29(x)
  {
    hide Half, Right4, Right16, Right29, Down;
    Right29Four(x);
    var y := Right16(x);
    var z := Right4(y);
    Down16(x); Down4(y); Down4(z); Down4(Right4(z)); Down1(Right4(Right4(z)));
    DownAdd(x, 16, 4); DownAdd(x, 20, 4); DownAdd(x, 24, 4); DownAdd(x, 28, 1);
  }

  lemma Down43(x: bv64)
    ensures Down(x, 43) == Shift4(x)
  {
    hide Half, Right4, Right16, Shift4, Down;
    Shift4Four(x);
    var y := Right16(Right16(x));
    var z := Right4(Right4(y));
    Down16(x); Down16(Right16(x)); Down4(y); Down4(Right4(y));
    Down1(z); Down1(Half(z)); Down1(Half(Half(z)));
    DownAdd(x, 16, 16); DownAdd(x, 32, 4); DownAdd(x, 36, 4);
    DownAdd(x, 40, 1); DownAdd(x, 41, 1); DownAdd(x, 42, 1);
  }

  lemma Down64(x: bv64)
    ensures Down(x, 64) == 0
  {
    hide Right16, Down;
    NothingLeft(x);
    var y := Right16(x);
    var z := Right16(y);
    Down16(x); Down16(y); Down16(z); Down16(Right16(z));
    DownAdd(x, 16, 16); DownAdd(x, 32, 16); DownAdd(x, 48, 16);
  }

  lemma {:induction false} ZeroBit(j: nat)
    ensures !Bit(0, j)
    decreases j
  {
    HalfZero();
    hide Half, Odd;
    if j > 0 { ZeroBit(j - 1); }
  }

  lemma HalfZero()
    ensures Half(0) == 0 && !Odd(0)
  {
  }

  lemma BeyondBit(x: bv64, j: nat)
    requires j >= 64
    ensures !Bit(x, j)
  {
    hide Bit, Down;
    Down64(x);
    DownBit(x, 64, j - 64);
    ZeroBit(j - 64);
  }

  // ----- masks of low bits

  /** One less than a power of two. */
  predicate Ones(x: bv64) { x & (x + 1) == 0 }

  lemma OnesHalf(x: bv64)
    ensures Ones(x) ==> Ones(Half(x)) && (x == 0 || Odd(x))
  {
  }

  /** The bits of such a mask are set as long as something is left of it. */
  lemma {:induction false} OnesBit(x: bv64, j: nat)
    requires Ones(x)
    ensures Bit(x, j) <==> Down(x, j) != 0
    decreases j
  {
    OnesHalf(x);
    if j == 0 { HalfZero(); }
    hide Half, Odd, Ones;
    if j > 0 { OnesBit(Half(x), j - 1); }
  }

  lemma {:induction false} ZeroDown(n: nat)
    ensures Down(0, n) == 0
    decreases n
  {
    HalfZero();
    hide Half;
    if n > 0 { ZeroDown(n - 1); }
  }

  /** With something left after n - 1 shifts and nothing after n, the mask has n bits. */
  lemma MaskBit(x: bv64, n: nat, j: nat)
    requires Ones(x) && n > 0 && Down(x, n - 1) != 0 && Down(x, n) == 0
    ensures Bit(x, j) <==> j < n
  {
    hide Ones, Bit, Down;
    OnesBit(x, j);
    if j < n {
      DownAdd(x, j, n - 1 - j);
      if Down(x, j) == 0 { ZeroDown(n - 1 - j); }
    } else {
      DownAdd(x, n, j - n);
      ZeroDown(j - n);
    }
  }

  /** The three masks that occur: bits 0 to 30, bits 0 to 62, and all bits. */
  lemma MaskLow(j: nat)
    ensures Bit(LM, j) <==> j < 31
  {
    hide Bit, Down;
    Down16(LM); Down4(LM >> 16); Down4(LM >> 20); Down4(LM >> 24);
    Down1(LM >> 28); Down1(LM >> 29); Down1(LM >> 30);
    DownAdd(LM, 16, 4); DownAdd(LM, 20, 4); DownAdd(LM, 24, 4);
    DownAdd(LM, 28, 1); DownAdd(LM, 29, 1); DownAdd(LM, 30, 1);
    MaskBit(LM, 31, j);
  }

  const ALL: bv64 := 0xFFFFFFFFFFFFFFFF

  lemma MaskAll(j: nat)
    ensures Bit(ALL, j) <==> j < 64
  {
    hide Bit, Down;
    Down64(ALL);
    Down16(ALL); Down16(ALL >> 16); Down16(ALL >> 32);
    Down4(ALL >> 48); Down4(ALL >> 52); Down4(ALL >> 56);
    Down1(ALL >> 60); Down1(ALL >> 61); Down1(ALL >> 62);
    DownAdd(ALL, 16, 16); DownAdd(ALL, 32, 16); DownAdd(ALL, 48, 4); DownAdd(ALL, 52, 4); DownAdd(ALL, 56, 4);
    DownAdd(ALL, 60, 1); DownAdd(ALL, 61, 1); DownAdd(ALL, 62, 1);
    MaskBit(ALL, 64, j);
  }

  // ----- shifts to the left

  function Double(x: bv64): (y: bv64) { x << 1 }

  lemma HalfDouble(x: bv64)
    ensures Half(Double(x)) == And(x, Half(ALL)) && !Odd(Double(x))
  {
  }

  lemma DoubleBit(x: bv64, j: nat)
    ensures Bit(Double(x), j) == (1 <= j < 64 && Bit(x, j - 1))
  {
    hide Half, Odd, And, Double, Bit;
    HalfDouble(x);
    BitStep(Double(x), j);
    if j > 0 { BelowTop(x, j - 1); }
  }

  lemma BelowTop(x: bv64, j: nat)
    ensures Bit(And(x, Half(ALL)), j) == (j < 63 && Bit(x, j))
  {
    hide Half, And, Bit;
    OpBit(x, Half(ALL), j);
    BitStep(ALL, j + 1);
    MaskAll(j + 1);
  }

  /** n shifts by one. */
  ghost function Up(x: bv64, n: nat): (y: bv64)
    decreases n
  {
    if n == 0 then x else Up(Double(x), n - 1)
  }

  lemma {:induction false} UpBit(x: bv64, n: nat, j: nat)
    ensures Bit(Up(x, n), j) == (n <= j < 64 && Bit(x, j - n))
    decreases n
  {
    hide Double, Half, Odd, Bit;
    if n == 0 {
      if j >= 64 { BeyondBit(x, j); }
    } else {
      UpBit(Double(x), n - 1, j);
      if n - 1 <= j { DoubleBit(x, j - (n - 1)); }
    }
  }

  lemma {:induction false} UpAdd(x: bv64, m: nat, n: nat)
    ensures Up(x, m + n) == Up(Up(x, m), n)
    decreases m
  {
    hide Double;
    if m > 0 { UpAdd(Double(x), m - 1, n); }
  }

  function Left4(x: bv64): (y: bv64) { x << 4 }

  function Left16(x: bv64): (y: bv64) { x << 16 }

  function Left17(x: bv64): (y: bv64) { x << 17 }

  function Left37(x: bv64): (y: bv64) { x << 37 }

  lemma Left4Double(x: bv64)
    ensures Left4(x) == Double(Double(Double(Double(x))))
  {
  }

  lemma Left16Four(x: bv64)
    ensures Left16(x) == Left4(Left4(Left4(Left4(x))))
  {
  }

  lemma Left17Parts(x: bv64)
    ensures Left17(x) == Double(Left16(x))
  {
  }

  lemma Left37Parts(x: bv64)
    ensures Left37(x) == Double(Left4(Left16(Left16(x))))
  {
  }

  lemma Up1(x: bv64)
    ensures Up(x, 1) == Double(x)
  {
    hide Double;
  }

  lemma Up4(x: bv64)
    ensures Up(x, 4) == Left4(x)
  {
    hide Double, Left4, Up;
    Left4Double(x);
    var y := Double(x);
    var z := Double(y);
    Up1(x); Up1(y); Up1(z); Up1(Double(z));
    UpAdd(x, 1, 1); UpAdd(x, 2, 1); UpAdd(x, 3, 1);
  }

  lemma Up16(x: bv64)
    ensures Up(x, 16) == Left16(x)
  {
    hide Left4, Left16, Up;
    Left16Four(x);
    var y := Left4(x);
    var z := Left4(y);
    Up4(x); Up4(y); Up4(z); Up4(Left4(z));
    UpAdd(x, 4, 4); UpAdd(x, 8, 4); UpAdd(x, 12, 4);
  }

  lemma Up17(x: bv64)
    ensures Up(x, 17) == Left17(x)
  {
    hide Double, Left16, Left17, Up;
    Left17Parts(x);
    Up16(x); Up1(Left16(x));
    UpAdd(x, 16, 1);
  }

  lemma Up37(x: bv64)
    ensures Up(x, 37) == Left37(x)
  {
    hide Double, Left4, Left16, Left37, Up;
    Left37Parts(x);
    var y := Left16(x);
    var z := Left16(y);
    Up16(x); Up16(y); Up4(z); Up1(Left4(z));
    UpAdd(x, 16, 16); UpAdd(x, 32, 4); UpAdd(x, 36, 1);
  }

  // ----- the recurrence

  lemma MixParts(u: bv64, v: bv64)
    ensures Mix(u, v) == Or(And(u, UM), And(v, LM)) && UM == Xor(ALL, LM)
  {
  }

  lemma RenewParts(far: bv64, x: bv64)
    ensures Renew(far, x) == Xor(Xor(far, Half(x)), Mag(x))
  {
    hide Mag, Xor;
  }

  lemma MagParts(x: bv64)
    ensures Mag(x) == if Odd(x) then 0xB5026F5AA96619E9 else 0
  {
  }

  /** The top 33 bits of one word and the low 31 bits of the next. */
  lemma MixBit(u: bv64, v: bv64, j: nat)
    requires j < 64
    ensures Bit(Mix(u, v), j) == if j >= 31 then Bit(u, j) else Bit(v, j)
  {
    MixParts(u, v);
    hide Bit, Mix, And, Or, Xor;
    OpBit(And(u, UM), And(v, LM), j); OpBit(u, UM, j); OpBit(v, LM, j);
    OpBit(ALL, LM, j);
    MaskAll(j); MaskLow(j);
  }

  lemma RenewBit(far: bv64, x: bv64, j: nat)
    ensures Bit(Renew(far, x), j) ==
            ((Bit(far, j) != Bit(x, j + 1)) != (Bit(x, 0) && Bit(0xB5026F5AA96619E9, j)))
  {
    hide Half, Odd, Xor, Renew, Mag, Bit;
    RenewParts(far, x);
    MagParts(x);
    BitStep(x, 0); BitStep(x, j + 1);
    OpBit(Xor(far, Half(x)), Mag(x), j); OpBit(far, Half(x), j);
    ZeroBit(j);
  }

  /**
   Each bit of a word is, added up modulo 2: the same bit 156 words before; the next higher bit of the mixture of
   the words 312 and 311 before; and the bit of the twist matrix, when the word 311 before is odd.
   */
  lemma WordBit(s: seq<bv64>, n: nat, j: nat)
    requires |s| == 312 && j < 64
    ensures var u, v := Word(s, n), Word(s, n + 1);
            var mixed := j < 63 && if j + 1 >= 31 then Bit(u, j + 1) else Bit(v, j + 1);
            var twist := Bit(v, 0) && Bit(0xB5026F5AA96619E9, j);
            Bit(Word(s, n + 312), j) == ((Bit(Word(s, n + 156), j) != mixed) != twist)
  {
    hide Word, Mix, Renew, Bit;
    var u, v := Word(s, n), Word(s, n + 1);
    WordStep(s, n);
    RenewBit(Word(s, n + 156), Mix(u, v), j);
    MixBit(u, v, 0);
    if j < 63 { MixBit(u, v, j + 1); } else { BeyondBit(Mix(u, v), j + 1); }
  }

  // ----- tempering

  lemma Shift1Parts(x: bv64)
    ensures Shift1(x) == And(Right29(x), 0x5555555555555555)
  {
  }

  lemma Shift2Parts(x: bv64)
    ensures Shift2(x) == And(Left17(x), 0x71D67FFFEDA60000)
  {
  }

  lemma Shift3Parts(x: bv64)
    ensures Shift3(x) == And(Left37(x), 0xFFF7EEE000000000)
  {
  }

  /** What each step does to bit j. */
  lemma Bits1(x: bv64, j: nat)
    ensures Bit(Xor(x, Shift1(x)), j) == (Bit(x, j) != (Bit(0x5555555555555555, j) && Bit(x, j + 29)))
  {
    hide Bit, Xor, And, Shift1, Right29, Down;
    Shift1Parts(x);
    OpBit(x, Shift1(x), j);
    OpBit(Right29(x), 0x5555555555555555, j);
    Down29(x);
    DownBit(x, 29, j);
  }

  lemma Bits2(x: bv64, j: nat)
    requires j < 64
    ensures Bit(Xor(x, Shift2(x)), j) == (Bit(x, j) != (j >= 17 && Bit(0x71D67FFFEDA60000, j) && Bit(x, j - 17)))
  {
    hide Bit, Xor, And, Shift2, Left17, Up;
    Shift2Parts(x);
    OpBit(x, Shift2(x), j);
    OpBit(Left17(x), 0x71D67FFFEDA60000, j);
    Up17(x);
    UpBit(x, 17, j);
  }

  lemma Bits3(x: bv64, j: nat)
    requires j < 64
    ensures Bit(Xor(x, Shift3(x)), j) == (Bit(x, j) != (j >= 37 && Bit(0xFFF7EEE000000000, j) && Bit(x, j - 37)))
  {
    hide Bit, Xor, And, Shift3, Left37, Up;
    Shift3Parts(x);
    OpBit(x, Shift3(x), j);
    OpBit(Left37(x), 0xFFF7EEE000000000, j);
    Up37(x);
    UpBit(x, 37, j);
  }

  lemma Bits4(x: bv64, j: nat)
    ensures Bit(Xor(x, Shift4(x)), j) == (Bit(x, j) != Bit(x, j + 43))
  {
    hide Bit, Xor, Shift4, Down;
    OpBit(x, Shift4(x), j);
    Down43(x);
    DownBit(x, 43, j);
  }

  /** The four steps as relations between the bits of words. */
  ghost predicate Step1(x: bv64, y: bv64)
  {
    forall j: nat :: j < 64 ==> Bit(y, j) == (Bit(x, j) != (Bit(0x5555555555555555, j) && Bit(x, j + 29)))
  }

  ghost predicate Step2(x: bv64, y: bv64)
  {
    forall j: nat :: j < 64 ==>
      Bit(y, j) == (Bit(x, j) != (j >= 17 && Bit(0x71D67FFFEDA60000, j) && Bit(x, j - 17)))
  }

  ghost predicate Step3(x: bv64, y: bv64)
  {
    forall j: nat :: j < 64 ==>
      Bit(y, j) == (Bit(x, j) != (j >= 37 && Bit(0xFFF7EEE000000000, j) && Bit(x, j - 37)))
  }

  ghost predicate Step4(x: bv64, y: bv64)
  {
    forall j: nat :: j < 64 ==> Bit(y, j) == (Bit(x, j) != Bit(x, j + 43))
  }

  lemma Step1Holds(x: bv64)
    ensures Step1(x, Xor(x, Shift1(x)))
  {
    hide Bit, Xor, Shift1;
    forall j: nat | j < 64 { Bits1(x, j); }
  }

  lemma Step2Holds(x: bv64)
    ensures Step2(x, Xor(x, Shift2(x)))
  {
    hide Bit, Xor, Shift2;
    forall j: nat | j < 64 { Bits2(x, j); }
  }

  lemma Step3Holds(x: bv64)
    ensures Step3(x, Xor(x, Shift3(x)))
  {
    hide Bit, Xor, Shift3;
    forall j: nat | j < 64 { Bits3(x, j); }
  }

  lemma Step4Holds(x: bv64)
    ensures Step4(x, Xor(x, Shift4(x)))
  {
    hide Bit, Xor, Shift4;
    forall j: nat | j < 64 { Bits4(x, j); }
  }

  /** Tempering is these four steps, one after the other. */
  lemma TemperBits(x: bv64) returns (x1: bv64, x2: bv64, x3: bv64)
    ensures Step1(x, x1) && Step2(x1, x2) && Step3(x2, x3) && Step4(x3, Temper(x))
  {
    hide Xor, Shift1, Shift2, Shift3, Shift4, Step1, Step2, Step3, Step4;
    x1 := Xor(x, Shift1(x));
    x2 := Xor(x1, Shift2(x1));
    x3 := Xor(x2, Shift3(x2));
    Step1Holds(x); Step2Holds(x1); Step3Holds(x2); Step4Holds(x3);
  }

  /** Words with the same bits are the same, so the bits say everything. */
  lemma SameBits(x: bv64, y: bv64)
    requires forall j: nat :: j < 64 ==> Bit(x, j) == Bit(y, j)
    ensures x == y
  {
    hide Bit, Xor, Down;
    var z := Xor(x, y);
    forall j: nat ensures !Bit(z, j) {
      OpBit(x, y, j);
      if j >= 64 { BeyondBit(x, j); BeyondBit(y, j); }
    }
    NoBits(z, 64);
    Down64(z);
    XorNothing(x, y);
  }

  /** Without bits, shifting changes nothing but zero stays. */
  lemma {:induction false} NoBits(z: bv64, n: nat)
    requires forall j: nat :: !Bit(z, j)
    ensures Down(z, n) == 0 ==> z == 0
    decreases n
  {
    hide Half, Odd;
    if n > 0 {
      forall j: nat ensures !Bit(Half(z), j) { assert !Bit(z, j + 1); }
      NoBits(Half(z), n - 1);
      assert !Bit(z, 0);
      EvenHalf(z);
    }
  }

  lemma EvenHalf(z: bv64)
    ensures Half(z) == 0 && !Odd(z) ==> z == 0
  {
  }

  lemma XorNothing(x: bv64, y: bv64)
    ensures Xor(x, y) == 0 ==> x == y
  {
  }

  // ----- the first number drawn

  ghost predicate SeedAt(i: nat, x: bv64)
  {
    i < 312 && Seeded(5489, i) == x
  }

  lemma SeedStep(i: nat, p: bv64, x: bv64)
    requires 0 < i < 312 && SeedAt(i - 1, p) && NextSeed(p, i) == x
    ensures SeedAt(i, x)
  {
    hide NextSeed;
  }

  lemma SeedsTo26()
    ensures SeedAt(26, 0xb35584c73a6ad254)
  {
    hide SeedAt;
    SeedStart();
    SeedStep(1, 0x1571, 0xb5347f47116bd3de); SeedStep(2, 0xb5347f47116bd3de, 0x9165b5762d1a61ae);
    SeedStep(3, 0x9165b5762d1a61ae, 0xd139b6bbed337f3f); SeedStep(4, 0xd139b6bbed337f3f, 0x37e740001c182190);
    SeedStep(5, 0x37e740001c182190, 0xe398f84731b45655); SeedStep(6, 0xe398f84731b45655, 0x97392e1fb95d724);
    SeedStep(7, 0x97392e1fb95d724, 0x102ff8f17705ad5b); SeedStep(8, 0x102ff8f17705ad5b, 0xafd3b741a6f69e07);
    SeedStep(9, 0xafd3b741a6f69e07, 0x3673b7b326a741ea); SeedStep(10, 0x3673b7b326a741ea, 0x967befb79a4bac2c);
    SeedStep(11, 0x967befb79a4bac2c, 0x81579a10887e1621); SeedStep(12, 0x81579a10887e1621, 0xfa4f68bad1844133);
    SeedStep(13, 0xfa4f68bad1844133, 0xd26a818ba186457d); SeedStep(14, 0xd26a818ba186457d, 0x58ea399adb69b934);
    SeedStep(15, 0x58ea399adb69b934, 0x7be61ce78c4fd960); SeedStep(16, 0x7be61ce78c4fd960, 0x6520fc5e9855551d);
    SeedStep(17, 0x6520fc5e9855551d, 0xc641ef0df584d9fd); SeedStep(18, 0xc641ef0df584d9fd, 0xe8b0b2f1595553b8);
    SeedStep(19, 0xe8b0b2f1595553b8, 0x2acc772248607cf2); SeedStep(20, 0x2acc772248607cf2, 0xe21a56b927cc049e);
    SeedStep(21, 0xe21a56b927cc049e, 0x222b48008087b2ae); SeedStep(22, 0x222b48008087b2ae, 0xcffd407690c4baac);
    SeedStep(23, 0xcffd407690c4baac, 0x185e6d58a70ca1da); SeedStep(24, 0x185e6d58a70ca1da, 0xa47f692d8d65996a);
    SeedStep(25, 0xa47f692d8d65996a, 0xd80ba31c6b7e8f61); SeedStep(26, 0xd80ba31c6b7e8f61, 0xb35584c73a6ad254);
  }

  lemma SeedsTo52()
    ensures SeedAt(52, 0xbf99b825822a0877)
  {
    hide SeedAt;
    SeedsTo26();
    SeedStep(27, 0xb35584c73a6ad254, 0x92aad4bc372da339); SeedStep(28, 0x92aad4bc372da339, 0x59c35bd9dc56f67b);
    SeedStep(29, 0x59c35bd9dc56f67b, 0x5feee4d68c91d98f); SeedStep(30, 0x5feee4d68c91d98f, 0xa20c5ce2d836b014);
    SeedStep(31, 0xa20c5ce2d836b014, 0x6ee0dd1c27c5ddfd); SeedStep(32, 0x6ee0dd1c27c5ddfd, 0x8a81ef0b2a94096c);
    SeedStep(33, 0x8a81ef0b2a94096c, 0xa161ca6211b93a77); SeedStep(34, 0xa161ca6211b93a77, 0x2a3a52c2c3a851b3);
    SeedStep(35, 0x2a3a52c2c3a851b3, 0x8cd8fcfc964d299a); SeedStep(36, 0x8cd8fcfc964d299a, 0x39559f108aab7dc);
    SeedStep(37, 0x39559f108aab7dc, 0xaa981e498a4475d1); SeedStep(38, 0xaa981e498a4475d1, 0x47b66d6f7c4b633d);
    SeedStep(39, 0x47b66d6f7c4b633d, 0x9ff6e624d16735b3); SeedStep(40, 0x9ff6e624d16735b3, 0x7f7d617acecc3f45);
    SeedStep(41, 0x7f7d617acecc3f45, 0x38fcfdcaafdddb1d); SeedStep(42, 0x38fcfdcaafdddb1d, 0x14928b261d93e743);
    SeedStep(43, 0x14928b261d93e743, 0xfe6000e410b8e3f2); SeedStep(44, 0xfe6000e410b8e3f2, 0xb208b107e0d9a089);
    SeedStep(45, 0xb208b107e0d9a089, 0x82f135b131cd2d9c); SeedStep(46, 0x82f135b131cd2d9c, 0x987dda96ffa866f4);
    SeedStep(47, 0x987dda96ffa866f4, 0xe1ebb23270dc236d); SeedStep(48, 0xe1ebb23270dc236d, 0x2f775d6534bcc86);
    SeedStep(49, 0x2f775d6534bcc86, 0x2916b16310c76dbf); SeedStep(50, 0x2916b16310c76dbf, 0x8bb8a2f776ab0bc5);
    SeedStep(51, 0x8bb8a2f776ab0bc5, 0x7ed20066a5bbcb2e); SeedStep(52, 0x7ed20066a5bbcb2e, 0xbf99b825822a0877);
  }

  lemma SeedsTo78()
    ensures SeedAt(78, 0x800b954befb3d899)
  {
    hide SeedAt;
    SeedsTo52();
    SeedStep(53, 0xbf99b825822a0877, 0x175137b563ae87c6); SeedStep(54, 0x175137b563ae87c6, 0x8ed13207e9471804);
    SeedStep(55, 0x8ed13207e9471804, 0xc8be8aaf09e83345); SeedStep(56, 0xc8be8aaf09e83345, 0xd6f2a55b8efebd86);
    SeedStep(57, 0xd6f2a55b8efebd86, 0x33ec6bf14d354b9a); SeedStep(58, 0x33ec6bf14d354b9a, 0x1aa08340bb81b04c);
    SeedStep(59, 0x1aa08340bb81b04c, 0x658c3f94787db197); SeedStep(60, 0x658c3f94787db197, 0x3e32761e6d7fa19a);
    SeedStep(61, 0x3e32761e6d7fa19a, 0xb6dfab00573cce4f); SeedStep(62, 0xb6dfab00573cce4f, 0xc4edb5826ed976c7);
    SeedStep(63, 0xc4edb5826ed976c7, 0x9e186133ae391cb3); SeedStep(64, 0x9e186133ae391cb3, 0xc8b2d463344ada5d);
    SeedStep(65, 0xc8b2d463344ada5d, 0x1182f4c543304c7); SeedStep(66, 0x1182f4c543304c7, 0xb99fd847f829903d);
    SeedStep(67, 0xb99fd847f829903d, 0xb5ade6d9e6889c56); SeedStep(68, 0xb5ade6d9e6889c56, 0x53f2f45b38752708);
    SeedStep(69, 0x53f2f45b38752708, 0x9e6e49666f3253da); SeedStep(70, 0x9e6e49666f3253da, 0xfc88fe527028e53e);
    SeedStep(71, 0xfc88fe527028e53e, 0xb8275b6896a8f00); SeedStep(72, 0xb8275b6896a8f00, 0x6964ffbb3fac2348);
    SeedStep(73, 0x6964ffbb3fac2348, 0x957ec9ffcc406b1e); SeedStep(74, 0x957ec9ffcc406b1e, 0x8149ed8183c1b836);
    SeedStep(75, 0x8149ed8183c1b836, 0xb6423b4e9b32d6f); SeedStep(76, 0xb6423b4e9b32d6f, 0x8fea06065da40dcf);
    SeedStep(77, 0x8fea06065da40dcf, 0x737c3d30bd002056); SeedStep(78, 0x737c3d30bd002056, 0x800b954befb3d899);
  }

  lemma SeedsTo104()
    ensures SeedAt(104, 0xc5cdca88c7cc7dee)
  {
    hide SeedAt;
    SeedsTo78();
    SeedStep(79, 0x800b954befb3d899, 0xf91a17d7148f88e); SeedStep(80, 0xf91a17d7148f88e, 0x23044078efc82346);
    SeedStep(81, 0x23044078efc82346, 0xd2413979bf6bed9f); SeedStep(82, 0xd2413979bf6bed9f, 0x3c786924cca528be);
    SeedStep(83, 0x3c786924cca528be, 0x147b229d06d46bb9); SeedStep(84, 0x147b229d06d46bb9, 0xcac949203374b6d9);
    SeedStep(85, 0xcac949203374b6d9, 0xb47359b9171c4aa7); SeedStep(86, 0xb47359b9171c4aa7, 0x7ab3d4a18709fa57);
    SeedStep(87, 0x7ab3d4a18709fa57, 0x82c40aa0ebffab75); SeedStep(88, 0x82c40aa0ebffab75, 0x877a85fe72442d43);
    SeedStep(89, 0x877a85fe72442d43, 0xdab66ff48b4433c6); SeedStep(90, 0xdab66ff48b4433c6, 0x4bf32ac4ee54d4fb);
    SeedStep(91, 0x4bf32ac4ee54d4fb, 0x6a57d5662813764d); SeedStep(92, 0x6a57d5662813764d, 0xf2e186a51d577fb8);
    SeedStep(93, 0xf2e186a51d577fb8, 0x368b524c6c96393c); SeedStep(94, 0x368b524c6c96393c, 0x4bfa6d46bcb8d3ea);
    SeedStep(95, 0x4bfa6d46bcb8d3ea, 0x5d423fdaf965d5ae); SeedStep(96, 0x5d423fdaf965d5ae, 0x19c09aafaec36123);
    SeedStep(97, 0x19c09aafaec36123, 0xf8bb804992e77088); SeedStep(98, 0xf8bb804992e77088, 0xdf7875c686abdd1);
    SeedStep(99, 0xdf7875c686abdd1, 0x7741ab42d5930d20); SeedStep(100, 0x7741ab42d5930d20, 0x429cfbfcee91ae31);
    SeedStep(101, 0x429cfbfcee91ae31, 0xbe763ec0d6f56ed5); SeedStep(102, 0xbe763ec0d6f56ed5, 0x9ac91415e2442531);
    SeedStep(103, 0x9ac91415e2442531, 0x2cca75c45f1dd75e); SeedStep(104, 0x2cca75c45f1dd75e, 0xc5cdca88c7cc7dee);
  }

  lemma SeedsTo130()
    ensures SeedAt(130, 0x5524bf4114923f24)
  {
    hide SeedAt;
    SeedsTo104();
    SeedStep(105, 0xc5cdca88c7cc7dee, 0xb0887b3a385bb612); SeedStep(106, 0xb0887b3a385bb612, 0x2b73d36f1ec0f13a);
    SeedStep(107, 0x2b73d36f1ec0f13a, 0xb73e27e5be582d9d); SeedStep(108, 0xb73e27e5be582d9d, 0x113c84a0f5ace65f);
    SeedStep(109, 0x113c84a0f5ace65f, 0x8f1386e53ef8a020); SeedStep(110, 0x8f1386e53ef8a020, 0xcd9074c2b4ef0468);
    SeedStep(111, 0xcd9074c2b4ef0468, 0x5b702538b77bdc3e); SeedStep(112, 0x5b702538b77bdc3e, 0xdc4a018b97b3f883);
    SeedStep(113, 0xdc4a018b97b3f883, 0x9b0bedd1956a2ef1); SeedStep(114, 0x9b0bedd1956a2ef1, 0xaab8206b6863ce29);
    SeedStep(115, 0xaab8206b6863ce29, 0x999b98859fd99302); SeedStep(116, 0x999b98859fd99302, 0x9e999210982bd774);
    SeedStep(117, 0x9e999210982bd774, 0x46b1d5a1ef466a33); SeedStep(118, 0x46b1d5a1ef466a33, 0x6f16177a5297940);
    SeedStep(119, 0x6f16177a5297940, 0x248f3e5a2db110b7); SeedStep(120, 0x248f3e5a2db110b7, 0x8b1f37b4ededb9a3);
    SeedStep(121, 0x8b1f37b4ededb9a3, 0x8fb8b09c989580c6); SeedStep(122, 0x8fb8b09c989580c6, 0x9a8c5eeb1f3cdeee);
    SeedStep(123, 0x9a8c5eeb1f3cdeee, 0x4bab3eb7fa643f7); SeedStep(124, 0x4bab3eb7fa643f7, 0x68327b16ceb47be7);
    SeedStep(125, 0x68327b16ceb47be7, 0x652ad6d0440ee1eb); SeedStep(126, 0x652ad6d0440ee1eb, 0xf57fda3c4de2cca0);
    SeedStep(127, 0xf57fda3c4de2cca0, 0x247245a5b341d626); SeedStep(128, 0x247245a5b341d626, 0xe8012fa117ed7f2e);
    SeedStep(129, 0xe8012fa117ed7f2e, 0x31e6f8156807ae6a); SeedStep(130, 0x31e6f8156807ae6a, 0x5524bf4114923f24);
  }

  lemma SeedsTo156()
    ensures SeedAt(156, 0x245b1c66fa082bff)
  {
    hide SeedAt;
    SeedsTo130();
    SeedStep(131, 0x5524bf4114923f24, 0x89eca903e7917504); SeedStep(132, 0x89eca903e7917504, 0x9d78e605c21d8c92);
    SeedStep(133, 0x9d78e605c21d8c92, 0x8213008d57bd25d5); SeedStep(134, 0x8213008d57bd25d5, 0x2845027d1c285051);
    SeedStep(135, 0x2845027d1c285051, 0x88cf2e81be134dc4); SeedStep(136, 0x88cf2e81be134dc4, 0xe59a4a3b0937e656);
    SeedStep(137, 0xe59a4a3b0937e656, 0xa14ccccea590a87a); SeedStep(138, 0xa14ccccea590a87a, 0x8a7fd0c38bd925a2);
    SeedStep(139, 0x8a7fd0c38bd925a2, 0xc505ae6eb4f5fdab); SeedStep(140, 0xc505ae6eb4f5fdab, 0x1edaa63e5adbef14);
    SeedStep(141, 0x1edaa63e5adbef14, 0x48086b892ae7f311); SeedStep(142, 0x48086b892ae7f311, 0x2ce7c25ed4aaaa5e);
    SeedStep(143, 0x2ce7c25ed4aaaa5e, 0x6a9e329b1d3a9515); SeedStep(144, 0x6a9e329b1d3a9515, 0xbe9684a2e7e52114);
    SeedStep(145, 0xbe9684a2e7e52114, 0xeab0e8ba387ebb6f); SeedStep(146, 0xeab0e8ba387ebb6f, 0xe7cbae25f31d868e);
    SeedStep(147, 0xe7cbae25f31d868e, 0x5581bf318e019a5c); SeedStep(148, 0x5581bf318e019a5c, 0xb07e184435fd45ed);
    SeedStep(149, 0xb07e184435fd45ed, 0x20bacef5cb51dc98); SeedStep(150, 0x20bacef5cb51dc98, 0xaaaa9becde4b2f4e);
    SeedStep(151, 0xaaaa9becde4b2f4e, 0x898b5f1376ea04f3); SeedStep(152, 0x898b5f1376ea04f3, 0xcb65a0736bdb6df5);
    SeedStep(153, 0xcb65a0736bdb6df5, 0x47e02e65d94d5ed7); SeedStep(154, 0x47e02e65d94d5ed7, 0x99eac4824f33d638);
    SeedStep(155, 0x99eac4824f33d638, 0xa1c29d298b256ecd); SeedStep(156, 0xa1c29d298b256ecd, 0x245b1c66fa082bff);
  }

  lemma SeedStart()
    ensures SeedAt(0, 0x1571)
  {
  }

  /** What genrand64_int64 returns first when nothing was seeded. */
  lemma FirstNumber()
    ensures Temper(Word(SeedBlock(5489), 312)) == 14514284786278117030
  {
    hide Word, Temper, Seeded, Renew, Mix, NextSeed;
    var s := SeedBlock(5489);
    SeedStart();
    SeedStep(1, 0x1571, 0xb5347f47116bd3de) by { assert NextSeed(0x1571, 1) == 0xb5347f47116bd3de by { SecondSeed(); } }
    SeedsTo156();
    WordStep(s, 0);
    FirstWords(s);
    FirstTwist();
    FirstTemper();
  }

  lemma SecondSeed()
    ensures NextSeed(0x1571, 1) == 0xb5347f47116bd3de
  {
  }

  lemma FirstWords(s: seq<bv64>)
    requires |s| == 312
    ensures Word(s, 0) == s[0] && Word(s, 1) == s[1] && Word(s, 156) == s[156]
  {
  }

  lemma FirstTwist()
    ensures Renew(0x245b1c66fa082bff, Mix(0x1571, 0xb5347f47116bd3de)) == 0x245b1c66f2bdc210
  {
    assert Mix(0x1571, 0xb5347f47116bd3de) == 0x116bd3de;
  }

  lemma FirstTemper()
    ensures Temper(0x245b1c66f2bdc210) == 14514284786278117030
  {
    assert Xor(0x245b1c66f2bdc210, Shift1(0x245b1c66f2bdc210)) == 0x245b1c67f2ed8305;
    assert Xor(0x245b1c67f2ed8305, Shift2(0x245b1c67f2ed8305)) == 0x149d79bcf6ef8305;
    assert Xor(0x149d79bcf6ef8305, Shift3(0x149d79bcf6ef8305)) == 0xc96d191cf6ef8305;
    assert Xor(0xc96d191cf6ef8305, Shift4(0xc96d191cf6ef8305)) == 0xc96d191cf6f6aea6;
    assert 0xc96d191cf6f6aea6 == 14514284786278117030;
  }
}
