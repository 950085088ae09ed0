/**
 Limbs of mini-gmp: 64-bit words as naturals below B, and the natural number
 that a little-endian sequence of limbs denotes.
 */
module Limbs {
  import opened Arith

  /** The half-limb base (GMP_HLIMB_BIT) and the limb base. */
  const H: nat := 0x1_0000_0000
  const B: nat := 0x1_0000_0000_0000_0000

  type Limb = x: int | 0 <= x < B
  type Half = x: int | 0 <= x < H

  /** Unsigned wrap-around of a limb-sized C expression. */
  function Wrap(x: int): (r: Limb)
  {
    x % B
  }

  function BPow(n: nat): (p: nat)
    ensures p >= 1
  {
    if n == 0 then 1 else B * BPow(n - 1)
  }

  lemma BPowSucc(n: nat)
    ensures BPow(n + 1) == B * BPow(n)
  {
  }

  lemma {:induction false} BPowAdd(m: nat, n: nat)
    ensures BPow(m + n) == BPow(m) * BPow(n)
  {
    if m != 0 {
      BPowAdd(m - 1, n);
      assert BPow(m + n) == B * BPow(m - 1 + n);
      Assoc(B, BPow(m - 1), BPow(n));
    }
  }

  ghost function Val(s: seq<Limb>): (v: nat)
  {
    if s == [] then 0 else Val(s[..|s| - 1]) + s[|s| - 1] * BPow(|s| - 1)
  }

  lemma {:induction false} ValBound(s: seq<Limb>)
    ensures Val(s) < BPow(|s|)
  {
    if s != [] {
      var m := |s| - 1;
      ValBound(s[..m]);
      MulMono(s[m], B - 1, BPow(m));
    }
  }

  lemma {:induction false} ValConcat(a: seq<Limb>, b: seq<Limb>)
    ensures Val(a + b) == Val(a) + Val(b) * BPow(|a|)
  {
    if b == [] {
      assert a + b == a;
    } else {
      var m := |b| - 1;
      var c := a + b;
      ValConcat(a, b[..m]);
      assert c[..|c| - 1] == a + b[..m];
      BPowAdd(m, |a|);
      Dist(Val(b[..m]), b[m] * BPow(m), BPow(|a|));
      Assoc(b[m], BPow(m), BPow(|a|));
    }
  }

  lemma ValNil(s: seq<Limb>)
    ensures Val([]) == Val(s[..0]) == 0 && BPow(0) == 1
  {
  }

  lemma ValAppend(s: seq<Limb>, x: Limb)
    ensures Val(s + [x]) == Val(s) + x * BPow(|s|)
  {
    assert (s + [x])[..|s|] == s;
  }

  lemma ValTake(s: seq<Limb>, i: nat)
    requires i < |s|
    ensures Val(s[..i + 1]) == Val(s[..i]) + s[i] * BPow(i)
  {
    assert s[..i + 1] == s[..i] + [s[i]];
    ValAppend(s[..i], s[i]);
  }

  lemma ValCons(x: Limb, s: seq<Limb>)
    ensures Val([x] + s) == x + B * Val(s)
  {
    ValConcat([x], s);
    ValOne(x);
  }

  lemma ValOne(x: Limb)
    ensures Val([x]) == x && BPow(1) == B
  {
    assert [x][..0] == [];
  }

  /** Splitting a limb sequence splits its value. */
  lemma ValSplit(s: seq<Limb>, i: nat)
    requires i <= |s|
    ensures Val(s) == Val(s[..i]) + Val(s[i..]) * BPow(i)
  {
    assert s == s[..i] + s[i..];
    ValConcat(s[..i], s[i..]);
  }
}
