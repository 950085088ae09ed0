/** Limbs to digits for bases that are no powers of two: chunks of digits that fit a limb. */
module RadixGet {
  import opened Arith
  import opened Limbs
  import opened MpnShift
  import opened Reciprocal
  import opened Udiv
  import opened MpnDivQr
  import opened MpzDivFast
  import opened Modular
  import opened PowMod
  import opened Radix

  /** struct mpn_base_info: bb is the largest power of b in a limb. */
  datatype BaseInfo = BaseInfo(exp: nat, bb: Limb)

  /** mpn_get_base_info */
  method GetBaseInfo(b: nat) returns (info: BaseInfo)
    requires 2 <= b <= 256
    ensures info.exp >= 1 && info.bb == Pow(b, info.exp) && B <= Pow(b, info.exp + 1)
  {
    hide Pow;
    var m, exp, p := (B - 1) / b, 1, b;
    PowFirst(b);
    while p <= m
      invariant exp >= 1 && 2 <= p < B && p == Pow(b, exp)
      decreases B - p
    {
      NextPower(b, exp, p, m);
      p, exp := p * b, exp + 1;
    }
    LastPower(b, exp, p, m);
    info := BaseInfo(exp, p);
  }

  lemma PowFirst(b: int)
    ensures Pow(b, 1) == b
  {
    assert Pow(b, 0) == 1;
  }

  lemma NextPower(b: int, exp: nat, p: int, m: int)
    requires 2 <= b && p >= 1 && p == Pow(b, exp) && m == (B - 1) / b && p <= m
    ensures p * b == Pow(b, exp + 1) && p < p * b < B
  {
    MulMono(p, m, b);
    MulMono(2, b, p);
  }

  lemma LastPower(b: int, exp: nat, p: int, m: int)
    requires 2 <= b && p == Pow(b, exp) && m == (B - 1) / b && p > m
    ensures B <= Pow(b, exp + 1)
  {
    MulMono(m + 1, p, b);
    Dist(m, 1, b);
  }

  /** mpn_limb_get_str: digits of a limb, least significant first. */
  method LimbGetStr(w0: Limb, inv: DivInverse, ghost b: nat) returns (s: seq<Digit>)
    requires 2 <= b <= 256 && InverseOf1(inv, b)
    ensures LVal(s, b) == w0 && Below(s, b) && (s != [] ==> s[|s| - 1] != 0) && |s| <= w0
  {
    hide Pow, Pow2, LVal, Shl, Shr, InverseOf1;
    s := [];
    var w: Limb := w0;
    LValNil(b);
    PowStart(b);
    while w > 0
      invariant LVal(s, b) + w * Pow(b, |s|) == w0 && Below(s, b) && |s| + w <= w0
      invariant w == 0 ==> s == [] || s[|s| - 1] != 0
    {
      InverseShift(inv, b);
      var h, l := Shr(w, 64 - inv.shift), Shl(w, inv.shift);
      ShiftParts(w, inv.shift);
      SmallTopLimb(inv, b, h);
      ghost var w1 := w;
      var r;
      w, r := UdivPreinv(h, l, inv.d1, inv.di) by { InverseKeeps(inv, b); }
      InverseKeeps(inv, b);
      Unscale(w1, b, Pow2(inv.shift), w, r);
      ShrDef(r, inv.shift);
      r := Shr(r, inv.shift);
      DigitStep(s, w1, w, r, b);
      s := s + [r];
    }
  }

  lemma LValNil(b: nat)
    ensures LVal([], b) == 0
  {
  }

  lemma InverseKeeps(inv: DivInverse, b: nat)
    requires InverseOf1(inv, b)
    ensures inv.d1 == b * Pow2(inv.shift) && B / 2 <= inv.d1 && Inverse2by1(B, inv.d1, inv.di)
  {
  }

  lemma InverseShift(inv: DivInverse, b: nat)
    requires InverseOf1(inv, b) && b <= 256
    ensures 0 < inv.shift < 64
  {
    if inv.shift == 0 { PowZero(); }
  }

  lemma SmallTopLimb(inv: DivInverse, b: nat, h: Limb)
    requires InverseOf1(inv, b) && h < Pow2(inv.shift)
    ensures h < inv.d1
  {
    MulMono(1, b, Pow2(inv.shift));
  }

  lemma DigitStep(s: seq<Digit>, w1: int, w: int, r: int, b: nat)
    requires 2 <= b <= 256 && w1 > 0 && w == w1 / b && r == w1 % b
    ensures 0 <= r < 256 && LVal(s + [r], b) + w * Pow(b, |s| + 1) == LVal(s, b) + w1 * Pow(b, |s|)
    ensures w < w1 && (w == 0 ==> r != 0)
  {
    hide LVal;
    assert w1 == w * b + r;
    LValAppend(s, r, b);
    Assoc(w, b, Pow(b, |s|));
    Dist(w * b, r, Pow(b, |s|));
    if w >= w1 { MulMono(2, b, w); }
  }

  lemma {:induction false} LValConcat(s: seq<Digit>, t: seq<Digit>, b: nat)
    ensures LVal(s + t, b) == LVal(s, b) + LVal(t, b) * Pow(b, |s|)
    decreases |t|
  {
    hide LVal, Pow;
    if t == [] {
      assert s + t == s;
      LValNil(b);
    } else {
      var n := |t| - 1;
      assert s + t == (s + t[..n]) + [t[n]] && t == t[..n] + [t[n]];
      LValConcat(s, t[..n], b);
      LValAppend(s + t[..n], t[n], b);
      LValAppend(t[..n], t[n], b);
      PowAdd(b, n, |s|);
      Assoc(t[n], Pow(b, n), Pow(b, |s|));
      Dist(LVal(t[..n], b), t[n] * Pow(b, n), Pow(b, |s|));
    }
  }

  /** Digits with a nonzero last one are no more than the number needs. */
  lemma ShortDigits(s: seq<Digit>, b: nat, e: nat)
    requires b >= 2 && LVal(s, b) < Pow(b, e) && (s != [] ==> s[|s| - 1] != 0)
    ensures |s| <= e
  {
    if |s| > e {
      var n := |s| - 1;
      assert s == s[..n] + [s[n]];
      LValAppend(s[..n], s[n], b);
      PowNonneg(b, n);
      MulMono(1, s[n], Pow(b, n));
      PowGrows(b, e, n);
    }
  }

  lemma {:induction false} PowGrows(b: nat, m: nat, n: nat)
    requires b >= 1 && m <= n
    ensures Pow(b, m) <= Pow(b, n)
    decreases n
  {
    if m < n {
      PowGrows(b, m, n - 1);
      PowNonneg(b, n - 1);
      MulMono(1, b, Pow(b, n - 1));
    }
  }

  /** A limb as exactly e digits, padded with zeros. */
  method PaddedLimb(w: Limb, inv: DivInverse, e: nat, ghost b: nat) returns (s: seq<Digit>)
    requires 2 <= b <= 256 && InverseOf1(inv, b) && w < Pow(b, e)
    ensures |s| == e && LVal(s, b) == w && Below(s, b)
  {
    hide Pow, LVal, InverseOf1;
    s := LimbGetStr(w, inv, b);
    ShortDigits(s, b, e);
    while |s| < e
      invariant |s| <= e && LVal(s, b) == w && Below(s, b)
      decreases e - |s|
    {
      LValAppend(s, 0, b);
      s := s + [0];
    }
  }

  /** mpn_get_str_other: chunks of exp digits, padded, then one reversal. */
  method GetStrOther(b: nat, info: BaseInfo, up: array<Limb>, un0: nat) returns (sp: seq<Digit>)
    requires 2 <= b <= 256 && info.exp >= 1 && info.bb == Pow(b, info.exp)
    requires 0 < un0 <= up.Length && up[un0 - 1] > 0
    modifies up
    ensures DVal(sp, b) == old(Val(up[..un0])) && Canonical(sp, b)
  {
    hide Pow, LVal, DVal, Val, BPow, InverseOf1, Normal;
    ghost var n := Val(up[..un0]);
    var binv := DivQr1Invert(b);
    BigPower(b, info.exp);
    var bbinv := DivQr1Invert(info.bb);
    var un := un0;
    sp := [];
    LValNil(b); PowStart(b);
    TopSet(up[..un]);
    while un > 1
      invariant 1 <= un <= un0 && Normal(up[..un]) && Below(sp, b)
      invariant n == LVal(sp, b) + Val(up[..un]) * Pow(b, |sp|)
      decreases Val(up[..un])
    {
      ghost var s := up[..un];
      var w := DivQr1Preinv(up, up, un, bbinv, info.bb);
      ChunkSize(up[..un], s, info.bb);
      assert up[..un][..un - 1] == up[..un - 1];
      un := if up[un - 1] == 0 then un - 1 else un;
      var chunk := PaddedLimb(w, binv, info.exp, b);
      ChunkDone(sp, chunk, Val(s), Val(up[..un]), w, info.bb, b, n);
      sp := sp + chunk;
    }
    OneLimb(up[..1], up[0]);
    var last := LimbGetStr(up[0], binv, b);
    LValConcat(sp, last, b);
    LValNil(b);
    sp := sp + last;
    ReverseValue(sp, b);
    sp := ReverseInPlace(sp);
  }

  lemma OneLimb(s: seq<Limb>, x: Limb)
    requires s == [x] && Normal(s)
    ensures Val(s) == x > 0
  {
    ValOne(x);
  }

  lemma BigPower(b: int, e: nat)
    requires b >= 2 && e >= 1
    ensures Pow(b, e) >= 2
  {
    PowNonneg(b, e - 1);
    MulMono(1, Pow(b, e - 1), b);
  }

  /** After a chunk is divided off, at most the top limb is zero, and the number is smaller. */
  lemma ChunkSize(q: seq<Limb>, s: seq<Limb>, d: Limb)
    requires |q| == |s| > 1 && Normal(s) && d >= 2 && Val(q) == Val(s) / d
    ensures q[|q| - 1] == 0 ==> Val(q[..|q| - 1]) == Val(q) && Normal(q[..|q| - 1])
    ensures q[|q| - 1] != 0 ==> Normal(q)
    ensures Val(q) < Val(s)
  {
    hide Val, BPow;
    OneLimbQuotient(q, s, d);
    NormalBound(s);
    HalfQuotient(Val(s), d);
  }

  lemma ChunkDone(sp: seq<Digit>, chunk: seq<Digit>, v: int, q: int, w: int, bb: int, b: nat, n: int)
    requires bb > 0 && q == v / bb && w == v % bb && LVal(chunk, b) == w && bb == Pow(b, |chunk|)
    requires n == LVal(sp, b) + v * Pow(b, |sp|)
    ensures n == LVal(sp + chunk, b) + q * Pow(b, |sp + chunk|)
  {
    hide LVal, Pow;
    assert v == q * bb + w;
    LValConcat(sp, chunk, b);
    PowAdd(b, |chunk|, |sp|);
    Dist(q * bb, w, Pow(b, |sp|));
    Assoc(q, bb, Pow(b, |sp|));
  }

  /** The reversal loop: swap from both ends. */
  method ReverseInPlace(s: seq<Digit>) returns (r: seq<Digit>)
    ensures r == Reverse(s)
  {
    r := s;
    var i, n := 0, |s|;
    while 2 * i + 1 < n
      invariant 0 <= i && 2 * i <= n + 1 && |r| == n
      invariant forall k :: 0 <= k < n && (k < i || n - 1 - i < k) ==> r[k] == s[n - 1 - k]
      invariant forall k :: i <= k < n - i ==> r[k] == s[k]
      decreases n - i
    {
      var t := r[i];
      r := r[i := r[n - i - 1]];
      r := r[n - i - 1 := t];
      i := i + 1;
    }
  }
}
