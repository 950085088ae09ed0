/** mpn_set_str for other bases: multiply by a limb-sized power and add a chunk of digits. */
module RadixChunks {
  import opened Arith
  import opened Limbs
  import opened MpnArith
  import opened MpnShift
  import opened MpzCore
  import opened Modular
  import opened PowMod
  import opened Radix
  import opened RadixGet

  lemma {:induction false} DValConcat(s: seq<Digit>, t: seq<Digit>, b: nat)
    ensures DVal(s + t, b) == DVal(s, b) * Pow(b, |t|) + DVal(t, b)
    decreases |t|
  {
    hide DVal, Pow;
    if t == [] {
      assert s + t == s;
      DValEmpty(b); PowStart(b);
    } else {
      var n := |t| - 1;
      assert s + t == (s + t[..n]) + [t[n]] && t == t[..n] + [t[n]];
      DValConcat(s, t[..n], b);
      DValAppend(s + t[..n], t[n], b);
      DValAppend(t[..n], t[n], b);
      PowAdd(b, n, 1); PowFirst(b);
      Dist(DVal(s, b) * Pow(b, n), DVal(t[..n], b), b);
      Assoc(DVal(s, b), Pow(b, n), b);
    }
  }

  lemma DValEmpty(b: nat)
    ensures DVal([], b) == 0
  {
  }

  lemma {:induction false} DValBound(s: seq<Digit>, b: nat)
    requires Below(s, b)
    ensures DVal(s, b) < Pow(b, |s|)
    decreases |s|
  {
    if s != [] {
      var n := |s| - 1;
      DValBound(s[..n], b);
      MulMono(DVal(s[..n], b), Pow(b, n) - 1, b);
      Dist(Pow(b, n), -1, b);
    }
  }

  /** k digits from j on, accumulated in one limb without wrap-around. */
  method ReadChunk(sp: seq<Digit>, j: nat, k: nat, b: nat) returns (w: Limb)
    requires k >= 1 && j + k <= |sp| && Below(sp, b) && 2 <= b <= 256 && Pow(b, k) < B
    ensures w == DVal(sp[j..j + k], b) < Pow(b, k)
  {
    hide DVal, Pow;
    w := sp[j];
    var i := 1;
    FirstDigit(sp, j, b);
    while i < k
      invariant 1 <= i <= k && w == DVal(sp[j..j + i], b)
    {
      ChunkStep(sp, j, i, k, b);
      w := Wrap(w * b + sp[j + i]);
      i := i + 1;
    }
    DValBound(sp[j..j + k], b);
  }

  lemma FirstDigit(sp: seq<Digit>, j: nat, b: nat)
    requires j < |sp|
    ensures DVal(sp[j..j + 1], b) == sp[j]
  {
    assert sp[j..j + 1] == [sp[j]] && [sp[j]][..0] == [];
  }

  lemma ChunkStep(sp: seq<Digit>, j: nat, i: nat, k: nat, b: nat)
    requires i < k && j + k <= |sp| && Below(sp, b) && b >= 2 && Pow(b, k) < B
    ensures DVal(sp[j..j + i + 1], b) == DVal(sp[j..j + i], b) * b + sp[j + i]
    ensures 0 <= DVal(sp[j..j + i + 1], b) < B
  {
    hide DVal, Pow;
    assert sp[j..j + i + 1] == sp[j..j + i] + [sp[j + i]];
    DValAppend(sp[j..j + i], sp[j + i], b);
    DValBound(sp[j..j + i + 1], b);
    PowGrows(b, i + 1, k);
  }

  /** rp[..rn] * bb + w, in place; one limb longer when there is a carry. */
  method MulAdd(rp: array<Limb>, rn0: nat, bb: Limb, w: Limb) returns (rn: nat)
    requires 1 <= rn0 < rp.Length && w < bb
    requires rn0 == 1 || rp[rn0 - 1] != 0
    modifies rp
    ensures rn0 <= rn <= rn0 + 1 && Val(rp[..rn]) == old(Val(rp[..rn0])) * bb + w
    ensures rn == 1 || rp[rn - 1] != 0
  {
    hide Val, BPow;
    rn := rn0;
    ghost var s := rp[..rn];
    assert rp[0..0 + rn] == s;
    var cy := Mul1(rp, 0, rp, 0, rn, bb);
    ghost var c0 := cy;
    assert rp[0..0 + rn] == rp[..rn];
    var c := Add1(rp, 0, rp, 0, rn, w);
    assert rp[0..0 + rn] == rp[..rn];
    CarryFits(s, rp[..rn], c0, c, bb, w);
    cy := cy + c;
    if cy > 0 {
      rp[rn] := cy;
      rn := rn + 1;
      ValAppend(rp[..rn - 1], cy);
      assert rp[..rn] == rp[..rn - 1] + [cy];
    }
  }

  lemma CarryFits(s: seq<Limb>, t: seq<Limb>, c0: int, c: int, bb: Limb, w: Limb)
    requires |s| == |t| >= 1 && w < bb && 0 <= c0 && 0 <= c && (|s| == 1 || s[|s| - 1] != 0)
    requires Val(t) + c * BPow(|s|) + c0 * BPow(|s|) == Val(s) * bb + w
    ensures c0 + c < B && Val(t) + (c0 + c) * BPow(|s|) == Val(s) * bb + w
    ensures c0 + c == 0 ==> |s| == 1 || t[|t| - 1] != 0
  {
    hide Val, BPow;
    var p, v := BPow(|s|), Val(s);
    ValBound(s);
    Dist(c0, c, p);
    MulMono(v, p - 1, bb); Dist(p, -1, bb);
    if c0 + c >= bb { MulMono(bb, c0 + c, p); }
    if c0 + c == 0 && |s| > 1 {
      NormalBound(s);
      MulMono(1, bb, v);
      NormalByBound(t);
    }
  }

  /** mpn_set_str_other */
  method SetStrOther(rp: array<Limb>, sp: seq<Digit>, b: nat, info: BaseInfo) returns (rn: nat)
    requires 2 <= b <= 256 && info.exp >= 1 && info.bb == Pow(b, info.exp)
    requires sp != [] && Below(sp, b) && (|sp| + info.exp - 1) / info.exp <= rp.Length
    modifies rp
    ensures 1 <= rn <= rp.Length && Val(rp[..rn]) == DVal(sp, b)
    ensures rn == 1 || rp[rn - 1] != 0
    ensures rn <= (|sp| + info.exp - 1) / info.exp
  {
    hide Val, DVal, Pow, Below;
    var e := info.exp;
    var j := 1 + (|sp| - 1) % e;
    ghost var chunks, done := 1 + (|sp| - 1) / e, 1;
    ChunkCount(|sp|, e);
    PowGrows(b, j, e);
    var w := ReadChunk(sp, 0, j, b);
    rp[0] := w;
    assert rp[..1] == [w];
    ValOne(w);
    rn := 1;
    while j < |sp|
      invariant 0 <= j <= |sp| && |sp| - j == (chunks - done) * e && rn <= done <= chunks
      invariant 1 <= rn && Val(rp[..rn]) == DVal(sp[..j], b) && (rn == 1 || rp[rn - 1] != 0)
      decreases |sp| - j
    {
      MoreChunks(chunks - done, e);
      w := ReadChunk(sp, j, e, b);
      assert sp[..j + e] == sp[..j] + sp[j..j + e];
      DValConcat(sp[..j], sp[j..j + e], b);
      rn := MulAdd(rp, rn, info.bb, w);
      j, done := j + e, done + 1;
    }
    assert sp[..|sp|] == sp;
  }

  lemma ChunkCount(n: int, e: int)
    requires n >= 1 && e >= 1
    ensures (n + e - 1) / e == 1 + (n - 1) / e
    ensures 1 + (n - 1) % e <= e && 1 + (n - 1) % e <= n && (n - 1) / e >= 0
    ensures n - (1 + (n - 1) % e) == (n - 1) / e * e
  {
    var q := (n - 1) / e;
    assert n - 1 == q * e + (n - 1) % e;
    if q < 0 { MulMono(q, -1, e); } else { MulMono(0, q, e); }
    Dist(q, 1, e);
    DivModUnique(n + e - 1, e, q + 1, (n - 1) % e);
  }

  lemma MoreChunks(c: int, e: int)
    requires c * e > 0 && e >= 1
    ensures c >= 1 && c * e >= e && c * e - e == (c - 1) * e
  {
    if c <= 0 { MulMono(c, 0, e); } else { MulMono(1, c, e); }
    Dist(c, -1, e);
  }
}
