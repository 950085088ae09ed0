/** mpz_and, mpz_ior and mpz_xor: one pass that converts, combines and converts back. */
module MpzLogic {
  import opened Arith
  import opened BitOps
  import opened Limbs
  import opened MpnArith
  import opened MpnShift
  import opened MpzCore
  import opened MpzDivFast
  import opened MpzBits

  /** The integer whose two's complement is s, extended with the sign. */
  ghost function TwosComplement(s: seq<Limb>, neg: bool): int
  {
    Val(s) - if neg then BPow(|s|) else 0
  }

  /** t is the two's complement, so far, of the magnitude s with the given sign; c is the carry. */
  ghost predicate Stream(t: seq<Limb>, s: seq<Limb>, neg: bool, c: Limb)
  {
    && |t| == |s| && c <= 1 && (!neg ==> c == 0)
    && TwosComplement(t, neg) == if neg then 0 - Val(s) - c * BPow(|s|) else Val(s)
  }

  /** One limb of either conversion; the relation between the two limbs is symmetric. */
  lemma StreamStep(t: seq<Limb>, s: seq<Limb>, neg: bool, c: Limb, y: Limb, x: Limb, c': Limb)
    requires Stream(t, s, neg, c) && c' <= 1
    requires if neg then y + x + c' * B == B - 1 + c else y == x && c' == 0
    ensures Stream(t + [y], s + [x], neg, c')
  {
    hide Val, BPow;
    ValAppend(t, y);
    ValAppend(s, x);
    BPowSucc(|s|);
    if neg {
      var p := BPow(|s|);
      StreamSum(y, x, c, c', p);
    }
  }

  lemma StreamSum(y: int, x: int, c: int, c': int, p: int)
    requires y + x + c' * B == B - 1 + c
    ensures y * p + x * p + c' * (B * p) == B * p - p + c * p
  {
    Dist(y, x, p);
    Dist(y + x, c' * B, p); Assoc(c', B, p);
    Dist(B - 1, c, p); Dist(B, -1, p);
  }

  /** The conversion step of the C loops: (x ^ mask) + carry. */
  method Convert(x: Limb, neg: bool, c: Limb) returns (y: Limb, c': Limb)
    requires c <= 1
    ensures c' <= 1 && y + c' * B == (if neg then B - 1 - x else x) + c
  {
    hide Word, Pow2;
    Pow2At();
    XorMask(x, neg, 64);
    y := Wrap(Word(XOR, x, if neg then B - 1 else 0, 64) + c);
    c' := if y < c then 1 else 0;
  }

  /** Convert, with its effect on the streams. */
  method ConvertStream(x: Limb, neg: bool, c: Limb, ghost t: seq<Limb>, ghost s: seq<Limb>) returns (y: Limb, c': Limb)
    requires Stream(t, s, neg, c)
    ensures Stream(t + [y], s + [x], neg, c')
  {
    hide Val, BPow, TwosComplement;
    y, c' := Convert(x, neg, c);
    StreamStep(t, s, neg, c, y, x, c');
  }

  /** Combine a limb of u with a two's complement limb of v, and convert back. */
  method CombineLimb(op: Op, x: Limb, uneg: bool, uc: Limb, vl: Limb, rneg: bool, rc: Limb,
                     ghost tu: seq<Limb>, ghost su: seq<Limb>, ghost tr: seq<Limb>, ghost sr: seq<Limb>)
    returns (ul: Limb, uc': Limb, w: Limb, rl: Limb, rc': Limb)
    requires Stream(tu, su, uneg, uc) && Stream(tr, sr, rneg, rc)
    ensures Stream(tu + [ul], su + [x], uneg, uc') && Stream(tr + [w], sr + [rl], rneg, rc')
    ensures w == Word(op, ul, vl, 64)
  {
    hide Val, BPow, TwosComplement, Word;
    ul, uc' := ConvertStream(x, uneg, uc, tu, su);
    WordLimb(op, ul, vl);
    w := Word(op, ul, vl, 64);
    rl, rc' := Convert(w, rneg, rc);
    StreamStep(tr, sr, rneg, rc, w, rl, rc');
  }

  /** The same beyond the limbs of v, where only its sign vx is left; for xor the signs of v cancel. */
  method TailLimb(op: Op, x: Limb, uneg: bool, uc: Limb, vneg: bool, vx: Limb, rneg: bool, rc: Limb,
                  ghost tu: seq<Limb>, ghost su: seq<Limb>, ghost tr: seq<Limb>, ghost sr: seq<Limb>)
    returns (ul: Limb, uc': Limb, ghost w: Limb, rl: Limb, rc': Limb)
    requires Stream(tu, su, uneg, uc) && Stream(tr, sr, rneg, rc)
    requires vx == (if vneg then B - 1 else 0) && rneg == Apply(op, uneg, vneg)
    ensures Stream(tu + [ul], su + [x], uneg, uc') && Stream(tr + [w], sr + [rl], rneg, rc')
    ensures w == Word(op, ul, vx, 64)
  {
    hide Val, BPow, TwosComplement, Word;
    if op == XOR {
      ul, uc' := ConvertStream(x, uneg, uc, tu, su);
      WordLimb(op, ul, vx);
      w := Word(op, ul, vx, 64);
      assert w == if vneg then B - 1 - ul else ul by {
        Pow2At();
        XorMask(ul, vneg, 64);
      }
      rl, rc' := Convert(ul, uneg, rc);
      StreamStep(tr, sr, rneg, rc, w, rl, rc');
    } else {
      ul, uc', w, rl, rc' := CombineLimb(op, x, uneg, uc, vx, rneg, rc, tu, su, tr, sr);
    }
  }

  /** Once a nonzero limb was seen the carry is gone. */
  lemma StreamEnd(t: seq<Limb>, s: seq<Limb>, neg: bool, c: Limb)
    requires Stream(t, s, neg, c) && Val(s) > 0
    ensures c == 0
  {
    if c == 1 { ValBound(t); }
  }

  lemma StreamStart(neg: bool)
    ensures Stream([], [], neg, if neg then 1 else 0)
  {
  }

  /** What has been converted is the number modulo a power of B. */
  lemma StreamPrefix(t: seq<Limb>, s: seq<Limb>, neg: bool, c: Limb)
    requires |t| <= |s| && Stream(t, s[..|t|], neg, c)
    ensures neg ==> (0 - Val(s)) % BPow(|t|) == Val(t)
    ensures !neg ==> Val(s) % BPow(|t|) == Val(t)
  {
    hide Val, BPow, Stream;
    ValSplit(s, |t|);
    ValBound(t);
    StreamValue(t, s[..|t|], neg, c);
    var lo, hi, p := Val(s[..|t|]), Val(s[|t|..]), BPow(|t|);
    if neg {
      PrefixResidue(lo + hi * p, Val(t), lo, hi, c, p);
    } else {
      DivModUnique(lo + hi * p, p, hi, Val(t));
    }
  }

  lemma StreamValue(t: seq<Limb>, s: seq<Limb>, neg: bool, c: Limb)
    requires Stream(t, s, neg, c)
    ensures if neg then Val(t) - BPow(|t|) == 0 - Val(s) - c * BPow(|t|) else Val(t) == Val(s)
  {
    hide Val, BPow;
  }

  lemma PrefixResidue(v: int, t: int, lo: int, hi: int, c: int, p: int)
    requires v == lo + hi * p && 0 <= t < p && t - p == -lo - c * p
    ensures (0 - v) % p == t
  {
    Dist(1 - c, hi, p);
    Dist(1, -c, p);
    DivModUnique(0 - v, p, -(1 - c + hi), t);
  }

  /** Extending two's complement limbs with the sign. */
  lemma Extend(t: seq<Limb>, neg: bool)
    ensures TwosComplement(t + [if neg then B - 1 else 0], neg) == TwosComplement(t, neg)
  {
    hide Val;
    ValAppend(t, if neg then B - 1 else 0);
  }

  /** Low bits of an integer from its residue. */
  lemma ResidueBit(z: int, t: seq<Limb>, j: nat)
    requires z % BPow(|t|) == Val(t) && j < 64 * |t|
    ensures TBit(z, j) == TBit(Val(t), j)
  {
    hide Val, BPow, TBit;
    var p := BPow(|t|);
    assert z == Val(t) + p * (z / p);
    ValBound(t);
    BPowBits(|t|);
    TBitCut(Val(t), z / p, 64 * |t|, j);
  }

  lemma TwosResidue(t: seq<Limb>, neg: bool)
    ensures TwosComplement(t, neg) % BPow(|t|) == Val(t)
  {
    hide Val, BPow;
    ValBound(t);
    DivModUnique(TwosComplement(t, neg), BPow(|t|), if neg then -1 else 0, Val(t));
  }

  lemma TwosSign(t: seq<Limb>, neg: bool, j: nat)
    requires j >= 64 * |t|
    ensures TBit(TwosComplement(t, neg), j) == neg
  {
    hide Val, BPow, TBit, Pow2;
    ValBound(t);
    BPowBits(|t|);
    Pow2Mono(64 * |t|, j);
    TBitSign(TwosComplement(t, neg), j);
  }

  ghost predicate Limbwise(op: Op, a: seq<Limb>, b: seq<Limb>, r: seq<Limb>)
  {
    |a| == |b| == |r| && forall k :: 0 <= k < |r| ==> r[k] == Word(op, a[k], b[k], 64)
  }

  /** Beyond the limbs that were combined the sign of v decides alone, whatever u is. */
  ghost predicate HighSettled(op: Op, vneg: bool)
  {
    (op == AND && !vneg) || (op == IOR && vneg)
  }

  /** The bits of the result: combined limb by limb, then by the signs. */
  lemma ResultBit(op: Op, u: int, v: int, tu: seq<Limb>, tv: seq<Limb>, tr: seq<Limb>, uneg: bool, vneg: bool, j: nat)
    requires Limbwise(op, tu, tv, tr)
    requires u % BPow(|tu|) == Val(tu) && v == TwosComplement(tv, vneg)
    requires HighSettled(op, vneg) || u == TwosComplement(tu, uneg)
    requires HighSettled(op, vneg) ==> Apply(op, uneg, vneg) == vneg
    ensures TBit(TwosComplement(tr, Apply(op, uneg, vneg)), j) == Apply(op, TBit(u, j), TBit(v, j))
  {
    hide Val, BPow, TBit, TwosComplement, Word;
    var n := |tr|;
    var neg := Apply(op, uneg, vneg);
    if j < 64 * n {
      TwosResidue(tr, neg); ResidueBit(TwosComplement(tr, neg), tr, j);
      TwosResidue(tv, vneg); ResidueBit(v, tv, j);
      ResidueBit(u, tu, j);
      TBitLimb(tr, j); TBitLimb(tv, j); TBitLimb(tu, j);
      WordBit(op, tu[j / 64], tv[j / 64], 64, j % 64);
    } else {
      TwosSign(tr, neg, j);
      TwosSign(tv, vneg, j);
      if !HighSettled(op, vneg) { TwosSign(tu, uneg, j); }
    }
  }

  /** mpz_and, mpz_ior, mpz_xor: they differ in the operator, the length of the result and the limbs beyond v. */
  method MpzLogicOp(op: Op, r: Mpz, u: Mpz, v: Mpz)
    requires u.Valid() && v.Valid() && Own(r, u) && Own(r, v)
    modifies r, r.d
    ensures r.Valid()
    ensures forall j: nat :: TBit(r.Value(), j) == Apply(op, TBit(old(u.Value()), j), TBit(old(v.Value()), j))
    ensures r.d == old(r.d) || fresh(r.d)
  {
    hide Val, BPow, TBit, Normal, Mpz.Value, Mpz.Mag;
    if Abs(u.size) < Abs(v.size) {
      LogicOrdered(op, r, v, u);
    } else {
      LogicOrdered(op, r, u, v);
    }
  }

  method LogicOrdered(op: Op, r: Mpz, u: Mpz, v: Mpz)
    requires u.Valid() && v.Valid() && Own(r, u) && Own(r, v) && Abs(v.size) <= Abs(u.size)
    modifies r, r.d
    ensures r.Valid()
    ensures forall j: nat :: TBit(r.Value(), j) == Apply(op, TBit(old(u.Value()), j), TBit(old(v.Value()), j))
    ensures r.d == old(r.d) || fresh(r.d)
  {
    hide Val, BPow, TBit, Normal, TwosComplement, Stream, Mpz.Value, Mpz.Mag;
    var un, vn, uneg, vneg := Abs(u.size), Abs(v.size), u.size < 0, v.size < 0;
    ghost var x, y := u.Value(), v.Value();
    Spelled(u); Spelled(v);
    if vn == 0 {
      ZeroBits();
      if op == AND { SetZero(r); } else { Set(r, u); }
      return;
    }
    var rneg := Apply(op, uneg, vneg);
    var rn := if op == AND then (if vneg then un else vn) else if op == IOR then (if vneg then vn else un) else un;
    ghost var su, sv := u.d[..un], v.d[..vn];
    r.Realloc(rn + if rneg then 1 else 0);
    assert u.d[..un] == su && v.d[..vn] == sv;
    ghost var tu, tv, tr, uc;
    var rc;
    rc, tu, tv, tr, uc := LogicLoop(op, r.d, u.d, un, uneg, v.d, vn, vneg, rn, rneg);
    LogicFinish(r, rn, rneg, rc, tr);
    LogicBits(op, x, y, su, tu, tv, tr, uneg, vneg, uc);
  }

  lemma Spelled(u: Mpz)
    requires u.Valid()
    ensures var m := Val(u.d[..Abs(u.size)]);
            && u.Value() == (if u.size < 0 then 0 - m else m) && (m > 0 <==> u.size != 0)
  {
    NormalZero(u.d[..Abs(u.size)]);
  }

  lemma ZeroBits()
    ensures forall j: nat :: !TBit(0, j)
  {
    forall j: nat ensures !TBit(0, j) { TBitSign(0, j); }
  }

  /** Every bit of the result. */
  lemma LogicBits(op: Op, u: int, v: int, su: seq<Limb>, tu: seq<Limb>, tv: seq<Limb>, tr: seq<Limb>,
                  uneg: bool, vneg: bool, uc: Limb)
    requires Limbwise(op, tu, tv, tr) && |tu| <= |su| && Stream(tu, su[..|tu|], uneg, uc)
    requires u == (if uneg then 0 - Val(su) else Val(su)) && (uneg ==> u < 0) && v == TwosComplement(tv, vneg)
    requires HighSettled(op, vneg) || |tu| == |su|
    ensures forall j: nat ::
      TBit(TwosComplement(tr, Apply(op, uneg, vneg)), j) == Apply(op, TBit(u, j), TBit(v, j))
  {
    hide Val, BPow, TBit, Limbwise;
    StreamPrefix(tu, su, uneg, uc);
    if |tu| == |su| {
      assert su[..|tu|] == su;
      if uneg { StreamEnd(tu, su, uneg, uc); }
    }
    forall j: nat
      ensures TBit(TwosComplement(tr, Apply(op, uneg, vneg)), j) == Apply(op, TBit(u, j), TBit(v, j))
    {
      ResultBit(op, u, v, tu, tv, tr, uneg, vneg, j);
    }
  }

  /** Limbs of u and r converted so far, and of v whose value is y: tr combines tu and tv. */
  ghost predicate Tailing(op: Op, tu: seq<Limb>, su: seq<Limb>, uneg: bool, uc: Limb, tv: seq<Limb>, vneg: bool, y: int,
                          tr: seq<Limb>, sr: seq<Limb>, rneg: bool, rc: Limb)
  {
    && |tu| == |su| == |sr| && Limbwise(op, tu, tv, tr) && TwosComplement(tv, vneg) == y
    && Stream(tu, su, uneg, uc) && Stream(tr, sr, rneg, rc)
  }

  /** The two loops over the limbs; r's limbs may be those of u or v. */
  method LogicLoop(op: Op, rp: array<Limb>, up: array<Limb>, un: nat, uneg: bool,
                   vp: array<Limb>, vn: nat, vneg: bool, rn: nat, rneg: bool)
    returns (rc: Limb, ghost tu: seq<Limb>, ghost tv: seq<Limb>, ghost tr: seq<Limb>, ghost cu: Limb)
    requires 0 < vn <= rn <= un <= up.Length && vn <= vp.Length && rn <= rp.Length
    requires Val(vp[..vn]) > 0 && rneg == Apply(op, uneg, vneg)
    modifies rp
    ensures Tailing(op, tu, old(up[..un])[..rn], uneg, cu,
                    tv, vneg, old(if vneg then 0 - Val(vp[..vn]) else Val(vp[..vn])), tr, rp[..rn], rneg, rc)
    ensures SameOutside(rp[..], old(rp[..]), 0, rn)
  {
    hide Val, BPow, TwosComplement, Stream, Word, Limbwise, Tailing;
    ghost var su, sv := up[..un], vp[..vn];
    ghost var y := if vneg then 0 - Val(sv) else Val(sv);
    var uc, vc;
    uc, vc, rc, tu, tv, tr := LogicLow(op, rp, up, un, uneg, vp, vn, vneg, rneg, rn);
    LowDone(op, tu, su[..vn], uneg, uc, tv, sv, vneg, vc, tr, rp[..vn], rneg, rc);
    assert vc == 0;
    ghost var sr := rp[..vn];
    var i := vn;
    while i < rn
      invariant vn <= i <= rn && |sr| == i && Tailing(op, tu, su[..i], uneg, uc, tv, vneg, y, tr, sr, rneg, rc)
      invariant forall k :: 0 <= k < i ==> rp[k] == sr[k]
      invariant forall k :: i <= k < un ==> up[k] == su[k]
      invariant forall k :: rn <= k < rp.Length ==> rp[k] == old(rp[k])
    {
      var rl;
      uc, rl, rc, tu, tv, tr := TailStep(op, up[i], uneg, uc, vneg, y, rneg, rc, tu, su[..i], tv, tr, sr);
      assert su[..i + 1] == su[..i] + [su[i]];
      rp[i], sr := rl, sr + [rl];
      i := i + 1;
    }
    assert rp[..rn] == sr;
    cu := uc;
  }

  method TailStep(op: Op, x: Limb, uneg: bool, uc: Limb, vneg: bool, ghost y: int, rneg: bool, rc: Limb,
                  ghost tu: seq<Limb>, ghost su: seq<Limb>, ghost tv: seq<Limb>,
                  ghost tr: seq<Limb>, ghost sr: seq<Limb>)
    returns (uc': Limb, rl: Limb, rc': Limb, ghost tu': seq<Limb>, ghost tv': seq<Limb>, ghost tr': seq<Limb>)
    requires Tailing(op, tu, su, uneg, uc, tv, vneg, y, tr, sr, rneg, rc) && rneg == Apply(op, uneg, vneg)
    ensures Tailing(op, tu', su + [x], uneg, uc', tv', vneg, y, tr', sr + [rl], rneg, rc')
  {
    hide TwosComplement, Stream, Word, Limbwise;
    var vx: Limb := if vneg then B - 1 else 0;
    var ul;
    ghost var w;
    ul, uc', w, rl, rc' := TailLimb(op, x, uneg, uc, vneg, vx, rneg, rc, tu, su, tr, sr);
    Extend(tv, vneg);
    LimbwiseStep(op, tu, tv, tr, ul, vx, w);
    tu', tv', tr' := tu + [ul], tv + [vx], tr + [w];
  }

  /** All limbs of v are converted: no carry is left, and tv is v. */
  lemma LowDone(op: Op, tu: seq<Limb>, su: seq<Limb>, uneg: bool, uc: Limb, tv: seq<Limb>, sv: seq<Limb>, vneg: bool,
                vc: Limb, tr: seq<Limb>, sr: seq<Limb>, rneg: bool, rc: Limb)
    requires Combining(op, tu, su, uneg, uc, tv, sv, vneg, vc, tr, sr, rneg, rc) && Val(sv) > 0
    ensures vc == 0
    ensures Tailing(op, tu, su, uneg, uc, tv, vneg, if vneg then 0 - Val(sv) else Val(sv), tr, sr, rneg, rc)
  {
    hide Val, TwosComplement, Stream, Limbwise;
    StreamEnd(tv, sv, vneg, vc);
    StreamDone(tv, sv, vneg);
  }

  lemma LimbwiseStep(op: Op, a: seq<Limb>, b: seq<Limb>, r: seq<Limb>, x: Limb, y: Limb, w: Limb)
    requires Limbwise(op, a, b, r) && w == Word(op, x, y, 64)
    ensures Limbwise(op, a + [x], b + [y], r + [w])
  {
  }

  lemma LimbwiseNone(op: Op)
    ensures Limbwise(op, [], [], [])
  {
  }

  /** Limbs of both numbers converted so far, combined, and converted back. */
  ghost predicate Combining(op: Op, tu: seq<Limb>, su: seq<Limb>, uneg: bool, uc: Limb,
                            tv: seq<Limb>, sv: seq<Limb>, vneg: bool, vc: Limb,
                            tr: seq<Limb>, sr: seq<Limb>, rneg: bool, rc: Limb)
  {
    && |tu| == |su| == |sr| && Limbwise(op, tu, tv, tr)
    && Stream(tu, su, uneg, uc) && Stream(tv, sv, vneg, vc) && Stream(tr, sr, rneg, rc)
  }

  /** The loop over the limbs that both numbers have. */
  method LogicLow(op: Op, rp: array<Limb>, up: array<Limb>, un: nat, uneg: bool,
                  vp: array<Limb>, vn: nat, vneg: bool, rneg: bool, ghost rn: nat)
    returns (uc: Limb, vc: Limb, rc: Limb, ghost tu: seq<Limb>, ghost tv: seq<Limb>, ghost tr: seq<Limb>)
    requires 0 < vn <= rn <= un <= up.Length && vn <= vp.Length && rn <= rp.Length
    modifies rp
    ensures Combining(op, tu, old(up[..un])[..vn], uneg, uc, tv, old(vp[..vn]), vneg, vc, tr, rp[..vn], rneg, rc)
    ensures SameOutside(rp[..], old(rp[..]), 0, vn)
    ensures forall k :: vn <= k < un ==> up[k] == old(up[k])
  {
    hide Combining;
    ghost var su, sv, sr := up[..un], vp[..vn], [];
    tu, tv, tr := [], [], [];
    uc, vc, rc := if uneg then 1 else 0, if vneg then 1 else 0, if rneg then 1 else 0;
    NothingCombined(op, uneg, vneg, rneg);
    assert su[..0] == [] && sv[..0] == [];
    for i := 0 to vn
      invariant |sr| == i && Combining(op, tu, su[..i], uneg, uc, tv, sv[..i], vneg, vc, tr, sr, rneg, rc)
      invariant forall k :: 0 <= k < i ==> rp[k] == sr[k]
      invariant forall k :: i <= k < un ==> up[k] == su[k]
      invariant forall k :: i <= k < vn ==> vp[k] == sv[k]
      invariant forall k :: vn <= k < rp.Length ==> rp[k] == old(rp[k])
    {
      var rl;
      uc, vc, rl, rc, tu, tv, tr :=
        LowStep(op, up[i], uneg, uc, vp[i], vneg, vc, rneg, rc, tu, su[..i], tv, sv[..i], tr, sr);
      assert su[..i + 1] == su[..i] + [su[i]] && sv[..i + 1] == sv[..i] + [sv[i]];
      rp[i], sr := rl, sr + [rl];
    }
    assert sv[..vn] == sv && rp[..vn] == sr;
  }

  lemma NothingCombined(op: Op, uneg: bool, vneg: bool, rneg: bool)
    ensures Combining(op, [], [], uneg, if uneg then 1 else 0, [], [], vneg, if vneg then 1 else 0,
                      [], [], rneg, if rneg then 1 else 0)
  {
    hide Stream, Limbwise;
    StreamStart(uneg); StreamStart(vneg); StreamStart(rneg);
    LimbwiseNone(op);
  }

  method LowStep(op: Op, x: Limb, uneg: bool, uc: Limb, y: Limb, vneg: bool, vc: Limb, rneg: bool, rc: Limb,
                 ghost tu: seq<Limb>, ghost su: seq<Limb>, ghost tv: seq<Limb>, ghost sv: seq<Limb>,
                 ghost tr: seq<Limb>, ghost sr: seq<Limb>)
    returns (uc': Limb, vc': Limb, rl: Limb, rc': Limb,
             ghost tu': seq<Limb>, ghost tv': seq<Limb>, ghost tr': seq<Limb>)
    requires Combining(op, tu, su, uneg, uc, tv, sv, vneg, vc, tr, sr, rneg, rc)
    ensures Combining(op, tu', su + [x], uneg, uc', tv', sv + [y], vneg, vc', tr', sr + [rl], rneg, rc')
  {
    hide Stream, Word, Limbwise;
    var vl, ul, w;
    vl, vc' := ConvertStream(y, vneg, vc, tv, sv);
    ul, uc', w, rl, rc' := CombineLimb(op, x, uneg, uc, vl, rneg, rc, tu, su, tr, sr);
    LimbwiseStep(op, tu, tv, tr, ul, vl, w);
    tu', tv', tr' := tu + [ul], tv + [vl], tr + [w];
  }

  lemma WordLimb(op: Op, x: Limb, y: Limb)
    ensures 0 <= Word(op, x, y, 64) < B
  {
    Pow2At();
  }

  lemma StreamDone(t: seq<Limb>, s: seq<Limb>, neg: bool)
    requires Stream(t, s, neg, 0)
    ensures TwosComplement(t, neg) == if neg then 0 - Val(s) else Val(s)
  {
  }

  /** Storing the last carry or normalising: r is the number whose two's complement is tr. */
  method LogicFinish(r: Mpz, n: nat, neg: bool, rc: Limb, ghost tr: seq<Limb>)
    requires n <= r.d.Length && (neg ==> n + 1 <= r.d.Length) && Stream(tr, r.d[..n], neg, rc)
    modifies r, r.d
    ensures r.Valid() && r.Value() == TwosComplement(tr, neg) && r.d == old(r.d)
  {
    hide Val, BPow;
    var rn := n;
    ghost var s := r.d[..n];
    if rc != 0 {
      r.d[n] := rc;
      rn := n + 1;
      assert r.d[..rn] == s + [1];
      ValAppend(s, 1);
    } else {
      rn := NormalizedSize(r.d, n);
    }
    r.size := if neg then -(rn as int) else rn;
    NormalZero(r.d[..rn]);
  }
}
