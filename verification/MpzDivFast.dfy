/** The fast divisions, by a power of two and by one limb, agree with mpz_div_qr in every mode. */
module MpzDivFast {
  import opened Arith
  import opened BitOps
  import opened Limbs
  import opened MpnArith
  import opened MpnShift
  import opened MpnDivQr
  import opened MpzCore
  import opened MpzDiv

  /** The modes that round a nonzero number of this sign away from zero. */
  predicate Away(mode: Mode, neg: bool)
  {
    mode == if neg then Floor else Ceil
  }

  /** Division by a positive number, from the magnitude. */
  lemma RoundMag(mode: Mode, neg: bool, m: nat, p: nat)
    requires p > 0 && m > 0
    ensures var u, t, l := if neg then 0 - m else m, m / p, m % p;
            var a := if Away(mode, neg) && l != 0 then 1 else 0;
            && Quo(mode, u, p) == (if neg then 0 - (t + a) else t + a)
            && Rem(mode, u, p) == (if a == 1 then (if neg then p - l else l - p) else if neg then 0 - l else l)
  {
    hide Quo, Rem;
    var u := if neg then 0 - m else m;
    SignedTrunc(neg, false, m, p);
    TruncToMode(mode, u, p, neg);
  }

  lemma {:induction false} BPowBits(n: nat)
    ensures BPow(n) == Pow2(64 * n)
  {
    if n > 0 {
      BPowBits(n - 1);
      Pow2Add(64, 64 * (n - 1));
      Pow2At();
    }
  }

  lemma BitSplit(k: nat, b: nat)
    ensures Pow2(64 * k + b) == BPow(k) * Pow2(b)
  {
    BPowBits(k);
    Pow2Add(64 * k, b);
  }

  /** Dividing by B^k 2^b: drop k limbs and shift; what is lost is zero iff both parts are. */
  lemma ShiftedOut(s: seq<Limb>, k: nat, b: nat)
    requires k < |s| && b < 64
    ensures var p := Pow2(64 * k + b);
            && Val(s) / p == Val(s[k..]) / Pow2(b)
            && (Val(s) % p == 0 <==> Val(s[..k]) == 0 && s[k] % Pow2(b) == 0)
  {
    hide Val, BPow, Pow2;
    var w, t := BPow(k), Pow2(b);
    var lo, hi := Val(s[..k]), Val(s[k..]);
    BitSplit(k, b);
    ValSplit(s, k);
    ValBound(s[..k]);
    var q, r := hi / t, hi % t;
    assert hi == q * t + r;
    Dist(q * t, r, w); Assoc(q, t, w);
    MulMono(r, t - 1, w); Dist(t, -1, w); MulMono(0, r, w);
    DivModUnique(Val(s), w * t, q, r * w + lo);
    LowLimbMod(s[k..], b);
    if r > 0 { MulMono(1, r, w); }
  }

  lemma LowLimbMod(s: seq<Limb>, b: nat)
    requires s != [] && b < 64
    ensures Val(s) % Pow2(b) == s[0] % Pow2(b)
  {
    hide Val, Pow2;
    assert s == [s[0]] + s[1..];
    ValCons(s[0], s[1..]);
    Pow2Add(64 - b, b);
    Pow2At();
    HighMultiple(s[0], Val(s[1..]), Pow2(64 - b), Pow2(b));
  }

  lemma Fewer(s: seq<Limb>, k: nat, b: nat)
    requires |s| <= k
    ensures Val(s) / Pow2(64 * k + b) == 0 && Val(s) % Pow2(64 * k + b) == Val(s)
  {
    hide Val, BPow, Pow2;
    BitSplit(k, b);
    ValBound(s);
    BPowMono(|s|, k);
    MulMono(1, Pow2(b), BPow(k));
    DivModUnique(Val(s), Pow2(64 * k + b), 0, Val(s));
  }

  /** mpz_div_q_2exp */
  method DivQ2exp(q: Mpz, u: Mpz, bits: nat, mode: Mode)
    requires u.Valid() && Own(q, u)
    modifies q, q.d
    ensures q.Valid() && q.Value() == Quo(mode, old(u.Value()), Pow2(bits))
    ensures q.d == old(q.d) || fresh(q.d)
  {
    hide Val, BPow, Pow2, Quo, Rem, Normal, Mpz.Value, Mpz.Mag;
    var un := u.size;
    ghost var p := Pow2(bits);
    ghost var m := NonzeroMag(u);
    if un == 0 {
      ZeroNumerator(mode, p);
      SetZero(q);
      return;
    }
    SignedValue(u);
    RoundMag(mode, un < 0, m, p);
    var adjust := Lossy(u, bits, Away(mode, un < 0));
    ShiftMag(q, u, bits);
    if adjust { AddUi(q, q, 1); }
    if un < 0 { MpzNeg(q, q); }
  }

  lemma SignedValue(u: Mpz)
    requires u.Valid()
    ensures u.Value() == (if u.size < 0 then 0 - u.Mag() else u.Mag())
  {
  }

  /** Whether the quotient must be corrected: asked, and a bit is lost. */
  method Lossy(u: Mpz, bits: nat, away: bool) returns (adjust: bool)
    requires u.Valid() && u.size != 0
    ensures adjust <==> away && u.Mag() % Pow2(bits) != 0
  {
    hide Val, BPow, Pow2, Word;
    var n, k, b := Abs(u.size), bits / 64, bits % 64;
    ghost var s := u.d[..n];
    ghost var z := NonzeroMag(u);
    if !away { return false; }
    if n <= k {
      Fewer(s, k, b);
      return true;
    }
    ShiftedOut(s, k, b);
    assert s[..k] == u.d[..k];
    var low := NormalizedSize(u.d, k);
    NormalZero(u.d[..low]);
    Pow2At();
    Pow2Mono(b, 64);
    AndMask(u.d[k], b, 64);
    return low != 0 || Word(AND, u.d[k], Pow2(b) - 1, 64) != 0;
  }

  /** The truncated quotient of the magnitude. */
  method ShiftMag(q: Mpz, u: Mpz, bits: nat)
    requires u.Valid() && Own(q, u) && u.size != 0
    modifies q, q.d
    ensures q.Valid() && q.Value() == old(u.Mag()) / Pow2(bits)
    ensures q.d == old(q.d) || fresh(q.d)
  {
    hide Val, BPow, Pow2;
    var n, k, b := Abs(u.size), bits / 64, bits % 64;
    ghost var s := u.d[..n];
    if n <= k {
      Fewer(s, k, b);
      SetZero(q);
      return;
    }
    ShiftedOut(s, k, b);
    SuffixNormal(s, k);
    q.Realloc(n - k);
    assert u.d[..n] == s;
    assert u.d[k..k + (n - k)] == s[k..];
    var qn := ShiftLimbs(q.d, u.d, k, n - k, b);
    q.size := qn;
  }

  method ShiftLimbs(rp: array<Limb>, up: array<Limb>, k: nat, n: nat, b: nat) returns (rn: nat)
    requires 1 <= n <= rp.Length && k + n <= up.Length && b < 64 && Normal(up[k..k + n])
    modifies rp
    ensures rn <= n && Normal(rp[..rn]) && Val(rp[..rn]) == old(Val(up[k..k + n])) / Pow2(b)
  {
    hide Val, BPow, Pow2;
    ghost var s := up[k..k + n];
    rn := n;
    if b != 0 {
      var out := Rshift(rp, 0, up, k, n, b);
      assert rp[..n] == rp[0..0 + n];
      ShiftSize(rp[..n], s, b);
      assert rp[..n][..n - 1] == rp[..n - 1];
      rn := if rp[n - 1] == 0 then n - 1 else n;
    } else {
      CopyI(rp, 0, up, k, n);
      assert rp[..n] == rp[0..0 + n] == s;
      PowZero();
    }
  }

  lemma SuffixNormal(s: seq<Limb>, k: nat)
    requires Normal(s) && k < |s|
    ensures Normal(s[k..])
  {
  }

  /** A right shift by less than a limb empties at most the top limb. */
  lemma ShiftSize(r: seq<Limb>, s: seq<Limb>, b: nat)
    requires |r| == |s| > 0 && Normal(s) && 0 < b < 64 && Val(r) == Val(s) / Pow2(b)
    ensures r[|r| - 1] == 0 ==> Val(r[..|r| - 1]) == Val(r) && Normal(r[..|r| - 1])
  {
    hide Val, BPow, Pow2;
    var k := |r| - 1;
    ValTake(r, k);
    assert r[..k + 1] == r;
    if k > 0 && r[k] == 0 {
      NormalBound(s);
      Pow2At();
      Pow2Mono(b, 64);
      BPowSucc(k - 1);
      QuotientLower(Val(s), Pow2(b), BPow(k - 1), B);
      NormalByBound(r[..k]);
    }
  }

  /** mpz_div_r_2exp */
  method DivR2exp(r: Mpz, u: Mpz, bits: nat, mode: Mode)
    requires u.Valid() && Own(r, u)
    modifies r, r.d
    ensures r.Valid() && r.Value() == Rem(mode, old(u.Value()), Pow2(bits))
    ensures r.d == old(r.d) || fresh(r.d)
  {
    hide Val, BPow, Pow2, Quo, Rem, Normal, Mpz.Value, Mpz.Mag;
    var us := u.size;
    ghost var p := Pow2(bits);
    ghost var m := NonzeroMag(u);
    if us == 0 || bits == 0 {
      if us == 0 { ZeroNumerator(mode, p); } else { UnitRemainder(mode, u.Value()); }
      SetZero(r);
      return;
    }
    SignedValue(u);
    RoundMag(mode, us < 0, m, p);
    var away := Away(mode, us < 0);
    ghost var s := u.d[..Abs(us)];
    StillMag(u, m);
    r.Realloc((bits + 63) / 64);
    assert u.d[..Abs(us)] == s;
    var rn := RemainderLimbs(r.d, u.d, Abs(us), bits, away);
    r.size := if (us < 0) != away then -(rn as int) else rn;
    SizedValue(r, rn);
    NormalZero(r.d[..rn]);
  }

  lemma UnitRemainder(mode: Mode, n: int)
    ensures Rem(mode, n, Pow2(0)) == 0
  {
    RoundedUnique(mode, n, 1, n, 0);
  }

  lemma StillMag(u: Mpz, m: nat)
    requires u.Valid() && m == u.Mag() && u.size != 0
    ensures Normal(u.d[..Abs(u.size)]) && Val(u.d[..Abs(u.size)]) == m
  {
  }

  lemma SizedValue(r: Mpz, n: nat)
    requires Abs(r.size) == n <= r.d.Length && Normal(r.d[..n])
    ensures r.Valid() && r.Value() == if r.size < 0 then 0 - Val(r.d[..n]) else Val(r.d[..n])
  {
  }

  /** |remainder| of the limbs of u modulo 2^bits, or 2^bits minus it when rounding away. */
  method RemainderLimbs(rp: array<Limb>, up: array<Limb>, un: nat, bits: nat, away: bool) returns (rn: nat)
    requires 0 < bits && 0 < un <= up.Length && (bits + 63) / 64 <= rp.Length && Normal(up[..un])
    modifies rp
    ensures rn <= rp.Length && Normal(rp[..rn])
    ensures var l := old(Val(up[..un])) % Pow2(bits);
            Val(rp[..rn]) == if away && l != 0 then Pow2(bits) - l else l
  {
    hide Val, BPow, Pow2, Normal;
    rn := (bits + 63) / 64;
    var top := bits - 64 * (rn - 1);
    if rn > un {
      rn := ShortRemainder(rp, up, un, rn, top, away);
    } else {
      LongRemainder(rp, up, un, rn, top, away);
    }
    rn := NormalizedSize(rp, rn);
  }

  /** Fewer limbs than bits: the number itself, or its complement. */
  method ShortRemainder(rp: array<Limb>, up: array<Limb>, un: nat, n: nat, top: nat, away: bool) returns (rn: nat)
    requires 0 < un < n <= rp.Length && un <= up.Length && 0 < top <= 64 && Normal(up[..un])
    modifies rp
    ensures rn <= n
    ensures var l, p := old(Val(up[..un])) % Pow2(64 * (n - 1) + top), Pow2(64 * (n - 1) + top);
            Val(rp[..rn]) == if away && l != 0 then p - l else l
  {
    hide Val, BPow, Pow2;
    ghost var s := up[..un];
    NormalZero(s);
    Fewer(s, n - 1, top);
    if away {
      NegateExtend(rp, up, un, n, top);
      return n;
    }
    if rp != up {
      CopyI(rp, 0, up, 0, un);
      assert rp[..un] == rp[0..0 + un] == up[0..0 + un] == s;
    }
    return un;
  }

  /** Enough limbs: mask the top limb, and negate modulo 2^bits when rounding away. */
  method LongRemainder(rp: array<Limb>, up: array<Limb>, un: nat, n: nat, top: nat, away: bool)
    requires 0 < n <= un <= up.Length && n <= rp.Length && 0 < top <= 64
    modifies rp
    ensures var l, p := old(Val(up[..un])) % Pow2(64 * (n - 1) + top), Pow2(64 * (n - 1) + top);
            Val(rp[..n]) == if away && l != 0 then p - l else l
  {
    hide Val, BPow, Pow2;
    ghost var s, l := up[..un], Val(up[..un]) % Pow2(64 * (n - 1) + top);
    MaskPrefix(s, n, top);
    if rp != up {
      CopyI(rp, 0, up, 0, n - 1);
      assert rp[..n - 1] == rp[0..0 + (n - 1)] == up[0..0 + (n - 1)];
    }
    assert rp[..n - 1] == s[..n - 1] && up[n - 1] == s[n - 1];
    MaskTop(rp, up[n - 1], n, top);
    if away {
      var ret := MpnShift.Neg(rp, rp, n);
      Complement(n, top, l, ret);
      assert rp[..n] == rp[..n - 1] + [rp[n - 1]];
      MaskTop(rp, rp[n - 1], n, top);
    }
  }

  /** Storing a masked top limb x reduces the number modulo 2^(64 (n - 1) + top). */
  method MaskTop(rp: array<Limb>, x: Limb, n: nat, top: nat)
    requires 0 < n <= rp.Length && 0 < top <= 64
    modifies rp
    ensures Val(rp[..n]) == Val(old(rp[..n - 1]) + [x]) % Pow2(64 * (n - 1) + top)
    ensures SameOutside(rp[..], old(rp[..]), n - 1, 1)
  {
    hide Val, BPow, Pow2, Word;
    Pow2At();
    Pow2Mono(top, 64);
    ghost var lo := rp[..n - 1];
    AndMask(x, top, 64);
    rp[n - 1] := Word(AND, x, Pow2(top) - 1, 64);
    assert rp[..n] == lo + [x % Pow2(top)];
    MaskValue(lo, x, top);
  }

  lemma MaskValue(lo: seq<Limb>, x: Limb, top: nat)
    requires top <= 64
    ensures 0 <= x % Pow2(top) < B
    ensures Val(lo + [x % Pow2(top)]) == Val(lo + [x]) % Pow2(64 * |lo| + top)
  {
    hide Val, BPow, Pow2;
    Pow2At();
    Pow2Mono(top, 64);
    var w, t := BPow(|lo|), Pow2(top);
    var q, m := x / t, x % t;
    assert x == q * t + m;
    ValAppend(lo, x); ValAppend(lo, m);
    ValBound(lo);
    BitSplit(|lo|, top);
    Dist(q * t, m, w); Assoc(q, t, w);
    MulMono(m, t - 1, w); Dist(t, -1, w); MulMono(0, m, w);
    DivModUnique(Val(lo + [x]), w * t, q, Val(lo + [m]));
  }

  lemma MaskPrefix(s: seq<Limb>, n: nat, top: nat)
    requires 0 < n <= |s| && top <= 64
    ensures Val(s[..n - 1] + [s[n - 1]]) % Pow2(64 * (n - 1) + top) == Val(s) % Pow2(64 * (n - 1) + top)
  {
    hide Val, BPow, Pow2;
    var p := Pow2(64 * (n - 1) + top);
    assert s[..n - 1] + [s[n - 1]] == s[..n];
    ValSplit(s, n);
    BPowBits(n);
    Pow2Add(64 * (n - 1) + top, 64 - top);
    ModMultiple(Val(s[..n]), Val(s[n..]), p, Pow2(64 - top), BPow(n));
  }

  lemma ModMultiple(x: int, y: int, p: int, k: int, w: int)
    requires p > 0 && w == p * k
    ensures (x + y * w) % p == x % p
  {
    assert x == x / p * p + x % p;
    Assoc(y, k, p);
    Dist(x / p, y * k, p);
    DivModUnique(x + y * w, p, x / p + y * k, x % p);
  }

  /** Negation modulo 2^bits of a number already reduced. */
  lemma Complement(n: nat, top: nat, l: int, ret: int)
    requires n > 0 && top <= 64 && 0 <= l < Pow2(64 * (n - 1) + top) && ret == (if l == 0 then 0 else 1)
    ensures var p := Pow2(64 * (n - 1) + top);
            (ret * BPow(n) - l) % p == if l == 0 then 0 else p - l
  {
    hide BPow, Pow2;
    var p, k := Pow2(64 * (n - 1) + top), Pow2(64 - top);
    BPowBits(n);
    Pow2Add(64 * (n - 1) + top, 64 - top);
    if l != 0 {
      Dist(k - 1, 1, p);
      DivModUnique(BPow(n) - l, p, k - 1, p - l);
    } else {
      DivModUnique(0, p, 0, 0);
    }
  }

  /** Negate and sign-extend: 2^bits - |u| for a u shorter than bits. */
  method NegateExtend(rp: array<Limb>, up: array<Limb>, un: nat, rn: nat, top: nat)
    requires 0 < un < rn <= rp.Length && un <= up.Length && 0 < top <= 64 && Val(up[..un]) != 0
    modifies rp
    ensures Val(rp[..rn]) == Pow2(64 * (rn - 1) + top) - old(Val(up[..un]))
  {
    hide Val, BPow, Pow2;
    ghost var m := Val(up[..un]);
    var ret := MpnShift.Neg(rp, up, un);
    assert ret == 1;
    for i := un to rn - 1
      invariant Val(rp[..i]) == BPow(i) - m
    {
      ghost var lo := rp[..i];
      rp[i] := B - 1;
      assert rp[..i + 1] == lo + [B - 1];
      ValAppend(lo, B - 1);
      BPowSucc(i);
    }
    ghost var lo := rp[..rn - 1];
    Pow2At();
    Pow2Mono(top, 64);
    rp[rn - 1] := Pow2(top) - 1;
    assert rp[..rn] == lo + [Pow2(top) - 1];
    ValAppend(lo, Pow2(top) - 1);
    BitSplit(rn - 1, top);
    Dist(Pow2(top), -1, BPow(rn - 1));
  }

  /** mpz_div_qr_ui: one-limb divisor; returns |remainder|. */
  method DivQrUi(q: Mpz?, r: Mpz?, n: Mpz, d: Limb, mode: Mode) returns (rl: Limb)
    requires n.Valid() && (d > 0 || n.size == 0)
    requires q != null ==> Own(q, n) && q != r && (r != null ==> q.d != r.d)
    requires r != null ==> Own(r, n)
    modifies Rep(q), Rep(r)
    ensures q != null ==> q.Valid() && q.Value() == if d == 0 then 0 else Quo(mode, old(n.Value()), d)
    ensures r != null ==> r.Valid() && r.Value() == if d == 0 then 0 else Rem(mode, old(n.Value()), d)
    ensures rl == if d == 0 then 0 else Abs(Rem(mode, old(n.Value()), d))
    ensures q != null ==> q.d == old(q.d) || fresh(q.d)
    ensures r != null ==> (r.d == old(r.d) || fresh(r.d)) && (q != null ==> q.d != r.d)
  {
    hide Val, BPow, Quo, Rem, Normal, Mpz.Value, Mpz.Mag;
    var ns := n.size;
    ghost var m := NonzeroMag(n);
    if ns == 0 {
      if d > 0 { ZeroNumerator(mode, d); }
      if q != null { SetZero(q); }
      if r != null { SetZero(r); }
      return 0;
    }
    var n0, neg := Abs(ns), ns < 0;
    SignedValue(n);
    StillMag(n, m);
    RoundMag(mode, neg, m, d);
    var away := Away(mode, neg);
    ghost var s := n.d[..n0];
    var qp: array?<Limb> := null;
    if q != null {
      q.Realloc(n0);
      qp := q.d;
      assert n.d[..n0] == s;
    }
    var l, qn := DivLimb(qp, n.d, n0, d, away);
    rl := if away && l > 0 then d - l else l;
    if r != null { SetSigned(r, rl, neg != (away && l > 0)); }
    if q != null {
      q.size := if neg then -(qn as int) else qn;
      SizedValue(q, qn);
      NormalZero(q.d[..qn]);
    }
  }

  /** The limbs of the quotient, rounded away from zero when asked; l is the remainder of truncation. */
  method DivLimb(qp: array?<Limb>, np: array<Limb>, n: nat, d: Limb, away: bool) returns (l: Limb, qn: nat)
    requires 0 < n <= np.Length && Normal(np[..n]) && d > 0 && (qp != null ==> n <= qp.Length)
    modifies qp
    ensures l == old(Val(np[..n])) % d
    ensures qp != null ==> qn <= qp.Length && Normal(qp[..qn])
    ensures qp != null ==> Val(qp[..qn]) == old(Val(np[..n])) / d + if away && l > 0 then 1 else 0
  {
    hide Val, BPow, Normal;
    ghost var s := np[..n];
    ValBound(s);
    l := DivQr1(qp, np, n, d);
    qn := n;
    if qp != null {
      if away && l > 0 { IncrementLimbs(qp, n, Val(s), d); }
      OneLimbQuotient(qp[..n], s, d);
      assert qp[..n][..n - 1] == qp[..n - 1];
      qn := if qp[n - 1] == 0 then n - 1 else n;
    }
  }

  /** Rounding the quotient up cannot carry out: a remainder means d > 1. */
  method IncrementLimbs(qp: array<Limb>, n: nat, ghost m: nat, ghost d: nat)
    requires 0 < n <= qp.Length && 1 < d && m < BPow(n) && Val(qp[..n]) == m / d
    modifies qp
    ensures Val(qp[..n]) == m / d + 1
  {
    hide Val, BPow;
    assert qp[..n] == qp[0..0 + n];
    var cy := Add1(qp, 0, qp, 0, n, 1);
    assert qp[..n] == qp[0..0 + n];
    assert m / d + 1 < BPow(n) || m / d + 1 == BPow(n) == 1 by { HalfQuotient(m, d); }
    assert BPow(n) > 1 by { BPowMono(1, n); ValOne(0); }
    NothingOut(cy, BPow(n), Val(qp[..n]));
    assert cy == 0;
  }

  lemma HalfQuotient(m: nat, d: nat)
    requires 1 < d
    ensures 2 * (m / d) <= m
  {
    var q := m / d;
    assert m == q * d + m % d;
    if q < 0 { MulMono(q, -1, d); }
    MulMono(2, d, q);
  }

  method SetSigned(r: Mpz, x: Limb, neg: bool)
    modifies r, r.d
    ensures r.Valid() && r.Value() == if neg then -(x as int) else x
    ensures r.d == old(r.d) || fresh(r.d)
  {
    hide Val, Normal, Mpz.Value, Mpz.Mag;
    SetUi(r, x);
    if neg { MpzNeg(r, r); }
  }

  lemma OneLimbQuotient(q: seq<Limb>, s: seq<Limb>, d: Limb)
    requires |q| == |s| > 0 && Normal(s) && d > 0 && Val(q) >= Val(s) / d
    ensures q[|q| - 1] == 0 ==> Val(q[..|q| - 1]) == Val(q) && Normal(q[..|q| - 1])
    ensures q[|q| - 1] != 0 ==> Normal(q)
  {
    hide Val, BPow;
    var k := |q| - 1;
    ValTake(q, k);
    assert q[..k + 1] == q;
    if k > 0 && q[k] == 0 {
      NormalBound(s);
      BPowSucc(k - 1);
      QuotientLower(Val(s), d, BPow(k - 1), B);
      NormalByBound(q[..k]);
    }
  }
}
