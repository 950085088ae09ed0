/** The mpn shifts, scans and comparisons of mini-gmp on limb arrays. */
module MpnShift {
  import opened Arith
  import opened BitOps
  import opened Limbs
  import opened MpnArith

  function Shl(x: Limb, c: nat): (r: Limb)
  {
    Wrap(x * Pow2(c))
  }

  function Shr(x: Limb, c: nat): (r: Limb)
    ensures r <= x
  {
    DivLe(x, Pow2(c));
    x / Pow2(c)
  }

  lemma DivLe(x: nat, p: nat)
    requires p >= 1
    ensures 0 <= x / p <= x
  {
    assert x == x / p * p + x % p;
    if x / p < 0 { MulMono(x / p, -1, p); }
    MulMono(1, p, x / p);
  }

  function Or(x: Limb, y: Limb): (r: Limb)
  {
    Pow2At();
    Word(IOR, x, y, 64)
  }

  /** The two shifts cut a limb into the same two pieces. */
  lemma ShiftParts(x: Limb, c: nat)
    requires c <= 64
    ensures var p, t := Pow2(c), Pow2(64 - c);
            && p * t == B && 0 <= Shr(x, 64 - c) < p
            && Shl(x, c) == x % t * p && x * p == Shr(x, 64 - c) * B + Shl(x, c)
  {
    hide Pow2;
    var p, t := Pow2(c), Pow2(64 - c);
    Pow2Add(c, 64 - c);
    Pow2At();
    var q, r := x / t, x % t;
    assert x == q * t + r;
    assert x * p == q * B + r * p by { Dist(q * t, r, p); Assoc(q, t, p); }
    assert 0 <= r * p < B by { MulMono(r, t - 1, p); Dist(t, -1, p); MulMono(0, r, p); }
    DivModUnique(x * p, B, q, r * p);
    if q >= p { MulMono(p, q, t); }
    if q < 0 { MulMono(q, -1, t); }
  }

  lemma OrPieces(x: Limb, y: Limb, c: nat)
    requires c <= 64 && y < Pow2(c)
    ensures Or(Shl(x, c), y) == Shl(x, c) + y
  {
    hide Pow2, Word;
    ShiftParts(x, c);
    Pow2At();
    DivModUnique(Shl(x, c), Pow2(c), x % Pow2(64 - c), 0);
    OrSum(Shl(x, c), y, c, 64);
  }

  /** mpn_lshift, from the top limb down. */
  method Lshift(rp: array<Limb>, ro: nat, up: array<Limb>, uo: nat, n: nat, cnt: nat) returns (ret: Limb)
    requires n >= 1 && 1 <= cnt < 64 && ro + n <= rp.Length && uo + n <= up.Length
    requires rp == up ==> uo <= ro || ro + n <= uo
    modifies rp
    ensures ret < Pow2(cnt)
    ensures ret * BPow(n) + Val(rp[ro..ro + n]) == old(Val(up[uo..uo + n])) * Pow2(cnt)
    ensures SameOutside(rp[..], old(rp[..]), ro, n)
  {
    hide Val, BPow, Pow2, Or, Shl, Shr;
    ghost var su, sr := up[uo..uo + n], [];
    var tnc := 64 - cnt;
    var low := up[uo + n - 1];
    ret := Shr(low, tnc);
    var high := Shl(low, cnt);
    ghost var prev := low;
    ShiftParts(low, cnt);
    LshiftFirst(su, cnt);
    var k := n - 1;
    while k != 0
      invariant 0 <= k < n && |sr| == n - 1 - k && high == Shl(prev, cnt)
      invariant forall j :: 0 <= j < |sr| ==> rp[ro + k + 1 + j] == sr[j]
      invariant (ret * BPow(|sr|) + Val(sr)) * B + high == Val(su[k..]) * Pow2(cnt)
      invariant forall j :: 0 <= j < k ==> up[uo + j] == su[j]
      invariant forall j :: 0 <= j < rp.Length && !(ro <= j < ro + n) ==> rp[j] == old(rp[j])
    {
      low := up[uo + k - 1];
      var w := Or(high, Shr(low, tnc));
      ShiftParts(low, cnt);
      OrPieces(prev, Shr(low, tnc), cnt);
      LshiftStep(ret, sr, su, k, high, w, low, cnt);
      rp[ro + k] := w;
      high, prev, sr, k := Shl(low, cnt), low, [w] + sr, k - 1;
    }
    LshiftLast(ret, sr, high);
    rp[ro] := high;
    assert rp[ro..ro + n] == [high] + sr && su[0..] == su;
  }

  lemma LshiftFirst(su: seq<Limb>, cnt: nat)
    requires |su| >= 1 && cnt <= 64
    ensures var u := su[|su| - 1];
            (Shr(u, 64 - cnt) * BPow(0) + Val([])) * B + Shl(u, cnt) == Val(su[|su| - 1..]) * Pow2(cnt)
  {
    hide Val, BPow, Pow2, Shl, Shr;
    var u := su[|su| - 1];
    assert su[|su| - 1..] == [u];
    ValOne(u);
    ValNil(su);
    ShiftParts(u, cnt);
  }

  lemma LshiftStep(ret: Limb, sr: seq<Limb>, su: seq<Limb>, k: nat, high: Limb, w: Limb, low: Limb, cnt: nat)
    requires 0 < k < |su| && low == su[k - 1] && cnt <= 64
    requires (ret * BPow(|sr|) + Val(sr)) * B + high == Val(su[k..]) * Pow2(cnt)
    requires w == high + Shr(low, 64 - cnt)
    ensures (ret * BPow(|sr| + 1) + Val([w] + sr)) * B + Shl(low, cnt) == Val(su[k - 1..]) * Pow2(cnt)
  {
    hide Val, Pow2, Shl, Shr;
    ValCons(w, sr);
    ValCons(low, su[k..]);
    assert su[k - 1..] == [low] + su[k..];
    ShiftParts(low, cnt);
    Dist(low, B * Val(su[k..]), Pow2(cnt));
    Assoc(B, Val(su[k..]), Pow2(cnt));
    Assoc(ret, B, BPow(|sr|));
    Assoc(B, ret, BPow(|sr|));
  }

  lemma LshiftLast(ret: Limb, sr: seq<Limb>, high: Limb)
    ensures (ret * BPow(|sr|) + Val(sr)) * B + high == ret * BPow(|sr| + 1) + Val([high] + sr)
  {
    hide Val;
    ValCons(high, sr);
    Assoc(ret, B, BPow(|sr|));
    Assoc(B, ret, BPow(|sr|));
  }

  /** mpn_rshift, from the low limb up; returns the bits shifted out, at the top of a limb. */
  method Rshift(rp: array<Limb>, ro: nat, up: array<Limb>, uo: nat, n: nat, cnt: nat) returns (ret: Limb)
    requires n >= 1 && 1 <= cnt < 64 && ro + n <= rp.Length && uo + n <= up.Length
    requires Upward(rp, ro, up, uo, n)
    modifies rp
    ensures Val(rp[ro..ro + n]) == old(Val(up[uo..uo + n])) / Pow2(cnt)
    ensures ret == old(Val(up[uo..uo + n])) % Pow2(cnt) * Pow2(64 - cnt)
    ensures SameOutside(rp[..], old(rp[..]), ro, n)
  {
    hide Val, BPow, Pow2, Or, Shl, Shr;
    ghost var su, sr := up[uo..uo + n], [];
    var tnc := 64 - cnt;
    var high := up[uo];
    ret := Shl(high, tnc);
    var low: Limb := Shr(high, cnt);
    ghost var w := high % Pow2(cnt);
    ShiftParts(high, tnc);
    RshiftFirst(su, cnt);
    for k := 0 to n - 1
      invariant |sr| == k && (forall j :: 0 <= j < k ==> rp[ro + j] == sr[j])
      invariant Val(su[..k + 1]) == (Val(sr) + low * BPow(k)) * Pow2(cnt) + w
      invariant low < Pow2(tnc)
      invariant forall j :: k < j < n ==> up[uo + j] == su[j]
      invariant forall j :: 0 <= j < rp.Length && !(ro <= j < ro + n) ==> rp[j] == old(rp[j])
    {
      high := up[uo + k + 1];
      var x := Or(Shl(high, tnc), low);
      OrPieces(high, low, tnc);
      ShiftParts(high, tnc);
      RshiftStep(su, sr, k, low, high, x, w, cnt);
      rp[ro + k] := x;
      low, sr := Shr(high, cnt), sr + [x];
    }
    ValAppend(sr, low);
    rp[ro + n - 1] := low;
    assert rp[ro..ro + n] == sr + [low] && su[..n] == su;
    DivModUnique(Val(su), Pow2(cnt), Val(sr + [low]), w);
  }

  lemma RshiftFirst(su: seq<Limb>, cnt: nat)
    requires |su| >= 1 && cnt <= 64
    ensures Val(su[..1]) == (Val([]) + Shr(su[0], cnt) * BPow(0)) * Pow2(cnt) + su[0] % Pow2(cnt)
  {
    hide Val, BPow, Pow2;
    assert su[..1] == [su[0]];
    ValOne(su[0]);
    ValNil(su);
  }

  lemma RshiftStep(su: seq<Limb>, sr: seq<Limb>, k: nat, low: Limb, high: Limb, x: Limb, w: int, cnt: nat)
    requires k + 1 < |su| && |sr| == k && high == su[k + 1] && cnt <= 64
    requires Val(su[..k + 1]) == (Val(sr) + low * BPow(k)) * Pow2(cnt) + w
    requires x == Shl(high, 64 - cnt) + low
    ensures Val(su[..k + 2]) == (Val(sr + [x]) + Shr(high, cnt) * BPow(k + 1)) * Pow2(cnt) + w
  {
    hide Val, Pow2, Shl, Shr;
    var p, t, q, s := Pow2(cnt), Pow2(64 - cnt), BPow(k), Shl(high, 64 - cnt);
    var h' := Shr(high, cnt);
    ValTake(su, k + 1);
    ValAppend(sr, x);
    ShiftParts(high, 64 - cnt);
    assert high * B == (s + h' * B) * p by {
      Assoc(high, t, p);
    }
    assert high * (B * q) == (s * q + h' * (B * q)) * p by {
      Assoc(high, B, q);
      Dist(s, h' * B, q); Assoc(h', B, q);
      Assoc(s + h' * B, p, q); Assoc(s + h' * B, q, p);
    }
    Dist(s, low, q);
    Dist(Val(sr) + low * q, s * q + h' * (B * q), p);
  }

  /** gmp_clz: bytes first, then bits. */
  method Clz(x: Limb) returns (count: nat)
    requires x > 0
    ensures count < 64 && B / 2 <= x * Pow2(count) < B
  {
    hide Pow2;
    var y: Limb := x;
    count := 0;
    Pow2At();
    ClzStart(x);
    while Shr(y, 56) == 0
      invariant y > 0 && y == x * Pow2(count)
      decreases B - y
    {
      ClzByte(x, y, count);
      y, count := Shl(y, 8), count + 8;
    }
    while y < B / 2
      invariant y > 0 && y == x * Pow2(count)
      decreases B - y
    {
      ClzBit(x, y, count);
      y, count := Shl(y, 1), count + 1;
    }
    if count >= 64 {
      Pow2Mono(64, count);
      MulMono(1, x, Pow2(count));
    }
  }

  lemma ClzStart(x: Limb)
    ensures x == x * Pow2(0)
  {
  }

  lemma ClzByte(x: Limb, y: Limb, c: nat)
    requires y == x * Pow2(c) && Shr(y, 56) == 0
    ensures Shl(y, 8) == 0x100 * y == x * Pow2(c + 8)
  {
    hide Pow2;
    Pow2Add(c, 8); Pow2At();
    ShiftParts(y, 8);
    Assoc(x, Pow2(c), 0x100);
  }

  lemma ClzBit(x: Limb, y: Limb, c: nat)
    requires y == x * Pow2(c) && y < B / 2
    ensures Shl(y, 1) == 2 * y == x * Pow2(c + 1)
  {
    Assoc(x, Pow2(c), 2);
    assert Pow2(1) == 2 * Pow2(0);
  }

  /** The number of factors two in x. */
  function Twos(x: nat): (c: nat)
    requires x > 0
  {
    if x % 2 == 1 then 0 else 1 + Twos(x / 2)
  }

  lemma {:induction false} TwosDivide(x: nat)
    requires x > 0
    ensures x % Pow2(Twos(x)) == 0 && x / Pow2(Twos(x)) % 2 == 1
  {
    if x % 2 == 0 {
      TwosDivide(x / 2);
      TwicePower(x, x / 2, Pow2(Twos(x / 2)));
    }
  }

  lemma TwicePower(x: int, h: int, p: int)
    requires x == 2 * h && p >= 1 && h % p == 0
    ensures x % (2 * p) == 0 && x / (2 * p) == h / p
  {
    var q := h / p;
    assert h == q * p;
    Assoc(2, q, p); Assoc(q, 2, p);
    DivModUnique(x, 2 * p, q, 0);
  }

  /** x & -x is the lowest set bit of x. */
  lemma {:induction false} LowBit(x: nat, y: nat, w: nat)
    requires 0 < x < Pow2(w) && y == Pow2(w) - x
    ensures Word(AND, x, y, w) == Pow2(Twos(x))
    decreases w
  {
    assert w > 0;
    hide Word, Twos, Pow2;
    Pow2Next(w - 1);
    AndHalves(x, y, w);
    TwosStep(x);
    HalfDifference(x, Pow2(w - 1));
    if x % 2 == 1 {
      AndComplement(x / 2, y / 2, w - 1);
      PowZero();
    } else {
      LowBit(x / 2, y / 2, w - 1);
      Pow2Next(Twos(x / 2));
    }
  }

  lemma HalfDifference(x: int, p: int)
    ensures (2 * p - x) / 2 == (if x % 2 == 1 then p - 1 - x / 2 else p - x / 2) && (2 * p - x) % 2 == x % 2
  {
  }

  lemma AndHalves(x: nat, y: nat, w: nat)
    requires w > 0
    ensures Word(AND, x, y, w) == (if x % 2 == 1 && y % 2 == 1 then 1 else 0) + 2 * Word(AND, x / 2, y / 2, w - 1)
  {
  }

  lemma TwosStep(x: nat)
    requires x > 0
    ensures Twos(x) == if x % 2 == 1 then 0 else 1 + Twos(x / 2)
  {
  }

  lemma {:induction false} AndComplement(x: nat, y: nat, w: nat)
    requires x < Pow2(w) && y == Pow2(w) - 1 - x
    ensures Word(AND, x, y, w) == 0
    decreases w
  {
    if w > 0 { AndComplement(x / 2, y / 2, w - 1); }
  }

  /** gmp_ctz */
  method Ctz(x: Limb) returns (count: nat)
    requires x > 0
    ensures count == Twos(x) && count < 64
  {
    hide Pow2, Word, Twos;
    Pow2At();
    LowBit(x, Pow2(64) - x, 64);
    var low: Limb := Word(AND, x, Wrap(-(x as int)), 64);
    var c := Clz(low);
    count := 63 - c;
    Pow2Add(Twos(x), c);
    Pow2Unique(Twos(x) + c, 63);
  }

  lemma Pow2Unique(m: nat, n: nat)
    requires Pow2(n) <= Pow2(m) < 2 * Pow2(n)
    ensures m == n
  {
    if m < n { Pow2Strict(m, n); }
    if m > n { Pow2Strict(n, m); }
  }

  /** mpn_cmp */
  method Cmp(ap: array<Limb>, bp: array<Limb>, n: nat) returns (c: int)
    requires n <= ap.Length && n <= bp.Length
    ensures c == Sign(Val(ap[..n]) - Val(bp[..n]))
  {
    hide Val, BPow;
    var i := n;
    while i > 0
      invariant 0 <= i <= n && ap[i..n] == bp[i..n]
    {
      i := i - 1;
      if ap[i] != bp[i] {
        CmpTop(ap[..n], bp[..n], i);
        return if ap[i] > bp[i] then 1 else -1;
      }
    }
    assert ap[..n] == ap[0..n] && bp[..n] == bp[0..n];
    return 0;
  }

  function Sign(x: int): (s: int)
  {
    if x > 0 then 1 else if x < 0 then -1 else 0
  }

  /** The highest limb that differs decides. */
  lemma CmpTop(a: seq<Limb>, b: seq<Limb>, i: nat)
    requires |a| == |b| && i < |a| && a[i + 1..] == b[i + 1..] && a[i] != b[i]
    ensures Sign(Val(a) - Val(b)) == if a[i] > b[i] then 1 else -1
  {
    hide Val, BPow;
    ValSplit(a, i + 1); ValSplit(b, i + 1);
    ValTake(a, i); ValTake(b, i);
    ValBound(a[..i]); ValBound(b[..i]);
    if a[i] > b[i] {
      MulMono(b[i] + 1, a[i], BPow(i)); Dist(b[i], 1, BPow(i));
    } else {
      MulMono(a[i] + 1, b[i], BPow(i)); Dist(a[i], 1, BPow(i));
    }
  }

  /** A limb sequence without a zero on top. */
  ghost predicate Normal(s: seq<Limb>)
  {
    s == [] || s[|s| - 1] != 0
  }

  lemma TopNonzero(s: seq<Limb>)
    requires Normal(s) && s != []
    ensures s[|s| - 1] > 0
  {
  }

  lemma TopSet(s: seq<Limb>)
    requires s != [] && s[|s| - 1] != 0
    ensures Normal(s)
  {
  }

  lemma NormalBound(s: seq<Limb>)
    requires s != [] && s[|s| - 1] != 0
    ensures BPow(|s| - 1) <= Val(s)
  {
    MulMono(1, s[|s| - 1], BPow(|s| - 1));
  }

  /** mpn_normalized_size */
  method NormalizedSize(xp: array<Limb>, n: nat) returns (m: nat)
    requires n <= xp.Length
    ensures m <= n && Normal(xp[..m]) && Val(xp[..m]) == Val(xp[..n])
  {
    hide Val, BPow;
    m := n;
    while m > 0 && xp[m - 1] == 0
      invariant m <= n && Val(xp[..m]) == Val(xp[..n])
    {
      ValTake(xp[..m], m - 1);
      assert xp[..m][..m] == xp[..m] && xp[..m][..m - 1] == xp[..m - 1];
      m := m - 1;
    }
  }

  /** mpn_neg: zeros stay, the first nonzero limb is negated, the rest complemented. */
  method Neg(rp: array<Limb>, up: array<Limb>, n: nat) returns (ret: Limb)
    requires 1 <= n <= rp.Length && n <= up.Length
    modifies rp
    ensures ret == if old(Val(up[..n])) == 0 then 0 else 1
    ensures Val(rp[..n]) == ret * BPow(n) - old(Val(up[..n]))
    ensures SameOutside(rp[..], old(rp[..]), 0, n)
  {
    hide Val, BPow;
    ghost var su, sr := up[..n], [];
    var i := 0;
    ValNil(su);
    while up[i] == 0
      invariant 0 <= i < n && |sr| == i && (forall j :: 0 <= j < i ==> rp[j] == sr[j])
      invariant Val(sr) == Val(su[..i]) == 0
      invariant forall j :: i <= j < n ==> up[j] == su[j]
      invariant forall j :: n <= j < rp.Length ==> rp[j] == old(rp[j])
      decreases n - i
    {
      ValTake(su, i);
      ValAppend(sr, 0);
      rp[i], sr := 0, sr + [0];
      i := i + 1;
      if i == n {
        assert rp[..n] == sr && su[..n] == su;
        return 0;
      }
    }
    NegStart(sr, su, i);
    rp[i], sr := B - up[i], sr + [B - su[i]];
    i := i + 1;
    while i < n
      invariant 0 < i <= n && |sr| == i && (forall j :: 0 <= j < i ==> rp[j] == sr[j])
      invariant Val(sr) == BPow(i) - Val(su[..i]) && Val(su[..i]) > 0
      invariant forall j :: i <= j < n ==> up[j] == su[j]
      invariant forall j :: n <= j < rp.Length ==> rp[j] == old(rp[j])
    {
      ValTake(su, i);
      NegMore(sr, su[i], Val(su[..i]));
      rp[i], sr := B - 1 - up[i], sr + [B - 1 - su[i]];
      i := i + 1;
    }
    assert rp[..n] == sr && su[..n] == su;
    return 1;
  }

  lemma NegStart(sr: seq<Limb>, su: seq<Limb>, i: nat)
    requires |sr| == i < |su| && su[i] != 0 && Val(sr) == Val(su[..i]) == 0
    ensures Val(sr + [B - su[i]]) == BPow(i + 1) - Val(su[..i + 1]) && Val(su[..i + 1]) > 0
  {
    hide Val;
    ValTake(su, i);
    ValAppend(sr, B - su[i]);
    Dist(B, -(su[i] as int), BPow(i));
    MulMono(1, su[i], BPow(i));
  }

  lemma NegMore(sr: seq<Limb>, u: Limb, t: nat)
    requires Val(sr) == BPow(|sr|) - t
    ensures Val(sr + [B - 1 - u]) == BPow(|sr| + 1) - (t + u * BPow(|sr|))
    ensures t > 0 ==> t + u * BPow(|sr|) > 0
  {
    hide Val;
    ValAppend(sr, B - 1 - u);
    Dist(B - 1, -(u as int), BPow(|sr|));
    MulMono(0, u, BPow(|sr|));
  }

  /** mpn_copyi */
  method CopyI(rp: array<Limb>, ro: nat, up: array<Limb>, uo: nat, n: nat)
    requires ro + n <= rp.Length && uo + n <= up.Length && Upward(rp, ro, up, uo, n)
    modifies rp
    ensures rp[ro..ro + n] == old(up[uo..uo + n])
    ensures SameOutside(rp[..], old(rp[..]), ro, n)
  {
    ghost var src := up[uo..uo + n];
    for i := 0 to n
      invariant forall k :: 0 <= k < i ==> rp[ro + k] == src[k]
      invariant forall k :: i <= k < n ==> up[uo + k] == src[k]
      invariant forall k :: 0 <= k < rp.Length && !(ro <= k < ro + n) ==> rp[k] == old(rp[k])
    {
      rp[ro + i] := up[uo + i];
    }
  }

  /** d & (d - 1) is zero exactly for the powers of two. */
  lemma {:induction false} PowerTest(d: nat, w: nat)
    requires 0 < d < Pow2(w)
    ensures Word(AND, d, d - 1, w) == 0 <==> d == Pow2(Twos(d))
    decreases w
  {
    if d % 2 == 1 {
      AndSelf(d / 2, w - 1);
      assert (d - 1) / 2 == d / 2;
    } else {
      assert (d - 1) / 2 == d / 2 - 1;
      PowerTest(d / 2, w - 1);
    }
  }

  lemma {:induction false} AndSelf(x: nat, w: nat)
    requires x < Pow2(w)
    ensures Word(AND, x, x, w) == x
    decreases w
  {
    if w > 0 { AndSelf(x / 2, w - 1); }
  }
}
