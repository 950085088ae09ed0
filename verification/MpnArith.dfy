/**
 The carry-propagating mpn loops of mini-gmp on limb arrays.  A C pointer is an
 array with an offset; the loops may run in place, as mini-gmp's callers do.
 */
module MpnArith {
  import opened Arith
  import opened Limbs

  /** Writing rp[ro + i] at step i leaves the limbs of ap that are still to be read. */
  ghost predicate Upward(rp: array<Limb>, ro: nat, ap: array<Limb>, ao: nat, n: nat)
  {
    rp == ap ==> ro <= ao || ao + n <= ro
  }

  /** Two array states agree outside the n limbs at o. */
  ghost predicate SameOutside(s: seq<Limb>, t: seq<Limb>, o: nat, n: nat)
  {
    |s| == |t| && forall k :: 0 <= k < |s| && !(o <= k < o + n) ==> s[k] == t[k]
  }

  /** One step of any carry loop: a limb equation scaled by the weight of its position. */
  lemma CarryStep(rv: int, cy: int, av: int, p: int, r: int, cy': int, a: int)
    requires rv + cy * p == av
    requires r + cy' * B == a + cy
    ensures rv + r * p + cy' * (B * p) == av + a * p
  {
    Dist(r, cy' * B, p);
    Dist(a, cy, p);
    Assoc(cy', B, p);
  }

  /** gmp_umul_ppmm: the double-limb product from four half-limb products. */
  method UmulPpmm(u: Limb, v: Limb) returns (w1: Limb, w0: Limb)
    ensures w1 * B + w0 == u * v
  {
    hide Wrap;
    var x0, x1, x2, x3 := HalfLimbProducts(u, v);
    ghost var y1 := x1;
    x1 := Wrap(x1 + x0 / H);
    x1 := Wrap(x1 + x2);
    Recombine(x0, y1, x2, x3, x1);
    if x1 < x2 {
      x3 := Wrap(x3 + H);
    }
    w1, w0 := Wrap(x3 + x1 / H), Wrap(Wrap(x1 * H) + x0 % H);
  }

  method HalfLimbProducts(u: Limb, v: Limb) returns (x0: Limb, x1: Limb, x2: Limb, x3: Limb)
    ensures x0 <= (H - 1) * (H - 1) && x1 <= (H - 1) * (H - 1)
    ensures x2 <= (H - 1) * (H - 1) && x3 <= (H - 1) * (H - 1)
    ensures u * v == x3 * B + (x2 + x1) * H + x0
  {
    var ul, uh, vl, vh := u % H, u / H, v % H, v / H;
    HalfProducts(u, v);
    x0, x1, x2, x3 := ul * vl, ul * vh, uh * vl, uh * vh;
  }

  /** The middle column overflows at most once, and nothing is lost. */
  lemma Recombine(x0: int, x1: int, x2: int, x3: int, m: int)
    requires 0 <= x0 <= (H - 1) * (H - 1) && 0 <= x1 <= (H - 1) * (H - 1)
    requires 0 <= x2 <= (H - 1) * (H - 1) && 0 <= x3 <= (H - 1) * (H - 1)
    requires m == Wrap(Wrap(x1 + x0 / H) + x2)
    ensures var w1 := if m < x2 then Wrap(Wrap(x3 + H) + m / H) else Wrap(x3 + m / H);
            w1 * B + Wrap(Wrap(m * H) + x0 % H) == x3 * B + (x2 + x1) * H + x0
  {
    hide Wrap;
    var c := if m < x2 then 1 else 0;
    var q, a, t, b := m / H, m % H, x0 / H, x0 % H;
    assert m == q * H + a && x0 == t * H + b;
    NoWrap(x1 + t);
    WrapCarry(x1 + t, x2, m);
    ColumnRoom(x1, x2, x3, t, m, c, q, a);
    NoWrap(x3 + H);
    NoWrap(x3 + c * H + q);
    ShiftHigh(m);
    NoWrap(a * H + b);
  }

  lemma NoWrap(x: int)
    ensures 0 <= x < B ==> Wrap(x) == x
  {
  }

  lemma WrapCarry(y: int, z: int, m: int)
    requires 0 <= y < B && 0 <= z < B && m == Wrap(y + z)
    ensures m + (if m < z then B else 0) == y + z
  {
  }

  lemma ColumnRoom(x1: int, x2: int, x3: int, t: int, m: int, c: int, q: int, a: int)
    requires x1 <= (H - 1) * (H - 1) && x2 <= (H - 1) * (H - 1) && x3 <= (H - 1) * (H - 1) && t < H
    requires m + c * B == x1 + t + x2 && m == q * H + a && 0 <= a
    ensures x3 + c * H + q < B
  {
  }

  lemma ShiftHigh(m: Limb)
    ensures Wrap(m * H) == m % H * H
  {
    assert m * H == m / H * B + m % H * H;
  }

  lemma HalfProducts(u: Limb, v: Limb)
    ensures var ul, uh, vl, vh := u % H, u / H, v % H, v / H;
            && 0 <= ul * vl <= (H - 1) * (H - 1) && 0 <= ul * vh <= (H - 1) * (H - 1)
            && 0 <= uh * vl <= (H - 1) * (H - 1) && 0 <= uh * vh <= (H - 1) * (H - 1)
            && u * v == uh * vh * B + (uh * vl + ul * vh) * H + ul * vl
  {
    var ul, uh, vl, vh := u % H, u / H, v % H, v / H;
    HalfBound(ul, vl); HalfBound(ul, vh); HalfBound(uh, vl); HalfBound(uh, vh);
    Dist(uh * H, ul, v);
    assert uh * H * v == H * (uh * v) by { Assoc(uh, H, v); Assoc(H, uh, v); }
    Dist(vh * H, vl, uh); Dist(vh * H, vl, ul);
    Assoc(H, vh, uh); Assoc(H, vh, ul);
  }

  lemma HalfBound(x: Half, y: Half)
    ensures 0 <= x * y <= (H - 1) * (H - 1)
  {
    MulMono(x, H - 1, y);
    MulMono(0, x, y);
  }

  /** Appending one result limb to any carry loop: r + cy B == x + c at weight B^i. */
  lemma StepVal(sr: seq<Limb>, r: Limb, c: int, cy: int, t: int, x: int)
    requires Val(sr) + c * BPow(|sr|) == t
    requires r + cy * B == x + c
    ensures Val(sr + [r]) + cy * BPow(|sr| + 1) == t + x * BPow(|sr|)
  {
    ValAppend(sr, r);
    CarryStep(Val(sr), c, t, BPow(|sr|), r, cy, x);
  }

  method AddStep(a: Limb, b: Limb, c: Limb) returns (r: Limb, cy: Limb)
    requires c <= 1
    ensures cy <= 1 && r + cy * B == a + b + c
  {
    r := Wrap(a + c);
    cy := if r < c then 1 else 0;
    r := Wrap(r + b);
    cy := cy + if r < b then 1 else 0;
  }

  /** mpn_add_n */
  method AddN(rp: array<Limb>, ro: nat, ap: array<Limb>, ao: nat, bp: array<Limb>, bo: nat, n: nat)
    returns (cy: Limb)
    requires ro + n <= rp.Length && ao + n <= ap.Length && bo + n <= bp.Length
    requires Upward(rp, ro, ap, ao, n) && Upward(rp, ro, bp, bo, n)
    modifies rp
    ensures cy <= 1
    ensures Val(rp[ro..ro + n]) + cy * BPow(n) == old(Val(ap[ao..ao + n])) + old(Val(bp[bo..bo + n]))
    ensures SameOutside(rp[..], old(rp[..]), ro, n)
  {
    hide Val, BPow;
    ghost var sa, sb, sr := ap[ao..ao + n], bp[bo..bo + n], [];
    cy := 0;
    ValNil(sa);
    ValNil(sb);
    for i := 0 to n
      invariant cy <= 1 && |sr| == i && forall k :: 0 <= k < i ==> rp[ro + k] == sr[k]
      invariant Val(sr) + cy * BPow(i) == Val(sa[..i]) + Val(sb[..i])
      invariant forall k :: i <= k < n ==> ap[ao + k] == sa[k] && bp[bo + k] == sb[k]
      invariant forall k :: 0 <= k < rp.Length && !(ro <= k < ro + n) ==> rp[k] == old(rp[k])
    {
      var r, c := AddStep(ap[ao + i], bp[bo + i], cy);
      AddStepVal(sr, sa, sb, i, r, cy, c);
      rp[ro + i], cy, sr := r, c, sr + [r];
    }
    assert sa[..n] == sa && sb[..n] == sb && rp[ro..ro + n] == sr;
  }

  lemma AddStepVal(sr: seq<Limb>, sa: seq<Limb>, sb: seq<Limb>, i: nat, r: Limb, c: int, cy: int)
    requires |sr| == i < |sa| == |sb|
    requires Val(sr) + c * BPow(i) == Val(sa[..i]) + Val(sb[..i])
    requires r + cy * B == sa[i] + sb[i] + c
    ensures Val(sr + [r]) + cy * BPow(i + 1) == Val(sa[..i + 1]) + Val(sb[..i + 1])
  {
    hide Val, BPow;
    ValTake(sa, i);
    ValTake(sb, i);
    StepVal(sr, r, c, cy, Val(sa[..i]) + Val(sb[..i]), sa[i] as int + sb[i]);
    Dist(sa[i], sb[i], BPow(i));
  }

  /** mpn_add_1 */
  method Add1(rp: array<Limb>, ro: nat, ap: array<Limb>, ao: nat, n: nat, b: Limb) returns (cy: Limb)
    requires n > 0 && ro + n <= rp.Length && ao + n <= ap.Length && Upward(rp, ro, ap, ao, n)
    modifies rp
    ensures cy <= 1
    ensures Val(rp[ro..ro + n]) + cy * BPow(n) == old(Val(ap[ao..ao + n])) + b
    ensures SameOutside(rp[..], old(rp[..]), ro, n)
  {
    hide Val, BPow;
    ghost var sa, sr := ap[ao..ao + n], [];
    cy := b;
    ValNil(sa);
    for i := 0 to n
      invariant (i > 0 ==> cy <= 1) && |sr| == i && forall k :: 0 <= k < i ==> rp[ro + k] == sr[k]
      invariant Val(sr) + cy * BPow(i) == Val(sa[..i]) + b
      invariant forall k :: i <= k < n ==> ap[ao + k] == sa[k]
      invariant forall k :: 0 <= k < rp.Length && !(ro <= k < ro + n) ==> rp[k] == old(rp[k])
    {
      var r := Wrap(ap[ao + i] + cy);
      var c: Limb := if r < cy then 1 else 0;
      StepVal(sr, r, cy, c, Val(sa[..i]) + b, sa[i]);
      ValTake(sa, i);
      rp[ro + i], cy, sr := r, c, sr + [r];
    }
    assert sa[..n] == sa && rp[ro..ro + n] == sr;
  }

  method SubStep(a: Limb, b: Limb, c: Limb) returns (r: Limb, cy: Limb)
    requires c <= 1
    ensures cy <= 1 && r - cy * B == a - b - c
  {
    var b' := Wrap(b + c);
    cy := if b' < c then 1 else 0;
    cy := cy + if a < b' then 1 else 0;
    r := Wrap(a - b');
  }

  /** mpn_sub_n */
  method SubN(rp: array<Limb>, ro: nat, ap: array<Limb>, ao: nat, bp: array<Limb>, bo: nat, n: nat)
    returns (cy: Limb)
    requires ro + n <= rp.Length && ao + n <= ap.Length && bo + n <= bp.Length
    requires Upward(rp, ro, ap, ao, n) && Upward(rp, ro, bp, bo, n)
    modifies rp
    ensures cy <= 1
    ensures Val(rp[ro..ro + n]) - cy * BPow(n) == old(Val(ap[ao..ao + n])) - old(Val(bp[bo..bo + n]))
    ensures SameOutside(rp[..], old(rp[..]), ro, n)
  {
    hide Val, BPow;
    ghost var sa, sb, sr := ap[ao..ao + n], bp[bo..bo + n], [];
    cy := 0;
    ValNil(sa);
    ValNil(sb);
    for i := 0 to n
      invariant cy <= 1 && |sr| == i && forall k :: 0 <= k < i ==> rp[ro + k] == sr[k]
      invariant Val(sr) - cy * BPow(i) == Val(sa[..i]) - Val(sb[..i])
      invariant forall k :: i <= k < n ==> ap[ao + k] == sa[k] && bp[bo + k] == sb[k]
      invariant forall k :: 0 <= k < rp.Length && !(ro <= k < ro + n) ==> rp[k] == old(rp[k])
    {
      var r, c := SubStep(ap[ao + i], bp[bo + i], cy);
      SubStepVal(sr, sa, sb, i, r, cy, c);
      rp[ro + i], cy, sr := r, c, sr + [r];
    }
    assert sa[..n] == sa && sb[..n] == sb && rp[ro..ro + n] == sr;
  }

  lemma SubStepVal(sr: seq<Limb>, sa: seq<Limb>, sb: seq<Limb>, i: nat, r: Limb, c: int, cy: int)
    requires |sr| == i < |sa| == |sb|
    requires Val(sr) - c * BPow(i) == Val(sa[..i]) - Val(sb[..i])
    requires r - cy * B == sa[i] - sb[i] - c
    ensures Val(sr + [r]) - cy * BPow(i + 1) == Val(sa[..i + 1]) - Val(sb[..i + 1])
  {
    hide Val, BPow;
    ValTake(sa, i);
    ValTake(sb, i);
    var x: int := sa[i] as int - sb[i];
    StepVal(sr, r, -c, -cy, Val(sa[..i]) as int - Val(sb[..i]), x);
    Dist(x, sb[i], BPow(i));
  }

  /** mpn_sub_1 */
  method Sub1(rp: array<Limb>, ro: nat, ap: array<Limb>, ao: nat, n: nat, b: Limb) returns (cy: Limb)
    requires n > 0 && ro + n <= rp.Length && ao + n <= ap.Length && Upward(rp, ro, ap, ao, n)
    modifies rp
    ensures cy <= 1
    ensures Val(rp[ro..ro + n]) - cy * BPow(n) == old(Val(ap[ao..ao + n])) - b
    ensures SameOutside(rp[..], old(rp[..]), ro, n)
  {
    hide Val, BPow;
    ghost var sa, sr := ap[ao..ao + n], [];
    cy := b;
    ValNil(sa);
    for i := 0 to n
      invariant (i > 0 ==> cy <= 1) && |sr| == i && forall k :: 0 <= k < i ==> rp[ro + k] == sr[k]
      invariant Val(sr) - cy * BPow(i) == Val(sa[..i]) - b
      invariant forall k :: i <= k < n ==> ap[ao + k] == sa[k]
      invariant forall k :: 0 <= k < rp.Length && !(ro <= k < ro + n) ==> rp[k] == old(rp[k])
    {
      var a := ap[ao + i];
      var c: Limb := if a < cy then 1 else 0;
      var r := Wrap(a - cy);
      StepVal(sr, r, -(cy as int), -(c as int), Val(sa[..i]) as int - b, sa[i]);
      ValTake(sa, i);
      rp[ro + i], cy, sr := r, c, sr + [r];
    }
    assert sa[..n] == sa && rp[ro..ro + n] == sr;
  }

  /** The common head of the multiplication loops: lpl + B cl' == u v + cl. */
  method MulStep(u: Limb, v: Limb, cl: Limb) returns (lpl: Limb, cl': Limb)
    ensures lpl + cl' * B == u * v + cl
  {
    hide *;
    var hpl, low := UmulPpmm(u, v);
    LimbSquare(u, v);
    lpl, cl' := PlusCarry(hpl, low, cl);
  }

  method PlusCarry(hpl: Limb, low: Limb, cl: Limb) returns (lpl: Limb, cl': Limb)
    requires hpl * B + low <= (B - 1) * (B - 1)
    ensures lpl + cl' * B == hpl * B + low + cl
  {
    lpl := Wrap(low + cl);
    cl' := (if lpl < cl then 1 else 0) + hpl;
  }

  lemma LimbSquare(u: Limb, v: Limb)
    ensures 0 <= u * v <= (B - 1) * (B - 1)
  {
    MulMono(u, B - 1, v);
    MulMono(0, u, v);
  }

  /** mpn_mul_1 */
  method Mul1(rp: array<Limb>, ro: nat, up: array<Limb>, uo: nat, n: nat, v: Limb) returns (cl: Limb)
    requires n >= 1 && ro + n <= rp.Length && uo + n <= up.Length && Upward(rp, ro, up, uo, n)
    modifies rp
    ensures Val(rp[ro..ro + n]) + cl * BPow(n) == old(Val(up[uo..uo + n])) * v
    ensures SameOutside(rp[..], old(rp[..]), ro, n)
  {
    hide Val, BPow;
    ghost var su, sr := up[uo..uo + n], [];
    cl := 0;
    ValNil(su);
    for i := 0 to n
      invariant |sr| == i && forall k :: 0 <= k < i ==> rp[ro + k] == sr[k]
      invariant Val(sr) + cl * BPow(i) == Val(su[..i]) * v
      invariant forall k :: i <= k < n ==> up[uo + k] == su[k]
      invariant forall k :: 0 <= k < rp.Length && !(ro <= k < ro + n) ==> rp[k] == old(rp[k])
    {
      var lpl, c := MulStep(up[uo + i], v, cl);
      StepVal(sr, lpl, cl, c, Val(su[..i]) * v, su[i] * v);
      MulTake(su, i, v);
      rp[ro + i], cl, sr := lpl, c, sr + [lpl];
    }
    assert su[..n] == su && rp[ro..ro + n] == sr;
  }

  lemma MulTake(su: seq<Limb>, i: nat, v: Limb)
    requires i < |su|
    ensures Val(su[..i + 1]) * v == Val(su[..i]) * v + su[i] * v * BPow(i)
  {
    hide Val, BPow;
    ValTake(su, i);
    Dist(Val(su[..i]), su[i] * BPow(i), v);
    Assoc(su[i], BPow(i), v);
    Assoc(su[i], v, BPow(i));
  }

  method AddMulStep(u: Limb, v: Limb, cl: Limb, rl: Limb) returns (lpl: Limb, cl': Limb)
    ensures lpl + cl' * B == rl + u * v + cl
  {
    var low, c := MulStep(u, v, cl);
    LimbSquare(u, v);
    lpl := Wrap(rl + low);
    cl' := c + if lpl < rl then 1 else 0;
  }

  /** mpn_addmul_1 */
  method AddMul1(rp: array<Limb>, ro: nat, up: array<Limb>, uo: nat, n: nat, v: Limb) returns (cl: Limb)
    requires n >= 1 && ro + n <= rp.Length && uo + n <= up.Length && Upward(rp, ro, up, uo, n)
    modifies rp
    ensures Val(rp[ro..ro + n]) + cl * BPow(n) == old(Val(rp[ro..ro + n])) + old(Val(up[uo..uo + n])) * v
    ensures SameOutside(rp[..], old(rp[..]), ro, n)
  {
    hide Val, BPow;
    ghost var su, s0, sr := up[uo..uo + n], rp[ro..ro + n], [];
    cl := 0;
    ValNil(su);
    ValNil(s0);
    for i := 0 to n
      invariant |sr| == i && forall k :: 0 <= k < i ==> rp[ro + k] == sr[k]
      invariant Val(sr) + cl * BPow(i) == Val(s0[..i]) + Val(su[..i]) * v
      invariant forall k :: i <= k < n ==> up[uo + k] == su[k]
      invariant forall k :: i <= k < n ==> rp[ro + k] == s0[k]
      invariant forall k :: 0 <= k < rp.Length && !(ro <= k < ro + n) ==> rp[k] == old(rp[k])
    {
      var lpl, c := AddMulStep(up[uo + i], v, cl, rp[ro + i]);
      AddMulVal(sr, s0, su, i, v, lpl, cl, c);
      rp[ro + i], cl, sr := lpl, c, sr + [lpl];
    }
    assert su[..n] == su && s0[..n] == s0 && rp[ro..ro + n] == sr;
  }

  lemma AddMulVal(sr: seq<Limb>, s0: seq<Limb>, su: seq<Limb>, i: nat, v: Limb, r: Limb, c: int, cy: int)
    requires |sr| == i < |s0| == |su|
    requires Val(sr) + c * BPow(i) == Val(s0[..i]) + Val(su[..i]) * v
    requires r + cy * B == s0[i] + su[i] * v + c
    ensures Val(sr + [r]) + cy * BPow(i + 1) == Val(s0[..i + 1]) + Val(su[..i + 1]) * v
  {
    hide Val, BPow;
    ValTake(s0, i);
    MulTake(su, i, v);
    StepVal(sr, r, c, cy, Val(s0[..i]) + Val(su[..i]) * v, s0[i] as int + su[i] * v);
    Dist(s0[i], su[i] * v, BPow(i));
  }

  method SubMulStep(u: Limb, v: Limb, cl: Limb, rl: Limb) returns (lpl: Limb, cl': Limb)
    ensures lpl - cl' * B == rl - u * v - cl
  {
    var low, c := MulStep(u, v, cl);
    LimbSquare(u, v);
    lpl := Wrap(rl - low);
    cl' := c + if lpl > rl then 1 else 0;
  }

  /** mpn_submul_1 */
  method SubMul1(rp: array<Limb>, ro: nat, up: array<Limb>, uo: nat, n: nat, v: Limb) returns (cl: Limb)
    requires n >= 1 && ro + n <= rp.Length && uo + n <= up.Length && Upward(rp, ro, up, uo, n)
    modifies rp
    ensures Val(rp[ro..ro + n]) - cl * BPow(n) == old(Val(rp[ro..ro + n])) - old(Val(up[uo..uo + n])) * v
    ensures SameOutside(rp[..], old(rp[..]), ro, n)
  {
    hide Val, BPow;
    ghost var su, s0, sr := up[uo..uo + n], rp[ro..ro + n], [];
    cl := 0;
    ValNil(su);
    ValNil(s0);
    for i := 0 to n
      invariant |sr| == i && forall k :: 0 <= k < i ==> rp[ro + k] == sr[k]
      invariant Val(sr) - cl * BPow(i) == Val(s0[..i]) - Val(su[..i]) * v
      invariant forall k :: i <= k < n ==> up[uo + k] == su[k]
      invariant forall k :: i <= k < n ==> rp[ro + k] == s0[k]
      invariant forall k :: 0 <= k < rp.Length && !(ro <= k < ro + n) ==> rp[k] == old(rp[k])
    {
      var lpl, c := SubMulStep(up[uo + i], v, cl, rp[ro + i]);
      SubMulVal(sr, s0, su, i, v, lpl, cl, c);
      rp[ro + i], cl, sr := lpl, c, sr + [lpl];
    }
    assert su[..n] == su && s0[..n] == s0 && rp[ro..ro + n] == sr;
  }

  lemma SubMulVal(sr: seq<Limb>, s0: seq<Limb>, su: seq<Limb>, i: nat, v: Limb, r: Limb, c: int, cy: int)
    requires |sr| == i < |s0| == |su|
    requires Val(sr) - c * BPow(i) == Val(s0[..i]) - Val(su[..i]) * v
    requires r - cy * B == s0[i] - su[i] * v - c
    ensures Val(sr + [r]) - cy * BPow(i + 1) == Val(s0[..i + 1]) - Val(su[..i + 1]) * v
  {
    hide Val, BPow;
    ValTake(s0, i);
    MulTake(su, i, v);
    var x: int := s0[i] as int - su[i] * v;
    StepVal(sr, r, -c, -cy, Val(s0[..i]) as int - Val(su[..i]) * v, x);
    Dist(x, su[i] * v, BPow(i));
  }

  /** mpn_mul: row by row, each row in place on the running product. */
  method Mul(rp: array<Limb>, up: array<Limb>, un: nat, vp: array<Limb>, vn: nat) returns (top: Limb)
    requires un >= vn >= 1 && un + vn <= rp.Length && un <= up.Length && vn <= vp.Length
    requires rp != up && rp != vp
    modifies rp
    ensures Val(rp[..un + vn]) == Val(up[..un]) * Val(vp[..vn])
    ensures top == rp[un + vn - 1]
    ensures SameOutside(rp[..], old(rp[..]), 0, un + vn)
  {
    hide Val, BPow;
    ghost var su, sv := up[0..un], vp[..vn];
    assert su == up[..un];
    var cy := Mul1(rp, 0, up, 0, un, vp[0]);
    ghost var row := rp[0..un];
    rp[un] := cy;
    assert rp[..un + 1] == row + [cy];
    RowZero(row, su, sv, cy);
    for j := 1 to vn
      invariant Val(rp[..un + j]) == Val(su) * Val(sv[..j])
      invariant forall k :: un + vn <= k < rp.Length ==> rp[k] == old(rp[k])
    {
      MulRow(rp, j, up, un, vp[j], sv);
    }
    assert sv[..vn] == sv;
    top := rp[un + vn - 1];
  }

  /** One row added to the running product. */
  method MulRow(rp: array<Limb>, j: nat, up: array<Limb>, un: nat, v: Limb, ghost sv: seq<Limb>)
    requires rp != up && 1 <= un <= up.Length && un + j < rp.Length && 1 <= j < |sv| && v == sv[j]
    requires Val(rp[..un + j]) == Val(up[..un]) * Val(sv[..j])
    modifies rp
    ensures Val(rp[..un + j + 1]) == Val(up[..un]) * Val(sv[..j + 1])
    ensures SameOutside(rp[..], old(rp[..]), j, un + 1)
  {
    hide Val, BPow;
    ghost var lo, mid, su := rp[..j], rp[j..j + un], up[..un];
    assert rp[..un + j] == lo + mid && up[0..0 + un] == su;
    var cy := AddMul1(rp, j, up, 0, un, v);
    ghost var row := rp[j..j + un];
    rp[un + j] := cy;
    assert rp[..un + j + 1] == lo + (row + [cy]);
    RowStep(lo, mid, row, su, sv, cy);
  }

  lemma RowZero(row: seq<Limb>, u: seq<Limb>, v: seq<Limb>, cy: Limb)
    requires |v| >= 1 && |row| == |u|
    requires Val(row) + cy * BPow(|u|) == Val(u) * v[0]
    ensures Val(row + [cy]) == Val(u) * Val(v[..1])
  {
    assert v[..1] == [v[0]];
    ValOne(v[0]);
    ValAppend(row, cy);
  }

  lemma RowStep(lo: seq<Limb>, mid: seq<Limb>, row: seq<Limb>, u: seq<Limb>, v: seq<Limb>, cy: Limb)
    requires 1 <= |lo| < |v| && |mid| == |u| == |row|
    requires Val(lo + mid) == Val(u) * Val(v[..|lo|])
    requires Val(row) + cy * BPow(|u|) == Val(mid) + Val(u) * v[|lo|]
    ensures Val(lo + (row + [cy])) == Val(u) * Val(v[..|lo| + 1])
  {
    hide Val, BPow;
    var j := |lo|;
    ValConcat(lo, mid);
    ValConcat(lo, row + [cy]);
    ValAppend(row, cy);
    ValTake(v, j);
    RowSum(Val(lo), Val(mid), Val(row + [cy]), Val(u), Val(v[..j]), v[j], BPow(j));
  }

  lemma RowSum(lo: int, mid: int, row: int, u: int, v: int, d: int, p: int)
    requires lo + mid * p == u * v && row == mid + u * d
    ensures lo + row * p == u * (v + d * p)
  {
    Dist(mid, u * d, p);
    Assoc(u, d, p);
    Dist(v, d * p, u);
  }

  /** mpn_add */
  method Add(rp: array<Limb>, ap: array<Limb>, an: nat, bp: array<Limb>, bn: nat) returns (cy: Limb)
    requires bn <= an && an <= rp.Length && an <= ap.Length && bn <= bp.Length
    modifies rp
    ensures cy <= 1
    ensures Val(rp[..an]) + cy * BPow(an) == old(Val(ap[..an])) + old(Val(bp[..bn]))
    ensures SameOutside(rp[..], old(rp[..]), 0, an)
  {
    hide Val, BPow;
    ghost var sa, sb := ap[..an], bp[..bn];
    assert ap[0..0 + bn] == sa[..bn] && bp[0..0 + bn] == sb;
    cy := AddN(rp, 0, ap, 0, bp, 0, bn);
    ghost var lo, c := rp[0..0 + bn], cy;
    if an > bn {
      assert ap[bn..bn + (an - bn)] == sa[bn..];
      cy := Add1(rp, bn, ap, bn, an - bn, cy);
      assert rp[..an] == lo + rp[bn..bn + (an - bn)];
      CarryOver(lo, rp[bn..bn + (an - bn)], sa, c, cy, Val(sb));
    } else {
      assert rp[..an] == lo && sa[..bn] == sa;
    }
  }

  /** A carry or borrow c into the high limbs. */
  lemma CarryOver(lo: seq<Limb>, hi: seq<Limb>, s: seq<Limb>, c: int, cy: int, v: int)
    requires |s| == |lo| + |hi|
    requires Val(lo) + c * BPow(|lo|) == Val(s[..|lo|]) + v
    requires Val(hi) + cy * BPow(|hi|) == Val(s[|lo|..]) + c
    ensures Val(lo + hi) + cy * BPow(|s|) == Val(s) + v
  {
    hide Val, BPow;
    var k := |lo|;
    ValConcat(lo, hi);
    ValSplit(s, k);
    BPowAdd(|hi|, k);
    Assoc(cy, BPow(|hi|), BPow(k));
    Dist(Val(hi), cy * BPow(|hi|), BPow(k));
    Dist(Val(s[k..]), c, BPow(k));
  }

  /** mpn_sub */
  method Sub(rp: array<Limb>, ap: array<Limb>, an: nat, bp: array<Limb>, bn: nat) returns (cy: Limb)
    requires bn <= an && an <= rp.Length && an <= ap.Length && bn <= bp.Length
    modifies rp
    ensures cy <= 1
    ensures Val(rp[..an]) - cy * BPow(an) == old(Val(ap[..an])) - old(Val(bp[..bn]))
    ensures SameOutside(rp[..], old(rp[..]), 0, an)
  {
    hide Val, BPow;
    ghost var sa, sb := ap[..an], bp[..bn];
    assert ap[0..0 + bn] == sa[..bn] && bp[0..0 + bn] == sb;
    cy := SubN(rp, 0, ap, 0, bp, 0, bn);
    ghost var lo, c := rp[0..0 + bn], cy;
    if an > bn {
      assert ap[bn..bn + (an - bn)] == sa[bn..];
      cy := Sub1(rp, bn, ap, bn, an - bn, cy);
      assert rp[..an] == lo + rp[bn..bn + (an - bn)];
      CarryOver(lo, rp[bn..bn + (an - bn)], sa, -(c as int), -(cy as int), 0 - Val(sb));
    } else {
      assert rp[..an] == lo && sa[..bn] == sa;
    }
  }
}
