/** Digits to limbs for bases that are powers of two: packing bits. */
module RadixSet {
  import opened Arith
  import opened BitOps
  import opened Limbs
  import opened MpnShift
  import opened MpzDivFast
  import opened Modular
  import opened Radix
  import opened RadixBits

  /** s holds the pos low bits of a number, the last limb filled up to shift (0 for full). */
  ghost predicate Packed(s: seq<Limb>, v: nat, pos: nat, shift: nat)
  {
    && Val(s) == v < Pow2(pos) && shift < 64
    && (if shift == 0 then pos == 64 * |s| else s != [] && pos == 64 * (|s| - 1) + shift)
  }

  lemma PackedGrows(v: nat, pos: nat, d: Digit, bits: nat)
    requires v < Pow2(pos) && d < Pow2(bits)
    ensures v + d * Pow2(pos) < Pow2(pos + bits) && 0 <= d * Pow2(pos)
  {
    hide Pow2;
    Pow2Add(pos, bits);
    MulMono(d, Pow2(bits) - 1, Pow2(pos)); Dist(Pow2(bits), -1, Pow2(pos)); MulMono(0, d, Pow2(pos));
  }

  lemma PackNew(s: seq<Limb>, v: nat, pos: nat, d: Digit, bits: nat)
    requires Packed(s, v, pos, 0) && d < Pow2(bits) && 1 <= bits <= 8
    ensures v + d * Pow2(pos) >= 0 && Packed(s + [d], v + d * Pow2(pos), pos + bits, bits)
  {
    hide Pow2, Val, BPow;
    PackedGrows(v, pos, d, bits);
    ValAppend(s, d);
    BPowBits(|s|);
  }

  /** The bits of d that fit in the last limb, and those that go into the next one. */
  lemma PackTop(s: seq<Limb>, v: nat, pos: nat, shift: nat, d: Digit)
    requires Packed(s, v, pos, shift) && shift > 0
    ensures shift < 64 && s[|s| - 1] < Pow2(shift) && s[|s| - 1] + Shl(d, shift) < B
  {
    hide Pow2, Val, BPow, Shl;
    var n := |s| - 1;
    assert s == s[..n] + [s[n]];
    ValAppend(s[..n], s[n]);
    BPowBits(n);
    TopLimbBound(Val(s[..n]), s[n], BPow(n), shift, v, pos);
    TopLimbRoom(s[n], d, shift);
  }

  lemma PackVal(s: seq<Limb>, v: nat, pos: nat, shift: nat, d: Digit, x: Limb, z: Limb)
    requires Packed(s, v, pos, shift) && shift > 0
    requires x == s[|s| - 1] + Shl(d, shift) && z == Shr(d, 64 - shift)
    ensures Val(s[|s| - 1 := x]) + z * BPow(|s|) == v + d * Pow2(pos)
  {
    hide Pow2, Val, BPow, Shl, Shr;
    var n := |s| - 1;
    NewTop(s, x);
    BPowBits(n); BPowSucc(n);
    Pow2Add(64 * n, shift);
    ShiftParts(d, shift);
    PackSum(Shl(d, shift), z, BPow(n), d, Pow2(shift));
  }

  lemma NewTop(s: seq<Limb>, x: Limb)
    requires s != []
    ensures Val(s[|s| - 1 := x]) == Val(s) + (x - s[|s| - 1]) * BPow(|s| - 1)
  {
    hide Val, BPow;
    var n := |s| - 1;
    assert s == s[..n] + [s[n]] && s[n := x] == s[..n] + [x];
    ValAppend(s[..n], s[n]);
    ValAppend(s[..n], x);
    Dist(x, -(s[n] as int), BPow(n));
  }

  lemma PackFit(s: seq<Limb>, v: nat, pos: nat, shift: nat, d: Digit, bits: nat, x: Limb)
    requires Packed(s, v, pos, shift) && shift > 0 && d < Pow2(bits) && 1 <= bits <= 8 && shift + bits <= 64
    requires x == s[|s| - 1] + Shl(d, shift)
    ensures v + d * Pow2(pos) >= 0
    ensures Packed(s[|s| - 1 := x], v + d * Pow2(pos), pos + bits, if shift + bits == 64 then 0 else shift + bits)
  {
    hide Pow2, Val, BPow, Shl, Shr;
    PackVal(s, v, pos, shift, d, x, Shr(d, 64 - shift));
    NothingOver(d, shift, bits);
    PackedGrows(v, pos, d, bits);
  }

  lemma PackSpill(s: seq<Limb>, v: nat, pos: nat, shift: nat, d: Digit, bits: nat, x: Limb, z: Limb)
    requires Packed(s, v, pos, shift) && d < Pow2(bits) && 1 <= bits <= 8 && 0 < shift && shift + bits > 64
    requires x == s[|s| - 1] + Shl(d, shift) && z == Shr(d, 64 - shift)
    ensures v + d * Pow2(pos) >= 0
    ensures Packed(s[|s| - 1 := x] + [z], v + d * Pow2(pos), pos + bits, shift + bits - 64)
  {
    hide Pow2, Val, BPow, Shl, Shr;
    PackVal(s, v, pos, shift, d, x, z);
    ValAppend(s[|s| - 1 := x], z);
    PackedGrows(v, pos, d, bits);
  }

  lemma TopLimbBound(lo: nat, top: Limb, w: nat, shift: nat, v: nat, pos: nat)
    requires shift <= pos && w == Pow2(pos - shift) && v == lo + top * w < Pow2(pos)
    ensures top < Pow2(shift)
  {
    hide Pow2;
    Pow2Add(shift, pos - shift);
    if top >= Pow2(shift) { MulMono(Pow2(shift), top, w); }
  }

  lemma TopLimbRoom(top: Limb, d: Digit, shift: nat)
    requires shift <= 64 && top < Pow2(shift)
    ensures top + Shl(d, shift) < B
  {
    hide Pow2, Shl, Shr;
    ShiftParts(d, shift);
    var p, t := Pow2(shift), Pow2(64 - shift);
    MulMono(d % t, t - 1, p); Dist(t, -1, p);
  }

  lemma NothingOver(d: Digit, shift: nat, bits: nat)
    requires shift + bits <= 64 && d < Pow2(bits)
    ensures Shr(d, 64 - shift) == 0
  {
    hide Pow2;
    Pow2Mono(bits, 64 - shift);
    DivModUnique(d, Pow2(64 - shift), 0, d);
  }

  lemma PackSum(y: int, z: int, w: int, d: int, p: int)
    requires d * p == z * B + y
    ensures y * w + z * (B * w) == d * (w * p)
  {
    Assoc(d, p, w); Assoc(z, B, w);
    Dist(z * B, y, w);
  }

  /** Putting one more digit on top of the packed ones. */
  method PutDigit(rp: array<Limb>, rn0: nat, shift0: nat, d: Digit, bits: nat, ghost v: nat, ghost pos: nat)
    returns (rn: nat, shift: nat)
    requires rn0 <= rp.Length && Packed(rp[..rn0], v, pos, shift0) && d < Pow2(bits) && 1 <= bits <= 8
    requires pos + bits <= 64 * rp.Length
    modifies rp
    ensures v + d * Pow2(pos) >= 0
    ensures rn <= rp.Length && Packed(rp[..rn], v + d * Pow2(pos), pos + bits, shift)
  {
    hide Val, Pow2, Shl, Shr, Word, Packed;
    ghost var s := rp[..rn0];
    PackRoom(bits, rp.Length, s, v, pos, shift0);
    rn, shift := rn0, shift0;
    if shift == 0 {
      PackNew(s, v, pos, d, bits);
      rp[rn] := d;
      rn, shift := rn + 1, shift + bits;
      assert rp[..rn] == s + [d];
    } else {
      PackTop(s, v, pos, shift, d);
      OrPieces(d, rp[rn - 1], shift);
      rp[rn - 1] := Or(Shl(d, shift), rp[rn - 1]);
      assert rp[..rn] == s[rn - 1 := rp[rn - 1]];
      shift := shift + bits;
      if shift > 64 {
        PackSpill(s, v, pos, shift0, d, bits, rp[rn - 1], Shr(d, bits - (shift - 64)));
      } else {
        PackFit(s, v, pos, shift0, d, bits, rp[rn - 1]);
      }
      if shift >= 64 {
        shift := shift - 64;
        if shift > 0 {
          rp[rn] := Shr(d, bits - shift);
          rn := rn + 1;
          assert rp[..rn] == s[rn0 - 1 := rp[rn0 - 1]] + [rp[rn0]];
        }
      }
    }
  }

  /** mpn_set_str_bits */
  method SetStrBits(rp: array<Limb>, sp: seq<Digit>, bits: nat) returns (rn: nat)
    requires 1 <= bits <= 8 && Below(sp, Pow2(bits)) && bits * |sp| <= 64 * rp.Length
    modifies rp
    ensures rn <= rp.Length && Normal(rp[..rn]) && Val(rp[..rn]) == DVal(sp, Pow2(bits))
  {
    hide Val, Pow, Pow2, DVal, Packed, Below;
    rn := 0;
    var j, shift := |sp|, 0;
    ghost var v, pos := 0, 0;
    PackStart(sp, Pow2(bits));
    assert rp[..0] == [];
    while j > 0
      invariant 0 <= j <= |sp| && pos == bits * (|sp| - j) && v == DVal(sp[j..], Pow2(bits))
      invariant rn <= rp.Length && Packed(rp[..rn], v, pos, shift)
    {
      j := j - 1;
      PackValue(sp, j, bits, pos);
      rn, shift := PutDigit(rp, rn, shift, sp[j], bits, v, pos);
      v, pos := v + sp[j] * Pow2(pos), pos + bits;
    }
    assert sp[0..] == sp;
    PackEnd(rp[..rn], v, pos, shift);
    rn := NormalizedSize(rp, rn);
  }

  lemma PackStart(sp: seq<Digit>, b: nat)
    ensures Packed([], 0, 0, 0) && DVal(sp[|sp|..], b) == 0
  {
  }

  lemma PackValue(sp: seq<Digit>, j: nat, bits: nat, pos: nat)
    requires j < |sp| && Below(sp, Pow2(bits)) && pos == bits * (|sp| - j - 1)
    ensures DVal(sp[j..], Pow2(bits)) == DVal(sp[j + 1..], Pow2(bits)) + sp[j] * Pow2(pos)
    ensures pos + bits == bits * (|sp| - j) <= bits * |sp| && sp[j] < Pow2(bits)
  {
    hide DVal, Pow2, Pow;
    assert sp[j..] == [sp[j]] + sp[j + 1..];
    DValCons(sp[j], sp[j + 1..], Pow2(bits));
    PowOfTwo(bits, |sp| - j - 1);
    Dist(|sp| - j, -1, bits);
    MulMono(|sp| - j, |sp|, bits);
  }

  /** The limbs allocated for all the digits are enough for the next one. */
  lemma PackRoom(bits: nat, length: nat, s: seq<Limb>, v: nat, pos: nat, shift: nat)
    requires Packed(s, v, pos, shift) && pos + bits <= 64 * length && bits >= 1
    ensures shift == 0 || shift + bits > 64 ==> |s| < length
    ensures shift == 0 || s != []
  {
  }

  lemma PackEnd(s: seq<Limb>, v: nat, pos: nat, shift: nat)
    requires Packed(s, v, pos, shift)
    ensures Val(s) == v
  {
  }
}
