/** Bases that are powers of two: digits and limbs are cut from the same bit string. */
module RadixBits {
  import opened Arith
  import opened BitOps
  import opened Limbs
  import opened MpnShift
  import opened MpnDivQr
  import opened MpzDivFast
  import opened Modular
  import opened Radix

  /** The bits of a number from position 64 i + shift on. */
  lemma BitWindow(s: seq<Limb>, i: nat, shift: nat)
    requires i < |s| && shift < 64
    ensures Val(s) / Pow2(64 * i + shift) == Shr(s[i], shift) + Val(s[i + 1..]) * Pow2(64 - shift)
  {
    hide Val, Pow2, Shr;
    ShiftedOut(s, i, shift);
    assert s[i..] == [s[i]] + s[i + 1..];
    ValCons(s[i], s[i + 1..]);
    Pow2Add(64 - shift, shift); Pow2At();
    ShrDef(s[i], shift);
    var t, p := Pow2(64 - shift), Pow2(shift);
    assert B * Val(s[i + 1..]) == (Val(s[i + 1..]) * t) * p by { Assoc(Val(s[i + 1..]), t, p); }
    DivSum(Val(s[i + 1..]) * t, p, s[i]);
  }

  lemma ModPlusMultiple(x: int, y: int, p: int)
    requires p > 0
    ensures (x + y * p) % p == x % p
  {
    assert x == x / p * p + x % p;
    Dist(x / p, y, p);
    DivModUnique(x + y * p, p, x / p + y, x % p);
  }

  /** A multiple of a larger power of two vanishes modulo a smaller one. */
  lemma ModHigherPower(x: int, y: int, m: nat, bits: nat)
    requires m >= bits
    ensures (x + y * Pow2(m)) % Pow2(bits) == x % Pow2(bits)
  {
    hide Pow2;
    Pow2Add(m - bits, bits);
    Assoc(y, Pow2(m - bits), Pow2(bits));
    ModPlusMultiple(x, y * Pow2(m - bits), Pow2(bits));
  }

  /** One digit, from one limb or straddling two. */
  method DigitAt(up: array<Limb>, un: nat, i: nat, shift: nat, bits: nat) returns (d: Digit)
    requires i < un <= up.Length && shift < 64 && 1 <= bits <= 8
    ensures d == Val(up[..un]) / Pow2(64 * i + shift) % Pow2(bits)
  {
    hide Val, Pow2, Shr, Shl, Word;
    ghost var s := up[..un];
    EightBits(bits);
    var digit: Digit := Shr(up[i], shift) % 256;
    if shift + bits >= 64 && i + 1 < un {
      var x: Digit := Shl(up[i + 1], 64 - shift) % 256;
      StraddleWord(up[i], up[i + 1], shift, bits);
      digit := Word(IOR, x, digit, 8);
      StraddleWindow(s, i, shift, bits);
    } else {
      OneLimbWindow(s, i, shift, bits);
      ByteMod(Shr(up[i], shift), bits);
    }
    AndMask(digit, bits, 8);
    WordByte(digit, bits);
    d := Word(AND, digit, Pow2(bits) - 1, 8);
  }

  lemma OneLimbWindow(s: seq<Limb>, i: nat, shift: nat, bits: nat)
    requires i < |s| && shift < 64 && (shift + bits <= 64 || i + 1 == |s|)
    ensures Val(s) / Pow2(64 * i + shift) % Pow2(bits) == Shr(s[i], shift) % Pow2(bits)
  {
    hide Val, Pow2, Shr;
    BitWindow(s, i, shift);
    if i + 1 == |s| {
      assert s[i + 1..] == [];
      ValNil(s);
    } else {
      ModHigherPower(Shr(s[i], shift), Val(s[i + 1..]), 64 - shift, bits);
    }
  }

  lemma StraddleWindow(s: seq<Limb>, i: nat, shift: nat, bits: nat)
    requires i + 1 < |s| && shift < 64 && bits <= 64
    ensures Val(s) / Pow2(64 * i + shift) % Pow2(bits) == (Shr(s[i], shift) + s[i + 1] * Pow2(64 - shift)) % Pow2(bits)
  {
    hide Val, Pow2, Shr;
    BitWindow(s, i, shift);
    assert s[i + 1..] == [s[i + 1]] + s[i + 2..];
    ValCons(s[i + 1], s[i + 2..]);
    Straddle(Shr(s[i], shift), s[i + 1], Val(s[i + 2..]), 64 - shift, bits);
  }

  lemma EightBits(bits: nat)
    requires bits <= 8
    ensures Pow2(bits) <= 256 == Pow2(8)
  {
    Pow2At();
    Pow2Mono(bits, 8);
  }

  lemma WordByte(x: nat, bits: nat)
    requires bits <= 8
    ensures 0 <= Word(AND, x, Pow2(bits) - 1, 8) < 256
  {
    EightBits(8);
  }

  lemma ByteMod(x: nat, bits: nat)
    requires bits <= 8
    ensures x % 256 % Pow2(bits) == x % Pow2(bits)
  {
    hide Pow2;
    EightBits(bits);
    assert x == x % 256 + (x / 256) * 256;
    ModHigherPower(x % 256, x / 256, 8, bits);
  }

  /** The or of the two pieces is their sum, seen through a byte. */
  lemma StraddleWord(a: Limb, x: Limb, shift: nat, bits: nat)
    requires shift < 64 && 1 <= bits <= 8 && shift + bits >= 64
    ensures var w := Word(IOR, Shl(x, 64 - shift) % 256, Shr(a, shift) % 256, 8);
            && 0 <= w < 256 && w % Pow2(bits) == (Shr(a, shift) + x * Pow2(64 - shift)) % Pow2(bits)
  {
    hide Pow2, Shl, Shr, Word;
    var m := 64 - shift;
    ShiftParts(a, m);
    EightBits(m); EightBits(bits);
    ShiftParts(x, m);
    var hi, y := Shl(x, m) % 256, Shr(a, shift);
    DivModUnique(y, 256, 0, y);
    assert x * Pow2(m) == Shr(x, shift) * B + Shl(x, m);
    ByteMultiple(Shl(x, m), m, x % Pow2(64 - m));
    OrSum(hi, y, m, 8);
    assert x * Pow2(m) % 256 == hi by { ByteCut(Shr(x, shift), Shl(x, m)); }
    assert (y + x * Pow2(m)) % Pow2(bits) == (hi + y) % Pow2(bits) by {
      assert y + x * Pow2(m) == hi + y + (x * Pow2(m) / 256) * 256;
      ModHigherPower(hi + y, x * Pow2(m) / 256, 8, bits);
    }
  }

  lemma ByteCut(h: int, l: int)
    ensures (h * B + l) % 256 == l % 256
  {
    ModPlusMultiple(l, h * (B / 256), 256);
  }

  lemma ByteMultiple(x: int, m: nat, k: int)
    requires m <= 8 && x == k * Pow2(m)
    ensures x % 256 % Pow2(m) == 0
  {
    hide Pow2;
    EightBits(m);
    Pow2Add(8 - m, m);
    var c := Pow2(8 - m);
    assert x % 256 == x - x / 256 * 256;
    Assoc(x / 256, c, Pow2(m));
    Dist(k, -(x / 256 * c), Pow2(m));
    DivModUnique(x % 256, Pow2(m), k - x / 256 * c, 0);
  }

  lemma Straddle(a: int, x: int, hi: int, m: nat, bits: nat)
    requires bits <= 64
    ensures (a + (x + B * hi) * Pow2(m)) % Pow2(bits) == (a + x * Pow2(m)) % Pow2(bits)
  {
    hide Pow2;
    Pow2At();
    Pow2Add(m, 64);
    Dist(x, B * hi, Pow2(m));
    assert B * hi * Pow2(m) == hi * Pow2(m + 64) by { Assoc(hi, Pow2(m), B); }
    ModHigherPower(a + x * Pow2(m), hi, m + 64, bits);
  }

  lemma {:induction false} DValCons(d: Digit, s: seq<Digit>, b: nat)
    ensures DVal([d] + s, b) == d * Pow(b, |s|) + DVal(s, b)
    decreases |s|
  {
    if s == [] {
      assert [d] + s == [d] && [d][..0] == [];
    } else {
      var n := |s| - 1;
      assert ([d] + s)[..n + 1] == [d] + s[..n];
      DValCons(d, s[..n], b);
      Dist(d * Pow(b, n), DVal(s[..n], b), b);
      Assoc(d, Pow(b, n), b);
    }
  }

  /** The bit length of a number with a nonzero top limb, as the C code computes it. */
  method LimbBits(up: array<Limb>, un: nat) returns (len: nat)
    requires 0 < un <= up.Length && up[un - 1] > 0
    ensures 64 * (un - 1) < len <= 64 * un && Pow2(len - 1) <= Val(up[..un]) < Pow2(len)
  {
    hide Val, BPow, Pow2;
    var c := Clz(up[un - 1]);
    len := (un - 1) * 64 + (64 - c);
    ghost var s := up[..un];
    ValTake(s, un - 1);
    assert s[..un] == s;
    ValBound(s[..un - 1]);
    BPowBits(un - 1);
    TopBits(up[un - 1], c, Val(s[..un - 1]), BPow(un - 1));
    Pow2Add(64 * (un - 1), 64 - c);
    Pow2Add(64 * (un - 1), 63 - c);
  }

  lemma TopBits(top: Limb, c: nat, lo: int, w: int)
    requires c < 64 && B / 2 <= top * Pow2(c) < B && 0 <= lo < w
    ensures w * Pow2(63 - c) <= lo + top * w < w * Pow2(64 - c)
  {
    hide Pow2;
    Pow2At();
    Pow2Add(64 - c, c); Pow2Add(63 - c, c);
    var p := Pow2(c);
    assert top < Pow2(64 - c) by { if top >= Pow2(64 - c) { MulMono(Pow2(64 - c), top, p); } }
    assert top >= Pow2(63 - c) by {
      if top < Pow2(63 - c) { MulMono(top, Pow2(63 - c) - 1, p); Dist(Pow2(63 - c), -1, p); }
    }
    MulMono(top + 1, Pow2(64 - c), w); Dist(top, 1, w);
    MulMono(Pow2(63 - c), top, w);
  }

  /** mpn_get_str_bits */
  method GetStrBits(bits: nat, up: array<Limb>, un: nat) returns (sp: seq<Digit>)
    requires 1 <= bits <= 8 && 0 < un <= up.Length && up[un - 1] > 0
    ensures DVal(sp, Pow2(bits)) == Val(up[..un]) && Canonical(sp, Pow2(bits))
  {
    hide Val, Pow, Pow2, DVal, Below;
    var len := LimbBits(up, un);
    var sn := (len + bits - 1) / bits;
    ghost var v, pos := Val(up[..un]), 0;
    DigitCount(len, bits, sn);
    sp := [];
    var i, shift, k := 0, 0, 0;
    StartDigits(v, bits);
    while k < sn
      invariant 0 <= k <= sn && pos == bits * k && DigitsSoFar(sp, v, bits, k, pos)
      invariant k < sn ==> 64 * i + shift == pos && shift < 64 && i < un
    {
      var digit := DigitAt(up, un, i, shift, bits);
      MoreDigits(v, bits, k, pos, digit, sp);
      sp := [digit] + sp;
      DigitRoom(len, bits, sn, k + 1);
      pos := pos + bits;
      shift := shift + bits;
      if shift >= 64 {
        i := i + 1;
        if i < un { shift := shift - 64; }
      }
      k := k + 1;
    }
    AllDigits(v, bits, len, sn, sp);
  }

  /** The k digits below bit position pos. */
  ghost predicate DigitsSoFar(s: seq<Digit>, v: nat, bits: nat, k: nat, pos: nat)
  {
    && |s| == k && Below(s, Pow2(bits)) && v % Pow2(pos) == DVal(s, Pow2(bits))
    && (0 < k ==> bits <= pos && s[0] == v / Pow2(pos - bits) % Pow2(bits))
  }

  lemma DigitCount(len: int, bits: int, sn: int)
    requires 1 <= bits && len >= 1 && sn == (len + bits - 1) / bits
    ensures sn >= 1 && bits * (sn - 1) < len <= bits * sn
  {
    assert len + bits - 1 == sn * bits + (len + bits - 1) % bits;
    Dist(sn, -1, bits);
    if sn <= 0 { MulMono(sn, 0, bits); }
  }

  /** Before the last digit there are bits left. */
  lemma DigitRoom(len: int, bits: int, sn: int, k: int)
    requires 1 <= bits && bits * (sn - 1) < len && k <= sn
    ensures k < sn ==> bits * k < len
    ensures bits * k == bits * (k - 1) + bits
  {
    if k < sn { MulMono(k, sn - 1, bits); }
    Dist(k, -1, bits);
  }

  lemma StartDigits(v: nat, bits: nat)
    ensures DigitsSoFar([], v, bits, 0, 0)
  {
  }

  lemma MoreDigits(v: nat, bits: nat, k: nat, pos: nat, d: Digit, s: seq<Digit>)
    requires pos == bits * k && DigitsSoFar(s, v, bits, k, pos) && d == v / Pow2(pos) % Pow2(bits)
    ensures DigitsSoFar([d] + s, v, bits, k + 1, pos + bits)
  {
    hide Pow2, DVal, Pow;
    DValCons(d, s, Pow2(bits));
    PowOfTwo(bits, k);
    Pow2Add(pos, bits);
    ModSplit(v, Pow2(pos), Pow2(bits), d);
  }

  /** Two residues in a row. */
  lemma ModSplit(v: nat, p: nat, t: nat, d: int)
    requires p > 0 && t > 0 && d == v / p % t
    ensures p * t > 0 && v % (p * t) == d * p + v % p
  {
    var q := v / p;
    assert v == q * p + v % p;
    assert q == q / t * t + d;
    Dist(q / t * t, d, p);
    Assoc(q / t, t, p);
    MulMono(d, t - 1, p); Dist(t, -1, p); MulMono(0, d, p);
    MulMono(1, p, t);
    DivModUnique(v, p * t, q / t, d * p + v % p);
  }

  lemma AllDigits(v: nat, bits: nat, len: nat, sn: nat, s: seq<Digit>)
    requires 1 <= bits && sn >= 1 && len >= 1 && bits * (sn - 1) < len <= bits * sn
    requires Pow2(len - 1) <= v < Pow2(len) && DigitsSoFar(s, v, bits, sn, bits * sn)
    ensures DVal(s, Pow2(bits)) == v && Canonical(s, Pow2(bits))
  {
    hide Pow2, DVal;
    var pos := bits * sn;
    Dist(sn, -1, bits);
    MulMono(0, bits, sn - 1);
    Pow2Mono(len, pos);
    DivModUnique(v, Pow2(pos), 0, v);
    var p := Pow2(pos - bits);
    Pow2Mono(pos - bits, len - 1);
    Pow2Add(pos - bits, bits);
    TopRangeOf(v, p, Pow2(bits));
    DivModUnique(v / p, Pow2(bits), 0, v / p);
  }

  lemma TopRangeOf(v: int, p: int, t: int)
    requires p > 0 && p <= v < p * t
    ensures 0 < v / p < t
  {
    var q := v / p;
    assert v == q * p + v % p;
    if q <= 0 { MulMono(q, 0, p); }
    if q >= t { MulMono(t, q, p); }
  }
}
