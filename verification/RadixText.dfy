/** Numbers as text: mpz_get_str, mpz_set_str, and the round trip between them. */
module RadixText {
  import opened Arith
  import opened Limbs
  import opened MpnShift
  import opened MpnDivQr
  import opened MpzCore
  import opened MpzDivFast
  import opened Modular
  import opened Radix
  import opened RadixGet
  import opened RadixBits
  import opened RadixSet
  import opened RadixChunks

  datatype Option<T> = None | Some(value: T)

  const LOWER: string := "0123456789abcdefghijklmnopqrstuvwxyz"
  const UPPER: string := "0123456789ABCDEFGHIJKLMNOPQRSTUVWXYZ"

  /** The digits of a number, most significant first; none for zero. */
  ghost function Digits(v: nat, b: nat): (s: seq<Digit>)
    requires 2 <= b <= 256
  {
    if v == 0 then [] else Smaller(v, b); Digits(v / b, b) + [v % b]
  }

  lemma Smaller(v: int, b: int)
    requires v > 0 && b >= 2
    ensures 0 <= v / b < v && 0 <= v % b < b && v == v / b * b + v % b
  {
    HalfQuotient(v, b);
  }

  lemma {:induction false} DigitsValue(v: nat, b: nat)
    requires 2 <= b <= 256
    ensures DVal(Digits(v, b), b) == v && Canonical(Digits(v, b), b)
  {
    if v == 0 {
      DValEmpty(b);
    } else {
      hide DVal;
      Smaller(v, b);
      DigitsValue(v / b, b);
      DValAppend(Digits(v / b, b), v % b, b);
      if v / b == 0 { MulMono(v / b, 0, b); }
    }
  }

  /** Any canonical digit string is the one division produces. */
  lemma DigitsUnique(s: seq<Digit>, v: nat, b: nat)
    requires 2 <= b <= 256 && Canonical(s, b) && DVal(s, b) == v
    ensures s == Digits(v, b)
  {
    DigitsValue(v, b);
    CanonicalUnique(s, Digits(v, b), b);
  }

  ghost function Render(s: seq<Digit>, alphabet: string): (t: string)
    requires Below(s, |alphabet|)
    ensures |t| == |s|
  {
    seq(|s|, k requires 0 <= k < |s| => alphabet[s[k]])
  }

  /** The base mpz_get_str prints in: bases -1, 0 and 1 mean ten. */
  function PrintBase(base: int): (b: nat)
    ensures b >= 2
  {
    if Abs(base) <= 1 then 10 else Abs(base)
  }

  /** What mpz_get_str prints for v. */
  ghost function Text(base: int, v: int): (t: string)
    requires PrintBase(base) <= 36
  {
    if v == 0 then "0" else
      var s := Digits(Abs(v), PrintBase(base));
      DigitsValue(Abs(v), PrintBase(base));
      (if v < 0 then "-" else "") + Render(s, if base >= 0 then LOWER else UPPER)
  }

  /** mpn_base_power_of_two_p */
  function PowerOfTwoBits(b: nat): (bits: nat)
  {
    match b
    case 2 => 1
    case 4 => 2
    case 8 => 3
    case 16 => 4
    case 32 => 5
    case 64 => 6
    case 128 => 7
    case 256 => 8
    case _ => 0
  }

  lemma PowerOfTwoBase(b: nat)
    ensures PowerOfTwoBits(b) <= 8 && (PowerOfTwoBits(b) > 0 ==> Pow2(PowerOfTwoBits(b)) == b)
  {
    assert Pow2(1) == 2 && Pow2(2) == 4 && Pow2(3) == 8 && Pow2(4) == 16;
    assert Pow2(5) == 32 && Pow2(6) == 64 && Pow2(7) == 128 && Pow2(8) == 256;
  }

  /** mpn_get_str on a copy of the limbs. */
  method GetDigits(b: nat, d: array<Limb>, un: nat) returns (sp: seq<Digit>)
    requires 2 <= b <= 256 && 0 < un <= d.Length && d[un - 1] > 0
    ensures sp == Digits(Val(d[..un]), b)
  {
    hide Val, DVal, Pow2, Digits;
    var bits := PowerOfTwoBits(b);
    PowerOfTwoBase(b);
    if bits > 0 {
      sp := GetStrBits(bits, d, un);
    } else {
      var info := GetBaseInfo(b);
      var tp := new Limb[un];
      CopyI(tp, 0, d, 0, un);
      assert tp[0..0 + un] == tp[..un] && d[0..0 + un] == d[..un];
      assert tp[..un][un - 1] == d[..un][un - 1];
      sp := GetStrOther(b, info, tp, un);
    }
    DigitsUnique(sp, Val(d[..un]), b);
  }

  /** mpz_get_str; a base beyond 36 has no alphabet. */
  method GetStr(base: int, u: Mpz) returns (r: Option<string>)
    requires u.Valid()
    ensures r.None? <==> Abs(base) > 36
    ensures r.Some? ==> r.value == Text(base, u.Value())
  {
    hide Val, Digits, Render;
    var alphabet := if base >= 0 then LOWER else UPPER;
    var b := if base >= 0 then base else -base;
    if b <= 1 { b := 10; }
    if b > 36 { return None; }
    var un := Abs(u.size);
    NormalZero(u.d[..un]);
    if un == 0 { return Some("0"); }
    var sign := if u.size < 0 then "-" else "";
    var sp := GetDigits(b, u.d, un);
    DigitsValue(Val(u.d[..un]), b);
    var text := "";
    var i := 0;
    while i < |sp|
      invariant 0 <= i <= |sp| && |text| == i
      invariant forall k :: 0 <= k < i ==> text[k] == alphabet[sp[k]]
    {
      text := text + [alphabet[sp[i]]];
      i := i + 1;
    }
    RenderIs(sp, alphabet, text);
    r := Some(sign + text);
  }

  lemma RenderIs(s: seq<Digit>, alphabet: string, t: string)
    requires Below(s, |alphabet|) && |t| == |s| && forall k :: 0 <= k < |s| ==> t[k] == alphabet[s[k]]
    ensures t == Render(s, alphabet)
  {
  }

  predicate IsSpace(c: char)
  {
    c == ' ' || '\t' <= c <= '\r'
  }

  /** The digit a character stands for, letters in either case; 36 for any other character. */
  function DigitOf(c: char): (d: Digit)
    ensures d <= 36
  {
    if '0' <= c <= '9' then c as int - '0' as int
    else if 'a' <= c <= 'z' then c as int - 'a' as int + 10
    else if 'A' <= c <= 'Z' then c as int - 'A' as int + 10
    else 36
  }

  function SkipSpaces(s: string): (t: string)
  {
    if s != "" && IsSpace(s[0]) then SkipSpaces(s[1..]) else s
  }

  lemma {:induction false} SkipFront(w: string, s: string)
    requires forall k :: 0 <= k < |w| ==> IsSpace(w[k])
    ensures SkipSpaces(w + s) == SkipSpaces(s)
    decreases |w|
  {
    if w == "" {
      assert w + s == s;
    } else {
      assert (w + s)[1..] == w[1..] + s;
      SkipFront(w[1..], s);
    }
  }

  /** The digits among the characters of s, spaces left out; None when some character is no digit. */
  function ReadDigits(s: string, b: nat): (r: Option<seq<Digit>>)
  {
    if s == "" then Some([]) else
      var n := |s| - 1;
      match ReadDigits(s[..n], b)
      case None => None
      case Some(ds) =>
        if IsSpace(s[n]) then Some(ds)
        else if DigitOf(s[n]) < b then Some(ds + [DigitOf(s[n])])
        else None
  }

  function CharAt(s: string, i: nat): (c: char)
  {
    if i < |s| then s[i] else '\0'
  }

  /** Base 0 means: read the base off the prefix. */
  function SplitPrefix(s: string, base: nat): (r: (nat, string))
    ensures base == 0 || 2 <= base <= 36 ==> 2 <= r.0 <= 36
  {
    if base != 0 then (base, s)
    else if CharAt(s, 0) != '0' then (10, s)
    else if CharAt(s, 1) == 'x' || CharAt(s, 1) == 'X' then (16, s[2..])
    else if CharAt(s, 1) == 'b' || CharAt(s, 1) == 'B' then (2, s[2..])
    else (8, s)
  }

  function Unsigned(s: string): (t: string)
  {
    if CharAt(s, 0) == '-' then s[1..] else s
  }

  /** What a string denotes in a base, if anything. */
  ghost function ParseNumber(s: string, base: nat): (r: Option<int>)
  {
    var t := SkipSpaces(s);
    var (b, u) := SplitPrefix(Unsigned(t), base);
    match ReadDigits(u, b)
    case None => None
    case Some(ds) =>
      if ds == [] then None
      else if CharAt(t, 0) == '-' then Some(-(DVal(ds, b) as int))
      else Some(DVal(ds, b))
  }

  /** The digit loop of mpz_set_str. */
  method ScanDigits(s: string, b: nat) returns (r: Option<seq<Digit>>)
    requires b <= 36
    ensures r == ReadDigits(s, b)
    ensures r.Some? ==> Below(r.value, b)
  {
    var dp: seq<Digit> := [];
    var i := 0;
    while i < |s|
      invariant 0 <= i <= |s| && ReadDigits(s[..i], b) == Some(dp) && Below(dp, b)
    {
      assert s[..i + 1][..i] == s[..i];
      if !IsSpace(s[i]) {
        var digit := DigitOf(s[i]);
        if digit >= b {
          ReadFails(s, i + 1, b);
          return None;
        }
        dp := dp + [digit];
      }
      i := i + 1;
    }
    assert s[..i] == s;
    r := Some(dp);
  }

  lemma {:induction false} ReadFails(s: string, i: nat, b: nat)
    requires i <= |s| && ReadDigits(s[..i], b).None?
    ensures ReadDigits(s, b).None?
    decreases |s|
  {
    if i == |s| {
      assert s[..i] == s;
    } else {
      assert s[..|s| - 1][..i] == s[..i];
      ReadFails(s[..|s| - 1], i, b);
    }
  }

  /** mpz_set_str: 0 and the number, or -1 and zero. */
  method SetStr(r: Mpz, s: string, base: nat) returns (code: int)
    requires base == 0 || 2 <= base <= 36
    modifies r, r.d
    ensures r.Valid() && (r.d == old(r.d) || fresh(r.d))
    ensures code == (if ParseNumber(s, base).Some? then 0 else -1)
    ensures r.Value() == (if ParseNumber(s, base).Some? then ParseNumber(s, base).value else 0)
  {
    hide Val, DVal, ReadDigits, Mpz.Value, Mpz.Valid, IsSpace;
    var i := 0;
    while i < |s| && IsSpace(s[i])
      invariant 0 <= i <= |s| && SkipSpaces(s) == SkipSpaces(s[i..])
    {
      i := i + 1;
    }
    var t := s[i..];
    assert SkipSpaces(t) == t;
    var sign := CharAt(t, 0) == '-';
    var split := SplitPrefix(Unsigned(t), base);
    var b := split.0;
    var dp := ScanDigits(split.1, b);
    if dp == None || dp.value == [] {
      SetZero(r);
      return -1;
    }
    SetDigits(r, dp.value, b, sign);
    return 0;
  }

  /** Limbs for the digits, then their value, then the sign. */
  method SetDigits(r: Mpz, dp: seq<Digit>, b: nat, sign: bool)
    requires 2 <= b <= 36 && dp != [] && Below(dp, b)
    modifies r, r.d
    ensures r.Valid() && (r.d == old(r.d) || fresh(r.d))
    ensures r.Value() == if sign then -(DVal(dp, b) as int) else DVal(dp, b)
  {
    hide Val, DVal, Pow2, Pow, Normal;
    var bits := PowerOfTwoBits(b);
    PowerOfTwoBase(b);
    var rn;
    if bits > 0 {
      var alloc := (|dp| * bits + 63) / 64;
      RoomForBits(|dp|, bits, alloc);
      r.Realloc(alloc);
      rn := SetStrBits(r.d, dp, bits);
    } else {
      var info := GetBaseInfo(b);
      var alloc := (|dp| + info.exp - 1) / info.exp;
      RoomForChunks(|dp|, info.exp, alloc);
      r.Realloc(alloc);
      rn := SetStrOther(r.d, dp, b, info);
      DropZero(r.d[..rn]);
      assert r.d[..rn][..rn - 1] == r.d[..rn - 1];
      rn := if r.d[rn - 1] == 0 then rn - 1 else rn;
    }
    ValNil(r.d[..rn]);
    r.size := if sign then -(rn as int) else rn;
    assert Abs(r.size) == rn;
  }

  lemma RoomForBits(n: nat, bits: nat, alloc: int)
    requires alloc == (n * bits + 63) / 64
    ensures 0 <= alloc && bits * n <= 64 * alloc
  {
    MulMono(0, bits, n);
  }

  lemma RoomForChunks(n: nat, e: nat, alloc: int)
    requires e >= 1 && n >= 1 && alloc == (n + e - 1) / e
    ensures 1 <= alloc
  {
    ChunkCount(n, e);
  }

  /** Only a lone zero limb can be on top. */
  lemma DropZero(s: seq<Limb>)
    requires s != [] && (|s| == 1 || s[|s| - 1] != 0)
    ensures s[|s| - 1] != 0 ==> Normal(s)
    ensures s[|s| - 1] == 0 ==> Normal(s[..|s| - 1]) && Val(s[..|s| - 1]) == Val(s)
  {
    if s[|s| - 1] == 0 {
      assert s[..0] == [] && s == [0];
      ValOne(0); ValNil(s);
    }
  }

  lemma LowerValue(d: Digit)
    requires d < 36
    ensures DigitOf(LOWER[d]) == d
  {
  }

  lemma UpperValue(d: Digit)
    requires d < 36
    ensures DigitOf(UPPER[d]) == d
  {
  }

  lemma AlphabetValue(d: Digit, alphabet: string)
    requires d < 36 && (alphabet == LOWER || alphabet == UPPER)
    ensures DigitOf(alphabet[d]) == d && !IsSpace(alphabet[d])
  {
    LowerValue(d); UpperValue(d);
  }

  /** Reading back rendered digits. */
  lemma {:induction false} ReadRendered(s: seq<Digit>, alphabet: string, b: nat)
    requires Below(s, b) && b <= 36 && (alphabet == LOWER || alphabet == UPPER)
    ensures ReadDigits(Render(s, alphabet), b) == Some(s)
    decreases |s|
  {
    if s != [] {
      var n := |s| - 1;
      assert Render(s, alphabet)[..n] == Render(s[..n], alphabet);
      ReadRendered(s[..n], alphabet, b);
      AlphabetValue(s[n], alphabet);
      assert s[..n] + [s[n]] == s;
    }
  }

  /** mpz_set_str undoes mpz_get_str, in every base and for every number. */
  lemma RoundTrip(base: int, v: int)
    requires -36 <= base <= 36
    ensures ParseNumber(Text(base, v), if base < -1 then -base else if base > 1 then base else 10) == Some(v)
  {
    hide DVal, ReadDigits, Digits, Render, DigitOf, IsSpace;
    var b := PrintBase(base);
    var t := Text(base, v);
    if v == 0 {
      ReadZero(b);
    } else {
      var s := Digits(Abs(v), b);
      DigitsValue(Abs(v), b);
      var alphabet := if base >= 0 then LOWER else UPPER;
      ReadRendered(s, alphabet, b);
      DigitsNonempty(Abs(v), b);
      FirstChar(s, alphabet, b);
      var text := Render(s, alphabet);
      assert ("-" + text)[1..] == text && "" + text == text;
      assert SkipSpaces(t) == t && Unsigned(t) == text;
    }
  }

  /** Plain decimal text also reads back when the base is left to the prefix. */
  lemma RoundTripDecimal(v: int)
    ensures ParseNumber(Text(10, v), 0) == Some(v)
  {
    hide DVal, ReadDigits, Digits, Render, DigitOf, IsSpace;
    if v == 0 {
      ReadZero(8);
    } else {
      RoundTrip(10, v);
      var s := Digits(Abs(v), 10);
      DigitsValue(Abs(v), 10);
      DigitsNonempty(Abs(v), 10);
      FirstChar(s, LOWER, 10);
      assert ("-" + Render(s, LOWER))[1..] == Render(s, LOWER);
    }
  }

  lemma DigitsNonempty(v: nat, b: nat)
    requires v > 0 && 2 <= b <= 256
    ensures Digits(v, b) != []
  {
  }

  lemma ReadZero(b: nat)
    requires b >= 2
    ensures ReadDigits("0", b) == Some([0]) && DVal([0], b) == 0
    ensures !IsSpace('0') && !IsSpace('-')
  {
    var zero: seq<Digit> := [0];
    assert "0"[..0] == "" && zero[..0] == [] && [] + [DigitOf('0')] == zero;
    assert '0' as int == 48 && '-' as int == 45 && '\r' as int == 13;
  }

  lemma FirstChar(s: seq<Digit>, alphabet: string, b: nat)
    requires Canonical(s, b) && s != [] && b <= 36 && (alphabet == LOWER || alphabet == UPPER)
    ensures var c := Render(s, alphabet)[0];
            !IsSpace(c) && c != '-' && c != '0' && !IsSpace('-')
  {
    AlphabetValue(s[0], alphabet);
  }

  /** mpz_sizeinbase: exactly the digits, one for zero. */
  method SizeInBase(u: Mpz, b: nat) returns (n: nat)
    requires u.Valid() && 2 <= b <= 36
    ensures n == if u.Value() == 0 then 1 else |Digits(Abs(u.Value()), b)|
  {
    hide Val, Digits, Pow, Pow2, Normal;
    var un := Abs(u.size);
    NormalZero(u.d[..un]);
    if un == 0 { return 1; }
    TopNonzero(u.d[..un]);
    var len := LimbBits(u.d, un);
    var bits := PowerOfTwoBits(b);
    PowerOfTwoBase(b);
    if bits > 0 {
      n := (len + bits - 1) / bits;
      DigitCount(len, bits, n);
      BitDigits(Val(u.d[..un]), bits, len, n);
    } else {
      var tp := new Limb[un];
      CopyI(tp, 0, u.d, 0, un);
      assert tp[0..0 + un] == tp[..un] && u.d[0..0 + un] == u.d[..un];
      n := CountDigits(tp, un, b);
    }
  }

  /** The counting loop: divide by the base until nothing is left. */
  method CountDigits(tp: array<Limb>, un0: nat, b: nat) returns (n: nat)
    requires 0 < un0 <= tp.Length && Normal(tp[..un0]) && 2 <= b <= 36
    modifies tp
    ensures n == |Digits(old(Val(tp[..un0])), b)|
  {
    hide Val, BPow, Digits, InverseOf1, Normal;
    var bi := DivQr1Invert(b);
    n := 0;
    var un := un0;
    ghost var all := |Digits(Val(tp[..un]), b)|;
    while un > 0
      invariant un <= un0 && Normal(tp[..un]) && n + |Digits(Val(tp[..un]), b)| == all
      decreases Val(tp[..un])
    {
      n := n + 1;
      ghost var s := tp[..un];
      var r := DivQr1Preinv(tp, tp, un, bi, b);
      OneDigitLess(s, tp[..un], b);
      assert tp[..un][..un - 1] == tp[..un - 1];
      un := if tp[un - 1] == 0 then un - 1 else un;
    }
    NoDigits(tp[..un], b);
  }

  lemma NoDigits(s: seq<Limb>, b: nat)
    requires s == [] && 2 <= b <= 256
    ensures Digits(Val(s), b) == []
  {
  }

  lemma OneDigitLess(s: seq<Limb>, q: seq<Limb>, b: nat)
    requires |q| == |s| >= 1 && Normal(s) && 2 <= b <= 36 && Val(q) == Val(s) / b
    ensures |Digits(Val(s), b)| == |Digits(Val(q), b)| + 1 && Val(q) < Val(s)
    ensures q[|q| - 1] == 0 ==> Val(q[..|q| - 1]) == Val(q) && Normal(q[..|q| - 1])
    ensures q[|q| - 1] != 0 ==> Normal(q)
  {
    hide Val, BPow;
    NormalBound(s);
    HalfQuotient(Val(s), b);
    if |s| > 1 { OneLimbQuotient(q, s, b); } else { DropZero(q); }
  }

  lemma BitDigits(v: nat, bits: nat, len: nat, n: nat)
    requires 1 <= bits <= 8 && len >= 1 && n >= 1 && bits * (n - 1) < len <= bits * n && Pow2(len - 1) <= v < Pow2(len)
    ensures 2 <= Pow2(bits) <= 256 && |Digits(v, Pow2(bits))| == n
  {
    assert Pow2(1) == 2;
    hide Digits, Pow, Pow2;
    EightBits(bits); Pow2Mono(1, bits); Pow2At();
    PowerBounds(v, bits, len, n, bits * (n - 1), bits * n);
    DigitsLength(v, Pow2(bits), n);
  }

  lemma PowerBounds(v: nat, bits: nat, len: nat, n: nat, lo: int, hi: int)
    requires len >= 1 && n >= 1 && lo == bits * (n - 1) && hi == bits * n && lo < len <= hi
    requires Pow2(len - 1) <= v < Pow2(len)
    ensures Pow(Pow2(bits), n - 1) <= v < Pow(Pow2(bits), n)
  {
    hide Pow, Pow2;
    PowOfTwo(bits, n - 1); PowOfTwo(bits, n);
    Pow2Mono(lo, len - 1); Pow2Mono(len, hi);
  }

  lemma {:induction false} DigitsLength(v: nat, b: nat, n: nat)
    requires 2 <= b <= 256 && n >= 1 && Pow(b, n - 1) <= v < Pow(b, n)
    ensures |Digits(v, b)| == n
    decreases n
  {
    PowNonneg(b, n - 1);
    Smaller(v, b);
    var q := v / b;
    if n == 1 {
      PowFirst(b);
      DivModUnique(v, b, 0, v);
    } else {
      if q < Pow(b, n - 2) { MulMono(q, Pow(b, n - 2) - 1, b); Dist(Pow(b, n - 2), -1, b); }
      if q >= Pow(b, n - 1) { MulMono(Pow(b, n - 1), q, b); }
      DigitsLength(q, b, n - 1);
    }
  }
}
