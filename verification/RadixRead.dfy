/** What mpz_set_str reads beyond the text that mpz_get_str writes: prefixes, spaces, other characters. */
module RadixRead {
  import opened MpzCore
  import opened Radix
  import opened RadixBits
  import opened RadixText

  // ----- letters

  /** Letters are lower-case for positive bases and upper-case for negative ones. */
  lemma TextCase(base: int, v: int, k: nat)
    requires PrintBase(base) <= 36 && k < |Text(base, v)|
    ensures CaseOf(base, Text(base, v)[k])
  {
    hide Digits, Render, CaseOf, PrintBase, Below;
    NoLetter(base);
    if v != 0 {
      var s := Digits(Abs(v), PrintBase(base));
      DigitsBelow(Abs(v), PrintBase(base));
      var sign, digits := if v < 0 then "-" else "", Render(s, if base >= 0 then LOWER else UPPER);
      assert Text(base, v) == sign + digits;
      if k >= |sign| { DigitCase(base, s, k - |sign|); }
    }
  }

  lemma DigitsBelow(v: nat, b: nat)
    requires 2 <= b <= 36
    ensures Below(Digits(v, b), 36)
  {
    hide Digits;
    DigitsValue(v, b);
  }

  ghost predicate CaseOf(base: int, c: char)
  {
    (base >= 0 ==> !('A' <= c <= 'Z')) && (base < 0 ==> !('a' <= c <= 'z'))
  }

  lemma NoLetter(base: int)
    ensures CaseOf(base, '0') && CaseOf(base, '-')
  {
  }

  lemma DigitCase(base: int, s: seq<Digit>, i: nat)
    requires Below(s, 36) && i < |s|
    ensures CaseOf(base, Render(s, if base >= 0 then LOWER else UPPER)[i])
  {
    hide Render;
    RenderAt(s, if base >= 0 then LOWER else UPPER, i);
    AlphabetCase(s[i]);
  }

  lemma RenderAt(s: seq<Digit>, alphabet: string, i: nat)
    requires Below(s, |alphabet|) && i < |s|
    ensures Render(s, alphabet)[i] == alphabet[s[i]]
  {
  }

  lemma AlphabetCase(d: Digit)
    requires d < 36
    ensures !('A' <= LOWER[d] <= 'Z') && !('a' <= UPPER[d] <= 'z')
  {
  }

  // ----- prefixes

  /** The digits of the text of a number that is not negative. */
  lemma ReadText(base: int, v: nat) returns (ds: seq<Digit>)
    requires PrintBase(base) <= 36
    ensures ds != [] && ReadDigits(Text(base, v), PrintBase(base)) == Some(ds) && DVal(ds, PrintBase(base)) == v
    ensures Text(base, v) != "" && DigitOf(Text(base, v)[0]) < PrintBase(base)
  {
    hide DVal, ReadDigits, Digits, Render, DigitOf, IsSpace;
    var b := PrintBase(base);
    if v == 0 {
      ReadZero(b);
      ds := [0];
      ZeroDigit();
    } else {
      ds := Digits(v, b);
      var alphabet := if base >= 0 then LOWER else UPPER;
      DigitsValue(v, b);
      DigitsNonempty(v, b);
      ReadRendered(ds, alphabet, b);
      assert "" + Render(ds, alphabet) == Render(ds, alphabet);
      RenderAt(ds, alphabet, 0);
      AlphabetValue(ds[0], alphabet);
    }
  }

  lemma ZeroDigit()
    ensures DigitOf('0') == 0 && !IsSpace('0') && !IsSpace('-') && !IsSpace('x')
  {
    assert '0' as int == 48 && '-' as int == 45 && '\r' as int == 13;
  }

  ghost function Signed(neg: bool, s: string): (t: string)
  {
    if neg then "-" + s else s
  }

  /** A sign, a zero, and what follows it, with the base left to the prefix. */
  lemma ReadPrefixed(neg: bool, s: string, b: nat, u: string, ds: seq<Digit>)
    requires |s| >= 1 && s[0] == '0' && SplitPrefix(s, 0) == (b, u) && ReadDigits(u, b) == Some(ds) && ds != []
    ensures ParseNumber(Signed(neg, s), 0) == Some(if neg then -(DVal(ds, b) as int) else DVal(ds, b))
  {
    hide DVal, ReadDigits, IsSpace, SplitPrefix;
    ZeroDigit();
    var t := Signed(neg, s);
    assert SkipSpaces(t) == t;
    assert neg ==> t[1..] == s;
  }

  /** Prefixes of two characters. */
  lemma ReadMarked(neg: bool, mark: char, base: int, v: nat)
    requires base == 16 || base == -16 ==> mark == 'x' || mark == 'X'
    requires base == 2 || base == -2 ==> mark == 'b' || mark == 'B'
    requires base in {16, -16, 2, -2}
    ensures ParseNumber(Signed(neg, ['0', mark] + Text(base, v)), 0) == Some(if neg then -(v as int) else v)
  {
    hide DVal, ReadDigits, Text, IsSpace;
    var ds := ReadText(base, v);
    var s := ['0', mark] + Text(base, v);
    assert s[2..] == Text(base, v);
    ReadPrefixed(neg, s, PrintBase(base), Text(base, v), ds);
  }

  /** A leading zero and digits below 8. */
  lemma ReadOctal(neg: bool, v: nat)
    ensures ParseNumber(Signed(neg, "0" + Text(8, v)), 0) == Some(if neg then -(v as int) else v)
  {
    hide DVal, ReadDigits, Text, IsSpace;
    var ds := ReadText(8, v);
    var s := "0" + Text(8, v);
    var zero: seq<Digit> := [0];
    OctalDigit(s[1]);
    ReadZeroFirst(Text(8, v), 8, ds);
    ReadPrefixed(neg, s, 8, s, zero + ds);
    DValCons(0, ds, 8);
  }

  lemma OctalDigit(c: char)
    requires DigitOf(c) < 8
    ensures c != 'x' && c != 'X' && c != 'b' && c != 'B'
  {
  }

  lemma {:induction false} ReadZeroFirst(s: string, b: nat, ds: seq<Digit>)
    requires b >= 2 && ReadDigits(s, b) == Some(ds)
    ensures var zero: seq<Digit> := [0]; ReadDigits("0" + s, b) == Some(zero + ds)
    decreases |s|
  {
    var zero: seq<Digit> := [0];
    if s == "" {
      ReadZero(b);
      assert "0" + s == "0" && zero + ds == zero;
    } else {
      var n := |s| - 1;
      assert ("0" + s)[..n + 1] == "0" + s[..n];
      var es := ReadDigits(s[..n], b).value;
      ReadZeroFirst(s[..n], b, es);
      if !IsSpace(s[n]) { assert zero + (es + [DigitOf(s[n])]) == zero + es + [DigitOf(s[n])]; }
    }
  }

  /** Base 0 reads hexadecimal, binary and octal text by its prefix, in either case and with either sign. */
  lemma RoundTripPrefixed(neg: bool, v: nat)
    ensures var n := Some(if neg then -(v as int) else v);
            && ParseNumber(Signed(neg, "0x" + Text(16, v)), 0) == n
            && ParseNumber(Signed(neg, "0x" + Text(-16, v)), 0) == n
            && ParseNumber(Signed(neg, "0X" + Text(16, v)), 0) == n
            && ParseNumber(Signed(neg, "0X" + Text(-16, v)), 0) == n
            && ParseNumber(Signed(neg, "0b" + Text(2, v)), 0) == n
            && ParseNumber(Signed(neg, "0B" + Text(2, v)), 0) == n
            && ParseNumber(Signed(neg, "0" + Text(8, v)), 0) == n
  {
    hide ParseNumber, Text, Signed;
    ReadMarked(neg, 'x', 16, v); ReadMarked(neg, 'x', -16, v);
    ReadMarked(neg, 'X', 16, v); ReadMarked(neg, 'X', -16, v);
    ReadMarked(neg, 'b', 2, v); ReadMarked(neg, 'B', 2, v);
    ReadOctal(neg, v);
  }

  // ----- spaces and other characters

  /** The characters that isspace accepts in the C locale. */
  const SPACES: string := " \t\n\U{0b}\U{0c}\r"

  lemma SpacesAre(c: char)
    ensures IsSpace(c) <==> c in SPACES
  {
  }

  /** Spaces in front change nothing. */
  lemma SpacesInFront(w: string, s: string, base: nat)
    requires forall k :: 0 <= k < |w| ==> w[k] in SPACES
    ensures ParseNumber(w + s, base) == ParseNumber(s, base)
  {
    hide IsSpace, SkipSpaces, ReadDigits, SplitPrefix, Unsigned;
    forall k | 0 <= k < |w| ensures IsSpace(w[k]) { SpacesAre(w[k]); }
    SkipFront(w, s);
  }

  /** Nor does a space among the digits. */
  lemma {:induction false} SpaceInside(a: string, c: char, s: string, b: nat)
    requires c in SPACES
    ensures ReadDigits(a + [c] + s, b) == ReadDigits(a + s, b)
    decreases |s|
  {
    SpacesAre(c);
    if s == "" {
      assert a + s == a && a + [c] + s == a + [c] && (a + [c])[..|a|] == a;
    } else {
      var n := |s| - 1;
      assert (a + [c] + s)[..|a| + 1 + n] == a + [c] + s[..n] && (a + s)[..|a| + n] == a + s[..n];
      SpaceInside(a, c, s[..n], b);
    }
  }

  /** The digit that a character stands for in base b: a digit or a letter of either case. */
  ghost predicate IsDigit(c: char, b: nat)
  {
    exists d: Digit :: d < b && d < 36 && (c == LOWER[d] || c == UPPER[d])
  }

  lemma DigitIs(c: char, b: nat)
    requires b <= 36
    ensures DigitOf(c) < b <==> IsDigit(c, b)
  {
    if DigitOf(c) < b {
      LetterOf(c);
      var d := DigitOf(c);
      assert c == LOWER[d] || c == UPPER[d];
    }
    if IsDigit(c, b) {
      var d: Digit :| d < b && d < 36 && (c == LOWER[d] || c == UPPER[d]);
      LowerValue(d); UpperValue(d);
    }
  }

  lemma LetterOf(c: char)
    requires DigitOf(c) < 36
    ensures c == LOWER[DigitOf(c)] || c == UPPER[DigitOf(c)]
  {
  }

  /** Characters are refused exactly when some one is neither a space nor a digit of the base. */
  lemma {:induction false} RefusedExactly(s: string, b: nat)
    requires b <= 36
    ensures ReadDigits(s, b).None? <==> exists k :: 0 <= k < |s| && s[k] !in SPACES && !IsDigit(s[k], b)
    decreases |s|
  {
    hide IsSpace, DigitOf, IsDigit;
    if s != "" {
      var n := |s| - 1;
      RefusedExactly(s[..n], b);
      SpacesAre(s[n]);
      DigitIs(s[n], b);
      if k :| 0 <= k < |s| && s[k] !in SPACES && !IsDigit(s[k], b) {
        if k < n { assert s[..n][k] == s[k]; }
      }
      if ReadDigits(s[..n], b).None? {
        var k :| 0 <= k < n && s[..n][k] !in SPACES && !IsDigit(s[..n][k], b);
        assert s[k] !in SPACES && !IsDigit(s[k], b);
      }
    }
  }
}
