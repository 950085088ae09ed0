/** Digit strings of numbers: values, canonical forms, and their uniqueness. */
module Radix {
  import opened Arith
  import opened Modular

  type Digit = x: int | 0 <= x < 256

  /** The value of digits with the most significant one first. */
  ghost function DVal(s: seq<Digit>, b: nat): (v: nat)
  {
    if s == [] then 0 else
      MulMono(0, DVal(s[..|s| - 1], b), b);
      DVal(s[..|s| - 1], b) * b + s[|s| - 1]
  }

  /** The value of digits with the least significant one first. */
  ghost function LVal(s: seq<Digit>, b: nat): (v: nat)
  {
    if s == [] then 0 else
      MulMono(0, LVal(s[1..], b), b);
      s[0] + LVal(s[1..], b) * b
  }

  ghost predicate Below(s: seq<Digit>, b: nat)
  {
    forall k :: 0 <= k < |s| ==> s[k] < b
  }

  /** No leading zero; zero itself has no digits. */
  ghost predicate Canonical(s: seq<Digit>, b: nat)
  {
    Below(s, b) && (s != [] ==> s[0] != 0)
  }

  ghost function Reverse(s: seq<Digit>): (r: seq<Digit>)
    ensures |r| == |s| && forall k :: 0 <= k < |s| ==> r[k] == s[|s| - 1 - k]
  {
    seq(|s|, k requires 0 <= k < |s| => s[|s| - 1 - k])
  }

  lemma {:induction false} ReverseValue(s: seq<Digit>, b: nat)
    ensures DVal(Reverse(s), b) == LVal(s, b)
    decreases |s|
  {
    if s != [] {
      var r := Reverse(s);
      assert r[..|r| - 1] == Reverse(s[1..]);
      ReverseValue(s[1..], b);
    }
  }

  lemma {:induction false} LValAppend(s: seq<Digit>, d: Digit, b: nat)
    ensures LVal(s + [d], b) == LVal(s, b) + d * Pow(b, |s|)
    decreases |s|
  {
    if s == [] {
      assert [d][1..] == [];
    } else {
      assert (s + [d])[1..] == s[1..] + [d];
      LValAppend(s[1..], d, b);
      Dist(LVal(s[1..], b), d * Pow(b, |s| - 1), b);
      Assoc(d, Pow(b, |s| - 1), b);
    }
  }

  lemma DValAppend(s: seq<Digit>, d: Digit, b: nat)
    ensures DVal(s + [d], b) == DVal(s, b) * b + d
  {
    assert (s + [d])[..|s|] == s;
  }

  lemma {:induction false} DValPositive(s: seq<Digit>, b: nat)
    requires s != [] && s[0] != 0 && b > 0
    ensures DVal(s, b) > 0
    decreases |s|
  {
    if |s| > 1 {
      DValPositive(s[..|s| - 1], b);
      MulMono(1, DVal(s[..|s| - 1], b), b);
    }
  }

  /** A number has one canonical digit string in each base. */
  lemma {:induction false} CanonicalUnique(s: seq<Digit>, t: seq<Digit>, b: nat)
    requires b >= 2 && Canonical(s, b) && Canonical(t, b) && DVal(s, b) == DVal(t, b)
    ensures s == t
    decreases |s|
  {
    if s == [] {
      if t != [] { DValPositive(t, b); }
    } else if t == [] {
      DValPositive(s, b);
    } else {
      var m, n := |s| - 1, |t| - 1;
      DivModUnique(DVal(s, b), b, DVal(s[..m], b), s[m]);
      DivModUnique(DVal(t, b), b, DVal(t[..n], b), t[n]);
      CanonicalUnique(s[..m], t[..n], b);
      assert s == s[..m] + [s[m]] && t == t[..n] + [t[n]];
    }
  }
}
