/** Sparse arrays without initialisation (sparse_array.c). */
module SparseArrays {

  ghost function Upto(n: nat): (s: set<nat>)
    ensures forall k: nat :: k in s <==> k < n
    ensures |s| == n
  {
    if n == 0 then {} else Upto(n - 1) + {n - 1}
  }

  ghost predicate Injective(s: seq<nat>)
  {
    forall i, j :: 0 <= i < j < |s| ==> s[i] != s[j]
  }

  ghost function Values(s: seq<nat>): (v: set<nat>)
    ensures forall x :: x in v <==> x in s
    ensures Injective(s) ==> |v| == |s|
  {
    if s == [] then {} else
      var n := |s| - 1;
      assert s == s[..n] + [s[n]];
      Values(s[..n]) + {s[n]}
  }

  /** Pigeonhole: n different numbers below n are all of them. */
  lemma Onto(s: seq<nat>, x: nat)
    requires Injective(s) && (forall i :: 0 <= i < |s| ==> s[i] < |s|) && x < |s|
    ensures x in s
  {
    var v, u := Values(s), Upto(|s|);
    if x !in s {
      SubsetSize(v, u - {x});
    }
  }

  lemma SubsetSize(a: set<nat>, b: set<nat>)
    requires a <= b
    ensures |a| <= |b|
  {
    assert b == a + (b - a);
  }

  /** struct SparseArray */
  class SparseArray {
    const sz: nat
    var n: nat
    const val: array<int>
    const idx: array<nat>
    const back: array<nat>

    /** inv */
    ghost predicate Valid()
      reads this, val, idx, back
    {
      && val.Length == idx.Length == back.Length == sz && n <= sz
      && idx != back && val as object != idx as object && val as object != back as object
      && forall k :: 0 <= k < n ==> back[k] < sz && idx[back[k]] == k
    }

    /** is_elt */
    predicate IsElt(i: nat)
      requires Valid() && i < sz
      reads this, val, idx, back
    {
      idx[i] < n && back[idx[i]] == i
    }

    /** model: the value at i, 0 where none was set. */
    ghost function At(i: nat): (v: int)
      requires Valid() && i < sz
      reads this, val, idx, back
    {
      if IsElt(i) then val[i] else 0
    }

    /** create */
    constructor (size: nat)
      ensures Valid() && sz == size && fresh(val) && fresh(idx) && fresh(back)
      ensures forall i :: 0 <= i < sz ==> At(i) == 0
    {
      sz, n, val, idx, back := size, 0, new int[size](_ => 0), new nat[size](_ => 0), new nat[size](_ => 0);
    }

    /** get */
    method Get(i: nat) returns (v: int)
      requires Valid() && i < sz
      ensures v == At(i)
    {
      if idx[i] < n && back[idx[i]] == i { v := val[i]; } else { v := 0; }
    }

    /** A place that is not an element leaves room for it. */
    lemma Room(i: nat)
      requires Valid() && i < sz && !IsElt(i)
      ensures n < sz
    {
      if n == sz {
        assert back[..] == back[..n];
        Onto(back[..n], i);
      }
    }

    /** set: this place holds v, every other what it held. */
    method Set(i: nat, v: int)
      requires Valid() && i < sz
      modifies this`n, val, idx, back
      ensures Valid() && At(i) == v
      ensures forall j :: 0 <= j < sz && j != i ==> At(j) == old(At(j))
    {
      val[i] := v;
      if !(idx[i] < n && back[idx[i]] == i) {
        Room(i);
        idx[i] := n;
        back[n] := i;
        n := n + 1;
      }
    }
  }
}
