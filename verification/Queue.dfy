/** The ring buffer of the prover server (queue.c). */
module RingQueue {
  import opened Arith

  /** The k-th place from p on in a ring of c places. */
  function Place(p: nat, k: nat, c: nat): (i: nat)
    requires c > 0
  {
    (p + k) % c
  }

  /** Places wrap around at most once. */
  lemma PlaceIs(p: nat, k: nat, c: nat)
    requires p < c && k <= c
    ensures Place(p, k, c) == if p + k < c then p + k else p + k - c
  {
    DivModUnique(p + k, c, if p + k < c then 0 else 1, if p + k < c then p + k else p + k - c);
  }

  /** The ring from position p on: n elements of data, wrapping around at its end. */
  ghost function Ring<T>(data: seq<T>, p: nat, n: nat): (r: seq<T>)
    requires p < |data| && n <= |data|
    ensures |r| == n
  {
    seq(n, k requires 0 <= k < n => PlaceIs(p, k, |data|); data[Place(p, k, |data|)])
  }

  class Queue<T(0)> {
    var data: array<T>
    var pointer: nat
    var len: nat
    var capacity: nat

    ghost predicate Valid()
      reads this
    {
      && capacity == data.Length > 0 && pointer < capacity && len <= capacity
    }

    /** The queued elements, oldest first. */
    ghost function Contents(): (s: seq<T>)
      requires Valid()
      reads this, data
    {
      Ring(data[..], pointer, len)
    }

    /** init_queue */
    constructor (n: nat)
      requires n > 0
      ensures Valid() && Contents() == [] && fresh(data)
    {
      capacity, len, pointer := n, 0, 0;
      data := new T[n];
    }

    /** queue_pop */
    method Pop() returns (x: T)
      requires Valid() && len > 0
      modifies this`len, this`pointer
      ensures Valid() && old(Contents()) == [x] + Contents()
    {
      x := data[pointer];
      PlaceIs(pointer, 1, capacity);
      RingPop(data[..], pointer, len);
      len := len - 1;
      pointer := Place(pointer, 1, capacity);
    }

    /** simple_push */
    method SimplePush(x: T)
      requires Valid() && len < capacity
      modifies this`len, data
      ensures Valid() && Contents() == old(Contents()) + [x]
    {
      ghost var s := data[..];
      PlaceIs(pointer, len, capacity);
      var i := Place(pointer, len, capacity);
      data[i] := x;
      assert data[..] == s[i := x];
      RingPush(s, pointer, len, x);
      len := len + 1;
    }

    /** resize_queue: the part from pointer to the end moves to the end of the doubled array. */
    method Resize()
      requires Valid() && len == capacity
      modifies this`data, this`pointer, this`capacity
      ensures Valid() && fresh(data) && len < capacity && Contents() == old(Contents())
    {
      var oldCap, oldP := capacity, pointer;
      var newCap := 2 * oldCap;
      var newP := newCap - oldCap + oldP;
      ghost var s := data[..];
      var d := new T[newCap];
      forall k | 0 <= k < oldCap { d[k] := data[k]; }
      forall k | 0 <= k < oldCap - oldP { d[newP + k] := d[oldP + k]; }
      RingMove(s, d[..], oldP);
      data, capacity, pointer := d, newCap, newP;
    }

    /** queue_push */
    method Push(x: T)
      requires Valid()
      modifies this, data
      ensures Valid() && (data == old(data) || fresh(data)) && Contents() == old(Contents()) + [x]
    {
      if len == capacity { Resize(); }
      SimplePush(x);
    }

    /** queue_is_empty */
    predicate IsEmpty()
      requires Valid()
      reads this, data
      ensures IsEmpty() <==> Contents() == []
    {
      len == 0
    }
  }

  lemma RingPop<T>(data: seq<T>, p: nat, n: nat)
    requires p < |data| && 0 < n <= |data|
    ensures Place(p, 1, |data|) < |data|
    ensures Ring(data, p, n) == [data[p]] + Ring(data, Place(p, 1, |data|), n - 1)
  {
    hide Place;
    var c := |data|;
    PlaceIs(p, 1, c);
    var q := Place(p, 1, c);
    var r, t := Ring(data, p, n), [data[p]] + Ring(data, q, n - 1);
    forall k | 0 <= k < n ensures r[k] == t[k] {
      PlaceIs(p, k, c);
      if k > 0 { PlaceIs(q, k - 1, c); }
    }
  }

  lemma RingPush<T>(data: seq<T>, p: nat, n: nat, x: T)
    requires p < |data| && n < |data|
    ensures Place(p, n, |data|) < |data|
    ensures Ring(data[Place(p, n, |data|) := x], p, n + 1) == Ring(data, p, n) + [x]
  {
    hide Place;
    var c := |data|;
    PlaceIs(p, n, c);
    var r, t := Ring(data[Place(p, n, c) := x], p, n + 1), Ring(data, p, n) + [x];
    forall k | 0 <= k < n + 1 ensures r[k] == t[k] {
      PlaceIs(p, k, c);
    }
  }

  lemma RingMove<T>(s: seq<T>, d: seq<T>, p: nat)
    requires p < |s| && |d| == 2 * |s| && d[..p] == s[..p] && d[|s| + p..] == s[p..]
    ensures Ring(d, |s| + p, |s|) == Ring(s, p, |s|)
  {
    hide Place;
    var c := |s|;
    var r, t := Ring(d, c + p, c), Ring(s, p, c);
    forall k | 0 <= k < c ensures r[k] == t[k] {
      PlaceIs(p, k, c);
      PlaceIs(c + p, k, 2 * c);
      if p + k < c {
        assert d[c + p..][k] == s[p..][k];
      } else {
        assert d[..p][p + k - c] == s[..p][p + k - c];
      }
    }
  }
}
