/** The key/value list of the prover server (arraylist.c), used for its clients and its processes. */
module KeyTable {

  datatype Lookup<T> = Missing | Found(value: T)

  /** Distinct keys and their values list the entries of m. */
  ghost predicate Lists<T>(keys: seq<int>, data: seq<T>, m: map<int, T>)
  {
    && |keys| == |data|
    && (forall i, j :: 0 <= i < j < |keys| ==> keys[i] != keys[j])
    && (forall i :: 0 <= i < |keys| ==> keys[i] in m && m[keys[i]] == data[i])
    && (forall k :: k in m ==> k in keys)
  }

  lemma {:induction false} ListsCount<T>(keys: seq<int>, data: seq<T>, m: map<int, T>)
    requires Lists(keys, data, m)
    ensures |m| == |keys|
    decreases |keys|
  {
    if keys == [] {
      forall k ensures k !in m { }
    } else {
      var n := |keys| - 1;
      var m1 := m - {keys[n]};
      forall k | k in m1 ensures k in keys[..n] {
        var i :| 0 <= i < |keys| && keys[i] == k;
        assert keys[..n][i] == k;
      }
      ListsCount(keys[..n], data[..n], m1);
      assert m.Keys == m1.Keys + {keys[n]};
    }
  }

  lemma ListsAppend<T>(keys: seq<int>, data: seq<T>, m: map<int, T>, k: int, x: T)
    requires Lists(keys, data, m) && k !in m
    ensures Lists(keys + [k], data + [x], m[k := x])
  {
    assert (keys + [k])[|keys|] == k;
  }

  /** The last entry takes the place of entry i. */
  ghost function SwapOut<T>(s: seq<T>, i: nat): (r: seq<T>)
    requires i < |s|
  {
    var n := |s| - 1;
    if i == n then s[..n] else s[..n][i := s[n]]
  }

  lemma ListsSwapOut<T>(keys: seq<int>, data: seq<T>, m: map<int, T>, i: nat)
    requires Lists(keys, data, m) && i < |keys|
    ensures Lists(SwapOut(keys, i), SwapOut(data, i), m - {keys[i]})
  {
    var n, keys1 := |keys| - 1, SwapOut(keys, i);
    forall k | k in m && k != keys[i] ensures k in keys1 {
      var j :| 0 <= j < |keys| && keys[j] == k;
      assert keys1[if j == n then i else j] == k;
    }
  }

  lemma ListsFind<T>(keys: seq<int>, data: seq<T>, m: map<int, T>, k: int)
    requires Lists(keys, data, m)
    ensures First(keys, k) == -1 <==> k !in m
    ensures First(keys, k) >= 0 ==> m[k] == data[First(keys, k)]
  {
    assert k in keys <==> k in m;
  }

  /** The first place of a key, -1 when it has none. */
  ghost function First(keys: seq<int>, k: int): (i: int)
    ensures -1 <= i < |keys| && (i == -1 <==> k !in keys)
    ensures i >= 0 ==> keys[i] == k && k !in keys[..i]
  {
    if keys == [] then -1
    else if keys[0] == k then 0
    else
      var i := First(keys[1..], k);
      assert keys == [keys[0]] + keys[1..];
      if i == -1 then -1 else (assert keys[..i + 1] == [keys[0]] + keys[1..][..i]; i + 1)
  }

  lemma FirstIs(keys: seq<int>, k: int, i: nat)
    requires i < |keys| && keys[i] == k && k !in keys[..i]
    ensures First(keys, k) == i
  {
  }

  /** A list of keys and values; the same key may be appended again. */
  class Table<T(0)> {
    var key: array<int>
    var data: array<T>
    var len: nat
    var capacity: nat

    ghost predicate Valid()
      reads this
    {
      key as object != data as object && key.Length == data.Length == capacity > 0 && len <= capacity
    }

    ghost function Keys(): (k: seq<int>)
      requires Valid()
      reads this, key
    {
      key[..len]
    }

    ghost function Data(): (d: seq<T>)
      requires Valid()
      reads this, data
    {
      data[..len]
    }

    /** init_list */
    constructor (n: nat)
      requires n > 0
      ensures Valid() && Keys() == [] && Data() == [] && fresh(key) && fresh(data)
    {
      capacity, len, key, data := n, 0, new int[n], new T[n];
    }

    /** list_length */
    method Length() returns (n: nat)
      requires Valid()
      ensures n == |Keys()| == |Data()|
    {
      n := len;
    }

    /** list_lookup_index */
    method LookupIndex(k: int) returns (i: int)
      requires Valid()
      ensures i == First(Keys(), k)
    {
      hide First;
      ghost var keys := key[..len];
      i := 0;
      while i < len
        invariant 0 <= i <= len && k !in keys[..i]
      {
        if key[i] == k {
          FirstIs(keys, k, i);
          return;
        }
        assert keys[..i + 1] == keys[..i] + [keys[i]];
        i := i + 1;
      }
      assert keys[..len] == keys;
      i := -1;
    }

    /** list_lookup */
    method Find(k: int) returns (r: Lookup<T>)
      requires Valid()
      ensures r == if k in Keys() then Found(Data()[First(Keys(), k)]) else Missing
    {
      hide First;
      var i := LookupIndex(k);
      r := if i == -1 then Missing else Found(data[i]);
    }

    /** list_remove */
    method Remove(k: int)
      requires Valid()
      modifies this`len, key, data
      ensures Valid()
      ensures old(k in Keys()) ==>
        Keys() == SwapOut(old(Keys()), old(First(Keys(), k))) && Data() == SwapOut(old(Data()), old(First(Keys(), k)))
      ensures old(k !in Keys()) ==> Keys() == old(Keys()) && Data() == old(Data())
    {
      hide First;
      var i := LookupIndex(k);
      ghost var keys, vals := key[..len], data[..len];
      if i != -1 {
        len := len - 1;
        key[i] := key[len];
        data[i] := data[len];
        assert key[..len] == SwapOut(keys, i);
        assert data[..len] == SwapOut(vals, i);
      }
    }

    /** list_resize */
    method Resize()
      requires Valid()
      modifies this`key, this`data, this`capacity
      ensures Valid() && fresh(key) && fresh(data) && len < capacity && Keys() == old(Keys()) && Data() == old(Data())
    {
      var newCap := capacity * 2;
      ghost var keys, vals := key[..len], data[..len];
      var k := new int[newCap];
      forall i | 0 <= i < len { k[i] := key[i]; }
      var d := new T[newCap];
      forall i | 0 <= i < len { d[i] := data[i]; }
      key, data, capacity := k, d, newCap;
      assert key[..len] == keys && data[..len] == vals;
    }

    /** list_append */
    method Append(k: int, x: T)
      requires Valid()
      modifies this, key, data
      ensures Valid() && Keys() == old(Keys()) + [k] && Data() == old(Data()) + [x]
      ensures (key == old(key) || fresh(key)) && (data == old(data) || fresh(data))
    {
      if len == capacity { Resize(); }
      ghost var keys, vals := key[..len], data[..len];
      key[len] := k;
      data[len] := x;
      len := len + 1;
      assert key[..len] == keys + [k] && data[..len] == vals + [x];
    }
  }
}
