/** Cutting character streams at a separator, and the read buffer of the prover server (readbuf.c). */
module Framing {

  /** The fields of s between separators; there is always a last one, perhaps empty. */
  ghost function Split(s: string, sep: char): (f: seq<string>)
    ensures |f| >= 1
  {
    if s == "" then [""] else
      var n := |s| - 1;
      var f, c := Split(s[..n], sep), s[n];
      if c == sep then f + [""] else f[..|f| - 1] + [f[|f| - 1] + [c]]
  }

  ghost function Join(f: seq<string>, sep: char): (s: string)
    requires |f| >= 1
  {
    if |f| == 1 then f[0] else Join(f[..|f| - 1], sep) + [sep] + f[|f| - 1]
  }

  lemma SplitSnoc(s: string, c: char, sep: char)
    ensures var f := Split(s, sep);
            Split(s + [c], sep) == if c == sep then f + [""] else f[..|f| - 1] + [f[|f| - 1] + [c]]
  {
    assert (s + [c])[..|s|] == s;
  }

  /** Splitting what follows only touches the last field. */
  lemma {:induction false} SplitConcat(a: string, b: string, sep: char)
    ensures var f := Split(a, sep);
            Split(a + b, sep) == f[..|f| - 1] + Split(f[|f| - 1] + b, sep)
    decreases |b|
  {
    hide Split;
    var f := Split(a, sep);
    var m := |f| - 1;
    if b == "" {
      assert a + b == a && f[m] + b == f[m];
      SplitNone(f[m], sep) by { LastPlain(a, sep); }
      assert f == f[..m] + [f[m]];
    } else {
      var n := |b| - 1;
      SplitConcat(a, b[..n], sep);
      var g := Split(f[m] + b[..n], sep);
      assert a + b == (a + b[..n]) + [b[n]] && f[m] + b == (f[m] + b[..n]) + [b[n]];
      SplitSnoc(a + b[..n], b[n], sep);
      SplitSnoc(f[m] + b[..n], b[n], sep);
      assert (f[..m] + g)[..m + |g| - 1] == f[..m] + g[..|g| - 1];
    }
  }

  /** The last field has no separator in it. */
  lemma {:induction false} LastPlain(s: string, sep: char)
    ensures var f := Split(s, sep); sep !in f[|f| - 1]
    decreases |s|
  {
    if s != "" { LastPlain(s[..|s| - 1], sep); }
  }

  lemma {:induction false} SplitNone(s: string, sep: char)
    requires sep !in s
    ensures Split(s, sep) == [s]
    decreases |s|
  {
    if s != "" {
      var n := |s| - 1;
      SplitNone(s[..n], sep);
      assert s[..n] + [s[n]] == s;
    }
  }

  /** Everything before a separator is a field of its own. */
  lemma SplitFirst(u: string, rest: string, sep: char)
    requires sep !in u
    ensures Split(u + [sep] + rest, sep) == [u] + Split(rest, sep)
  {
    hide Split;
    SplitNone(u, sep);
    SplitSnoc(u, sep, sep);
    SplitConcat(u + [sep], rest, sep);
    assert [u] + [""] == [u, ""] && [u, ""][..1] == [u] && "" + rest == rest;
  }

  lemma {:induction false} JoinSplit(s: string, sep: char)
    ensures Join(Split(s, sep), sep) == s
    decreases |s|
  {
    if s != "" {
      var n := |s| - 1;
      var f := Split(s[..n], sep);
      JoinSplit(s[..n], sep);
      if s[n] == sep {
        assert (f + [""])[..|f|] == f;
      } else {
        JoinGrow(f, s[n], sep);
      }
      assert s == s[..n] + [s[n]];
    }
  }

  lemma JoinGrow(f: seq<string>, c: char, sep: char)
    requires |f| >= 1
    ensures Join(f[..|f| - 1] + [f[|f| - 1] + [c]], sep) == Join(f, sep) + [c]
  {
    var m := |f| - 1;
    var g := f[..m] + [f[m] + [c]];
    assert g[..m] == f[..m];
  }

  /** Splitting undoes joining fields without separators. */
  lemma {:induction false} SplitJoin(f: seq<string>, sep: char)
    requires |f| >= 1 && forall k :: 0 <= k < |f| ==> sep !in f[k]
    ensures Split(Join(f, sep), sep) == f
    decreases |f|
  {
    hide Split;
    if |f| == 1 {
      SplitNone(f[0], sep);
    } else {
      var m := |f| - 1;
      var s := Join(f[..m], sep);
      SplitJoin(f[..m], sep);
      SplitSnoc(s, sep, sep);
      SplitConcat(s + [sep], f[m], sep);
      var g := f[..m] + [""];
      assert g[..m] == f[..m] && g[m] == "" && "" + f[m] == f[m];
      SplitNone(f[m], sep);
      assert f[..m] + [f[m]] == f;
    }
  }

  /** The newline-terminated lines of a stream, and what follows the last newline. */
  ghost function Lines(s: string): (ls: seq<string>)
  {
    var f := Split(s, '\n'); f[..|f| - 1]
  }

  ghost function Tail(s: string): (t: string)
  {
    var f := Split(s, '\n'); f[|f| - 1]
  }

  /** More bytes: the old lines stay, the new ones come from the tail. */
  lemma LinesConcat(a: string, b: string)
    ensures Lines(a + b) == Lines(a) + Lines(Tail(a) + b)
    ensures Tail(a + b) == Tail(Tail(a) + b)
  {
    SplitConcat(a, b, '\n');
  }

  ghost function Flatten(chunks: seq<string>): (s: string)
  {
    if chunks == [] then "" else Flatten(chunks[..|chunks| - 1]) + chunks[|chunks| - 1]
  }

  lemma {:induction false} FlattenConcat(a: seq<string>, b: seq<string>)
    ensures Flatten(a + b) == Flatten(a) + Flatten(b)
    decreases |b|
  {
    if b == [] {
      assert a + b == a;
    } else {
      var n := |b| - 1;
      assert (a + b)[..|a| + n] == a + b[..n];
      FlattenConcat(a, b[..n]);
    }
  }

  lemma FlattenOne(x: string)
    ensures Flatten([x]) == x
  {
    assert [x][..0] == [];
  }

  /** The lines handed on while reads arrive in chunks, each read handled before the next. */
  ghost function ChunkedLines(chunks: seq<string>): (r: (seq<string>, string))
  {
    if chunks == [] then ([], "") else
      var n := |chunks| - 1;
      var (lines, buffer) := ChunkedLines(chunks[..n]);
      (lines + Lines(buffer + chunks[n]), Tail(buffer + chunks[n]))
  }

  /** However the stream is cut into reads, the lines and the tail are those of the whole stream. */
  lemma {:induction false} ChunkingIrrelevant(chunks: seq<string>)
    ensures ChunkedLines(chunks) == (Lines(Flatten(chunks)), Tail(Flatten(chunks)))
    decreases |chunks|
  {
    hide Split;
    if chunks == [] {
      SplitNone("", '\n');
    } else {
      var n := |chunks| - 1;
      ChunkingIrrelevant(chunks[..n]);
      LinesConcat(Flatten(chunks[..n]), chunks[n]);
    }
  }

  /** t_readbuf */
  class ReadBuf {
    var data: array<char>
    var len: nat
    var capacity: nat

    ghost predicate Valid()
      reads this
    {
      capacity == data.Length > 0 && len <= capacity
    }

    ghost function Contents(): (s: string)
      requires Valid()
      reads this, data
    {
      data[..len]
    }

    /** init_readbuf */
    constructor (n: nat)
      requires n > 0
      ensures Valid() && Contents() == "" && fresh(data)
    {
      capacity, len, data := n, 0, new char[n];
    }

    /** prepare_read: room for size more bytes from data + len on. */
    method PrepareRead(size: nat)
      requires Valid()
      modifies this`data, this`capacity
      ensures Valid() && len + size <= capacity && Contents() == old(Contents())
      ensures data == old(data) || fresh(data)
    {
      if len + size > capacity {
        var newCap := (capacity + size) * 2;
        var d := new char[newCap];
        forall k | 0 <= k < capacity { d[k] := data[k]; }
        ghost var s := data[..len];
        data, capacity := d, newCap;
        assert data[..len] == s;
      }
    }

    /** The read itself writes the bytes behind the contents; have_read accounts for them. */
    method HaveRead(bytes: string)
      requires Valid() && len + |bytes| <= capacity
      modifies this`len, data
      ensures Valid() && Contents() == old(Contents()) + bytes
    {
      ghost var s := data[..len];
      forall k | 0 <= k < |bytes| { data[len + k] := bytes[k]; }
      len := len + |bytes|;
      assert data[..len] == s + bytes;
    }

    /** have_taken: the rest moves to the front. */
    method HaveTaken(size: nat)
      requires Valid() && size <= len
      modifies this`len, data
      ensures Valid() && Contents() == old(Contents())[size..]
    {
      ghost var s := data[..len];
      forall k | 0 <= k < len - size { data[k] := data[k + size]; }
      len := len - size;
      assert data[..len] == s[size..];
    }

    /** The framing part of handle_msg: hand on every complete line, keep the rest. */
    method TakeLines() returns (lines: seq<string>)
      requires Valid()
      modifies this`len, data
      ensures Valid() && lines == Lines(old(Contents())) && Contents() == Tail(old(Contents()))
    {
      hide Split;
      ghost var s := Contents();
      var cur, start := 0, 0;
      lines := [];
      NothingSplit(s);
      while cur < len
        invariant Valid() && Contents() == s && start <= cur <= len && SplitAt(s, start, cur, lines)
      {
        OneMoreChar(s, start, cur, lines);
        if data[cur] == '\n' {
          ghost var line := s[start..cur];
          assert data[start..cur] == line;
          lines := lines + [data[start..cur]];
          start := cur + 1;
        }
        cur := cur + 1;
      }
      SplitAll(s, start, lines);
      if start > 0 {
        HaveTaken(start);
      } else {
        assert s[0..] == s;
      }
    }
  }

  /** The first cur characters: complete lines, then the one that starts at start. */
  ghost predicate SplitAt(s: string, start: nat, cur: nat, lines: seq<string>)
  {
    start <= cur <= |s| && Split(s[..cur], '\n') == lines + [s[start..cur]]
  }

  lemma NothingSplit(s: string)
    ensures SplitAt(s, 0, 0, [])
  {
    SplitNone("", '\n');
    assert s[..0] == "" && s[0..0] == "";
  }

  lemma OneMoreChar(s: string, start: nat, cur: nat, lines: seq<string>)
    requires SplitAt(s, start, cur, lines) && cur < |s|
    ensures if s[cur] == '\n' then SplitAt(s, cur + 1, cur + 1, lines + [s[start..cur]])
            else SplitAt(s, start, cur + 1, lines)
  {
    hide Split;
    var f := lines + [s[start..cur]];
    assert f[..|f| - 1] == lines && s[..cur + 1] == s[..cur] + [s[cur]];
    SplitSnoc(s[..cur], s[cur], '\n');
    assert s[cur + 1..cur + 1] == "" && s[start..cur + 1] == s[start..cur] + [s[cur]];
  }

  lemma SplitAll(s: string, start: nat, lines: seq<string>)
    requires SplitAt(s, start, |s|, lines)
    ensures Lines(s) == lines && Tail(s) == s[start..]
  {
    hide Split;
    assert s[..|s|] == s && s[start..|s|] == s[start..];
  }
}
