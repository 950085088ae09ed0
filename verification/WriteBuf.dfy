/** The write buffer of the prover server: a queue of messages and partial writes (writebuf.c). */
module WriteBuffer {
  import opened Framing
  import opened RingQueue
  import opened RadixText

  /** t_writebuf; data is None for the C null pointer. */
  class WriteBuf {
    var data: Option<string>
    var len: nat
    var pointer: nat
    var isWriting: bool
    const writequeue: Queue<string>

    ghost predicate Valid()
      reads this, writequeue
    {
      && writequeue.Valid()
      && (data.None? ==> len == 0 && pointer == 0 && writequeue.len == 0)
      && (data.Some? ==> len == |data.value| && pointer <= len)
    }

    /** What is still to be written: the rest of the current message, then the queued ones. */
    ghost function Pending(): (p: seq<string>)
      requires Valid()
      reads this, writequeue, writequeue.data
    {
      if data.None? then [] else [data.value[pointer..]] + writequeue.Contents()
    }

    /** init_writebuf */
    constructor (capacity: nat)
      requires capacity > 0
      ensures Valid() && Pending() == [] && !isWriting && fresh(writequeue) && fresh(writequeue.data)
    {
      data, len, pointer, isWriting := None, 0, 0, false;
      writequeue := new Queue<string>(capacity);
    }

    /** can_write */
    predicate CanWrite()
      reads this
    {
      !isWriting
    }

    /** has_write_data */
    predicate HasWriteData()
      requires Valid()
      reads this, writequeue, writequeue.data
      ensures HasWriteData() <==> Pending() != []
    {
      data.Some?
    }

    /** prepare_write: the bytes to write next. */
    method PrepareWrite() returns (bytes: string)
      requires Valid() && CanWrite() && HasWriteData()
      modifies this`isWriting
      ensures Valid() && isWriting && Pending() == old(Pending()) && bytes == Pending()[0]
    {
      isWriting := true;
      bytes := data.value[pointer..len];
      assert bytes == data.value[pointer..];
    }

    /** have_written: size bytes of the current message went out. */
    method HaveWritten(size: nat)
      requires Valid() && isWriting && HasWriteData() && size <= |Pending()[0]|
      modifies this, writequeue
      ensures Valid() && !isWriting && writequeue.data == old(writequeue.data)
      ensures Pending() == AfterWrite(old(Pending()), size)
    {
      hide Ring;
      isWriting := false;
      if pointer + size < len {
        assert data.value[pointer + size..] == data.value[pointer..][size..];
        pointer := pointer + size;
      } else {
        pointer := 0;
        if !writequeue.IsEmpty() {
          var next := writequeue.Pop();
          data := Some(next);
          len := |next|;
          assert next[0..] == next;
        } else {
          data := None;
          len := 0;
        }
      }
    }

    /** push_write_data */
    method PushWriteData(msg: string)
      requires Valid()
      modifies this, writequeue, writequeue.data
      ensures Valid() && isWriting == old(isWriting) && Pending() == old(Pending()) + [msg]
      ensures writequeue.data == old(writequeue.data) || fresh(writequeue.data)
    {
      hide Ring;
      if HasWriteData() {
        writequeue.Push(msg);
      } else {
        data, pointer, len := Some(msg), 0, |msg|;
        assert writequeue.IsEmpty() && msg[0..] == msg;
      }
    }
  }

  /** The pending messages after a write of size bytes of the first one. */
  function AfterWrite(p: seq<string>, size: nat): (r: seq<string>)
    requires p != [] && size <= |p[0]|
  {
    if size < |p[0]| then [p[0][size..]] + p[1..] else p[1..]
  }

  lemma FlattenCons(x: string, p: seq<string>)
    ensures Flatten([x] + p) == x + Flatten(p)
  {
    FlattenConcat([x], p);
    FlattenOne(x);
  }

  /** A write takes the bytes off the front of the stream. */
  lemma WriteConserves(p: seq<string>, size: nat)
    requires p != [] && size <= |p[0]|
    ensures p[0][..size] + Flatten(AfterWrite(p, size)) == Flatten(p)
  {
    hide Flatten;
    assert p == [p[0]] + p[1..];
    FlattenCons(p[0], p[1..]);
    if size < |p[0]| { FlattenCons(p[0][size..], p[1..]); }
    assert p[0][..size] + p[0][size..] == p[0];
  }

  datatype Operation = Push(msg: string) | Write(size: nat)

  /** Messages pushed and bytes written over a run of operations; a write of more than is there writes it all. */
  ghost function Outcome(ops: seq<Operation>): (r: (seq<string>, string, seq<string>))
  {
    if ops == [] then ([], "", []) else
      var (pushed, written, pending) := Outcome(ops[..|ops| - 1]);
      match ops[|ops| - 1]
      case Push(msg) => (pushed + [msg], written, pending + [msg])
      case Write(size) =>
        if pending == [] then (pushed, written, pending) else
          var n := if size <= |pending[0]| then size else |pending[0]|;
          (pushed, written + pending[0][..n], AfterWrite(pending, n))
  }

  /** Over every run, the bytes written and those pending are the pushed messages in order. */
  lemma {:induction false} NothingLost(ops: seq<Operation>)
    ensures var (pushed, written, pending) := Outcome(ops);
            written + Flatten(pending) == Flatten(pushed)
    decreases |ops|
  {
    if ops != [] {
      hide Flatten;
      NothingLost(ops[..|ops| - 1]);
      var (pushed, written, pending) := Outcome(ops[..|ops| - 1]);
      match ops[|ops| - 1]
      case Push(msg) =>
        FlattenConcat(pushed, [msg]);
        FlattenConcat(pending, [msg]);
      case Write(size) =>
        if pending != [] {
          WriteConserves(pending, if size <= |pending[0]| then size else |pending[0]|);
        }
    }
  }
}
