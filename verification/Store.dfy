/** The globals of the prover server in memory: the queue, the process table, the client table and its buffers. */
module Stores {
  import opened RadixText
  import opened Framing
  import opened Requests
  import opened RingQueue
  import opened KeyTable
  import opened WriteBuffer
  import opened ServerState

  const READ_ONCE: nat := 1024

  /** Any number above low, other than a and b, that is not a key of the table. */
  method AnyNewKey<T(0)>(t: Table<T>, low: int, a: int, b: int) returns (n: int)
    requires t.Valid()
    ensures n > low && n != a && n != b && n !in t.Keys()
  {
    n := *;
    var r := t.LookupIndex(n);
    if n <= low || n == a || n == b || r != -1 {
      n := Max(Max(low, a), b) + 1;
      for i := 0 to t.len
        invariant n > Max(Max(low, a), b) && forall k :: 0 <= k < i ==> t.key[k] < n
      {
        if t.key[i] >= n { n := t.key[i] + 1; }
      }
    }
  }

  /** The request queue and the process table, with the values they stand for. */
  class JobStore {
    const queue: Queue<Job>
    const processes: Table<Job>
    ghost var queued: seq<Job>
    ghost var running: map<int, Job>

    ghost var repr: set<object>

    ghost predicate Valid()
      reads this, repr
      ensures Valid() ==> this in repr
    {
      && this in repr && queue in repr && processes in repr
      && repr == {this, queue, queue.data, processes, processes.key, processes.data}
      && queue.Valid() && processes.Valid() && queue.data != processes.data
      && queued == queue.Contents() && Lists(processes.Keys(), processes.Data(), running)
    }

    /** init_request_queue and init_process_list */
    constructor (parallel: nat)
      requires parallel > 0
      ensures Valid() && fresh(repr) && queued == [] && running == map[]
    {
      queue := new Queue<Job>(100);
      processes := new Table<Job>(parallel);
      queued, running := [], map[];
      new;
      repr := {this, queue, queue.data, processes, processes.key, processes.data};
    }

    /** queue_push */
    method Enqueue(job: Job)
      requires Valid()
      modifies repr
      ensures Valid() && fresh(repr - old(repr)) && running == old(running) && queued == old(queued) + [job]
    {
      hide Lists, Ring;
      queue.Push(job);
      queued := queued + [job];
      repr := repr - {old(queue.data)} + {queue.data};
    }

    /** queue_pop */
    method Dequeue() returns (job: Job)
      requires Valid() && queued != []
      modifies repr
      ensures Valid() && repr == old(repr) && running == old(running) && old(queued) == [job] + queued
    {
      hide Lists, Ring;
      job := queue.Pop();
      queued := queued[1..];
    }

    /** remove_from_queue */
    method RemoveId(id: string)
      requires Valid()
      modifies repr
      ensures Valid() && fresh(repr - old(repr)) && running == old(running) && queued == Without(old(queued), id)
    {
      hide Lists, Ring, Without;
      RemoveFromQueue(queue, id);
      queued := Without(queued, id);
      repr := repr - {old(queue.data)} + {queue.data};
    }

    method HasQueued() returns (b: bool)
      requires Valid()
      ensures b <==> queued != []
    {
      b := !queue.IsEmpty();
    }

    /** fork, in the parent: a pid that no unreaped child has. */
    method Fork() returns (pid: int)
      requires Valid()
      ensures pid > 0 && pid !in running
    {
      hide Ring, First;
      pid := AnyNewKey(processes, 0, 0, 0);
      ListsFind(processes.Keys(), processes.Data(), running, pid);
    }

    /** wait3 with WNOHANG: some exited child that has not been reaped, or none. */
    method Exited() returns (r: Option<int>)
      requires Valid()
      ensures r.Some? ==> r.value in running
    {
      hide Ring;
      var i: int := *;
      r := None;
      if 0 <= i < processes.len {
        r := Some(processes.key[i]);
        assert processes.Keys()[i] == processes.key[i];
      }
    }

    /** list_length on the process table */
    method Count() returns (n: nat)
      requires Valid()
      ensures n == |running|
    {
      hide Ring;
      ListsCount(processes.Keys(), processes.Data(), running);
      n := processes.Length();
    }

    /** list_append on the process table; a new process has a pid that no other one has. */
    method Add(pid: int, job: Job)
      requires Valid() && pid !in running
      modifies repr
      ensures Valid() && fresh(repr - old(repr)) && queued == old(queued) && running == old(running)[pid := job]
    {
      hide Lists, Ring;
      ListsAppend(processes.Keys(), processes.Data(), running, pid, job);
      processes.Append(pid, job);
      running := running[pid := job];
      repr := repr - {old(processes.key), old(processes.data)} + {processes.key, processes.data};
    }

    /** list_lookup and list_remove on the process table */
    method Take(pid: int) returns (job: Job)
      requires Valid() && pid in running
      modifies repr
      ensures Valid() && repr == old(repr) && queued == old(queued)
      ensures job == old(running)[pid] && running == old(running) - {pid}
    {
      hide Lists, Ring, First;
      ghost var i := First(processes.Keys(), pid);
      ListsFind(processes.Keys(), processes.Data(), running, pid);
      ListsSwapOut(processes.Keys(), processes.Data(), running, i);
      var r := processes.Find(pid);
      job := r.value;
      processes.Remove(pid);
      running := running - {pid};
    }
  }

  /** t_client; the connection number only tells connections apart. */
  class Connection {
    const fd: int
    const conn: nat
    const readbuf: ReadBuf
    const writebuf: WriteBuf

    /** The objects that belong to this client alone. */
    ghost function Foot(): (f: set<object>)
      reads readbuf, writebuf.writequeue
    {
      {readbuf, readbuf.data, writebuf, writebuf.writequeue, writebuf.writequeue.data}
    }

    /** The buffers hold what c says. */
    ghost predicate Holds(c: Client)
      reads Foot()
    {
      && readbuf.Valid() && writebuf.Valid()
      && c == Client(conn, readbuf.Contents(), writebuf.Pending(), writebuf.isWriting)
    }

    /** The allocations of server_accept_client. */
    constructor (fd0: int, conn0: nat, parallel: nat)
      requires parallel > 0
      ensures fd == fd0 && conn == conn0 && fresh(Foot()) && Holds(Client(conn0, "", [], false))
    {
      fd, conn := fd0, conn0;
      readbuf := new ReadBuf(READ_ONCE);
      writebuf := new WriteBuf(parallel);
    }
  }

  /** The buffers of a client are among its objects, and hold its view. */
  ghost predicate Owns(c: Connection, objects: set<object>, x: Client)
    reads objects
  {
    && c.readbuf in objects && c.writebuf in objects && c.writebuf.writequeue in objects
    && c.Foot() <= objects && c.Holds(x)
  }

  /** push_write_data */
  method PushTo(c: Connection, text: string, ghost objects: set<object>,
                ghost x: Client) returns (ghost more: set<object>)
    requires Owns(c, objects, x)
    modifies objects
    ensures fresh(more) && Owns(c, objects + more, x.(pending := x.pending + [text]))
  {
    hide Ring;
    c.writebuf.PushWriteData(text);
    more := {c.writebuf.writequeue.data} - objects;
  }

  /** prepare_write */
  method PrepareOn(c: Connection, ghost objects: set<object>, ghost x: Client) returns (bytes: string)
    requires Owns(c, objects, x) && !x.writing && x.pending != []
    modifies objects
    ensures bytes == x.pending[0] && Owns(c, objects, x.(writing := true))
  {
    hide Ring;
    bytes := c.writebuf.PrepareWrite();
  }

  /** have_written */
  method WrittenOn(c: Connection, size: nat, ghost objects: set<object>, ghost x: Client)
    requires Owns(c, objects, x) && x.writing && x.pending != [] && size <= |x.pending[0]|
    modifies objects
    ensures Owns(c, objects, x.(writing := false, pending := AfterWrite(x.pending, size)))
  {
    hide Ring, AfterWrite;
    c.writebuf.HaveWritten(size);
  }

  /** prepare_read, the read itself, have_read */
  method ReceiveOn(c: Connection, bytes: string, ghost objects: set<object>,
                   ghost x: Client) returns (ghost more: set<object>)
    requires Owns(c, objects, x)
    modifies objects
    ensures fresh(more) && Owns(c, objects + more, x.(readbuf := x.readbuf + bytes))
  {
    hide Ring;
    c.readbuf.PrepareRead(if |bytes| > READ_ONCE then |bytes| else READ_ONCE);
    c.readbuf.HaveRead(bytes);
    more := {c.readbuf.data} - objects;
  }

  /** The lines in the read buffer, and have_taken. */
  method TakeOn(c: Connection, ghost objects: set<object>, ghost x: Client) returns (lines: seq<string>)
    requires Owns(c, objects, x)
    modifies objects
    ensures lines == Lines(x.readbuf) && Owns(c, objects, x.(readbuf := Tail(x.readbuf)))
  {
    hide Ring, Lines, Tail;
    lines := c.readbuf.TakeLines();
  }

  /** Objects of different clients are different. */
  ghost predicate Disjoint(foot: map<int, set<object>>)
  {
    forall f, g :: f in foot && g in foot && f != g ==> foot[f] !! foot[g]
  }

  lemma DisjointFrom(foot: map<int, set<object>>, fd: int)
    requires Disjoint(foot) && fd in foot
    ensures forall f :: f in foot && f != fd ==> foot[f] !! foot[fd]
  {
  }

  lemma DisjointMore(foot: map<int, set<object>>, fd: int, more: set<object>)
    requires Disjoint(foot) && fd in foot && forall f :: f in foot ==> foot[f] !! more
    ensures Disjoint(foot[fd := foot[fd] + more])
  {
  }

  /** The client table and the buffers of the clients in it. */
  class ClientStore {
    const table: Table<Connection?>
    ghost var conns: map<int, Connection?>
    ghost var view: map<int, Client>
    /** The objects of each client, and all objects. */
    ghost var foot: map<int, set<object>>
    ghost var repr: set<object>

    /** The table lists the clients. */
    ghost predicate Listed()
      reads this`conns, table, table.key, table.data
    {
      table.Valid() && Lists(table.Keys(), table.Data(), conns)
    }

    /** The clients own their buffers, which hold their views, except those of some clients. */
    ghost predicate Buffered(open: set<int>)
      reads this, table, repr
    {
      && view.Keys == conns.Keys == foot.Keys && Disjoint(foot)
      && (forall f :: f in conns ==> conns[f] != null && foot[f] <= repr)
      && (forall f :: f in conns && f !in open ==> Owns(conns[f], foot[f], view[f]))
      && (forall f :: f in foot ==> foot[f] !! {this, table, table.key, table.data})
    }

    ghost predicate Valid()
      reads this, repr
      ensures Valid() ==> this in repr
    {
      && this in repr && table in repr && table.key in repr && table.data in repr
      && Listed() && Buffered({})
    }

    constructor (parallel: nat)
      requires parallel > 0
      ensures Valid() && fresh(repr) && view == map[]
    {
      table := new Table<Connection?>(parallel);
      conns, view, foot := map[], map[], map[];
      new;
      repr := {this, table, table.key, table.data};
    }

    /** list_lookup on the client table, for a client that is there */
    method Get(fd: int) returns (c: Connection)
      requires Valid() && fd in view
      ensures fd in conns && c == conns[fd]
    {
      hide First;
      ListsFind(table.Keys(), table.Data(), conns, fd);
      hide Lists, Owns, Disjoint;
      var r := table.Find(fd);
      c := r.value;
    }

    /** The bookkeeping after a change to the buffers of fd. */
    ghost method Renew(fd: int, x: Client, more: set<object>)
      requires {this, table, table.key, table.data} <= repr && Listed() && Buffered({fd}) && fd in conns
               && Owns(conns[fd], foot[fd] + more, x) && more !! repr
      modifies this`view, this`foot, this`repr
      ensures Valid() && view == old(view)[fd := x] && repr == old(repr) + more
    {
      hide ClientStore.Listed, Owns, Disjoint;
      DisjointMore(foot, fd, more);
      view := view[fd := x];
      foot := foot[fd := foot[fd] + more];
      repr := repr + more;
    }

    /** The bookkeeping for a new client. */
    ghost method Join(fd: int, c: Connection, x: Client)
      requires Buffered({}) && fd !in conns && Owns(c, c.Foot(), x)
      requires c.Foot() !! repr && c.Foot() !! {this, table, table.key, table.data}
      modifies this`conns, this`view, this`foot, this`repr
      ensures Buffered({}) && conns == old(conns)[fd := c] && view == old(view)[fd := x]
      ensures repr == old(repr) + c.Foot() + {table.key, table.data}
    {
      hide Owns, Disjoint;
      DisjointNew(foot, fd, c.Foot());
      conns, view, foot := conns[fd := c], view[fd := x], foot[fd := c.Foot()];
      repr := repr + c.Foot() + {table.key, table.data};
    }

    /** push_write_data on a client's buffer */
    method Push(fd: int, text: string)
      requires Valid() && fd in view
      modifies repr
      ensures Valid() && fresh(repr - old(repr))
      ensures view == old(view)[fd := old(view)[fd].(pending := old(view)[fd].pending + [text])]
    {
      hide Lists, Owns, Disjoint;
      var c := Get(fd);
      DisjointFrom(foot, fd);
      ghost var more := PushTo(c, text, foot[fd], view[fd]);
      Renew(fd, view[fd].(pending := view[fd].pending + [text]), more);
    }

    /** prepare_write: the bytes to write next. */
    method Prepare(fd: int) returns (bytes: string)
      requires Valid() && fd in view && !view[fd].writing && view[fd].pending != []
      modifies repr
      ensures Valid() && repr == old(repr) && bytes == old(view)[fd].pending[0]
      ensures view == old(view)[fd := old(view)[fd].(writing := true)]
    {
      hide Lists, Owns, Disjoint;
      var c := Get(fd);
      DisjointFrom(foot, fd);
      bytes := PrepareOn(c, foot[fd], view[fd]);
      assert foot[fd] + {} == foot[fd];
      Renew(fd, view[fd].(writing := true), {});
    }

    /** have_written: size bytes went out. */
    method Written(fd: int, size: nat)
      requires Valid() && fd in view && view[fd].writing && view[fd].pending != [] && size <= |view[fd].pending[0]|
      modifies repr
      ensures Valid() && repr == old(repr)
      ensures var c := old(view)[fd];
              view == old(view)[fd := c.(writing := false, pending := AfterWrite(c.pending, size))]
    {
      hide Lists, Owns, Disjoint, AfterWrite;
      var c := Get(fd);
      DisjointFrom(foot, fd);
      WrittenOn(c, size, foot[fd], view[fd]);
      assert foot[fd] + {} == foot[fd];
      Renew(fd, view[fd].(writing := false, pending := AfterWrite(view[fd].pending, size)), {});
    }

    /** can_write and has_write_data */
    method Status(fd: int) returns (writing: bool, data: bool)
      requires Valid() && fd in view
      ensures writing == view[fd].writing && (data <==> view[fd].pending != [])
    {
      hide Lists, Disjoint;
      var c := Get(fd);
      writing := !c.writebuf.CanWrite();
      data := c.writebuf.HasWriteData();
    }

    /** The bytes of a read arrive in the read buffer. */
    method Received(fd: int, bytes: string)
      requires Valid() && fd in view
      modifies repr
      ensures Valid() && fresh(repr - old(repr))
      ensures view == old(view)[fd := old(view)[fd].(readbuf := old(view)[fd].readbuf + bytes)]
    {
      hide Lists, Owns, Disjoint;
      var c := Get(fd);
      DisjointFrom(foot, fd);
      ghost var more := ReceiveOn(c, bytes, foot[fd], view[fd]);
      Renew(fd, view[fd].(readbuf := view[fd].readbuf + bytes), more);
    }

    /** The complete lines leave the read buffer. */
    method TakeLines(fd: int) returns (lines: seq<string>)
      requires Valid() && fd in view
      modifies repr
      ensures Valid() && repr == old(repr) && lines == Lines(old(view)[fd].readbuf)
      ensures view == old(view)[fd := old(view)[fd].(readbuf := Tail(old(view)[fd].readbuf))]
    {
      hide Lists, Owns, Disjoint, Lines, Tail;
      var c := Get(fd);
      DisjointFrom(foot, fd);
      lines := TakeOn(c, foot[fd], view[fd]);
      assert foot[fd] + {} == foot[fd];
      Renew(fd, view[fd].(readbuf := Tail(view[fd].readbuf)), {});
    }

    /** Whether list_lookup finds a client */
    method Has(fd: int) returns (b: bool)
      requires Valid()
      ensures b <==> fd in view
    {
      hide First, Owns, Disjoint;
      ListsFind(table.Keys(), table.Data(), conns, fd);
      hide Lists;
      var r := table.Find(fd);
      b := r.Found?;
    }

    /** accept: a descriptor that is not open; a and b are those of the server itself. */
    method NewFd(a: int, b: int) returns (fd: int)
      requires Valid()
      ensures fd >= 0 && fd != a && fd != b && fd !in view
    {
      hide First, Owns, Disjoint;
      fd := AnyNewKey(table, -1, a, b);
      ListsFind(table.Keys(), table.Data(), conns, fd);
    }

    /** The bookkeeping for a client that is gone. */
    ghost method Leave(fd: int)
      requires Buffered({}) && fd in conns
      modifies this`conns, this`view, this`foot
      ensures Buffered({}) && conns == old(conns) - {fd} && view == old(view) - {fd}
    {
      hide Owns, Disjoint;
      DisjointLess(foot, fd);
      conns, view, foot := conns - {fd}, view - {fd}, foot - {fd};
    }

    /** server_accept_client: a new client with empty buffers */
    method Add(fd: int, conn: nat, parallel: nat)
      requires Valid() && fd !in view && parallel > 0
      modifies repr
      ensures Valid() && fresh(repr - old(repr)) && view == old(view)[fd := Client(conn, "", [], false)]
    {
      hide Lists, Owns, Disjoint;
      var c := NewConnection(fd, conn, parallel);
      ListsAppend(table.Keys(), table.Data(), conns, fd, c);
      table.Append(fd, c);
      Join(fd, c, Client(conn, "", [], false));
    }

    /** list_remove on the client table */
    method Remove(fd: int)
      requires Valid() && fd in view
      modifies repr
      ensures Valid() && repr == old(repr) && view == old(view) - {fd}
    {
      hide Lists, Owns, Disjoint, First;
      ListsFind(table.Keys(), table.Data(), conns, fd);
      ListsSwapOut(table.Keys(), table.Data(), conns, First(table.Keys(), fd));
      table.Remove(fd);
      Leave(fd);
    }

    /** list_is_empty on the client table */
    method IsEmpty() returns (b: bool)
      requires Valid()
      ensures b <==> view == map[]
    {
      hide Owns, Disjoint;
      ListsCount(table.Keys(), table.Data(), conns);
      hide Lists;
      var n := table.Length();
      b := n == 0;
      assert conns.Keys == view.Keys && |conns| == |view.Keys| == |view|;
    }
  }

  method NewConnection(fd: int, conn: nat, parallel: nat) returns (c: Connection)
    requires parallel > 0
    ensures fresh(c) && fresh(c.Foot()) && Owns(c, c.Foot(), Client(conn, "", [], false))
  {
    c := new Connection(fd, conn, parallel);
  }

  lemma DisjointNew(foot: map<int, set<object>>, fd: int, objects: set<object>)
    requires Disjoint(foot) && forall f :: f in foot ==> foot[f] !! objects
    ensures Disjoint(foot[fd := objects])
  {
  }

  lemma DisjointLess(foot: map<int, set<object>>, fd: int)
    requires Disjoint(foot)
    ensures Disjoint(foot - {fd})
  {
  }
}
