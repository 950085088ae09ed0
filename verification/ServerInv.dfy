/** What every reachable state of the prover server satisfies. */
module ServerInv {
  import opened Framing
  import opened Requests
  import opened WriteBuffer
  import opened ServerState

  ghost predicate InQueue(queue: seq<Job>, n: nat)
  {
    exists i :: 0 <= i < |queue| && queue[i].serial == n
  }

  ghost predicate InOrder(queue: seq<Job>)
  {
    forall i, j :: 0 <= i < j < |queue| ==> queue[i].serial < queue[j].serial
  }

  ghost predicate InTable(procs: map<int, Job>, n: nat)
  {
    exists p :: p in procs && procs[p].serial == n
  }

  /**
   Queue and table hold the requests whose status says so, each once, the queue in
   order of arrival; request m, if any, is between places.
   */
  ghost predicate Placed(procs: map<int, Job>, queue: seq<Job>, status: seq<Status>, m: int)
  {
    && (forall i :: 0 <= i < |queue| ==>
                      queue[i].serial < |status| && status[queue[i].serial] == Queued && queue[i].serial != m)
    && InOrder(queue)
    && (forall p :: p in procs ==> procs[p].serial < |status| && status[procs[p].serial] == Running)
    && (forall p, q :: p in procs && q in procs && p != q ==> procs[p].serial != procs[q].serial)
    && (forall n :: 0 <= n < |status| && n != m && status[n] == Queued ==> InQueue(queue, n))
    && (forall n :: 0 <= n < |status| && status[n] == Running ==> InTable(procs, n))
    && (m >= 0 ==> m < |status| && status[m] == Queued)
  }

  lemma PlacedTake(procs: map<int, Job>, queue: seq<Job>, status: seq<Status>)
    requires Placed(procs, queue, status, -1) && queue != []
    ensures Placed(procs, queue[1..], status, queue[0].serial)
  {
    var q := queue[1..];
    forall n | 0 <= n < |status| && n != queue[0].serial && status[n] == Queued ensures InQueue(q, n) {
      var i :| 0 <= i < |queue| && queue[i].serial == n;
      assert q[i - 1].serial == n;
    }
  }

  lemma PlacedNew(procs: map<int, Job>, queue: seq<Job>, status: seq<Status>)
    requires Placed(procs, queue, status, -1)
    ensures Placed(procs, queue, status + [Queued], |status|)
  {
  }

  lemma PlacedEnqueue(procs: map<int, Job>, queue: seq<Job>, status: seq<Status>, job: Job)
    requires Placed(procs, queue, status, job.serial) && job.serial == |status| - 1
    ensures Placed(procs, queue + [job], status, -1)
  {
    var q := queue + [job];
    forall n | 0 <= n < |status| && status[n] == Queued ensures InQueue(q, n) {
      if n == job.serial {
        assert q[|queue|].serial == n;
      } else {
        var i :| 0 <= i < |queue| && queue[i].serial == n;
        assert q[i].serial == n;
      }
    }
  }

  lemma PlacedStart(procs: map<int, Job>, queue: seq<Job>, status: seq<Status>, job: Job, pid: int)
    requires Placed(procs, queue, status, job.serial) && pid !in procs
    ensures Placed(procs[pid := job], queue, Mark(status, job.serial, Running), -1)
  {
    var t, st := procs[pid := job], Mark(status, job.serial, Running);
    forall n | 0 <= n < |st| && st[n] == Running ensures InTable(t, n) {
      if n == job.serial {
        assert t[pid].serial == n;
      } else {
        var p :| p in procs && procs[p].serial == n;
        assert t[p].serial == n;
      }
    }
  }

  lemma PlacedDrop(procs: map<int, Job>, queue: seq<Job>, status: seq<Status>, n: nat)
    requires Placed(procs, queue, status, n)
    ensures Placed(procs, queue, Mark(status, n, Dropped), -1)
  {
  }

  lemma PlacedReap(procs: map<int, Job>, queue: seq<Job>, status: seq<Status>, pid: int)
    requires Placed(procs, queue, status, -1) && pid in procs
    ensures Placed(procs - {pid}, queue, Mark(status, procs[pid].serial, Finished), -1)
  {
    var t := procs - {pid};
    forall n | 0 <= n < |status| && n != procs[pid].serial && status[n] == Running ensures InTable(t, n) {
      var p :| p in procs && procs[p].serial == n;
      assert t[p].serial == n;
    }
  }

  /** What filtering keeps. */
  lemma {:induction false} WithoutKeeps(queue: seq<Job>, id: string)
    ensures forall x :: x in Without(queue, id) <==> x in queue && x.req.id != id
    decreases |queue|
  {
    if queue != [] {
      var n := |queue| - 1;
      WithoutKeeps(queue[..n], id);
      assert queue == queue[..n] + [queue[n]];
    }
  }

  lemma {:induction false} WithoutInOrder(queue: seq<Job>, id: string)
    requires InOrder(queue)
    ensures InOrder(Without(queue, id))
    decreases |queue|
  {
    if queue != [] {
      var n := |queue| - 1;
      WithoutInOrder(queue[..n], id);
      WithoutKeeps(queue[..n], id);
      forall x | x in queue[..n] ensures x.serial < queue[n].serial { }
    }
  }

  lemma PlacedCancel(procs: map<int, Job>, queue: seq<Job>, status: seq<Status>, id: string)
    requires Placed(procs, queue, status, -1)
    ensures Placed(procs, Without(queue, id), Cancelled(queue, status, id), -1)
  {
    hide Without, Cancelled, QueuedAs;
    var q, st := Without(queue, id), Cancelled(queue, status, id);
    WithoutKeeps(queue, id);
    WithoutInOrder(queue, id);
    forall i | 0 <= i < |q| ensures q[i].serial < |status| && st[q[i].serial] == Queued {
      KeptQueued(queue, status, id, q[i]);
    }
    forall n | 0 <= n < |st| ensures st[n] == Queued ==> InQueue(q, n) {
      if st[n] == Queued { StillQueued(procs, queue, status, id, n); }
    }
    forall n | 0 <= n < |st| ensures st[n] == Running <==> status[n] == Running {
      StillRunning(procs, queue, status, id, n);
    }
  }

  lemma KeptQueued(queue: seq<Job>, status: seq<Status>, id: string, x: Job)
    requires x in queue && x.req.id != id && InOrder(queue)
    requires forall i :: 0 <= i < |queue| ==> queue[i].serial < |status| && status[queue[i].serial] == Queued
    ensures x.serial < |status| && Cancelled(queue, status, id)[x.serial] == Queued
  {
    var i :| 0 <= i < |queue| && queue[i] == x;
  }

  lemma StillQueued(procs: map<int, Job>, queue: seq<Job>, status: seq<Status>, id: string, n: nat)
    requires Placed(procs, queue, status, -1) && n < |status| && Cancelled(queue, status, id)[n] == Queued
    ensures InQueue(Without(queue, id), n)
  {
    hide Without;
    var q := Without(queue, id);
    WithoutKeeps(queue, id);
    var i :| 0 <= i < |queue| && queue[i].serial == n;
    assert queue[i] in q;
    var j :| 0 <= j < |q| && q[j] == queue[i];
  }

  lemma StillRunning(procs: map<int, Job>, queue: seq<Job>, status: seq<Status>, id: string, n: nat)
    requires Placed(procs, queue, status, -1) && n < |status|
    ensures Cancelled(queue, status, id)[n] == Running <==> status[n] == Running
  {
  }

  ghost function Count(log: seq<Sent>, kind: Kind, n: nat): (c: nat)
  {
    if log == [] then 0 else
      var last := log[|log| - 1];
      Count(log[..|log| - 1], kind, n) + if last.kind == kind && last.serial == n then 1 else 0
  }

  lemma CountSnoc(log: seq<Sent>, x: Sent, kind: Kind, n: nat)
    ensures Count(log + [x], kind, n) == Count(log, kind, n) + if x.kind == kind && x.serial == n then 1 else 0
  {
    assert (log + [x])[..|log|] == log;
  }

  ghost function Starts(status: seq<Status>, n: nat): (c: nat)
  {
    if n < |status| && (status[n] == Running || status[n] == Finished) then 1 else 0
  }

  ghost function Ends(status: seq<Status>, n: nat): (c: nat)
  {
    if n < |status| && status[n] == Finished then 1 else 0
  }

  /** One S for each started request and no other, at most one F, for a finished one, after the S. */
  ghost predicate Told(status: seq<Status>, log: seq<Sent>)
  {
    && (forall n: nat :: Count(log, Started, n) == Starts(status, n))
    && (forall n: nat :: Count(log, Ended, n) <= Ends(status, n))
    && (forall i :: 0 <= i < |log| && log[i].kind == Ended ==> Count(log[..i], Started, log[i].serial) == 1)
  }

  /** Message i is of this kind and about request n. */
  ghost predicate SentAt(log: seq<Sent>, kind: Kind, n: nat, i: int)
  {
    0 <= i < |log| && log[i].kind == kind && log[i].serial == n
  }

  lemma {:induction false} CountAt(log: seq<Sent>, kind: Kind, n: nat, i: int)
    requires SentAt(log, kind, n, i)
    ensures Count(log, kind, n) >= 1
    decreases |log|
  {
    if i < |log| - 1 { CountAt(log[..|log| - 1], kind, n, i); }
  }

  lemma {:induction false} CountTwo(log: seq<Sent>, kind: Kind, n: nat, i: int, j: int)
    requires SentAt(log, kind, n, i) && SentAt(log, kind, n, j) && i < j
    ensures Count(log, kind, n) >= 2
    decreases |log|
  {
    if j < |log| - 1 { CountTwo(log[..|log| - 1], kind, n, i, j); } else { CountAt(log[..j], kind, n, i); }
  }

  lemma {:induction false} CountFind(log: seq<Sent>, kind: Kind, n: nat) returns (i: int)
    requires Count(log, kind, n) >= 1
    ensures SentAt(log, kind, n, i)
    decreases |log|
  {
    i := |log| - 1;
    if !SentAt(log, kind, n, i) { i := CountFind(log[..i], kind, n); }
  }

  ghost predicate StartedBefore(log: seq<Sent>, n: nat, i: int)
  {
    exists j :: j < i && SentAt(log, Started, n, j)
  }

  /** One S for each started request and for no other; at most one F, for a finished request and after its S. */
  ghost predicate Messages(status: seq<Status>, log: seq<Sent>)
  {
    && (forall n: nat, kind, i, j :: SentAt(log, kind, n, i) && SentAt(log, kind, n, j) ==> i == j)
    && (forall n: nat :: WasStarted(status, n) <==> exists i :: SentAt(log, Started, n, i))
    && (forall n: nat, i :: SentAt(log, Ended, n, i) ==>
                            n < |status| && status[n] == Finished && StartedBefore(log, n, i))
  }

  ghost predicate WasStarted(status: seq<Status>, n: nat)
  {
    n < |status| && (status[n] == Running || status[n] == Finished)
  }

  /** Told, message by message. */
  lemma MessagesHold(status: seq<Status>, log: seq<Sent>)
    requires Told(status, log)
    ensures Messages(status, log)
  {
    hide Told, SentAt, StartedBefore, WasStarted;
    forall n: nat, kind, i, j | SentAt(log, kind, n, i) && SentAt(log, kind, n, j) ensures i == j {
      OneMessage(status, log, kind, n, i, j);
    }
    forall n: nat ensures WasStarted(status, n) <==> exists i :: SentAt(log, Started, n, i) {
      StartOf(status, log, n);
    }
    forall n: nat, i | SentAt(log, Ended, n, i)
      ensures n < |status| && status[n] == Finished && StartedBefore(log, n, i) {
      EndOf(status, log, n, i);
    }
  }

  lemma OneMessage(status: seq<Status>, log: seq<Sent>, kind: Kind, n: nat, i: int, j: int)
    requires Told(status, log) && SentAt(log, kind, n, i) && SentAt(log, kind, n, j)
    ensures i == j
  {
    hide Told, SentAt, Count;
    CountAtMost(status, log, kind, n);
    if i < j { CountTwo(log, kind, n, i, j); }
    if j < i { CountTwo(log, kind, n, j, i); }
  }

  lemma StartOf(status: seq<Status>, log: seq<Sent>, n: nat)
    requires Told(status, log)
    ensures WasStarted(status, n) <==> exists i :: SentAt(log, Started, n, i)
  {
    hide SentAt, Count;
    assert Count(log, Started, n) == Starts(status, n);
    if WasStarted(status, n) { var i := CountFind(log, Started, n); }
    if i :| SentAt(log, Started, n, i) { CountAt(log, Started, n, i); }
  }

  lemma EndOf(status: seq<Status>, log: seq<Sent>, n: nat, i: int)
    requires Told(status, log) && SentAt(log, Ended, n, i)
    ensures n < |status| && status[n] == Finished && StartedBefore(log, n, i)
  {
    hide Count;
    assert Count(log, Ended, n) <= Ends(status, n);
    CountAt(log, Ended, n, i);
    var j := CountFind(log[..i], Started, n);
    assert SentAt(log, Started, n, j);
  }

  lemma CountAtMost(status: seq<Status>, log: seq<Sent>, kind: Kind, n: nat)
    requires Told(status, log)
    ensures Count(log, kind, n) <= 1
  {
    hide Count;
  }

  lemma ToldSame(status: seq<Status>, status1: seq<Status>, log: seq<Sent>)
    requires Told(status, log)
    requires forall n: nat :: Starts(status1, n) == Starts(status, n) && Ends(status1, n) == Ends(status, n)
    ensures Told(status1, log)
  {
    hide Count, Starts, Ends;
  }

  lemma ToldStart(status: seq<Status>, log: seq<Sent>, x: Sent)
    requires Told(status, log) && x.kind == Started && x.serial < |status| && status[x.serial] == Queued
    ensures Told(Mark(status, x.serial, Running), log + [x])
  {
    hide Count;
    forall n: nat ensures Count(log + [x], Started, n) == Starts(Mark(status, x.serial, Running), n) {
      CountSnoc(log, x, Started, n);
    }
    forall n: nat ensures Count(log + [x], Ended, n) <= Ends(Mark(status, x.serial, Running), n) {
      CountSnoc(log, x, Ended, n);
    }
    OrderSnoc(status, log, x);
  }

  lemma OrderSnoc(status: seq<Status>, log: seq<Sent>, x: Sent)
    requires Told(status, log) && (x.kind == Ended ==> Starts(status, x.serial) == 1)
    ensures forall i :: 0 <= i < |log + [x]| && (log + [x])[i].kind == Ended ==>
                          Count((log + [x])[..i], Started, (log + [x])[i].serial) == 1
  {
    hide Count;
    var l := log + [x];
    forall i | 0 <= i < |l| && l[i].kind == Ended ensures Count(l[..i], Started, l[i].serial) == 1 {
      if i < |log| {
        assert l[..i] == log[..i];
      } else {
        assert l[..i] == log;
      }
    }
  }

  lemma ToldEnd(status: seq<Status>, log: seq<Sent>, n: nat)
    requires Told(status, log) && n < |status| && status[n] == Running
    ensures Told(Mark(status, n, Finished), log) && Count(log, Ended, n) == 0
  {
    hide Count;
    forall k: nat ensures Count(log, Started, k) == Starts(Mark(status, n, Finished), k) { }
    forall k: nat ensures Count(log, Ended, k) <= Ends(Mark(status, n, Finished), k) { }
  }

  lemma ToldEndMsg(status: seq<Status>, log: seq<Sent>, x: Sent)
    requires Told(status, log) && x.kind == Ended && x.serial < |status| && status[x.serial] == Running
    ensures Told(Mark(status, x.serial, Finished), log + [x])
  {
    hide Count;
    forall n: nat ensures Count(log + [x], Started, n) == Starts(Mark(status, x.serial, Finished), n) {
      CountSnoc(log, x, Started, n);
    }
    forall n: nat ensures Count(log + [x], Ended, n) <= Ends(Mark(status, x.serial, Finished), n) {
      CountSnoc(log, x, Ended, n);
    }
    OrderSnoc(status, log, x);
  }

  /** The messages pushed to a connection. */
  ghost function TextsFor(log: seq<Sent>, conn: nat): (t: seq<string>)
  {
    if log == [] then [] else
      var last := log[|log| - 1];
      TextsFor(log[..|log| - 1], conn) + if last.conn == conn then [last.text] else []
  }

  lemma TextsSnoc(log: seq<Sent>, x: Sent, conn: nat)
    ensures TextsFor(log + [x], conn) == TextsFor(log, conn) + if x.conn == conn then [x.text] else []
  {
    assert (log + [x])[..|log|] == log;
  }

  lemma {:induction false} TextsNone(log: seq<Sent>, conn: nat)
    requires forall i :: 0 <= i < |log| ==> log[i].conn != conn
    ensures TextsFor(log, conn) == []
    decreases |log|
  {
    if log != [] { TextsNone(log[..|log| - 1], conn); }
  }

  /** Bytes written and pending make up the messages pushed. */
  ghost predicate Carried(c: Client, log: seq<Sent>, written: map<nat, string>)
  {
    c.conn in written && written[c.conn] + Flatten(c.pending) == Flatten(TextsFor(log, c.conn))
  }

  ghost predicate Located(clients: map<int, Client>, place: seq<int>)
  {
    forall fd :: fd in clients ==> clients[fd].conn < |place| && place[clients[fd].conn] == fd
  }

  ghost predicate Wired(clients: map<int, Client>, log: seq<Sent>, written: map<nat, string>, place: seq<int>)
  {
    && Located(clients, place)
    && (forall i :: 0 <= i < |log| ==> log[i].conn < |place|)
    && (forall fd :: fd in clients ==> Carried(clients[fd], log, written))
  }

  lemma WiredPush(clients: map<int, Client>, log: seq<Sent>, written: map<nat, string>, place: seq<int>, fd: int,
                  x: Sent)
    requires Wired(clients, log, written, place) && fd in clients && x.conn == clients[fd].conn
    ensures Wired(clients[fd := clients[fd].(pending := clients[fd].pending + [x.text])], log + [x], written, place)
  {
    hide Flatten, TextsFor;
    var c := clients[fd];
    var clients1 := clients[fd := c.(pending := c.pending + [x.text])];
    TextsSnoc(log, x, c.conn);
    FlattenConcat(c.pending, [x.text]);
    FlattenConcat(TextsFor(log, c.conn), [x.text]);
    assert Carried(clients[fd], log, written);
    var w, p, t := written[c.conn], Flatten(c.pending), Flatten([x.text]);
    assert w + (p + t) == (w + p) + t;
    forall f | f in clients1 ensures Carried(clients1[f], log + [x], written) {
      if f != fd {
        assert clients[f].conn != c.conn && Carried(clients[f], log, written);
        TextsSnoc(log, x, clients[f].conn);
        assert TextsFor(log, clients[f].conn) + [] == TextsFor(log, clients[f].conn);
      }
    }
  }

  lemma WiredWrite(clients: map<int, Client>, log: seq<Sent>, written: map<nat, string>, place: seq<int>, fd: int,
                   size: nat)
    requires Wired(clients, log, written, place) && fd in clients
    requires clients[fd].pending != [] && size <= |clients[fd].pending[0]|
    ensures var c := clients[fd];
            Wired(clients[fd := c.(pending := AfterWrite(c.pending, size))], log,
                  Add(written, c.conn, c.pending[0][..size]), place)
  {
    hide Flatten, TextsFor, AfterWrite;
    var c := clients[fd];
    var clients1 := clients[fd := c.(pending := AfterWrite(c.pending, size))];
    var written1 := Add(written, c.conn, c.pending[0][..size]);
    WriteConserves(c.pending, size);
    forall f | f in clients1 ensures Carried(clients1[f], log, written1) {
      if f != fd { assert clients[f].conn != c.conn; }
    }
  }

  lemma WiredAccept(clients: map<int, Client>, log: seq<Sent>, written: map<nat, string>, place: seq<int>, fd: int)
    requires Wired(clients, log, written, place) && fd !in clients
    ensures Wired(clients[fd := Client(|place|, "", [], false)], log, written[|place| := ""], place + [fd])
  {
    TextsNone(log, |place|);
    hide TextsFor;
    var clients1 := clients[fd := Client(|place|, "", [], false)];
    forall f | f in clients1 ensures Carried(clients1[f], log, written[|place| := ""]) {
      if f != fd { assert Carried(clients[f], log, written); }
    }
  }

  /** The connections whose write never ended are those to which a write failed. */
  ghost predicate Flagged(clients: map<int, Client>, failed: set<nat>, place: seq<int>)
  {
    && (forall c :: c in failed ==> c < |place|)
    && (forall fd :: fd in clients ==> (clients[fd].writing <==> clients[fd].conn in failed))
  }

  lemma FlaggedUpdate(clients: map<int, Client>, failed: set<nat>, place: seq<int>, fd: int, c: Client)
    requires Flagged(clients, failed, place) && fd in clients
    requires c.conn == clients[fd].conn && c.writing == clients[fd].writing
    ensures Flagged(clients[fd := c], failed, place)
  {
  }

  lemma FlaggedFail(clients: map<int, Client>, failed: set<nat>, place: seq<int>, fd: int)
    requires Flagged(clients, failed, place) && Located(clients, place) && fd in clients
    ensures Flagged(clients[fd := clients[fd].(writing := true)], failed + {clients[fd].conn}, place)
  {
    forall f | f in clients && f != fd ensures clients[f].conn != clients[fd].conn { }
  }

  lemma FlaggedAccept(clients: map<int, Client>, failed: set<nat>, place: seq<int>, fd: int)
    requires Flagged(clients, failed, place)
    ensures Flagged(clients[fd := Client(|place|, "", [], false)], failed, place + [fd])
  {
  }

  /** Every line received so far has been handled; the buffer holds the unfinished one. */
  ghost predicate Framed(clients: map<int, Client>, received: map<nat, string>, lines: map<nat, seq<string>>)
  {
    forall fd :: fd in clients ==>
      var c := clients[fd];
      && c.conn in received && c.conn in lines
      && lines[c.conn] == Lines(received[c.conn]) && c.readbuf == Tail(received[c.conn])
  }

  lemma FramedRead(clients: map<int, Client>, received: map<nat, string>, lines: map<nat, seq<string>>, place: seq<int>,
                   fd: int, chunk: string)
    requires Framed(clients, received, lines) && Located(clients, place) && fd in clients
    ensures var c := clients[fd]; var all := c.readbuf + chunk;
            Framed(clients[fd := c.(readbuf := Tail(all))], Add(received, c.conn, chunk),
                   Add(lines, c.conn, Lines(all)))
  {
    hide Lines, Tail;
    var c := clients[fd];
    LinesConcat(received[c.conn], chunk);
    forall f | f in clients && f != fd ensures clients[f].conn != c.conn { }
  }

  lemma FramedAccept(clients: map<int, Client>, received: map<nat, string>, lines: map<nat, seq<string>>,
                     place: seq<int>, fd: int)
    requires Framed(clients, received, lines) && Located(clients, place)
    ensures Framed(clients[fd := Client(|place|, "", [], false)], received[|place| := ""], lines[|place| := []])
  {
    SplitNone("", '\n');
    hide Split;
  }

  ghost predicate Connected(clients: map<int, Client>, place: seq<int>, conn: nat)
  {
    conn < |place| && place[conn] in clients && clients[place[conn]].conn == conn
  }

  ghost predicate Delivered(log: seq<Sent>, conn: nat, n: nat)
  {
    exists i :: 0 <= i < |log| && log[i].conn == conn && log[i].kind == Ended && log[i].serial == n
  }

  /** Started requests have a home connection; while it lasts, it gets the F of every finished one. */
  ghost predicate Homed(procs: map<int, Job>, status: seq<Status>, home: map<nat, nat>, place: seq<int>,
                        clients: map<int, Client>, log: seq<Sent>)
  {
    && (forall n :: n in home ==> home[n] < |place|)
    && (forall p :: p in procs ==> AtHome(procs[p], home, place))
    && (forall n :: 0 <= n < |status| && status[n] == Finished ==>
                      n in home && (Connected(clients, place, home[n]) ==> Delivered(log, home[n], n)))
    && (forall i :: 0 <= i < |log| && log[i].kind == Started ==>
                      log[i].serial in home && log[i].conn == home[log[i].serial])
  }

  ghost predicate AtHome(job: Job, home: map<nat, nat>, place: seq<int>)
  {
    job.serial in home && home[job.serial] < |place| && place[home[job.serial]] == job.req.key
  }

  /** The poll list has one entry for each open descriptor, asking for POLLOUT exactly when data is pending. */
  ghost predicate Polled(poll: seq<PollEntry>, clients: map<int, Client>, sock: int, pipe: int)
  {
    && (forall fd :: fd in clients ==>
                       fd >= 0 && fd != sock && fd != pipe && PollEntry(fd, clients[fd].pending != []) in poll)
    && (forall i :: 0 <= i < |poll| && poll[i].fd != -1 ==>
          (if poll[i].fd in clients then poll[i].out == (clients[poll[i].fd].pending != [])
           else !poll[i].out && (poll[i].fd == sock || poll[i].fd == pipe)))
    && (forall i, j :: 0 <= i < j < |poll| && poll[i].fd == poll[j].fd ==> poll[i].fd == -1)
    && PollEntry(sock, false) in poll && PollEntry(pipe, false) in poll
    && sock >= 0 && pipe >= 0 && sock != pipe
  }
}
