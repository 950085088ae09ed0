/** Every step of the prover server keeps the invariants, so every run does. */
module ServerRuns {
  import opened Framing
  import opened Requests
  import opened WriteBuffer
  import opened ServerState
  import opened ServerInv
  import opened ServerSaid

  lemma {:induction false} CountNone(log: seq<Sent>, kind: Kind, n: nat, i: nat)
    requires Count(log, kind, n) == 0 && i < |log|
    ensures !(log[i].kind == kind && log[i].serial == n)
    decreases |log|
  {
    if i < |log| - 1 { CountNone(log[..|log| - 1], kind, n, i); }
  }

  ghost predicate SameConns(a: map<int, Client>, b: map<int, Client>)
  {
    a.Keys == b.Keys && forall fd :: fd in a ==> a[fd].conn == b[fd].conn
  }

  lemma HomedStart(procs: map<int, Job>, status: seq<Status>, home: map<nat, nat>, place: seq<int>,
                   clients: map<int, Client>, log: seq<Sent>, job: Job, pid: int, x: Sent)
    requires Homed(procs, status, home, place, clients, log) && Told(status, log) && Located(clients, place)
    requires forall p :: p in procs ==> procs[p].serial != job.serial
    requires job.serial < |status| && status[job.serial] == Queued && job.req.key in clients
    requires x.conn == clients[job.req.key].conn && x.kind == Started && x.serial == job.serial
    ensures Homed(procs[pid := job], Mark(status, job.serial, Running), home[job.serial := x.conn], place, clients,
                  log + [x])
  {
    hide Count, Connected, Delivered;
    var l, h, n := log + [x], home[job.serial := x.conn], job.serial;
    forall k | 0 <= k < |status| && status[k] == Finished
      ensures Connected(clients, place, h[k]) ==> Delivered(l, h[k], k) {
      DeliveredStays(log, x, home[k], k);
    }
    forall i | 0 <= i < |l| && l[i].kind == Started ensures l[i].serial in h && l[i].conn == h[l[i].serial] {
      if i < |log| { CountNone(log, Started, n, i); }
    }
    assert AtHome(job, h, place);
    forall p | p in procs ensures AtHome(procs[p], h, place) { assert AtHome(procs[p], home, place); }
  }

  lemma DeliveredStays(log: seq<Sent>, x: Sent, conn: nat, n: nat)
    ensures Delivered(log, conn, n) ==> Delivered(log + [x], conn, n)
  {
    if Delivered(log, conn, n) {
      var i :| 0 <= i < |log| && log[i].conn == conn && log[i].kind == Ended && log[i].serial == n;
      assert (log + [x])[i] == log[i];
    }
  }

  /** Nothing here depends on requests that have not ended, or on what clients hold. */
  lemma HomedSame(procs: map<int, Job>, status: seq<Status>, status1: seq<Status>, home: map<nat, nat>, place: seq<int>,
                  clients: map<int, Client>, clients1: map<int, Client>, log: seq<Sent>)
    requires Homed(procs, status, home, place, clients, log)
    requires forall n :: 0 <= n < |status1| && status1[n] == Finished ==> n < |status| && status[n] == Finished
    requires forall c: nat :: Connected(clients1, place, c) ==> Connected(clients, place, c)
    ensures Homed(procs, status1, home, place, clients1, log)
  {
    hide Connected, Delivered;
  }

  lemma ConnsConnected(a: map<int, Client>, b: map<int, Client>, place: seq<int>)
    requires SameConns(a, b)
    ensures forall c: nat :: Connected(b, place, c) <==> Connected(a, place, c)
  {
    forall c: nat ensures Connected(b, place, c) <==> Connected(a, place, c) {
      if c < |place| {
        var fd := place[c];
        assert fd in a.Keys <==> fd in b.Keys;
        if fd in a { assert a[fd].conn == b[fd].conn; }
      }
    }
  }

  lemma HomedReap(procs: map<int, Job>, status: seq<Status>, home: map<nat, nat>, place: seq<int>,
                  clients: map<int, Client>, log: seq<Sent>, pid: int)
    requires Homed(procs, status, home, place, clients, log) && pid in procs && procs[pid].req.key !in clients
    requires procs[pid].serial < |status|
    ensures Homed(procs - {pid}, Mark(status, procs[pid].serial, Finished), home, place, clients, log)
  {
    hide Delivered;
    assert AtHome(procs[pid], home, place);
    assert !Connected(clients, place, home[procs[pid].serial]);
    hide Connected;
  }

  lemma HomedReapMsg(procs: map<int, Job>, status: seq<Status>, home: map<nat, nat>, place: seq<int>,
                     clients: map<int, Client>, log: seq<Sent>, pid: int, x: Sent)
    requires Homed(procs, status, home, place, clients, log) && pid in procs && procs[pid].req.key in clients
    requires procs[pid].serial < |status|
    requires x.conn == clients[procs[pid].req.key].conn && x.kind == Ended && x.serial == procs[pid].serial
    ensures Homed(procs - {pid}, Mark(status, procs[pid].serial, Finished), home, place, clients, log + [x])
  {
    var l, n := log + [x], procs[pid].serial;
    assert AtHome(procs[pid], home, place);
    assert l[|log|] == x;
    assert Connected(clients, place, home[n]) ==> Delivered(l, home[n], n);
    hide Connected, Delivered;
    forall k | 0 <= k < |status| && status[k] == Finished
      ensures Connected(clients, place, home[k]) ==> Delivered(l, home[k], k) {
      DeliveredStays(log, x, home[k], k);
    }
  }

  lemma HomedAccept(procs: map<int, Job>, status: seq<Status>, home: map<nat, nat>, place: seq<int>,
                    clients: map<int, Client>, log: seq<Sent>, fd: int)
    requires Homed(procs, status, home, place, clients, log) && fd !in clients
    ensures Homed(procs, status, home, place + [fd], clients[fd := Client(|place|, "", [], false)], log)
  {
    hide Delivered;
    forall p | p in procs ensures AtHome(procs[p], home, place + [fd]) { assert AtHome(procs[p], home, place); }
    forall c: nat | c < |place| && Connected(clients[fd := Client(|place|, "", [], false)], place + [fd], c)
      ensures Connected(clients, place, c) { }
    hide Connected;
  }

  lemma PolledPush(poll: seq<PollEntry>, clients: map<int, Client>, sock: int, pipe: int, fd: int, text: string)
    requires Polled(poll, clients, sock, pipe) && fd in clients
    ensures Polled(SetOut(poll, fd, true), clients[fd := clients[fd].(pending := clients[fd].pending + [text])],
                   sock, pipe)
  {
    SetOutHas(poll, clients, sock, pipe, fd, true);
  }

  /** After the flag of fd is set, its entry and all the others are there. */
  lemma SetOutHas(poll: seq<PollEntry>, clients: map<int, Client>, sock: int, pipe: int, fd: int, out: bool)
    requires Polled(poll, clients, sock, pipe) && fd in clients
    ensures PollEntry(fd, out) in SetOut(poll, fd, out)
    ensures forall e :: e in poll && e.fd != fd ==> e in SetOut(poll, fd, out)
  {
    var i :| 0 <= i < |poll| && poll[i] == PollEntry(fd, clients[fd].pending != []);
    assert SetOut(poll, fd, out)[i] == PollEntry(fd, out);
    forall e | e in poll && e.fd != fd ensures e in SetOut(poll, fd, out) {
      var j :| 0 <= j < |poll| && poll[j] == e;
      assert SetOut(poll, fd, out)[j] == e;
    }
  }

  lemma PolledWrite(poll: seq<PollEntry>, clients: map<int, Client>, sock: int, pipe: int, fd: int, rest: seq<string>)
    requires Polled(poll, clients, sock, pipe) && fd in clients && clients[fd].pending != []
    ensures Polled(if rest == [] then SetOut(poll, fd, false) else poll,
                   clients[fd := clients[fd].(pending := rest)], sock, pipe)
  {
    if rest == [] { SetOutHas(poll, clients, sock, pipe, fd, false); }
  }

  lemma PolledAccept(poll: seq<PollEntry>, clients: map<int, Client>, sock: int, pipe: int, fd: int, c: Client)
    requires Polled(poll, clients, sock, pipe) && c.pending == [] && fd >= 0 && fd !in clients && fd != sock
             && fd != pipe
    ensures Polled(poll + [PollEntry(fd, false)], clients[fd := c], sock, pipe)
  {
    assert (poll + [PollEntry(fd, false)])[|poll|] == PollEntry(fd, false);
  }

  lemma PolledClose(poll: seq<PollEntry>, clients: map<int, Client>, sock: int, pipe: int, fd: int)
    requires Polled(poll, clients, sock, pipe) && fd in clients
    ensures Polled(Forget(poll, fd), clients - {fd}, sock, pipe)
  {
    var r := Forget(poll, fd);
    forall e | e in poll && e.fd != fd ensures e in r {
      var j :| 0 <= j < |poll| && poll[j] == e;
      assert r[j] == e;
    }
  }

  lemma PolledClean(poll: seq<PollEntry>, kept: seq<PollEntry>, clients: map<int, Client>, sock: int, pipe: int)
    requires Polled(poll, clients, sock, pipe) && Cleaned(poll, kept)
    ensures Polled(kept, clients, sock, pipe)
  {
    forall i, j | 0 <= i < j < |kept| ensures kept[i].fd != kept[j].fd {
      assert kept[i] in poll && kept[j] in poll;
    }
    forall i | 0 <= i < |kept| ensures kept[i] in poll && kept[i].fd != -1 { assert kept[i] in kept; }
  }

  /** Never more processes than the largest limit so far; the limit is never zero. */
  ghost predicate Limited(procs: map<int, Job>, parallel: int, peak: int)
  {
    |procs| <= peak && 1 <= parallel <= peak
  }

  /** Everything at once; request m, if any, is between places. */
  ghost predicate InvBut(s: State, m: int)
  {
    && !s.crashed
    && Placed(s.processes, s.queue, s.past.status, m)
    && Known(s.past.requests, |s.past.status|, s.queue, s.processes)
    && Readable(s.past.requests, s.past.log)
    && s.past.children == s.processes.Keys
    && Limited(s.processes, s.parallel, s.past.peak)
    && Told(s.past.status, s.past.log)
    && Wired(s.clients, s.past.log, s.past.written, s.past.place)
    && Framed(s.clients, s.past.received, s.past.lines)
    && Flagged(s.clients, s.past.failed, s.past.place)
    && Homed(s.processes, s.past.status, s.past.home, s.past.place, s.clients, s.past.log)
    && Polled(s.poll, s.clients, s.sock, s.pipe)
  }

  ghost predicate Inv(s: State)
  {
    InvBut(s, -1)
  }

  lemma PlacedFacts(procs: map<int, Job>, queue: seq<Job>, status: seq<Status>, m: int)
    requires Placed(procs, queue, status, m)
    ensures m >= 0 ==> m < |status| && status[m] == Queued
    ensures forall p :: p in procs ==> procs[p].serial < |status| && status[procs[p].serial] == Running
  {
  }

  lemma SameConnsUpdate(clients: map<int, Client>, fd: int, c: Client)
    requires fd in clients && c.conn == clients[fd].conn
    ensures SameConns(clients, clients[fd := c])
  {
  }

  lemma FramedPush(clients: map<int, Client>, received: map<nat, string>, lines: map<nat, seq<string>>, fd: int,
                   c: Client)
    requires Framed(clients, received, lines) && fd in clients
    requires c.conn == clients[fd].conn && c.readbuf == clients[fd].readbuf
    ensures Framed(clients[fd := c], received, lines)
  {
  }

  lemma MoreProcs(procs: map<int, Job>, pid: int, job: Job)
    requires pid !in procs
    ensures |procs[pid := job]| == |procs| + 1
  {
    assert procs[pid := job].Keys == procs.Keys + {pid};
  }

  lemma FewerProcs(procs: map<int, Job>, pid: int)
    requires pid in procs
    ensures |procs - {pid}| == |procs| - 1
  {
    assert procs.Keys == (procs - {pid}).Keys + {pid};
  }

  /** run_request with a free slot. */
  lemma RunRequestKeeps(s: State, job: Job, pid: int)
    requires InvBut(s, job.serial) && pid !in s.past.children && |s.processes| < s.parallel
    requires job.serial < |s.past.requests| && s.past.requests[job.serial] == job.req
    ensures Inv(RunRequest(s, job, pid))
  {
    hide Placed, Known, Readable, Told, Wired, Framed, Flagged, Homed, Polled, Mark, SetOut;
    var n, key, status := job.serial, job.req.key, s.past.status;
    PlacedFacts(s.processes, s.queue, status, n);
    if key !in s.clients {
      DropKeeps(s, n);
    } else {
      var c := s.clients[key];
      var x := Sent(c.conn, Started, n, "", StartedMsg(job.req.id));
      PlacedStart(s.processes, s.queue, status, job, pid);
      KnownStart(s.past.requests, |status|, s.queue, s.processes, job, pid);
      StartedReads(x, job.req.id);
      ReadablePush(s.past.requests, s.past.log, x);
      MoreProcs(s.processes, pid, job);
      ToldStart(status, s.past.log, x);
      WiredLocated(s.clients, s.past.log, s.past.written, s.past.place);
      HomedStart(s.processes, status, s.past.home, s.past.place, s.clients, s.past.log, job, pid, x);
      PushKeeps(s.(processes := s.processes[pid := job],
                   past := s.past.(home := s.past.home[n := c.conn], status := Mark(status, n, Running))), key, x);
    }
  }

  /** A request whose client is gone is dropped. */
  lemma DropKeeps(s: State, n: nat)
    requires InvBut(s, n)
    ensures Inv(s.(past := s.past.(status := Mark(s.past.status, n, Dropped))))
  {
    hide Placed, Known, Readable, Told, Wired, Framed, Flagged, Homed, Polled, Mark;
    var status := s.past.status;
    PlacedFacts(s.processes, s.queue, status, n);
    PlacedDrop(s.processes, s.queue, status, n);
    DropSame(status, n);
    ToldSame(status, Mark(status, n, Dropped), s.past.log);
    HomedSame(s.processes, status, Mark(status, n, Dropped), s.past.home, s.past.place, s.clients, s.clients,
              s.past.log);
  }

  lemma WiredLocated(clients: map<int, Client>, log: seq<Sent>, written: map<nat, string>, place: seq<int>)
    requires Wired(clients, log, written, place)
    ensures Located(clients, place)
  {
  }

  lemma DropSame(status: seq<Status>, n: nat)
    requires n < |status| && status[n] == Queued
    ensures var st := Mark(status, n, Dropped);
            && (forall k: nat :: Starts(st, k) == Starts(status, k) && Ends(st, k) == Ends(status, k))
            && (forall k :: 0 <= k < |st| && st[k] == Finished ==> k < |status| && status[k] == Finished)
  {
  }

  /** queue_write on the buffer, the poll list and the bookkeeping of a client. */
  lemma PushKeeps(s: State, fd: int, x: Sent)
    requires fd in s.clients && x.conn == s.clients[fd].conn
    requires Wired(s.clients, s.past.log, s.past.written, s.past.place)
    requires Framed(s.clients, s.past.received, s.past.lines) && Polled(s.poll, s.clients, s.sock, s.pipe)
    requires Flagged(s.clients, s.past.failed, s.past.place)
    requires Homed(s.processes, s.past.status, s.past.home, s.past.place, s.clients, s.past.log + [x])
    ensures var t := QueueWrite(s, fd, x.kind, x.serial, x.detail, x.text);
            && Wired(t.clients, t.past.log, t.past.written, t.past.place)
            && Framed(t.clients, t.past.received, t.past.lines) && Polled(t.poll, t.clients, t.sock, t.pipe)
            && Flagged(t.clients, t.past.failed, t.past.place)
            && Homed(t.processes, t.past.status, t.past.home, t.past.place, t.clients, t.past.log)
  {
    hide Wired, Framed, Flagged, Homed, Polled, SetOut;
    var c := s.clients[fd];
    var c1 := c.(pending := c.pending + [x.text]);
    FlaggedUpdate(s.clients, s.past.failed, s.past.place, fd, c1);
    WiredPush(s.clients, s.past.log, s.past.written, s.past.place, fd, x);
    FramedPush(s.clients, s.past.received, s.past.lines, fd, c1);
    PolledPush(s.poll, s.clients, s.sock, s.pipe, fd, x.text);
    SameConnsUpdate(s.clients, fd, c1);
    ConnsConnected(s.clients, s.clients[fd := c1], s.past.place);
    HomedSame(s.processes, s.past.status, s.past.status, s.past.home, s.past.place, s.clients, s.clients[fd := c1],
        s.past.log + [x]);
  }

  lemma NewSame(status: seq<Status>)
    ensures var st := status + [Queued];
            && (forall k: nat :: Starts(st, k) == Starts(status, k) && Ends(st, k) == Ends(status, k))
            && (forall k :: 0 <= k < |st| && st[k] == Finished ==> k < |status| && status[k] == Finished)
  {
  }

  /** A request that has just been accepted is between places. */
  lemma SubmitBetween(s: State, req: Request)
    requires Inv(s) && req.Run? && Plain(req.id)
    ensures var t := s.(past := s.past.(requests := s.past.requests + [req], status := s.past.status + [Queued]));
            var n := |s.past.status|;
            InvBut(t, n) && n < |t.past.requests| && t.past.requests[n] == req
  {
    hide Placed, Known, Readable, Told, Wired, Framed, Flagged, Homed, Polled, Starts, Ends;
    var status := s.past.status;
    NewSame(status);
    PlacedNew(s.processes, s.queue, status);
    KnownNew(s.past.requests, |status|, s.queue, s.processes, req);
    ReadableNew(s.past.requests, s.past.log, req);
    ToldSame(status, status + [Queued], s.past.log);
    HomedSame(s.processes, status, status + [Queued], s.past.home, s.past.place, s.clients, s.clients, s.past.log);
  }

  lemma SubmitKeeps(s: State, req: Request, pid: int)
    requires Inv(s) && pid !in s.past.children && req.Run? && Plain(req.id)
    ensures Inv(Submit(s, req, pid))
  {
    hide Placed, Known, Readable, Told, Wired, Framed, Flagged, Homed, Polled, RunRequest;
    SubmitBetween(s, req);
    var rs, st, job := s.past.requests + [req], s.past.status + [Queued], Job(|s.past.status|, req);
    if |s.processes| < s.parallel {
      RunRequestKeeps(s.(past := s.past.(requests := rs, status := st)), job, pid);
    } else {
      PlacedEnqueue(s.processes, s.queue, st, job);
      KnownEnqueue(rs, |st|, s.queue, s.processes, job);
    }
  }

  lemma CancelSame(procs: map<int, Job>, queue: seq<Job>, status: seq<Status>, id: string)
    requires Placed(procs, queue, status, -1)
    ensures var st := Cancelled(queue, status, id);
            && (forall k: nat :: Starts(st, k) == Starts(status, k) && Ends(st, k) == Ends(status, k))
            && (forall k :: 0 <= k < |st| && st[k] == Finished ==> k < |status| && status[k] == Finished)
  {
    var st := Cancelled(queue, status, id);
    forall k | 0 <= k < |status| ensures st[k] == status[k] || (status[k] == Queued && st[k] == Dropped) { }
  }

  lemma CancelKeeps(s: State, id: string)
    requires Inv(s)
    ensures Inv(Cancel(s, id))
  {
    hide Placed, Known, Readable, Told, Wired, Framed, Flagged, Homed, Polled, Starts, Ends, Cancelled, Without;
    var status := s.past.status;
    var st := Cancelled(s.queue, status, id);
    CancelSame(s.processes, s.queue, status, id);
    PlacedCancel(s.processes, s.queue, status, id);
    WithoutKeeps(s.queue, id);
    KnownFewer(s.past.requests, |status|, s.queue, s.processes, Without(s.queue, id));
    ToldSame(status, st, s.past.log);
    HomedSame(s.processes, status, st, s.past.home, s.past.place, s.clients, s.clients, s.past.log);
  }

  lemma ReapKeeps(s: State, x: Exit)
    requires Inv(s) && x.pid in s.past.children
    ensures Inv(Reap(s, x)) && Reap(s, x).past.children == s.past.children - {x.pid}
  {
    hide Placed, Known, Readable, Told, Wired, Framed, Flagged, Homed, Polled, Mark, SetOut;
    var job, status := s.processes[x.pid], s.past.status;
    var n := job.serial;
    PlacedFacts(s.processes, s.queue, status, -1);
    PlacedReap(s.processes, s.queue, status, x.pid);
    FewerProcs(s.processes, x.pid);
    KnownEnd(s.past.requests, |status|, s.queue, s.processes, x.pid);
    if job.req.key !in s.clients {
      ToldEnd(status, s.past.log, n);
      HomedReap(s.processes, status, s.past.home, s.past.place, s.clients, s.past.log, x.pid);
    } else {
      var m := Sent(s.clients[job.req.key].conn, Ended, n, x.detail, EndedMsg(job.req.id, x.detail));
      EndedReads(m, job.req.id);
      ReadablePush(s.past.requests, s.past.log, m);
      ToldEndMsg(status, s.past.log, m);
      HomedReapMsg(s.processes, status, s.past.home, s.past.place, s.clients, s.past.log, x.pid, m);
      PushKeeps(s.(processes := s.processes - {x.pid}, past := s.past.(status := Mark(status, n, Finished))),
          job.req.key, m);
    }
  }

  lemma HandleLineKeeps(s: State, fd: int, line: string, pid: int)
    requires Inv(s) && pid !in s.past.children && '\n' !in line
    ensures Inv(HandleLine(s, fd, line, pid))
  {
    hide Inv, Parse, Submit, Cancel, SetLimit, Plain;
    ParsedPlain(line, fd);
    match Parse(line, fd)
    case Nothing =>
    case Limit(n) =>
      LimitPositive(line, fd);
      LimitKeeps(s, n);
    case Got(r) =>
      if r.Run? { SubmitKeeps(s, r, pid); } else { CancelKeeps(s, r.id); }
  }

  lemma LimitPositive(line: string, fd: int)
    ensures Parse(line, fd).Limit? ==> Parse(line, fd).n >= 1
  {
  }

  lemma LimitKeeps(s: State, n: int)
    requires Inv(s) && n >= 1
    ensures Inv(SetLimit(s, n))
  {
  }

  lemma {:induction false} HandleLinesKeeps(s: State, fd: int, lines: seq<string>, pids: seq<int>)
    requires Inv(s) && |pids| == |lines| && LinePids(s, fd, lines, pids)
    requires forall i :: 0 <= i < |lines| ==> '\n' !in lines[i]
    ensures Inv(HandleLines(s, fd, lines, pids))
    decreases |lines|
  {
    hide InvBut, HandleLine;
    if lines != [] {
      var n := |lines| - 1;
      HandleLinesKeeps(s, fd, lines[..n], pids[..n]);
      HandleLineKeeps(HandleLines(s, fd, lines[..n], pids[..n]), fd, lines[n], pids[n]);
    }
  }

  lemma ReadKeeps(s: State, fd: int, chunk: string, pids: seq<int>)
    requires Inv(s) && Allowed(s, Read(fd, chunk, pids))
    ensures Inv(ReadOnClient(s, fd, chunk, pids))
  {
    hide Inv, HandleLines, Lines, Receive;
    ReceiveKeeps(s, fd, chunk);
    LinesPlain(s.clients[fd].readbuf + chunk);
    HandleLinesKeeps(Receive(s, fd, chunk), fd, Lines(s.clients[fd].readbuf + chunk), pids);
  }

  lemma ReceiveKeeps(t: State, fd: int, chunk: string)
    requires Inv(t) && fd in t.clients
    ensures Inv(Receive(t, fd, chunk))
  {
    hide Placed, Known, Readable, Told, Wired, Framed, Flagged, Homed, Polled, Lines, Tail;
    var c := t.clients[fd];
    var c1 := c.(readbuf := Tail(c.readbuf + chunk));
    WiredLocated(t.clients, t.past.log, t.past.written, t.past.place);
    FramedRead(t.clients, t.past.received, t.past.lines, t.past.place, fd, chunk);
    FlaggedUpdate(t.clients, t.past.failed, t.past.place, fd, c1);
    ReadbufOnly(t, fd, c1);
    SameConnsUpdate(t.clients, fd, c1);
    ConnsConnected(t.clients, t.clients[fd := c1], t.past.place);
    HomedSame(t.processes, t.past.status, t.past.status, t.past.home, t.past.place,
              t.clients, t.clients[fd := c1], t.past.log);
  }

  lemma ReadbufOnly(t: State, fd: int, c: Client)
    requires fd in t.clients && c.conn == t.clients[fd].conn && c.pending == t.clients[fd].pending
    requires Wired(t.clients, t.past.log, t.past.written, t.past.place) && Polled(t.poll, t.clients, t.sock, t.pipe)
    ensures Wired(t.clients[fd := c], t.past.log, t.past.written, t.past.place)
    ensures Polled(t.poll, t.clients[fd := c], t.sock, t.pipe)
  {
    hide Flatten, TextsFor;
    var clients := t.clients[fd := c];
    forall f | f in clients ensures Carried(clients[f], t.past.log, t.past.written) {
      assert Carried(t.clients[f], t.past.log, t.past.written);
    }
  }

  /** A write that is reported possible finds data; unless an earlier one failed, no assertion fires. */
  lemma WriteKeeps(s: State, fd: int, size: int)
    requires Inv(s) && Allowed(s, Event.Write(fd, size))
    ensures s.clients[fd].pending != []
    ensures s.clients[fd].writing ==> WriteToClient(s, fd, size) == s.(crashed := true)
    ensures !s.clients[fd].writing ==> Inv(WriteToClient(s, fd, size))
  {
    hide Placed, Known, Readable, Told, Wired, Framed, Flagged, Homed, SetOut, AfterWrite;
    FlagMeansData(s.poll, s.clients, s.sock, s.pipe, fd);
    hide Polled;
    if !s.clients[fd].writing {
      if size < 0 { WriteFailKeeps(s, fd); } else { WriteSomeKeeps(s, fd, size); }
    }
  }

  lemma WriteSomeKeeps(s: State, fd: int, size: nat)
    requires Inv(s) && fd in s.clients && !s.clients[fd].writing
    requires s.clients[fd].pending != [] && size <= |s.clients[fd].pending[0]|
    ensures Inv(WriteToClient(s, fd, size))
  {
    hide Placed, Known, Readable, Told, Wired, Framed, Flagged, Homed, Polled, SetOut, AfterWrite;
    var c := s.clients[fd];
    var c1 := c.(pending := AfterWrite(c.pending, size));
    WiredWrite(s.clients, s.past.log, s.past.written, s.past.place, fd, size);
    FramedPush(s.clients, s.past.received, s.past.lines, fd, c1);
    FlaggedUpdate(s.clients, s.past.failed, s.past.place, fd, c1);
    PolledWrite(s.poll, s.clients, s.sock, s.pipe, fd, c1.pending);
    SameConnsUpdate(s.clients, fd, c1);
    ConnsConnected(s.clients, s.clients[fd := c1], s.past.place);
    HomedSame(s.processes, s.past.status, s.past.status, s.past.home, s.past.place,
              s.clients, s.clients[fd := c1], s.past.log);
  }

  lemma WriteFailKeeps(s: State, fd: int)
    requires Inv(s) && fd in s.clients && s.clients[fd].pending != []
    ensures Inv(s.(clients := s.clients[fd := s.clients[fd].(writing := true)],
                   past := s.past.(failed := s.past.failed + {s.clients[fd].conn})))
  {
    hide Placed, Known, Readable, Told, Wired, Framed, Flagged, Homed, Polled;
    var c1 := s.clients[fd].(writing := true);
    WiredLocated(s.clients, s.past.log, s.past.written, s.past.place);
    FlaggedFail(s.clients, s.past.failed, s.past.place, fd);
    FramedPush(s.clients, s.past.received, s.past.lines, fd, c1);
    ReadbufOnly(s, fd, c1);
    SameConnsUpdate(s.clients, fd, c1);
    ConnsConnected(s.clients, s.clients[fd := c1], s.past.place);
    HomedSame(s.processes, s.past.status, s.past.status, s.past.home, s.past.place,
              s.clients, s.clients[fd := c1], s.past.log);
  }

  /** POLLOUT is asked for exactly when data is pending. */
  lemma FlagMeansData(poll: seq<PollEntry>, clients: map<int, Client>, sock: int, pipe: int, fd: int)
    requires Polled(poll, clients, sock, pipe) && fd in clients
    ensures PollEntry(fd, true) in poll <==> clients[fd].pending != []
  {
  }

  lemma AcceptKeeps(s: State, fd: int)
    requires Inv(s) && Allowed(s, Accept(fd))
    ensures Inv(AcceptClient(s, fd))
  {
    hide Placed, Known, Readable, Told, Wired, Framed, Flagged, Homed, Polled;
    WiredLocated(s.clients, s.past.log, s.past.written, s.past.place);
    WiredAccept(s.clients, s.past.log, s.past.written, s.past.place, fd);
    FlaggedAccept(s.clients, s.past.failed, s.past.place, fd);
    FramedAccept(s.clients, s.past.received, s.past.lines, s.past.place, fd);
    HomedAccept(s.processes, s.past.status, s.past.home, s.past.place, s.clients, s.past.log, fd);
    PolledAccept(s.poll, s.clients, s.sock, s.pipe, fd, Client(|s.past.place|, "", [], false));
  }

  lemma CloseKeeps(s: State, fd: int)
    requires Inv(s) && fd in s.clients
    ensures Inv(CloseClient(s, fd))
  {
    hide Placed, Known, Readable, Told, Homed, Polled, Forget, Carried, Lines, Tail;
    PolledClose(s.poll, s.clients, s.sock, s.pipe, fd);
    HomedSame(s.processes, s.past.status, s.past.status, s.past.home, s.past.place, s.clients, s.clients - {fd},
        s.past.log);
  }

  lemma {:induction false} ReapAllKeeps(s: State, exits: seq<Exit>)
    requires Inv(s) && Allowed(s, Children(exits))
    ensures Inv(ReapAll(s, exits))
    ensures forall p :: p in s.past.children && (forall i :: 0 <= i < |exits| ==> exits[i].pid != p) ==>
            p in ReapAll(s, exits).past.children
    decreases |exits|
  {
    hide InvBut, Reap;
    if exits != [] {
      var n := |exits| - 1;
      ReapAllKeeps(s, exits[..n]);
      ReapKeeps(ReapAll(s, exits[..n]), exits[n]);
    }
  }

  lemma RunNextKeeps(s: State, pid: int)
    requires Inv(s) && CanSchedule(s) && pid !in s.past.children
    ensures Inv(RunNext(s, pid)) && Forward(s.past.status, RunNext(s, pid).past.status)
  {
    hide RunRequest, Placed, Known, Readable, Told, Wired, Framed, Homed, Polled, Forward;
    var job, s1 := s.queue[0], s.(queue := s.queue[1..]);
    PlacedTake(s.processes, s.queue, s.past.status);
    PlacedFacts(s.processes, s1.queue, s.past.status, job.serial);
    KnownTake(s.past.requests, |s.past.status|, s.queue, s.processes);
    RunRequestKeeps(s1, job, pid);
    RunRequestForward(s1, job, pid);
  }

  /** schedule_new_jobs leaves no queued request beside a free slot. */
  lemma {:induction false} ScheduleKeeps(s: State, forks: seq<int>)
    requires Inv(s) && |forks| == |s.queue| && JobPids(s, forks)
    ensures var t := ScheduleJobs(s, forks);
            Inv(t) && (t.queue == [] || |t.processes| >= t.parallel)
    ensures Forward(s.past.status, ScheduleJobs(s, forks).past.status)
    decreases |s.queue|
  {
    hide RunNext, InvBut, Forward;
    if CanSchedule(s) {
      var t := RunNext(s, forks[0]);
      RunNextKeeps(s, forks[0]);
      ScheduleKeeps(t, forks[1..]);
      ForwardTrans(s.past.status, t.past.status, ScheduleJobs(t, forks[1..]).past.status);
    } else {
      ForwardSame(s.past.status);
    }
  }

  /** A write to a client whose last write failed. */
  ghost predicate WritesAgain(s: State, e: Event)
  {
    e.Write? && e.fd in s.clients && s.clients[e.fd].writing
  }

  /** Every event the operating system allows keeps the invariant, except that a second write aborts. */
  lemma ApplyKeeps(s: State, e: Event)
    requires Inv(s) && Allowed(s, e)
    ensures if WritesAgain(s, e) then Apply(s, e) == s.(crashed := true) else Inv(Apply(s, e))
  {
    hide Placed, Known, Readable, Told, Wired, Framed, Flagged, Homed, Polled, Cleaned;
    match e
    case Accept(fd) => AcceptKeeps(s, fd);
    case Read(fd, chunk, pids) => ReadKeeps(s, fd, chunk, pids);
    case Write(fd, size) => WriteKeeps(s, fd, size);
    case Close(fd) => CloseKeeps(s, fd);
    case Children(exits) => ReapAllKeeps(s, exits);
    case Schedule(forks) => ScheduleKeeps(s, forks);
    case Clean(poll) => PolledClean(s.poll, poll, s.clients, s.sock, s.pipe);
  }

  lemma StartKeeps(parallel: int, sock: int, pipe: int, singleClient: bool)
    requires parallel >= 1 && sock >= 0 && pipe >= 0 && sock != pipe
    ensures Inv(Start(parallel, sock, pipe, singleClient))
  {
    StartPolled(sock, pipe);
    hide Polled;
  }

  lemma StartPolled(sock: int, pipe: int)
    requires sock >= 0 && pipe >= 0 && sock != pipe
    ensures Polled([PollEntry(sock, false), PollEntry(pipe, false)], map[], sock, pipe)
  {
    var poll := [PollEntry(sock, false), PollEntry(pipe, false)];
    assert poll[0] == PollEntry(sock, false) && poll[1] == PollEntry(pipe, false);
  }

  lemma NotCrashed(s: State)
    ensures Inv(s) ==> !s.crashed
  {
  }

  /** Every state of every run satisfies the invariant, unless an assertion has failed and ended the run. */
  lemma {:induction false} RunKeeps(states: seq<State>, events: seq<Event>, parallel: int, sock: int, pipe: int,
                                    single: bool, i: nat)
    requires IsRun(states, events) && i < |states| && states[0] == Start(parallel, sock, pipe, single)
    requires parallel >= 1 && sock >= 0 && pipe >= 0 && sock != pipe
    ensures !states[i].crashed ==> Inv(states[i])
    decreases i
  {
    hide Inv, Apply, Allowed;
    if i == 0 {
      StartKeeps(parallel, sock, pipe, single);
    } else {
      RunKeeps(states, events, parallel, sock, pipe, single, i - 1);
      RunGoesOn(states, events, i - 1);
      ApplyKeeps(states[i - 1], events[i - 1]);
    }
  }

  /** A state that another event follows has not crashed. */
  lemma RunGoesOn(states: seq<State>, events: seq<Event>, i: nat)
    requires IsRun(states, events) && i < |events|
    ensures !states[i].crashed
  {
    hide Apply;
  }

  /** A request only moves forward: from the queue to running or dropped, from running to finished. */
  ghost predicate Forward(a: seq<Status>, b: seq<Status>)
  {
    && |a| <= |b|
    && forall n :: 0 <= n < |a| ==> a[n] == b[n] || a[n] == Queued || (a[n] == Running && b[n] == Finished)
  }

  lemma ForwardTrans(a: seq<Status>, b: seq<Status>, c: seq<Status>)
    requires Forward(a, b) && Forward(b, c)
    ensures Forward(a, c)
  {
  }

  lemma RunRequestForward(s: State, job: Job, pid: int)
    requires job.serial < |s.past.status| && s.past.status[job.serial] == Queued
    ensures Forward(s.past.status, RunRequest(s, job, pid).past.status)
  {
  }

  lemma HandleLineForward(s: State, fd: int, line: string, pid: int)
    requires Inv(s)
    ensures Forward(s.past.status, HandleLine(s, fd, line, pid).past.status)
  {
    hide Parse, RunRequest, Told, Wired, Framed, Homed, Polled, Without;
    match Parse(line, fd)
    case Nothing =>
    case Limit(n) =>
    case Got(r) =>
      if r.Run? {
        var t := s.(past := s.past.(requests := s.past.requests + [r], status := s.past.status + [Queued]));
        RunRequestForward(t, Job(|s.past.status|, r), pid);
      } else {
        CancelForward(s.processes, s.queue, s.past.status, r.id);
      }
  }

  lemma CancelForward(procs: map<int, Job>, queue: seq<Job>, status: seq<Status>, id: string)
    requires Placed(procs, queue, status, -1)
    ensures Forward(status, Cancelled(queue, status, id))
  {
  }

  lemma {:induction false} HandleLinesForward(s: State, fd: int, lines: seq<string>, pids: seq<int>)
    requires Inv(s) && |pids| == |lines| && LinePids(s, fd, lines, pids)
    requires forall i :: 0 <= i < |lines| ==> '\n' !in lines[i]
    ensures Forward(s.past.status, HandleLines(s, fd, lines, pids).past.status)
    decreases |lines|
  {
    hide Inv, HandleLine, Forward;
    if lines == [] {
      ForwardSame(s.past.status);
    } else {
      var n := |lines| - 1;
      var t := HandleLines(s, fd, lines[..n], pids[..n]);
      HandleLinesForward(s, fd, lines[..n], pids[..n]);
      HandleLinesKeeps(s, fd, lines[..n], pids[..n]);
      HandleLineForward(t, fd, lines[n], pids[n]);
      ForwardTrans(s.past.status, t.past.status, HandleLines(s, fd, lines, pids).past.status);
    }
  }

  lemma ForwardSame(a: seq<Status>)
    ensures Forward(a, a)
  {
  }

  lemma ReapForward(s: State, x: Exit)
    requires Inv(s)
    ensures Forward(s.past.status, Reap(s, x).past.status)
  {
    hide Told, Wired, Framed, Homed, Polled;
  }

  lemma {:induction false} ReapAllForward(s: State, exits: seq<Exit>)
    requires Inv(s) && Allowed(s, Children(exits))
    ensures Forward(s.past.status, ReapAll(s, exits).past.status)
    decreases |exits|
  {
    hide Inv, Reap, Forward;
    if exits == [] {
      ForwardSame(s.past.status);
    } else {
      var n := |exits| - 1;
      var t := ReapAll(s, exits[..n]);
      ReapAllForward(s, exits[..n]);
      ReapAllKeeps(s, exits[..n]);
      ReapForward(t, exits[n]);
      ForwardTrans(s.past.status, t.past.status, Reap(t, exits[n]).past.status);
    }
  }

  lemma ApplyForward(s: State, e: Event)
    requires Inv(s) && Allowed(s, e)
    ensures Forward(s.past.status, Apply(s, e).past.status)
  {
    hide Inv, Forward, Cleaned, HandleLines;
    match e
    case Read(fd, chunk, pids) =>
      ReceiveKeeps(s, fd, chunk);
      LinesPlain(s.clients[fd].readbuf + chunk);
      HandleLinesForward(Receive(s, fd, chunk), fd, Lines(s.clients[fd].readbuf + chunk), pids);
    case Children(exits) => ReapAllForward(s, exits);
    case Schedule(forks) => ScheduleKeeps(s, forks);
    case _ => ForwardSame(s.past.status);
  }

  /** Over every run, a finished or dropped request stays so, and a running one is never queued again. */
  lemma {:induction false} RunForward(states: seq<State>, events: seq<Event>, parallel: int, sock: int, pipe: int,
                                      single: bool, i: nat, j: nat)
    requires IsRun(states, events) && i <= j < |states| && states[0] == Start(parallel, sock, pipe, single)
    requires parallel >= 1 && sock >= 0 && pipe >= 0 && sock != pipe
    ensures Forward(states[i].past.status, states[j].past.status)
    decreases j
  {
    hide Inv, Apply, Allowed, Forward;
    if i == j {
      ForwardSame(states[i].past.status);
    } else {
      RunForward(states, events, parallel, sock, pipe, single, i, j - 1);
      RunKeeps(states, events, parallel, sock, pipe, single, j - 1);
      RunGoesOn(states, events, j - 1);
      ApplyForward(states[j - 1], events[j - 1]);
      ForwardTrans(states[i].past.status, states[j - 1].past.status, states[j].past.status);
    }
  }

  /** What the invariant says about one state, without its vocabulary of sets and counts. */
  lemma InvMeans(s: State)
    requires Inv(s)
    ensures !s.crashed && |s.processes| <= s.past.peak
    ensures forall n :: 0 <= n < |s.past.status| ==>
              && (s.past.status[n] == Queued <==> InQueue(s.queue, n))
              && (s.past.status[n] == Running <==> InTable(s.processes, n))
    ensures forall fd :: fd in s.clients ==>
              var c := s.clients[fd];
              && c.conn in s.past.written
              && s.past.written[c.conn] + Flatten(c.pending) == Flatten(TextsFor(s.past.log, c.conn))
              && c.conn in s.past.received && c.conn in s.past.lines
              && s.past.lines[c.conn] == Lines(s.past.received[c.conn])
              && (PollEntry(fd, true) in s.poll <==> c.pending != [])
    ensures Messages(s.past.status, s.past.log)
    ensures AtHomeMessages(s.past, s.clients)
    ensures |s.past.requests| == |s.past.status|
    ensures forall k :: 0 <= k < |s.past.requests| ==> s.past.requests[k].Run? && Plain(s.past.requests[k].id)
    ensures forall i :: 0 <= i < |s.past.log| ==>
              var x := s.past.log[i];
              x.serial < |s.past.requests| && Reads(x, s.past.requests[x.serial].id)
  {
    hide Flatten, TextsFor, Lines, Tail, Told, Homed, Messages, AtHomeMessages;
    MessagesHold(s.past.status, s.past.log);
    HomesHold(s.processes, s.past, s.clients);
    forall fd | fd in s.clients ensures Carried(s.clients[fd], s.past.log, s.past.written) {
      FlagMeansData(s.poll, s.clients, s.sock, s.pipe, fd);
    }
  }

  /** The S goes to the home connection, and so does the F of every finished request while that lasts. */
  ghost predicate AtHomeMessages(past: History, clients: map<int, Client>)
  {
    && (forall n: nat, i :: SentAt(past.log, Started, n, i) ==> n in past.home && past.log[i].conn == past.home[n])
    && (forall n: nat :: n < |past.status| && past.status[n] == Finished ==>
          n in past.home && (Connected(clients, past.place, past.home[n]) ==> EndedAt(past.log, n, past.home[n])))
  }

  ghost predicate EndedAt(log: seq<Sent>, n: nat, conn: nat)
  {
    exists i :: SentAt(log, Ended, n, i) && log[i].conn == conn
  }

  lemma HomesHold(procs: map<int, Job>, past: History, clients: map<int, Client>)
    requires Homed(procs, past.status, past.home, past.place, clients, past.log)
    ensures AtHomeMessages(past, clients)
  {
    hide Connected, AtHome;
    forall n: nat, i | SentAt(past.log, Started, n, i)
      ensures n in past.home && past.log[i].conn == past.home[n] {
      assert past.log[i].kind == Started && past.log[i].serial == n;
    }
    forall n: nat | n < |past.status| && past.status[n] == Finished
      ensures n in past.home
      ensures Connected(clients, past.place, past.home[n]) ==> EndedAt(past.log, n, past.home[n]) {
      if Connected(clients, past.place, past.home[n]) { DeliveredAt(past.log, past.home[n], n); }
    }
  }

  lemma DeliveredAt(log: seq<Sent>, conn: nat, n: nat)
    requires Delivered(log, conn, n)
    ensures EndedAt(log, n, conn)
  {
    var i :| 0 <= i < |log| && log[i].conn == conn && log[i].kind == Ended && log[i].serial == n;
    assert SentAt(log, Ended, n, i);
  }
}
