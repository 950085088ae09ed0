/** What the lines of a client and the events of the prover server do to requests, limit and clients. */
module ServerSteps {
  import opened Framing
  import opened Requests
  import opened WriteBuffer
  import opened ServerState
  import opened ServerInv
  import opened ServerSaid
  import opened ServerRuns

  // ----- one line

  ghost predicate OldestOnTop(queue: seq<Job>)
  {
    forall i, j :: 0 <= i < j < |queue| ==> queue[i].serial < queue[j].serial
  }

  /** Request n waits in the queue under this id. */
  ghost predicate WaitsAs(queue: seq<Job>, n: nat, id: string)
  {
    exists i :: 0 <= i < |queue| && queue[i].serial == n && queue[i].req.id == id
  }

  /** An interrupt takes exactly the queued requests with its id off the queue, and changes nothing else. */
  lemma InterruptLine(s: State, fd: int, line: string, pid: int)
    requires Inv(s) && Parse(line, fd).Got? && Parse(line, fd).req.Interrupt?
    ensures var t, id := HandleLine(s, fd, line, pid), Parse(line, fd).req.id;
            && (forall x :: x in t.queue <==> x in s.queue && x.req.id != id)
            && OldestOnTop(s.queue) && OldestOnTop(t.queue)
            && |t.past.status| == |s.past.status|
            && (forall n :: 0 <= n < |s.past.status| ==>
                  t.past.status[n] == if WaitsAs(s.queue, n, id) then Dropped else s.past.status[n])
            && t.processes == s.processes && t.clients == s.clients && t.parallel == s.parallel && t.poll == s.poll
            && t.past.log == s.past.log && t.past.requests == s.past.requests && t.stopped == s.stopped
  {
    hide Parse, Told, Wired, Framed, Flagged, Homed, Polled, Known, Readable, Without;
    var id := Parse(line, fd).req.id;
    WithoutKeeps(s.queue, id);
    WithoutInOrder(s.queue, id);
  }

  /** A run request with a free slot starts: its process, its status, and its message to the client. */
  lemma RunLineStarts(s: State, fd: int, line: string, pid: int)
    requires Inv(s) && fd in s.clients && Parse(line, fd).Got? && Parse(line, fd).req.Run?
    requires |s.processes| < s.parallel && '\n' !in line
    ensures var t, r, n, c := HandleLine(s, fd, line, pid), Parse(line, fd).req, |s.past.status|, s.clients[fd];
            && t.processes == s.processes[pid := Job(n, r)] && t.queue == s.queue && t.parallel == s.parallel
            && t.past.requests == s.past.requests + [r] && t.past.status == s.past.status + [Running]
            && |t.past.log| == |s.past.log| + 1 && t.past.log[..|s.past.log|] == s.past.log
            && var x := t.past.log[|s.past.log|];
               && x.conn == c.conn && x.kind == Started && x.serial == n && Reads(x, r.id)
               && t.clients == s.clients[fd := c.(pending := c.pending + [x.text])]
               && PollEntry(fd, true) in t.poll
  {
    hide Placed, Told, Wired, Framed, Flagged, Homed, Known, Readable, Reads, Plain, Parse;
    var r, n, c := Parse(line, fd).req, |s.past.status|, s.clients[fd];
    ParsedKey(line, fd);
    ParsedPlain(line, fd);
    var x := Sent(c.conn, Started, n, "", StartedMsg(r.id));
    StartedReads(x, r.id);
    NewMark(s.past.status, Running);
    hide Mark;
    AskedOut(s.poll, s.clients, s.sock, s.pipe, fd);
    hide SetOut, Polled;
  }

  lemma ParsedKey(line: string, fd: int)
    ensures Parse(line, fd).Got? && Parse(line, fd).req.Run? ==> Parse(line, fd).req.key == fd
  {
    hide Split, CStr, Atoi;
  }

  lemma NewMark(status: seq<Status>, x: Status)
    ensures Mark(status + [Queued], |status|, x) == status + [x]
  {
  }

  lemma AskedOut(poll: seq<PollEntry>, clients: map<int, Client>, sock: int, pipe: int, fd: int)
    requires Polled(poll, clients, sock, pipe) && fd in clients
    ensures PollEntry(fd, true) in SetOut(poll, fd, true)
  {
    var e := PollEntry(fd, clients[fd].pending != []);
    var i :| 0 <= i < |poll| && poll[i] == e;
    assert SetOut(poll, fd, true)[i] == PollEntry(fd, true);
  }

  /** Without one it waits behind the others. */
  lemma RunLineWaits(s: State, fd: int, line: string, pid: int)
    requires Inv(s) && Parse(line, fd).Got? && Parse(line, fd).req.Run? && |s.processes| >= s.parallel
    ensures var t, r, n := HandleLine(s, fd, line, pid), Parse(line, fd).req, |s.past.status|;
            && t.queue == s.queue + [Job(n, r)] && t.processes == s.processes && t.clients == s.clients
            && t.parallel == s.parallel && t.poll == s.poll && t.past.log == s.past.log
            && t.past.requests == s.past.requests + [r] && t.past.status == s.past.status + [Queued]
  {
    hide Parse;
  }

  /** A limit is taken over as it is, and nothing else happens. */
  lemma LimitLine(s: State, fd: int, line: string, pid: int)
    requires Parse(line, fd).Limit?
    ensures var t, n := HandleLine(s, fd, line, pid), Parse(line, fd).n;
            && n >= 1 && t.parallel == n && t.queue == s.queue && t.processes == s.processes
            && t.clients == s.clients && t.poll == s.poll && t.past.status == s.past.status
            && t.past.log == s.past.log && t.past.requests == s.past.requests
  {
    LimitPositive(line, fd);
    hide Parse;
  }

  lemma OtherLine(s: State, fd: int, line: string, pid: int)
    requires Parse(line, fd).Nothing?
    ensures HandleLine(s, fd, line, pid) == s
  {
    hide Parse;
  }

  // ----- a whole read

  /** The run requests among some lines, in their order. */
  ghost function RunsIn(lines: seq<string>, fd: int): (rs: seq<Request>)
  {
    if lines == [] then [] else
      var p := Parse(lines[|lines| - 1], fd);
      RunsIn(lines[..|lines| - 1], fd) + if p.Got? && p.req.Run? then [p.req] else []
  }

  /** The last limit among some lines, or else the one before. */
  ghost function LimitAfter(lines: seq<string>, fd: int, before: int): (n: int)
  {
    if lines == [] then before else
      var p := Parse(lines[|lines| - 1], fd);
      if p.Limit? then p.n else LimitAfter(lines[..|lines| - 1], fd, before)
  }

  /** A read accepts exactly the run requests among its complete lines, and the last limit among them counts. */
  lemma ReadMeans(s: State, fd: int, chunk: string, pids: seq<int>)
    requires Allowed(s, Read(fd, chunk, pids))
    ensures var t, lines := Apply(s, Read(fd, chunk, pids)), Lines(s.clients[fd].readbuf + chunk);
            && t.past.requests == s.past.requests + RunsIn(lines, fd)
            && t.parallel == LimitAfter(lines, fd, s.parallel)
            && t.stopped == s.stopped && t.singleClient == s.singleClient && t.clients.Keys == s.clients.Keys
  {
    hide HandleLines, Lines, RunsIn, LimitAfter;
    LinesMean(Receive(s, fd, chunk), fd, Lines(s.clients[fd].readbuf + chunk), pids);
  }

  lemma {:induction false} LinesMean(s: State, fd: int, lines: seq<string>, pids: seq<int>)
    requires |pids| == |lines|
    ensures var t := HandleLines(s, fd, lines, pids);
            && t.past.requests == s.past.requests + RunsIn(lines, fd)
            && t.parallel == LimitAfter(lines, fd, s.parallel)
            && t.stopped == s.stopped && t.singleClient == s.singleClient
    decreases |lines|
  {
    hide HandleLine;
    if lines != [] {
      var n := |lines| - 1;
      var t := HandleLines(s, fd, lines[..n], pids[..n]);
      LinesMean(s, fd, lines[..n], pids[..n]);
      LineMeans(t, fd, lines[n], pids[n]);
    }
  }

  lemma LineMeans(s: State, fd: int, line: string, pid: int)
    ensures var t, p := HandleLine(s, fd, line, pid), Parse(line, fd);
            && t.past.requests == s.past.requests + (if p.Got? && p.req.Run? then [p.req] else [])
            && t.parallel == (if p.Limit? then p.n else s.parallel)
            && t.stopped == s.stopped && t.singleClient == s.singleClient
  {
    hide Parse, RunRequest, Cancelled, Without;
    var p := Parse(line, fd);
    if p.Got? && p.req.Run? {
      var t := s.(past := s.past.(requests := s.past.requests + [p.req], status := s.past.status + [Queued]));
      RunRequestSame(t, Job(|s.past.status|, p.req), pid);
    }
  }

  /** What running a request leaves alone. */
  lemma RunRequestSame(s: State, job: Job, pid: int)
    ensures var t := RunRequest(s, job, pid);
            && t.past.requests == s.past.requests && t.parallel == s.parallel && t.past.peak == s.past.peak
            && t.stopped == s.stopped && t.singleClient == s.singleClient
  {
  }

  // ----- scheduling

  /** The status that a queued job gets when its turn comes. */
  ghost function Turn(job: Job, clients: map<int, Client>): (x: Status)
  {
    if job.req.key in clients then Running else Dropped
  }

  /** Request n is one of the first k jobs. */
  ghost predicate Among(queue: seq<Job>, k: nat, n: nat)
    requires k <= |queue|
  {
    exists i :: 0 <= i < k && queue[i].serial == n
  }

  /** What taking the first k jobs off the queue does. */
  ghost predicate Taken(s: State, t: State, k: nat)
  {
    && k <= |s.queue| && t.queue == s.queue[k..] && t.clients.Keys == s.clients.Keys
    && |t.past.status| == |s.past.status|
    && (forall i :: 0 <= i < k ==> s.queue[i].serial < |s.past.status|)
    && (forall i :: 0 <= i < k ==> t.past.status[s.queue[i].serial] == Turn(s.queue[i], s.clients))
    && (forall n :: 0 <= n < |s.past.status| && !Among(s.queue, k, n) ==> t.past.status[n] == s.past.status[n])
    && t.past.requests == s.past.requests && t.parallel == s.parallel
    && t.stopped == s.stopped && t.singleClient == s.singleClient
  }

  /** schedule_new_jobs takes jobs from the front: those with a client start, the others are dropped. */
  lemma {:induction false} ScheduleMeans(s: State, forks: seq<int>) returns (k: nat)
    requires Inv(s) && |forks| == |s.queue| && JobPids(s, forks)
    ensures Taken(s, ScheduleJobs(s, forks), k)
    decreases |s.queue|
  {
    hide RunNext, InvBut, Taken;
    if CanSchedule(s) {
      var t := RunNext(s, forks[0]);
      RunNextKeeps(s, forks[0]);
      NextTaken(s, forks[0]);
      k := ScheduleMeans(t, forks[1..]);
      TakenTrans(s, t, ScheduleJobs(t, forks[1..]), k);
      k := k + 1;
    } else {
      NoneTaken(s);
      k := 0;
    }
  }

  lemma NoneTaken(s: State)
    ensures Taken(s, s, 0)
  {
  }

  lemma NextTaken(s: State, pid: int)
    requires Inv(s) && s.queue != []
    ensures Taken(s, RunNext(s, pid), 1) && OldestOnTop(s.queue)
  {
    hide Told, Wired, Framed, Flagged, Homed, Polled, Known, Readable, SetOut, RunRequest;
    var job, s1 := s.queue[0], s.(queue := s.queue[1..]);
    RunRequestSame(s1, job, pid);
    RunRequestTurn(s1, job, pid);
    forall n | 0 <= n < |s.past.status| && !Among(s.queue, 1, n) ensures n != job.serial { }
  }

  lemma RunRequestTurn(s: State, job: Job, pid: int)
    requires job.serial < |s.past.status|
    ensures RunRequest(s, job, pid).past.status == s.past.status[job.serial := Turn(job, s.clients)]
  {
    hide SetOut;
  }

  lemma TakenTrans(s: State, t: State, u: State, k: nat)
    requires Taken(s, t, 1) && Taken(t, u, k) && OldestOnTop(s.queue)
    ensures Taken(s, u, k + 1)
  {
    FirstOnce(s.queue, k);
    forall i | 0 <= i < k + 1
      ensures s.queue[i].serial < |s.past.status| && u.past.status[s.queue[i].serial] == Turn(s.queue[i], s.clients) {
      if i > 0 { assert t.queue[i - 1] == s.queue[i]; }
    }
    forall n | 0 <= n < |s.past.status| && !Among(s.queue, k + 1, n) ensures u.past.status[n] == s.past.status[n] {
      AmongRest(s.queue, k, n);
    }
  }

  lemma FirstOnce(queue: seq<Job>, k: nat)
    requires OldestOnTop(queue) && 1 <= |queue| && k < |queue|
    ensures !Among(queue[1..], k, queue[0].serial)
  {
    forall j | 0 <= j < k ensures queue[1..][j].serial != queue[0].serial { assert queue[1..][j] == queue[j + 1]; }
  }

  lemma AmongRest(queue: seq<Job>, k: nat, n: nat)
    requires 1 <= |queue| && k < |queue|
    ensures Among(queue, k + 1, n) <==> Among(queue, 1, n) || Among(queue[1..], k, n)
  {
    forall j | 0 <= j < k ensures queue[1..][j] == queue[j + 1] { }
    if i :| 0 <= i < k + 1 && queue[i].serial == n {
      if i > 0 { assert queue[1..][i - 1].serial == n; }
    }
    if j :| 0 <= j < k && queue[1..][j].serial == n { assert queue[j + 1].serial == n; }
  }

  /** Over every run: of two requests that wait, the older one leaves the queue first. */
  lemma OldestFirst(states: seq<State>, events: seq<Event>, parallel: int, sock: int, pipe: int, single: bool,
                    i: nat, m: nat, n: nat)
    requires IsRun(states, events) && states[0] == Start(parallel, sock, pipe, single)
    requires parallel >= 1 && sock >= 0 && pipe >= 0 && sock != pipe
    requires i < |events| && events[i].Schedule? && m < n < |states[i].past.status|
    requires states[i].past.status[m] == Queued && states[i].past.status[n] == Queued
    ensures n < |states[i + 1].past.status| && m < |states[i + 1].past.status|
    ensures states[i + 1].past.status[n] != Queued ==> states[i + 1].past.status[m] != Queued
  {
    hide Inv, Taken;
    var s, t := states[i], states[i + 1];
    RunKeeps(states, events, parallel, sock, pipe, single, i);
    RunGoesOn(states, events, i);
    var k := ScheduleMeans(s, events[i].forks);
    OlderToo(s, t, k, m, n);
  }

  lemma OlderToo(s: State, t: State, k: nat, m: nat, n: nat)
    requires Inv(s) && Taken(s, t, k) && m < n < |s.past.status|
    requires s.past.status[m] == Queued && s.past.status[n] == Queued
    ensures n < |t.past.status| && (t.past.status[n] != Queued ==> t.past.status[m] != Queued)
  {
    hide Told, Wired, Framed, Flagged, Homed, Polled, Known, Readable;
    if t.past.status[n] != Queued {
      assert Among(s.queue, k, n);
      var j :| 0 <= j < k && s.queue[j].serial == n;
      assert InQueue(s.queue, m);
      var i :| 0 <= i < |s.queue| && s.queue[i].serial == m;
      assert i < j;
      assert t.past.status[s.queue[i].serial] == Turn(s.queue[i], s.clients);
    }
  }

  // ----- children

  /** Request n belongs to one of the reaped children. */
  ghost predicate Reaped(procs: map<int, Job>, exits: seq<Exit>, n: nat)
  {
    exists i :: 0 <= i < |exits| && exits[i].pid in procs && procs[exits[i].pid].serial == n
  }

  /** What reaping children does: they leave the table, and their requests are finished. */
  ghost predicate Gone(s: State, t: State, exits: seq<Exit>)
  {
    && |t.past.status| == |s.past.status| && t.queue == s.queue && t.clients.Keys == s.clients.Keys
    && (forall p :: p in t.processes <==> p in s.processes && forall i :: 0 <= i < |exits| ==> exits[i].pid != p)
    && (forall p :: p in t.processes ==> t.processes[p] == s.processes[p])
    && (forall n :: 0 <= n < |s.past.status| ==>
          t.past.status[n] == if Reaped(s.processes, exits, n) then Finished else s.past.status[n])
    && t.past.requests == s.past.requests && t.parallel == s.parallel
    && t.stopped == s.stopped && t.singleClient == s.singleClient
  }

  lemma {:induction false} ChildrenMean(s: State, exits: seq<Exit>)
    requires Inv(s) && Allowed(s, Children(exits))
    ensures Gone(s, ReapAll(s, exits), exits)
    decreases |exits|
  {
    hide InvBut, Reap, Gone;
    if exits == [] {
      NoneGone(s);
    } else {
      var n := |exits| - 1;
      var t := ReapAll(s, exits[..n]);
      ChildrenMean(s, exits[..n]);
      ReapAllKeeps(s, exits[..n]);
      assert exits == exits[..n] + [exits[n]];
      OneGone(s, t, exits[..n], exits[n]);
    }
  }

  lemma NoneGone(s: State)
    ensures Gone(s, s, [])
  {
  }

  lemma OneGone(s: State, t: State, exits: seq<Exit>, x: Exit)
    requires Gone(s, t, exits) && Inv(t) && x.pid in t.past.children
    ensures Gone(s, Reap(t, x), exits + [x])
  {
    hide Told, Wired, Framed, Flagged, Homed, Polled, Known, Readable, Reap;
    var u, all := Reap(t, x), exits + [x];
    ReapTurn(t, x);
    assert x.pid in t.processes && t.processes[x.pid] == s.processes[x.pid];
    forall n | 0 <= n < |s.past.status|
      ensures Reaped(s.processes, all, n) <==> Reaped(s.processes, exits, n) || s.processes[x.pid].serial == n {
      ReapedMore(s.processes, exits, x, n);
    }
    forall p ensures p in u.processes <==> p in s.processes && forall i :: 0 <= i < |all| ==> all[i].pid != p {
      if p == x.pid { assert all[|exits|].pid == p; }
      forall i | 0 <= i < |exits| ensures all[i] == exits[i] { }
    }
  }

  lemma ReapedMore(procs: map<int, Job>, exits: seq<Exit>, x: Exit, n: nat)
    requires x.pid in procs
    ensures Reaped(procs, exits + [x], n) <==> Reaped(procs, exits, n) || procs[x.pid].serial == n
  {
    var all := exits + [x];
    if i :| 0 <= i < |exits| && exits[i].pid in procs && procs[exits[i].pid].serial == n {
      assert all[i] == exits[i];
    }
    if procs[x.pid].serial == n { assert all[|exits|] == x; }
  }

  lemma ReapTurn(s: State, x: Exit)
    requires x.pid in s.processes && s.processes[x.pid].serial < |s.past.status|
    ensures var t := Reap(s, x);
            && t.past.status == s.past.status[s.processes[x.pid].serial := Finished]
            && t.processes == s.processes - {x.pid} && t.queue == s.queue && t.clients.Keys == s.clients.Keys
            && t.past.requests == s.past.requests && t.parallel == s.parallel
            && t.stopped == s.stopped && t.singleClient == s.singleClient
  {
    hide SetOut;
  }

  // ----- clients

  /** Only accept and close change who is connected, and only close can stop the server. */
  lemma ApplyClients(s: State, e: Event)
    requires Inv(s) && Allowed(s, e)
    ensures var t := Apply(s, e);
            && t.clients.Keys == (if e.Accept? then s.clients.Keys + {e.fd}
                                  else if e.Close? then s.clients.Keys - {e.fd} else s.clients.Keys)
            && t.singleClient == s.singleClient
            && (t.stopped <==> e.Close? && s.singleClient && t.clients == map[])
  {
    hide Inv, Cleaned, LinePids, JobPids, HandleLines, ReapAll, ScheduleJobs, SetOut, AfterWrite, Forget, Gone, Taken;
    match e
    case Read(fd, chunk, pids) => ReadMeans(s, fd, chunk, pids);
    case Children(exits) =>
      ChildrenMean(s, exits);
      GoneClients(s, ReapAll(s, exits), exits);
    case Schedule(forks) =>
      var k := ScheduleMeans(s, forks);
      TakenClients(s, ScheduleJobs(s, forks), k);
    case _ =>
  }

  lemma GoneClients(s: State, t: State, exits: seq<Exit>)
    requires Gone(s, t, exits)
    ensures t.clients.Keys == s.clients.Keys && t.stopped == s.stopped && t.singleClient == s.singleClient
  {
  }

  lemma TakenClients(s: State, t: State, k: nat)
    requires Taken(s, t, k)
    ensures t.clients.Keys == s.clients.Keys && t.stopped == s.stopped && t.singleClient == s.singleClient
  {
  }

  /** Over every run: the server has stopped exactly after the close of the last client of a single-client server. */
  lemma {:induction false} StopsExactly(states: seq<State>, events: seq<Event>, parallel: int, sock: int, pipe: int,
                                        single: bool, i: nat)
    requires IsRun(states, events) && i < |states| && states[0] == Start(parallel, sock, pipe, single)
    requires parallel >= 1 && sock >= 0 && pipe >= 0 && sock != pipe
    ensures states[i].singleClient == single
    ensures states[i].stopped <==> i > 0 && single && events[i - 1].Close? && states[i].clients == map[]
    decreases i
  {
    hide Inv, Apply, Allowed;
    if i > 0 {
      StopsExactly(states, events, parallel, sock, pipe, single, i - 1);
      RunKeeps(states, events, parallel, sock, pipe, single, i - 1);
      RunGoesOn(states, events, i - 1);
      ApplyClients(states[i - 1], events[i - 1]);
    }
  }

  /** The connection on fd accepted by event j has not been closed before state i. */
  ghost predicate OpenSince(events: seq<Event>, fd: int, j: nat, i: nat)
    requires i <= |events|
  {
    j < i && events[j] == Accept(fd) && forall k :: j < k < i ==> events[k] != Close(fd)
  }

  /** Over every run: the clients are exactly those accepted and not closed since. */
  lemma {:induction false} ClientsExactly(states: seq<State>, events: seq<Event>, parallel: int, sock: int, pipe: int,
                                          single: bool, fd: int, i: nat)
    requires IsRun(states, events) && i < |states| && states[0] == Start(parallel, sock, pipe, single)
    requires parallel >= 1 && sock >= 0 && pipe >= 0 && sock != pipe
    ensures fd in states[i].clients <==> exists j: nat :: OpenSince(events, fd, j, i)
    decreases i
  {
    hide Inv, Apply, Allowed, OpenSince;
    if i == 0 {
      NeverOpen(events, fd);
    } else {
      ClientsExactly(states, events, parallel, sock, pipe, single, fd, i - 1);
      RunKeeps(states, events, parallel, sock, pipe, single, i - 1);
      RunGoesOn(states, events, i - 1);
      ApplyClients(states[i - 1], events[i - 1]);
      StillOpen(events, fd, i - 1, i);
    }
  }

  lemma NeverOpen(events: seq<Event>, fd: int)
    ensures !exists j: nat :: OpenSince(events, fd, j, 0)
  {
  }

  lemma StillOpen(events: seq<Event>, fd: int, h: nat, i: nat)
    requires i == h + 1 && i <= |events|
    ensures (exists j: nat :: OpenSince(events, fd, j, i)) <==>
            events[h] == Accept(fd) || (events[h] != Close(fd) && exists j: nat :: OpenSince(events, fd, j, h))
  {
    if j: nat :| OpenSince(events, fd, j, i) {
      if j < h { assert OpenSince(events, fd, j, h); }
    }
    if events[h] == Accept(fd) { assert OpenSince(events, fd, h, i); }
    if events[h] != Close(fd) {
      if j: nat :| OpenSince(events, fd, j, h) { assert OpenSince(events, fd, j, i); }
    }
  }

  // ----- interrupted requests

  /** Over every run: a request that was dropped stays dropped, and no S message is ever pushed for it. */
  lemma NeverStarts(states: seq<State>, events: seq<Event>, parallel: int, sock: int, pipe: int, single: bool,
                    i: nat, j: nat, n: nat)
    requires IsRun(states, events) && i <= j < |states| && states[0] == Start(parallel, sock, pipe, single)
    requires parallel >= 1 && sock >= 0 && pipe >= 0 && sock != pipe
    requires n < |states[i].past.status| && states[i].past.status[n] == Dropped
    ensures n < |states[j].past.status| && states[j].past.status[n] == Dropped
    ensures forall k :: !SentAt(states[j].past.log, Started, n, k)
  {
    hide Inv, Apply, Allowed, SentAt;
    RunForward(states, events, parallel, sock, pipe, single, i, j);
    var s := LastSound(states, events, parallel, sock, pipe, single, j);
    InvTold(s);
    StartOf(s.past.status, s.past.log, n);
    assert !WasStarted(s.past.status, n);
  }

  /** The state itself, or the one before the assertion that ended the run; both have the same past. */
  lemma LastSound(states: seq<State>, events: seq<Event>, parallel: int, sock: int, pipe: int, single: bool, j: nat)
    returns (s: State)
    requires IsRun(states, events) && j < |states| && states[0] == Start(parallel, sock, pipe, single)
    requires parallel >= 1 && sock >= 0 && pipe >= 0 && sock != pipe
    ensures Inv(s) && s.past == states[j].past
  {
    hide Inv, Apply, Allowed;
    RunKeeps(states, events, parallel, sock, pipe, single, j);
    s := states[j];
    if s.crashed {
      assert j > 0;
      RunKeeps(states, events, parallel, sock, pipe, single, j - 1);
      RunGoesOn(states, events, j - 1);
      ApplyKeeps(states[j - 1], events[j - 1]);
      NotCrashed(s);
      s := states[j - 1];
    }
  }

  lemma InvTold(s: State)
    requires Inv(s)
    ensures Told(s.past.status, s.past.log)
  {
  }

  // ----- the process limit

  /** n is the limit the server started with, or one that a line read before state i asked for. */
  ghost predicate WasLimit(states: seq<State>, events: seq<Event>, i: nat, n: int)
    requires IsRun(states, events) && i < |states|
  {
    n == states[0].parallel || exists j, k :: 0 <= j < i && AsksFor(states[j], events[j], k, n)
  }

  /** Line k of this event asks for the limit n. */
  ghost predicate AsksFor(s: State, e: Event, k: int, n: int)
  {
    e.Read? && e.fd in s.clients &&
    var lines := Lines(s.clients[e.fd].readbuf + e.chunk);
    0 <= k < |lines| && Parse(lines[k], e.fd) == Limit(n)
  }

  /** Over every run: never more processes than the first limit or some limit asked for so far. */
  lemma ProcessesBounded(states: seq<State>, events: seq<Event>, parallel: int, sock: int, pipe: int, single: bool,
                         i: nat) returns (n: int)
    requires IsRun(states, events) && i < |states| && states[0] == Start(parallel, sock, pipe, single)
    requires parallel >= 1 && sock >= 0 && pipe >= 0 && sock != pipe
    ensures WasLimit(states, events, i, n)
    ensures !states[i].crashed ==> |states[i].processes| <= n
  {
    hide InvBut, Apply, Allowed, WasLimit, IsRun;
    PeakWasLimit(states, events, parallel, sock, pipe, single, i);
    RunKeeps(states, events, parallel, sock, pipe, single, i);
    n := states[i].past.peak;
    BelowPeak(states[i]);
  }

  lemma BelowPeak(s: State)
    ensures Inv(s) ==> |s.processes| <= s.past.peak
  {
    hide Told, Wired, Framed, Flagged, Homed, Polled, Known, Readable, Placed;
  }

  lemma {:induction false} PeakWasLimit(states: seq<State>, events: seq<Event>, parallel: int, sock: int, pipe: int,
                                        single: bool, i: nat)
    requires IsRun(states, events) && i < |states| && states[0] == Start(parallel, sock, pipe, single)
    requires parallel >= 1 && sock >= 0 && pipe >= 0 && sock != pipe
    ensures WasLimit(states, events, i, states[i].past.peak)
    decreases i
  {
    hide Inv, Apply, Allowed, AsksFor;
    if i > 0 {
      PeakWasLimit(states, events, parallel, sock, pipe, single, i - 1);
      RunKeeps(states, events, parallel, sock, pipe, single, i - 1);
      RunGoesOn(states, events, i - 1);
      var k := ApplyPeak(states[i - 1], events[i - 1]);
    }
  }

  /** An event keeps the peak, or raises it to a limit that it asks for. */
  lemma ApplyPeak(s: State, e: Event) returns (k: int)
    requires Inv(s) && Allowed(s, e)
    ensures Apply(s, e).past.peak == s.past.peak || AsksFor(s, e, k, Apply(s, e).past.peak)
  {
    hide Inv, Cleaned, LinePids, JobPids, HandleLines, ReapAll, ScheduleJobs, SetOut, AfterWrite, Forget, Lines, Parse;
    k := 0;
    match e
    case Read(fd, chunk, pids) =>
      k := LinesPeak(Receive(s, fd, chunk), fd, Lines(s.clients[fd].readbuf + chunk), pids);
    case Children(exits) => ReapPeak(s, exits);
    case Schedule(forks) => SchedulePeak(s, forks);
    case _ =>
  }

  lemma {:induction false} LinesPeak(s: State, fd: int, lines: seq<string>, pids: seq<int>) returns (k: int)
    requires |pids| == |lines|
    ensures var n := HandleLines(s, fd, lines, pids).past.peak;
            n == s.past.peak || (0 <= k < |lines| && Parse(lines[k], fd) == Limit(n))
    decreases |lines|
  {
    hide HandleLine, Parse;
    k := 0;
    if lines != [] {
      var n := |lines| - 1;
      k := LinesPeak(s, fd, lines[..n], pids[..n]);
      var t := HandleLines(s, fd, lines[..n], pids[..n]);
      LinePeak(t, fd, lines[n], pids[n]);
      if HandleLine(t, fd, lines[n], pids[n]).past.peak != t.past.peak { k := n; }
    }
  }

  lemma LinePeak(s: State, fd: int, line: string, pid: int)
    ensures var n := HandleLine(s, fd, line, pid).past.peak; n == s.past.peak || Parse(line, fd) == Limit(n)
  {
    hide Parse, RunRequest, Cancelled, Without;
    var p := Parse(line, fd);
    if p.Got? && p.req.Run? {
      var t := s.(past := s.past.(requests := s.past.requests + [p.req], status := s.past.status + [Queued]));
      RunRequestSame(t, Job(|s.past.status|, p.req), pid);
    }
  }

  lemma {:induction false} ReapPeak(s: State, exits: seq<Exit>)
    ensures ReapAll(s, exits).past.peak == s.past.peak
    decreases |exits|
  {
    hide Reap;
    if exits != [] {
      var n := |exits| - 1;
      ReapPeak(s, exits[..n]);
      ReapSame(ReapAll(s, exits[..n]), exits[n]);
    }
  }

  lemma ReapSame(s: State, x: Exit)
    ensures Reap(s, x).past.peak == s.past.peak
  {
    hide SetOut, Mark;
  }

  lemma {:induction false} SchedulePeak(s: State, forks: seq<int>)
    requires |forks| == |s.queue|
    ensures ScheduleJobs(s, forks).past.peak == s.past.peak
    decreases |s.queue|
  {
    hide RunRequest;
    if CanSchedule(s) {
      RunRequestSame(s.(queue := s.queue[1..]), s.queue[0], forks[0]);
      SchedulePeak(RunNext(s, forks[0]), forks[1..]);
    }
  }
}
