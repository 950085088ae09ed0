/**
 The event loop of the Unix prover server (server-unix.c) over its real queue,
 tables and buffers.  System calls are methods that may return anything the
 operating system guarantees, and each handler is an event of the state machine.
 */
module Server {
  import opened RadixText
  import opened Framing
  import opened Requests
  import opened WriteBuffer
  import opened ServerState
  import opened ServerInv
  import opened ServerSaid
  import opened ServerRuns
  import opened ServerLoop
  import opened Stores

  datatype ReadResult = ReadError | EndOfFile | Bytes(bytes: string)

  method NewStores(parallel: nat) returns (jobs: JobStore, clients: ClientStore)
    requires parallel > 0
    ensures jobs.Valid() && clients.Valid() && fresh(jobs.repr) && fresh(clients.repr) && jobs.repr !! clients.repr
    ensures jobs in jobs.repr && clients in clients.repr
    ensures jobs.queued == [] && jobs.running == map[] && clients.view == map[]
  {
    hide JobStore.Valid, ClientStore.Valid;
    jobs := new JobStore(parallel);
    clients := new ClientStore(parallel);
  }

  class Server {
    var parallel: int
    const jobs: JobStore
    const clients: ClientStore
    var poll: seq<PollEntry>
    var revents: seq<Ready>
    const sock: int
    const pipe: int
    const singleClient: bool
    var stopped: bool
    /** An assertion has failed. */
    var crashed: bool
    /** Serial numbers for jobs and for connections. */
    var accepted: nat
    var connections: nat
    ghost var past: History

    ghost function View(): (s: State)
      reads this, jobs, clients
    {
      State(parallel, clients.view, jobs.running, jobs.queued, poll, sock, pipe, singleClient, stopped, crashed, past)
    }

    /** The stores are sound and share nothing. */
    ghost predicate Sound()
      reads this, jobs, jobs.repr, clients, clients.repr
    {
      && jobs.Valid() && clients.Valid() && jobs in jobs.repr && clients in clients.repr
      && jobs.repr !! clients.repr && this !in jobs.repr && this !in clients.repr
      && |revents| == |poll|
    }

    ghost predicate Ok()
      reads this, jobs, jobs.repr, clients, clients.repr
    {
      Sound() && Inv(View()) && !crashed && accepted == |past.status| && connections == |past.place|
    }

    /** The globals before the first turn, with empty stores. */
    constructor (parallel0: int, sock0: int, pipe0: int, single: bool, js: JobStore, cs: ClientStore)
      requires parallel0 >= 1 && sock0 >= 0 && pipe0 >= 0 && sock0 != pipe0
      requires js.Valid() && cs.Valid() && js in js.repr && cs in cs.repr && js.repr !! cs.repr
      requires js.queued == [] && js.running == map[] && cs.view == map[]
      ensures jobs == js && clients == cs && View() == Start(parallel0, sock0, pipe0, single) && Ok()
    {
      hide Inv, JobStore.Valid, ClientStore.Valid;
      accepted, connections := 0, 0;
      parallel, stopped, crashed := parallel0, false, false;
      jobs, clients := js, cs;
      sock, pipe, singleClient := sock0, pipe0, single;
      poll, revents := [PollEntry(sock0, false), PollEntry(pipe0, false)], [NOT_READY, NOT_READY];
      past := History([], [], map[], [], [], map[], map[], map[], {}, parallel0, {});
      new;
      StartKeeps(parallel0, sock0, pipe0, single);
    }

    /** poll_list_lookup */
    method PollLookup(fd: int) returns (i: int)
      ensures -1 <= i < |poll| && (i >= 0 ==> poll[i].fd == fd)
      ensures i == -1 ==> forall k :: 0 <= k < |poll| ==> poll[k].fd != fd
    {
      i := 0;
      while i < |poll|
        invariant 0 <= i <= |poll| && forall k :: 0 <= k < i ==> poll[k].fd != fd
      {
        if poll[i].fd == fd { return; }
        i := i + 1;
      }
      i := -1;
    }

    /** queue_write */
    method QueueWrite(fd: int, text: string, ghost kind: Kind, ghost serial: nat, ghost detail: string)
      requires Sound() && fd in clients.view && Polled(poll, clients.view, sock, pipe)
      modifies this`poll, this`past, clients.repr
      ensures Sound() && fresh(clients.repr - old(clients.repr))
      ensures View() == ServerState.QueueWrite(old(View()), fd, kind, serial, detail, text)
      ensures |poll| == old(|poll|) && PollUp(old(poll), poll)
    {
      hide Polled, SetOut, PollUp, JobStore.Valid, ClientStore.Valid;
      HasEntry(poll, clients.view, sock, pipe, fd);
      var i := PollLookup(fd);
      SetOutAt(poll, clients.view, sock, pipe, fd, i, true);
      past := past.(log := past.log + [Sent(clients.view[fd].conn, kind, serial, detail, text)]);
      clients.Push(fd, text);
      poll := poll[i := PollEntry(fd, true)];
    }

    /** run_request */
    method RunRequest(job: Job) returns (ghost pid: int)
      requires Sound() && InvBut(View(), job.serial) && |jobs.running| < parallel
      requires job.serial < |past.requests| && past.requests[job.serial] == job.req
      modifies this`poll, this`past, jobs.repr, clients.repr
      ensures Sound() && fresh(clients.repr - old(clients.repr)) && fresh(jobs.repr - old(jobs.repr))
      ensures pid !in old(past.children) && View() == ServerState.RunRequest(old(View()), job, pid) && Inv(View())
      ensures |poll| == old(|poll|) && PollUp(old(poll), poll)
    {
      hide Placed, Known, Readable, Told, Wired, Framed, Flagged, Homed, Polled, Mark, PollUp, ServerState.QueueWrite,
        JobStore.Valid, ClientStore.Valid;
      var id := jobs.Fork();
      pid := id;
      RunRequestKeeps(View(), job, id);
      var key := job.req.key;
      var there := clients.Has(key);
      if !there {
        past := past.(status := Mark(past.status, job.serial, Dropped));
        PollSame(poll);
        return;
      }
      past := past.(status := Mark(past.status, job.serial, Running),
                    home := past.home[job.serial := clients.view[key].conn], children := past.children + {id});
      jobs.Add(id, job);
      QueueWrite(key, StartedMsg(job.req.id), Started, job.serial, "");
    }

    /** One line for handle_msg: parse it and act on it. */
    method HandleLine(fd: int, line: string) returns (ghost pid: int)
      requires Ok() && '\n' !in line
      modifies this`accepted, this`parallel, this`poll, this`past, jobs.repr, clients.repr
      ensures Ok() && fresh(clients.repr - old(clients.repr)) && fresh(jobs.repr - old(jobs.repr))
      ensures pid !in old(past.children) && View() == ServerState.HandleLine(old(View()), fd, line, pid)
      ensures |poll| == old(|poll|) && PollUp(old(poll), poll)
    {
      hide Inv, Parse, Without, ServerState.RunRequest, Cancelled, PollUp, JobStore.Valid, ClientStore.Valid;
      ghost var s := View();
      pid := NewPid(s);
      var r, limit := ParseRequest(line, fd, parallel);
      PollSame(poll);
      if r.None? {
        HandleLineKeeps(s, fd, line, pid);
        past := past.(peak := if Parse(line, fd).Limit? then Max(past.peak, limit) else past.peak);
        parallel := limit;
      } else if r.value.Run? {
        ParsedPlain(line, fd);
        pid := SubmitRun(r.value);
        HandleLineKeeps(s, fd, line, pid);
      } else {
        HandleLineKeeps(s, fd, line, pid);
        past := past.(status := Cancelled(jobs.queued, past.status, r.value.id));
        jobs.RemoveId(r.value.id);
      }
    }

    /** The REQ_RUN case: run at once while there is a free slot, else queue. */
    method SubmitRun(req: Request) returns (ghost pid: int)
      requires Ok() && req.Run? && Plain(req.id)
      modifies this`accepted, this`poll, this`past, jobs.repr, clients.repr
      ensures Sound() && fresh(clients.repr - old(clients.repr)) && fresh(jobs.repr - old(jobs.repr))
      ensures pid !in old(past.children) && View() == Submit(old(View()), req, pid) && accepted == |past.status|
      ensures |poll| == old(|poll|) && PollUp(old(poll), poll)
    {
      hide InvBut, PollUp, ServerState.RunRequest, JobStore.Valid, ClientStore.Valid;
      ghost var s := View();
      pid := NewPid(s);
      PollSame(poll);
      SubmitBetween(s, req);
      var job := Job(accepted, req);
      accepted := accepted + 1;
      past := past.(requests := past.requests + [req], status := past.status + [Queued]);
      var n := jobs.Count();
      if n < parallel {
        pid := RunRequest(job);
      } else {
        jobs.Enqueue(job);
      }
    }

    /** have_read and handle_msg; the event it makes is returned. */
    method HandleMsg(fd: int, chunk: string) returns (ghost e: Event)
      requires Ok() && !stopped && fd in clients.view
      modifies this`accepted, this`parallel, this`poll, this`past, jobs.repr, clients.repr
      ensures Ok() && fresh(clients.repr - old(clients.repr)) && fresh(jobs.repr - old(jobs.repr))
      ensures e.Read? && Allowed(old(View()), e) && View() == Apply(old(View()), e)
      ensures |poll| == old(|poll|) && PollUp(old(poll), poll)
    {
      hide Inv, PollUp, Lines, HandleLines, Receive, JobStore.Valid, ClientStore.Valid;
      ReceiveKeeps(View(), fd, chunk);
      LinesPlain(clients.view[fd].readbuf + chunk);
      var lines := ReceiveBytes(fd, chunk);
      ghost var pids := HandleAll(fd, lines);
      e := Read(fd, chunk, pids);
    }

    /** The bytes go into the read buffer, the complete lines come out of it. */
    method ReceiveBytes(fd: int, chunk: string) returns (lines: seq<string>)
      requires Sound() && fd in clients.view
      modifies this`past, clients.repr
      ensures Sound() && fresh(clients.repr - old(clients.repr))
      ensures View() == Receive(old(View()), fd, chunk) && lines == Lines(old(clients.view)[fd].readbuf + chunk)
    {
      hide Lines, Tail, JobStore.Valid, ClientStore.Valid;
      ghost var view, c := clients.view, clients.view[fd];
      clients.Received(fd, chunk);
      lines := clients.TakeLines(fd);
      assert clients.view == view[fd := c.(readbuf := Tail(c.readbuf + chunk))];
      past := past.(received := Add(past.received, c.conn, chunk), lines := Add(past.lines, c.conn, lines));
    }

    /** The lines of handle_msg, one after the other. */
    method HandleAll(fd: int, lines: seq<string>) returns (ghost pids: seq<int>)
      requires Ok() && forall i :: 0 <= i < |lines| ==> '\n' !in lines[i]
      modifies this`accepted, this`parallel, this`poll, this`past, jobs.repr, clients.repr
      ensures Ok() && fresh(clients.repr - old(clients.repr)) && fresh(jobs.repr - old(jobs.repr))
      ensures |pids| == |lines| && LinePids(old(View()), fd, lines, pids)
              && View() == HandleLines(old(View()), fd, lines, pids)
      ensures |poll| == old(|poll|) && PollUp(old(poll), poll)
    {
      hide Inv, PollUp, ServerState.HandleLine, JobStore.Valid, ClientStore.Valid;
      ghost var s := View();
      pids := [];
      PollSame(poll);
      for i := 0 to |lines|
        invariant Ok() && fresh(clients.repr - old(clients.repr)) && fresh(jobs.repr - old(jobs.repr))
        invariant |pids| == i && LinePids(s, fd, lines[..i], pids) && View() == HandleLines(s, fd, lines[..i], pids)
        invariant |poll| == |s.poll| && PollUp(s.poll, poll)
      {
        ghost var poll1 := poll;
        ghost var pid := HandleLine(fd, lines[i]);
        PollTrans(s.poll, poll1, poll);
        SnocLines(s, fd, lines[..i], pids, lines[i], pid);
        assert lines[..i + 1] == lines[..i] + [lines[i]];
        pids := pids + [pid];
      }
      assert lines[..|lines|] == lines;
    }

    /** wait3 with WNOHANG: some exited child that has not been reaped, or none. */
    method Wait() returns (r: Option<Exit>)
      requires jobs.Valid() && past.children == jobs.running.Keys
      ensures r.Some? ==> r.value.pid in past.children
    {
      var detail: string := *;
      var p := jobs.Exited();
      r := if p.None? then None else Some(Exit(p.value, detail));
    }

    /** handle_child_events */
    method HandleChildEvents() returns (ghost e: Event)
      requires Ok() && !stopped
      modifies this`poll, this`past, jobs.repr, clients.repr
      ensures Ok() && fresh(clients.repr - old(clients.repr)) && fresh(jobs.repr - old(jobs.repr))
      ensures e.Children? && Allowed(old(View()), e) && View() == Apply(old(View()), e)
      ensures |poll| == old(|poll|) && PollUp(old(poll), poll)
    {
      hide InvBut, PollUp, ServerState.Reap, JobStore.Valid, ClientStore.Valid;
      ghost var s, exits: seq<Exit> := View(), [];
      PollSame(poll);
      while true
        invariant Ok() && fresh(clients.repr - old(clients.repr)) && fresh(jobs.repr - old(jobs.repr))
        invariant View() == ReapAll(s, exits) && Allowed(s, Children(exits))
        invariant past.children <= s.past.children && forall i :: 0 <= i < |exits| ==> exits[i].pid !in past.children
        invariant |poll| == |s.poll| && PollUp(s.poll, poll)
        decreases past.children
      {
        KnownChildren(View());
        var x := Wait();
        if x.None? { break; }
        ghost var poll1 := poll;
        Reap(x.value);
        PollTrans(s.poll, poll1, poll);
        SnocExits(s, exits, x.value);
        exits := exits + [x.value];
      }
      e := Children(exits);
    }

    /** One reaped child: it is in the table, so the lookup cannot fail. */
    method Reap(x: Exit)
      requires Ok() && x.pid in past.children
      modifies this`poll, this`past, jobs.repr, clients.repr
      ensures Ok() && fresh(clients.repr - old(clients.repr)) && fresh(jobs.repr - old(jobs.repr))
      ensures View() == ServerState.Reap(old(View()), x) && past.children == old(past.children) - {x.pid}
      ensures |poll| == old(|poll|) && PollUp(old(poll), poll)
    {
      hide InvBut, Polled, Mark, PollUp, ServerState.QueueWrite, JobStore.Valid, ClientStore.Valid;
      ReapKeeps(View(), x);
      KnownChildren(View());
      InvPolled(View());
      var child := jobs.Take(x.pid);
      past := past.(status := Mark(past.status, child.serial, Finished), children := past.children - {x.pid});
      var there := clients.Has(child.req.key);
      if there {
        QueueWrite(child.req.key, EndedMsg(child.req.id, x.detail), Ended, child.serial, x.detail);
      } else {
        PollSame(poll);
      }
    }

    /** Pop a job and run it. */
    method StartNext() returns (ghost pid: int)
      requires Ok() && CanSchedule(View())
      modifies this`poll, this`past, jobs.repr, clients.repr
      ensures Ok() && fresh(clients.repr - old(clients.repr)) && fresh(jobs.repr - old(jobs.repr))
      ensures pid !in old(past.children) && View() == RunNext(old(View()), pid)
    {
      hide Placed, Known, Readable, Told, Wired, Framed, Flagged, Homed, Polled, ServerState.RunRequest, JobStore.Valid,
          ClientStore.Valid;
      PlacedTake(jobs.running, jobs.queued, past.status);
      KnownTake(past.requests, |past.status|, jobs.queued, jobs.running);
      var r := jobs.Dequeue();
      pid := RunRequest(r);
    }

    /** schedule_new_jobs */
    method ScheduleNewJobs() returns (ghost e: Event)
      requires Ok() && !stopped
      modifies this`poll, this`past, jobs.repr, clients.repr
      ensures Ok() && fresh(clients.repr - old(clients.repr)) && fresh(jobs.repr - old(jobs.repr))
      ensures e.Schedule? && Allowed(old(View()), e) && View() == Apply(old(View()), e)
      ensures jobs.queued == [] || |jobs.running| >= parallel
    {
      hide Inv, RunNext, Schedules, JobStore.Valid, ClientStore.Valid;
      ghost var s, forks: seq<int> := View(), [];
      NoJobYet(s);
      var n := jobs.Count();
      var more := jobs.HasQueued();
      while n < parallel && more
        invariant Ok() && !stopped && n == |jobs.running| && (more <==> jobs.queued != [])
        invariant fresh(clients.repr - old(clients.repr)) && fresh(jobs.repr - old(jobs.repr))
        invariant Schedules(s, forks, View())
        decreases |jobs.queued|
      {
        ghost var t := View();
        ghost var pid := StartNext();
        OneMoreJob(s, forks, pid, t);
        forks := forks + [pid];
        n := jobs.Count();
        more := jobs.HasQueued();
      }
      forks := AllJobs(s, forks, View());
      e := Schedule(forks);
    }

    /** server_accept_client */
    method AcceptClient() returns (ghost e: Event)
      requires Ok() && !stopped
      modifies this`connections, this`poll, this`revents, this`past, clients.repr
      ensures Ok() && fresh(clients.repr - old(clients.repr))
      ensures e.Accept? && Allowed(old(View()), e) && View() == Apply(old(View()), e)
      ensures poll == old(poll) + [PollEntry(e.fd, false)] && revents == old(revents) + [NOT_READY]
    {
      hide Inv, JobStore.Valid, ClientStore.Valid;
      var fd := clients.NewFd(sock, pipe);
      e := Accept(fd);
      AcceptKeeps(View(), fd);
      SomeLimit(View());
      past := past.(place := past.place + [fd], written := past.written[connections := ""],
                    received := past.received[connections := ""], lines := past.lines[connections := []]);
      clients.Add(fd, connections, parallel);
      poll := poll + [PollEntry(fd, false)];
      revents := revents + [NOT_READY];
      connections := connections + 1;
    }

    /** poll_list_remove */
    method PollListRemove(fd: int)
      requires fd in clients.view && Polled(poll, clients.view, sock, pipe) && |revents| == |poll|
      modifies this`poll, this`revents
      ensures poll == Forget(old(poll), fd) && PollUp(old(poll), poll) && |revents| == |poll|
      ensures forall k :: 0 <= k < |poll| ==> revents[k] == old(revents)[k] || revents[k] == NOT_READY
    {
      hide Polled, Forget, PollUp;
      HasEntry(poll, clients.view, sock, pipe, fd);
      var i := PollLookup(fd);
      ForgetAt(poll, clients.view, sock, pipe, fd, i);
      poll := poll[i := poll[i].(fd := -1)];
      revents := revents[i := NOT_READY];
    }

    /** close_client */
    method CloseClient(fd: int) returns (ghost e: Event)
      requires Ok() && !stopped && fd in clients.view
      modifies this`poll, this`revents, this`stopped, clients.repr
      ensures Ok() && fresh(clients.repr - old(clients.repr))
      ensures e == Close(fd) && Allowed(old(View()), e) && View() == Apply(old(View()), e)
      ensures |poll| == old(|poll|) && PollUp(old(poll), poll)
      ensures forall k :: 0 <= k < |poll| ==> revents[k] == old(revents)[k] || revents[k] == NOT_READY
    {
      hide Inv, Polled, Forget, PollUp, JobStore.Valid, ClientStore.Valid;
      e := Close(fd);
      CloseKeeps(View(), fd);
      InvPolled(View());
      PollListRemove(fd);
      clients.Remove(fd);
      var none := clients.IsEmpty();
      if singleClient && none { stopped := true; }
    }

    /** write: some of the bytes, or -1. */
    method WriteBytes(bytes: string) returns (n: int)
      ensures -1 <= n <= |bytes|
    {
      n := *;
      if n < -1 || n > |bytes| { n := |bytes|; }
    }

    /** write_to_client, for poll entry i, which asked for POLLOUT; prepare_write checks that no write is under way. */
    method WriteToClient(i: nat) returns (ghost e: Event)
      requires Ok() && !stopped && i < |poll| && poll[i].fd in clients.view && poll[i].out
      modifies this`poll, this`crashed, this`past, clients.repr
      ensures Sound() && (crashed || Ok()) && fresh(clients.repr - old(clients.repr))
      ensures e.Write? && Allowed(old(View()), e) && View() == Apply(old(View()), e)
      ensures |poll| == old(|poll|) && poll[i].fd == old(poll)[i].fd
      ensures forall k :: 0 <= k < |poll| && k != i ==> poll[k] == old(poll)[k]
    {
      hide Inv, Polled, SetOut, AfterWrite, JobStore.Valid, ClientStore.Valid;
      var fd := poll[i].fd;
      ghost var s, c := View(), clients.view[fd];
      assert poll[i] == PollEntry(fd, true);
      InvPolled(s);
      FlagMeansData(poll, clients.view, sock, pipe, fd);
      SetOutAt(poll, clients.view, sock, pipe, fd, i, false);
      e := Event.Write(fd, -1);
      var writing, data := clients.Status(fd);
      if writing {
        crashed := true;
        return;
      }
      var n := WriteOnce(fd);
      e := Event.Write(fd, n);
      WriteKeeps(s, fd, n);
      if n == -1 {
        past := past.(failed := past.failed + {c.conn});
        return;
      }
      past := past.(written := Add(past.written, c.conn, c.pending[0][..n]));
      writing, data := clients.Status(fd);
      if !data { poll := poll[i := PollEntry(fd, false)]; }
    }

    /** prepare_write, write, and have_written unless it failed */
    method WriteOnce(fd: int) returns (n: int)
      requires Sound() && fd in clients.view && !clients.view[fd].writing && clients.view[fd].pending != []
      modifies clients.repr
      ensures Sound() && fresh(clients.repr - old(clients.repr)) && -1 <= n <= |old(clients.view)[fd].pending[0]|
      ensures var c := old(clients.view)[fd];
              clients.view == old(clients.view)[fd := if n == -1 then c.(writing := true)
                                                     else c.(pending := AfterWrite(c.pending, n))]
    {
      hide AfterWrite, JobStore.Valid, ClientStore.Valid;
      ghost var view, c := clients.view, clients.view[fd];
      var bytes := clients.Prepare(fd);
      n := WriteBytes(bytes);
      if n != -1 {
        clients.Written(fd, n);
        assert clients.view == view[fd := c.(pending := AfterWrite(c.pending, n))];
      }
    }

    /** read: an error, the end, or bytes. */
    method ReadBytes() returns (r: ReadResult)
    {
      r := *;
    }

    /** read_on_client */
    method ReadOnClient(fd: int) returns (ghost es: seq<Event>)
      requires Ok() && !stopped && fd in clients.view
      modifies this`accepted, this`parallel, this`poll, this`revents, this`stopped, this`past, jobs.repr, clients.repr
      ensures Ok() && fresh(clients.repr - old(clients.repr)) && fresh(jobs.repr - old(jobs.repr))
      ensures Plays(old(View()), es, View())
      ensures |poll| == old(|poll|) && PollUp(old(poll), poll)
      ensures forall k :: 0 <= k < |poll| ==> revents[k] == old(revents)[k] || revents[k] == NOT_READY
    {
      hide Inv, Apply, Allowed, PollUp, JobStore.Valid, ClientStore.Valid;
      var r := ReadBytes();
      PollSame(poll);
      es := [];
      NoEvent(View());
      ghost var s, e := View(), Close(fd);
      if r.EndOfFile? {
        e := CloseClient(fd);
        OneEvent(s, e);
        es := [e];
      } else if r.Bytes? && r.bytes != "" {
        e := HandleMsg(fd, r.bytes);
        OneEvent(s, e);
        es := [e];
      }
    }

    /** poll_list_clean: the last entry takes the place of a forgotten one. */
    method PollListClean() returns (ghost e: Event)
      requires Ok() && !stopped
      modifies this`poll, this`revents
      ensures e.Clean? && Allowed(old(View()), e) && View() == Apply(old(View()), e) && Ok()
    {
      hide Inv, Polled, SameLive, LiveDiffer, JobStore.Valid, ClientStore.Valid;
      InvPolled(View());
      PolledDiffer(poll, clients.view, sock, pipe);
      ghost var poll0 := poll;
      var i := 0;
      while i < |poll|
        invariant 0 <= i <= |poll| == |revents| && forall k :: 0 <= k < i ==> poll[k].fd != -1
        invariant SameLive(poll0, poll) && LiveDiffer(poll)
        decreases |poll| - i
      {
        if poll[i].fd == -1 {
          var n := |poll| - 1;
          SwapLast(poll0, poll, i);
          poll, revents := poll[i := poll[n]][..n], revents[i := revents[n]][..n];
        } else {
          i := i + 1;
        }
      }
      e := Clean(poll);
      AllLive(poll0, poll);
      CleanKeeps(old(View()), poll);
    }

    /** poll: POLLOUT is reported only where it was asked for, and nothing but POLLIN for the listening socket. */
    method Poll()
      requires Ok()
      modifies this`revents
      ensures Ok() && Answers(poll, revents, sock, 0)
    {
      hide Inv, JobStore.Valid, ClientStore.Valid;
      revents := AnyAnswer();
      SockOut(View());
    }

    method AnyAnswer() returns (r: seq<Ready>)
      ensures |r| == |poll| && forall k :: 0 <= k < |poll| && r[k].out ==> poll[k].out
      ensures forall k :: 0 <= k < |poll| && poll[k].fd == sock ==> !r[k].err
    {
      var ready: seq<Ready> := *;
      r := [];
      while |r| < |poll|
        invariant |r| <= |poll| && forall k :: 0 <= k < |r| && r[k].out ==> poll[k].out
        invariant forall k :: 0 <= k < |r| && poll[k].fd == sock ==> !r[k].err
        decreases |poll| - |r|
      {
        var i := |r|;
        var x := if i < |ready| then ready[i] else NOT_READY;
        r := r + [x.(out := x.out && poll[i].out, err := x.err && poll[i].fd != sock)];
      }
    }

    /** What the main loop does for poll entry i. */
    method Dispatch(i: nat) returns (ghost es: seq<Event>)
      requires Ok() && !stopped && i < |poll| && Answers(poll, revents, sock, i)
      modifies this, jobs.repr, clients.repr
      ensures Sound() && fresh(clients.repr - old(clients.repr)) && fresh(jobs.repr - old(jobs.repr))
      ensures Plays(old(View()), es, View()) && (crashed || (Ok() && Answers(poll, revents, sock, i + 1)))
      ensures SameFds(old(poll), poll) && (if old(poll)[i].fd == sock then old(poll) <= poll else |poll| == old(|poll|))
    {
      hide Inv, Apply, Allowed, Plays, JobStore.Valid, ClientStore.Valid;
      ghost var s, e := View(), Close(0);
      var fd := poll[i].fd;
      OpenFds(s);
      PollSame(poll);
      StillAnswers(poll, revents, poll, revents, sock, i);
      NoEvent(s);
      es := [];
      if revents[i] == NOT_READY { return; }
      if fd == pipe {
        e := HandleChildEvents();
        OneEvent(s, e);
        es := [e];
        return;
      }
      if fd == sock {
        assert revents[i] == Ready(false, false, true);
        e := AcceptClient();
        OneEvent(s, e);
        es := [e];
        return;
      }
      var there := clients.Has(fd);
      if there { es := DispatchClient(i, fd); }
    }

    /** The same for the entry of a client: POLLERR first, then POLLOUT, then POLLIN. */
    method DispatchClient(i: nat, fd: int) returns (ghost es: seq<Event>)
      requires Ok() && !stopped && i < |poll| && Answers(poll, revents, sock, i) && poll[i].fd == fd
               && fd in clients.view
      modifies this`accepted, this`parallel, this`poll, this`revents, this`stopped, this`crashed, this`past,
        jobs.repr, clients.repr
      ensures Sound() && fresh(clients.repr - old(clients.repr)) && fresh(jobs.repr - old(jobs.repr))
      ensures Plays(old(View()), es, View()) && (crashed || (Ok() && Answers(poll, revents, sock, i + 1)))
      ensures SameFds(old(poll), poll) && |poll| == old(|poll|)
    {
      hide Inv, Apply, Allowed, Plays, JobStore.Valid, ClientStore.Valid;
      ghost var s, e := View(), Close(0);
      OpenFds(s);
      NoEvent(s);
      es := [];
      if revents[i].err {
        e := CloseClient(fd);
        OneEvent(s, e);
        es := [e];
      } else if revents[i].out {
        e := WriteToClient(i);
        OneEvent(s, e);
        es := [e];
      } else if revents[i].inp {
        es := ReadOnClient(fd);
      }
    }

    /** One turn of the main loop. */
    method Round() returns (ghost es: seq<Event>)
      requires Ok() && !stopped
      modifies this, jobs.repr, clients.repr
      ensures Sound() && fresh(clients.repr - old(clients.repr)) && fresh(jobs.repr - old(jobs.repr))
      ensures Plays(old(View()), es, View()) && (crashed || Ok())
    {
      hide Inv, Apply, Allowed, Plays, Answers, SameFds, JobStore.Valid, ClientStore.Valid;
      ghost var s := View();
      ghost var e1 := ScheduleNewJobs();
      ghost var s1 := View();
      ghost var e2 := PollListClean();
      TwoEvents(s, e1, s1, e2);
      es := [e1, e2];
      Poll();
      var i := 0;
      while i < |poll|
        invariant 0 <= i <= |poll| && Plays(s, es, View()) && Ok() && !stopped && Answers(poll, revents, sock, i)
        invariant fresh(clients.repr - old(clients.repr)) && fresh(jobs.repr - old(jobs.repr))
        decreases PollEntry(sock, false) in poll[i..], |poll| - i
      {
        ghost var t := View();
        ghost var more := Dispatch(i);
        PlaysConcat(s, es, t, more, View());
        es := es + more;
        if stopped || crashed { return; }
        SockPassed(t, View(), i);
        i := i + 1;
      }
    }

    /** The main loop, for as many turns as one likes, or until the server stops or an assertion fails. */
    method Serve(turns: nat) returns (ghost es: seq<Event>)
      requires Ok() && !stopped
      modifies this, jobs.repr, clients.repr
      ensures Sound() && Plays(old(View()), es, View()) && (crashed || Ok())
    {
      hide Inv, Apply, Allowed, Plays, JobStore.Valid, ClientStore.Valid;
      ghost var s := View();
      es := [];
      NoEvent(s);
      for i := 0 to turns
        invariant Plays(s, es, View()) && Ok() && !stopped
        invariant fresh(clients.repr - old(clients.repr)) && fresh(jobs.repr - old(jobs.repr))
      {
        ghost var t := View();
        ghost var more := Round();
        PlaysConcat(s, es, t, more, View());
        es := es + more;
        if stopped || crashed { return; }
      }
    }
  }

  /** parse_options and server_init_listening */
  method Listen(parallel: int, sock: int, pipe: int, single: bool) returns (s: Server)
    requires parallel >= 1 && sock >= 0 && pipe >= 0 && sock != pipe
    ensures fresh(s) && fresh(s.jobs.repr) && fresh(s.clients.repr)
    ensures s.View() == Start(parallel, sock, pipe, single) && s.Ok()
  {
    hide Inv, JobStore.Valid, ClientStore.Valid;
    var jobs, clients := NewStores(parallel);
    s := new Server(parallel, sock, pipe, single, jobs, clients);
  }
}
