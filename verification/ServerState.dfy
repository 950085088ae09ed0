/**
 The Unix prover server as a state machine (server-unix.c): its tables, queue,
 buffers and poll list as values, what each handler does to them, and a record
 of the past that nothing reads but the statements about runs.
 */
module ServerState {
  import opened Framing
  import opened Requests
  import opened WriteBuffer

  datatype Status = Queued | Running | Finished | Dropped

  datatype Kind = Started | Ended

  /** A message pushed to a client's write buffer; detail is what an F message says beside the id. */
  datatype Sent = Sent(conn: nat, kind: Kind, serial: nat, detail: string, text: string)

  /**
   conn numbers the connections; descriptors are used again after a close.
   writing is the flag of the write buffer between prepare_write and have_written.
   */
  datatype Client = Client(conn: nat, readbuf: string, pending: seq<string>, writing: bool)

  /** An entry of the poll list; every entry asks for POLLIN, out says that it also asks for POLLOUT. */
  datatype PollEntry = PollEntry(fd: int, out: bool)

  /**
   requests: the accepted run requests, by serial number; status: where each of them is;
   home: the connection each started request was announced to;
   place: the descriptor of each connection; children: unreaped child processes;
   peak: the largest process limit so far; failed: connections to which a write failed.
   */
  datatype History = History(
    requests: seq<Request>, status: seq<Status>, home: map<nat, nat>, place: seq<int>, log: seq<Sent>,
    written: map<nat, string>, received: map<nat, string>, lines: map<nat, seq<string>>, children: set<int>,
    peak: int, failed: set<nat>)

  datatype State = State(
    parallel: int, clients: map<int, Client>, processes: map<int, Job>, queue: seq<Job>, poll: seq<PollEntry>,
    sock: int, pipe: int, singleClient: bool, stopped: bool, crashed: bool, past: History)

  /** A reaped child: its pid and the rest of the message about it. */
  datatype Exit = Exit(pid: int, detail: string)

  /** Handlers that the main loop calls, with what the system calls in them return. */
  datatype Event =
    | Accept(fd: int)
    | Read(fd: int, chunk: string, pids: seq<int>)
    | Write(fd: int, size: int)
    | Close(fd: int)
    | Children(exits: seq<Exit>)
    | Schedule(forks: seq<int>)
    | Clean(poll: seq<PollEntry>)

  /** What no handler of requests and children changes: the numbered connections and the failed ones. */
  predicate SameKept(a: History, b: History)
  {
    a.place == b.place && a.failed == b.failed
  }

  function Max(x: int, y: int): (z: int)
  {
    if x < y then y else x
  }

  function Mark(status: seq<Status>, n: nat, x: Status): (r: seq<Status>)
    ensures |r| == |status|
  {
    if n < |status| then status[n := x] else status
  }

  function Add<T>(m: map<nat, seq<T>>, k: nat, x: seq<T>): (r: map<nat, seq<T>>)
  {
    m[k := if k in m then m[k] + x else x]
  }

  function SetOut(poll: seq<PollEntry>, fd: int, out: bool): (r: seq<PollEntry>)
    ensures |r| == |poll|
  {
    seq(|poll|, i requires 0 <= i < |poll| => if poll[i].fd == fd then PollEntry(fd, out) else poll[i])
  }

  /** poll_list_remove: the entry stays until the next clean-up, with descriptor -1. */
  function Forget(poll: seq<PollEntry>, fd: int): (r: seq<PollEntry>)
    ensures |r| == |poll|
  {
    seq(|poll|, i requires 0 <= i < |poll| => if poll[i].fd == fd then poll[i].(fd := -1) else poll[i])
  }

  function StartedMsg(id: string): (s: string)
  {
    "S;" + id + "\n"
  }

  function EndedMsg(id: string, detail: string): (s: string)
  {
    "F;" + id + ";" + detail + "\n"
  }

  /** queue_write */
  function QueueWrite(s: State, fd: int, kind: Kind, serial: nat, detail: string, text: string): (t: State)
    requires fd in s.clients
    ensures t.clients.Keys == s.clients.Keys && t.past.status == s.past.status && SameKept(s.past, t.past)
  {
    var c := s.clients[fd];
    s.(clients := s.clients[fd := c.(pending := c.pending + [text])], poll := SetOut(s.poll, fd, true),
       past := s.past.(log := s.past.log + [Sent(c.conn, kind, serial, detail, text)]))
  }

  /** run_request, for a job that has just been accepted or taken off the queue. */
  function RunRequest(s: State, job: Job, pid: int): (t: State)
    ensures t.clients.Keys == s.clients.Keys && t.queue == s.queue && |t.past.status| == |s.past.status|
            && SameKept(s.past, t.past)
  {
    if job.req.key !in s.clients then
      s.(past := s.past.(status := Mark(s.past.status, job.serial, Dropped)))
    else
      var t := s.(processes := s.processes[pid := job],
                  past := s.past.(status := Mark(s.past.status, job.serial, Running),
                                  home := s.past.home[job.serial := s.clients[job.req.key].conn],
                                  children := s.past.children + {pid}));
      QueueWrite(t, job.req.key, Started, job.serial, "", StartedMsg(job.req.id))
  }

  /** The REQ_RUN case of handle_msg. */
  function Submit(s: State, req: Request, pid: int): (t: State)
    ensures t.clients.Keys == s.clients.Keys && SameKept(s.past, t.past)
  {
    var job := Job(|s.past.status|, req);
    var t := s.(past := s.past.(requests := s.past.requests + [req], status := s.past.status + [Queued]));
    if |s.processes| < s.parallel then RunRequest(t, job, pid) else t.(queue := s.queue + [job])
  }

  ghost predicate QueuedAs(queue: seq<Job>, n: nat, id: string)
  {
    exists i :: 0 <= i < |queue| && queue[i].serial == n && queue[i].req.id == id
  }

  ghost function Cancelled(queue: seq<Job>, status: seq<Status>, id: string): (r: seq<Status>)
    ensures |r| == |status|
  {
    seq(|status|, n requires 0 <= n < |status| => if QueuedAs(queue, n, id) then Dropped else status[n])
  }

  /** The REQ_INTERRUPT case: queued requests go, running ones are only sent a signal. */
  ghost function Cancel(s: State, id: string): (t: State)
  {
    s.(queue := Without(s.queue, id),
       past := s.past.(status := Cancelled(s.queue, s.past.status, id)))
  }

  function SetLimit(s: State, n: int): (t: State)
  {
    s.(parallel := n, past := s.past.(peak := Max(s.past.peak, n)))
  }

  ghost function HandleLine(s: State, fd: int, line: string, pid: int): (t: State)
    ensures t.clients.Keys == s.clients.Keys && SameKept(s.past, t.past)
  {
    match Parse(line, fd)
    case Nothing => s
    case Limit(n) => SetLimit(s, n)
    case Got(r) => if r.Run? then Submit(s, r, pid) else Cancel(s, r.id)
  }

  /** handle_msg, line by line; each line has the pid a fork in it would return. */
  ghost function HandleLines(s: State, fd: int, lines: seq<string>, pids: seq<int>): (t: State)
    requires |pids| == |lines|
    ensures t.clients.Keys == s.clients.Keys && SameKept(s.past, t.past)
  {
    if lines == [] then s else
      var n := |lines| - 1;
      HandleLine(HandleLines(s, fd, lines[..n], pids[..n]), fd, lines[n], pids[n])
  }

  /** have_read and have_taken: the bytes arrive, the complete lines leave the read buffer. */
  ghost function Receive(s: State, fd: int, chunk: string): (t: State)
    requires fd in s.clients
    ensures t.clients.Keys == s.clients.Keys && SameKept(s.past, t.past) && t.past.status == s.past.status
  {
    var c := s.clients[fd];
    var all := c.readbuf + chunk;
    s.(clients := s.clients[fd := c.(readbuf := Tail(all))],
       past := s.past.(received := Add(s.past.received, c.conn, chunk), lines := Add(s.past.lines, c.conn, Lines(all))))
  }

  /** read_on_client, for a nonempty read. */
  ghost function ReadOnClient(s: State, fd: int, chunk: string, pids: seq<int>): (t: State)
    requires fd in s.clients && |pids| == |Lines(s.clients[fd].readbuf + chunk)|
    ensures SameKept(s.past, t.past)
  {
    HandleLines(Receive(s, fd, chunk), fd, Lines(s.clients[fd].readbuf + chunk), pids)
  }

  /** One turn of the loop of handle_child_events; an unknown pid would dereference a null pointer. */
  function Reap(s: State, x: Exit): (t: State)
    ensures SameKept(s.past, t.past) && |t.past.status| == |s.past.status|
  {
    if x.pid !in s.processes then s.(crashed := true) else
      var job := s.processes[x.pid];
      var t := s.(processes := s.processes - {x.pid},
                  past := s.past.(status := Mark(s.past.status, job.serial, Finished),
                                  children := s.past.children - {x.pid}));
      if job.req.key !in s.clients then t
      else QueueWrite(t, job.req.key, Ended, job.serial, x.detail, EndedMsg(job.req.id, x.detail))
  }

  function ReapAll(s: State, exits: seq<Exit>): (t: State)
    ensures SameKept(s.past, t.past)
  {
    if exits == [] then s else Reap(ReapAll(s, exits[..|exits| - 1]), exits[|exits| - 1])
  }

  /** The loop condition of schedule_new_jobs. */
  predicate CanSchedule(s: State)
  {
    |s.processes| < s.parallel && s.queue != []
  }

  function RunNext(s: State, pid: int): (t: State)
    requires s.queue != []
    ensures |t.queue| == |s.queue| - 1 && |t.past.status| == |s.past.status| && SameKept(s.past, t.past)
  {
    RunRequest(s.(queue := s.queue[1..]), s.queue[0], pid)
  }

  /** schedule_new_jobs; forks has a pid for each queued job, in case all of them start. */
  function ScheduleJobs(s: State, forks: seq<int>): (t: State)
    requires |forks| == |s.queue|
    ensures SameKept(s.past, t.past)
    decreases |s.queue|
  {
    if CanSchedule(s) then ScheduleJobs(RunNext(s, forks[0]), forks[1..]) else s
  }

  /** server_accept_client */
  function AcceptClient(s: State, fd: int): (t: State)
  {
    var conn := |s.past.place|;
    s.(clients := s.clients[fd := Client(conn, "", [], false)], poll := s.poll + [PollEntry(fd, false)],
       past := s.past.(place := s.past.place + [fd], written := s.past.written[conn := ""],
                       received := s.past.received[conn := ""], lines := s.past.lines[conn := []]))
  }

  /** close_client; the last client may take the server with it. */
  function CloseClient(s: State, fd: int): (t: State)
  {
    var clients := s.clients - {fd};
    s.(clients := clients, poll := Forget(s.poll, fd), stopped := s.singleClient && clients == map[])
  }

  /**
   write_to_client.  prepare_write insists on data and on no write under way, and
   only have_written ends a write: after write has returned -1 it never ends.
   */
  function WriteToClient(s: State, fd: int, size: int): (t: State)
    requires fd in s.clients
  {
    var c := s.clients[fd];
    if c.writing || c.pending == [] || size > |c.pending[0]| then s.(crashed := true)
    else if size < 0 then
      s.(clients := s.clients[fd := c.(writing := true)], past := s.past.(failed := s.past.failed + {c.conn}))
    else
      var rest := AfterWrite(c.pending, size);
      s.(clients := s.clients[fd := c.(pending := rest)],
         poll := if rest == [] then SetOut(s.poll, fd, false) else s.poll,
         past := s.past.(written := Add(s.past.written, c.conn, c.pending[0][..size])))
  }

  /** What the operating system guarantees: new descriptors, pids of new and of reaped children, poll flags. */
  ghost predicate Allowed(s: State, e: Event)
  {
    !s.stopped && !s.crashed &&
    match e
    case Accept(fd) => fd >= 0 && fd !in s.clients && fd != s.sock && fd != s.pipe
    case Read(fd, chunk, pids) =>
      && fd in s.clients && |pids| == |Lines(s.clients[fd].readbuf + chunk)|
      && LinePids(Receive(s, fd, chunk), fd, Lines(s.clients[fd].readbuf + chunk), pids)
    case Write(fd, size) =>
      && fd in s.clients && PollEntry(fd, true) in s.poll && -1 <= size
      && (s.clients[fd].pending != [] ==> size <= |s.clients[fd].pending[0]|)
    case Close(fd) => fd in s.clients
    case Children(exits) =>
      && (forall i :: 0 <= i < |exits| ==> exits[i].pid in s.past.children)
      && (forall i, j :: 0 <= i < j < |exits| ==> exits[i].pid != exits[j].pid)
    case Schedule(forks) => |forks| == |s.queue| && JobPids(s, forks)
    case Clean(poll) => Cleaned(s.poll, poll)
  }

  /** Each fork returns a pid that no unreaped child has. */
  ghost predicate LinePids(s: State, fd: int, lines: seq<string>, pids: seq<int>)
    requires |pids| == |lines|
  {
    lines == [] ||
    var n := |lines| - 1;
    LinePids(s, fd, lines[..n], pids[..n]) && pids[n] !in HandleLines(s, fd, lines[..n], pids[..n]).past.children
  }

  ghost predicate JobPids(s: State, forks: seq<int>)
    requires |forks| == |s.queue|
    decreases |s.queue|
  {
    CanSchedule(s) ==> forks[0] !in s.past.children && JobPids(RunNext(s, forks[0]), forks[1..])
  }

  /** poll_list_clean keeps the live entries, in some order. */
  ghost predicate Cleaned(poll: seq<PollEntry>, kept: seq<PollEntry>)
  {
    && (forall e :: e in kept <==> e in poll && e.fd != -1)
    && (forall i, j :: 0 <= i < j < |kept| ==> kept[i] != kept[j])
  }

  ghost function Apply(s: State, e: Event): (t: State)
    requires Allowed(s, e)
  {
    match e
    case Accept(fd) => AcceptClient(s, fd)
    case Read(fd, chunk, pids) => ReadOnClient(s, fd, chunk, pids)
    case Write(fd, size) => WriteToClient(s, fd, size)
    case Close(fd) => CloseClient(s, fd)
    case Children(exits) => ReapAll(s, exits)
    case Schedule(forks) => ScheduleJobs(s, forks)
    case Clean(poll) => s.(poll := poll)
  }

  /** Just after server_init_listening. */
  function Start(parallel: int, sock: int, pipe: int, singleClient: bool): (s: State)
  {
    State(parallel, map[], map[], [], [PollEntry(sock, false), PollEntry(pipe, false)], sock, pipe, singleClient,
          false, false, History([], [], map[], [], [], map[], map[], map[], {}, parallel, {}))
  }

  /** states[i + 1] is what events[i] makes of states[i]. */
  ghost predicate IsRun(states: seq<State>, events: seq<Event>)
  {
    && |states| == |events| + 1
    && forall i :: 0 <= i < |events| ==> Allowed(states[i], events[i]) && states[i + 1] == Apply(states[i], events[i])
  }
}
