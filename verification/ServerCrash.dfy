/** When the prover server aborts: exactly when it writes to a connection after a write to it failed. */
module ServerCrash {
  import opened Framing
  import opened Requests
  import opened ServerState
  import opened ServerInv
  import opened ServerRuns
  import opened ServerLoop

  /** write returns -1 in this event. */
  ghost predicate Fails(s: State, e: Event)
  {
    e.Write? && e.fd in s.clients && e.size < 0 && !s.clients[e.fd].writing && s.clients[e.fd].pending != []
  }

  lemma FailedStep(s: State, e: Event)
    requires Allowed(s, e)
    ensures Apply(s, e).past.failed == if Fails(s, e) then s.past.failed + {s.clients[e.fd].conn} else s.past.failed
  {
    hide HandleLines, ReapAll, ScheduleJobs, LinePids, JobPids, Lines, Tail;
  }

  /** Events i and k write to the same connection, and the write of event i returned -1. */
  ghost predicate WrittenAfterFailure(states: seq<State>, events: seq<Event>, i: int, k: int)
    requires |states| == |events| + 1
  {
    && 0 <= i < k < |events| && events[i].Write? && events[i].size == -1 && events[k].Write?
    && events[i].fd in states[i].clients && events[k].fd in states[k].clients
    && states[i].clients[events[i].fd].conn == states[k].clients[events[k].fd].conn
  }

  /** A failed connection has an event that made it so. */
  lemma {:induction false} FailedBefore(states: seq<State>, events: seq<Event>, m: nat, c: nat) returns (i: nat)
    requires IsRun(states, events) && m < |states| && states[0].past.failed == {} && c in states[m].past.failed
    ensures i < m && Fails(states[i], events[i]) && states[i].clients[events[i].fd].conn == c
    decreases m
  {
    hide Apply, Allowed;
    i := m - 1;
    FailedStep(states[i], events[i]);
    if c in states[i].past.failed { i := FailedBefore(states, events, i, c); }
  }

  lemma {:induction false} FailedAfter(states: seq<State>, events: seq<Event>, i: nat, m: nat)
    requires IsRun(states, events) && i < m < |states| && Fails(states[i], events[i])
    ensures states[i].clients[events[i].fd].conn in states[m].past.failed
    decreases m
  {
    hide Apply, Allowed;
    FailedStep(states[m - 1], events[m - 1]);
    if i < m - 1 { FailedAfter(states, events, i, m - 1); }
  }

  /** A run from the start. */
  ghost predicate Served(states: seq<State>, events: seq<Event>)
  {
    && IsRun(states, events)
    && exists parallel, sock, pipe, single ::
         && parallel >= 1 && sock >= 0 && pipe >= 0 && sock != pipe && states[0] == Start(parallel, sock, pipe, single)
  }

  lemma ServedKeeps(states: seq<State>, events: seq<Event>, i: nat)
    requires Served(states, events) && i < |states|
    ensures !states[0].crashed && states[0].past.failed == {} && (!states[i].crashed ==> Inv(states[i]))
  {
    hide Inv, Apply, Allowed;
    var parallel, sock, pipe, single :|
      && parallel >= 1 && sock >= 0 && pipe >= 0 && sock != pipe && states[0] == Start(parallel, sock, pipe, single);
    RunKeeps(states, events, parallel, sock, pipe, single, i);
  }

  /** A crash comes from a write after a failed one. */
  lemma CrashHasCause(states: seq<State>, events: seq<Event>, j: nat) returns (i: nat)
    requires Served(states, events) && j < |states| && states[j].crashed
    ensures j > 0 && WrittenAfterFailure(states, events, i, j - 1)
  {
    hide InvBut, Apply, Allowed;
    ServedKeeps(states, events, j);
    RunGoesOn(states, events, j - 1);
    ServedKeeps(states, events, j - 1);
    ApplyKeeps(states[j - 1], events[j - 1]);
    NotCrashed(states[j]);
    var c := states[j - 1].clients[events[j - 1].fd].conn;
    FlagFailed(states[j - 1], events[j - 1].fd);
    i := FailedBefore(states, events, j - 1, c);
    AllowedSize(states[i], events[i]);
  }

  lemma FlagFailed(s: State, fd: int)
    requires Inv(s) && fd in s.clients
    ensures s.clients[fd].writing <==> s.clients[fd].conn in s.past.failed
  {
    hide Placed, Told, Wired, Framed, Homed, Polled;
  }

  lemma AllowedSize(s: State, e: Event)
    requires Allowed(s, e) && e.Write?
    ensures e.size >= -1
  {
  }

  /** A write after a failed one crashes. */
  lemma CauseCrashes(states: seq<State>, events: seq<Event>, i: nat, k: nat)
    requires Served(states, events) && WrittenAfterFailure(states, events, i, k)
    ensures states[k + 1].crashed
  {
    hide InvBut, Apply, Allowed;
    RunGoesOn(states, events, i); RunGoesOn(states, events, i + 1); RunGoesOn(states, events, k);
    ServedKeeps(states, events, i);
    ServedKeeps(states, events, k);
    ApplyKeeps(states[i], events[i]);
    WriteKeeps(states[i], events[i].fd, events[i].size);
    FailedAfter(states, events, i, k);
    FlagFailed(states[k], events[k].fd);
    ApplyKeeps(states[k], events[k]);
  }

  /** A run aborts if and only if some connection is written to after an earlier write to it returned -1. */
  lemma CrashExactly(states: seq<State>, events: seq<Event>)
    requires Served(states, events)
    ensures (exists j :: 0 <= j < |states| && states[j].crashed) <==>
            (exists i, k :: WrittenAfterFailure(states, events, i, k))
  {
    hide Apply, Allowed;
    if j :| 0 <= j < |states| && states[j].crashed {
      var i := CrashHasCause(states, events, j);
    }
    if i, k :| WrittenAfterFailure(states, events, i, k) {
      CauseCrashes(states, events, i, k);
    }
  }

  /** The same for what the main loop has played so far. */
  lemma PlayedCrash(s: State, es: seq<Event>, t: State, parallel: int, sock: int, pipe: int, single: bool)
    returns (states: seq<State>)
    requires s == Start(parallel, sock, pipe, single) && parallel >= 1 && sock >= 0 && pipe >= 0 && sock != pipe
    requires Plays(s, es, t)
    ensures Served(states, es) && states[|es|] == t
    ensures t.crashed <==> exists i, k :: WrittenAfterFailure(states, es, i, k)
  {
    hide Apply, Allowed, Plays;
    states := PlaysIsRun(s, es, t);
    CrashExactly(states, es);
    if j :| 0 <= j < |states| && states[j].crashed {
      if j < |es| { RunGoesOn(states, es, j); }
    }
  }

  /** The two events that abort, wherever data is pending. */
  lemma TwoWrites(s: State, fd: int, size: int)
    requires Inv(s) && !s.stopped && fd in s.clients && !s.clients[fd].writing && s.clients[fd].pending != []
    requires -1 <= size <= |s.clients[fd].pending[0]|
    ensures Allowed(s, Event.Write(fd, -1))
    ensures var t := Apply(s, Event.Write(fd, -1));
            Allowed(t, Event.Write(fd, size)) && Apply(t, Event.Write(fd, size)).crashed
  {
    hide Placed, Told, Wired, Framed, Flagged, Homed;
    FlagMeansData(s.poll, s.clients, s.sock, s.pipe, fd);
  }

  /** One run request, as a client of descriptor 5 sends it. */
  ghost function SmallRequest(): (r: Request)
  {
    Run(5, "a", 0, 0, false, "p", [])
  }

  ghost function SmallLine(): (s: string)
  {
    Join(RunFields(SmallRequest()), ';')
  }

  lemma SmallLineReads()
    ensures Lines("" + (SmallLine() + ['\n'])) == [SmallLine()] && Parse(SmallLine(), 5) == Got(SmallRequest())
  {
    hide Split, Join, RunFields, Parse;
    ParseRunFields(SmallRequest());
    var line := SmallLine();
    SplitFirst(line, "", '\n');
    SplitNone("", '\n');
    assert line + ['\n'] + "" == line + ['\n'] && "" + (line + ['\n']) == line + ['\n'];
  }

  /** A client connects, sends one request, and two writes of the answer fail: the server aborts. */
  lemma AbortingRun() returns (states: seq<State>, events: seq<Event>)
    ensures Served(states, events) && states[|events|].crashed
  {
    hide Inv, Parse, Lines, Tail, RunRequest, SmallLine, SmallRequest, StartedMsg;
    var chunk := SmallLine() + ['\n'];
    var s0 := Start(1, 3, 4, false);
    StartKeeps(1, 3, 4, false);
    var e0 := Accept(5);
    ApplyKeeps(s0, e0);
    var s1 := Apply(s0, e0);
    SmallLineReads();
    var e1 := Read(5, chunk, [7]);
    OneLine(Receive(s1, 5, chunk), SmallLine(), 7);
    ApplyKeeps(s1, e1);
    var s2 := Apply(s1, e1);
    SmallRun(s1, chunk);
    TwoWrites(s2, 5, -1);
    var e2 := Event.Write(5, -1);
    var s3 := Apply(s2, e2);
    var s4 := Apply(s3, e2);
    states, events := [s0, s1, s2, s3, s4], [e0, e1, e2, e2];
    FourSteps(s0, e0, s1, e1, s2, e2, s3, e2, s4);
  }

  lemma OneLine(s: State, line: string, pid: int)
    requires pid !in s.past.children
    ensures LinePids(s, 5, [line], [pid]) && HandleLines(s, 5, [line], [pid]) == HandleLine(s, 5, line, pid)
  {
    hide HandleLine;
    assert [line][..0] == [] && [pid][..0] == [];
  }

  lemma SmallRun(s: State, chunk: string)
    requires s == AcceptClient(Start(1, 3, 4, false), 5) && chunk == SmallLine() + ['\n']
    requires Allowed(s, Read(5, chunk, [7]))
    ensures var t := Apply(s, Read(5, chunk, [7]));
            !t.stopped && 5 in t.clients && !t.clients[5].writing && t.clients[5].pending != []
  {
    hide Parse, Lines, Tail, Mark, SetOut, SmallLine, StartedMsg;
    SmallLineReads();
    OneLine(Receive(s, 5, chunk), SmallLine(), 7);
  }

  lemma FourSteps(s0: State, e0: Event, s1: State, e1: Event, s2: State, e2: Event, s3: State, e3: Event, s4: State)
    requires Allowed(s0, e0) && s1 == Apply(s0, e0) && Allowed(s1, e1) && s2 == Apply(s1, e1)
    requires Allowed(s2, e2) && s3 == Apply(s2, e2) && Allowed(s3, e3) && s4 == Apply(s3, e3)
    ensures IsRun([s0, s1, s2, s3, s4], [e0, e1, e2, e3])
  {
    hide Allowed, Apply;
  }
}
