/** The steps of the main loop of the prover server: poll flags, and sequences of events. */
module ServerLoop {
  import opened ServerState
  import opened ServerInv
  import opened ServerRuns

  /** The revents field of a poll entry: POLLERR, POLLOUT, POLLIN. */
  datatype Ready = Ready(err: bool, out: bool, inp: bool)

  const NOT_READY := Ready(false, false, false)

  /** Entries keep their place and their POLLOUT flag, or are forgotten; new ones come behind. */
  ghost predicate PollUp(a: seq<PollEntry>, b: seq<PollEntry>)
  {
    |a| <= |b| && forall k :: 0 <= k < |a| ==> b[k].fd == -1 || (b[k].fd == a[k].fd && (a[k].out ==> b[k].out))
  }

  lemma SetOutAt(poll: seq<PollEntry>, clients: map<int, Client>, sock: int, pipe: int, fd: int, i: nat, out: bool)
    requires Polled(poll, clients, sock, pipe) && fd in clients && i < |poll| && poll[i].fd == fd
    ensures SetOut(poll, fd, out) == poll[i := PollEntry(fd, out)]
    ensures out ==> PollUp(poll, SetOut(poll, fd, out))
  {
  }

  lemma ForgetAt(poll: seq<PollEntry>, clients: map<int, Client>, sock: int, pipe: int, fd: int, i: nat)
    requires Polled(poll, clients, sock, pipe) && fd in clients && i < |poll| && poll[i].fd == fd
    ensures Forget(poll, fd) == poll[i := poll[i].(fd := -1)] && PollUp(poll, Forget(poll, fd))
  {
  }

  /** Every client has its entry. */
  lemma HasEntry(poll: seq<PollEntry>, clients: map<int, Client>, sock: int, pipe: int, fd: int)
    requires Polled(poll, clients, sock, pipe) && fd in clients
    ensures exists i :: 0 <= i < |poll| && poll[i].fd == fd
  {
    var i :| 0 <= i < |poll| && poll[i] == PollEntry(fd, clients[fd].pending != []);
  }

  lemma NewNumber(keys: set<int>)
    ensures exists p :: p > 0 && p !in keys
  {
    var m := UpperBound(keys);
    assert m > 0 && m !in keys;
  }

  lemma {:induction false} UpperBound(keys: set<int>) returns (m: int)
    ensures m > 0 && forall k :: k in keys ==> k < m
    decreases keys
  {
    if k :| k in keys {
      m := UpperBound(keys - {k});
      if m <= k { m := k + 1; }
      forall x | x in keys ensures x < m { assert x == k || x in keys - {k}; }
    } else {
      m := 1;
    }
  }

  lemma PollSame(a: seq<PollEntry>)
    ensures PollUp(a, a)
  {
  }

  /** A pid that no child has. */
  lemma NewPid(s: State) returns (pid: int)
    ensures pid !in s.past.children
  {
    NewNumber(s.past.children);
    pid :| pid > 0 && pid !in s.past.children;
  }

  lemma PollTrans(a: seq<PollEntry>, b: seq<PollEntry>, c: seq<PollEntry>)
    requires PollUp(a, b) && PollUp(b, c) && |b| == |a|
    ensures PollUp(a, c)
  {
  }

  lemma SnocLines(s: State, fd: int, lines: seq<string>, pids: seq<int>, line: string, pid: int)
    requires |pids| == |lines| && LinePids(s, fd, lines, pids) && pid !in HandleLines(s, fd, lines, pids).past.children
    ensures LinePids(s, fd, lines + [line], pids + [pid])
    ensures HandleLines(s, fd, lines + [line], pids + [pid]) ==
            HandleLine(HandleLines(s, fd, lines, pids), fd, line, pid)
  {
    hide HandleLine;
    assert (lines + [line])[..|lines|] == lines && (pids + [pid])[..|lines|] == pids;
  }

  lemma SnocExits(s: State, exits: seq<Exit>, x: Exit)
    requires Allowed(s, Children(exits)) && x.pid in s.past.children
    requires forall i :: 0 <= i < |exits| ==> exits[i].pid != x.pid
    ensures Allowed(s, Children(exits + [x])) && ReapAll(s, exits + [x]) == Reap(ReapAll(s, exits), x)
  {
    hide Reap;
    assert (exits + [x])[..|exits|] == exits;
  }

  /** Forks done so far and forks to come: the schedule from s with all of them is the one from t with the rest. */
  ghost predicate SameSchedule(s: State, done: seq<int>, rest: seq<int>, t: State)
  {
    && |done + rest| == |s.queue| && |rest| == |t.queue|
    && ScheduleJobs(s, done + rest) == ScheduleJobs(t, rest) && (JobPids(t, rest) ==> JobPids(s, done + rest))
  }

  /** Whatever the forks to come are. */
  ghost predicate Schedules(s: State, done: seq<int>, t: State)
  {
    forall rest: seq<int> :: |rest| == |t.queue| ==> SameSchedule(s, done, rest, t)
  }

  lemma OneMoreJob(s: State, done: seq<int>, pid: int, t: State)
    requires Schedules(s, done, t) && CanSchedule(t) && pid !in t.past.children
    ensures Schedules(s, done + [pid], RunNext(t, pid))
  {
    hide RunNext;
    forall rest: seq<int> | |rest| == |t.queue| - 1 ensures SameSchedule(s, done + [pid], rest, RunNext(t, pid)) {
      assert SameSchedule(s, done, [pid] + rest, t);
      assert done + ([pid] + rest) == (done + [pid]) + rest && ([pid] + rest)[1..] == rest;
    }
  }

  lemma NoJobYet(s: State)
    ensures Schedules(s, [], s)
  {
    forall rest: seq<int> | |rest| == |s.queue| ensures SameSchedule(s, [], rest, s) {
      assert [] + rest == rest;
    }
  }

  lemma AllJobs(s: State, done: seq<int>, t: State) returns (forks: seq<int>)
    requires Schedules(s, done, t) && !CanSchedule(t)
    ensures |forks| == |s.queue| && ScheduleJobs(s, forks) == t && JobPids(s, forks)
  {
    var rest := seq(|t.queue|, _ => 0);
    assert SameSchedule(s, done, rest, t);
    forks := done + rest;
  }

  /** t comes from s by the events es, each of them allowed. */
  ghost predicate Plays(s: State, es: seq<Event>, t: State)
    decreases |es|
  {
    if es == [] then t == s else
      var n := |es| - 1;
      exists m :: Plays(s, es[..n], m) && Allowed(m, es[n]) && t == Apply(m, es[n])
  }

  lemma OneEvent(s: State, e: Event)
    requires Allowed(s, e)
    ensures Plays(s, [e], Apply(s, e))
  {
    assert Plays(s, [e][..0], s);
  }

  lemma {:induction false} PlaysConcat(s: State, a: seq<Event>, m: State, b: seq<Event>, t: State)
    requires Plays(s, a, m) && Plays(m, b, t)
    ensures Plays(s, a + b, t)
    decreases |b|
  {
    hide Allowed, Apply;
    if b == [] {
      assert a + b == a;
    } else {
      var n := |b| - 1;
      var x :| Plays(m, b[..n], x) && Allowed(x, b[n]) && t == Apply(x, b[n]);
      PlaysConcat(s, a, m, b[..n], x);
      PlaysSnoc(s, a + b[..n], x, b[n]);
      assert (a + b[..n]) + [b[n]] == a + b;
    }
  }

  lemma PlaysSnoc(s: State, es: seq<Event>, m: State, e: Event)
    requires Plays(s, es, m) && Allowed(m, e)
    ensures Plays(s, es + [e], Apply(m, e))
  {
    hide Allowed, Apply;
    assert (es + [e])[..|es|] == es;
  }

  /** What the event loop does is a run of the state machine. */
  lemma {:induction false} PlaysIsRun(s: State, es: seq<Event>, t: State) returns (states: seq<State>)
    requires Plays(s, es, t)
    ensures IsRun(states, es) && states[0] == s && states[|es|] == t
    decreases |es|
  {
    hide Allowed, Apply;
    if es == [] {
      states := [s];
    } else {
      var n := |es| - 1;
      var m :| Plays(s, es[..n], m) && Allowed(m, es[n]) && t == Apply(m, es[n]);
      states := PlaysIsRun(s, es[..n], m);
      states := states + [t];
    }
  }

  ghost predicate LiveDiffer(poll: seq<PollEntry>)
  {
    forall i, j :: 0 <= i < j < |poll| && poll[i].fd == poll[j].fd ==> poll[i].fd == -1
  }

  ghost predicate SameLive(a: seq<PollEntry>, b: seq<PollEntry>)
  {
    forall e: PollEntry :: e.fd != -1 ==> (e in a <==> e in b)
  }

  lemma SwapLast(a: seq<PollEntry>, b: seq<PollEntry>, i: nat)
    requires SameLive(a, b) && LiveDiffer(b) && i < |b| && b[i].fd == -1
    ensures var c := b[i := b[|b| - 1]][..|b| - 1]; SameLive(a, c) && LiveDiffer(c)
  {
    var n := |b| - 1;
    var c := b[i := b[n]][..n];
    forall e: PollEntry | e.fd != -1 && e in b ensures e in c {
      var k :| 0 <= k < |b| && b[k] == e;
      assert c[if k == n then i else k] == e;
    }
  }

  /** From place i on, POLLOUT is reported for entries that ask for it, and only POLLIN for the listening socket. */
  ghost predicate Answers(poll: seq<PollEntry>, revents: seq<Ready>, sock: int, i: nat)
  {
    && |revents| == |poll|
    && (forall k :: i <= k < |poll| && poll[k].fd != -1 && revents[k].out ==> poll[k].out)
    && (forall k :: i <= k < |poll| && poll[k].fd == sock ==> !revents[k].err && !revents[k].out)
  }

  /** Handlers that leave other entries' flags up keep the reports good. */
  lemma StillAnswers(poll: seq<PollEntry>, revents: seq<Ready>, poll1: seq<PollEntry>, revents1: seq<Ready>,
                     sock: int, i: nat)
    requires Answers(poll, revents, sock, i) && PollUp(poll, poll1) && |poll1| == |poll| == |revents1| && sock >= 0
    requires forall k :: 0 <= k < |poll| ==> revents1[k] == revents[k] || revents1[k] == NOT_READY
    ensures Answers(poll1, revents1, sock, i + 1)
  {
  }

  lemma SockOut(s: State)
    requires Inv(s)
    ensures s.sock >= 0 && forall k :: 0 <= k < |s.poll| && s.poll[k].fd == s.sock ==> !s.poll[k].out
  {
  }

  lemma OpenFds(s: State)
    requires Inv(s)
    ensures s.sock >= 0 && s.sock != s.pipe && forall fd :: fd in s.clients ==> fd >= 0
  {
  }

  /** Entries keep their descriptors, or are forgotten. */
  ghost predicate SameFds(a: seq<PollEntry>, b: seq<PollEntry>)
  {
    |a| <= |b| && forall k :: 0 <= k < |a| ==> b[k].fd == a[k].fd || b[k].fd == -1
  }

  lemma NoEvent(s: State)
    ensures Plays(s, [], s)
  {
  }

  lemma TwoEvents(s: State, e1: Event, m: State, e2: Event)
    requires Allowed(s, e1) && m == Apply(s, e1) && Allowed(m, e2)
    ensures Plays(s, [e1, e2], Apply(m, e2))
  {
    hide Allowed, Apply;
    OneEvent(s, e1);
    OneEvent(m, e2);
    PlaysConcat(s, [e1], m, [e2], Apply(m, e2));
    assert [e1] + [e2] == [e1, e2];
  }

  /** The listening socket has one entry: once the loop is past it, no more entries are added. */
  lemma SockPassed(s: State, t: State, i: nat)
    requires Inv(s) && Inv(t) && i < |s.poll| && SameFds(s.poll, t.poll) && s.sock == t.sock
    requires if s.poll[i].fd == s.sock then s.poll <= t.poll else |t.poll| == |s.poll|
    ensures |s.poll| <= |t.poll|
    ensures var e := PollEntry(s.sock, false);
            if s.poll[i].fd == s.sock then e in s.poll[i..] && e !in t.poll[i + 1..]
            else e in t.poll[i + 1..] ==> e in s.poll[i..]
  {
    hide Placed, Told, Wired, Framed, Flagged, Homed;
    var e := PollEntry(s.sock, false);
    if s.poll[i].fd == s.sock {
      assert s.poll[i] == e && t.poll[i] == e && s.poll[i..][0] == e;
      forall j | i < j < |t.poll| ensures t.poll[j] != e { }
    } else {
      forall j | i < j < |t.poll| && t.poll[j] == e
        ensures s.poll[j].fd == s.sock && s.poll[i..][j - i] == s.poll[j] { }
    }
  }

  lemma InvPolled(s: State)
    requires Inv(s)
    ensures Polled(s.poll, s.clients, s.sock, s.pipe)
  {
    hide Polled;
  }

  lemma PolledDiffer(poll: seq<PollEntry>, clients: map<int, Client>, sock: int, pipe: int)
    requires Polled(poll, clients, sock, pipe)
    ensures SameLive(poll, poll) && LiveDiffer(poll)
  {
  }

  lemma AllLive(poll: seq<PollEntry>, kept: seq<PollEntry>)
    requires SameLive(poll, kept) && LiveDiffer(kept) && forall k :: 0 <= k < |kept| ==> kept[k].fd != -1
    ensures Cleaned(poll, kept)
  {
    forall e | e in kept ensures e.fd != -1 && e in poll { }
  }

  lemma CleanKeeps(s: State, kept: seq<PollEntry>)
    requires Inv(s) && !s.stopped && Cleaned(s.poll, kept)
    ensures Inv(s.(poll := kept))
  {
    hide Placed, Told, Wired, Framed, Flagged, Homed, Polled;
    PolledClean(s.poll, kept, s.clients, s.sock, s.pipe);
  }

  lemma KnownChildren(s: State)
    requires Inv(s)
    ensures s.past.children == s.processes.Keys
  {
    hide Placed, Told, Wired, Framed, Flagged, Homed, Polled;
  }

  lemma SomeLimit(s: State)
    requires Inv(s)
    ensures s.parallel >= 1
  {
    hide Placed, Told, Wired, Framed, Flagged, Homed, Polled;
  }
}
