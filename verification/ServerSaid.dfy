/** What the messages of the prover server say to a client that reads them, and which requests they are about. */
module ServerSaid {
  import opened Framing
  import opened Requests
  import opened ServerState

  // ----- requests

  /** Queued and running jobs are accepted requests, all of them run requests with readable ids. */
  ghost predicate Known(requests: seq<Request>, n: nat, queue: seq<Job>, procs: map<int, Job>)
  {
    && |requests| == n
    && (forall k :: 0 <= k < n ==> requests[k].Run? && Plain(requests[k].id))
    && (forall i :: 0 <= i < |queue| ==> queue[i].serial < n && requests[queue[i].serial] == queue[i].req)
    && (forall p :: p in procs ==> procs[p].serial < n && requests[procs[p].serial] == procs[p].req)
  }

  lemma KnownNew(requests: seq<Request>, n: nat, queue: seq<Job>, procs: map<int, Job>, req: Request)
    requires Known(requests, n, queue, procs) && req.Run? && Plain(req.id)
    ensures |requests| == n && Known(requests + [req], n + 1, queue, procs)
  {
    hide Plain;
  }

  lemma KnownEnqueue(requests: seq<Request>, n: nat, queue: seq<Job>, procs: map<int, Job>, job: Job)
    requires Known(requests, n, queue, procs) && job.serial < n && requests[job.serial] == job.req
    ensures Known(requests, n, queue + [job], procs)
  {
    hide Plain;
  }

  lemma KnownTake(requests: seq<Request>, n: nat, queue: seq<Job>, procs: map<int, Job>)
    requires Known(requests, n, queue, procs) && queue != []
    ensures |requests| == n && queue[0].serial < n && requests[queue[0].serial] == queue[0].req
    ensures Known(requests, n, queue[1..], procs)
  {
    hide Plain;
  }

  lemma KnownStart(requests: seq<Request>, n: nat, queue: seq<Job>, procs: map<int, Job>, job: Job, pid: int)
    requires Known(requests, n, queue, procs) && job.serial < n && requests[job.serial] == job.req
    ensures Known(requests, n, queue, procs[pid := job]) && Plain(job.req.id)
  {
    hide Plain;
  }

  lemma KnownEnd(requests: seq<Request>, n: nat, queue: seq<Job>, procs: map<int, Job>, pid: int)
    requires Known(requests, n, queue, procs) && pid in procs
    ensures Known(requests, n, queue, procs - {pid})
    ensures |requests| == n && procs[pid].serial < n && requests[procs[pid].serial] == procs[pid].req
    ensures Plain(procs[pid].req.id)
  {
    hide Plain;
  }

  lemma KnownFewer(requests: seq<Request>, n: nat, queue: seq<Job>, procs: map<int, Job>, kept: seq<Job>)
    requires Known(requests, n, queue, procs) && forall x :: x in kept ==> x in queue
    ensures Known(requests, n, kept, procs)
  {
    hide Plain;
    forall i | 0 <= i < |kept| ensures kept[i].serial < n && requests[kept[i].serial] == kept[i].req {
      assert kept[i] in queue;
    }
  }

  // ----- messages

  /**
   What a client reads: the text is one line, and its fields are "S" and the id for a started request,
   "F", the id and the detail for an ended one.
   */
  ghost predicate Reads(x: Sent, id: string)
  {
    && |x.text| >= 1 && x.text[|x.text| - 1] == '\n'
    && var body := x.text[..|x.text| - 1];
       && ('\n' !in x.detail ==> '\n' !in body)
       && Split(body, ';') == if x.kind.Started? then ["S", id] else ["F", id] + Split(x.detail, ';')
  }

  /** Every message pushed reads as one about its request. */
  ghost predicate Readable(requests: seq<Request>, log: seq<Sent>)
  {
    forall i :: 0 <= i < |log| ==> log[i].serial < |requests| && Reads(log[i], requests[log[i].serial].id)
  }

  lemma StartedReads(x: Sent, id: string)
    requires x.kind.Started? && x.detail == "" && x.text == StartedMsg(id) && Plain(id)
    ensures Reads(x, id)
  {
    hide Split;
    var body := "S;" + id;
    assert x.text[..|x.text| - 1] == body && body == "S" + [';'] + id;
    SplitFirst("S", id, ';');
    SplitNone(id, ';');
    assert ["S"] + [id] == ["S", id];
  }

  lemma EndedReads(x: Sent, id: string)
    requires x.kind.Ended? && x.text == EndedMsg(id, x.detail) && Plain(id)
    ensures Reads(x, id)
  {
    hide Split;
    var rest := id + [';'] + x.detail;
    var body := "F;" + id + ";" + x.detail;
    assert x.text[..|x.text| - 1] == body && body == "F" + [';'] + rest;
    SplitFirst("F", rest, ';');
    SplitFirst(id, x.detail, ';');
    assert ["F"] + ([id] + Split(x.detail, ';')) == ["F", id] + Split(x.detail, ';');
  }

  lemma ReadablePush(requests: seq<Request>, log: seq<Sent>, x: Sent)
    requires Readable(requests, log) && x.serial < |requests| && Reads(x, requests[x.serial].id)
    ensures Readable(requests, log + [x])
  {
    hide Reads;
  }

  lemma ReadableNew(requests: seq<Request>, log: seq<Sent>, req: Request)
    requires Readable(requests, log)
    ensures Readable(requests + [req], log)
  {
    hide Reads;
  }

  // ----- lines

  /** The fields of a string are made of its characters, without the separator. */
  lemma {:induction false} FieldChars(s: string, sep: char, x: string, c: char)
    requires x in Split(s, sep) && c in x
    ensures c in s && c != sep
    decreases |s|
  {
    if s != "" {
      var n := |s| - 1;
      var f := Split(s[..n], sep);
      if x in f {
        FieldChars(s[..n], sep, x, c);
      } else if s[n] != sep {
        var last := f[|f| - 1];
        if c in last { FieldChars(s[..n], sep, last, c); }
      }
    }
  }

  /** Complete lines have no newline in them. */
  lemma LinesPlain(s: string)
    ensures forall i :: 0 <= i < |Lines(s)| ==> '\n' !in Lines(s)[i]
  {
    hide Split;
    var f := Split(s, '\n');
    forall i | 0 <= i < |f| - 1 ensures '\n' !in f[i] {
      if '\n' in f[i] { FieldChars(s, '\n', f[i], '\n'); }
    }
  }

  /** A request parsed from one line has an id that a message can carry. */
  lemma ParsedPlain(line: string, key: int)
    requires '\n' !in line
    ensures Parse(line, key).Got? ==> Plain(Parse(line, key).req.id)
  {
    hide Split, CStr, Atoi;
    var f := Split(line, ';');
    if Parse(line, key).Got? {
      var id := CStr(f[1]);
      forall c | c in id ensures c != ';' && c != '\n' { FieldChars(line, ';', f[1], c); }
    }
  }
}
