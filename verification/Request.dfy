/** Requests of the prover server and their parser (request.c). */
module Requests {
  import opened Radix
  import opened RadixText
  import opened MpzCore
  import opened Framing
  import opened RingQueue
  import opened RadixChunks

  datatype Request =
    | Run(key: int, id: string, timeout: int, memlimit: nat, usestdin: bool, cmd: string, args: seq<string>)
    | Interrupt(key: int, id: string)

  /** A queued run request; the serial number only tells requests apart. */
  datatype Job = Job(serial: nat, req: Request)

  /** What a line asks for: nothing, a new process limit, or a request. */
  datatype Parsed = Nothing | Limit(n: int) | Got(req: Request)

  /** The part of a C string that its readers see: up to the first NUL. */
  function CStr(s: string): (t: string)
    ensures |t| <= |s| && t == s[..|t|] && '\0' !in t && (|t| < |s| ==> s[|t|] == '\0')
  {
    if s == "" || s[0] == '\0' then "" else
      var t := [s[0]] + CStr(s[1..]);
      assert s == [s[0]] + s[1..];
      t
  }

  lemma CStrPlain(s: string)
    requires '\0' !in s
    ensures CStr(s) == s
  {
  }

  /** strncmp(a, b, n) == 0 on NUL-terminated strings, from place i on. */
  predicate SamePrefix(a: string, b: string, i: nat, n: nat)
    decreases n - i
  {
    if i >= n then true
    else if CharAt(a, i) != CharAt(b, i) then false
    else if CharAt(a, i) == '\0' then true
    else SamePrefix(a, b, i + 1, n)
  }

  /** Compared up to one place beyond a, the strings are equal. */
  lemma {:induction false} SamePrefixExact(a: string, b: string, i: nat)
    requires '\0' !in b && i <= |CStr(a)| && i <= |b| && CStr(a)[..i] == b[..i]
    ensures SamePrefix(a, b, i, |a| + 1) <==> CStr(a) == b
    decreases |a| - i
  {
    var t := CStr(a);
    if i < |t| && i < |b| && t[i] == b[i] {
      assert t[..i + 1] == t[..i] + [t[i]] && b[..i + 1] == b[..i] + [b[i]];
      SamePrefixExact(a, b, i + 1);
    } else if i == |t| {
      assert t[..i] == t;
      if i == |b| { assert b[..i] == b; }
    } else {
      assert i == |b| || b[i] != a[i];
      assert t[i] == a[i] && a[i] != '\0';
    }
  }

  /** The number that leading decimal digits denote. */
  function LeadingNumber(s: string, acc: nat): (n: nat)
    decreases |s|
  {
    if s != "" && '0' <= s[0] <= '9' then LeadingNumber(s[1..], acc * 10 + DigitOf(s[0])) else acc
  }

  /** atoi, without its undefined overflow. */
  function Atoi(s: string): (n: int)
  {
    var t := SkipSpaces(s);
    if CharAt(t, 0) == '-' then -(LeadingNumber(t[1..], 0) as int)
    else if CharAt(t, 0) == '+' then LeadingNumber(t[1..], 0)
    else LeadingNumber(t, 0)
  }

  /** What the fields of a line mean. */
  ghost function Meaning(f: seq<string>, key: int): (p: Parsed)
    requires |f| >= 1
  {
    if |f| == 2 then
      if CStr(f[0]) == "parallel" then (if Atoi(CStr(f[1])) >= 1 then Limit(Atoi(CStr(f[1]))) else Nothing)
      else if CStr(f[0]) == "interrupt" then Got(Interrupt(key, CStr(f[1])))
      else Nothing
    else if |f| >= 5 && (CStr(f[0]) == "run" || CStr(f[0]) == "runstdin") then
      Got(Run(key, CStr(f[1]), Atoi(CStr(f[2])), Atoi(CStr(f[3])) % 0x1_0000_0000, CStr(f[0]) == "runstdin",
              CStr(f[4]), seq(|f| - 5, k requires 0 <= k < |f| - 5 => CStr(f[k + 5]))))
    else Nothing
  }

  ghost function Parse(s: string, key: int): (p: Parsed)
  {
    Meaning(Split(s, ';'), key)
  }

  /** count_semicolons */
  method CountSemicolons(s: string) returns (count: nat)
    ensures count + 1 == |Split(s, ';')|
  {
    count := 0;
    for i := 0 to |s|
      invariant count + 1 == |Split(s[..i], ';')|
    {
      assert s[..i + 1] == s[..i] + [s[i]];
      SplitSnoc(s[..i], s[i], ';');
      if s[i] == ';' { count := count + 1; }
    }
    assert s[..|s|] == s;
  }

  /** copy_up_to_semicolon: the next field, and where the one after it starts (0 at the end). */
  method CopyUpToSemicolon(s: string, begin: nat) returns (field: string, next: nat)
    requires begin <= |s|
    ensures next == 0 ==> Split(s[begin..], ';') == [field]
    ensures next > 0 ==> begin < next <= |s| && Split(s[begin..], ';') == [field] + Split(s[next..], ';')
    ensures next == 0 || next == begin + |field| + 1
  {
    hide Split;
    var i := begin;
    while i < |s| && s[i] != ';'
      invariant begin <= i <= |s| && ';' !in s[begin..i]
    {
      i := i + 1;
    }
    field := s[begin..i];
    if i == |s| {
      next := 0;
      assert s[begin..] == field;
      SplitNone(field, ';');
    } else {
      next := i + 1;
      SplitFirst(field, s[i + 1..], ';');
      assert s[begin..] == field + [';'] + s[i + 1..];
    }
  }

  /** The field at place k, given that the fields from pos on are those from k on. */
  method NextField(s: string, pos: nat, ghost k: nat) returns (field: string, next: nat)
    requires pos <= |s| && k < |Split(s, ';')| && Split(s[pos..], ';') == Split(s, ';')[k..]
    ensures field == Split(s, ';')[k] && next <= |s|
    ensures k + 1 < |Split(s, ';')| ==> next == pos + |field| + 1 && Split(s[next..], ';') == Split(s, ';')[k + 1..]
  {
    field, next := CopyUpToSemicolon(s, pos);
    assert Split(s, ';')[k..] == [Split(s, ';')[k]] + Split(s, ';')[k + 1..];
  }

  /** parse_request; the process limit is a global that it may set. */
  method ParseRequest(s: string, key: int, parallel0: int) returns (r: Option<Request>, parallel: int)
    ensures r == (if Parse(s, key).Got? then Some(Parse(s, key).req) else None)
    ensures parallel == (if Parse(s, key).Limit? then Parse(s, key).n else parallel0)
  {
    hide Split, CStr, Atoi, SamePrefix;
    r, parallel := None, parallel0;
    ghost var f := Split(s, ';');
    assert s[0..] == s && f[0..] == f;
    var semic := CountSemicolons(s);
    if semic == 0 { return; }
    var tmp, pos := NextField(s, 0, 0);
    if semic == 1 {
      var isParallel := SamePrefix(tmp, "parallel", 0, pos);
      SamePrefixExact(tmp, "parallel", 0);
      if isParallel {
        tmp, pos := NextField(s, pos, 1);
        var n := Atoi(CStr(tmp));
        if n >= 1 { parallel := n; }
      } else {
        var isInterrupt := SamePrefix(tmp, "interrupt", 0, pos);
        SamePrefixExact(tmp, "interrupt", 0);
        if isInterrupt {
          tmp, pos := NextField(s, pos, 1);
          r := Some(Interrupt(key, CStr(tmp)));
        }
      }
      return;
    }
    if semic < 4 { return; }
    r := ParseRun(s, key, tmp, pos, semic - 4);
  }

  /** The rest of parse_request, for a line with at least four semicolons. */
  method ParseRun(s: string, key: int, first: string, pos0: nat, numargs: nat) returns (r: Option<Request>)
    requires |Split(s, ';')| == numargs + 5 && first == Split(s, ';')[0]
    requires pos0 == |first| + 1 <= |s| && Split(s[pos0..], ';') == Split(s, ';')[1..]
    ensures r == if Parse(s, key).Got? then Some(Parse(s, key).req) else None
  {
    hide Split, CStr, Atoi, SamePrefix;
    r := None;
    ghost var f := Split(s, ';');
    var usestdin := false;
    var isRun := SamePrefix(first, "run", 0, pos0);
    SamePrefixExact(first, "run", 0);
    SamePrefixExact(first, "runstdin", 0);
    if !isRun {
      if SamePrefix(first, "runstdin", 0, pos0) { usestdin := true; } else { return; }
    }
    var id, timeout, memlimit, cmd: string;
    var pos: nat;
    id, pos := NextField(s, pos0, 1);
    timeout, pos := NextField(s, pos, 2);
    memlimit, pos := NextField(s, pos, 3);
    cmd, pos := NextField(s, pos, 4);
    var args: seq<string> := [];
    var i := 0;
    while i < numargs
      invariant 0 <= i <= numargs && |args| == i && forall k :: 0 <= k < i ==> args[k] == CStr(f[k + 5])
      invariant pos <= |s| && (i < numargs ==> Split(s[pos..], ';') == f[i + 5..])
    {
      var arg;
      arg, pos := NextField(s, pos, i + 5);
      args := args + [CStr(arg)];
      i := i + 1;
    }
    assert args == seq(|f| - 5, k requires 0 <= k < |f| - 5 => CStr(f[k + 5]));
    r := Some(Run(key, CStr(id), Atoi(CStr(timeout)), Atoi(CStr(memlimit)) % 0x1_0000_0000, usestdin, CStr(cmd), args));
  }

  /** No digit follows. */
  ghost predicate NoDigit(rest: string)
  {
    rest == "" || !('0' <= rest[0] <= '9')
  }

  lemma {:induction false} LeadingDigits(s: seq<Digit>, i: nat, rest: string)
    requires Below(s, 10) && i <= |s| && NoDigit(rest)
    ensures LeadingNumber(Render(s[i..], LOWER) + rest, DVal(s[..i], 10)) == DVal(s, 10)
    decreases |s| - i
  {
    hide DVal, DigitOf;
    if i == |s| {
      assert s[..i] == s && Render(s[i..], LOWER) + rest == rest;
    } else {
      LowerValue(s[i]);
      DecimalChar(s[i]);
      assert (Render(s[i..], LOWER) + rest)[1..] == Render(s[i + 1..], LOWER) + rest;
      assert s[..i + 1] == s[..i] + [s[i]];
      DValAppend(s[..i], s[i], 10);
      LeadingDigits(s, i + 1, rest);
    }
  }

  lemma DecimalChar(d: Digit)
    requires d < 10
    ensures '0' <= LOWER[d] <= '9'
  {
  }

  /** The text of a natural number starts with a digit and denotes it, whatever follows. */
  lemma LeadingText(v: nat, rest: string)
    requires NoDigit(rest)
    ensures LeadingNumber(Text(10, v) + rest, 0) == v && Text(10, v) != "" && '0' <= Text(10, v)[0] <= '9'
  {
    hide DVal, Digits, Render, DigitOf;
    if v == 0 {
      LeadingZero(rest);
    } else {
      var s := Digits(v, 10);
      DigitsValue(v, 10);
      DigitsNonempty(v, 10);
      LeadingDigits(s, 0, rest);
      DValEmpty(10);
      DecimalFirst(s);
      assert s[0..] == s && s[..0] == [] && "" + Render(s, LOWER) == Render(s, LOWER);
    }
  }

  lemma LeadingZero(rest: string)
    requires NoDigit(rest)
    ensures LeadingNumber("0" + rest, 0) == 0
  {
    assert ("0" + rest)[1..] == rest;
  }

  lemma DecimalFirst(s: seq<Digit>)
    requires Below(s, 10) && s != []
    ensures '0' <= Render(s, LOWER)[0] <= '9'
  {
    DecimalChar(s[0]);
  }

  lemma NegatedText(v: int)
    requires v > 0
    ensures Text(10, -v) == "-" + Text(10, v)
  {
    hide Digits, Render;
    var t := Render(Digits(v, 10), LOWER) by { DigitsValue(v, 10); }
    assert "" + t == t;
  }

  /** atoi reads a decimal number behind spaces and before anything that is no digit, also with a plus sign. */
  lemma AtoiReads(w: string, v: int, rest: string)
    requires (forall k :: 0 <= k < |w| ==> IsSpace(w[k])) && NoDigit(rest)
    ensures Atoi(w + (Text(10, v) + rest)) == v
    ensures v >= 0 ==> Atoi(w + ("+" + Text(10, v) + rest)) == v
  {
    hide Text, LeadingNumber;
    LeadingText(Abs(v), rest);
    SkipFront(w, Text(10, v) + rest);
    if v >= 0 {
      SkipFront(w, "+" + Text(10, v) + rest);
      assert ("+" + Text(10, v) + rest)[1..] == Text(10, v) + rest;
    } else {
      NegatedText(-v);
      assert (Text(10, v) + rest)[1..] == Text(10, -v) + rest;
    }
  }

  /** Where no number follows, it gives 0. */
  lemma AtoiNothing(w: string, sign: string, rest: string)
    requires (forall k :: 0 <= k < |w| ==> IsSpace(w[k])) && NoDigit(rest) && (sign == "-" || sign == "+")
    ensures Atoi(w + (sign + rest)) == 0
    ensures (rest == "" || !(IsSpace(rest[0]) || rest[0] == '-' || rest[0] == '+')) ==> Atoi(w + rest) == 0
  {
    SkipFront(w, sign + rest);
    SkipFront(w, rest);
    assert (sign + rest)[1..] == rest;
  }

  /** atoi undoes decimal printing. */
  lemma AtoiText(v: int)
    ensures Atoi(Text(10, v)) == v
  {
    hide Text, Atoi;
    AtoiReads("", v, "");
    assert "" + (Text(10, v) + "") == Text(10, v);
  }

  /** Fields that survive the trip: no separator, no newline, no NUL. */
  predicate Plain(x: string)
  {
    ';' !in x && '\n' !in x && '\0' !in x
  }

  lemma DecimalPlain(v: int)
    ensures Plain(Text(10, v))
  {
    hide DVal, Digits;
    if v == 0 {
      assert Text(10, v) == ['0'];
    } else {
      var s := Digits(Abs(v), 10);
      DigitsValue(Abs(v), 10);
      forall k | 0 <= k < |s| ensures '0' <= Render(s, LOWER)[k] <= '9' { DecimalChar(s[k]); }
    }
  }

  /** The fields a client joins with semicolons to ask for a run. */
  ghost function RunFields(r: Request): (f: seq<string>)
    requires r.Run?
  {
    [if r.usestdin then "runstdin" else "run", r.id, Text(10, r.timeout), Text(10, r.memlimit), r.cmd] + r.args
  }

  ghost predicate AllPlain(f: seq<string>)
  {
    forall k :: 0 <= k < |f| ==> Plain(f[k])
  }

  /** Parsing undoes joining, for every run request with plain fields. */
  lemma ParseRunFields(r: Request)
    requires r.Run? && Plain(r.id) && Plain(r.cmd) && AllPlain(r.args) && r.memlimit < 0x1_0000_0000
    ensures Parse(Join(RunFields(r), ';'), r.key) == Got(r)
    ensures '\n' !in Join(RunFields(r), ';')
  {
    hide Split, Join, Meaning, RunFields;
    var f := RunFields(r);
    RunFieldsPlain(r);
    SplitJoin(f, ';');
    JoinPlain(f);
    RunMeaning(r, f);
  }

  lemma RunMeaning(r: Request, f: seq<string>)
    requires r.Run? && r.memlimit < 0x1_0000_0000 && f == RunFields(r) && AllPlain(f)
    ensures Meaning(f, r.key) == Got(r)
  {
    hide CStr, Atoi, Text, Plain, AllPlain, RunFields;
    AtoiText(r.timeout); AtoiText(r.memlimit);
    FieldsSeen(f);
    FieldsOf(r);
    ArgsSeen(r, f);
    assert "runstdin" != "run";
  }

  lemma FieldsOf(r: Request)
    requires r.Run?
    ensures var f := RunFields(r);
            && |f| == |r.args| + 5 && f[0] == (if r.usestdin then "runstdin" else "run") && f[1] == r.id
            && f[2] == Text(10, r.timeout) && f[3] == Text(10, r.memlimit) && f[4] == r.cmd
            && forall k :: 0 <= k < |r.args| ==> f[k + 5] == r.args[k]
  {
    hide Text;
  }

  lemma FieldsSeen(f: seq<string>)
    requires AllPlain(f)
    ensures forall k :: 0 <= k < |f| ==> CStr(f[k]) == f[k]
  {
    hide CStr, Plain;
    forall k | 0 <= k < |f| ensures CStr(f[k]) == f[k] { PlainSeen(f[k]); }
  }

  lemma ArgsSeen(r: Request, f: seq<string>)
    requires r.Run? && |f| == |r.args| + 5
    requires forall k :: 0 <= k < |r.args| ==> f[k + 5] == r.args[k]
    requires forall k :: 0 <= k < |f| ==> CStr(f[k]) == f[k]
    ensures seq(|f| - 5, k requires 0 <= k < |f| - 5 => CStr(f[k + 5])) == r.args
  {
    hide CStr;
    var args := seq(|f| - 5, k requires 0 <= k < |f| - 5 => CStr(f[k + 5]));
    forall k | 0 <= k < |r.args| ensures args[k] == r.args[k] { assert f[k + 5] == r.args[k]; }
  }

  lemma PlainSeen(s: string)
    requires Plain(s)
    ensures CStr(s) == s
  {
    CStrPlain(s);
  }

  lemma RunFieldsPlain(r: Request)
    requires r.Run? && Plain(r.id) && Plain(r.cmd) && AllPlain(r.args)
    ensures |RunFields(r)| >= 5 && AllPlain(RunFields(r))
  {
    hide Plain, Text;
    DecimalPlain(r.timeout); DecimalPlain(r.memlimit);
    WordsPlain();
  }

  lemma WordsPlain()
    ensures Plain("run") && Plain("runstdin") && Plain("interrupt") && Plain("parallel")
  {
  }

  lemma {:induction false} JoinPlain(f: seq<string>)
    requires |f| >= 1 && AllPlain(f)
    ensures '\n' !in Join(f, ';')
    decreases |f|
  {
    if |f| > 1 { JoinPlain(f[..|f| - 1]); }
  }

  lemma ParseInterruptFields(key: int, id: string)
    requires Plain(id)
    ensures Parse(Join(["interrupt", id], ';'), key) == Got(Interrupt(key, id))
  {
    hide Split, CStr, Atoi, Join;
    WordsPlain();
    var f := ["interrupt", id];
    SplitJoin(f, ';');
    CStrPlain(f[0]); CStrPlain(f[1]);
  }

  lemma ParseParallelFields(key: int, n: int)
    requires n >= 1
    ensures Parse(Join(["parallel", Text(10, n)], ';'), key) == Limit(n)
  {
    hide Split, CStr, Atoi, Join, Text;
    WordsPlain();
    DecimalPlain(n);
    AtoiText(n);
    var f := ["parallel", Text(10, n)];
    SplitJoin(f, ';');
    CStrPlain(f[0]); CStrPlain(f[1]);
  }

  /** The jobs with another id, in their order. */
  function Without(q: seq<Job>, id: string): (r: seq<Job>)
    ensures |r| <= |q|
  {
    if q == [] then [] else
      var r := Without(q[..|q| - 1], id);
      if q[|q| - 1].req.id == id then r else r + [q[|q| - 1]]
  }

  lemma WithoutSnoc(q: seq<Job>, x: Job, id: string)
    ensures Without(q + [x], id) == Without(q, id) + (if x.req.id == id then [] else [x])
  {
    assert (q + [x])[..|q|] == q;
  }

  /** remove_from_queue: drain into a second queue what is kept, and back. */
  method RemoveFromQueue(q: Queue<Job>, id: string)
    requires q.Valid()
    modifies q, q.data
    ensures q.Valid() && q.Contents() == Without(old(q.Contents()), id) && (q.data == old(q.data) || fresh(q.data))
  {
    hide Without, Ring;
    var tmp := new Queue<Job>(q.capacity);
    DrainKept(q, tmp, id);
    DrainBack(tmp, q);
  }

  /** The first loop: tmp gets the requests with another id. */
  method DrainKept(q: Queue<Job>, tmp: Queue<Job>, id: string)
    requires q.Valid() && tmp.Valid() && q != tmp && q.data != tmp.data && tmp.Contents() == []
    modifies q, tmp, tmp.data
    ensures q.Valid() && tmp.Valid() && q.data == old(q.data) && q.Contents() == []
    ensures tmp.Contents() == Without(old(q.Contents()), id) && (tmp.data == old(tmp.data) || fresh(tmp.data))
  {
    hide Without, Ring;
    ghost var all, seen := q.Contents(), [];
    WithoutNone(id);
    while !q.IsEmpty()
      invariant q.Valid() && tmp.Valid() && q.data == old(q.data) && tmp.data != q.data
      invariant tmp.data == old(tmp.data) || fresh(tmp.data)
      invariant all == seen + q.Contents() && tmp.Contents() == Without(seen, id)
      decreases q.len
    {
      var r := q.Pop();
      WithoutSnoc(seen, r, id);
      seen := seen + [r];
      if r.req.id != id { tmp.Push(r); }
    }
    assert seen == all;
  }

  /** The second loop: everything back in order. */
  method DrainBack(tmp: Queue<Job>, q: Queue<Job>)
    requires q.Valid() && tmp.Valid() && q != tmp && q.data != tmp.data && q.Contents() == []
    modifies q, tmp, q.data
    ensures q.Valid() && q.Contents() == old(tmp.Contents()) && (q.data == old(q.data) || fresh(q.data))
  {
    hide Ring;
    ghost var kept, back := tmp.Contents(), [];
    while !tmp.IsEmpty()
      invariant q.Valid() && tmp.Valid() && tmp.data == old(tmp.data) && tmp.data != q.data
      invariant q.data == old(q.data) || fresh(q.data)
      invariant kept == back + tmp.Contents() && q.Contents() == back
      decreases tmp.len
    {
      var r := tmp.Pop();
      back := back + [r];
      q.Push(r);
    }
  }

  lemma WithoutNone(id: string)
    ensures Without([], id) == []
  {
  }
}
