/** The disk scheduler as a step system: clients put requests on a queue, one worker takes them off and
    answers each on the channel that came with it. */
module Scheduler {
  import opened Common
  import opened Disk

  datatype RequestType = ReadPage | WritePage | DeletePage

  /** `promise` names the channel the answer goes to. */
  datatype Request = Request(kind: RequestType, promise: nat, data: seq<byte>, pageId: PageId)

  datatype Message = Stop | Job(request: Request)
  datatype Answer = Answer(promise: nat, data: seq<byte>)

  /** A worker leaves its loop at a `Stop`, and its thread dies if an operation panics. */
  datatype Status = Running | Stopped | Crashed
  datatype Worker = Worker(disk: Disk, answers: seq<Answer>, status: Status)
  datatype System = System(queue: seq<Message>, worker: Worker)
  datatype Step = Send(message: Message) | Work

  /** The direct call a request stands for, and the data sent back. */
  function Perform(d: Disk, r: Request): (o: Outcome<(Disk, seq<byte>)>) {
    match r.kind
    case ReadPage => Read(d, r.pageId, r.data)
    case WritePage => (match Write(d, r.pageId, r.data) case Panic => Panic case Done(e) => Done((e, r.data)))
    case DeletePage => Done((Delete(d, r.pageId), r.data))
  }

  /** One turn of the worker's loop. */
  function Handle(w: Worker, m: Message): (r: Worker) {
    if w.status != Running then w
    else match m
      case Stop => w.(status := Stopped)
      case Job(q) =>
        match Perform(w.disk, q)
        case Panic => w.(status := Crashed)
        case Done(x) => Worker(x.0, w.answers + [Answer(q.promise, x.1)], Running)
  }

  /** Sending fails once the worker has left its loop: the channel is closed. */
  function Next(s: System, x: Step): (r: System) {
    if s.worker.status != Running then s
    else match x
      case Send(m) => s.(queue := s.queue + [m])
      case Work => if s.queue == [] then s else System(s.queue[1..], Handle(s.worker, s.queue[0]))
  }

  function Run(s: System, xs: seq<Step>): (r: System)
    decreases xs
  {
    if xs == [] then s else Run(Next(s, xs[0]), xs[1..])
  }

  /** The messages put on the queue during a run, in order. */
  function Accepted(s: System, xs: seq<Step>): (ms: seq<Message>)
    decreases xs
  {
    if xs == [] then []
    else
      var rest := Accepted(Next(s, xs[0]), xs[1..]);
      if xs[0].Send? && s.worker.status == Running then [xs[0].message] + rest else rest
  }

  /** The messages taken off the queue during a run, in order. */
  function Taken(s: System, xs: seq<Step>): (ms: seq<Message>)
    decreases xs
  {
    if xs == [] then []
    else
      var rest := Taken(Next(s, xs[0]), xs[1..]);
      if xs[0].Work? && s.worker.status == Running && s.queue != [] then [s.queue[0]] + rest else rest
  }

  /** The specification: one message at a time, in order. */
  function Serve(w: Worker, ms: seq<Message>): (r: Worker)
    decreases ms
  {
    if ms == [] then w else Serve(Handle(w, ms[0]), ms[1..])
  }

  // ------------------------------------------------------------------ linearization

  /** However clients and worker interleave, what was taken and what still waits are, in order, what was
      queued at first and what was accepted since. */
  lemma {:induction false} FirstInFirstOut(s: System, xs: seq<Step>)
    ensures s.queue + Accepted(s, xs) == Taken(s, xs) + Run(s, xs).queue
    decreases xs
  {
    if xs != [] {
      var t := Next(s, xs[0]);
      var accepted, taken, rest := Accepted(t, xs[1..]), Taken(t, xs[1..]), Run(t, xs[1..]).queue;
      FirstInFirstOut(t, xs[1..]);
      if s.worker.status == Running && xs[0].Work? && s.queue != [] {
        var m := s.queue[0];
        assert s.queue + accepted == [m] + (t.queue + accepted);
        assert [m] + (taken + rest) == ([m] + taken) + rest;
      } else if s.worker.status == Running && xs[0].Send? {
        assert s.queue + ([xs[0].message] + accepted) == t.queue + accepted;
      }
    }
  }

  /** And the worker is where handling the taken messages one at a time leads. */
  lemma {:induction false} WorkerServes(s: System, xs: seq<Step>)
    ensures Run(s, xs).worker == Serve(s.worker, Taken(s, xs))
    decreases xs
  {
    if xs != [] {
      var t := Next(s, xs[0]);
      WorkerServes(t, xs[1..]);
      if s.worker.status == Running && xs[0].Work? && s.queue != [] {
        assert Taken(s, xs)[1..] == Taken(t, xs[1..]);
      }
    }
  }

  lemma {:induction false} ServeSplit(w: Worker, ms: seq<Message>, ns: seq<Message>)
    ensures Serve(w, ms + ns) == Serve(Serve(w, ms), ns)
    decreases ms
  {
    if ms == [] {
      assert ms + ns == ns;
    } else {
      assert (ms + ns)[1..] == ms[1..] + ns;
      ServeSplit(Handle(w, ms[0]), ms[1..], ns);
    }
  }

  lemma {:induction false} ServeHalted(w: Worker, ms: seq<Message>)
    requires w.status != Running
    ensures Serve(w, ms) == w
  {
    if ms != [] {
      ServeHalted(w, ms[1..]);
    }
  }

  lemma {:induction false} TakenHalted(s: System, xs: seq<Step>)
    requires s.worker.status != Running
    ensures Taken(s, xs) == [] && Run(s, xs) == s
  {
    if xs != [] {
      TakenHalted(s, xs[1..]);
    }
  }

  /** Nothing is taken after a `Stop`: everything taken before it was a request. */
  lemma {:induction false} StopIsLast(s: System, xs: seq<Step>, i: nat)
    requires i < |Taken(s, xs)| && Taken(s, xs)[i] == Stop
    ensures i == |Taken(s, xs)| - 1 && Run(s, xs).worker.status != Running
    decreases xs
  {
    var t := Next(s, xs[0]);
    if xs[0].Work? && s.worker.status == Running && s.queue != [] {
      if i == 0 {
        TakenHalted(t, xs[1..]);
      } else {
        StopIsLast(t, xs[1..], i - 1);
      }
    } else {
      StopIsLast(t, xs[1..], i);
    }
  }

  // ------------------------------------------------------------------ answers

  function Jobs(rs: seq<Request>): (ms: seq<Message>)
    ensures |ms| == |rs|
    ensures forall i :: 0 <= i < |rs| ==> ms[i] == Job(rs[i])
  {
    seq(|rs|, i requires 0 <= i < |rs| => Job(rs[i]))
  }

  lemma JobsSplit(rs: seq<Request>, i: nat)
    requires i <= |rs|
    ensures Jobs(rs[..i]) == Jobs(rs)[..i] && Jobs(rs[i..]) == Jobs(rs)[i..]
  {
  }

  /** Each request is answered exactly once, in queue order, on its own channel, with what the direct call
      returns once all earlier requests are done. */
  lemma {:induction false} AnsweredInOrder(w: Worker, rs: seq<Request>)
    requires w.status == Running && Serve(w, Jobs(rs)).status != Crashed
    ensures Serve(w, Jobs(rs)).status == Running
    ensures var r := Serve(w, Jobs(rs));
            |r.answers| == |w.answers| + |rs| && r.answers[..|w.answers|] == w.answers
    ensures forall i :: 0 <= i < |rs| ==> AnswerOf(w, rs, i)
    decreases rs
  {
    if rs != [] {
      JobsSplit(rs, 1);
      var v := Handle(w, Job(rs[0]));
      if v.status == Crashed {
        ServeHalted(v, Jobs(rs)[1..]);
      }
      AnsweredInOrder(v, rs[1..]);
      var r := Serve(w, Jobs(rs));
      assert r.answers[|w.answers|] == v.answers[|w.answers|];
      forall i | 0 <= i < |rs|
        ensures AnswerOf(w, rs, i)
      {
        if i > 0 {
          assert AnswerOf(v, rs[1..], i - 1);
          JobsSplit(rs[..i], 1);
          assert rs[..i][1..] == rs[1..][..i - 1];
        }
      }
    }
  }

  ghost predicate AnswerOf(w: Worker, rs: seq<Request>, i: nat)
    requires i < |rs|
  {
    var before, after := Serve(w, Jobs(rs[..i])), Serve(w, Jobs(rs));
    && |w.answers| + i < |after.answers|
    && Perform(before.disk, rs[i]).Done?
    && after.answers[|w.answers| + i] == Answer(rs[i].promise, Perform(before.disk, rs[i]).value.1)
  }

  function Works(n: nat): (xs: seq<Step>) {
    if n == 0 then [] else [Work] + Works(n - 1)
  }

  lemma {:induction false} WorkThroughQueue(s: System, n: nat)
    requires |s.queue| <= n
    requires s.worker.status == Running && Serve(s.worker, s.queue).status != Crashed
    requires forall i :: 0 <= i < |s.queue| - 1 ==> s.queue[i] != Stop
    ensures Run(s, Works(n)) == System([], Serve(s.worker, s.queue))
    decreases n
  {
    if s.queue != [] {
      var t := Next(s, Work);
      assert Works(n)[1..] == Works(n - 1);
      if t.worker.status != Running {
        ServeHalted(t.worker, t.queue);
        assert s.queue[0] == Stop;
        TakenHalted(t, Works(n - 1));
      } else {
        WorkThroughQueue(t, n - 1);
      }
    } else if n > 0 {
      assert Works(n)[1..] == Works(n - 1);
      WorkThroughQueue(s, n - 1);
    }
  }

  /** Dropping the scheduler sends `Stop` and joins the worker: by the time it has stopped, every request
      sent before has been handled, and the queue is empty. */
  lemma DropDrains(s: System, rs: seq<Request>, n: nat)
    requires s.worker.status == Running && s.queue == Jobs(rs) && n > |rs|
    requires Serve(s.worker, Jobs(rs)).status != Crashed
    ensures Run(s, [Send(Stop)] + Works(n)) == System([], Serve(s.worker, Jobs(rs)).(status := Stopped))
  {
    var t := Next(s, Send(Stop));
    AnsweredInOrder(s.worker, rs);
    ServeSplit(s.worker, Jobs(rs), [Stop]);
    assert ([Send(Stop)] + Works(n))[1..] == Works(n);
    WorkThroughQueue(t, n);
  }

  // ------------------------------------------------------------------ the disk as a plain map

  type Store = map<PageId, Page>

  /** Whole pages only, and no read of a page that was never written. */
  ghost predicate Admitted(m: Store, r: Request) {
    |r.data| >= PAGE_SIZE && (r.kind == ReadPage ==> r.pageId in m)
  }

  ghost function Plain(m: Store, r: Request): (x: (Store, seq<byte>))
    requires Admitted(m, r)
  {
    match r.kind
    case ReadPage => (m, m[r.pageId] + r.data[PAGE_SIZE..])
    case WritePage => (m[r.pageId := r.data[..PAGE_SIZE]], r.data)
    case DeletePage => (m - {r.pageId}, r.data)
  }

  ghost predicate AllAdmitted(m: Store, rs: seq<Request>)
    decreases rs
  {
    rs == [] || (Admitted(m, rs[0]) && AllAdmitted(Plain(m, rs[0]).0, rs[1..]))
  }

  ghost function PlainRun(m: Store, rs: seq<Request>): (x: (Store, seq<Answer>))
    requires AllAdmitted(m, rs)
    decreases rs
  {
    if rs == [] then (m, [])
    else
      var x := Plain(m, rs[0]);
      var y := PlainRun(x.0, rs[1..]);
      (y.0, [Answer(rs[0].promise, x.1)] + y.1)
  }

  /** A direct call on a disk in order is the operation on the plain map of its contents. */
  lemma PerformRefines(d: Disk, r: Request)
    requires DiskOk(d) && Admitted(Contents(d), r)
    ensures Perform(d, r).Done? && DiskOk(Perform(d, r).value.0)
    ensures (Contents(Perform(d, r).value.0), Perform(d, r).value.1) == Plain(Contents(d), r)
  {
    match r.kind
    case ReadPage => ReadReturns(d, r.pageId, r.data);
    case WritePage => WriteStores(d, r.pageId, r.data);
    case DeletePage => DeleteRemoves(d, r.pageId);
  }

  /** The worker's thread dies exactly at a read or write of less than a page of bytes. */
  lemma CrashesExactly(w: Worker, r: Request)
    requires w.status == Running && DiskOk(w.disk)
    ensures Handle(w, Job(r)).status == if r.kind != DeletePage && |r.data| < 8192 then Crashed else Running
  {
    ShortPanics(w.disk, r.pageId, r.data);
  }

  lemma HandleRefines(w: Worker, r: Request)
    requires w.status == Running && DiskOk(w.disk) && Admitted(Contents(w.disk), r)
    ensures var v, x := Handle(w, Job(r)), Plain(Contents(w.disk), r);
            v.status == Running && DiskOk(v.disk) && Contents(v.disk) == x.0 && v.answers == w.answers + [Answer(r.promise, x.1)]
  {
    PerformRefines(w.disk, r);
  }

  /** A request sent to an idle worker and handled: the operation on the plain map, and its answer last. */
  lemma OneCall(w: Worker, r: Request) returns (t: System)
    requires w.status == Running && DiskOk(w.disk) && Admitted(Contents(w.disk), r)
    ensures t == Next(Next(System([], w), Send(Job(r))), Work) && t.queue == []
    ensures t.worker.status == Running && DiskOk(t.worker.disk) && t.worker.answers != []
    ensures (Contents(t.worker.disk), t.worker.answers[|t.worker.answers| - 1].data) == Plain(Contents(w.disk), r)
  {
    HandleRefines(w, r);
    t := System([], Handle(w, Job(r)));
  }

  /** Handling requests in order over a disk in order ends in order, with the contents and the answers of
      the plain map. */
  ghost predicate Refined(w: Worker, rs: seq<Request>, r: Worker)
    requires AllAdmitted(Contents(w.disk), rs)
  {
    var x := PlainRun(Contents(w.disk), rs);
    r.status == Running && DiskOk(r.disk) && Contents(r.disk) == x.0 && r.answers == w.answers + x.1
  }

  lemma {:induction false} ServeRefines(w: Worker, rs: seq<Request>)
    requires w.status == Running && DiskOk(w.disk) && AllAdmitted(Contents(w.disk), rs)
    ensures Refined(w, rs, Serve(w, Jobs(rs)))
    decreases rs
  {
    if rs != [] {
      var v := Handle(w, Job(rs[0]));
      JobsSplit(rs, 1);
      HandleRefines(w, rs[0]);
      ServeRefines(v, rs[1..]);
      RefinedMore(w, rs, v, Serve(v, Jobs(rs[1..])));
    }
  }

  lemma RefinedMore(w: Worker, rs: seq<Request>, v: Worker, r: Worker)
    requires rs != [] && AllAdmitted(Contents(w.disk), rs)
    requires var x := Plain(Contents(w.disk), rs[0]);
             Contents(v.disk) == x.0 && v.answers == w.answers + [Answer(rs[0].promise, x.1)]
    requires Refined(v, rs[1..], r)
    ensures Refined(w, rs, r)
  {
  }

  lemma {:induction false} AdmittedPrefix(m: Store, rs: seq<Request>, k: nat)
    requires k <= |rs| && AllAdmitted(m, rs)
    ensures AllAdmitted(m, rs[..k])
    decreases rs
  {
    if k > 0 {
      assert rs[..k][1..] == rs[1..][..k - 1];
      AdmittedPrefix(Plain(m, rs[0]).0, rs[1..], k - 1);
    }
  }

  /** The requests that are before the first `Stop`. */
  function UpToStop(ms: seq<Message>): (rs: seq<Request>)
    ensures |rs| <= |ms| && (|rs| < |ms| ==> ms[|rs|] == Stop)
    ensures forall i :: 0 <= i < |rs| ==> ms[i] == Job(rs[i])
  {
    if ms == [] || ms[0] == Stop then [] else [ms[0].request] + UpToStop(ms[1..])
  }

  /** The first `k` messages taken are requests; if one more was, it is the `Stop` they come before. */
  lemma TakenAre(s: System, xs: seq<Step>) returns (k: nat)
    ensures var ms, taken := s.queue + Accepted(s, xs), Taken(s, xs);
            && k <= |UpToStop(ms)| && |taken| <= |ms| && Run(s, xs).queue == ms[|taken|..]
            && (taken == Jobs(UpToStop(ms)[..k]) || (taken == Jobs(UpToStop(ms)[..k]) + [Stop] && k == |UpToStop(ms)|))
  {
    FirstInFirstOut(s, xs);
    var ms, taken := s.queue + Accepted(s, xs), Taken(s, xs);
    var rs := UpToStop(ms);
    assert taken == ms[..|taken|];
    if |rs| < |taken| {
      StopIsLast(s, xs, |rs|);
      k := |rs|;
      assert taken == taken[..k] + [Stop];
    } else {
      k := |taken|;
    }
    assert Jobs(rs[..k]) == ms[..k];
  }

  /** Any interleaving of clients and worker over a disk in order: at every moment the disk holds, and
      the clients have been sent, what a plain map of pages gives for the requests taken so far, which are
      the first `k` of those accepted; the others still wait in order. Once the worker has stopped, the
      requests accepted before the first `Stop` are all handled, and none after it. */
  lemma AnyInterleaving(s: System, xs: seq<Step>) returns (k: nat)
    requires s.worker.status == Running && DiskOk(s.worker.disk)
    requires AllAdmitted(Contents(s.worker.disk), UpToStop(s.queue + Accepted(s, xs)))
    ensures var rs := UpToStop(s.queue + Accepted(s, xs)); k <= |rs| && AllAdmitted(Contents(s.worker.disk), rs[..k])
    ensures var ms, r := s.queue + Accepted(s, xs), Run(s, xs);
            var x := PlainRun(Contents(s.worker.disk), UpToStop(ms)[..k]);
            && DiskOk(r.worker.disk) && Contents(r.worker.disk) == x.0 && r.worker.answers == s.worker.answers + x.1
            && if r.worker.status == Running then r.queue == ms[k..]
               else r.worker.status == Stopped && k == |UpToStop(ms)| < |ms| && r.queue == ms[k + 1..]
  {
    var ms := s.queue + Accepted(s, xs);
    WorkerServes(s, xs);
    k := TakenAre(s, xs);
    var served := UpToStop(ms)[..k];
    AdmittedPrefix(Contents(s.worker.disk), UpToStop(ms), k);
    ServeRefines(s.worker, served);
    ServeSplit(s.worker, Jobs(served), [Stop]);
    assert Serve(s.worker, Jobs(served) + [Stop]) == Handle(Serve(s.worker, Jobs(served)), Stop);
  }
}
