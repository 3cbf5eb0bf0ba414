/** When the install pool moves, when it comes to rest, and what can stop it. */
module PoolProgress {
  import opened Manifest
  import opened InstallStatus
  import opened PoolProtocol
  import opened PoolInvariants

  /** Every step but a new call: what the pool, its submitters and the owners of handles do. */
  predicate Internal(e: Event) {
    !e.Install?
  }

  /** The internal steps that move work along; letting a handle go is not one of them. */
  predicate Driving(e: Event) {
    !e.Install? && !e.Drop?
  }

  // ── A measure that every internal step lowers ──────────────────────────

  /** How many critical sections the worker still has to enter and leave. */
  function Work(wk: Worker): nat {
    match wk
    case Idle => 0
    case Working(_, emits, _) => 2 * |emits| + 2
    case Sending(_, emits, _, _, _, _, last) => if last then 1 else 2 * |emits| + 3
  }

  function Sends(wk: Worker): nat {
    if wk.Sending? then |wk.todo| else 0
  }

  function Unread(channels: seq<Channel>): nat {
    if channels == [] then 0 else |channels[0].queue| + Unread(channels[1..])
  }

  function Live(channels: seq<Channel>): nat {
    if channels == [] then 0 else (if channels[0].alive then 1 else 0) + Live(channels[1..])
  }

  /** Jobs not started, jobs not queued, critical sections left, sends left, statuses unread, handles held. */
  datatype Measure = Measure(unstarted: nat, unqueued: nat, work: nat, sends: nat, unread: nat, live: nat)

  function MeasureOf(s: Pool): Measure {
    Measure(|s.pending| + |s.queue|, |s.pending|,
            Work(s.workers[0]) + Work(s.workers[1]), Sends(s.workers[0]) + Sends(s.workers[1]),
            Unread(s.channels), Live(s.channels))
  }

  predicate Lower(m: Measure, n: Measure) {
    || m.unstarted < n.unstarted
    || (m.unstarted == n.unstarted &&
        (|| m.unqueued < n.unqueued
         || (m.unqueued == n.unqueued &&
             (|| m.work < n.work
              || (m.work == n.work &&
                  (|| m.sends < n.sends
                   || (m.sends == n.sends &&
                       (|| m.unread < n.unread
                        || (m.unread == n.unread && m.live < n.live)))))))))
  }

  lemma {:induction false} CountsAfterDrop(channels: seq<Channel>, c: nat)
    requires c < |channels| && channels[c].alive
    ensures var channels' := channels[c := channels[c].(alive := false)];
      Unread(channels') == Unread(channels) && Live(channels') < Live(channels)
  {
    var ch := channels[c].(alive := false);
    if c > 0 {
      assert channels[c := ch][1..] == channels[1..][c - 1 := ch];
      CountsAfterDrop(channels[1..], c - 1);
    } else {
      assert channels[0 := ch][1..] == channels[1..];
    }
  }

  lemma {:induction false} UnreadAfterReceive(channels: seq<Channel>, c: nat, ch: Channel)
    requires c < |channels| && |ch.queue| < |channels[c].queue|
    ensures Unread(channels[c := ch]) < Unread(channels)
  {
    if c > 0 {
      assert channels[c := ch][1..] == channels[1..][c - 1 := ch];
      UnreadAfterReceive(channels[1..], c - 1, ch);
    } else {
      assert channels[0 := ch][1..] == channels[1..];
    }
  }

  lemma SumOverWorkers(f: Worker -> nat, ws: seq<Worker>, w: nat, wk: Worker)
    requires |ws| == 2 && w < 2
    ensures f(ws[w := wk][0]) + f(ws[w := wk][1]) == f(ws[0]) + f(ws[1]) - f(ws[w]) + f(wk)
  {
  }

  lemma EnqueueLowers(s: Pool, job: Job)
    requires Enabled(s, Enqueue(job))
    ensures Lower(MeasureOf(Apply(s, Enqueue(job))), MeasureOf(s))
  {
    hide Work, Sends, Unread, Live;
    var s' := Apply(s, Enqueue(job));
    assert |s.pending| == |s'.pending| + 1 by { assert s.pending == s'.pending + multiset{job}; }
  }

  lemma DequeueLowers(s: Pool, w: nat, emits: seq<Status>, verdict: Status)
    requires Enabled(s, Dequeue(w, emits, verdict))
    ensures Lower(MeasureOf(Apply(s, Dequeue(w, emits, verdict))), MeasureOf(s))
  {
    hide Work, Sends, Unread, Live;
  }

  lemma BeginLowers(s: Pool, w: nat)
    requires Inv(s) && Enabled(s, Begin(w))
    ensures Lower(MeasureOf(Apply(s, Begin(w))), MeasureOf(s))
  {
    hide Inv, Unread, Live;
    SumOverWorkers(Work, s.workers, w, Apply(s, Begin(w)).workers[w]);
  }

  lemma SendLowers(s: Pool, w: nat)
    requires Enabled(s, Send(w))
    ensures Lower(MeasureOf(Apply(s, Send(w))), MeasureOf(s))
  {
    hide Unread, Live;
    var s' := Apply(s, Send(w));
    SumOverWorkers(Work, s.workers, w, s'.workers[w]);
    SumOverWorkers(Sends, s.workers, w, s'.workers[w]);
  }

  lemma EndLowers(s: Pool, w: nat)
    requires Inv(s) && Enabled(s, End(w))
    ensures Lower(MeasureOf(Apply(s, End(w))), MeasureOf(s))
  {
    hide Inv, Unread, Live;
    SumOverWorkers(Work, s.workers, w, Apply(s, End(w)).workers[w]);
  }

  lemma ReceiveLowers(s: Pool, c: nat)
    requires Enabled(s, Receive(c))
    ensures Lower(MeasureOf(Apply(s, Receive(c))), MeasureOf(s))
  {
    hide Work, Sends, Unread, Live;
    UnreadAfterReceive(s.channels, c, Apply(s, Receive(c)).channels[c]);
  }

  lemma DropLowers(s: Pool, c: nat)
    requires Enabled(s, Drop(c))
    ensures Lower(MeasureOf(Apply(s, Drop(c))), MeasureOf(s))
  {
    hide Work, Sends, Unread, Live;
    CountsAfterDrop(s.channels, c);
  }

  lemma InternalStepLowers(s: Pool, e: Event)
    requires Inv(s) && Enabled(s, e) && Internal(e)
    ensures Lower(MeasureOf(Apply(s, e)), MeasureOf(s))
  {
    hide Inv, MeasureOf, Lower, Apply;
    match e
    case Enqueue(job) => EnqueueLowers(s, job);
    case Dequeue(w, emits, verdict) => DequeueLowers(s, w, emits, verdict);
    case Receive(c) => ReceiveLowers(s, c);
    case Begin(w) => BeginLowers(s, w);
    case Send(w) => SendLowers(s, w);
    case End(w) => EndLowers(s, w);
    case Drop(c) => DropLowers(s, c);
  }

  // ── The pool comes to rest ─────────────────────────────────────────────

  /** Worker `w` holds the lock and waits for room in the full channel of the live handle `c`. */
  predicate Stuck(s: Pool, w: nat, c: nat) {
    && w < 2 && s.workers[w].Sending? && s.workers[w].todo != [] && s.workers[w].todo[0] == c
    && c < |s.channels| && s.channels[c].alive && |s.channels[c].queue| == 128
  }

  /** A worker in a broadcast can end it, can make its next send, or waits for a full live channel. */
  lemma BroadcastMoves(s: Pool, w: nat)
    requires Inv(s) && w < 2 && s.workers[w].Sending?
    ensures Enabled(s, End(w)) || Enabled(s, Send(w)) || Stuck(s, w, s.workers[w].todo[0])
  {
    hide Inv;
    if s.workers[w].todo != [] {
      BroadcastTarget(s, w);
    }
  }

  lemma UnsentJob(s: Pool) returns (j: Job)
    requires Inv(s) && s.inFlight != map[] && s.queue == []
    requires s.workers[0].Idle? && s.workers[1].Idle?
    ensures j in s.pending
  {
    var n :| n in s.inFlight;
    j := s.accepted[s.inFlight[n].job];
    assert Tokens(s)[j] == 1;
  }

  /**
   While any name is registered some driving step can be taken. A reader is asked to read only
   when a broadcast holds the lock and waits for room in that reader's channel; a full job queue
   is never what is waited for.
   */
  lemma BusyPoolMoves(s: Pool) returns (e: Event)
    requires Reachable(s) && s.inFlight != map[]
    ensures Driving(e) && Enabled(s, e)
    ensures e.Receive? ==> Stuck(s, 0, e.c) || Stuck(s, 1, e.c)
    ensures |s.queue| == 64 ==> !e.Enqueue?
  {
    hide Inv, Reachable;
    ReachableInv(s);
    if w :| 0 <= w < 2 && s.workers[w].Sending? {
      BroadcastMoves(s, w);
      e := if Enabled(s, End(w)) then End(w)
           else if Enabled(s, Send(w)) then Send(w)
           else Receive(s.workers[w].todo[0]);
    } else if w :| 0 <= w < 2 && s.workers[w].Working? {
      e := Begin(w);
    } else if s.queue != [] {
      e := Dequeue(0, [], Failed(""));
    } else {
      var j := UnsentJob(s);
      e := Enqueue(j);
    }
  }

  lemma BroadcastTarget(s: Pool, w: nat)
    requires Inv(s) && w < 2 && s.workers[w].Sending? && s.workers[w].todo != []
    ensures s.workers[w].todo[0] < |s.channels|
    ensures |s.channels[s.workers[w].todo[0]].queue| <= STATUS_CAPACITY
  {
    var wk := s.workers[w];
    var c := wk.todo[0];
    WorkerFacts(s, w);
    assert WorkerOk(s.inFlight, s.logs, wk);
    assert c in wk.todo && c in s.inFlight[wk.job.name].senders;
    var ch := s.channels[c];
    assert StreamOk(s.logs[ch.job], Owed(s.workers[0], c) + Owed(s.workers[1], c), ch);
  }

  /** `f` follows `g` by internal steps up to index `i`. */
  ghost predicate StepsAt(f: nat -> Pool, g: nat -> Event, i: nat) {
    Internal(g(i)) && Enabled(f(i), g(i)) && f(i + 1) == Apply(f(i), g(i))
  }

  lemma InternalRunEnds(f: nat -> Pool, g: nat -> Event, i: nat) returns (k: nat)
    requires Inv(f(i))
    ensures i <= k && !StepsAt(f, g, k) && forall j :: i <= j < k ==> StepsAt(f, g, j)
    decreases MeasureOf(f(i)).unstarted, MeasureOf(f(i)).unqueued, MeasureOf(f(i)).work,
              MeasureOf(f(i)).sends, MeasureOf(f(i)).unread, MeasureOf(f(i)).live
  {
    hide Inv, Apply, Enabled, MeasureOf;
    if StepsAt(f, g, i) {
      InternalStepLowers(f(i), g(i));
      StepKeepsInv(f(i), g(i));
      k := InternalRunEnds(f, g, i + 1);
    } else {
      k := i;
    }
  }

  /**
   However its steps are scheduled, and whichever handles are dropped on the way, a pool that
   receives no new calls stops after finitely many steps; where no driving step is left no name
   is in flight and no job is left.
   */
  lemma DrainedPoolComesToRest(f: nat -> Pool, g: nat -> Event) returns (k: nat)
    requires Reachable(f(0))
    ensures !StepsAt(f, g, k) && forall j :: 0 <= j < k ==> StepsAt(f, g, j)
    ensures (forall e :: Driving(e) ==> !Enabled(f(k), e)) ==> f(k).inFlight == map[] && Tokens(f(k)) == multiset{}
  {
    ReachableInv(f(0));
    k := InternalRunEnds(f, g, 0);
    ReachableAlong(f, g, k);
    if f(k).inFlight != map[] {
      var e := BusyPoolMoves(f(k));
    } else {
      EmptyRegistryMeansIdle(f(k));
    }
  }

  lemma EmptyRegistryMeansIdle(s: Pool)
    requires Reachable(s) && s.inFlight == map[]
    ensures Tokens(s) == multiset{}
  {
    ReachableInv(s);
    forall j ensures j !in Tokens(s) {
      assert j in Tokens(s) ==> IsOpen(s.inFlight, j);
    }
  }

  lemma ReachableStep(s: Pool, e: Event)
    requires Reachable(s) && Enabled(s, e)
    ensures Reachable(Apply(s, e))
  {
    hide Apply, Enabled;
    var es :| ValidRun(INITIAL, es) && After(INITIAL, es) == s;
    var fs := [e];
    assert fs[1..] == [];
    assert ValidRun(s, fs) && After(s, fs) == Apply(s, e);
    RunConcat(INITIAL, es, fs);
  }

  lemma {:induction false} ReachableAlong(f: nat -> Pool, g: nat -> Event, k: nat)
    requires Reachable(f(0)) && forall j :: 0 <= j < k ==> StepsAt(f, g, j)
    ensures Reachable(f(k))
  {
    hide Apply, Enabled, Reachable;
    if k > 0 {
      ReachableAlong(f, g, k - 1);
      assert StepsAt(f, g, k - 1);
      ReachableStep(f(k - 1), g(k - 1));
    }
  }

  // ── What an undrained handle does ──────────────────────────────────────

  predicate Drains(e: Event, c: nat) {
    e == Receive(c) || e == Drop(c)
  }

  /**
   As long as the owner of a full channel neither reads nor lets go, the lock stays taken: no
   caller of `install` gets in and no other broadcast starts, whatever else happens.
   */
  lemma {:induction false} FullChannelBlocksTheLock(s: Pool, w: nat, c: nat, es: seq<Event>)
    requires Inv(s) && Stuck(s, w, c) && ValidRun(s, es)
    requires forall i :: 0 <= i < |es| ==> !Drains(es[i], c)
    ensures Stuck(After(s, es), w, c)
    ensures forall i :: 0 <= i < |es| ==> !es[i].Install? && !es[i].Begin? && !es[i].End?
    decreases |es|
  {
    hide Inv, Apply, Enabled, Stuck, Drains;
    if es != [] {
      assert !Drains(es[0], c);
      StuckStep(s, w, c, es[0]);
      StepKeepsInv(s, es[0]);
      FullChannelBlocksTheLock(Apply(s, es[0]), w, c, es[1..]);
    }
  }

  lemma StuckStep(s: Pool, w: nat, c: nat, e: Event)
    requires Inv(s) && Stuck(s, w, c) && Enabled(s, e) && !Drains(e, c)
    ensures !e.Install? && !e.Begin? && !e.End? && Stuck(Apply(s, e), w, c)
  {
    hide Inv;
    OnlyOneBroadcast(s, w);
  }

  lemma OnlyOneBroadcast(s: Pool, w: nat)
    requires Inv(s) && w < 2 && s.workers[w].Sending?
    ensures !s.workers[1 - w].Sending? && !LockFree(s)
  {
  }

  /** Such a state is reachable: a handle nobody reads fills up during a long download. */
  lemma UnreadHandleGetsStuck(name: Name, spec: ToolSpec)
    ensures exists s :: Reachable(s) && Stuck(s, 0, 0)
  {
    assert Reachable(INITIAL) by { assert After(INITIAL, []) == INITIAL; }
    hide Reachable, Apply, Enabled, Filling;
    var job := Job(0, name, spec);
    FirstSteps(job);
    var s1 := Apply(INITIAL, Install(name, spec));
    ReachableStep(INITIAL, Install(name, spec));
    var s2 := Apply(s1, Enqueue(job));
    ReachableStep(s1, Enqueue(job));
    ReachableStep(s2, LongDownload());
    FillUp(Apply(s2, LongDownload()), job, 0);
  }

  /** An install that reports one status more than a channel can hold, and then fails. */
  function LongDownload(): Event {
    Dequeue(0, Progress(STATUS_CAPACITY + 1), Failed(""))
  }

  lemma FirstSteps(job: Job)
    requires job.id == 0
    ensures Enabled(INITIAL, Install(job.name, job.spec))
    ensures var s1 := Apply(INITIAL, Install(job.name, job.spec));
            && Enabled(s1, Enqueue(job))
            && Enabled(Apply(s1, Enqueue(job)), LongDownload())
            && Filling(Apply(Apply(s1, Enqueue(job)), LongDownload()), job, 0)
  {
    var s1 := Apply(INITIAL, Install(job.name, job.spec));
    var s2 := Apply(s1, Enqueue(job));
    assert s2.queue == [job];
    assert Progress(0) == [];
  }

  function Progress(n: nat): seq<Status> {
    seq(n, _ => Extracting)
  }

  /** One job on worker 0, one handle with `k` unread statuses, the rest still to be reported. */
  predicate Filling(s: Pool, job: Job, k: nat) {
    && k <= STATUS_CAPACITY && |s.logs| == 1 && job.id == 0
    && s.inFlight == map[job.name := Entry(0, [0])]
    && s.workers == [Working(job, Progress(STATUS_CAPACITY + 1 - k), Failed("")), Idle]
    && s.channels == [Channel(0, 0, [], Progress(k), true)]
  }

  lemma {:induction false} FillUp(s: Pool, job: Job, k: nat)
    requires Reachable(s) && Filling(s, job, k)
    ensures exists t :: Reachable(t) && Stuck(t, 0, 0)
    decreases STATUS_CAPACITY - k
  {
    hide Reachable;
    ReachableStep(s, Begin(0));
    var a := Apply(s, Begin(0));
    if k == STATUS_CAPACITY {
      assert Stuck(a, 0, 0);
    } else {
      ReachableStep(a, Send(0));
      var b := Apply(a, Send(0));
      ReachableStep(b, End(0));
      OneRoundFills(s, job, k);
      FillUp(Apply(b, End(0)), job, k + 1);
    }
  }

  lemma OneRoundFills(s: Pool, job: Job, k: nat)
    requires Filling(s, job, k) && k < STATUS_CAPACITY
    ensures Enabled(s, Begin(0))
    ensures Enabled(Apply(s, Begin(0)), Send(0))
    ensures Enabled(Apply(Apply(s, Begin(0)), Send(0)), End(0))
    ensures Filling(Apply(Apply(Apply(s, Begin(0)), Send(0)), End(0)), job, k + 1)
  {
    assert Progress(STATUS_CAPACITY + 1 - k)[1..] == Progress(STATUS_CAPACITY + 1 - (k + 1));
    assert Progress(k) + [Extracting] == Progress(k + 1);
    var a := Apply(s, Begin(0));
    assert a.workers[0].todo == [0] && !a.workers[0].last;
    var b := Apply(a, Send(0));
    assert b.workers[0].todo == [] && b.workers[0].kept == [0];
    assert Apply(b, End(0)).inFlight == s.inFlight;
  }
}
