/**
 That the pool passes on what it is given: the statuses an install reports reach the handles as
 they were reported, and jobs are taken up in the order in which they were handed over.
 */
module PoolReports {
  import opened Slices
  import opened Wrappers
  import opened Manifest
  import opened InstallStatus
  import opened PoolProtocol
  import opened PoolInvariants
  import opened PoolSafety
  import opened PoolProgress

  // ── Statuses ───────────────────────────────────────────────────────────

  /**
   Worker `wk` is telling the report of `job`: what is announced and what it has still to say are
   the report together; or the job is over, and what was announced is the report and its verdict.
   */
  predicate Telling(logs: seq<Log>, wk: Worker, job: Job, emits: seq<Status>, verdict: Status) {
    && job.id < |logs|
    && var log := logs[job.id];
       if log.verdict.Some? then log == Log(emits + [verdict], Some(verdict))
       else
         && !wk.Idle? && wk.job == job && wk.verdict == verdict && !(wk.Sending? && wk.last)
         && log.history + wk.emits == emits
  }

  lemma TellingBegins(s: Pool, w: nat, emits: seq<Status>, verdict: Status)
    requires Inv(s) && Enabled(s, Dequeue(w, emits, verdict))
    ensures var s' := Apply(s, Dequeue(w, emits, verdict)); Telling(s'.logs, s'.workers[w], s.queue[0], emits, verdict)
  {
    hide SingleFlight, LogsOk, SendersOk, StreamsOk, SubscribedOk, WorkerOk, WellFormedReport;
    assert s.queue[0] in s.pending + multiset(s.queue);
    assert NotStarted(s.logs, s.queue[0]);
    assert [] + emits == emits;
  }

  /** Announcing the next status, or the verdict after the last one, is telling the report. */
  lemma AnnouncedTelling(s: Pool, v: nat, w: nat, job: Job, emits: seq<Status>, verdict: Status)
    requires Inv(s) && w < 2 && Enabled(s, Begin(v)) && Telling(s.logs, s.workers[w], job, emits, verdict)
    ensures Telling(Announce(s, v).logs, Announce(s, v).workers[w], job, emits, verdict)
  {
    hide Inv;
    BusyFacts(s, v);
    if s.workers[v].job.id == job.id {
      TellsNext(s, v, job, emits, verdict);
    }
  }

  lemma TellsNext(s: Pool, w: nat, job: Job, emits: seq<Status>, verdict: Status)
    requires Enabled(s, Begin(w)) && s.workers[w].job.id == job.id && Telling(s.logs, s.workers[w], job, emits, verdict)
    requires s.logs[job.id].verdict == None
    ensures Telling(Announce(s, w).logs, Announce(s, w).workers[w], job, emits, verdict)
  {
    var log, wk := s.logs[job.id], s.workers[w];
    if wk.emits == [] {
      assert log.history + [] == log.history;
    } else {
      Cons(wk.emits);
      assert log.history + [wk.emits[0]] + wk.emits[1..] == log.history + wk.emits;
    }
  }

  /** A worker about to announce something is on a job of its own that is not over. */
  lemma BusyFacts(s: Pool, v: nat)
    requires Inv(s) && v < 2 && s.workers[v].Working?
    ensures var id := s.workers[v].job.id;
      && id < |s.logs| && s.logs[id].verdict == None
      && (!s.workers[1 - v].Idle? ==> s.workers[1 - v].job.id != id)
  {
    hide SingleFlight, LogsOk, WaitingOk, SendersOk, StreamsOk, SubscribedOk;
    NoVerdictYet(s, v);
    WorkerFacts(s, v);
  }

  lemma StepKeepsTelling(s: Pool, e: Event, w: nat, job: Job, emits: seq<Status>, verdict: Status)
    requires Inv(s) && w < 2 && Enabled(s, e) && Telling(s.logs, s.workers[w], job, emits, verdict)
    ensures Telling(Apply(s, e).logs, Apply(s, e).workers[w], job, emits, verdict)
  {
    hide Inv, WellFormedReport;
    match e
    case Begin(v) => AnnouncedTelling(s, v, w, job, emits, verdict);
    case _ =>
  }

  lemma {:induction false} RunKeepsTelling(s: Pool, es: seq<Event>, w: nat, job: Job, emits: seq<Status>, verdict: Status)
    requires Inv(s) && w < 2 && ValidRun(s, es) && Telling(s.logs, s.workers[w], job, emits, verdict)
    ensures Telling(After(s, es).logs, After(s, es).workers[w], job, emits, verdict)
    decreases |es|
  {
    hide Inv, Apply, Enabled, Telling;
    if es != [] {
      StepKeepsTelling(s, es[0], w, job, emits, verdict);
      StepKeepsInv(s, es[0]);
      RunKeepsTelling(Apply(s, es[0]), es[1..], w, job, emits, verdict);
    }
  }

  /**
   From the moment a worker takes up a job, along every run: what has been announced of the job
   and what the worker has still to say are together exactly what its install reports; and once
   there is a verdict, exactly the report and then that verdict were announced.
   */
  lemma AnnouncedIsTheReport(s: Pool, w: nat, emits: seq<Status>, verdict: Status, es: seq<Event>)
    requires Reachable(s) && Enabled(s, Dequeue(w, emits, verdict))
    requires ValidRun(Apply(s, Dequeue(w, emits, verdict)), es)
    ensures var t, job := After(Apply(s, Dequeue(w, emits, verdict)), es), s.queue[0];
      && job.id < |t.logs|
      && (t.logs[job.id].verdict == None ==>
            !t.workers[w].Idle? && t.workers[w].job == job && History(t, job.id) + t.workers[w].emits == emits)
      && (t.logs[job.id].verdict.Some? ==> t.logs[job.id] == Log(emits + [verdict], Some(verdict)))
  {
    hide Reachable, Inv, Apply;
    ReachableInv(s);
    TellingBegins(s, w, emits, verdict);
    StepKeepsInv(s, Dequeue(w, emits, verdict));
    RunKeepsTelling(Apply(s, Dequeue(w, emits, verdict)), es, w, s.queue[0], emits, verdict);
  }

  lemma {:induction false} ReachableAfter(s: Pool, es: seq<Event>)
    requires Reachable(s) && ValidRun(s, es)
    ensures Reachable(After(s, es))
    decreases |es|
  {
    hide Apply, Enabled, Reachable;
    if es != [] {
      ReachableStep(s, es[0]);
      ReachableAfter(Apply(s, es[0]), es[1..]);
    }
  }

  /**
   Reported to received: when the job is over, the stream of every live handle of it is, status
   by status, the report its install made and the verdict, from where the handle joined.
   */
  lemma HandleGetsTheReport(s: Pool, w: nat, emits: seq<Status>, verdict: Status, es: seq<Event>, c: nat)
    requires Reachable(s) && Enabled(s, Dequeue(w, emits, verdict))
    requires ValidRun(Apply(s, Dequeue(w, emits, verdict)), es)
    requires var t := After(Apply(s, Dequeue(w, emits, verdict)), es);
      c < |t.channels| && t.channels[c].alive && t.channels[c].job == s.queue[0].id && SenderGone(t, c)
    ensures var ch := After(Apply(s, Dequeue(w, emits, verdict)), es).channels[c];
      ch.attach <= |emits| && ch.received + ch.queue == (emits + [verdict])[ch.attach..]
  {
    hide Reachable, Inv, Apply, SenderGone, Concluded;
    var s1 := Apply(s, Dequeue(w, emits, verdict));
    var t := After(s1, es);
    ReachableStep(s, Dequeue(w, emits, verdict));
    ReachableAfter(s1, es);
    ReachableInv(t);
    ClosedParts(t, c);
    AnnouncedIsTheReport(s, w, emits, verdict, es);
    var ch := t.channels[c];
    assert ch.received + ch.queue + [] == ch.received + ch.queue;
  }

  // ── Jobs ───────────────────────────────────────────────────────────────

  /** The jobs handed over during a run. */
  function HandedOver(es: seq<Event>): seq<Job> {
    if es == [] then [] else (if es[0].Enqueue? then [es[0].job] else []) + HandedOver(es[1..])
  }

  /** The jobs workers hold right after taking one, during a run. */
  function TakenUp(s: Pool, es: seq<Event>): seq<Job>
    requires ValidRun(s, es)
    decreases |es|
  {
    if es == [] then [] else
      var s' := Apply(s, es[0]);
      (if es[0].Dequeue? && !s'.workers[es[0].w].Idle? then [s'.workers[es[0].w].job] else []) + TakenUp(s', es[1..])
  }

  lemma StepMovesQueue(s: Pool, e: Event)
    requires Enabled(s, e)
    ensures e.Enqueue? ==> Apply(s, e).queue == s.queue + [e.job]
    ensures e.Dequeue? ==> e.w < 2
    ensures e.Dequeue? ==>
      var wk := Apply(s, e).workers[e.w]; !wk.Idle? && s.queue == [wk.job] + Apply(s, e).queue
    ensures !e.Enqueue? && !e.Dequeue? ==> Apply(s, e).queue == s.queue
  {
    hide WellFormedReport;
  }

  /** Over every run the jobs taken up, and then those still queued, are those queued and handed over, in that order. */
  lemma {:induction false} FirstInFirstOut(s: Pool, es: seq<Event>)
    requires ValidRun(s, es)
    ensures s.queue + HandedOver(es) == TakenUp(s, es) + After(s, es).queue
    decreases |es|
  {
    hide Apply, Enabled;
    if es != [] {
      StepMovesQueue(s, es[0]);
      FirstInFirstOut(Apply(s, es[0]), es[1..]);
      var t, rest := Apply(s, es[0]), HandedOver(es[1..]);
      assert HandedOver(es) == (if es[0].Enqueue? then [es[0].job] else []) + rest;
      assert s.queue + HandedOver(es) ==
        (if es[0].Dequeue? then [t.workers[es[0].w].job] else []) + (t.queue + rest);
    }
  }

  lemma {:induction false} QueueStaysBounded(s: Pool, es: seq<Event>)
    requires ValidRun(s, es) && |s.queue| <= 64
    ensures |After(s, es).queue| <= 64
    decreases |es|
  {
    hide Apply, Enabled;
    if es != [] {
      StepMovesQueue(s, es[0]);
      RoomToEnqueue(s, es[0]);
      QueueStaysBounded(Apply(s, es[0]), es[1..]);
    }
  }

  lemma RoomToEnqueue(s: Pool, e: Event)
    requires Enabled(s, e)
    ensures e.Enqueue? ==> |s.queue| < 64
  {
  }

  /** A submitter waits exactly while 64 jobs are queued, and never are there more. */
  lemma SubmitterWaitsExactlyWhenFull(s: Pool, job: Job)
    requires Reachable(s) && job in s.pending
    ensures |s.queue| <= 64
    ensures Enabled(s, Enqueue(job)) <==> |s.queue| < 64
  {
    var es :| ValidRun(INITIAL, es) && After(INITIAL, es) == s;
    QueueStaysBounded(INITIAL, es);
  }
}
