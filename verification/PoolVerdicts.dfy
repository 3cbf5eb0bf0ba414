/**
 How often the verdict of a job is announced, and what a handle is told that has read some of it:
 a success is said twice, by the installer and by the worker, a failure once.
 */
module PoolVerdicts {
  import opened Slices
  import opened Wrappers
  import opened Manifest
  import opened InstallStatus
  import opened PoolProtocol
  import opened PoolInvariants
  import opened PoolSafety
  import opened PoolProgress

  // ── What the logs hold ─────────────────────────────────────────────────

  /** A finished log is one install's report and the verdict after it. */
  predicate LogShape(log: Log) {
    log.verdict.Some? ==>
      var n := |log.history|;
      && n > 0 && log.history[n - 1] == log.verdict.value
      && WellFormedReport(log.history[..n - 1], log.verdict.value)
  }

  /** What a busy worker has announced and has still to announce is one install's report. */
  predicate Reporting(logs: seq<Log>, wk: Worker) {
    !wk.Idle? && wk.job.id < |logs| && !(wk.Sending? && wk.last) ==>
      WellFormedReport(logs[wk.job.id].history + wk.emits, wk.verdict)
  }

  ghost predicate ReportsOk(logs: seq<Log>, workers: seq<Worker>)
    requires |workers| == 2
  {
    && (forall id :: 0 <= id < |logs| ==> LogShape(logs[id]))
    && Reporting(logs, workers[0]) && Reporting(logs, workers[1])
  }

  lemma ReportsAfterInstall(s: Pool, name: Name, spec: ToolSpec)
    requires Inv(s) && ReportsOk(s.logs, s.workers)
    ensures ReportsOk(Register(s, name, spec).logs, s.workers)
  {
    hide LogShape, Reporting, SingleFlight, LogsOk, WaitingOk, SendersOk, StreamsOk, SubscribedOk;
    var logs := s.logs + [Log([], None)];
    assert LogShape(Log([], None)) by { EmptyLog(); }
    MoreLogs(s.logs, Log([], None), s.workers[0]);
    MoreLogs(s.logs, Log([], None), s.workers[1]);
    BusyInRange(s, 0);
    BusyInRange(s, 1);
  }

  lemma EmptyLog()
    ensures LogShape(Log([], None))
  {
  }

  lemma MoreLogs(logs: seq<Log>, log: Log, wk: Worker)
    requires Reporting(logs, wk) && (!wk.Idle? ==> wk.job.id < |logs|)
    ensures Reporting(logs + [log], wk)
  {
  }

  lemma BusyInRange(s: Pool, w: nat)
    requires Inv(s) && w < 2
    ensures !s.workers[w].Idle? ==> s.workers[w].job.id < |s.logs|
  {
    hide SingleFlight, LogsOk, WaitingOk, SendersOk, StreamsOk, SubscribedOk, BusyOk;
  }

  lemma ReportsAfterDequeue(s: Pool, w: nat, emits: seq<Status>, verdict: Status)
    requires Inv(s) && ReportsOk(s.logs, s.workers) && Enabled(s, Dequeue(w, emits, verdict))
    ensures ReportsOk(s.logs, s.workers[w := Working(s.queue[0], emits, verdict)])
  {
    hide SingleFlight, LogsOk, SendersOk, StreamsOk, SubscribedOk, WorkerOk, LogShape, WellFormedReport;
    assert s.queue[0] in s.pending + multiset(s.queue);
    assert NotStarted(s.logs, s.queue[0]);
    assert [] + emits == emits;
  }

  lemma ReportsAfterBegin(s: Pool, w: nat)
    requires Inv(s) && ReportsOk(s.logs, s.workers) && Enabled(s, Begin(w))
    ensures ReportsOk(Announce(s, w).logs, Announce(s, w).workers)
  {
    hide LogsOk, WaitingOk, StreamsOk, SubscribedOk, WorkerOk, LogShape, Reporting;
    BusyInRange(s, w);
    WorkerFacts(s, w);
    NoVerdictYet(s, w);
    var wk := s.workers[w];
    AnnouncedReport(s.logs, wk);
    OtherReport(s.logs, wk.job.id, Announce(s, w).logs[wk.job.id], s.workers[1 - w]);
    AnnouncedWorker(s, w);
  }

  lemma AnnouncedWorker(s: Pool, w: nat)
    requires Enabled(s, Begin(w)) && s.workers[w].job.id < |s.logs|
    requires var wk := s.workers[w];
      Reporting(s.logs[wk.job.id := Logged(s.logs[wk.job.id], NextStatus(wk), wk.emits == [])], AfterAnnounce(wk))
    ensures Reporting(Announce(s, w).logs, Announce(s, w).workers[w])
  {
  }

  /** The announcing worker, as far as its report goes. */
  function AfterAnnounce(wk: Worker): Worker
    requires wk.Working?
  {
    var last := wk.emits == [];
    Sending(wk.job, if last then [] else wk.emits[1..], wk.verdict, NextStatus(wk), [], [], last)
  }

  lemma AnnouncedReport(logs: seq<Log>, wk: Worker)
    requires wk.Working? && wk.job.id < |logs| && Reporting(logs, wk) && LogShape(logs[wk.job.id])
    requires logs[wk.job.id].verdict == None || wk.emits == []
    ensures var log := Logged(logs[wk.job.id], NextStatus(wk), wk.emits == []);
      LogShape(log) && Reporting(logs[wk.job.id := log], AfterAnnounce(wk))
  {
    hide WellFormedReport;
    var log := logs[wk.job.id];
    if wk.emits == [] {
      assert log.history + [] == log.history;
      assert (log.history + [wk.verdict])[..|log.history|] == log.history;
    } else {
      Cons(wk.emits);
      Assoc(log.history, [wk.emits[0]], wk.emits[1..], []);
    }
  }

  lemma OtherReport(logs: seq<Log>, id: nat, log: Log, wk: Worker)
    requires id < |logs| && Reporting(logs, wk) && (!wk.Idle? ==> wk.job.id != id)
    ensures Reporting(logs[id := log], wk)
  {
  }

  lemma ReportsAfterEnd(s: Pool, w: nat)
    requires ReportsOk(s.logs, s.workers) && Enabled(s, End(w))
    ensures ReportsOk(s.logs, Leave(s, w).workers)
  {
    hide WellFormedReport, LogShape;
  }

  lemma StepKeepsReports(s: Pool, e: Event)
    requires Inv(s) && ReportsOk(s.logs, s.workers) && Enabled(s, e)
    ensures ReportsOk(Apply(s, e).logs, Apply(s, e).workers)
  {
    hide Inv, WellFormedReport, LogShape;
    match e
    case Install(name, spec) => ReportsAfterInstall(s, name, spec);
    case Dequeue(w, emits, verdict) => ReportsAfterDequeue(s, w, emits, verdict);
    case Begin(w) => ReportsAfterBegin(s, w);
    case End(w) => ReportsAfterEnd(s, w);
    case _ =>
  }

  lemma {:induction false} RunKeepsReports(s: Pool, es: seq<Event>)
    requires Inv(s) && ReportsOk(s.logs, s.workers) && ValidRun(s, es)
    ensures ReportsOk(After(s, es).logs, After(s, es).workers)
    decreases |es|
  {
    hide Inv, ReportsOk, Apply, Enabled;
    if es != [] {
      StepKeepsReports(s, es[0]);
      StepKeepsInv(s, es[0]);
      RunKeepsReports(Apply(s, es[0]), es[1..]);
    }
  }

  /** Every finished log of a reachable pool is one report and its verdict. */
  lemma ReachableReports(s: Pool)
    requires Reachable(s)
    ensures ReportsOk(s.logs, s.workers)
  {
    hide Inv, Apply, Enabled;
    var es :| ValidRun(INITIAL, es) && After(INITIAL, es) == s;
    assert Reachable(INITIAL) by { assert After(INITIAL, []) == INITIAL; }
    ReachableInv(INITIAL);
    RunKeepsReports(INITIAL, es);
  }

  // ── How many terminals there are ───────────────────────────────────────

  function Terminals(sts: seq<Status>): nat {
    if sts == [] then 0 else (if Terminal(sts[0]) then 1 else 0) + Terminals(sts[1..])
  }

  lemma {:induction false} TerminalsConcat(a: seq<Status>, b: seq<Status>)
    ensures Terminals(a + b) == Terminals(a) + Terminals(b)
  {
    if a == [] {
      assert a + b == b;
    } else {
      assert (a + b)[0] == a[0] && (a + b)[1..] == a[1..] + b;
      TerminalsConcat(a[1..], b);
    }
  }

  lemma {:induction false} NoTerminalCounts(sts: seq<Status>)
    ensures NoTerminal(sts) <==> Terminals(sts) == 0
  {
    if sts != [] {
      NoTerminalCounts(sts[1..]);
      assert forall i | 1 <= i < |sts| :: sts[i] == sts[1..][i - 1];
      assert forall i | 0 <= i < |sts| - 1 :: sts[1..][i] == sts[i + 1];
    }
  }

  /** What a finished log says to a handle that attached at `from`: the number of terminals. */
  function Announced(log: Log, from: nat): nat
    requires from <= |log.history|
  {
    if log.verdict.Some? && log.verdict.value.Done? && NoTerminal(log.history[..from]) then 2 else 1
  }

  lemma ReportTerminalCount(emits: seq<Status>, verdict: Status)
    requires WellFormedReport(emits, verdict)
    ensures Terminals(emits) == if verdict.Done? then 1 else 0
  {
    if verdict.Done? {
      var n := |emits| - 1;
      Snoc(emits, n);
      assert emits[..n + 1] == emits;
      TerminalsConcat(emits[..n], [verdict]);
      NoTerminalCounts(emits[..n]);
      assert [verdict][1..] == [];
    } else {
      NoTerminalCounts(emits);
    }
  }

  /** A success is announced twice and a failure once; the last announcement comes last. */
  lemma FinishedLogCount(log: Log)
    requires log.verdict.Some? && LogShape(log)
    ensures Terminals(log.history) == if log.verdict.value.Done? then 2 else 1
  {
    var n, v := |log.history| - 1, log.verdict.value;
    Snoc(log.history, n);
    assert log.history[..n + 1] == log.history;
    TerminalsConcat(log.history[..n], [v]);
    ReportTerminalCount(log.history[..n], v);
    assert [v][1..] == [];
  }

  /** The part of a finished log from `from` on holds the announced number of terminals. */
  lemma SuffixCount(log: Log, from: nat)
    requires log.verdict.Some? && LogShape(log) && from < |log.history|
    ensures Terminals(log.history[from..]) == Announced(log, from)
  {
    hide LogShape;
    FinishedLogCount(log);
    TakeDrop(log.history, from);
    TerminalsConcat(log.history[..from], log.history[from..]);
    NoTerminalCounts(log.history[..from]);
    LastOfLog(log, from);
  }

  lemma LastOfLog(log: Log, from: nat)
    requires log.verdict.Some? && LogShape(log) && from < |log.history|
    ensures Terminals(log.history[from..]) >= 1
  {
    var rest := log.history[from..];
    NoTerminalCounts(rest);
    assert rest[|rest| - 1] == log.verdict.value;
  }

  // ── What wait says to a reader ─────────────────────────────────────────

  /**
   `wait` on a closed stream reports a closed channel exactly when the reader has taken every
   terminal its stream holds: two of them for a success it followed from before the first, one
   otherwise. To anyone who took fewer it returns the verdict.
   */
  lemma ClosedExactlyWhenAllTaken(s: Pool, c: nat) returns (verdict: Status)
    requires Reachable(s) && c < |s.channels| && s.channels[c].alive && SenderGone(s, c)
    ensures var ch := s.channels[c];
      && ch.job < |s.logs| && ch.attach <= |s.logs[ch.job].history|
      && s.logs[ch.job].verdict == Some(verdict)
      && var announced := Announced(s.logs[ch.job], ch.attach);
         && Terminals(ch.received) <= announced
         && (ch.queue == [] <==> Terminals(ch.received) == announced)
         && WaitOn(ch.queue) == if Terminals(ch.received) == announced then CHANNEL_CLOSED else verdict
  {
    hide Reachable, Inv, SenderGone, StreamOk, Concluded, LogShape, Terminals;
    ReachableInv(s);
    ReachableReports(s);
    ClosedParts(s, c);
    verdict := WaitReturnsTheVerdict(s, c);
    var ch := s.channels[c];
    StreamTaken(s.logs[ch.job], ch, verdict);
  }

  lemma StreamTaken(log: Log, ch: Channel, verdict: Status)
    requires ch.alive && StreamOk(log, [], ch) && log.verdict == Some(verdict) && LogShape(log)
    requires Concluded(log.history, verdict)
    ensures ch.attach <= |log.history|
    ensures Terminals(ch.received) <= Announced(log, ch.attach)
    ensures ch.queue == [] <==> Terminals(ch.received) == Announced(log, ch.attach)
  {
    hide LogShape, Terminals, Announced;
    SuffixCount(log, ch.attach);
    assert ch.received + ch.queue + [] == ch.received + ch.queue;
    TerminalsConcat(ch.received, ch.queue);
    NoTerminalCounts(ch.queue);
    NothingCounts();
    if ch.queue != [] {
      assert (ch.received + ch.queue)[|ch.received + ch.queue| - 1] == ch.queue[|ch.queue| - 1];
      assert log.history[ch.attach..][|log.history| - ch.attach - 1] == verdict;
      assert Terminal(ch.queue[|ch.queue| - 1]);
    }
  }

  lemma NothingCounts()
    ensures Terminals([]) == 0
  {
  }

  /**
   Both answers occur: a reader that took one `Done` of a success is still told of the success,
   and a closed channel once it has taken the second.
   */
  lemma TakingBothTerminals(name: Name, spec: ToolSpec, path: string) returns (s: Pool, t: Pool)
    ensures Reachable(s) && SenderGone(s, 0) && |s.channels| == 1 && s.channels[0].alive
    ensures s.channels[0].received == [Done(path)] && WaitOn(s.channels[0].queue) == Done(path)
    ensures Enabled(s, Receive(0)) && t == Apply(s, Receive(0)) && Reachable(t) && SenderGone(t, 0)
    ensures t.channels[0].received == [Done(path), Done(path)] && WaitOn(t.channels[0].queue) == CHANNEL_CLOSED
  {
    hide Reachable;
    var job, said := Job(0, name, spec), Done(path);
    assert Reachable(INITIAL) by { StartIsReachable(); }
    var s1 := Step(INITIAL, Install(name, spec));
    var s2 := Step(s1, Enqueue(job));
    assert s2.queue == [job];
    var s3 := Step(s2, Dequeue(0, [said], said));
    assert s3.logs == [Log([], None)] && s3.inFlight == map[name := Entry(0, [0])];
    var s4 := Round(s3, name, job, [said], said, []);
    assert [] + [said] == [said];
    var s5 := Round(s4, name, job, [], said, [said]);
    s := Step(s5, Receive(0));
    t := Step(s, Receive(0));
  }

  lemma StartIsReachable()
    ensures Reachable(INITIAL)
  {
    assert ValidRun(INITIAL, []) && After(INITIAL, []) == INITIAL;
  }

  lemma Step(s: Pool, e: Event) returns (t: Pool)
    requires Reachable(s) && Enabled(s, e)
    ensures Reachable(t) && t == Apply(s, e)
  {
    hide Apply, Enabled, Reachable;
    t := Apply(s, e);
    ReachableStep(s, e);
  }

  /** One broadcast to the one handle of the one job, from taking the lock to leaving it. */
  lemma Round(s: Pool, name: Name, job: Job, emits: seq<Status>, verdict: Status, queue: seq<Status>) returns (t: Pool)
    requires Reachable(s) && job.id == 0 && job.name == name && |s.logs| == 1 && |queue| < STATUS_CAPACITY && |emits| <= 1
    requires s.inFlight == map[name := Entry(0, [0])] && s.workers == [Working(job, emits, verdict), Idle]
    requires s.channels == [Channel(0, 0, [], queue, true)]
    ensures Reachable(t) && |t.logs| == 1
    ensures t.channels == [Channel(0, 0, [], queue + [if emits == [] then verdict else emits[0]], true)]
    ensures emits != [] ==> t.inFlight == s.inFlight && t.workers == [Working(job, [], verdict), Idle]
    ensures emits == [] ==> t.inFlight == map[]
  {
    hide Reachable;
    var a := Step(s, Begin(0));
    assert a.workers[0].todo == [0];
    var b := Step(a, Send(0));
    assert b.workers[0].todo == [] && b.workers[0].kept == [0];
    t := Step(b, End(0));
    assert emits != [] ==> emits[1..] == [];
  }

  // ── Everyone is answered ───────────────────────────────────────────────

  /**
   Where a pool without new calls comes to rest, every handle still held has had its job's
   verdict announced on its stream, and `wait` tells it to every holder who has read no terminal.
   */
  lemma EveryHandleIsAnswered(f: nat -> Pool, g: nat -> Event) returns (k: nat)
    requires Reachable(f(0))
    ensures !StepsAt(f, g, k) && forall j :: 0 <= j < k ==> StepsAt(f, g, j)
    ensures (forall e :: Driving(e) ==> !Enabled(f(k), e)) ==>
      forall c :: 0 <= c < |f(k).channels| && f(k).channels[c].alive ==> Answered(f(k), c)
  {
    hide Apply, Enabled, Reachable, Inv;
    k := DrainedPoolComesToRest(f, g);
    if forall e :: Driving(e) ==> !Enabled(f(k), e) {
      ReachableAlong(f, g, k);
      forall c | 0 <= c < |f(k).channels| && f(k).channels[c].alive ensures Answered(f(k), c) {
        IdlePoolAnswers(f(k), c);
      }
    }
  }

  predicate Answered(s: Pool, c: nat)
    requires c < |s.channels|
  {
    var ch := s.channels[c];
    && ch.job < |s.logs| && s.logs[ch.job].verdict.Some?
    && Concluded(ch.received + ch.queue, s.logs[ch.job].verdict.value)
    && (NoTerminal(ch.received) ==> WaitOn(ch.queue) == s.logs[ch.job].verdict.value)
  }

  lemma IdlePoolAnswers(s: Pool, c: nat)
    requires Reachable(s) && s.inFlight == map[] && c < |s.channels| && s.channels[c].alive
    ensures Answered(s, c)
  {
    hide Reachable, Concluded;
    assert SenderGone(s, c);
    var v := NoCloseWithoutVerdict(s, c);
    var w := WaitReturnsTheVerdict(s, c);
  }
}
