/**
 What every reachable state of the install pool satisfies: single flight, the fan-out of
 statuses to handles, and the agreement of every verdict of one job.

 Each part of the invariant reads only the fields it speaks about.
 */
module PoolInvariants {
  import opened Slices
  import opened Wrappers
  import opened Manifest
  import opened InstallStatus
  import opened PoolProtocol

  // ── The invariant ──────────────────────────────────────────────────────

  /** The job token a worker holds. */
  function TokensOf(wk: Worker): multiset<Job> {
    if wk.Idle? then multiset{} else multiset{wk.job}
  }

  /** Every job token: with its submitter, in the queue, or on a worker. */
  function Tokens(s: Pool): multiset<Job> {
    s.pending + multiset(s.queue) + TokensOf(s.workers[0]) + TokensOf(s.workers[1])
  }

  /** The registry stands for job `j` under its name. */
  predicate IsOpen(inFlight: map<Name, Entry>, j: Job) {
    j.name in inFlight && inFlight[j.name].job == j.id
  }

  /** Registered names and job tokens correspond one to one. */
  ghost predicate SingleFlight(inFlight: map<Name, Entry>, accepted: seq<Job>, tokens: multiset<Job>) {
    && (forall n :: n in inFlight ==>
          && inFlight[n].job < |accepted|
          && accepted[inFlight[n].job].name == n
          && tokens[accepted[inFlight[n].job]] == 1)
    && (forall j :: j in tokens ==> IsOpen(inFlight, j) && j.id < |accepted| && accepted[j.id] == j)
  }

  /** The history ends in the verdict and holds no other terminal status. */
  predicate Concluded(history: seq<Status>, verdict: Status) {
    && Terminal(verdict)
    && history != [] && history[|history| - 1] == verdict
    && TerminalsAre(history, verdict)
  }

  ghost predicate LogsOk(inFlight: map<Name, Entry>, accepted: seq<Job>, logs: seq<Log>) {
    && |accepted| == |logs|
    && (forall id :: 0 <= id < |accepted| ==>
          && accepted[id].id == id
          && (!IsOpen(inFlight, accepted[id]) ==> logs[id].verdict.Some?))
    && (forall id :: 0 <= id < |logs| && logs[id].verdict.Some? ==>
          Concluded(logs[id].history, logs[id].verdict.value))
  }

  /** A job no worker has taken yet has reported nothing. */
  predicate NotStarted(logs: seq<Log>, j: Job) {
    j.id < |logs| && logs[j.id] == Log([], None)
  }

  ghost predicate WaitingOk(logs: seq<Log>, waiting: multiset<Job>) {
    forall j :: j in waiting ==> NotStarted(logs, j)
  }

  ghost predicate Distinct(cs: seq<nat>) {
    forall i, j :: 0 <= i < j < |cs| ==> cs[i] != cs[j]
  }

  ghost predicate SendingOk(senders: seq<nat>, log: Log, wk: Worker)
    requires wk.Sending?
  {
    && log.history != [] && log.history[|log.history| - 1] == wk.status
    && (wk.last ==> wk.emits == [] && wk.status == wk.verdict && log.verdict == Some(wk.verdict))
    && (!wk.last ==> log.verdict == None)
    && Distinct(wk.todo) && Distinct(wk.kept)
    && (forall c :: c in wk.todo ==> c !in wk.kept && c in senders)
    && (forall c :: c in wk.kept ==> c in senders)
  }

  ghost predicate BusyOk(senders: seq<nat>, log: Log, wk: Worker)
    requires !wk.Idle?
  {
    && Terminal(wk.verdict)
    && TerminalsAre(log.history, wk.verdict)
    && TerminalsAre(wk.emits, wk.verdict)
    && (wk.Working? ==> log.verdict == None)
    && (wk.Sending? ==> SendingOk(senders, log, wk))
  }

  ghost predicate WorkerOk(inFlight: map<Name, Entry>, logs: seq<Log>, wk: Worker) {
    !wk.Idle? ==> wk.job.id < |logs| && BusyOk(SendersOf(inFlight, wk.job.name), logs[wk.job.id], wk)
  }

  ghost predicate EntryOk(e: Entry, channels: seq<Channel>) {
    && Distinct(e.senders)
    && forall c :: c in e.senders ==> c < |channels| && channels[c].job == e.job
  }

  ghost predicate SendersOk(inFlight: map<Name, Entry>, channels: seq<Channel>) {
    forall n :: n in inFlight ==> EntryOk(inFlight[n], channels)
  }

  /** What a broadcast in progress still owes channel `c`. */
  function Owed(wk: Worker, c: nat): seq<Status> {
    if wk.Sending? && c in wk.todo then [wk.status] else []
  }

  /**
   A live handle has seen, or will see from what is queued or being sent, exactly the job's
   history from the point where it attached.
   */
  predicate StreamOk(log: Log, owed: seq<Status>, ch: Channel) {
    && ch.attach <= |log.history|
    && |ch.queue| <= STATUS_CAPACITY
    && (log.verdict.Some? ==> ch.attach < |log.history|)
    && (ch.alive ==> ch.received + ch.queue + owed == log.history[ch.attach..])
  }

  ghost predicate StreamsOk(logs: seq<Log>, workers: seq<Worker>, channels: seq<Channel>)
    requires |workers| == 2
  {
    forall c :: 0 <= c < |channels| ==>
      channels[c].job < |logs| && StreamOk(logs[channels[c].job], Owed(workers[0], c) + Owed(workers[1], c), channels[c])
  }

  /** The broadcast in progress for this job, if any, has `c` behind it or ahead of it. */
  predicate Covers(wk: Worker, job: nat, c: nat) {
    wk.Sending? && wk.job.id == job ==> c in wk.todo || c in wk.kept
  }

  /** A live handle of a job still in flight is among the senders of its name. */
  predicate Subscribed(inFlight: map<Name, Entry>, accepted: seq<Job>, workers: seq<Worker>, ch: Channel, c: nat)
    requires |workers| == 2
  {
    (ch.alive && ch.job < |accepted| && IsOpen(inFlight, accepted[ch.job])) ==>
      && c in SendersOf(inFlight, accepted[ch.job].name)
      && Covers(workers[0], ch.job, c)
      && Covers(workers[1], ch.job, c)
  }

  ghost predicate SubscribedOk(inFlight: map<Name, Entry>, accepted: seq<Job>, workers: seq<Worker>,
                               channels: seq<Channel>)
    requires |workers| == 2
  {
    forall c :: 0 <= c < |channels| ==> Subscribed(inFlight, accepted, workers, channels[c], c)
  }

  ghost predicate LockExclusive(workers: seq<Worker>)
    requires |workers| == 2
  {
    !(workers[0].Sending? && workers[1].Sending?)
  }

  ghost predicate Inv(s: Pool) {
    && SingleFlight(s.inFlight, s.accepted, Tokens(s))
    && LogsOk(s.inFlight, s.accepted, s.logs)
    && WaitingOk(s.logs, s.pending + multiset(s.queue))
    && LockExclusive(s.workers)
    && WorkerOk(s.inFlight, s.logs, s.workers[0]) && WorkerOk(s.inFlight, s.logs, s.workers[1])
    && SendersOk(s.inFlight, s.channels)
    && StreamsOk(s.logs, s.workers, s.channels)
    && SubscribedOk(s.inFlight, s.accepted, s.workers, s.channels)
  }

  // ── Every step keeps it ────────────────────────────────────────────────

  /** Moving a job between the queue and a worker, or through a worker's phases, keeps its token. */
  lemma TokensMove(s: Pool, s': Pool, w: nat)
    requires w < 2 && s'.pending == s.pending && s'.workers == s.workers[w := s'.workers[w]]
    requires multiset(s'.queue) + TokensOf(s'.workers[w]) == multiset(s.queue) + TokensOf(s.workers[w])
    ensures Tokens(s') == Tokens(s)
  {
    forall j ensures Tokens(s')[j] == Tokens(s)[j] {
      assert (multiset(s'.queue) + TokensOf(s'.workers[w]))[j] == (multiset(s.queue) + TokensOf(s.workers[w]))[j];
    }
  }

  lemma OneSender(workers: seq<Worker>, w: nat, c: nat)
    requires |workers| == 2 && w < 2 && !workers[1 - w].Sending?
    ensures Owed(workers[0], c) + Owed(workers[1], c) == Owed(workers[w], c)
  {
  }

  lemma DistinctAppend(cs: seq<nat>, c: nat)
    requires Distinct(cs) && c !in cs
    ensures Distinct(cs + [c])
  {
    assert forall i :: 0 <= i < |cs| ==> cs[i] in cs;
  }

  lemma BothWorkers(s: Pool, w: nat)
    requires w < 2
    requires WorkerOk(s.inFlight, s.logs, s.workers[w]) && WorkerOk(s.inFlight, s.logs, s.workers[1 - w])
    ensures WorkerOk(s.inFlight, s.logs, s.workers[0]) && WorkerOk(s.inFlight, s.logs, s.workers[1])
  {
  }

  lemma SendersAfterJoin(inFlight: map<Name, Entry>, channels: seq<Channel>, name: Name, ch: Channel)
    requires SendersOk(inFlight, channels) && name in inFlight && ch.job == inFlight[name].job
    ensures var e := inFlight[name];
            SendersOk(inFlight[name := e.(senders := e.senders + [|channels|])], channels + [ch])
  {
    var e := inFlight[name];
    assert EntryOk(e, channels);
    DistinctAppend(e.senders, |channels|);
    assert EntryOk(e.(senders := e.senders + [|channels|]), channels + [ch]);
    forall n | n in inFlight ensures EntryOk(inFlight[n], channels + [ch]) {
      assert EntryOk(inFlight[n], channels);
    }
  }

  lemma StreamsAfterAttach(logs: seq<Log>, workers: seq<Worker>, channels: seq<Channel>, ch: Channel)
    requires |workers| == 2 && !workers[0].Sending? && !workers[1].Sending?
    requires StreamsOk(logs, workers, channels)
    requires ch.job < |logs| && logs[ch.job].verdict == None
    requires ch == Channel(ch.job, |logs[ch.job].history|, [], [], true)
    ensures StreamsOk(logs, workers, channels + [ch])
  {
    assert StreamOk(logs[ch.job], [], ch);
  }

  lemma LogsFacts(s: Pool)
    requires LogsOk(s.inFlight, s.accepted, s.logs)
    ensures |s.accepted| == |s.logs|
    ensures forall id :: 0 <= id < |s.accepted| ==> s.accepted[id].id == id
  {
  }

  lemma ChannelsFacts(s: Pool)
    requires StreamsOk(s.logs, s.workers, s.channels)
    ensures forall c :: 0 <= c < |s.channels| ==> s.channels[c].job < |s.logs|
  {
  }

  /** A registered name stands for an accepted job that has no verdict while the lock is free. */
  lemma OpenEntry(s: Pool, name: Name)
    requires Inv(s) && LockFree(s) && name in s.inFlight
    ensures var id := s.inFlight[name].job;
            id < |s.accepted| == |s.logs| && s.accepted[id].name == name && s.logs[id].verdict == None
  {
    var job := s.accepted[s.inFlight[name].job];
    assert job in Tokens(s);
    assert job in s.pending + multiset(s.queue) || (s.workers[0].Working? && s.workers[0].job == job)
      || (s.workers[1].Working? && s.workers[1].job == job);
  }

  /** Changing only the senders of a name leaves the correspondence of names and jobs alone. */
  lemma SameJobAfter(s: Pool, name: Name, e: Entry)
    requires SingleFlight(s.inFlight, s.accepted, Tokens(s)) && LogsOk(s.inFlight, s.accepted, s.logs)
    requires name in s.inFlight && e.job == s.inFlight[name].job
    ensures SingleFlight(s.inFlight[name := e], s.accepted, Tokens(s))
    ensures LogsOk(s.inFlight[name := e], s.accepted, s.logs)
  {
    assert forall j :: IsOpen(s.inFlight[name := e], j) <==> IsOpen(s.inFlight, j);
  }

  lemma SubscribedAfterJoin(s: Pool, name: Name, e: Entry, ch: Channel)
    requires LockFree(s) && SubscribedOk(s.inFlight, s.accepted, s.workers, s.channels)
    requires name in s.inFlight && ch.job == e.job == s.inFlight[name].job
    requires e.job < |s.accepted| && s.accepted[e.job].name == name
    requires e.senders == s.inFlight[name].senders + [|s.channels|]
    ensures SubscribedOk(s.inFlight[name := e], s.accepted, s.workers, s.channels + [ch])
  {
    forall c | 0 <= c < |s.channels|
      ensures Subscribed(s.inFlight[name := e], s.accepted, s.workers, s.channels[c], c)
    {
      assert Subscribed(s.inFlight, s.accepted, s.workers, s.channels[c], c);
    }
  }

  /** A worker outside a broadcast does not notice changes to the senders or to other jobs' logs. */
  lemma WorkersKeep(s: Pool, s': Pool, w: nat)
    requires w < 2 && WorkerOk(s.inFlight, s.logs, s.workers[w]) && !s.workers[w].Sending?
    requires s'.workers[w] == s.workers[w] && |s.logs| <= |s'.logs|
    requires !s.workers[w].Idle? ==> s'.logs[s.workers[w].job.id] == s.logs[s.workers[w].job.id]
    ensures WorkerOk(s'.inFlight, s'.logs, s'.workers[w])
  {
  }

  lemma LogsAfterFresh(s: Pool, job: Job, e: Entry)
    requires LogsOk(s.inFlight, s.accepted, s.logs) && WaitingOk(s.logs, s.pending + multiset(s.queue))
    requires job.name !in s.inFlight && job.id == |s.accepted| == e.job
    ensures LogsOk(s.inFlight[job.name := e], s.accepted + [job], s.logs + [Log([], None)])
    ensures WaitingOk(s.logs + [Log([], None)], s.pending + multiset(s.queue) + multiset{job})
  {
  }

  lemma SendersAfterFresh(inFlight: map<Name, Entry>, channels: seq<Channel>, name: Name, ch: Channel)
    requires SendersOk(inFlight, channels) && name !in inFlight
    ensures SendersOk(inFlight[name := Entry(ch.job, [|channels|])], channels + [ch])
  {
    forall n | n in inFlight ensures EntryOk(inFlight[n], channels + [ch]) {
      assert EntryOk(inFlight[n], channels);
    }
  }

  /** A caller joins the job in flight. */
  lemma JoinKeepsInv(s: Pool, name: Name, spec: ToolSpec)
    requires Inv(s) && LockFree(s) && name in s.inFlight
    ensures Inv(Register(s, name, spec))
  {
    hide SingleFlight, LogsOk, WaitingOk, BusyOk, SendersOk, StreamsOk, SubscribedOk;
    var s' := Register(s, name, spec);
    var e := s.inFlight[name];
    var e' := e.(senders := e.senders + [|s.channels|]);
    assert Tokens(s') == Tokens(s);
    OpenEntry(s, name);
    SendersAfterJoin(s.inFlight, s.channels, name, s'.channels[|s.channels|]);
    StreamsAfterAttach(s.logs, s.workers, s.channels, s'.channels[|s.channels|]);
    SameJobAfter(s, name, e');
    SubscribedAfterJoin(s, name, e', s'.channels[|s.channels|]);
    WorkersKeep(s, s', 0);
    WorkersKeep(s, s', 1);
  }

  lemma SingleFlightAfterFresh(inFlight: map<Name, Entry>, accepted: seq<Job>, tokens: multiset<Job>,
                               job: Job, e: Entry)
    requires SingleFlight(inFlight, accepted, tokens)
    requires job.name !in inFlight && job.id == |accepted| == e.job
    ensures SingleFlight(inFlight[job.name := e], accepted + [job], tokens + multiset{job})
  {
  }

  lemma StreamsAfterFresh(logs: seq<Log>, workers: seq<Worker>, channels: seq<Channel>)
    requires |workers| == 2 && StreamsOk(logs, workers, channels)
    ensures StreamsOk(logs + [Log([], None)], workers, channels)
  {
  }

  lemma SubscribedAfterFresh(inFlight: map<Name, Entry>, accepted: seq<Job>, workers: seq<Worker>,
                             channels: seq<Channel>, job: Job, ch: Channel, e: Entry)
    requires |workers| == 2 && !workers[0].Sending? && !workers[1].Sending?
    requires SubscribedOk(inFlight, accepted, workers, channels)
    requires job.name !in inFlight && job.id == |accepted| == e.job == ch.job && e.senders == [|channels|]
    requires forall c :: 0 <= c < |channels| ==> channels[c].job < |accepted|
    requires forall id :: 0 <= id < |accepted| ==> accepted[id].id == id
    ensures SubscribedOk(inFlight[job.name := e], accepted + [job], workers, channels + [ch])
  {
    forall c | 0 <= c < |channels|
      ensures Subscribed(inFlight[job.name := e], accepted + [job], workers, channels[c], c)
    {
      assert Subscribed(inFlight, accepted, workers, channels[c], c);
    }
  }

  /** A caller registers a new job. */
  lemma FreshKeepsInv(s: Pool, name: Name, spec: ToolSpec)
    requires Inv(s) && LockFree(s) && name !in s.inFlight
    ensures Inv(Register(s, name, spec))
  {
    hide SingleFlight, LogsOk, WaitingOk, BusyOk, SendersOk, StreamsOk, SubscribedOk;
    var s' := Register(s, name, spec);
    var job := Job(|s.accepted|, name, spec);
    var e := Entry(job.id, [|s.channels|]);
    assert Tokens(s') == Tokens(s) + multiset{job};
    assert s'.pending + multiset(s'.queue) == s.pending + multiset(s.queue) + multiset{job};
    LogsFacts(s);
    ChannelsFacts(s);
    SingleFlightAfterFresh(s.inFlight, s.accepted, Tokens(s), job, e);
    LogsAfterFresh(s, job, e);
    StreamsAfterFresh(s.logs, s.workers, s.channels);
    StreamsAfterAttach(s'.logs, s.workers, s.channels, s'.channels[|s.channels|]);
    SubscribedAfterFresh(s.inFlight, s.accepted, s.workers, s.channels, job, s'.channels[|s.channels|], e);
    SendersAfterFresh(s.inFlight, s.channels, name, s'.channels[|s.channels|]);
    WorkersKeep(s, s', 0);
    WorkersKeep(s, s', 1);
  }

  lemma EnqueueKeepsInv(s: Pool, job: Job)
    requires Inv(s) && Enabled(s, Enqueue(job))
    ensures Inv(Apply(s, Enqueue(job)))
  {
    hide SingleFlight, LogsOk, WaitingOk, WorkerOk, SendersOk, StreamsOk, SubscribedOk;
    var s' := Apply(s, Enqueue(job));
    assert s'.pending + multiset(s'.queue) == s.pending + multiset(s.queue);
    assert Tokens(s') == Tokens(s);
  }

  lemma ReportTerminals(emits: seq<Status>, verdict: Status)
    requires WellFormedReport(emits, verdict)
    ensures Terminal(verdict) && TerminalsAre(emits, verdict)
  {
    if verdict.Done? {
      assert emits == emits[..|emits| - 1] + [verdict];
    }
  }

  lemma DequeueKeepsInv(s: Pool, w: nat, emits: seq<Status>, verdict: Status)
    requires Inv(s) && Enabled(s, Dequeue(w, emits, verdict))
    ensures Inv(Apply(s, Dequeue(w, emits, verdict)))
  {
    hide SingleFlight, LogsOk, WaitingOk, BusyOk, SendersOk, StreamsOk, SubscribedOk, Tokens;
    var s' := Apply(s, Dequeue(w, emits, verdict));
    assert s.queue == [s.queue[0]] + s.queue[1..];
    TokensMove(s, s', w);
    ReportTerminals(emits, verdict);
    WaitingAfterTake(s.logs, s.pending, s.queue);
    assert s'.workers[1 - w] == s.workers[1 - w];
    BusyAtStart(Senders(s, s.queue[0].name), s'.workers[w]);
    OthersStay(s, s', w);
    BothWorkers(s', w);
  }

  lemma WaitingAfterTake(logs: seq<Log>, pending: multiset<Job>, queue: seq<Job>)
    requires queue != [] && WaitingOk(logs, pending + multiset(queue))
    ensures NotStarted(logs, queue[0]) && WaitingOk(logs, pending + multiset(queue[1..]))
  {
    assert queue == [queue[0]] + queue[1..];
    assert queue[0] in pending + multiset(queue);
  }

  lemma BusyAtStart(senders: seq<nat>, wk: Worker)
    requires wk.Working? && Terminal(wk.verdict) && TerminalsAre(wk.emits, wk.verdict)
    ensures BusyOk(senders, Log([], None), wk)
  {
  }

  /** Nothing a handle is owed depends on a worker outside a broadcast. */
  lemma OthersStay(s: Pool, s': Pool, w: nat)
    requires w < 2 && s'.workers == s.workers[w := s'.workers[w]]
    requires forall c :: Owed(s'.workers[w], c) == Owed(s.workers[w], c)
    requires !s'.workers[w].Sending?
    requires StreamsOk(s.logs, s.workers, s.channels)
    requires SubscribedOk(s.inFlight, s.accepted, s.workers, s.channels)
    ensures StreamsOk(s.logs, s'.workers, s.channels)
    ensures SubscribedOk(s.inFlight, s.accepted, s'.workers, s.channels)
  {
    forall c | 0 <= c < |s.channels|
      ensures Subscribed(s.inFlight, s.accepted, s'.workers, s.channels[c], c)
    {
      assert Subscribed(s.inFlight, s.accepted, s.workers, s.channels[c], c);
    }
  }

  lemma StreamsAfterAnnounce(s: Pool, w: nat)
    requires Enabled(s, Begin(w)) && StreamsOk(s.logs, s.workers, s.channels)
    requires var j := s.workers[w].job;
             && j.id < |s.accepted| == |s.logs| && s.accepted[j.id] == j
             && IsOpen(s.inFlight, j) && s.logs[j.id].verdict == None
    requires SendersOk(s.inFlight, s.channels)
    requires SubscribedOk(s.inFlight, s.accepted, s.workers, s.channels)
    ensures StreamsOk(Announce(s, w).logs, Announce(s, w).workers, s.channels)
  {
    var s' := Announce(s, w);
    var j := s.workers[w].job;
    var status := s'.workers[w].status;
    assert EntryOk(s.inFlight[j.name], s.channels);
    forall c | 0 <= c < |s.channels|
      ensures var ch := s.channels[c];
              StreamOk(s'.logs[ch.job], Owed(s'.workers[0], c) + Owed(s'.workers[1], c), ch)
    {
      var ch := s.channels[c];
      OneSender(s.workers, w, c);
      OneSender(s'.workers, w, c);
      assert StreamOk(s.logs[ch.job], [], ch);
      assert Subscribed(s.inFlight, s.accepted, s.workers, ch, c);
      if ch.job == j.id && ch.alive {
        var h := s.logs[j.id].history;
        assert (h + [status])[ch.attach..] == h[ch.attach..] + [status];
        assert ch.received + ch.queue + [status] == (h + [status])[ch.attach..];
      }
    }
  }

  lemma LogAfterAnnounce(log: Log, wk: Worker, senders: seq<nat>)
    requires wk.Working? && BusyOk(senders, log, wk) && Distinct(senders)
    ensures var last := wk.emits == [];
            var log' := Logged(log, NextStatus(wk), last);
            && (log'.verdict.Some? ==> Concluded(log'.history, log'.verdict.value))
            && BusyOk(senders, log', Sending(wk.job, if last then [] else wk.emits[1..], wk.verdict,
                                             NextStatus(wk), senders, [], last))
  {
  }

  lemma AnnounceKeepsInv(s: Pool, w: nat)
    requires Inv(s) && Enabled(s, Begin(w))
    ensures Inv(Announce(s, w))
  {
    hide SingleFlight, LogsOk, WaitingOk, BusyOk, SendersOk, StreamsOk, SubscribedOk, Tokens;
    var s' := Announce(s, w);
    var j := s.workers[w].job;
    TokensMove(s, s', w);
    LogsFacts(s);
    WorkerFacts(s, w);
    LogAfterAnnounce(s.logs[j.id], s.workers[w], Senders(s, j.name));
    assert s.logs[j.id].verdict == None by { NoVerdictYet(s, w); }
    StreamsAfterAnnounce(s, w);
    LogsAfterAnnounce(s, j, s'.logs[j.id]);
    SubscribedAfterAnnounce(s, w);
    WorkersKeep(s, s', 1 - w);
    BothWorkers(s', w);
  }

  lemma NoVerdictYet(s: Pool, w: nat)
    requires w < 2 && s.workers[w].Working? && WorkerOk(s.inFlight, s.logs, s.workers[w])
    ensures s.logs[s.workers[w].job.id].verdict == None
  {
  }

  /** What the invariant says about the job a worker is busy with. */
  lemma WorkerFacts(s: Pool, w: nat)
    requires w < 2 && !s.workers[w].Idle?
    requires SingleFlight(s.inFlight, s.accepted, Tokens(s)) && SendersOk(s.inFlight, s.channels)
    ensures var j := s.workers[w].job;
            && IsOpen(s.inFlight, j) && j.id < |s.accepted| && s.accepted[j.id] == j && j in Tokens(s)
            && EntryOk(s.inFlight[j.name], s.channels) && Distinct(Senders(s, j.name))
    ensures forall k :: k in s.pending + multiset(s.queue) ==> k.id != s.workers[w].job.id
    ensures !s.workers[1 - w].Idle? ==> s.workers[1 - w].job.id != s.workers[w].job.id
    ensures !s.workers[1 - w].Idle? ==> s.workers[1 - w].job.name != s.workers[w].job.name
  {
    var j := s.workers[w].job;
    assert j in Tokens(s);
    assert EntryOk(s.inFlight[j.name], s.channels);
    OthersDiffer(s, w);
  }

  lemma LogsAfterAnnounce(s: Pool, j: Job, log: Log)
    requires LogsOk(s.inFlight, s.accepted, s.logs) && WaitingOk(s.logs, s.pending + multiset(s.queue))
    requires j.id < |s.accepted| && s.accepted[j.id] == j && IsOpen(s.inFlight, j)
    requires log.verdict.Some? ==> Concluded(log.history, log.verdict.value)
    requires forall k :: k in s.pending + multiset(s.queue) ==> k.id != j.id
    ensures LogsOk(s.inFlight, s.accepted, s.logs[j.id := log])
    ensures WaitingOk(s.logs[j.id := log], s.pending + multiset(s.queue))
  {
  }

  lemma SubscribedAfterAnnounce(s: Pool, w: nat)
    requires Enabled(s, Begin(w)) && SubscribedOk(s.inFlight, s.accepted, s.workers, s.channels)
    requires |s.accepted| == |s.logs|
    requires var j := s.workers[w].job; j.id < |s.accepted| && s.accepted[j.id] == j
    ensures SubscribedOk(s.inFlight, s.accepted, Announce(s, w).workers, s.channels)
  {
    forall c | 0 <= c < |s.channels|
      ensures Subscribed(s.inFlight, s.accepted, Announce(s, w).workers, s.channels[c], c)
    {
      assert Subscribed(s.inFlight, s.accepted, s.workers, s.channels[c], c);
    }
  }

  /** The job a worker is busy with is nobody else's. */
  lemma OnlyToken(inFlight: map<Name, Entry>, accepted: seq<Job>, rest: multiset<Job>, job: Job)
    requires SingleFlight(inFlight, accepted, rest + multiset{job})
    ensures forall j :: j in rest ==> j.id != job.id && j.name != job.name
  {
    var tokens := rest + multiset{job};
    assert job in tokens && tokens[job] == 1;
    forall j | j in rest ensures j.id != job.id && j.name != job.name {
      assert j in tokens;
    }
  }

  lemma OthersDiffer(s: Pool, w: nat)
    requires SingleFlight(s.inFlight, s.accepted, Tokens(s)) && w < 2 && !s.workers[w].Idle?
    ensures forall j :: j in s.pending + multiset(s.queue) ==> j.id != s.workers[w].job.id
    ensures !s.workers[1 - w].Idle? ==> s.workers[1 - w].job.id != s.workers[w].job.id
    ensures !s.workers[1 - w].Idle? ==> s.workers[1 - w].job.name != s.workers[w].job.name
  {
    hide SingleFlight;
    var job := s.workers[w].job;
    var rest := s.pending + multiset(s.queue) + TokensOf(s.workers[1 - w]);
    assert Tokens(s) == rest + multiset{job};
    OnlyToken(s.inFlight, s.accepted, rest, job);
  }

  lemma StreamAfterPush(log: Log, ch: Channel, status: Status)
    requires StreamOk(log, [status], ch) && |ch.queue| < STATUS_CAPACITY
    ensures StreamOk(log, [], ch.(queue := ch.queue + [status]))
  {
    Assoc(ch.received, ch.queue, [status], []);
    assert ch.received + (ch.queue + [status]) + [] == ch.received + (ch.queue + [status]);
  }

  lemma StreamsAfterDeliver(s: Pool, w: nat)
    requires Enabled(s, Send(w)) && !s.workers[1 - w].Sending?
    requires StreamsOk(s.logs, s.workers, s.channels) && Distinct(s.workers[w].todo)
    ensures StreamsOk(s.logs, Deliver(s, w).workers, Deliver(s, w).channels)
  {
    var s' := Deliver(s, w);
    var wk := s.workers[w];
    Cons(wk.todo);
    assert wk.todo[0] !in wk.todo[1..];
    forall c | 0 <= c < |s.channels|
      ensures var ch := s'.channels[c];
              ch.job < |s.logs| && StreamOk(s.logs[ch.job], Owed(s'.workers[0], c) + Owed(s'.workers[1], c), ch)
    {
      var log, ch := s.logs[s.channels[c].job], s.channels[c];
      OneSender(s.workers, w, c);
      OneSender(s'.workers, w, c);
      assert StreamOk(log, Owed(wk, c), ch);
      if c == wk.todo[0] && ch.alive {
        StreamAfterPush(log, ch, wk.status);
      }
    }
  }

  lemma SubscribedAfterDeliver(s: Pool, w: nat)
    requires Enabled(s, Send(w)) && !s.workers[1 - w].Sending?
    requires SubscribedOk(s.inFlight, s.accepted, s.workers, s.channels)
    ensures SubscribedOk(s.inFlight, s.accepted, Deliver(s, w).workers, Deliver(s, w).channels)
  {
    var s' := Deliver(s, w);
    var wk := s.workers[w];
    assert wk.todo == [wk.todo[0]] + wk.todo[1..];
    forall c | 0 <= c < |s.channels|
      ensures Subscribed(s.inFlight, s.accepted, s'.workers, s'.channels[c], c)
    {
      assert Subscribed(s.inFlight, s.accepted, s.workers, s.channels[c], c);
      assert Covers(wk, s.channels[c].job, c) && s.channels[c].alive ==> Covers(s'.workers[w], s.channels[c].job, c);
    }
  }

  lemma SendingAfterDeliver(senders: seq<nat>, log: Log, wk: Worker, keep: bool)
    requires wk.Sending? && wk.todo != [] && BusyOk(senders, log, wk)
    ensures BusyOk(senders, log, wk.(todo := wk.todo[1..], kept := if keep then wk.kept + [wk.todo[0]] else wk.kept))
  {
    assert wk.todo == [wk.todo[0]] + wk.todo[1..];
    DistinctAppend(wk.kept, wk.todo[0]);
    assert forall c :: c in wk.todo[1..] ==> c in wk.todo;
  }

  lemma DeliverKeepsInv(s: Pool, w: nat)
    requires Inv(s) && Enabled(s, Send(w))
    ensures Inv(Deliver(s, w))
  {
    hide SingleFlight, LogsOk, WaitingOk, BusyOk, SendersOk, StreamsOk, SubscribedOk, Tokens;
    var s' := Deliver(s, w);
    var wk := s.workers[w];
    TokensMove(s, s', w);
    assert WorkerOk(s.inFlight, s.logs, wk);
    TodoDistinct(Senders(s, wk.job.name), s.logs[wk.job.id], wk);
    SendingAfterDeliver(Senders(s, wk.job.name), s.logs[wk.job.id], wk, s.channels[wk.todo[0]].alive);
    WorkersKeep(s, s', 1 - w);
    BothWorkers(s', w);
    SendersAfterTraffic(s.inFlight, s.channels, s'.channels);
    StreamsAfterDeliver(s, w);
    SubscribedAfterDeliver(s, w);
  }

  lemma TodoDistinct(senders: seq<nat>, log: Log, wk: Worker)
    requires wk.Sending? && BusyOk(senders, log, wk)
    ensures Distinct(wk.todo) && Distinct(wk.kept) && (forall c :: c in wk.kept ==> c in senders)
    ensures wk.last ==> log.verdict.Some?
    ensures !wk.last ==> BusyOk(wk.kept, log, Working(wk.job, wk.emits, wk.verdict))
  {
  }

  lemma SendersAfterTraffic(inFlight: map<Name, Entry>, channels: seq<Channel>, channels': seq<Channel>)
    requires SendersOk(inFlight, channels) && |channels'| == |channels|
    requires forall c :: 0 <= c < |channels| ==> channels'[c].job == channels[c].job
    ensures SendersOk(inFlight, channels')
  {
    forall n | n in inFlight ensures EntryOk(inFlight[n], channels') {
      assert EntryOk(inFlight[n], channels);
    }
  }

  lemma SendersAfterLeave(inFlight: map<Name, Entry>, channels: seq<Channel>, name: Name, kept: seq<nat>)
    requires SendersOk(inFlight, channels) && name in inFlight
    requires Distinct(kept) && forall c :: c in kept ==> c in inFlight[name].senders
    ensures SendersOk(inFlight - {name}, channels)
    ensures SendersOk(inFlight[name := inFlight[name].(senders := kept)], channels)
  {
    assert EntryOk(inFlight[name], channels);
    assert EntryOk(inFlight[name].(senders := kept), channels);
  }

  lemma SubscribedAfterLeave(s: Pool, w: nat)
    requires Enabled(s, End(w)) && !s.workers[1 - w].Sending?
    requires SubscribedOk(s.inFlight, s.accepted, s.workers, s.channels)
    requires var j := s.workers[w].job;
             j.id < |s.accepted| && s.accepted[j.id] == j && IsOpen(s.inFlight, j)
    requires forall id :: 0 <= id < |s.accepted| ==> s.accepted[id].id == id
    ensures SubscribedOk(Leave(s, w).inFlight, s.accepted, Leave(s, w).workers, s.channels)
  {
    var s' := Leave(s, w);
    forall c | 0 <= c < |s.channels|
      ensures Subscribed(s'.inFlight, s.accepted, s'.workers, s.channels[c], c)
    {
      assert Subscribed(s.inFlight, s.accepted, s.workers, s.channels[c], c);
    }
  }

  lemma LeaveKeepsOpen(s: Pool, w: nat)
    requires Inv(s) && Enabled(s, End(w)) && !s.workers[w].last
    ensures Inv(Leave(s, w))
  {
    hide SingleFlight, LogsOk, WaitingOk, BusyOk, SendersOk, StreamsOk, SubscribedOk, Tokens;
    var s' := Leave(s, w);
    var wk := s.workers[w];
    TokensMove(s, s', w);
    LogsFacts(s);
    WorkerFacts(s, w);
    assert WorkerOk(s.inFlight, s.logs, wk);
    TodoDistinct(Senders(s, wk.job.name), s.logs[wk.job.id], wk);
    SendersAfterLeave(s.inFlight, s.channels, wk.job.name, wk.kept);
    SubscribedAfterLeave(s, w);
    SameJobAfter(s, wk.job.name, s'.inFlight[wk.job.name]);
    WorkersKeep(s, s', 1 - w);
    BothWorkers(s', w);
    StreamsAfterLeave(s, w);
  }

  lemma StreamsAfterLeave(s: Pool, w: nat)
    requires Enabled(s, End(w)) && StreamsOk(s.logs, s.workers, s.channels)
    ensures StreamsOk(s.logs, Leave(s, w).workers, s.channels)
  {
    var ws := Leave(s, w).workers;
    assert forall c :: Owed(ws[0], c) == Owed(s.workers[0], c) && Owed(ws[1], c) == Owed(s.workers[1], c);
  }

  lemma SingleFlightAfterFinish(inFlight: map<Name, Entry>, accepted: seq<Job>, tokens: multiset<Job>, job: Job)
    requires SingleFlight(inFlight, accepted, tokens) && job in tokens
    ensures SingleFlight(inFlight - {job.name}, accepted, tokens - multiset{job})
  {
    assert tokens[job] == 1;
  }

  lemma TokensAfterLeave(s: Pool, w: nat)
    requires Enabled(s, End(w)) && s.workers[w].last
    ensures Tokens(Leave(s, w)) == Tokens(s) - multiset{s.workers[w].job}
  {
  }

  lemma LeaveCloses(s: Pool, w: nat)
    requires Inv(s) && Enabled(s, End(w)) && s.workers[w].last
    ensures Inv(Leave(s, w))
  {
    hide SingleFlight, LogsOk, WaitingOk, BusyOk, SendersOk, StreamsOk, SubscribedOk, Tokens;
    var s' := Leave(s, w);
    var wk := s.workers[w];
    LogsFacts(s);
    WorkerFacts(s, w);
    TokensAfterLeave(s, w);
    assert WorkerOk(s.inFlight, s.logs, wk);
    TodoDistinct(Senders(s, wk.job.name), s.logs[wk.job.id], wk);
    SingleFlightAfterFinish(s.inFlight, s.accepted, Tokens(s), wk.job);
    SendersAfterLeave(s.inFlight, s.channels, wk.job.name, []);
    SubscribedAfterLeave(s, w);
    LogsAfterFinish(s, wk.job);
    WorkersKeep(s, s', 1 - w);
    BothWorkers(s', w);
    StreamsAfterLeave(s, w);
  }

  lemma LogsAfterFinish(s: Pool, j: Job)
    requires LogsOk(s.inFlight, s.accepted, s.logs) && j.id < |s.accepted| && s.accepted[j.id] == j
    requires IsOpen(s.inFlight, j) && s.logs[j.id].verdict.Some?
    ensures LogsOk(s.inFlight - {j.name}, s.accepted, s.logs)
  {
    forall id | 0 <= id < |s.accepted| && IsOpen(s.inFlight, s.accepted[id]) && id != j.id
      ensures IsOpen(s.inFlight - {j.name}, s.accepted[id])
    {
    }
  }

  lemma StreamsAfterReader(logs: seq<Log>, workers: seq<Worker>, channels: seq<Channel>, c: nat, ch': Channel)
    requires |workers| == 2 && StreamsOk(logs, workers, channels) && c < |channels|
    requires ch'.job == channels[c].job && ch'.attach == channels[c].attach && |ch'.queue| <= |channels[c].queue|
    requires ch'.alive ==> channels[c].alive && ch'.received + ch'.queue == channels[c].received + channels[c].queue
    ensures StreamsOk(logs, workers, channels[c := ch'])
  {
    assert StreamOk(logs[channels[c].job], Owed(workers[0], c) + Owed(workers[1], c), channels[c]);
  }

  lemma ReaderKeepsInv(s: Pool, e: Event)
    requires Inv(s) && Enabled(s, e) && (e.Receive? || e.Drop?)
    ensures Inv(Apply(s, e))
  {
    hide SingleFlight, LogsOk, WaitingOk, BusyOk, SendersOk, StreamsOk, SubscribedOk;
    var s' := Apply(s, e);
    var ch := s.channels[e.c];
    assert Tokens(s') == Tokens(s);
    SendersAfterTraffic(s.inFlight, s.channels, s'.channels);
    if e.Receive? {
      Cons(ch.queue);
      Assoc(ch.received, [ch.queue[0]], ch.queue[1..], []);
    }
    StreamsAfterReader(s.logs, s.workers, s.channels, e.c, s'.channels[e.c]);
    SubscribedAfterReader(s, e.c, s'.channels[e.c]);
  }

  lemma SubscribedAfterReader(s: Pool, c: nat, ch: Channel)
    requires c < |s.channels| && ch.job == s.channels[c].job && (ch.alive ==> s.channels[c].alive)
    requires SubscribedOk(s.inFlight, s.accepted, s.workers, s.channels)
    ensures SubscribedOk(s.inFlight, s.accepted, s.workers, s.channels[c := ch])
  {
    assert Subscribed(s.inFlight, s.accepted, s.workers, s.channels[c], c);
  }

  /** Every step of every caller, worker and reader keeps the invariant. */
  lemma StepKeepsInv(s: Pool, e: Event)
    requires Inv(s) && Enabled(s, e)
    ensures Inv(Apply(s, e))
  {
    match e
    case Install(name, spec) =>
      if name in s.inFlight { JoinKeepsInv(s, name, spec); } else { FreshKeepsInv(s, name, spec); }
    case Enqueue(job) => EnqueueKeepsInv(s, job);
    case Dequeue(w, emits, verdict) => DequeueKeepsInv(s, w, emits, verdict);
    case Begin(w) => AnnounceKeepsInv(s, w);
    case Send(w) => DeliverKeepsInv(s, w);
    case End(w) => if s.workers[w].last { LeaveCloses(s, w); } else { LeaveKeepsOpen(s, w); }
    case Receive(_) => ReaderKeepsInv(s, e);
    case Drop(_) => ReaderKeepsInv(s, e);
  }

  lemma {:induction false} RunKeepsInv(s: Pool, es: seq<Event>)
    requires Inv(s) && ValidRun(s, es)
    ensures Inv(After(s, es))
    decreases |es|
  {
    if es != [] {
      StepKeepsInv(s, es[0]);
      RunKeepsInv(Apply(s, es[0]), es[1..]);
    }
  }

  lemma ReachableInv(s: Pool)
    requires Reachable(s)
    ensures Inv(s)
  {
    var es :| ValidRun(INITIAL, es) && After(INITIAL, es) == s;
    RunKeepsInv(INITIAL, es);
  }
}
