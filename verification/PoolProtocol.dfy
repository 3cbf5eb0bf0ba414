/**
 The install pool as a transition system.

 Two workers, a job queue of bounded capacity, a registry guarded by one lock and one bounded
 status channel per handle. A step is what the program does atomically: a critical section of
 `install`, handing a job to the queue without the lock, taking a job, entering a broadcast,
 one channel send inside it, leaving it, one receive, one dropped handle. A worker inside a
 broadcast owns the lock, so no other critical section can run until it leaves.

 The fields `accepted`, `logs`, `received` and `attach` only record history; no step reads them
 to decide anything.
 */
module PoolProtocol {
  import opened Wrappers
  import opened Manifest
  import opened InstallStatus

  const QUEUE_CAPACITY: nat := 64
  const STATUS_CAPACITY: nat := 128

  type Name = string

  /** One accepted job. `id` tells apart the successive jobs of one name. */
  datatype Job = Job(id: nat, name: Name, spec: ToolSpec)

  /** The channel between the pool and one handle. */
  datatype Channel = Channel(job: nat, attach: nat, received: seq<Status>, queue: seq<Status>, alive: bool)

  /** A registry entry: the senders of one in-flight job. */
  datatype Entry = Entry(job: nat, senders: seq<nat>)

  /**
   A worker thread. `emits` are the statuses its install is still going to report and
   `verdict` the terminal one that follows. `Sending` is the body of `broadcast` (or, with
   `last`, of `finish_job`) under the lock: `todo` are the senders not tried yet, `kept` those
   that accepted the status.
   */
  datatype Worker =
    | Idle
    | Working(job: Job, emits: seq<Status>, verdict: Status)
    | Sending(job: Job, emits: seq<Status>, verdict: Status,
              status: Status, todo: seq<nat>, kept: seq<nat>, last: bool)

  /** Everything broadcast for a job so far, and its verdict once that has been announced. */
  datatype Log = Log(history: seq<Status>, verdict: Option<Status>)

  datatype State = State(
    inFlight: map<Name, Entry>,
    pending: multiset<Job>,
    queue: seq<Job>,
    workers: seq<Worker>,
    channels: seq<Channel>,
    accepted: seq<Job>,
    logs: seq<Log>)

  /** The pool spawns exactly two workers. */
  type Pool = s: State | |s.workers| == 2 witness INITIAL
  const INITIAL: State := State(map[], multiset{}, [], [Idle, Idle], [], [], [])

  datatype Event =
    | Install(name: Name, spec: ToolSpec)
    | Enqueue(job: Job)
    | Dequeue(w: nat, emits: seq<Status>, verdict: Status)
    | Begin(w: nat)
    | Send(w: nat)
    | End(w: nat)
    | Receive(c: nat)
    | Drop(c: nat)

  // ── Reading a state ────────────────────────────────────────────────────

  predicate LockFree(s: Pool) {
    !s.workers[0].Sending? && !s.workers[1].Sending?
  }

  function History(s: Pool, id: nat): seq<Status> {
    if id < |s.logs| then s.logs[id].history else []
  }

  function Senders(s: Pool, name: Name): seq<nat> {
    SendersOf(s.inFlight, name)
  }

  function SendersOf(inFlight: map<Name, Entry>, name: Name): seq<nat> {
    if name in inFlight then inFlight[name].senders else []
  }

  /** Whether a send to channel `c` returns at once: the receiver is gone or has room. */
  predicate CanSend(s: Pool, c: nat) {
    c < |s.channels| && (s.channels[c].alive ==> |s.channels[c].queue| < STATUS_CAPACITY)
  }

  predicate Enabled(s: Pool, e: Event) {
    match e
    case Install(_, _) => LockFree(s)
    case Enqueue(job) => job in s.pending && |s.queue| < QUEUE_CAPACITY
    case Dequeue(w, emits, verdict) =>
      w < 2 && s.workers[w].Idle? && s.queue != [] && WellFormedReport(emits, verdict)
    case Begin(w) => w < 2 && s.workers[w].Working? && LockFree(s)
    case Send(w) => w < 2 && s.workers[w].Sending? && s.workers[w].todo != [] && CanSend(s, s.workers[w].todo[0])
    case End(w) => w < 2 && s.workers[w].Sending? && s.workers[w].todo == []
    case Receive(c) => c < |s.channels| && s.channels[c].alive && s.channels[c].queue != []
    case Drop(c) => c < |s.channels| && s.channels[c].alive
  }

  // ── Steps ──────────────────────────────────────────────────────────────

  function Apply(s: Pool, e: Event): Pool
    requires Enabled(s, e)
  {
    match e
    case Install(name, spec) => Register(s, name, spec)
    case Enqueue(job) => s.(pending := s.pending - multiset{job}, queue := s.queue + [job])
    case Dequeue(w, emits, verdict) =>
      s.(queue := s.queue[1..], workers := s.workers[w := Working(s.queue[0], emits, verdict)])
    case Begin(w) => Announce(s, w)
    case Send(w) => Deliver(s, w)
    case End(w) => Leave(s, w)
    case Receive(c) =>
      var ch := s.channels[c];
      s.(channels := s.channels[c := ch.(received := ch.received + [ch.queue[0]], queue := ch.queue[1..])])
    case Drop(c) => s.(channels := s.channels[c := s.channels[c].(alive := false)])
  }

  /** The critical section of `install`: join the job in flight, or register a new one. */
  function Register(s: Pool, name: Name, spec: ToolSpec): Pool {
    var c := |s.channels|;
    if name in s.inFlight then
      var entry := s.inFlight[name];
      s.(inFlight := s.inFlight[name := entry.(senders := entry.senders + [c])],
         channels := s.channels + [Channel(entry.job, |History(s, entry.job)|, [], [], true)])
    else
      var job := Job(|s.accepted|, name, spec);
      s.(inFlight := s.inFlight[name := Entry(job.id, [c])],
         pending := s.pending + multiset{job},
         channels := s.channels + [Channel(job.id, 0, [], [], true)],
         accepted := s.accepted + [job],
         logs := s.logs + [Log([], None)])
  }

  /** What the worker broadcasts next: the status its install reports, or the verdict. */
  function NextStatus(wk: Worker): Status
    requires wk.Working?
  {
    if wk.emits == [] then wk.verdict else wk.emits[0]
  }

  function Logged(log: Log, status: Status, last: bool): Log {
    Log(log.history + [status], if last then Some(status) else log.verdict)
  }

  /** Take the lock to broadcast the next status, or the verdict when none is left. */
  function Announce(s: Pool, w: nat): Pool
    requires Enabled(s, Begin(w))
  {
    var wk := s.workers[w];
    var last := wk.emits == [];
    var emits := if last then [] else wk.emits[1..];
    var status := NextStatus(wk);
    s.(workers := s.workers[w := Sending(wk.job, emits, wk.verdict, status, Senders(s, wk.job.name), [], last)],
       logs := if wk.job.id < |s.logs| then s.logs[wk.job.id := Logged(s.logs[wk.job.id], status, last)] else s.logs)
  }

  /** One step of `retain`: a sender whose receiver is gone is dropped, any other is kept. */
  function Deliver(s: Pool, w: nat): Pool
    requires Enabled(s, Send(w))
  {
    var wk := s.workers[w];
    var c := wk.todo[0];
    var ch := s.channels[c];
    if ch.alive then
      s.(channels := s.channels[c := ch.(queue := ch.queue + [wk.status])],
         workers := s.workers[w := wk.(todo := wk.todo[1..], kept := wk.kept + [c])])
    else
      s.(workers := s.workers[w := wk.(todo := wk.todo[1..])])
  }

  /** Release the lock; the last broadcast of a job also removes its name. */
  function Leave(s: Pool, w: nat): Pool
    requires Enabled(s, End(w))
  {
    var wk := s.workers[w];
    if wk.last then
      s.(inFlight := s.inFlight - {wk.job.name}, workers := s.workers[w := Idle])
    else
      s.(inFlight := if wk.job.name in s.inFlight
                     then s.inFlight[wk.job.name := s.inFlight[wk.job.name].(senders := wk.kept)]
                     else s.inFlight,
         workers := s.workers[w := Working(wk.job, wk.emits, wk.verdict)])
  }

  // ── Runs ───────────────────────────────────────────────────────────────

  /** The events can happen in this order from `s`. */
  predicate ValidRun(s: Pool, es: seq<Event>)
    decreases |es|
  {
    es == [] || (Enabled(s, es[0]) && ValidRun(Apply(s, es[0]), es[1..]))
  }

  function After(s: Pool, es: seq<Event>): Pool
    requires ValidRun(s, es)
    decreases |es|
  {
    if es == [] then s else After(Apply(s, es[0]), es[1..])
  }

  /** Some interleaving of callers, workers and readers leads from a fresh pool to `s`. */
  ghost predicate Reachable(s: Pool) {
    exists es :: ValidRun(INITIAL, es) && After(INITIAL, es) == s
  }

  lemma {:induction false} RunConcat(s: Pool, es: seq<Event>, fs: seq<Event>)
    requires ValidRun(s, es) && ValidRun(After(s, es), fs)
    ensures ValidRun(s, es + fs) && After(s, es + fs) == After(After(s, es), fs)
    decreases |es|
  {
    hide Apply, Enabled;
    if es == [] {
      assert es + fs == fs;
    } else {
      assert (es + fs)[1..] == es[1..] + fs;
      RunConcat(Apply(s, es[0]), es[1..], fs);
    }
  }
}
