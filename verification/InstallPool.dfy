/**
 The install pool as the program holds it: a registry, a job queue and one channel per handle,
 changed in place. Every method is a step, or a run of steps, of the protocol. The fields
 `pending` and `workers` are what submitters and worker threads hold on their own stacks;
 `accepted` and `logs` record history.
 */
module InstallPool {
  import opened Wrappers
  import opened Manifest
  import opened InstallStatus
  import opened PoolProtocol
  import opened PoolInvariants
  import PoolSafety

  /** The sends of one uncontended broadcast to `n` senders. */
  function SendsOf(w: nat, n: nat): seq<Event> {
    seq(n, _ => Send(w))
  }

  lemma RunSnoc(s: Pool, es: seq<Event>, e: Event)
    requires ValidRun(s, es) && Enabled(After(s, es), e)
    ensures ValidRun(s, es + [e]) && After(s, es + [e]) == Apply(After(s, es), e)
  {
    hide Apply, Enabled;
    var t := After(s, es);
    assert [e][1..] == [];
    assert ValidRun(Apply(t, e), []) && After(Apply(t, e), []) == Apply(t, e);
    assert ValidRun(t, [e]) && After(t, [e]) == Apply(t, e);
    RunConcat(s, es, [e]);
  }

  /** A pool whose readers keep up: every live handle the name is sent to has room. */
  ghost predicate HasRoom(s: Pool, name: Name) {
    forall c :: c in Senders(s, name) ==> CanSend(s, c)
  }

  /** Every send the broadcast in progress still has to make returns at once. */
  ghost predicate RoomFor(s: Pool, w: nat)
    requires w < 2 && s.workers[w].Sending?
  {
    forall c :: c in s.workers[w].todo ==> CanSend(s, c)
  }

  lemma TodoIsDistinct(s: Pool, w: nat)
    requires Inv(s) && w < 2 && s.workers[w].Sending?
    ensures Distinct(s.workers[w].todo)
  {
    assert WorkerOk(s.inFlight, s.logs, s.workers[w]);
  }

  lemma RoomLasts(s: Pool, w: nat)
    requires Inv(s) && w < 2 && s.workers[w].Sending? && s.workers[w].todo != [] && RoomFor(s, w)
    ensures Enabled(s, Send(w))
    ensures var s' := Apply(s, Send(w));
            && s'.workers[w].Sending? && s'.workers[w].todo == s.workers[w].todo[1..] && RoomFor(s', w)
  {
    hide Inv, Deliver;
    var wk := s.workers[w];
    TodoIsDistinct(s, w);
    DeliverTouchesOne(s, w);
    assert forall c :: c in wk.todo[1..] ==> c in wk.todo && c != wk.todo[0];
  }

  lemma DeliverTouchesOne(s: Pool, w: nat)
    requires Enabled(s, Send(w))
    ensures var s', c := Deliver(s, w), s.workers[w].todo[0];
      && |s'.channels| == |s.channels|
      && (forall d :: 0 <= d < |s.channels| && d != c ==> s'.channels[d] == s.channels[d])
      && s'.workers[w].Sending? && s'.workers[w].todo == s.workers[w].todo[1..]
  {
  }

  lemma AnnounceHasRoom(s: Pool, w: nat)
    requires Enabled(s, Begin(w)) && HasRoom(s, s.workers[w].job.name)
    ensures RoomFor(Apply(s, Begin(w)), w)
    ensures Apply(s, Begin(w)).workers[w].todo == Senders(s, s.workers[w].job.name)
  {
  }

  /** Taking the lock for a broadcast, as a run of one step, leaves every send it has to make possible. */
  lemma BroadcastBegins(s: Pool, w: nat)
    requires Inv(s) && Enabled(s, Begin(w)) && HasRoom(s, s.workers[w].job.name)
    ensures ValidRun(s, [Begin(w)]) && After(s, [Begin(w)]) == Apply(s, Begin(w))
    ensures Inv(Apply(s, Begin(w))) && RoomFor(Apply(s, Begin(w)), w)
    ensures Apply(s, Begin(w)).workers[w].todo == Senders(s, s.workers[w].job.name)
  {
    hide Inv, RoomFor, HasRoom;
    assert ValidRun(s, []) && After(s, []) == s;
    RunSnoc(s, [], Begin(w));
    assert [] + [Begin(w)] == [Begin(w)];
    StepKeepsInv(s, Begin(w));
    AnnounceHasRoom(s, w);
  }

  class InstallPool {
    var inFlight: map<Name, Entry>
    var queue: seq<Job>
    var channels: seq<Channel>
    var pending: multiset<Job>
    var workers: seq<Worker>
    var accepted: seq<Job>
    var logs: seq<Log>

    ghost predicate Valid()
      reads this
    {
      |workers| == 2 && Inv(View())
    }

    function View(): Pool
      reads this
      requires |workers| == 2
    {
      State(inFlight, pending, queue, workers, channels, accepted, logs)
    }

    constructor ()
      ensures Valid() && View() == INITIAL
    {
      inFlight, queue, channels := map[], [], [];
      pending, workers, accepted, logs := multiset{}, [Idle, Idle], [], [];
    }

    /**
     The critical section of `install`. A new job is returned for its submitter to enqueue once
     the lock is released; a caller that joined gets none.
     */
    method Register(name: Name, spec: ToolSpec) returns (handle: nat, job: Option<Job>)
      requires Valid() && LockFree(View())
      modifies this
      ensures Valid() && View() == Apply(old(View()), Install(name, spec))
      ensures handle == |old(channels)|
      ensures job == if name in old(inFlight) then None else Some(Job(|old(accepted)|, name, spec))
    {
      hide Inv;
      StepKeepsInv(View(), Install(name, spec));
      handle := |channels|;
      if name in inFlight {
        var entry := inFlight[name];
        channels := channels + [Channel(entry.job, |History(View(), entry.job)|, [], [], true)];
        inFlight := inFlight[name := entry.(senders := entry.senders + [handle])];
        job := None;
      } else {
        var j := Job(|accepted|, name, spec);
        inFlight := inFlight[name := Entry(j.id, [handle])];
        channels := channels + [Channel(j.id, 0, [], [], true)];
        pending, accepted, logs := pending + multiset{j}, accepted + [j], logs + [Log([], None)];
        job := Some(j);
      }
    }

    /** Hand a new job over once the queue has room; no lock is held meanwhile. */
    method SendJob(job: Job)
      requires Valid() && Enabled(View(), Enqueue(job))
      modifies `pending, `queue
      ensures Valid() && View() == Apply(old(View()), Enqueue(job))
    {
      hide Inv;
      StepKeepsInv(View(), Enqueue(job));
      queue := queue + [job];
      pending := pending - multiset{job};
    }

    /** A worker takes the oldest job; its install will report `emits` and then `verdict`. */
    method TakeJob(w: nat, emits: seq<Status>, verdict: Status) returns (job: Job)
      requires Valid() && Enabled(View(), Dequeue(w, emits, verdict))
      modifies `queue, `workers
      ensures Valid() && View() == Apply(old(View()), Dequeue(w, emits, verdict))
      ensures job == old(queue)[0]
    {
      hide Inv;
      StepKeepsInv(View(), Dequeue(w, emits, verdict));
      job := queue[0];
      queue := queue[1..];
      workers := workers[w := Working(job, emits, verdict)];
    }

    /** One iteration of `retain`: a closed receiver drops its sender, an open one gets the status. */
    method SendOne(w: nat)
      requires Valid() && Enabled(View(), Send(w))
      modifies `channels, `workers
      ensures Valid() && View() == Apply(old(View()), Send(w))
    {
      hide Inv;
      StepKeepsInv(View(), Send(w));
      var wk := workers[w];
      var c := wk.todo[0];
      var ch := channels[c];
      if ch.alive {
        channels := channels[c := ch.(queue := ch.queue + [wk.status])];
        workers := workers[w := wk.(todo := wk.todo[1..], kept := wk.kept + [c])];
      } else {
        workers := workers[w := wk.(todo := wk.todo[1..])];
      }
    }

    /**
     The loop of `retain` under the lock. With room in every live channel it runs through, and
     is then the same as the protocol's sends one after the other.
     */
    method RetainSend(w: nat)
      requires Valid() && w < 2 && workers[w].Sending? && RoomFor(View(), w)
      modifies `channels, `workers
      ensures Valid() && workers[w].Sending? && workers[w].todo == []
      ensures var n := |old(workers)[w].todo|;
              ValidRun(old(View()), SendsOf(w, n)) && View() == After(old(View()), SendsOf(w, n))
    {
      hide Inv, Apply, Enabled, RoomFor;
      ghost var s0, n := View(), |workers[w].todo|;
      ghost var k := 0;
      assert SendsOf(w, 0) == [];
      while workers[w].todo != []
        invariant Valid() && workers[w].Sending? && RoomFor(View(), w)
        invariant k + |workers[w].todo| == n
        invariant ValidRun(s0, SendsOf(w, k)) && View() == After(s0, SendsOf(w, k))
        decreases |workers[w].todo|
      {
        RoomLasts(View(), w);
        RunSnoc(s0, SendsOf(w, k), Send(w));
        assert SendsOf(w, k + 1) == SendsOf(w, k) + [Send(w)];
        SendOne(w);
        k := k + 1;
      }
    }

    /**
     `broadcast` and `finish_job` as one uninterrupted critical section: announce the next
     status, or the verdict when none is left, to every sender of the job.
     */
    method Broadcast(w: nat)
      requires Valid() && Enabled(View(), Begin(w)) && HasRoom(View(), workers[w].job.name)
      modifies this
      ensures Valid()
      ensures var s := old(View());
              var es := [Begin(w)] + SendsOf(w, |Senders(s, s.workers[w].job.name)|) + [End(w)];
              ValidRun(s, es) && View() == After(s, es)
    {
      hide Inv, RoomFor, HasRoom, After;
      ghost var s := View();
      BroadcastBegins(s, w);
      var wk := workers[w];
      var last := wk.emits == [];
      var status := NextStatus(wk);
      var senders := SendersOf(inFlight, wk.job.name);
      logs := if wk.job.id < |logs| then logs[wk.job.id := Logged(logs[wk.job.id], status, last)] else logs;
      workers := workers[w := Sending(wk.job, if last then [] else wk.emits[1..], wk.verdict, status, senders, [], last)];
      assert View() == Apply(s, Begin(w));
      RetainSend(w);
      RunConcat(s, [Begin(w)], SendsOf(w, |senders|));
      ghost var t := View();
      Release(w);
      RunSnoc(s, [Begin(w)] + SendsOf(w, |senders|), End(w));
    }

    /** Leave the critical section: store the surviving senders, or remove the finished name. */
    method Release(w: nat)
      requires Valid() && Enabled(View(), End(w))
      modifies `inFlight, `workers
      ensures Valid() && View() == Apply(old(View()), End(w))
    {
      hide Inv;
      StepKeepsInv(View(), End(w));
      var wk := workers[w];
      if wk.last {
        inFlight := inFlight - {wk.job.name};
        workers := workers[w := Idle];
      } else {
        if wk.job.name in inFlight {
          inFlight := inFlight[wk.job.name := inFlight[wk.job.name].(senders := wk.kept)];
        }
        workers := workers[w := Working(wk.job, wk.emits, wk.verdict)];
      }
    }

    /** The next pending status of a live handle, if there is one. */
    method TryRecv(c: nat) returns (status: Option<Status>)
      requires Valid() && c < |channels| && channels[c].alive
      modifies `channels
      ensures Valid()
      ensures old(channels)[c].queue == [] ==> status == None && View() == old(View())
      ensures old(channels)[c].queue != [] ==>
        status == Some(old(channels)[c].queue[0]) && View() == Apply(old(View()), Receive(c))
    {
      hide Inv;
      var ch := channels[c];
      if ch.queue == [] {
        return None;
      }
      StepKeepsInv(View(), Receive(c));
      status := Some(ch.queue[0]);
      channels := channels[c := ch.(received := ch.received + [ch.queue[0]], queue := ch.queue[1..])];
    }

    /**
     `wait` on a handle whose sender is gone: read until a terminal status, or until nothing is
     left and the channel counts as closed.
     */
    method Wait(c: nat) returns (status: Status)
      requires Valid() && c < |channels| && channels[c].alive
      modifies `channels
      ensures Valid() && |channels| == |old(channels)|
      ensures status == PoolSafety.WaitOn(old(channels)[c].queue)
      ensures channels[c].received + channels[c].queue == old(channels)[c].received + old(channels)[c].queue
      ensures forall d :: 0 <= d < |channels| && d != c ==> channels[d] == old(channels)[d]
    {
      hide Inv;
      while channels[c].queue != []
        invariant Valid() && |channels| == |old(channels)| && channels[c].alive
        invariant PoolSafety.WaitOn(channels[c].queue) == PoolSafety.WaitOn(old(channels)[c].queue)
        invariant channels[c].received + channels[c].queue == old(channels)[c].received + old(channels)[c].queue
        invariant forall d :: 0 <= d < |channels| && d != c ==> channels[d] == old(channels)[d]
        decreases |channels[c].queue|
      {
        var ch := channels[c];
        assert ch.received + [ch.queue[0]] + ch.queue[1..] == ch.received + ch.queue;
        var next := TryRecv(c);
        if Terminal(next.value) {
          return next.value;
        }
      }
      status := PoolSafety.CHANNEL_CLOSED;
    }

    /** The caller lets go of its handle. */
    method DropHandle(c: nat)
      requires Valid() && c < |channels| && channels[c].alive
      modifies `channels
      ensures Valid() && View() == Apply(old(View()), Drop(c))
    {
      hide Inv;
      StepKeepsInv(View(), Drop(c));
      channels := channels[c := channels[c].(alive := false)];
    }
  }
}
