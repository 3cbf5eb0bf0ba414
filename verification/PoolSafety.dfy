/** What callers and handles of the install pool may rely on, in every interleaving. */
module PoolSafety {
  import opened Wrappers
  import opened Manifest
  import opened InstallStatus
  import opened PoolProtocol
  import opened PoolInvariants

  /** A name is registered exactly when there is exactly one job token for it. */
  lemma ExactlyOneJobPerName(s: Pool, name: Name)
    requires Reachable(s)
    ensures name in s.inFlight ==>
      exists j: Job :: j.name == name && Tokens(s)[j] == 1 && forall k: Job :: k in Tokens(s) && k.name == name ==> k == j
    ensures name !in s.inFlight ==> forall k: Job :: k in Tokens(s) ==> k.name != name
  {
    ReachableInv(s);
    if name in s.inFlight {
      var j := s.accepted[s.inFlight[name].job];
      assert Tokens(s)[j] == 1;
      forall k | k in Tokens(s) && k.name == name ensures k == j {
        assert IsOpen(s.inFlight, k);
      }
    }
  }

  /**
   A caller that names a tool in flight starts nothing, whatever its spec: its handle follows
   the job already there from this moment on, and still ends in that job's verdict.
   */
  lemma SecondCallerJoins(s: Pool, name: Name, spec: ToolSpec)
    requires Reachable(s) && Enabled(s, Install(name, spec)) && name in s.inFlight
    ensures var s' := Apply(s, Install(name, spec));
            var ch := s'.channels[|s.channels|];
            && Tokens(s') == Tokens(s) && s'.accepted == s.accepted
            && ch.job < |s.accepted| == |s.logs| && s.accepted[ch.job] in Tokens(s) && s.accepted[ch.job].name == name
            && ch.attach == |History(s, ch.job)| && s.logs[ch.job].verdict == None
            && |s.channels| in Senders(s', name)
  {
    ReachableInv(s);
    OpenEntry(s, name);
    assert s.accepted[s.inFlight[name].job] in Tokens(s);
    assert Tokens(Apply(s, Install(name, spec))) == Tokens(s);
  }

  /** Once a job is over, the next call for its name starts a new job with its own spec. */
  lemma NextCallerStartsFresh(s: Pool, name: Name, spec: ToolSpec)
    requires Reachable(s) && Enabled(s, Install(name, spec)) && name !in s.inFlight
    ensures var s' := Apply(s, Install(name, spec));
            var j := Job(|s.accepted|, name, spec);
            && Tokens(s') == Tokens(s) + multiset{j} && j !in s.accepted && j in s'.pending
            && s'.channels[|s.channels|] == Channel(j.id, 0, [], [], true)
            && Senders(s', name) == [|s.channels|]
  {
    ReachableInv(s);
    LogsFacts(s);
    assert Tokens(Apply(s, Install(name, spec))) == Tokens(s) + multiset{Job(|s.accepted|, name, spec)};
  }

  /** Between broadcasts a live handle has received or has queued the history since it attached. */
  lemma HandleSeesSuffix(s: Pool, c: nat)
    requires Reachable(s) && LockFree(s) && c < |s.channels| && s.channels[c].alive
    ensures var ch := s.channels[c];
            ch.attach <= |History(s, ch.job)| && ch.received + ch.queue == History(s, ch.job)[ch.attach..]
  {
    ReachableInv(s);
    var ch := s.channels[c];
    assert StreamOk(s.logs[ch.job], Owed(s.workers[0], c) + Owed(s.workers[1], c), ch);
  }

  /** The channel is closed from the pool's side: no registry entry holds its sender. */
  ghost predicate SenderGone(s: Pool, c: nat) {
    forall n :: n in s.inFlight ==> c !in s.inFlight[n].senders
  }

  lemma SubscribedWhileOpen(s: Pool, c: nat)
    requires SubscribedOk(s.inFlight, s.accepted, s.workers, s.channels)
    requires c < |s.channels| && s.channels[c].alive && SenderGone(s, c) && s.channels[c].job < |s.accepted|
    ensures !IsOpen(s.inFlight, s.accepted[s.channels[c].job])
  {
    assert Subscribed(s.inFlight, s.accepted, s.workers, s.channels[c], c);
  }

  lemma NothingOwed(s: Pool, w: nat, c: nat)
    requires w < 2 && SenderGone(s, c) && WorkerOk(s.inFlight, s.logs, s.workers[w])
    ensures Owed(s.workers[w], c) == []
  {
  }

  /**
   No channel closes without a verdict: when a live handle's sender is gone, its job has
   announced one, and the handle's stream ends with it and contains no other terminal.
   */
  lemma NoCloseWithoutVerdict(s: Pool, c: nat) returns (verdict: Status)
    requires Reachable(s) && c < |s.channels| && s.channels[c].alive && SenderGone(s, c)
    ensures s.channels[c].job < |s.logs| && s.logs[s.channels[c].job].verdict == Some(verdict)
    ensures Concluded(s.channels[c].received + s.channels[c].queue, verdict)
  {
    hide Reachable, Inv, StreamsOk, StreamOk, SubscribedOk, WorkerOk, LogsOk, SenderGone, Concluded, Owed;
    ReachableInv(s);
    ClosedParts(s, c);
    verdict := ClosedStream(s.logs[s.channels[c].job], s.channels[c]);
  }

  /** What the invariant says of a live handle whose sender is gone. */
  lemma ClosedParts(s: Pool, c: nat)
    requires Inv(s) && c < |s.channels| && s.channels[c].alive && SenderGone(s, c)
    ensures var ch := s.channels[c];
      && ch.job < |s.logs| && StreamOk(s.logs[ch.job], [], ch)
      && s.logs[ch.job].verdict.Some? && Concluded(s.logs[ch.job].history, s.logs[ch.job].verdict.value)
  {
    hide StreamOk, SubscribedOk, WorkerOk, SenderGone, Concluded, Owed, SingleFlight, WaitingOk, SendersOk;
    LogsFacts(s);
    ChannelsFacts(s);
    SubscribedWhileOpen(s, c);
    NothingOwed(s, 0, c);
    NothingOwed(s, 1, c);
    var owed := Owed(s.workers[0], c) + Owed(s.workers[1], c);
    assert StreamOk(s.logs[s.channels[c].job], owed, s.channels[c]) && owed == [];
  }

  lemma ClosedStream(log: Log, ch: Channel) returns (verdict: Status)
    requires ch.alive && StreamOk(log, [], ch) && log.verdict.Some? && Concluded(log.history, log.verdict.value)
    ensures log.verdict == Some(verdict) && Concluded(ch.received + ch.queue, verdict)
  {
    hide Concluded;
    verdict := log.verdict.value;
    SuffixConcludes(log.history, ch.attach, verdict);
    assert ch.received + ch.queue + [] == ch.received + ch.queue;
  }

  lemma SuffixConcludes(history: seq<Status>, from: nat, verdict: Status)
    requires Concluded(history, verdict) && from < |history|
    ensures Concluded(history[from..], verdict)
  {
    forall i | 0 <= i < |history| - from && Terminal(history[from..][i]) ensures history[from..][i] == verdict {
      assert history[from..][i] == history[from + i];
    }
  }

  // ── wait ───────────────────────────────────────────────────────────────

  const CHANNEL_CLOSED: Status := Failed("<channel closed>")

  /** What `wait` returns when the pending statuses are these and the channel then closes. */
  function WaitOn(pending: seq<Status>): Status {
    if pending == [] then CHANNEL_CLOSED
    else if Terminal(pending[0]) then pending[0]
    else WaitOn(pending[1..])
  }

  lemma {:induction false} WaitFindsVerdict(pending: seq<Status>, verdict: Status)
    requires Concluded(pending, verdict)
    ensures WaitOn(pending) == verdict
  {
    if !Terminal(pending[0]) {
      assert |pending| > 1;
      SuffixConcludes(pending, 1, verdict);
      WaitFindsVerdict(pending[1..], verdict);
    }
  }

  /**
   `wait` on a closed handle returns the job's verdict exactly when something is left to read;
   it reports a closed channel only to a reader that has already taken the verdict.
   */
  lemma WaitReturnsTheVerdict(s: Pool, c: nat) returns (verdict: Status)
    requires Reachable(s) && c < |s.channels| && s.channels[c].alive && SenderGone(s, c)
    ensures s.channels[c].job < |s.logs| && s.logs[s.channels[c].job].verdict == Some(verdict)
    ensures WaitOn(s.channels[c].queue) == if s.channels[c].queue == [] then CHANNEL_CLOSED else verdict
    ensures s.channels[c].queue == [] ==> verdict in s.channels[c].received
    ensures NoTerminal(s.channels[c].received) ==> s.channels[c].queue != []
  {
    verdict := NoCloseWithoutVerdict(s, c);
    var ch := s.channels[c];
    var stream := ch.received + ch.queue;
    assert stream[|stream| - 1] == verdict;
    if ch.queue != [] {
      SuffixConcludes(stream, |ch.received|, verdict);
      assert stream[|ch.received|..] == ch.queue;
      WaitFindsVerdict(ch.queue, verdict);
    } else {
      assert stream == ch.received;
    }
  }

  /** Every handle of one job is told the same verdict, whenever it attached. */
  lemma AllHandlesAgree(s: Pool, c: nat, d: nat)
    requires Reachable(s) && c < |s.channels| && d < |s.channels| && s.channels[c].job == s.channels[d].job
    requires s.channels[c].alive && SenderGone(s, c) && s.channels[c].queue != []
    requires s.channels[d].alive && SenderGone(s, d) && s.channels[d].queue != []
    ensures WaitOn(s.channels[c].queue) == WaitOn(s.channels[d].queue)
  {
    var v := WaitReturnsTheVerdict(s, c);
    var w := WaitReturnsTheVerdict(s, d);
  }
}
