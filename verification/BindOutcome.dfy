/** What can still become of a lockdown: from which states the bound context can ever become active at the client, and
    what holds for good where it cannot. */
module BindOutcome {
  import opened Octets
  import opened Address
  import opened Context
  import opened BindProtocol
  import opened BindSafety
  import opened BindTheorems

  /** Connected, with a peer, and the bound context not active at the client. */
  predicate Inactive(s: State) {
    s.connected && s.peer.Some? && BOUND !in s.client.contexts
  }

  function Proposal(s: State): Capsule
    requires s.peer.Some?
  {
    AssignContext(BOUND, Compressed(s.peer.value))
  }

  /** A proposal of the bound context is on its way to the relay. */
  predicate Outstanding(s: State)
    requires s.peer.Some?
  {
    Proposal(s) in s.queue || Proposal(s) in s.toRelay
  }

  /** The pump is gone, or the relay has given the one answer it gives and that ACK is not on its way any more. */
  predicate Hopeless(s: State) {
    s.ended || (BOUND in s.relay.contexts && AckContext(BOUND) !in s.toClient)
  }

  /** While the pump runs, a pending bound context has its ASSIGN on the way or at the relay, even where the queue was
      full: what fills it then are proposals. */
  predicate Proposed(s: State) {
    && (BOUND in s.client.pending ==> BOUND !in s.client.contexts)
    && (BOUND in s.client.pending && !s.ended ==> s.peer.Some? && (Outstanding(s) || BOUND in s.relay.contexts))
  }

  /** Before the bound context is active, the client sends nothing but proposals of it. */
  lemma OnlyProposals(s: State, c: Capsule)
    requires Inv(s) && Inactive(s) && (c in s.queue || c in s.toRelay)
    ensures c == Proposal(s)
  {
    assert Outbound(s, c);
  }

  lemma RelayTakes(s: State)
    requires Inv(s) && Inactive(s) && s.toRelay != []
    ensures var t := Apply(s, RelayCapsule);
            && t == s.(relay := t.relay, toRelay := s.toRelay[1..], toClient := t.toClient)
            && BOUND in t.relay.contexts
            && t.toClient == (if BOUND in s.relay.contexts then s.toClient else s.toClient + [AckContext(BOUND)])
  {
    OnlyProposals(s, s.toRelay[0]);
  }

  lemma ProposedCapsule(s: State, step: Step)
    requires Inv(s) && Proposed(s) && Enabled(s, step) && (step.RelayCapsule? || step.PumpCapsule?)
    ensures Proposed(Apply(s, step))
  {
    if BOUND in s.client.pending && !s.ended {
      assert Inactive(s);
      if step.RelayCapsule? {
        RelayTakes(s);
      } else {
        OnlyProposals(s, s.queue[0]);
      }
    }
  }

  lemma ProposedStep(s: State, step: Step)
    requires Inv(s) && Proposed(s) && Enabled(s, step)
    ensures Proposed(Apply(s, step))
  {
    if step.RelayCapsule? || step.PumpCapsule? {
      ProposedCapsule(s, step);
    } else if step.ClientCapsule? || step.PumpEnds? {
    } else if step.EngageBegin? || step.EngageAbandon? || step.EngageClose? || step.EngageFinish? {
      ProposedEngage(s, step);
    } else if step.EngageObserve? || step.EngageTimeout? || step.EngageDrop? {
      WaitingQuiet(s, step);
    } else {
      DatagramsQuiet(s, step);
    }
  }

  lemma ProposedEngage(s: State, step: Step)
    requires Inv(s) && Proposed(s) && Enabled(s, step)
    requires step.EngageBegin? || step.EngageAbandon? || step.EngageClose? || step.EngageFinish?
    ensures Proposed(Apply(s, step))
  {
    if step.EngageBegin? {
      BeginPends(s, step.task, step.uncompressed);
    }
  }

  /** The first critical section of an `engage` that finds the bound context neither active nor pending. */
  lemma BeginPends(s: State, task: nat, u: ContextId)
    requires Inv(s) && Enabled(s, EngageBegin(task, u))
    ensures var t := Apply(s, EngageBegin(task, u));
            if BOUND in s.client.contexts || BOUND in s.client.pending then t == s
            else
              && u == OPEN && t.client.contexts == s.client.contexts && BOUND in t.client.pending
              && t == s.(client := t.client, queue := t.queue, engages := t.engages)
              && t.queue == (if Takes(s) then s.queue + [Proposal(s)] else s.queue)
              && (t.engages != s.engages ==> Takes(s))
              && (!s.ended ==> Outstanding(t))
  {
    assert OPEN in s.client.contexts ==> OPEN in s.client.UncompressedIds();
    assert forall id :: id in s.client.UncompressedIds() ==> id == OPEN;
    if BOUND in s.client.contexts {
      assert BOUND in s.client.CompressedFor(s.peer.value);
    } else {
      assert s.client.CompressedFor(s.peer.value) == {};
      if s.queue != [] {
        OnlyProposals(s, s.queue[0]);
      }
    }
  }

  lemma ProposedNext(s: State, t: State)
    requires Inv(s) && Proposed(s) && Next(s, t)
    ensures Proposed(t)
  {
    var step :| Enabled(s, step) && t == Apply(s, step);
    ProposedStep(s, step);
  }

  lemma {:induction false} ProposedRun(run: seq<State>, i: nat)
    requires IsRun(run) && i < |run|
    ensures Inv(run[i]) && Proposed(run[i])
  {
    RunInv(run, i);
    if i > 0 {
      ProposedRun(run, i - 1);
      assert Follows(run, i - 1);
      ProposedNext(run[i - 1], run[i]);
    }
  }

  /** Steps that leave both tables, both capsule directions and the pump alone. */
  predicate Quiet(s: State, t: State) {
    && t.client == s.client && t.relay == s.relay && t.queue == s.queue && t.toRelay == s.toRelay
    && t.toClient == s.toClient && t.connected == s.connected && t.ended == s.ended && (s.peer.Some? ==> t.peer == s.peer)
  }

  lemma DatagramsQuiet(s: State, step: Step)
    requires Enabled(s, step)
    requires step.ClientSend? || step.RelayReceive? || step.NetworkReceive? || step.ClientReceive? || step.PollReceive?
    ensures Quiet(s, Apply(s, step)) && Apply(s, step).engages == s.engages
  {
  }

  lemma WaitingQuiet(s: State, step: Step)
    requires Enabled(s, step) && (step.EngageObserve? || step.EngageTimeout? || step.EngageDrop?)
    ensures Quiet(s, Apply(s, step))
  {
  }

  predicate StaysHopeless(s: State, t: State) {
    Inactive(t) && t.peer == s.peer && Hopeless(t) && (s.ended ==> t.ended)
  }

  /** Steps of the capsule streams. */
  lemma HopelessCapsule(s: State, step: Step)
    requires Inv(s) && Inactive(s) && Hopeless(s) && Enabled(s, step)
    requires step.RelayCapsule? || step.ClientCapsule? || step.PumpCapsule?
    ensures StaysHopeless(s, Apply(s, step))
  {
    if step.RelayCapsule? {
      RelayTakes(s);
    }
  }

  /** Steps of `engage` on the client's table and queue, and the pump's end. */
  lemma HopelessEngage(s: State, step: Step)
    requires Inv(s) && Inactive(s) && Hopeless(s) && Enabled(s, step)
    requires step.EngageBegin? || step.EngageAbandon? || step.EngageClose? || step.EngageFinish? || step.PumpEnds?
    ensures StaysHopeless(s, Apply(s, step))
  {
    if step.EngageBegin? {
      BeginPends(s, step.task, step.uncompressed);
    }
  }

  /** Nothing either end does leads out of a hopeless state. */
  lemma HopelessStep(s: State, step: Step)
    requires Inv(s) && Inactive(s) && Hopeless(s) && Enabled(s, step)
    ensures StaysHopeless(s, Apply(s, step))
  {
    if step.RelayCapsule? || step.ClientCapsule? || step.PumpCapsule? {
      HopelessCapsule(s, step);
    } else if step.EngageBegin? || step.EngageAbandon? || step.EngageClose? || step.EngageFinish? || step.PumpEnds? {
      HopelessEngage(s, step);
    } else if step.EngageObserve? || step.EngageTimeout? || step.EngageDrop? {
      WaitingQuiet(s, step);
    } else {
      DatagramsQuiet(s, step);
    }
  }

  lemma HopelessNext(s: State, t: State)
    requires Inv(s) && Inactive(s) && Hopeless(s) && Next(s, t)
    ensures Inv(t) && StaysHopeless(s, t)
  {
    var step :| Enabled(s, step) && t == Apply(s, step);
    StepInv(s, step);
    HopelessStep(s, step);
  }

  lemma HopelessFollows(run: seq<State>, i: nat)
    requires IsRun(run) && i + 1 < |run| && Inactive(run[i]) && Hopeless(run[i])
    ensures StaysHopeless(run[i], run[i + 1])
  {
    RunInv(run, i);
    assert Follows(run, i);
    HopelessNext(run[i], run[i + 1]);
  }

  lemma {:induction false} HopelessRun(run: seq<State>, i: nat, j: nat)
    requires IsRun(run) && i <= j < |run| && Inactive(run[i]) && Hopeless(run[i])
    ensures StaysHopeless(run[i], run[j])
    decreases j - i
  {
    if i < j {
      HopelessRun(run, i, j - 1);
      HopelessFollows(run, j - 1);
    }
  }

  /** For the rest of the run: the bound context stays inactive at the client and no `engage` completes. Where the relay
      has the context, everything it frames for the peer is rejected; where the pump is gone, no later `engage` gets past
      its first critical section or reaches the relay. */
  lemma HopelessForever(run: seq<State>, i: nat, j: nat, payload: Octets, id: ContextId, task: nat, u: ContextId)
    requires IsRun(run) && i <= j < |run| && Inactive(run[i]) && Hopeless(run[i])
    ensures StaysHopeless(run[i], run[j])
    ensures var s := run[j];
            && (forall t :: t in s.engages ==> s.engages[t].phase == Waiting || s.engages[t].phase == TimedOut)
            && (BOUND in s.relay.contexts && id in s.relay.Framings(s.peer.value) ==>
                  Receive(s.client, s.qsid, Framed(s.relay, s.qsid, s.peer.value, payload, id)) == None)
            && (s.ended && Enabled(s, EngageBegin(task, u)) ==>
                  Apply(s, EngageBegin(task, u)) == s.(client := Apply(s, EngageBegin(task, u)).client))
  {
    HopelessRun(run, i, j);
    RunInv(run, j);
    HopelessNow(run[j], payload, id, task, u);
  }

  lemma HopelessNow(s: State, payload: Octets, id: ContextId, task: nat, u: ContextId)
    requires Inv(s) && Inactive(s) && Hopeless(s)
    ensures forall t :: t in s.engages ==> s.engages[t].phase == Waiting || s.engages[t].phase == TimedOut
    ensures BOUND in s.relay.contexts && id in s.relay.Framings(s.peer.value) ==>
              Receive(s.client, s.qsid, Framed(s.relay, s.qsid, s.peer.value, payload, id)) == None
    ensures s.ended && Enabled(s, EngageBegin(task, u)) ==>
              Apply(s, EngageBegin(task, u)) == s.(client := Apply(s, EngageBegin(task, u)).client)
  {
    if BOUND in s.relay.contexts && id in s.relay.Framings(s.peer.value) {
      assert BOUND in s.relay.CompressedFor(s.peer.value);
      ReceiveWire(s.client, s.qsid, id, s.relay.contexts[id], s.peer.value, payload);
    }
    if Enabled(s, EngageBegin(task, u)) {
      BeginPends(s, task, u);
    }
  }

  /** A continuation from `s`. */
  ghost predicate Path(path: seq<State>, s: State) {
    path != [] && path[0] == s && forall i {:trigger Follows(path, i)} :: 0 <= i < |path| - 1 ==> Follows(path, i)
  }

  lemma PathStart(s: State, t: State, path: seq<State>)
    requires Next(s, t) && Path(path, t)
    ensures Path([s] + path, s)
  {
    var all := [s] + path;
    forall i | 0 <= i < |all| - 1
      ensures Follows(all, i)
    {
      if i > 0 {
        assert Follows(path, i - 1);
        assert all[i] == path[i - 1] && all[i + 1] == path[i];
      }
    }
  }

  lemma Steps(s: State, step: Step)
    requires Inv(s) && Enabled(s, step)
    ensures Next(s, Apply(s, step)) && Inv(Apply(s, step))
  {
    StepInv(s, step);
  }

  /** An ACK on its way to a pending context makes it active. */
  lemma {:induction false} AckArrives(s: State) returns (path: seq<State>)
    requires Inv(s) && Inactive(s) && !s.ended && BOUND in s.client.pending && AckContext(BOUND) in s.toClient
    ensures Path(path, s) && BOUND in path[|path| - 1].client.contexts
    decreases |s.toClient|
  {
    var t := Apply(s, ClientCapsule);
    Steps(s, ClientCapsule);
    assert s.toClient == [s.toClient[0]] + s.toClient[1..];
    var rest := [t];
    if s.toClient[0] != AckContext(BOUND) {
      rest := AckArrives(t);
    }
    PathStart(s, t, rest);
    path := [s] + rest;
  }

  /** A proposal on its way to a relay without the context is answered. */
  lemma ProposalArrives(s: State) returns (path: seq<State>)
    requires Inv(s) && Inactive(s) && !s.ended && BOUND in s.client.pending && BOUND !in s.relay.contexts && Outstanding(s)
    ensures Path(path, s) && BOUND in path[|path| - 1].client.contexts
  {
    if s.toRelay != [] {
      path := RelayAnswers(s);
    } else {
      var t := Apply(s, PumpCapsule);
      Steps(s, PumpCapsule);
      var rest := RelayAnswers(t);
      PathStart(s, t, rest);
      path := [s] + rest;
    }
  }

  lemma RelayAnswers(s: State) returns (path: seq<State>)
    requires Inv(s) && Inactive(s) && !s.ended && BOUND in s.client.pending && BOUND !in s.relay.contexts && s.toRelay != []
    ensures Path(path, s) && BOUND in path[|path| - 1].client.contexts
  {
    var t := Apply(s, RelayCapsule);
    RelayTakes(s);
    Steps(s, RelayCapsule);
    var rest := AckArrives(t);
    PathStart(s, t, rest);
    path := [s] + rest;
  }

  lemma PendingActivates(s: State) returns (path: seq<State>)
    requires Inv(s) && Proposed(s) && Inactive(s) && !Hopeless(s) && BOUND in s.client.pending
    ensures Path(path, s) && BOUND in path[|path| - 1].client.contexts
  {
    if AckContext(BOUND) in s.toClient {
      path := AckArrives(s);
    } else {
      path := ProposalArrives(s);
    }
  }

  lemma Activates(s: State) returns (path: seq<State>)
    requires Inv(s) && Proposed(s) && Inactive(s) && !Hopeless(s)
    ensures Path(path, s) && BOUND in path[|path| - 1].client.contexts
  {
    if BOUND in s.client.pending {
      path := PendingActivates(s);
    } else {
      var step := EngageBegin(0, OPEN);
      assert OPEN in s.client.UncompressedIds();
      assert s.engages == map[];
      Steps(s, step);
      ProposedStep(s, step);
      BeginPends(s, 0, OPEN);
      var t := Apply(s, step);
      var rest := PendingActivates(t);
      PathStart(s, t, rest);
      path := [s] + rest;
    }
  }

  lemma {:induction false} PathHopeless(path: seq<State>, s: State, i: nat)
    requires Inv(s) && Inactive(s) && Hopeless(s) && Path(path, s) && i < |path|
    ensures Inv(path[i]) && Inactive(path[i]) && Hopeless(path[i])
  {
    if i > 0 {
      PathHopeless(path, s, i - 1);
      assert Follows(path, i - 1);
      HopelessNext(path[i - 1], path[i]);
    }
  }

  /** In any reachable state the bound context can still become active at the client, on some continuation, exactly when
      the state is not hopeless. */
  lemma LockdownPossibleExactly(run: seq<State>, i: nat)
    requires IsRun(run) && i < |run| && Inactive(run[i])
    ensures (exists path: seq<State> :: Path(path, run[i]) && BOUND in path[|path| - 1].client.contexts) <==> !Hopeless(run[i])
  {
    ProposedRun(run, i);
    var s := run[i];
    if Hopeless(s) {
      forall path: seq<State> | Path(path, s)
        ensures BOUND !in path[|path| - 1].client.contexts
      {
        PathHopeless(path, s, |path| - 1);
      }
    } else {
      var path := Activates(s);
    }
  }

  /** What only giving up takes back: whoever has proposed the bound context keeps it, and the relay's answer is on its way
      until it has been heard. */
  predicate Kept(s: State) {
    && (s.peer.Some? && (Outstanding(s) || BOUND in s.relay.contexts) ==>
          BOUND in s.client.pending || BOUND in s.client.contexts)
    && (BOUND in s.relay.contexts ==> AckContext(BOUND) in s.toClient || BOUND in s.client.contexts)
  }

  lemma KeptRelay(s: State)
    requires Inv(s) && Kept(s) && s.toRelay != []
    ensures Kept(RelayNext(s))
  {
    assert s.toRelay == [s.toRelay[0]] + s.toRelay[1..];
    assert Outbound(s, s.toRelay[0]);
  }

  lemma KeptClient(s: State)
    requires Inv(s) && Kept(s) && s.toClient != []
    ensures Kept(ClientNext(s))
  {
    assert s.toClient == [s.toClient[0]] + s.toClient[1..];
  }

  lemma KeptPump(s: State)
    requires Kept(s) && Enabled(s, PumpCapsule)
    ensures Kept(Apply(s, PumpCapsule))
  {
    assert s.queue == [s.queue[0]] + s.queue[1..];
  }

  lemma KeptEngage(s: State, step: Step)
    requires Inv(s) && Kept(s) && Enabled(s, step) && (step.EngageBegin? || step.EngageClose? || step.EngageFinish?)
    ensures Kept(Apply(s, step))
  {
    if step.EngageBegin? {
      BeginPends(s, step.task, step.uncompressed);
    }
  }

  lemma KeptQuiet(s: State, t: State)
    requires Inv(s) && Kept(s) && Quiet(s, t)
    ensures Kept(t)
  {
    assert t.peer.Some? && Outstanding(t) ==> Outbound(s, Proposal(t));
  }

  lemma KeptStep(s: State, step: Step)
    requires Inv(s) && Kept(s) && Enabled(s, step) && !step.EngageAbandon?
    ensures Kept(Apply(s, step))
  {
    if step.RelayCapsule? {
      KeptRelay(s);
    } else if step.ClientCapsule? {
      KeptClient(s);
    } else if step.PumpCapsule? {
      KeptPump(s);
    } else if step.EngageBegin? || step.EngageClose? || step.EngageFinish? {
      KeptEngage(s, step);
    } else if !step.PumpEnds? {
      if step.EngageObserve? || step.EngageTimeout? || step.EngageDrop? {
        WaitingQuiet(s, step);
      } else {
        DatagramsQuiet(s, step);
      }
      KeptQuiet(s, Apply(s, step));
    }
  }

  lemma KeptNext(s: State, t: State) returns (task: nat)
    requires Inv(s) && Kept(s) && Next(s, t)
    ensures Kept(t) || (InPhase(s, task, TimedOut) && t == Apply(s, EngageAbandon(task)))
  {
    task := 0;
    var step :| Enabled(s, step) && t == Apply(s, step);
    if step.EngageAbandon? {
      task := step.task;
    } else {
      KeptStep(s, step);
    }
  }

  /** Step `k` of the run is an `engage` giving up after its timeout. */
  predicate GivesUp(run: seq<State>, k: nat, task: nat) {
    && k + 1 < |run| && InPhase(run[k], task, TimedOut) && run[k + 1] == Apply(run[k], EngageAbandon(task))
  }

  lemma {:induction false} KeptUntil(run: seq<State>, i: nat) returns (k: nat, task: nat)
    requires IsRun(run) && i < |run|
    ensures Kept(run[i]) || (k < i && GivesUp(run, k, task))
  {
    if i == 0 {
      k, task := 0, 0;
    } else {
      k, task := KeptUntil(run, i - 1);
      if Kept(run[i - 1]) {
        k, task := StillKept(run, i);
      }
    }
  }

  lemma StillKept(run: seq<State>, i: nat) returns (k: nat, task: nat)
    requires IsRun(run) && 0 < i < |run| && Kept(run[i - 1])
    ensures Kept(run[i]) || (k < i && GivesUp(run, k, task))
  {
    RunInv(run, i - 1);
    assert Follows(run, i - 1);
    k := i - 1;
    task := KeptNext(run[i - 1], run[i]);
  }

  /** With the pump alive, only the ACK timeout leads into a hopeless state: some `engage` has given up before. */
  lemma OnlyTimeoutStrands(run: seq<State>, i: nat) returns (k: nat, task: nat)
    requires IsRun(run) && i < |run| && Inactive(run[i]) && !run[i].ended && Hopeless(run[i])
    ensures k < i && GivesUp(run, k, task)
  {
    k, task := KeptUntil(run, i);
  }

  /** A full queue alone is not hopeless: before the bound context is active a queued capsule proposes it. */
  lemma QueuedIsOutstanding(run: seq<State>, i: nat)
    requires IsRun(run) && i < |run| && Inactive(run[i]) && run[i].queue != []
    ensures Outstanding(run[i])
  {
    RunInv(run, i);
    OnlyProposals(run[i], run[i].queue[0]);
  }

  /** The ACK timeout can lead there: the relay has answered, the client has given up, and the ACK finds nothing. */
  lemma TimeoutStrands(p: SocketAddr, payload: Octets) returns (run: seq<State>)
    ensures IsRun(run) && |run| == 9
    ensures var s := run[8]; Inactive(s) && s.peer == Some(p) && Hopeless(s) && BOUND in s.relay.contexts
    ensures InPhase(run[6], 0, TimedOut) && run[7] == Apply(run[6], EngageAbandon(0))
  {
    var window := AckWindow(p, payload);
    var s5 := window[5];
    var s6 := Apply(s5, EngageTimeout(0));
    var s7 := Apply(s6, EngageAbandon(0));
    var s8 := Apply(s7, ClientCapsule);
    RunOn(window, [s5, s6, s7, s8]);
    run := window + [s5, s6, s7, s8][1..];
  }

  /** So can the end of the pump: an `engage` begun after it is refused and leaves the context pending, never sent. */
  lemma RefusalStrands(p: SocketAddr) returns (run: seq<State>)
    ensures IsRun(run) && |run| == 5
    ensures var s := run[4]; Inactive(s) && s.peer == Some(p) && Hopeless(s) && BOUND in s.client.pending
                             && !Outstanding(s) && BOUND !in s.relay.contexts
    ensures run[2].connected && run[3] == Apply(run[2], PumpEnds)
    ensures Enabled(run[3], EngageBegin(0, OPEN)) && run[4] == Apply(run[3], EngageBegin(0, OPEN))
  {
    var start := Connects(p);
    RunInv(start, 2);
    var s2 := start[2];
    var s3 := Apply(s2, PumpEnds);
    StepInv(s2, PumpEnds);
    assert OPEN in s3.client.UncompressedIds();
    BeginPends(s3, 0, OPEN);
    var s4 := Apply(s3, EngageBegin(0, OPEN));
    RunOn(start, [s2, s3, s4]);
    run := start + [s2, s3, s4][1..];
  }
}
