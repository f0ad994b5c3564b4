/** `RelayLockdown::engage` in one piece, src/p2p/relay_socket.rs, with the pump, the relay, the network and any other
    `engage` free to run between any two of its critical sections. Each section is one step of `BindProtocol`. */
module Engagement {
  import opened Octets
  import opened Address
  import opened Context
  import opened BindProtocol
  import opened BindSafety
  import opened BindTheorems
  import opened Lockdown

  /** The lockdown shared by its callers, with the protocol state it is part of. */
  class SharedLockdown {
    const lockdown: RelayLockdown
    ghost var proto: State

    ghost predicate Valid()
      reads this, lockdown, lockdown.contexts
    {
      lockdown.Abstracts(proto) && Inv(proto) && proto.connected
    }

    constructor (lockdown: RelayLockdown, ghost s: State)
      requires lockdown.Abstracts(s) && Inv(s) && s.connected
      ensures this.lockdown == lockdown && proto == s && Valid()
    {
      this.lockdown := lockdown;
      proto := s;
    }

    /** Whatever runs in between: the invariant, nothing a run never takes back, and the `engage` at hand where it was. */
    method Yield(ghost task: nat)
      requires Valid()
      modifies this, lockdown, lockdown.contexts
      ensures Valid() && Grows(old(proto), proto) && SameEngage(old(proto), proto, task)
    {
    }

    /** The ghost state follows a section that was one step. */
    ghost method Arrive(step: Step)
      requires Inv(proto) && proto.connected && Enabled(proto, step) && lockdown.Abstracts(Apply(proto, step))
      modifies this
      ensures Valid() && proto == Apply(old(proto), step) && Grows(old(proto), proto)
    {
      StepInv(proto, step);
      StepGrows(proto, step);
      proto := Apply(proto, step);
    }

    /** Wait for the pump to activate the context, at most `patience` wake-ups; then the timeout has struck. */
    method Await(id: ContextId, patience: nat, ghost task: nat) returns (activated: bool)
      requires Valid() && InPhase(proto, task, Waiting) && proto.engages[task].compressed == id
      modifies this, lockdown, lockdown.contexts
      ensures Valid() && Grows(old(proto), proto) && InPhase(proto, task, if activated then Activated else TimedOut)
      ensures proto.engages[task] == old(proto).engages[task].(phase := proto.engages[task].phase)
      ensures activated ==> id in proto.client.contexts
    {
      for n := 0 to patience
        invariant Valid() && Grows(old(proto), proto) && task in proto.engages && proto.engages[task] == old(proto).engages[task]
      {
        var binding := lockdown.contexts.BindingOf(id);
        if binding.Some? {
          Arrive(EngageObserve(task));
          return true;
        }
        Yield(task);
      }
      Arrive(EngageTimeout(task));
      return false;
    }

    /** `engage`. It answers with the peer only while the bound context is active, and then, if it closed the uncompressed
        context itself, that one is gone for good; it fails only with no peer or with the uncompressed context still
        open. Either way it leaves nothing of itself behind. */
    method Engage(patience: nat) returns (r: Option<SocketAddr>, ghost task: nat, ghost closed: bool)
      requires Valid()
      modifies this, lockdown, lockdown.contexts
      ensures Valid() && task !in proto.engages && Grows(old(proto), proto)
      ensures r.Some? ==> proto.peer == r && BOUND in proto.client.contexts
      ensures r.None? ==> proto.peer.None? || OPEN in proto.client.contexts
      ensures closed ==> r.Some? && OPEN !in proto.client.contexts
    {
      closed := false;
      task := if proto.engages == map[] then 0 else Unused(proto);
      ghost var s := proto;
      var outcome := lockdown.Begin(s, task);
      if s.peer.Some? {
        Arrive(EngageBegin(task, OPEN));
      }
      match outcome {
        case Engaged(peer) =>
          assert BOUND in s.client.CompressedFor(s.peer.value);
          return Some(peer), task, closed;
        case Refused =>
          return None, task, closed;
        case Proposed(id, uncompressed) =>
          r := Pursue(id, uncompressed, patience, task);
          closed := r.Some?;
      }
    }

    /** From the proposal on: wait, then close the uncompressed context or give the bound one up. */
    method Pursue(id: ContextId, uncompressed: ContextId, patience: nat, ghost task: nat) returns (r: Option<SocketAddr>)
      requires Valid() && proto.peer.Some? && InPhase(proto, task, Waiting)
      requires proto.engages[task].compressed == id && proto.engages[task].uncompressed == uncompressed
      modifies this, lockdown, lockdown.contexts
      ensures Valid() && task !in proto.engages && Grows(old(proto), proto)
      ensures r.Some? ==> proto.peer == r && BOUND in proto.client.contexts && OPEN !in proto.client.contexts
      ensures r.None? ==> OPEN in proto.client.contexts
    {
      r := lockdown.Peer();
      assert r == proto.peer;
      Yield(task);
      var activated := Await(id, patience, task);
      Yield(task);
      if !activated {
        GiveUp(id, task);
        return None;
      }
      var ok := Close(uncompressed, task);
      if !ok {
        return None;
      }
    }

    /** The wait timed out: forget the bound context. */
    method GiveUp(id: ContextId, ghost task: nat)
      requires Valid() && InPhase(proto, task, TimedOut) && proto.engages[task].compressed == id
      modifies this, lockdown, lockdown.contexts
      ensures Valid() && Grows(old(proto), proto) && task !in proto.engages
      ensures OPEN in proto.client.contexts && BOUND !in proto.client.contexts
    {
      ghost var s := proto;
      assert OPEN in s.client.contexts && s.engages[task].compressed == BOUND;
      lockdown.Abandon(id, s, task);
      Arrive(EngageAbandon(task));
    }

    /** The bound context is active: queue the CLOSE of the uncompressed one, then drop it locally. */
    method Close(uncompressed: ContextId, ghost task: nat) returns (ok: bool)
      requires Valid() && InPhase(proto, task, Activated) && proto.engages[task].uncompressed == uncompressed
      modifies this, lockdown, lockdown.contexts
      ensures Valid() && Grows(old(proto), proto) && task !in proto.engages && BOUND in proto.client.contexts
      ensures ok <==> OPEN !in proto.client.contexts
    {
      ghost var s := proto;
      ok := lockdown.SendClose(uncompressed, s, task);
      Arrive(EngageClose(task));
      if ok {
        Yield(task);
        DropUncompressed(uncompressed, task);
      }
    }

    method DropUncompressed(uncompressed: ContextId, ghost task: nat)
      requires Valid() && InPhase(proto, task, CloseQueued) && proto.engages[task].uncompressed == uncompressed
      modifies this, lockdown.contexts
      ensures Valid() && Grows(old(proto), proto) && task !in proto.engages
      ensures BOUND in proto.client.contexts && OPEN !in proto.client.contexts
    {
      ghost var s := proto;
      lockdown.Finish(uncompressed, s, task);
      Arrive(EngageFinish(task));
    }
  }

  ghost predicate SameEngage(s: State, t: State, task: nat) {
    (task in t.engages <==> task in s.engages) && (task in s.engages ==> t.engages[task] == s.engages[task])
  }

  /** A number no running `engage` has. */
  ghost function Unused(s: State): (task: nat)
    requires Exclusive(s) && s.engages != map[]
    ensures task !in s.engages
  {
    var used :| used in s.engages;
    used + 1
  }

  predicate IsOwn(step: Step, task: nat) {
    && (step.EngageBegin? || step.EngageObserve? || step.EngageTimeout? || step.EngageAbandon? || step.EngageDrop?
        || step.EngageClose? || step.EngageFinish?)
    && step.task == task
  }

  /** What `Yield` promises is what every other step of the protocol does. */
  lemma OthersLeaveAlone(s: State, step: Step, task: nat)
    requires Inv(s) && s.connected && Enabled(s, step) && !IsOwn(step, task)
    ensures var t := Apply(s, step); Inv(t) && t.connected && Grows(s, t) && SameEngage(s, t, task)
  {
    StepInv(s, step);
    StepGrows(s, step);
    EngageElsewhere(s, step, task);
  }

  lemma EngageElsewhere(s: State, step: Step, task: nat)
    requires Enabled(s, step) && !IsOwn(step, task)
    ensures SameEngage(s, Apply(s, step), task)
  {
  }
}
