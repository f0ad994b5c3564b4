/** The data plane over the control plane: what a packet decision means in any reachable control state. */
module DataPlane {
  import opened Octets
  import opened Address
  import opened Session
  import opened ControlPlane
  import opened ControlTheorems
  import opened Engine
  import Packet

  /** A packet the engine hairpins to a pool address comes from an address its sender held when the snapshot `st` was
      taken, and goes to the session that holds its destination when the lookup is made in `at`, or to one that has given
      the destination up and not yet removed its routes; with no handler mid-step, to the holder. */
  lemma HairpinReachesHolder(st: State, at: State, c: Setting, from: SessionId, packet: Octets, route: Option<SessionId>)
    requires Inv(st) && from in st.tasks && !Released(st.tasks[from].phase) && from in st.snapshots
    requires Judge(c, from, st.snapshots[from], packet, route).ToSession?
    requires Inv(at) && Packet.Parse(packet).Ok? && InPools(at.config, Packet.Parse(packet).value.dst)
    requires LooksUp(at, Packet.Parse(packet).value.dst, Packet.Parse(packet).value.protocol, route)
    ensures var info := Packet.Parse(packet).value; var v := Judge(c, from, st.snapshots[from], packet, route);
            && info.src in st.pool.holders && st.pool.holders[info.src] == from
            && ((info.dst in at.pool.holders && at.pool.holders[info.dst] == v.target)
                || (v.target in at.tasks && at.tasks[v.target].phase.RemovingRoutes?))
            && (Quiescent(at) ==> info.dst in at.pool.holders && at.pool.holders[info.dst] == v.target)
  {
    var info := Packet.Parse(packet).value;
    JudgeExactly(c, from, st.snapshots[from], packet, route);
    AcceptsOwn(st, from, info);
    PoolLookup(at, info.dst, info.protocol, route);
    RoutesLeadToHolders(at, info.dst);
    if Quiescent(at) {
      QuiescentAgree(at);
    }
  }

  /** Each client call is judged by the snapshot of its session in some reachable control state. */
  ghost predicate Observed(sts: seq<State>, es: seq<Event>) {
    && |sts| == |es|
    && (forall j :: 0 <= j < |es| && es[j].FromClient? ==>
          Inv(sts[j]) && es[j].from in sts[j].snapshots && es[j].held == sts[j].snapshots[es[j].from])
  }

  /** The error was delivered, is addressed to the source it quotes, and its session, unless it was in teardown, was the
      holder of that source. */
  ghost predicate WentToHolder(st: State, l: Log, r: Report) {
    && (r.to, r.packet) in l.delivered && Packet.Parse(r.quoted).Ok? && Packet.Parse(r.packet).Ok?
    && Packet.Parse(r.packet).value.dst == Packet.Parse(r.quoted).value.src
    && (r.to in st.tasks && !Released(st.tasks[r.to].phase) ==>
          && Packet.Parse(r.quoted).value.src in st.pool.holders
          && st.pool.holders[Packet.Parse(r.quoted).value.src] == r.to)
  }

  /** Over any run of the engine beside the control plane: every ICMP error on record answers a call of its own, went to
      the session that made it, and that session then held the source it quotes. */
  lemma ErrorsReachHolders(sts: seq<State>, es: seq<Event>, ms: seq<Metrics>, ls: seq<Log>, i: nat) returns (calls: seq<nat>)
    requires Engine.IsRun(es, ms, ls) && Observed(sts, es) && i < |ls|
    ensures Answering(es, ls[i].reports, calls, i)
    ensures forall j :: 0 <= j < |calls| ==> WentToHolder(sts[calls[j]], ls[i], ls[i].reports[j])
  {
    calls := RunReports(es, ms, ls, i);
    RunConserved(es, ms, ls, i);
    forall j | 0 <= j < |calls|
      ensures WentToHolder(sts[calls[j]], ls[i], ls[i].reports[j])
    {
      assert Replied(es, ls[i].reports, calls, j);
      AnswerHeld(sts[calls[j]], es[calls[j]], ls[i], ls[i].reports[j]);
    }
  }

  lemma AnswerHeld(st: State, e: Event, l: Log, r: Report)
    requires Inv(st) && Answered(e, r) && r.to in st.snapshots && r.held == st.snapshots[r.to]
    requires Justified(r) && (r.to, r.packet) in l.delivered
    ensures WentToHolder(st, l, r)
  {
    if r.to in st.tasks && !Released(st.tasks[r.to].phase) {
      AcceptsOwn(st, r.to, Packet.Parse(r.quoted).value);
    }
  }

  /** A packet from the network to a pool address goes to its holder likewise. */
  lemma DispatchReachesHolder(st: State, c: Setting, packet: Octets, route: Option<SessionId>)
    requires Inv(st) && JudgeInbound(c, packet, route).Ok?
    requires Packet.Parse(packet).Ok? && InPools(st.config, Packet.Parse(packet).value.dst)
    requires LooksUp(st, Packet.Parse(packet).value.dst, Packet.Parse(packet).value.protocol, route)
    ensures var dst := Packet.Parse(packet).value.dst; var s := JudgeInbound(c, packet, route).value.0;
            && ((dst in st.pool.holders && st.pool.holders[dst] == s)
                || (s in st.tasks && st.tasks[s].phase.RemovingRoutes?))
            && (Quiescent(st) ==> dst in st.pool.holders && st.pool.holders[dst] == s)
  {
    var info := Packet.Parse(packet).value;
    InboundExactly(c, packet, route);
    PoolLookup(st, info.dst, info.protocol, route);
    RoutesLeadToHolders(st, info.dst);
    if Quiescent(st) {
      QuiescentAgree(st);
    }
  }

  /** No two sessions outside teardown can get the same packet forwarded. */
  lemma ForwardedOnce(st: State, c: Setting, s: SessionId, u: SessionId, packet: Octets, r: Option<SessionId>, q: Option<SessionId>)
    requires Inv(st) && s in st.tasks && u in st.tasks && !Released(st.tasks[s].phase) && !Released(st.tasks[u].phase)
    requires s in st.snapshots && u in st.snapshots
    requires !Judge(c, s, st.snapshots[s], packet, r).Silent? && !Judge(c, u, st.snapshots[u], packet, q).Silent?
    ensures s == u
  {
    SourcesExclusive(st, s, u, Packet.Parse(packet).value);
  }
}
