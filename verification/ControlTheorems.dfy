/** What the control plane guarantees in every reachable state. */
module ControlTheorems {
  import opened Octets
  import opened Address
  import opened Net
  import opened Session
  import opened ControlPlane
  import Packet
  import P = Pool
  import R = Router

  /** A client-address route leads to the holder of the address, or to a session that has given the address back and not
      yet removed its routes. */
  lemma RoutesLeadToHolders(st: State, a: IpAddr)
    requires Inv(st) && a in st.table.clients
    ensures var s := st.table.clients[a];
            && s in st.tasks
            && ((a in st.pool.holders && st.pool.holders[a] == s) || st.tasks[s].phase.RemovingRoutes?)
  {
    var s := st.table.clients[a];
    assert SessionInv(st, s);
    P.HeldExactly(st.pool, s, a);
  }

  /** No handler is in the middle of anything. */
  ghost predicate Quiescent(st: State) {
    forall s :: s in st.tasks ==> st.tasks[s].phase.Serving?
  }

  /** With no handler mid-step the route map is the allocation map. */
  lemma QuiescentAgree(st: State)
    requires Inv(st) && Quiescent(st)
    ensures st.table.clients == st.pool.holders
  {
    forall a | a in st.table.clients
      ensures a in st.pool.holders && st.pool.holders[a] == st.table.clients[a]
    {
      RoutesLeadToHolders(st, a);
    }
    forall a | a in st.pool.holders
      ensures a in st.table.clients
    {
      HolderRouted(st, a);
    }
  }

  lemma HolderRouted(st: State, a: IpAddr)
    requires Inv(st) && Quiescent(st) && a in st.pool.holders
    ensures a in st.table.clients
  {
    var s := st.pool.holders[a];
    P.HeldExactly(st.pool, s, a);
    assert SessionInv(st, s);
    RoutedAll(st, s, st.tasks[s], a);
  }

  lemma RoutedAll(st: State, s: SessionId, t: Task, a: IpAddr)
    requires st.config.Valid() && Present(st, s, t) && t.phase.Serving? && a in st.pool.Held(s)
    ensures a in st.table.clients
  {
    var i :| 0 <= i < |Holding(t)| && Holding(t)[i] == a;
    assert t.addresses[i].ipAddress == a;
  }

  /** A single-host assignment admits exactly its own address as a source. */
  lemma HostCovers(e: AssignedAddress, src: IpAddr)
    requires Host(e)
    ensures Packet.Covers(e, src) <==> src == e.ipAddress
  {
    var net := IpNet(e.ipAddress, e.prefixLength);
    assert net.Size() == 1;
    assert net.Network() == e.ipAddress.Key();
  }

  /** A session before its release accepts as packet source only addresses it holds. */
  lemma AcceptsOwn(st: State, s: SessionId, info: Packet.PacketInfo)
    requires Inv(st) && s in st.tasks && !Released(st.tasks[s].phase) && s in st.snapshots
    requires Packet.ValidateSource(info, st.snapshots[s]).Ok?
    ensures info.src in st.pool.holders && st.pool.holders[info.src] == s
  {
    assert SessionInv(st, s);
    var t := st.tasks[s];
    var snapshot := st.snapshots[s];
    var i :| 0 <= i < |snapshot| && Packet.Covers(snapshot[i], info.src);
    assert snapshot[i] == t.addresses[i];
    HostCovers(snapshot[i], info.src);
    assert Holding(t)[i] == info.src;
    P.HeldExactly(st.pool, s, info.src);
  }

  /** A session in service accepts as packet source exactly the addresses it holds. */
  lemma AcceptsExactly(st: State, s: SessionId, info: Packet.PacketInfo)
    requires Inv(st) && s in st.tasks && Published(st.tasks[s].phase)
    ensures s in st.snapshots
    ensures Packet.ValidateSource(info, st.snapshots[s]).Ok? <==> info.src in st.pool.holders && st.pool.holders[info.src] == s
  {
    assert SessionInv(st, s);
    if Packet.ValidateSource(info, st.snapshots[s]).Ok? {
      AcceptsOwn(st, s, info);
    } else if info.src in st.pool.holders && st.pool.holders[info.src] == s {
      HeldAccepted(st, s, st.tasks[s], info);
    }
  }

  lemma HeldAccepted(st: State, s: SessionId, t: Task, info: Packet.PacketInfo)
    requires Inv(st) && Present(st, s, t) && Published(t.phase) && info.src in st.pool.holders && st.pool.holders[info.src] == s
    ensures Packet.ValidateSource(info, st.snapshots[s]).Ok?
  {
    P.HeldExactly(st.pool, s, info.src);
    var i :| 0 <= i < |Holding(t)| && Holding(t)[i] == info.src;
    HostCovers(t.addresses[i], info.src);
    Packet.SourceExactly(info, st.snapshots[s]);
  }

  /** No two sessions outside teardown accept the same packet source. */
  lemma SourcesExclusive(st: State, s: SessionId, u: SessionId, info: Packet.PacketInfo)
    requires Inv(st) && s in st.snapshots && u in st.snapshots
    requires s in st.tasks && !Released(st.tasks[s].phase) && u in st.tasks && !Released(st.tasks[u].phase)
    requires Packet.ValidateSource(info, st.snapshots[s]).Ok? && Packet.ValidateSource(info, st.snapshots[u]).Ok?
    ensures s == u
  {
    AcceptsOwn(st, s, info);
    AcceptsOwn(st, u, info);
  }

  /** Every prefix route is usable, belongs to a live session and stays clear of the pools. */
  lemma RoutesClear(st: State, e: R.RouteEntry)
    requires Inv(st) && e in st.table.routes
    ensures e.sessionId in st.tasks && Clear(st.config, e)
  {
    assert SessionInv(st, e.sessionId);
  }

  lemma RoutesValid(st: State)
    requires Inv(st)
    ensures R.ValidRoutes(st.table.routes)
  {
    forall i | 0 <= i < |st.table.routes|
      ensures st.table.routes[i].prefix.Valid()
    {
      RoutesClear(st, st.table.routes[i]);
    }
  }

  ghost predicate InPools(config: Config, ip: IpAddr)
    requires config.Valid()
  {
    config.net4.Contains(ip) || (config.net6.Some? && config.net6.value.Contains(ip))
  }

  /** What a route lookup answers in a reachable state. */
  ghost predicate LooksUp(st: State, dst: IpAddr, proto: Byte, r: Option<SessionId>)
    requires Inv(st)
  {
    RoutesValid(st);
    st.table.Answers(dst, proto, r)
  }

  /** A pool address is looked up in the client-address map alone: no advertised route can capture it. */
  lemma PoolLookup(st: State, dst: IpAddr, proto: Byte, r: Option<SessionId>)
    requires Inv(st) && InPools(st.config, dst) && LooksUp(st, dst, proto, r)
    ensures r == if dst in st.table.clients then Some(st.table.clients[dst]) else None
  {
    RoutesValid(st);
    forall i | 0 <= i < |st.table.routes|
      ensures !st.table.routes[i].Matches(dst, proto)
    {
      RoutesClear(st, st.table.routes[i]);
    }
  }

  /** With no handler mid-step a packet to a pool address goes to its holder, and to nobody when nobody holds it. */
  lemma DeliversToHolder(st: State, dst: IpAddr, proto: Byte, r: Option<SessionId>)
    requires Inv(st) && Quiescent(st) && InPools(st.config, dst) && LooksUp(st, dst, proto, r)
    ensures r == if dst in st.pool.holders then Some(st.pool.holders[dst]) else None
  {
    QuiescentAgree(st);
    PoolLookup(st, dst, proto, r);
  }

  /** With no handler mid-step every address that is held leads to its holder: no holder is ever cut off. */
  lemma HolderReached(st: State, a: IpAddr, proto: Byte, r: Option<SessionId>)
    requires Inv(st) && Quiescent(st) && a in st.pool.holders && LooksUp(st, a, proto, r)
    ensures InPools(st.config, a) && r == Some(st.pool.holders[a])
  {
    NetBounds(st.config.net4);
    DeliversToHolder(st, a, proto, r);
  }

  /** Anything the shared structures say of a session, they say of one with a handler. */
  lemma TracesLive(st: State, s: SessionId)
    requires Inv(st)
    requires || s in st.sessions || s in st.snapshots || s in st.registered
             || (exists a :: a in st.pool.holders && st.pool.holders[a] == s)
             || (exists a :: a in st.table.clients && st.table.clients[a] == s)
             || (exists e :: e in st.table.routes && e.sessionId == s)
    ensures s in st.tasks
  {
    assert SessionInv(st, s);
    if a :| a in st.pool.holders && st.pool.holders[a] == s {
      P.HeldExactly(st.pool, s, a);
    }
  }

  /** When the last handler is done nothing is left behind. */
  lemma NothingLeaks(st: State)
    requires Inv(st) && st.tasks == map[]
    ensures st.pool.holders == map[] && st.table == R.Table([], map[])
    ensures st.sessions == {} && st.snapshots == map[] && st.registered == {}
  {
    forall a
      ensures a !in st.pool.holders && a !in st.table.clients
    {
      if a in st.pool.holders {
        TracesLive(st, st.pool.holders[a]);
      } else if a in st.table.clients {
        TracesLive(st, st.table.clients[a]);
      }
    }
    if st.table.routes != [] {
      var e := st.table.routes[0];
      assert e in st.table.routes;
      TracesLive(st, e.sessionId);
    }
    forall s: SessionId
      ensures s !in st.sessions && s !in st.snapshots && s !in st.registered
    {
      if s in st.sessions || s in st.snapshots || s in st.registered {
        TracesLive(st, s);
      }
    }
  }

  /** ROUTE_ADVERTISEMENT with the operator's consent: the session's routes become those of the advertised ranges clear of the
      pools, and everybody else's stay. Without it nothing happens. */
  lemma AdvertisedInstalled(st: State, s: SessionId, ranges: seq<IpAddressRange>, u: SessionId)
    requires Inv(st) && Enabled(st, AdvertiseRoutes(s, ranges))
    ensures R.ValidNets(PoolNets(st.config.net4, st.config.net6))
    ensures var n := Apply(st, AdvertiseRoutes(s, ranges));
            if !st.config.acceptRoutes then n == st
            else
              && n == st.(table := n.table) && n.table.clients == st.table.clients
              && R.RoutesOf(n.table.routes, u) ==
                 if u == s then R.Entries(s, ranges, PoolNets(st.config.net4, st.config.net6)) else R.RoutesOf(st.table.routes, u)
  {
    if st.config.acceptRoutes {
      R.ReplaceExactly(st.table, s, R.Entries(s, ranges, PoolNets(st.config.net4, st.config.net6)), u);
    }
  }

  lemma RoutelessStep(st: State, step: Step)
    requires st.pool.Within() && st.config.Valid() && Enabled(st, step) && !st.config.acceptRoutes && st.table.routes == []
    ensures Apply(st, step).table.routes == [] && Apply(st, step).config == st.config
  {
  }

  /** Without the operator's consent no client ever routes anything but its own addresses. */
  lemma {:induction false} NoRoutesUnaccepted(config: Config, states: seq<State>, steps: seq<Step>, n: nat)
    requires IsRun(config, states, steps) && n < |states| && !config.acceptRoutes
    ensures states[n].table.routes == [] && states[n].config == config
    decreases n
  {
    if n > 0 {
      NoRoutesUnaccepted(config, states, steps, n - 1);
      RoutelessStep(states[n - 1], steps[n - 1]);
    }
  }

  /** What a handler has been given before the client asked for anything: at most one IPv4 and then at most one IPv6 address, under
      request id 0. */
  predicate Unprompted(t: Task) {
    match t.phase
    case Allocating4 => t.addresses == []
    case Allocating6 => |t.addresses| <= 1 && forall i :: 0 <= i < |t.addresses| ==> Given(t.addresses[i], true)
    case Announcing | Installing(_) | Publishing =>
      || (|t.addresses| == 1 && (Given(t.addresses[0], true) || Given(t.addresses[0], false)))
      || (|t.addresses| == 2 && Given(t.addresses[0], true) && Given(t.addresses[1], false))
    case _ => true
  }

  predicate Given(a: AssignedAddress, four: bool) {
    a.ipAddress.V4? == four && a == AddressEntry(0, if four then 4 else 6, a.ipAddress, if four then 32 else 128)
  }

  lemma UnpromptedAllocates(st: State, s: SessionId, four: bool)
    requires st.pool.Valid() && s in st.tasks && st.tasks[s].phase == (if four then Allocating4 else Allocating6)
    requires Unprompted(st.tasks[s])
    ensures Unprompted(Allocates(st, s, four).tasks[s])
  {
    P.AllocateValid(st.pool, four, s);
    AppendGiven(st.tasks[s], st.pool.Allocate(four, s).1, four);
  }

  lemma AppendGiven(t: Task, a: Option<AssignedAddress>, four: bool)
    requires t.phase == (if four then Allocating4 else Allocating6) && Unprompted(t) && (a.Some? ==> Given(a.value, four))
    ensures var addresses := Append(t.addresses, a);
            Unprompted(Task(if four then Allocating6 else if addresses == [] then Releasing else Announcing, addresses))
  {
  }

  lemma UnpromptedCall(st: State, s: SessionId)
    requires st.pool.Valid() && s in st.tasks && Unprompted(st.tasks[s])
    ensures s in Advanced(st, s).tasks ==> Unprompted(Advanced(st, s).tasks[s])
  {
    if st.tasks[s].phase.Allocating4? {
      UnpromptedAllocates(st, s, true);
    } else if st.tasks[s].phase.Allocating6? {
      UnpromptedAllocates(st, s, false);
    }
  }

  lemma UnpromptedStep(st: State, step: Step, s: SessionId)
    requires st.pool.Valid() && st.config.Valid() && Enabled(st, step) && (s in st.tasks ==> Unprompted(st.tasks[s]))
    ensures s in Apply(st, step).tasks ==> Unprompted(Apply(st, step).tasks[s])
  {
    if step == Advance(s) {
      UnpromptedCall(st, s);
    } else if step.Advance? {
      AdvanceElsewhere(st, step.s, s);
    }
  }

  /** Over every run, a handler that announces its first assignment has been given an address of each family that had one, IPv4
      first, and nothing else. */
  lemma {:induction false} FirstAssignment(config: Config, states: seq<State>, steps: seq<Step>, n: nat, s: SessionId)
    requires IsRun(config, states, steps) && n < |states|
    ensures s in states[n].tasks ==> Unprompted(states[n].tasks[s])
    decreases n
  {
    if n > 0 {
      FirstAssignment(config, states, steps, n - 1, s);
      RunInv(config, states, steps, n - 1);
      UnpromptedStep(states[n - 1], steps[n - 1], s);
    }
  }

  /** A handler past the registration of its sink, and not yet in teardown. */
  predicate InService(p: Phase) {
    p.Publishing? || p.Serving? || p.Requesting? || p.Inserting? || p.Replying?
  }

  ghost predicate Listed(st: State, s: SessionId) {
    s in st.tasks && InService(st.tasks[s].phase) ==> s in st.registered
  }

  lemma ListedStep(st: State, step: Step, s: SessionId)
    requires st.pool.Within() && st.config.Valid() && Enabled(st, step) && Listed(st, s) && step != Reap(s)
    ensures Listed(Apply(st, step), s)
  {
  }

  /** The reaper takes one session off, and nothing else. */
  lemma ReapedOnly(st: State, s: SessionId, u: SessionId)
    requires st.pool.Within() && st.config.Valid()
    ensures var n := Apply(st, Reap(s));
            n == st.(registered := n.registered) && (u in n.registered <==> u in st.registered && u != s)
  {
  }

  /** A session in service can be delivered to, unless the reaper has taken it off. */
  lemma {:induction false} ServingListed(config: Config, states: seq<State>, steps: seq<Step>, n: nat, s: SessionId)
    requires IsRun(config, states, steps) && n < |states| && Reap(s) !in steps[..n]
    ensures Listed(states[n], s)
    decreases n
  {
    if n > 0 {
      assert steps[n - 1] == steps[..n][n - 1];
      assert forall x :: x in steps[..n - 1] ==> x in steps[..n];
      ServingListed(config, states, steps, n - 1, s);
      ListedStep(states[n - 1], steps[n - 1], s);
    }
  }

  /** The session limit holds. */
  lemma {:induction false} SessionLimit(config: Config, states: seq<State>, steps: seq<Step>, n: nat)
    requires IsRun(config, states, steps) && n < |states|
    ensures states[n].config == config
    ensures config.maxSessions > 0 ==> |states[n].sessions| <= config.maxSessions
    decreases n
  {
    if n > 0 {
      SessionLimit(config, states, steps, n - 1);
      var st, next := states[n - 1], states[n];
      assert next == Apply(st, steps[n - 1]);
    }
  }

  /** All of it over every run: the statements above hold at every state of every interleaving. */
  lemma EveryRun(config: Config, states: seq<State>, steps: seq<Step>, n: nat, s: SessionId, u: SessionId,
                 info: Packet.PacketInfo)
    requires IsRun(config, states, steps) && n < |states|
    ensures var st := states[n];
            && (forall a :: a in st.table.clients ==>
                  || (a in st.pool.holders && st.pool.holders[a] == st.table.clients[a])
                  || (st.table.clients[a] in st.tasks && st.tasks[st.table.clients[a]].phase.RemovingRoutes?))
            && (Quiescent(st) ==> st.table.clients == st.pool.holders)
            && (s in st.snapshots && u in st.snapshots && s in st.tasks && u in st.tasks
                && !Released(st.tasks[s].phase) && !Released(st.tasks[u].phase)
                && Packet.ValidateSource(info, st.snapshots[s]).Ok? && Packet.ValidateSource(info, st.snapshots[u]).Ok?
                ==> s == u)
            && (s in st.tasks && Published(st.tasks[s].phase) ==>
                  && s in st.snapshots
                  && (Packet.ValidateSource(info, st.snapshots[s]).Ok? <==>
                      info.src in st.pool.holders && st.pool.holders[info.src] == s))
            && (forall e :: e in st.table.routes ==> st.config.Valid() && Clear(st.config, e))
  {
    var st := states[n];
    RunInv(config, states, steps, n);
    forall a | a in st.table.clients
      ensures || (a in st.pool.holders && st.pool.holders[a] == st.table.clients[a])
              || (st.table.clients[a] in st.tasks && st.tasks[st.table.clients[a]].phase.RemovingRoutes?)
    {
      RoutesLeadToHolders(st, a);
    }
    if Quiescent(st) {
      QuiescentAgree(st);
    }
    if s in st.snapshots && u in st.snapshots && s in st.tasks && u in st.tasks
       && !Released(st.tasks[s].phase) && !Released(st.tasks[u].phase)
       && Packet.ValidateSource(info, st.snapshots[s]).Ok? && Packet.ValidateSource(info, st.snapshots[u]).Ok? {
      SourcesExclusive(st, s, u, info);
    }
    if s in st.tasks && Published(st.tasks[s].phase) {
      AcceptsExactly(st, s, info);
    }
    forall e | e in st.table.routes
      ensures Clear(st.config, e)
    {
      RoutesClear(st, e);
    }
  }
}
