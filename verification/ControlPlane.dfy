/** The tunnel control plane as a transition system: every session handler of src/session/handler.rs runs its setup, its
    ADDRESS_REQUEST and ROUTE_ADVERTISEMENT handling and its four-step teardown against the shared address pool, route
    table, engine registry and session table, interleaved in any order, with the idle reaper. One call on a shared
    structure is one step. */
module ControlPlane {
  import opened Octets
  import opened Address
  import opened Net
  import opened Session
  import P = Pool
  import R = Router

  datatype Config = Config(net4: IpNet, net6: Option<IpNet>, acceptRoutes: bool, maxSessions: nat) {
    predicate Valid() {
      net4.Valid() && net4.addr.V4? && (net6.Some? ==> net6.value.Valid() && net6.value.addr.V6?)
    }
  }

  /** Where a handler stands: the shared call it makes next. */
  datatype Phase =
    | Allocating4
    | Allocating6
    | Announcing
    | Installing(next: nat)
    | Publishing
    | Serving
    | Requesting(requests: seq<RequestedAddress>)
    | Inserting(granted: AssignedAddress, requests: seq<RequestedAddress>)
    | Replying
    | Releasing
    | RemovingRoutes
    | Unregistering
    | RemovingSession

  /** A handler and its own `assigned` vector. */
  datatype Task = Task(phase: Phase, addresses: seq<AssignedAddress>)

  datatype State = State(
    config: Config,
    pool: P.Pool,
    table: R.Table,
    tasks: map<SessionId, Task>,
    sessions: set<SessionId>,
    snapshots: map<SessionId, seq<AssignedAddress>>,
    registered: set<SessionId>)

  datatype Step =
    | Begin(s: SessionId)
    | Advance(s: SessionId)
    | AskAddresses(s: SessionId, requests: seq<RequestedAddress>)
    | AdvertiseRoutes(s: SessionId, ranges: seq<IpAddressRange>)
    | Close(s: SessionId)
    | Reap(s: SessionId)

  ghost function Init(config: Config): State
    requires config.Valid()
  {
    State(config, P.New(config.net4, config.net6), R.Table([], map[]), map[], {}, map[], {})
  }

  function To(st: State, s: SessionId, t: Task): State {
    st.(tasks := st.tasks[s := t])
  }

  function Append(addresses: seq<AssignedAddress>, a: Option<AssignedAddress>): seq<AssignedAddress> {
    if a.None? then addresses else addresses + [a.value]
  }

  /** One call of the handler of `s`, each leaving it at its next. */
  ghost function Allocates(st: State, s: SessionId, four: bool): State
    requires s in st.tasks && st.pool.Within()
  {
    var (p, a) := st.pool.Allocate(four, s);
    var addresses := Append(st.tasks[s].addresses, a);
    To(st.(pool := p), s,
       Task(if four then Allocating6 else if addresses == [] then Releasing else Announcing, addresses))
  }

  function Moves(st: State, s: SessionId, phase: Phase): State
    requires s in st.tasks
  {
    To(st, s, st.tasks[s].(phase := phase))
  }

  function Installs(st: State, s: SessionId, i: nat): State
    requires s in st.tasks && i < |st.tasks[s].addresses|
  {
    Moves(st.(table := st.table.InsertClient(st.tasks[s].addresses[i].ipAddress, s)), s, Installing(i + 1))
  }

  function Registers(st: State, s: SessionId): State
    requires s in st.tasks
  {
    Moves(st.(registered := st.registered + {s}), s, Publishing)
  }

  function Publishes(st: State, s: SessionId, phase: Phase): State
    requires s in st.tasks
  {
    Moves(st.(snapshots := st.snapshots[s := st.tasks[s].addresses]), s, phase)
  }

  ghost function Requests(st: State, s: SessionId, r: RequestedAddress, later: seq<RequestedAddress>): State
    requires s in st.tasks && st.pool.Within()
  {
    var (p, a) := st.pool.Request(s, r);
    Moves(st.(pool := p), s, if a.None? then Requesting(later) else Inserting(a.value, later))
  }

  function Inserts(st: State, s: SessionId, a: AssignedAddress, later: seq<RequestedAddress>): State
    requires s in st.tasks
  {
    To(st.(table := st.table.InsertClient(a.ipAddress, s)), s, Task(Requesting(later), st.tasks[s].addresses + [a]))
  }

  function Releases(st: State, s: SessionId): State
    requires s in st.tasks
  {
    Moves(st.(pool := st.pool.Release(s)), s, RemovingRoutes)
  }

  function RemovesRoutes(st: State, s: SessionId): State
    requires s in st.tasks
  {
    Moves(st.(table := st.table.RemoveSession(s)), s, Unregistering)
  }

  function Unregisters(st: State, s: SessionId): State
    requires s in st.tasks
  {
    Moves(st.(registered := st.registered - {s}), s, RemovingSession)
  }

  function Leaves(st: State, s: SessionId): State {
    st.(tasks := st.tasks - {s}, sessions := st.sessions - {s}, snapshots := st.snapshots - {s})
  }

  /** The client's routes replaced, if the operator accepts them. */
  ghost function Advertises(st: State, s: SessionId, ranges: seq<IpAddressRange>): State
    requires st.config.Valid()
  {
    if !st.config.acceptRoutes then st
    else st.(table := st.table.ReplaceRoutes(s, R.Entries(s, ranges, PoolNets(st.config.net4, st.config.net6))))
  }

  /** The next call of one handler. */
  ghost function Advanced(st: State, s: SessionId): State
    requires s in st.tasks && st.pool.Within()
  {
    match st.tasks[s].phase
    case Allocating4 => Allocates(st, s, true)
    case Allocating6 => Allocates(st, s, false)
    case Announcing => Moves(st, s, Installing(0))
    case Installing(i) => if i < |st.tasks[s].addresses| then Installs(st, s, i) else Registers(st, s)
    case Publishing => Publishes(st, s, Serving)
    case Serving => st
    case Requesting(requests) =>
      if requests == [] then Publishes(st, s, Replying) else Requests(st, s, requests[0], requests[1..])
    case Inserting(a, requests) => Inserts(st, s, a, requests)
    case Replying => Moves(st, s, Serving)
    case Releasing => Releases(st, s)
    case RemovingRoutes => RemovesRoutes(st, s)
    case Unregistering => Unregisters(st, s)
    case RemovingSession => Leaves(st, s)
  }

  ghost predicate SameTask(st: State, next: State, s: SessionId) {
    (s in next.tasks <==> s in st.tasks) && (s in st.tasks ==> next.tasks[s] == st.tasks[s])
  }

  lemma AdvanceElsewhere(st: State, u: SessionId, s: SessionId)
    requires u in st.tasks && st.pool.Within() && u != s
    ensures SameTask(st, Advanced(st, u), s)
  {
  }

  /** Where a handler awaits the stream and may end: any error, the client's FIN, or the reaper's signal. */
  predicate Awaits(p: Phase) {
    p.Allocating4? || p.Announcing? || p.Serving? || p.Replying?
  }

  ghost predicate Enabled(st: State, step: Step) {
    match step
    case Begin(s) => s !in st.tasks
    case Advance(s) => s in st.tasks
    case AskAddresses(s, _) => s in st.tasks && st.tasks[s].phase.Serving?
    case AdvertiseRoutes(s, _) => s in st.tasks && st.tasks[s].phase.Serving?
    case Close(s) => s in st.tasks && Awaits(st.tasks[s].phase)
    case Reap(s) => true
  }

  ghost function Apply(st: State, step: Step): State
    requires st.pool.Within() && st.config.Valid() && Enabled(st, step)
  {
    match step
    case Begin(s) =>
      if st.config.maxSessions > 0 && |st.sessions| >= st.config.maxSessions then st
      else To(st.(sessions := st.sessions + {s}, snapshots := st.snapshots[s := []]), s, Task(Allocating4, []))
    case Advance(s) => Advanced(st, s)
    case AskAddresses(s, requests) => Moves(st, s, Requesting(requests))
    case AdvertiseRoutes(s, ranges) => Advertises(st, s, ranges)
    case Close(s) => Moves(st, s, Releasing)
    case Reap(s) => st.(registered := st.registered - {s})
  }

  function Addresses(es: seq<AssignedAddress>): (r: seq<IpAddr>)
    ensures |r| == |es| && forall i :: 0 <= i < |es| ==> r[i] == es[i].ipAddress
  {
    seq(|es|, i requires 0 <= i < |es| => es[i].ipAddress)
  }

  predicate Released(p: Phase) {
    p.RemovingRoutes? || p.Unregistering? || p.RemovingSession?
  }

  predicate Unrouted(p: Phase) {
    p.Unregistering? || p.RemovingSession?
  }

  /** The handler has published all it has. */
  predicate Published(p: Phase) {
    p.Serving? || p.Replying?
  }

  /** A single-host assignment, which is all the pool hands out. */
  predicate Host(a: AssignedAddress) {
    a.prefixLength as int == Bits(a.ipAddress.V4?)
  }

  /** How many of a handler's addresses must be routed to it by now. */
  function Routed(t: Task): nat {
    match t.phase
    case Installing(i) => i
    case Publishing => |t.addresses|
    case Serving => |t.addresses|
    case Requesting(_) => |t.addresses|
    case Inserting(_, _) => |t.addresses|
    case Replying => |t.addresses|
    case _ => 0
  }

  /** What a handler at this point holds in the pool. */
  function Holding(t: Task): seq<IpAddr> {
    if Released(t.phase) then []
    else if t.phase.Inserting? then Addresses(t.addresses) + [t.phase.granted.ipAddress]
    else Addresses(t.addresses)
  }

  /** An installed route stays clear of the address pools. */
  ghost predicate Clear(config: Config, e: R.RouteEntry)
    requires config.Valid()
  {
    && e.prefix.Valid()
    && (forall ip :: config.net4.Contains(ip) ==> !e.prefix.Contains(ip))
    && (forall ip :: config.net6.Some? && config.net6.value.Contains(ip) ==> !e.prefix.Contains(ip))
  }

  /** A session without a handler has left no trace. */
  ghost predicate Absent(st: State, s: SessionId) {
    && st.pool.Held(s) == [] && s !in st.sessions && s !in st.snapshots && s !in st.registered
    && (forall a :: a in st.table.clients ==> st.table.clients[a] != s)
    && (forall e :: e in st.table.routes ==> e.sessionId != s)
  }

  ghost predicate Present(st: State, s: SessionId, t: Task)
    requires st.config.Valid()
  {
    && s in st.sessions && s in st.snapshots && st.snapshots[s] <= t.addresses
    && (Published(t.phase) ==> st.snapshots[s] == t.addresses)
    && st.pool.Held(s) == Holding(t)
    && (forall i :: 0 <= i < |t.addresses| ==> Host(t.addresses[i]))
    && (t.phase.Inserting? ==> Host(t.phase.granted))
    && (t.phase.RemovingSession? ==> s !in st.registered)
    && Routed(t) <= |t.addresses|
    && (forall i :: 0 <= i < Routed(t) ==>
          t.addresses[i].ipAddress in st.table.clients && st.table.clients[t.addresses[i].ipAddress] == s)
    && (forall a :: a in st.table.clients && st.table.clients[a] == s ==>
          !Unrouted(t.phase) && (Released(t.phase) || a in st.pool.Held(s)))
    && (forall e :: e in st.table.routes && e.sessionId == s ==> !Unrouted(t.phase) && Clear(st.config, e))
  }

  ghost predicate SessionInv(st: State, s: SessionId)
    requires st.config.Valid()
  {
    if s in st.tasks then Present(st, s, st.tasks[s]) else Absent(st, s)
  }

  ghost predicate SameNets(p: P.Pool, config: Config)
    requires config.Valid()
  {
    && p.v4.base == config.net4.Network() && p.v4.last == config.net4.Last() && p.v6.Some? == config.net6.Some?
    && (p.v6.Some? ==> p.v6.value.base == config.net6.value.Network() && p.v6.value.last == config.net6.value.Last())
  }

  ghost predicate Inv(st: State) {
    && st.config.Valid() && st.pool.Valid() && SameNets(st.pool, st.config)
    && (forall s: SessionId :: SessionInv(st, s))
  }

  /** A step of `s` leaves every other session's share of the state alone; it may take over a client-address route only
      from a session that no longer holds the address. */
  ghost predicate Confined(st: State, next: State, s: SessionId) {
    && next.config == st.config
    && (forall u: SessionId :: u != s ==>
          && (u in next.tasks <==> u in st.tasks) && (u in st.tasks ==> next.tasks[u] == st.tasks[u])
          && (u in next.snapshots <==> u in st.snapshots) && (u in st.snapshots ==> next.snapshots[u] == st.snapshots[u])
          && (u in next.registered ==> u in st.registered) && (u in next.sessions <==> u in st.sessions)
          && next.pool.Held(u) == st.pool.Held(u))
    && (forall a :: a in next.table.clients && next.table.clients[a] != s ==>
          a in st.table.clients && st.table.clients[a] == next.table.clients[a])
    && (forall a :: a in st.table.clients && st.table.clients[a] != s && a in st.pool.Held(st.table.clients[a]) ==>
          a in next.table.clients && next.table.clients[a] == st.table.clients[a])
    && (forall e :: e in next.table.routes && e.sessionId != s ==> e in st.table.routes)
  }

  lemma ConfinedKeeps(st: State, next: State, s: SessionId, u: SessionId)
    requires st.config.Valid() && Confined(st, next, s) && u != s && SessionInv(st, u)
    ensures SessionInv(next, u)
  {
    assert next.pool.Held(u) == st.pool.Held(u);
    if u in st.tasks {
      var t := st.tasks[u];
      forall i | 0 <= i < Routed(t)
        ensures t.addresses[i].ipAddress in next.table.clients && next.table.clients[t.addresses[i].ipAddress] == u
      {
        var a := t.addresses[i].ipAddress;
        assert Holding(t)[i] == a;
        assert a in st.pool.Held(u);
      }
    }
  }

  lemma StepKeeps(st: State, next: State, s: SessionId)
    requires Inv(st) && Confined(st, next, s) && next.pool.Valid() && SameNets(next.pool, next.config) && SessionInv(next, s)
    ensures Inv(next)
  {
    forall u: SessionId
      ensures SessionInv(next, u)
    {
      assert SessionInv(st, u);
      if u != s {
        ConfinedKeeps(st, next, s, u);
      }
    }
  }

  /** What any pool assignment to `s` means for the sessions. */
  lemma AssignedTo(p: P.Pool, q: P.Pool, s: SessionId, a: Option<AssignedAddress>)
    requires P.Assigns(p, s, q, a)
    ensures q.Held(s) == p.Held(s) + (if a.None? then [] else [a.value.ipAddress])
    ensures forall u: SessionId :: u != s ==> q.Held(u) == p.Held(u)
  {
  }

  lemma AddressesAppend(es: seq<AssignedAddress>, a: AssignedAddress)
    ensures Addresses(es + [a]) == Addresses(es) + [a.ipAddress]
  {
  }

  /** The handler of `s` around a pool assignment. */
  ghost predicate Receives(t: Task, n: Task, a: Option<AssignedAddress>) {
    && (a.Some? ==> Host(a.value))
    && !Released(t.phase) && !t.phase.Inserting? && !Released(n.phase) && !Published(n.phase) && Routed(n) <= Routed(t)
    && (if n.phase.Inserting? then a.Some? && a.value == n.phase.granted && n.addresses == t.addresses
        else n.addresses == Append(t.addresses, a))
  }

  lemma AllocationPresent(st: State, next: State, s: SessionId, a: Option<AssignedAddress>, t: Task, n: Task)
    requires st.config.Valid() && Present(st, s, t) && Receives(t, n, a) && P.Assigns(st.pool, s, next.pool, a)
    requires next == To(st.(pool := next.pool), s, n)
    ensures Present(next, s, n)
  {
    AssignedTo(st.pool, next.pool, s, a);
    if a.Some? {
      AddressesAppend(t.addresses, a.value);
    }
  }

  /** A step that changes only the pool, by an assignment to `s`, and the handler of `s`. */
  lemma AllocationStep(st: State, next: State, s: SessionId, a: Option<AssignedAddress>)
    requires Inv(st) && s in st.tasks && s in next.tasks && next == To(st.(pool := next.pool), s, next.tasks[s])
    requires next.pool.Valid() && SameNets(next.pool, st.config) && P.Assigns(st.pool, s, next.pool, a)
    requires Receives(st.tasks[s], next.tasks[s], a)
    ensures Inv(next)
  {
    assert SessionInv(st, s);
    AssignedTo(st.pool, next.pool, s, a);
    AllocationPresent(st, next, s, a, st.tasks[s], next.tasks[s]);
    StepKeeps(st, next, s);
  }

  /** A step that changes only the handler of `s`, and perhaps its snapshot and registration. */
  lemma LocalStep(st: State, next: State, s: SessionId)
    requires Inv(st) && s in st.tasks && s in next.tasks
    requires next == To(st.(snapshots := next.snapshots, registered := next.registered), s, next.tasks[s])
    requires s in next.snapshots && next.snapshots[s] <= next.tasks[s].addresses
    requires next.snapshots == st.snapshots[s := next.snapshots[s]]
    requires next.registered == st.registered + {s} || next.registered == st.registered - {s} || next.registered == st.registered
    requires var t, n := st.tasks[s], next.tasks[s];
             && n.addresses == t.addresses && !t.phase.Inserting? && !n.phase.Inserting?
             && Released(t.phase) == Released(n.phase) && Unrouted(t.phase) == Unrouted(n.phase) && Routed(n) <= Routed(t)
             && (n.phase.RemovingSession? ==> s !in next.registered)
             && (Published(n.phase) ==> next.snapshots[s] == n.addresses)
    ensures Inv(next)
  {
    assert SessionInv(st, s);
    assert Holding(next.tasks[s]) == Holding(st.tasks[s]);
    assert SessionInv(next, s);
    StepKeeps(st, next, s);
  }

  /** The handler of `s` around the routing of an address it holds. */
  ghost predicate Routes(t: Task, n: Task, a: IpAddr) {
    && !Released(t.phase) && !Released(n.phase) && !n.phase.Inserting? && !Published(n.phase)
    && Holding(n) == Holding(t) && t.addresses <= n.addresses
    && (forall i :: 0 <= i < |n.addresses| ==> Host(n.addresses[i]))
    && Routed(n) <= Routed(t) + 1 && Routed(n) <= |n.addresses|
    && (Routed(n) == Routed(t) + 1 ==> n.addresses[Routed(t)].ipAddress == a)
  }

  lemma RouteConfined(st: State, next: State, s: SessionId, a: IpAddr)
    requires st.pool.Inverse() && a in st.pool.Held(s) && s in next.tasks
    requires next == To(st.(table := st.table.InsertClient(a, s)), s, next.tasks[s])
    ensures Confined(st, next, s)
  {
    forall u: SessionId | u != s
      ensures a !in st.pool.Held(u)
    {
      P.HeldExactly(st.pool, s, a);
      P.HeldExactly(st.pool, u, a);
    }
  }

  lemma RoutePresent(st: State, next: State, s: SessionId, a: IpAddr, t: Task, n: Task)
    requires st.config.Valid() && Present(st, s, t) && a in st.pool.Held(s) && Routes(t, n, a)
    requires next == To(st.(table := st.table.InsertClient(a, s)), s, n)
    ensures Present(next, s, n)
  {
    var clients := next.table.clients;
    forall i | 0 <= i < Routed(n)
      ensures n.addresses[i].ipAddress in clients && clients[n.addresses[i].ipAddress] == s
    {
      if i < Routed(t) {
        assert t.addresses[i] == n.addresses[i];
      }
    }
  }

  /** Routing to `s` an address it holds. */
  lemma RouteStep(st: State, next: State, s: SessionId, a: IpAddr)
    requires Inv(st) && s in st.tasks && s in next.tasks && a in st.pool.Held(s)
    requires next == To(st.(table := st.table.InsertClient(a, s)), s, next.tasks[s])
    requires Routes(st.tasks[s], next.tasks[s], a)
    ensures Inv(next)
  {
    assert SessionInv(st, s);
    RouteConfined(st, next, s, a);
    RoutePresent(st, next, s, a, st.tasks[s], next.tasks[s]);
    StepKeeps(st, next, s);
  }

  lemma ReleasesConfined(st: State, s: SessionId)
    requires s in st.tasks
    ensures Confined(st, Releases(st, s), s)
  {
    forall u: SessionId | u != s
      ensures st.pool.Release(s).Held(u) == st.pool.Held(u)
    {
    }
  }

  lemma ReleasesInv(st: State, s: SessionId)
    requires Inv(st) && s in st.tasks && st.tasks[s].phase.Releasing?
    ensures Inv(Releases(st, s))
  {
    assert SessionInv(st, s);
    P.ReleaseValid(st.pool, s);
    ReleasesConfined(st, s);
    ReleasePresent(st, Releases(st, s), s, st.tasks[s]);
    StepKeeps(st, Releases(st, s), s);
  }

  lemma ReleasePresent(st: State, next: State, s: SessionId, t: Task)
    requires st.config.Valid() && Present(st, s, t) && t.phase.Releasing?
    requires next == To(st.(pool := st.pool.Release(s)), s, t.(phase := RemovingRoutes))
    ensures Present(next, s, t.(phase := RemovingRoutes))
  {
    assert next.pool.Held(s) == [];
  }

  lemma RemovesRoutesInv(st: State, s: SessionId)
    requires Inv(st) && s in st.tasks && st.tasks[s].phase.RemovingRoutes?
    ensures Inv(RemovesRoutes(st, s))
  {
    assert SessionInv(st, s);
    assert SessionInv(RemovesRoutes(st, s), s);
    StepKeeps(st, RemovesRoutes(st, s), s);
  }

  lemma LeavesInv(st: State, s: SessionId)
    requires Inv(st) && s in st.tasks && st.tasks[s].phase.RemovingSession?
    ensures Inv(Leaves(st, s))
  {
    assert SessionInv(st, s);
    assert SessionInv(Leaves(st, s), s);
    StepKeeps(st, Leaves(st, s), s);
  }

  lemma AllocateNets(st: State, four: bool, s: SessionId)
    requires Inv(st)
    ensures var (p, a) := st.pool.Allocate(four, s);
            p.Valid() && SameNets(p, st.config) && P.Assigns(st.pool, s, p, a) && (a.Some? ==> Host(a.value))
  {
    P.AllocateValid(st.pool, four, s);
    P.SameNet(st.pool, if four then P.AllocateV4(s) else P.AllocateV6(s));
  }

  lemma RequestNets(st: State, s: SessionId, r: RequestedAddress)
    requires Inv(st)
    ensures var (p, a) := st.pool.Request(s, r);
            p.Valid() && SameNets(p, st.config) && P.Assigns(st.pool, s, p, a) && (a.Some? ==> Host(a.value))
  {
    P.RequestValid(st.pool, s, r);
    P.SameNet(st.pool, P.ServeRequest(s, r));
  }

  lemma AllocatesInv(st: State, s: SessionId, four: bool)
    requires Inv(st) && s in st.tasks && st.tasks[s].phase == if four then Allocating4 else Allocating6
    ensures Inv(Allocates(st, s, four))
  {
    AllocateNets(st, four, s);
    AllocationStep(st, Allocates(st, s, four), s, st.pool.Allocate(four, s).1);
  }

  lemma InstallsInv(st: State, s: SessionId, i: nat)
    requires Inv(st) && s in st.tasks && st.tasks[s].phase == Installing(i) && i < |st.tasks[s].addresses|
    ensures Inv(Installs(st, s, i))
  {
    var t := st.tasks[s];
    assert SessionInv(st, s);
    assert Holding(t)[i] == t.addresses[i].ipAddress;
    RouteStep(st, Installs(st, s, i), s, t.addresses[i].ipAddress);
  }

  lemma RegistersInv(st: State, s: SessionId)
    requires Inv(st) && s in st.tasks && st.tasks[s].phase == Installing(|st.tasks[s].addresses|)
    ensures Inv(Registers(st, s))
  {
    assert SessionInv(st, s);
    LocalStep(st, Registers(st, s), s);
  }

  lemma PublishesInv(st: State, s: SessionId, phase: Phase)
    requires Inv(st) && s in st.tasks
    requires (st.tasks[s].phase.Publishing? && phase.Serving?) || (st.tasks[s].phase == Requesting([]) && phase.Replying?)
    ensures Inv(Publishes(st, s, phase))
  {
    assert SessionInv(st, s);
    LocalStep(st, Publishes(st, s, phase), s);
  }

  lemma RequestsInv(st: State, s: SessionId, r: RequestedAddress, later: seq<RequestedAddress>)
    requires Inv(st) && s in st.tasks && st.tasks[s].phase.Requesting?
    ensures Inv(Requests(st, s, r, later))
  {
    RequestNets(st, s, r);
    AllocationStep(st, Requests(st, s, r, later), s, st.pool.Request(s, r).1);
  }

  lemma InsertsInv(st: State, s: SessionId, a: AssignedAddress, later: seq<RequestedAddress>)
    requires Inv(st) && s in st.tasks && st.tasks[s].phase.Inserting? && st.tasks[s].phase.granted == a
    ensures Inv(Inserts(st, s, a, later))
  {
    var t := st.tasks[s];
    assert SessionInv(st, s);
    AddressesAppend(t.addresses, a);
    assert Holding(t)[|t.addresses|] == a.ipAddress;
    RouteStep(st, Inserts(st, s, a, later), s, a.ipAddress);
  }

  lemma UnregistersInv(st: State, s: SessionId)
    requires Inv(st) && s in st.tasks && st.tasks[s].phase.Unregistering?
    ensures Inv(Unregisters(st, s))
  {
    assert SessionInv(st, s);
    LocalStep(st, Unregisters(st, s), s);
  }

  lemma SetupInv(st: State, s: SessionId)
    requires Inv(st) && s in st.tasks
    requires match st.tasks[s].phase
             case Allocating4 | Allocating6 | Announcing | Installing(_) | Publishing => true
             case _ => false
    ensures Inv(Advanced(st, s))
  {
    match st.tasks[s].phase
    case Allocating4 => AllocatesInv(st, s, true);
    case Allocating6 => AllocatesInv(st, s, false);
    case Announcing => MovesInv(st, s, Installing(0));
    case Installing(i) =>
      assert SessionInv(st, s);
      if i < |st.tasks[s].addresses| {
        InstallsInv(st, s, i);
      } else {
        RegistersInv(st, s);
      }
    case Publishing => PublishesInv(st, s, Serving);
  }

  lemma RequestInv(st: State, s: SessionId)
    requires Inv(st) && s in st.tasks
    requires match st.tasks[s].phase
             case Requesting(_) | Inserting(_, _) | Replying => true
             case _ => false
    ensures Inv(Advanced(st, s))
  {
    match st.tasks[s].phase
    case Requesting(requests) =>
      if requests == [] {
        PublishesInv(st, s, Replying);
      } else {
        RequestsInv(st, s, requests[0], requests[1..]);
      }
    case Inserting(a, requests) => InsertsInv(st, s, a, requests);
    case Replying => MovesInv(st, s, Serving);
  }

  lemma AdvanceInv(st: State, s: SessionId)
    requires Inv(st) && s in st.tasks
    ensures Inv(Advanced(st, s))
  {
    match st.tasks[s].phase
    case Allocating4 | Allocating6 | Announcing | Installing(_) | Publishing => SetupInv(st, s);
    case Requesting(_) | Inserting(_, _) | Replying => RequestInv(st, s);
    case Serving =>
    case Releasing => ReleasesInv(st, s);
    case RemovingRoutes => RemovesRoutesInv(st, s);
    case Unregistering => UnregistersInv(st, s);
    case RemovingSession => LeavesInv(st, s);
  }

  lemma BeginInv(st: State, s: SessionId)
    requires Inv(st) && s !in st.tasks
    ensures Inv(Apply(st, Begin(s)))
  {
    var next := Apply(st, Begin(s));
    if next != st {
      assert SessionInv(st, s);
      assert SessionInv(next, s);
      StepKeeps(st, next, s);
    }
  }

  lemma AdvertiseInv(st: State, s: SessionId, ranges: seq<IpAddressRange>)
    requires Inv(st) && s in st.tasks && st.tasks[s].phase.Serving?
    ensures Inv(Advertises(st, s, ranges))
  {
    if st.config.acceptRoutes {
      var entries := R.Entries(s, ranges, PoolNets(st.config.net4, st.config.net6));
      forall e | e in entries
        ensures e.sessionId == s && Clear(st.config, e)
      {
        EntryClear(st.config, s, ranges, e);
      }
      ReplaceStep(st, s, entries);
    }
  }

  lemma ReplaceStep(st: State, s: SessionId, entries: seq<R.RouteEntry>)
    requires Inv(st) && s in st.tasks && st.tasks[s].phase.Serving?
    requires forall e :: e in entries ==> e.sessionId == s && Clear(st.config, e)
    ensures Inv(st.(table := st.table.ReplaceRoutes(s, entries)))
  {
    var next := st.(table := st.table.ReplaceRoutes(s, entries));
    assert SessionInv(st, s);
    assert Present(next, s, next.tasks[s]);
    StepKeeps(st, next, s);
  }

  lemma EntryClear(config: Config, s: SessionId, ranges: seq<IpAddressRange>, e: R.RouteEntry)
    requires config.Valid() && e in R.Entries(s, ranges, PoolNets(config.net4, config.net6))
    ensures Clear(config, e)
  {
    var nets := PoolNets(config.net4, config.net6);
    forall ip | nets[0].Contains(ip)
      ensures !e.prefix.Contains(ip)
    {
      R.EntriesAvoid(s, ranges, nets, e, 0, ip);
    }
    if config.net6.Some? {
      forall ip | nets[1].Contains(ip)
        ensures !e.prefix.Contains(ip)
      {
        R.EntriesAvoid(s, ranges, nets, e, 1, ip);
      }
    }
  }

  lemma ReapInv(st: State, s: SessionId)
    requires Inv(st)
    ensures Inv(Apply(st, Reap(s)))
  {
    var next := Apply(st, Reap(s));
    assert SessionInv(st, s);
    assert SessionInv(next, s);
    StepKeeps(st, next, s);
  }

  /** Every step of every handler and of the reaper keeps the invariant. */
  lemma StepInv(st: State, step: Step)
    requires Inv(st) && Enabled(st, step)
    ensures Inv(Apply(st, step))
  {
    match step
    case Begin(s) => BeginInv(st, s);
    case Advance(s) => AdvanceInv(st, s);
    case AdvertiseRoutes(s, ranges) => AdvertiseInv(st, s, ranges);
    case Reap(s) => ReapInv(st, s);
    case AskAddresses(s, requests) => MovesInv(st, s, Requesting(requests));
    case Close(s) => MovesInv(st, s, Releasing);
  }

  /** A handler that touches nothing shared. */
  lemma MovesInv(st: State, s: SessionId, p: Phase)
    requires Inv(st) && s in st.tasks && Awaits(st.tasks[s].phase)
    requires match p
             case Releasing => true
             case Requesting(_) => st.tasks[s].phase.Serving?
             case Installing(i) => st.tasks[s].phase.Announcing? && i == 0
             case Serving => st.tasks[s].phase.Replying?
             case _ => false
    ensures Inv(Moves(st, s, p))
  {
    assert SessionInv(st, s);
    LocalStep(st, Moves(st, s, p), s);
  }

  lemma InitInv(config: Config)
    requires config.Valid()
    ensures Inv(Init(config))
  {
  }

  /** A run: a state before and after every step. */
  ghost predicate IsRun(config: Config, states: seq<State>, steps: seq<Step>) {
    && config.Valid() && |states| == |steps| + 1 && states[0] == Init(config)
    && (forall i :: 0 <= i < |steps| ==>
          && states[i].config.Valid() && states[i].pool.Within() && Enabled(states[i], steps[i])
          && states[i + 1] == Apply(states[i], steps[i]))
  }

  lemma {:induction false} RunInv(config: Config, states: seq<State>, steps: seq<Step>, n: nat)
    requires IsRun(config, states, steps) && n < |states|
    ensures Inv(states[n])
    decreases n
  {
    if n == 0 {
      InitInv(config);
    } else {
      RunInv(config, states, steps, n - 1);
      StepInv(states[n - 1], steps[n - 1]);
    }
  }
}
