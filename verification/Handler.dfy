/** The session handler as the source writes it: `run_tunnel`, `handle_capsule` and the teardown of
    src/session/handler.rs over the shared structures, with every other handler and the reaper free to run between any
    two of its calls. Each call is one step of `ControlPlane`. */
module Handler {
  import opened Octets
  import opened Address
  import opened Net
  import opened Session
  import opened ControlPlane
  import A = AddressPool
  import C = CapsuleStream
  import P = Pool
  import R = Router

  /** At most one grant for each request, in the order of the requests and under their ids. */
  ghost predicate Replies(requests: seq<RequestedAddress>, granted: seq<AssignedAddress>) {
    if requests == [] then granted == []
    else
      var last := |requests| - 1;
      || Replies(requests[..last], granted)
      || (granted != [] && granted[|granted| - 1].requestId == requests[last].requestId
          && Replies(requests[..last], granted[..|granted| - 1]))
  }

  lemma RepliesNext(requests: seq<RequestedAddress>, i: nat, given: seq<AssignedAddress>, granted: seq<AssignedAddress>,
                    a: Option<AssignedAddress>)
    requires i < |requests| && Replies(requests[..i], granted)
    requires a.Some? ==> a.value.requestId == requests[i].requestId
    ensures Replies(requests[..i + 1], Append(granted, a))
    ensures Append(given + granted, a) == given + Append(granted, a) && requests[i..][1..] == requests[i + 1..]
  {
    assert requests[..i + 1][..i] == requests[..i];
    assert Append(granted, a)[..|granted|] == granted;
  }

  /** `SessionManager` in src/session/mod.rs: the session table and the snapshots the datagram path reads. */
  class SessionManager {
    const maxSessions: nat
    var sessions: set<SessionId>
    var snapshots: map<SessionId, seq<AssignedAddress>>

    constructor (maxSessions: nat)
      ensures this.maxSessions == maxSessions && sessions == {} && snapshots == map[]
    {
      this.maxSessions := maxSessions;
      sessions, snapshots := {}, map[];
    }

    method Insert(s: SessionId) returns (ok: bool)
      modifies this
      ensures ok <==> maxSessions == 0 || |old(sessions)| < maxSessions
      ensures sessions == if ok then old(sessions) + {s} else old(sessions)
      ensures snapshots == if ok then old(snapshots)[s := []] else old(snapshots)
    {
      if maxSessions > 0 && |sessions| >= maxSessions {
        return false;
      }
      snapshots := snapshots[s := []];
      sessions := sessions + {s};
      return true;
    }

    method SetAssigned(s: SessionId, addresses: seq<AssignedAddress>)
      modifies this`snapshots
      ensures snapshots == old(snapshots)[s := addresses]
    {
      snapshots := snapshots[s := addresses];
    }

    method Remove(s: SessionId)
      modifies this
      ensures sessions == old(sessions) - {s} && snapshots == old(snapshots) - {s}
    {
      sessions := sessions - {s};
      snapshots := snapshots - {s};
    }
  }

  /** `ProxyContext`, with a ghost record of where every handler stands. */
  class ProxyContext {
    const config: Config
    const pool: A.Pools
    const table: R.RouteTable
    const manager: SessionManager
    var registered: set<SessionId>
    ghost var tasks: map<SessionId, Task>
    ghost const Repr: set<object>

    ghost predicate Separate() {
      && pool.Separate() && pool.Repr <= Repr && this in Repr && table in Repr && manager in Repr
      && {this as object, table, manager} !! pool.Repr
      && manager.maxSessions == config.maxSessions
    }

    ghost function View(): State
      requires Separate()
      reads Repr
    {
      State(config, pool.View(), table.View(), tasks, manager.sessions, manager.snapshots, registered)
    }

    ghost predicate Valid()
      reads Repr
    {
      Separate() && Inv(View())
    }

    constructor (config: Config)
      requires config.Valid()
      ensures Valid() && fresh(Repr) && View() == Init(config)
    {
      this.config := config;
      var p := P.New(config.net4, config.net6);
      var pools := new A.Pools(p.v4, p.v6);
      var routes := new R.RouteTable();
      var sessions := new SessionManager(config.maxSessions);
      pool, table, manager := pools, routes, sessions;
      registered, tasks := {}, map[];
      Repr := {this, routes, sessions} + pools.Repr;
      new;
      InitInv(config);
    }

    /** Whatever other handlers and the reaper do: the invariant, and the handler of `s` where it was. */
    method Yield(ghost s: SessionId)
      requires Valid()
      modifies Repr
      ensures Valid() && (s in tasks <==> s in old(tasks)) && (s in tasks ==> tasks[s] == old(tasks)[s])
    {
    }

    /** The ghost record follows a call. */
    ghost method Arrive(next: State)
      requires Separate() && Inv(next) && View().(tasks := next.tasks) == next
      modifies this`tasks
      ensures Valid() && View() == next
    {
      tasks := next.tasks;
    }

    method Begin(s: SessionId) returns (ok: bool)
      requires Valid() && s !in tasks
      modifies Repr
      ensures Valid() && View() == Apply(old(View()), ControlPlane.Begin(s))
      ensures ok ==> s in tasks && tasks[s] == Task(Allocating4, [])
      ensures !ok ==> s !in tasks
    {
      BeginInv(View(), s);
      ok := manager.Insert(s);
      if ok {
        tasks := tasks[s := Task(Allocating4, [])];
      }
    }

    method Allocate(s: SessionId, four: bool) returns (a: Option<AssignedAddress>)
      requires Valid() && s in tasks && tasks[s].phase == if four then Allocating4 else Allocating6
      modifies Repr
      ensures Valid() && View() == Allocates(old(View()), s, four) && s in tasks
      ensures tasks[s].addresses == Append(old(tasks)[s].addresses, a)
      ensures tasks[s].phase == if four then Allocating6 else if tasks[s].addresses == [] then Releasing else Announcing
    {
      ghost var st := View();
      AllocatesInv(st, s, four);
      a := pool.Allocate(four, s);
      Arrive(Allocates(st, s, four));
    }

    method Install(s: SessionId, a: AssignedAddress, ghost i: nat)
      requires Valid() && s in tasks && tasks[s].phase == Installing(i) && i < |tasks[s].addresses| && tasks[s].addresses[i] == a
      modifies Repr
      ensures Valid() && View() == Installs(old(View()), s, i)
      ensures s in tasks && tasks[s] == old(tasks)[s].(phase := Installing(i + 1))
    {
      ghost var st := View();
      InstallsInv(st, s, i);
      table.InsertClientAddr(a.ipAddress, s);
      Arrive(Installs(st, s, i));
    }

    method Register(s: SessionId)
      requires Valid() && s in tasks && tasks[s].phase == Installing(|tasks[s].addresses|)
      modifies Repr
      ensures Valid() && View() == Registers(old(View()), s)
      ensures s in tasks && tasks[s] == old(tasks)[s].(phase := Publishing)
    {
      ghost var st := View();
      RegistersInv(st, s);
      registered := registered + {s};
      Arrive(Registers(st, s));
    }

    /** `set_assigned` after setup, or after the last request of a capsule. */
    method Publish(s: SessionId, addresses: seq<AssignedAddress>)
      requires Valid() && s in tasks && tasks[s].addresses == addresses
      requires tasks[s].phase == Publishing || tasks[s].phase == Requesting([])
      modifies Repr
      ensures Valid() && View() == Publishes(old(View()), s, if old(tasks)[s].phase.Publishing? then Serving else Replying)
      ensures s in tasks && tasks[s] == old(tasks)[s].(phase := if old(tasks)[s].phase.Publishing? then Serving else Replying)
    {
      ghost var st := View();
      PublishesInv(st, s, if st.tasks[s].phase.Publishing? then Serving else Replying);
      manager.SetAssigned(s, addresses);
      Arrive(Publishes(st, s, if st.tasks[s].phase.Publishing? then Serving else Replying));
    }

    /** A step of the handler that touches nothing shared. */
    ghost method Pass(s: SessionId, phase: Phase)
      requires Valid() && s in tasks
      requires if phase == Installing(0) then tasks[s].phase.Announcing? else phase.Serving? && tasks[s].phase.Replying?
      modifies this`tasks
      ensures Valid() && View() == Moves(old(View()), s, phase)
      ensures s in tasks && tasks[s] == old(tasks)[s].(phase := phase)
    {
      MovesInv(View(), s, phase);
      Arrive(Moves(View(), s, phase));
    }

    /** An error, FIN or reaper signal at an await. */
    ghost method End(s: SessionId)
      requires Valid() && s in tasks && Awaits(tasks[s].phase)
      modifies this`tasks
      ensures Valid() && View() == Moves(old(View()), s, Releasing)
      ensures s in tasks && tasks[s] == old(tasks)[s].(phase := Releasing)
    {
      MovesInv(View(), s, Releasing);
      Arrive(Moves(View(), s, Releasing));
    }

    method AllocateRequest(s: SessionId, r: RequestedAddress, ghost later: seq<RequestedAddress>)
      returns (a: Option<AssignedAddress>)
      requires Valid() && s in tasks && tasks[s].phase == Requesting([r] + later)
      modifies Repr
      ensures Valid() && View() == Requests(old(View()), s, r, later) && s in tasks
      ensures tasks[s] == old(tasks)[s].(phase := if a.None? then Requesting(later) else Inserting(a.value, later))
      ensures a.Some? ==> a.value.requestId == r.requestId
    {
      ghost var st := View();
      RequestsInv(st, s, r, later);
      a := pool.Request(s, r);
      Arrive(Requests(st, s, r, later));
    }

    method InsertGranted(s: SessionId, a: AssignedAddress, ghost later: seq<RequestedAddress>)
      requires Valid() && s in tasks && tasks[s].phase == Inserting(a, later)
      modifies Repr
      ensures Valid() && View() == Inserts(old(View()), s, a, later)
      ensures s in tasks && tasks[s] == Task(Requesting(later), old(tasks)[s].addresses + [a])
    {
      ghost var st := View();
      InsertsInv(st, s, a, later);
      table.InsertClientAddr(a.ipAddress, s);
      Arrive(Inserts(st, s, a, later));
    }

    /** One entry of ADDRESS_REQUEST: allocate, then route. */
    method Serve(s: SessionId, requests: seq<RequestedAddress>, ghost given: seq<AssignedAddress>)
      returns (a: Option<AssignedAddress>)
      requires Valid() && s in tasks && requests != [] && tasks[s] == Task(Requesting(requests), given)
      modifies Repr
      ensures Valid() && s in tasks && tasks[s] == Task(Requesting(requests[1..]), Append(given, a))
      ensures a.Some? ==> a.value.requestId == requests[0].requestId
    {
      a := AllocateRequest(s, requests[0], requests[1..]);
      if a.Some? {
        Yield(s);
        InsertGranted(s, a.value, requests[1..]);
      }
    }

    /** The entries of ADDRESS_REQUEST in turn. */
    method ServeEach(s: SessionId, requests: seq<RequestedAddress>, given: seq<AssignedAddress>)
      returns (granted: seq<AssignedAddress>)
      requires Valid() && s in tasks && tasks[s] == Task(Requesting(requests), given)
      modifies Repr
      ensures Valid() && s in tasks && tasks[s] == Task(Requesting([]), given + granted) && Replies(requests, granted)
    {
      granted := [];
      assert requests[0..] == requests && given + granted == given;
      for i := 0 to |requests|
        invariant Valid() && s in tasks && tasks[s] == Task(Requesting(requests[i..]), given + granted)
        invariant Replies(requests[..i], granted)
      {
        Yield(s);
        var a := Serve(s, requests[i..], given + granted);
        RepliesNext(requests, i, given, granted, a);
        granted := Append(granted, a);
      }
      assert requests[..|requests|] == requests && requests[|requests|..] == [];
    }

    /** ADDRESS_REQUEST: every entry in turn, then the full assignment is published and sent. */
    method ServeAll(s: SessionId, requests: seq<RequestedAddress>, given: seq<AssignedAddress>)
      returns (addresses: seq<AssignedAddress>)
      requires Valid() && s in tasks && tasks[s] == Task(Serving, given)
      modifies Repr
      ensures Valid() && s in tasks && tasks[s] == Task(Replying, addresses)
      ensures s in manager.snapshots && manager.snapshots[s] == addresses
      ensures given <= addresses && Replies(requests, addresses[|given|..])
    {
      MovesInv(View(), s, Requesting(requests));
      Arrive(Moves(View(), s, Requesting(requests)));
      var granted := ServeEach(s, requests, given);
      Yield(s);
      addresses := given + granted;
      Publish(s, addresses);
      assert addresses[|given|..] == granted;
    }

    /** ROUTE_ADVERTISEMENT: replace the session's routes if the operator accepts them. */
    method AcceptRoutes(s: SessionId, ranges: seq<IpAddressRange>)
      requires Valid() && s in tasks && tasks[s].phase.Serving?
      modifies Repr
      ensures Valid() && View() == Advertises(old(View()), s, ranges)
    {
      AdvertiseInv(View(), s, ranges);
      if config.acceptRoutes {
        var entries := R.EntriesFromClientRanges(s, ranges, PoolNets(config.net4, config.net6));
        table.ReplaceSessionRoutes(s, entries);
      }
    }

    /** `handle_capsule`; false when sending the reply failed. */
    method HandleCapsule(s: SessionId, c: C.Capsule, given: seq<AssignedAddress>)
      returns (addresses: seq<AssignedAddress>, ok: bool)
      requires Valid() && s in tasks && tasks[s] == Task(Serving, given)
      modifies Repr
      ensures Valid() && s in tasks && tasks[s] == Task(if ok then Serving else Releasing, addresses)
      ensures if c.AddressRequest? then given <= addresses && Replies(c.requestedAddresses, addresses[|given|..])
              else ok && addresses == given
    {
      addresses, ok := given, true;
      match c {
        case AddressRequest(requests) =>
          addresses := ServeAll(s, requests, given);
          Yield(s);
          ok := *;
          if ok {
            Pass(s, Serving);
          } else {
            End(s);
          }
        case RouteAdvertisement(ranges) =>
          AcceptRoutes(s, ranges);
        case AddressAssign(_) =>
        case Unknown(_, _) =>
      }
    }

    /** The unprompted assignment: one address of each family that has one. */
    method AssignBoth(s: SessionId) returns (addresses: seq<AssignedAddress>)
      requires Valid() && s in tasks && tasks[s] == Task(Allocating4, [])
      modifies Repr
      ensures Valid() && s in tasks && tasks[s] == Task(if addresses == [] then Releasing else Announcing, addresses)
    {
      var a := Allocate(s, true);
      addresses := Append([], a);
      Yield(s);
      a := Allocate(s, false);
      addresses := Append(addresses, a);
    }

    /** Forwarding state for the assigned addresses, then the snapshot. */
    method InstallAll(s: SessionId, addresses: seq<AssignedAddress>)
      requires Valid() && s in tasks && tasks[s] == Task(Installing(0), addresses)
      modifies Repr
      ensures Valid() && s in tasks && tasks[s] == Task(Serving, addresses)
    {
      for i := 0 to |addresses|
        invariant Valid() && s in tasks && tasks[s] == Task(Installing(i), addresses)
      {
        Yield(s);
        Install(s, addresses[i], i);
      }
      Yield(s);
      Register(s);
      Yield(s);
      Publish(s, addresses);
    }

    /** `run_tunnel`, given the capsules the client will have sent: set up, serve, stop at the first failure. */
    method RunTunnel(s: SessionId, capsules: seq<C.Capsule>)
      requires Valid() && s in tasks && tasks[s] == Task(Allocating4, [])
      modifies Repr
      ensures Valid() && s in tasks && tasks[s].phase.Releasing?
    {
      var failed: bool := *;
      if failed {
        End(s);
        return;
      }
      var addresses := AssignBoth(s);
      Yield(s);
      if addresses == [] {
        return;
      }
      failed := *;
      if failed {
        End(s);
        return;
      }
      Pass(s, Installing(0));
      InstallAll(s, addresses);
      for i := 0 to |capsules|
        invariant Valid() && s in tasks && tasks[s] == Task(Serving, addresses)
      {
        Yield(s);
        var ok;
        addresses, ok := HandleCapsule(s, capsules[i], addresses);
        if !ok {
          return;
        }
      }
      Yield(s);
      End(s);
    }

    method ReleaseAddresses(s: SessionId)
      requires Valid() && s in tasks && tasks[s].phase.Releasing?
      modifies Repr
      ensures Valid() && View() == Releases(old(View()), s) && s in tasks && tasks[s].phase.RemovingRoutes?
    {
      ghost var st := View();
      ReleasesInv(st, s);
      pool.Release(s);
      Arrive(Releases(st, s));
    }

    method RemoveRoutes(s: SessionId)
      requires Valid() && s in tasks && tasks[s].phase.RemovingRoutes?
      modifies Repr
      ensures Valid() && View() == RemovesRoutes(old(View()), s) && s in tasks && tasks[s].phase.Unregistering?
    {
      ghost var st := View();
      RemovesRoutesInv(st, s);
      table.RemoveSession(s);
      Arrive(RemovesRoutes(st, s));
    }

    method Unregister(s: SessionId)
      requires Valid() && s in tasks && tasks[s].phase.Unregistering?
      modifies Repr
      ensures Valid() && View() == Unregisters(old(View()), s) && s in tasks && tasks[s].phase.RemovingSession?
    {
      ghost var st := View();
      UnregistersInv(st, s);
      registered := registered - {s};
      Arrive(Unregisters(st, s));
    }

    method RemoveSession(s: SessionId)
      requires Valid() && s in tasks && tasks[s].phase.RemovingSession?
      modifies Repr
      ensures Valid() && View() == Leaves(old(View()), s) && s !in tasks
    {
      ghost var st := View();
      LeavesInv(st, s);
      manager.Remove(s);
      Arrive(Leaves(st, s));
    }

    /** The four teardown calls, in order, with anything in between. */
    method Teardown(s: SessionId)
      requires Valid() && s in tasks && tasks[s].phase.Releasing?
      modifies Repr
      ensures Valid() && s !in tasks
    {
      ReleaseAddresses(s);
      Yield(s);
      RemoveRoutes(s);
      Yield(s);
      Unregister(s);
      Yield(s);
      RemoveSession(s);
    }

    /** A whole session, whatever fails along the way and whatever runs beside it: when its handler returns, no shared
        structure mentions the session any more. */
    method HandleSession(s: SessionId, capsules: seq<C.Capsule>)
      requires Valid() && s !in tasks
      modifies Repr
      ensures Valid() && s !in tasks && Absent(View(), s)
    {
      var ok := Begin(s);
      if ok {
        Yield(s);
        RunTunnel(s, capsules);
        Yield(s);
        Teardown(s);
      }
      assert SessionInv(View(), s);
    }
  }

  /** What `Yield` promises is what other handlers and the reaper do: no step but the handler's own moves it. */
  lemma OthersLeaveAlone(st: State, step: Step, s: SessionId)
    requires Inv(st) && Enabled(st, step) && (step.s != s || step.Reap?)
    ensures SameTask(st, Apply(st, step), s)
  {
    if step.Advance? {
      AdvanceElsewhere(st, step.s, s);
    }
  }
}
