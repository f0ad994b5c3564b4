/** Carrying out an interface plan: `plan`, `commands`, `realize` and the guard of src/iface/mod.rs, against a kernel
    that may refuse any command. */
module Configure {
  import opened Octets
  import opened Address
  import opened Net
  import Iface

  /** `InterfaceSetup`. */
  datatype Setup = Setup(
    dev: string, granted: seq<AssignedAddress>, routes: seq<IpAddressRange>, pin: Option<IpAddr>, installRoutes: bool)

  /** `DesiredInterface`. */
  datatype Desired = Desired(dev: string, addresses: seq<(IpAddr, Byte)>, routes: seq<IpNet>, keepOffTunnel: Option<IpAddr>)

  /** `plan`. */
  function Plan(s: Setup): Desired {
    Desired(
      s.dev,
      seq(|s.granted|, i requires 0 <= i < |s.granted| => (s.granted[i].ipAddress, s.granted[i].prefixLength)),
      if s.installRoutes then Iface.PrefixesFromRanges(s.routes) else [],
      if s.installRoutes then s.pin else None)
  }

  /** What one command adds to the kernel and its counterpart removes. */
  datatype Item =
    | Pin(proxy: IpAddr, gateway: Option<IpAddr>, via: string)
    | DeviceAddress(dev: string, addr: IpAddr, len: Byte)
    | TunnelRoute(prefix: IpNet, dev: string)

  type PinPath = Option<(IpAddr, Option<IpAddr>, string)>

  function PinItems(path: PinPath): seq<Item> {
    if path.None? then [] else [Pin(path.value.0, path.value.1, path.value.2)]
  }

  function AddressItems(want: Desired): seq<Item> {
    seq(|want.addresses|, i requires 0 <= i < |want.addresses| =>
      DeviceAddress(want.dev, want.addresses[i].0, want.addresses[i].1))
  }

  function RouteItems(want: Desired): seq<Item> {
    seq(|want.routes|, i requires 0 <= i < |want.routes| => TunnelRoute(want.routes[i], want.dev))
  }

  /** `commands`: the pin, then addresses, then routes. */
  function Commands(want: Desired, path: PinPath): seq<Item> {
    PinItems(path) + AddressItems(want) + RouteItems(want)
  }

  /** Kernel state as far as the plan is concerned. */
  type State = set<Item>

  ghost function Items(items: seq<Item>): State {
    set x | x in items
  }

  /** An accepted prefix of the commands: each item was new to the kernel, which refuses to add what exists. */
  ghost predicate Accepted(start: State, items: seq<Item>) {
    (forall x :: x in items ==> x !in start) && forall i, j :: 0 <= i < j < |items| ==> items[i] != items[j]
  }

  /** The kernel while undoing `items` in reverse, after `k` commands, given which of them worked: `oks[i]` is the
      outcome of undoing `items[i]`. */
  ghost function Undone(start: State, items: seq<Item>, oks: seq<bool>, k: nat): State
    requires |oks| == |items| && k <= |items|
  {
    start + (set i | 0 <= i < |items| && (i < |items| - k || !oks[i]) :: items[i])
  }

  /** No route leads into the tunnel unless the pin is in place. */
  ghost predicate Safe(st: State, dev: string, pin: Item) {
    (exists p :: TunnelRoute(p, dev) in st) ==> pin in st
  }

  ghost predicate NoTunnel(st: State, dev: string) {
    forall p :: TunnelRoute(p, dev) !in st
  }

  /** In every state of applying a pinned plan, wherever it stops, a tunnel route is present only with the pin. */
  lemma ApplySafe(start: State, want: Desired, path: PinPath, n: nat)
    requires NoTunnel(start, want.dev) && path.Some? && n <= |Commands(want, path)|
    ensures Safe(start + Items(Commands(want, path)[..n]), want.dev, PinItems(path)[0])
  {
    var items := Commands(want, path);
    if n > 0 {
      assert items[..n][0] == PinItems(path)[0];
    }
  }

  /** No route is installed before every address: a tunnel route is present only with all of them. */
  lemma AddressesFirst(want: Desired, path: PinPath, n: nat, route: Item, address: Item)
    requires n <= |Commands(want, path)| && route in Commands(want, path)[..n] && route.TunnelRoute?
    requires address in Commands(want, path) && address.DeviceAddress?
    ensures address in Commands(want, path)[..n]
  {
    var items := Commands(want, path);
    var i :| 0 <= i < n && items[i] == route;
    var j :| 0 <= j < |items| && items[j] == address;
    assert items[..n][j] == address;
  }

  /** Taking it down again is safe in every state exactly when the pin outlives no route: its own removal fails, or the
      removal of every installed route worked. */
  lemma UndoSafeExactly(start: State, want: Desired, path: PinPath, n: nat, oks: seq<bool>)
    requires NoTunnel(start, want.dev) && path.Some? && 0 < n <= |Commands(want, path)| && |oks| == n
    requires Accepted(start, Commands(want, path)[..n])
    ensures (forall k :: 0 <= k <= n ==> Safe(Undone(start, Commands(want, path)[..n], oks, k), want.dev, PinItems(path)[0])) <==>
            !oks[0] || forall i :: 0 <= i < n && Commands(want, path)[i].TunnelRoute? ==> oks[i]
  {
    var items := Commands(want, path)[..n];
    var pin := PinItems(path)[0];
    assert items[0] == pin;
    assert forall i :: 0 <= i < n && items[i].TunnelRoute? ==> items[i].dev == want.dev && i > 0;
    if !oks[0] || forall i :: 0 <= i < n && items[i].TunnelRoute? ==> oks[i] {
      forall k | 0 <= k <= n
        ensures Safe(Undone(start, items, oks, k), want.dev, pin)
      {
        UndoStateSafe(start, items, oks, k, want.dev);
      }
    } else {
      var i :| 0 <= i < n && items[i].TunnelRoute? && !oks[i];
      LeftBehind(start, items, oks, i, want.dev);
    }
  }

  lemma UndoStateSafe(start: State, items: seq<Item>, oks: seq<bool>, k: nat, dev: string)
    requires NoTunnel(start, dev) && |oks| == |items| && k <= |items| && items != []
    requires !oks[0] || forall i :: 0 <= i < |items| && items[i].TunnelRoute? ==> oks[i]
    ensures Safe(Undone(start, items, oks, k), dev, items[0])
  {
    var st := Undone(start, items, oks, k);
    if k < |items| || !oks[0] {
      assert items[0] in st;
    } else {
      forall p
        ensures TunnelRoute(p, dev) !in st
      {
      }
    }
  }

  lemma LeftBehind(start: State, items: seq<Item>, oks: seq<bool>, i: nat, dev: string)
    requires |oks| == |items| && 0 < i < |items| && Accepted(start, items)
    requires items[i].TunnelRoute? && items[i].dev == dev && !oks[i] && oks[0]
    ensures !Safe(Undone(start, items, oks, |items|), dev, items[0])
  {
    var st := Undone(start, items, oks, |items|);
    assert items[i] in st && items[i] == TunnelRoute(items[i].prefix, dev);
    assert items[0] !in start;
    assert items[0] !in st;
  }

  /** The failure is real: one pin, one route, and a route that cannot be removed while the pin can. */
  lemma UndoCanFail() returns (start: State, want: Desired, path: PinPath, oks: seq<bool>)
    ensures NoTunnel(start, want.dev) && path.Some? && |oks| == |Commands(want, path)| && Accepted(start, Commands(want, path))
    ensures !Safe(Undone(start, Commands(want, path), oks, |oks|), want.dev, PinItems(path)[0])
  {
    start := {};
    want := Desired("tun0", [], [IpNet(V4(0), 1)], Some(V4(0xc633_6401)));
    path := Some((V4(0xc633_6401), None, "eth0"));
    oks := [true, false];
    var items := Commands(want, path);
    assert items == [Pin(V4(0xc633_6401), None, "eth0"), TunnelRoute(IpNet(V4(0), 1), "tun0")];
    LeftBehind(start, items, oks, 1, "tun0");
  }

  /** Undoing restores the starting state exactly when every removal worked; each that failed leaves its item. */
  lemma UndoRestoresExactly(start: State, items: seq<Item>, oks: seq<bool>)
    requires Accepted(start, items) && |oks| == |items|
    ensures Undone(start, items, oks, |items|) == start <==> forall i :: 0 <= i < |items| ==> oks[i]
    ensures Undone(start, items, oks, 0) == start + Items(items)
  {
    var st := Undone(start, items, oks, |items|);
    forall i | 0 <= i < |items| && !oks[i]
      ensures items[i] in st && items[i] !in start
    {
      assert items[i] in items;
    }
    assert forall x :: x in items <==> exists i :: 0 <= i < |items| && items[i] == x;
  }

  /** The kernel: it refuses to add what exists, and may refuse anything else. */
  class Kernel {
    var state: State
    ghost var history: seq<State>

    constructor (start: State)
      ensures state == start && history == [start]
    {
      state, history := start, [start];
    }

    method Add(x: Item) returns (ok: bool)
      modifies this
      ensures ok ==> x !in old(state) && state == old(state) + {x}
      ensures !ok ==> state == old(state)
      ensures history == old(history) + [state]
    {
      ok := *;
      ok := ok && x !in state;
      if ok {
        state := state + {x};
      }
      history := history + [state];
    }

    method Remove(x: Item) returns (ok: bool)
      modifies this
      ensures state == if ok then old(state) - {x} else old(state)
      ensures history == old(history) + [state]
    {
      ok := *;
      if ok {
        state := state - {x};
      }
      history := history + [state];
    }
  }

  /** The states passed while applying the first `n` items. */
  ghost function Rise(start: State, items: seq<Item>, n: nat): seq<State>
    requires n <= |items|
  {
    seq(n, k requires 0 <= k < n => start + Items(items[..k + 1]))
  }

  /** The states passed while undoing all of them. */
  ghost function Fall(start: State, items: seq<Item>, oks: seq<bool>): seq<State>
    requires |oks| == |items|
  {
    seq(|items|, k requires 0 <= k < |items| => Undone(start, items, oks, k + 1))
  }

  /** The guard's drop: undo in reverse, ignoring refusals. */
  method Drop(kernel: Kernel, ghost start: State, undo: seq<Item>) returns (ghost oks: seq<bool>)
    requires Accepted(start, undo) && kernel.state == start + Items(undo)
    modifies kernel
    ensures |oks| == |undo| && kernel.state == Undone(start, undo, oks, |undo|)
    ensures kernel.history == old(kernel.history) + Fall(start, undo, oks)
  {
    oks := seq(|undo|, _ => true);
    UndoRestoresExactly(start, undo, oks);
    ghost var steps: seq<State> := [];
    for n := 0 to |undo|
      invariant |oks| == |undo| && kernel.state == Undone(start, undo, oks, n)
      invariant |steps| == n && kernel.history == old(kernel.history) + steps
      invariant forall k :: 1 <= k <= n ==> Undone(start, undo, oks, k) == steps[k - 1]
    {
      var i := |undo| - 1 - n;
      var ok := kernel.Remove(undo[i]);
      UndoStep(start, undo, oks, n, ok);
      ghost var now, later := oks[i := ok], steps + [kernel.state];
      forall k | 1 <= k <= n + 1
        ensures Undone(start, undo, now, k) == later[k - 1]
      {
        if k <= n {
          UndoEarlier(start, undo, oks, n, ok, k);
          assert Undone(start, undo, oks, k) == steps[k - 1];
        }
      }
      oks, steps := now, later;
    }
    assert steps == Fall(start, undo, oks);
  }

  lemma UndoStep(start: State, items: seq<Item>, oks: seq<bool>, n: nat, ok: bool)
    requires Accepted(start, items) && |oks| == |items| && n < |items|
    ensures var i := |items| - 1 - n;
            Undone(start, items, oks[i := ok], n + 1) ==
            if ok then Undone(start, items, oks, n) - {items[i]} else Undone(start, items, oks, n)
  {
    var i := |items| - 1 - n;
    var before, after := Undone(start, items, oks, n), Undone(start, items, oks[i := ok], n + 1);
    assert items[i] in items && items[i] !in start;
    assert items[i] in before;
  }

  lemma UndoEarlier(start: State, items: seq<Item>, oks: seq<bool>, n: nat, ok: bool, k: nat)
    requires |oks| == |items| && k <= n < |items|
    ensures Undone(start, items, oks[|items| - 1 - n := ok], k) == Undone(start, items, oks, k)
  {
  }

  lemma RiseStep(start: State, items: seq<Item>, i: nat)
    requires i < |items|
    ensures items[..i + 1] == items[..i] + [items[i]]
    ensures Items(items[..i + 1]) == Items(items[..i]) + {items[i]}
    ensures Rise(start, items, i + 1) == Rise(start, items, i) + [start + Items(items[..i]) + {items[i]}]
  {
    assert items[..i + 1] == items[..i] + [items[i]];
    assert start + Items(items[..i + 1]) == start + Items(items[..i]) + {items[i]};
  }

  /** `realize`: look up the pre-tunnel path, then apply in order; a refusal drops the guard, which undoes what was
      applied. Returns the guard's undo list on success. `n` items were applied, and `oks` are the outcomes of undoing
      them. */
  method Realize(kernel: Kernel, want: Desired, path: Option<(Option<IpAddr>, string)>)
    returns (undo: Option<seq<Item>>, ghost n: nat, ghost oks: seq<bool>)
    modifies kernel
    ensures want.keepOffTunnel.Some? && path.None? ==>
              undo.None? && kernel.state == old(kernel.state) && kernel.history == old(kernel.history)
    ensures want.keepOffTunnel.None? || path.Some? ==>
              var items := Commands(want, Resolve(want, path)); var start := old(kernel.state);
              && n <= |items| && Accepted(start, items[..n])
              && (undo.Some? ==>
                    && n == |items| && undo.value == items && kernel.state == start + Items(items)
                    && kernel.history == old(kernel.history) + Rise(start, items, n))
              && (undo.None? ==>
                    && |oks| == n && kernel.state == Undone(start, items[..n], oks, n)
                    && kernel.history == old(kernel.history) + Rise(start, items, n) + [start + Items(items[..n])]
                                         + Fall(start, items[..n], oks))
  {
    n, oks := 0, [];
    if want.keepOffTunnel.Some? && path.None? {
      return None, 0, [];
    }
    var commands := Commands(want, Resolve(want, path));
    ghost var start := kernel.state;
    var guard: seq<Item> := [];
    for i := 0 to |commands|
      invariant guard == commands[..i] && Accepted(start, guard) && kernel.state == start + Items(guard)
      invariant kernel.history == old(kernel.history) + Rise(start, commands, i)
    {
      n := i;
      var ok := kernel.Add(commands[i]);
      if !ok {
        oks := Drop(kernel, start, guard);
        return None, n, oks;
      }
      RiseStep(start, commands, i);
      guard := guard + [commands[i]];
    }
    assert commands[..|commands|] == commands;
    return Some(guard), |commands|, [];
  }

  /** The whole life of a pinned plan that was refused at some command: every state it passed is safe exactly when the
      pin was not removed over a route that stayed. */
  lemma RefusalSafeExactly(start: State, want: Desired, path: PinPath, n: nat, oks: seq<bool>)
    requires NoTunnel(start, want.dev) && path.Some? && 0 < n <= |Commands(want, path)| && |oks| == n
    requires Accepted(start, Commands(want, path)[..n])
    ensures var items := Commands(want, path);
            (forall st :: st in Rise(start, items, n) + [start + Items(items[..n])] + Fall(start, items[..n], oks) ==>
               Safe(st, want.dev, PinItems(path)[0])) <==>
            !oks[0] || forall i :: 0 <= i < n && items[i].TunnelRoute? ==> oks[i]
  {
    var items := Commands(want, path);
    var pin := PinItems(path)[0];
    var rise, fall := Rise(start, items, n), Fall(start, items[..n], oks);
    forall k | 0 <= k <= n
      ensures Safe(start + Items(items[..k]), want.dev, pin)
    {
      ApplySafe(start, want, path, k);
    }
    UndoSafeExactly(start, want, path, n, oks);
    UndoRestoresExactly(start, items[..n], oks);
    assert forall st :: st in rise ==> Safe(st, want.dev, pin);
    FallSafe(start, items[..n], oks, want.dev, pin);
  }

  lemma FallSafe(start: State, items: seq<Item>, oks: seq<bool>, dev: string, pin: Item)
    requires |oks| == |items| && Safe(Undone(start, items, oks, 0), dev, pin)
    ensures (forall st :: st in Fall(start, items, oks) ==> Safe(st, dev, pin)) <==>
            forall k :: 0 <= k <= |items| ==> Safe(Undone(start, items, oks, k), dev, pin)
  {
    var fall := Fall(start, items, oks);
    forall k | 1 <= k <= |items|
      ensures Undone(start, items, oks, k) == fall[k - 1]
    {
    }
  }

  function Resolve(want: Desired, path: Option<(Option<IpAddr>, string)>): PinPath {
    if want.keepOffTunnel.Some? && path.Some? then Some((want.keepOffTunnel.value, path.value.0, path.value.1)) else None
  }

  /** The commands of a setup carry out exactly its request: every granted address and no other; with routes, tunnel
      routes that together reach exactly the advertised unscoped addresses, none of them a default route, and the pin;
      without routes, neither. */
  lemma CommandsCarryOut(s: Setup, path: Option<(Option<IpAddr>, string)>, ip: IpAddr)
    ensures var items := Commands(Plan(s), Resolve(Plan(s), path));
            && (forall a, len: Byte :: DeviceAddress(s.dev, a, len) in items <==>
                  exists i :: 0 <= i < |s.granted| && s.granted[i].ipAddress == a && s.granted[i].prefixLength == len)
            && ((exists net: IpNet :: net.Valid() && TunnelRoute(net, s.dev) in items && net.Contains(ip)) <==>
                s.installRoutes && Iface.Advertised(s.routes, ip))
            && (forall x :: x in items && x.TunnelRoute? ==> x.dev == s.dev && x.prefix.len != 0)
            && (forall x :: x in items && x.Pin? ==> s.installRoutes && s.pin == Some(x.proxy))
            && (s.installRoutes && s.pin.Some? && path.Some? ==> Pin(s.pin.value, path.value.0, path.value.1) in items)
            && (!s.installRoutes ==> forall x :: x in items ==> x.DeviceAddress?)
  {
    var want := Plan(s);
    var items := Commands(want, Resolve(want, path));
    if s.installRoutes {
      Iface.PrefixesExact(s.routes, ip);
      if s.pin.Some? && path.Some? {
        assert items[0] == Pin(s.pin.value, path.value.0, path.value.1);
      }
    }
    ItemsByKind(want, Resolve(want, path));
    forall a, len: Byte
      ensures DeviceAddress(s.dev, a, len) in items <==>
              exists i :: 0 <= i < |s.granted| && s.granted[i].ipAddress == a && s.granted[i].prefixLength == len
    {
      PlannedAddress(s, a, len);
    }
  }

  lemma PlannedAddress(s: Setup, a: IpAddr, len: Byte)
    ensures (exists i :: 0 <= i < |Plan(s).addresses| && Plan(s).addresses[i] == (a, len)) <==>
            exists i :: 0 <= i < |s.granted| && s.granted[i].ipAddress == a && s.granted[i].prefixLength == len
  {
    if i :| 0 <= i < |s.granted| && s.granted[i].ipAddress == a && s.granted[i].prefixLength == len {
      assert Plan(s).addresses[i] == (a, len);
    }
  }

  /** A setup that asks for routes and a pin, once the path to the pinned address is known: wherever applying its plan
      stops, a tunnel route is present only with the pin. */
  lemma PlanSafe(s: Setup, path: (Option<IpAddr>, string), start: State, n: nat)
    requires s.installRoutes && s.pin.Some? && NoTunnel(start, s.dev)
    requires n <= |Commands(Plan(s), Resolve(Plan(s), Some(path)))|
    ensures Safe(start + Items(Commands(Plan(s), Resolve(Plan(s), Some(path)))[..n]), s.dev, Pin(s.pin.value, path.0, path.1))
  {
    ApplySafe(start, Plan(s), Resolve(Plan(s), Some(path)), n);
  }

  lemma ItemsByKind(want: Desired, path: PinPath)
    ensures var items := Commands(want, path);
            && (forall d, a, len: Byte :: DeviceAddress(d, a, len) in items <==>
                  d == want.dev && exists i :: 0 <= i < |want.addresses| && want.addresses[i] == (a, len))
            && (forall d, net :: TunnelRoute(net, d) in items <==> d == want.dev && net in want.routes)
            && (forall x :: x in items && x.Pin? ==> x in PinItems(path))
  {
    var pins, addresses, routes := PinItems(path), AddressItems(want), RouteItems(want);
    forall d, a, len: Byte
      ensures DeviceAddress(d, a, len) in addresses <==>
              d == want.dev && exists i :: 0 <= i < |want.addresses| && want.addresses[i] == (a, len)
    {
      if i :| 0 <= i < |want.addresses| && want.addresses[i] == (a, len) {
        assert addresses[i] == DeviceAddress(want.dev, a, len);
      }
    }
    forall d, net
      ensures TunnelRoute(net, d) in routes <==> d == want.dev && net in want.routes
    {
      if i :| 0 <= i < |want.routes| && want.routes[i] == net {
        assert routes[i] == TunnelRoute(net, want.dev);
      }
    }
  }
}
