/** The forwarding engine: src/forwarding/mod.rs. `Judge` is the decision on one packet as a value; the class makes that
    decision in place, delivers, reports and counts. */
module Engine {
  import opened Octets
  import opened Address
  import opened Net
  import opened Session
  import opened Packet
  import Icmp
  import Limiter
  import Ranges
  import Router

  datatype Forwarded = Hairpin(target: SessionId) | Tun

  /** What a session's sink or the network device makes of a packet: it takes it, finds its path too narrow, or is full. */
  datatype Reply = Taken | Narrow | Full

  /** What the engine decides with: sinks, egress policies, tunnel MTUs and static configuration. */
  datatype Setting = Setting(
    sinks: set<SessionId>, policies: map<SessionId, seq<IpAddressRange>>, mtus: map<SessionId, nat>, tun: bool, mtu: U16,
    gateways: Icmp.Gateways) {

    /** The policy of a session admits an address and protocol; without a policy nothing is admitted. */
    predicate Allows(s: SessionId, addr: IpAddr, proto: Byte) {
      s in policies && Ranges.Admits(policies[s], addr, proto)
    }

    function MtuOf(s: SessionId): nat {
      if s in mtus then mtus[s] else mtu
    }

    /** `deliver_to_session`, given the sink's reply. */
    function Sent(to: SessionId, reply: Reply): Forwarding<()> {
      if to !in sinks then Err(NoRoute)
      else match reply
        case Taken => Ok(())
        case Narrow => Err(MtuExceeded)
        case Full => Err(Congested)
    }
  }

  /** A policy admits what one of its ranges contains; no policy admits nothing; a session without an MTU of its own has the
      engine's. */
  lemma SettingExactly(c: Setting, s: SessionId, addr: IpAddr, proto: Byte)
    ensures c.Allows(s, addr, proto) <==>
            s in c.policies && exists i :: 0 <= i < |c.policies[s]| && c.policies[s][i].Contains(addr, proto)
    ensures s in c.mtus ==> c.MtuOf(s) == c.mtus[s]
    ensures s !in c.mtus ==> c.MtuOf(s) == c.mtu
  {
  }

  /** The fate of a client packet that passed the rate limiter. */
  datatype Verdict =
    | Silent(error: ForwardingError)
    | Reported(error: ForwardingError, kind: Icmp.ErrorKind, quoted: Octets)
    | ToSession(target: SessionId, packet: Octets)
    | ToNetwork(packet: Octets)

  /** `forward_validated` up to the delivery, given what the route lookup answers. */
  function Judge(c: Setting, from: SessionId, held: seq<AssignedAddress>, packet: Octets, route: Option<SessionId>): Verdict {
    var info := Parse(packet);
    if info.Err? then Silent(info.error)
    else if ValidateSource(info.value, held).Err? then Silent(ValidateSource(info.value, held).error)
    else if |packet| > c.mtu then Reported(MtuExceeded, Icmp.PacketTooBig(c.mtu), packet)
    else if ValidateDestination(info.value.dst).Err? then Silent(LinkLocalDrop)
    else if !c.Allows(from, info.value.dst, info.value.protocol) then
      Reported(NotAllowed(info.value.dst), Icmp.AdminProhibited, packet)
    else
      var hop := Decremented(packet);
      if hop.Err? then Reported(TtlExpired, Icmp.TimeExceeded, packet)
      else Routed(c, info.value, hop.value, route)
  }

  /** The last part of the decision, on the packet one hop later: hairpin, network or no route. */
  function Routed(c: Setting, info: PacketInfo, hop: Octets, route: Option<SessionId>): Verdict {
    if route.Some? then
      if !c.Allows(route.value, info.src, info.protocol) then Reported(NotAllowed(info.dst), Icmp.AdminProhibited, hop)
      else if |hop| > c.MtuOf(route.value) then
        Reported(MtuExceeded, Icmp.PacketTooBig(c.MtuOf(route.value) % 0x1_0000), hop)
      else ToSession(route.value, hop)
    else if c.tun then ToNetwork(hop)
    else Reported(NoRoute, Icmp.NoRouteToHost, hop)
  }

  /** What every forwarded packet satisfies: a well-formed packet from an address of the sender, small enough, to a
      destination the sender was advertised, with a hop left. */
  predicate Forwardable(c: Setting, from: SessionId, held: seq<AssignedAddress>, packet: Octets) {
    var info := Parse(packet);
    && info.Ok? && ValidateSource(info.value, held).Ok? && |packet| <= c.mtu && ValidateDestination(info.value.dst).Ok?
    && c.Allows(from, info.value.dst, info.value.protocol) && Decremented(packet).Ok?
  }

  lemma JudgeForwardable(c: Setting, from: SessionId, held: seq<AssignedAddress>, packet: Octets, route: Option<SessionId>)
    ensures var v := Judge(c, from, held, packet, route);
            if Forwardable(c, from, held, packet) then v == Routed(c, Parse(packet).value, Decremented(packet).value, route)
            else v.Silent? || v.Reported?
  {
  }

  /** A packet reaches a session exactly when it is forwardable, the lookup names the session, the session's own scope
      admits the source and its tunnel is wide enough; it reaches the network exactly when it is forwardable, nobody is
      named and there is a network. */
  lemma JudgeExactly(c: Setting, from: SessionId, held: seq<AssignedAddress>, packet: Octets, route: Option<SessionId>)
    ensures var v := Judge(c, from, held, packet, route);
            && (v.ToSession? <==>
                && Forwardable(c, from, held, packet) && route.Some?
                && c.Allows(route.value, Parse(packet).value.src, Parse(packet).value.protocol)
                && |packet| <= c.MtuOf(route.value))
            && (v.ToNetwork? <==> Forwardable(c, from, held, packet) && route.None? && c.tun)
            && (v.ToSession? ==> route == Some(v.target))
  {
    JudgeForwardable(c, from, held, packet, route);
    if Forwardable(c, from, held, packet) {
      DecrementedOnly(packet);
      RoutedExactly(c, Parse(packet).value, Decremented(packet).value, route);
    }
  }

  lemma RoutedExactly(c: Setting, info: PacketInfo, hop: Octets, route: Option<SessionId>)
    ensures var v := Routed(c, info, hop, route);
            && (v.ToSession? <==>
                route.Some? && c.Allows(route.value, info.src, info.protocol) && |hop| <= c.MtuOf(route.value))
            && (v.ToNetwork? <==> route.None? && c.tun)
            && (v.ToSession? ==> route == Some(v.target))
  {
  }

  /** The decision, guard by guard: the first that fails decides. Malformed packets, foreign sources and local destinations are
      dropped silently; size, policy and expiry are reported quoting the packet as it came, what goes wrong after the hop quoting
      it one hop later. */
  lemma JudgeOrder(c: Setting, from: SessionId, held: seq<AssignedAddress>, packet: Octets, route: Option<SessionId>)
    ensures var v := Judge(c, from, held, packet, route);
            if Parse(packet).Err? then v == Silent(MalformedPacket)
            else
              var info := Parse(packet).value;
              if forall i :: 0 <= i < |held| ==> !Covers(held[i], info.src) then v == Silent(SourceAddressViolation(info.src))
              else if |packet| > c.mtu then v == Reported(MtuExceeded, Icmp.PacketTooBig(c.mtu), packet)
              else if ValidateDestination(info.dst).Err? then v == Silent(LinkLocalDrop)
              else if !c.Allows(from, info.dst, info.protocol) then
                v == Reported(NotAllowed(info.dst), Icmp.AdminProhibited, packet)
              else if HopsLeft(packet) < 2 then v == Reported(TtlExpired, Icmp.TimeExceeded, packet)
              else
                var hop := Decremented(packet);
                && hop.Ok?
                && (route.None? ==> v == if c.tun then ToNetwork(hop.value) else Reported(NoRoute, Icmp.NoRouteToHost, hop.value))
                && (route.Some? ==>
                      v == if !c.Allows(route.value, info.src, info.protocol) then
                             Reported(NotAllowed(info.dst), Icmp.AdminProhibited, hop.value)
                           else if |packet| > c.MtuOf(route.value) then
                             Reported(MtuExceeded, Icmp.PacketTooBig(c.MtuOf(route.value) % 0x1_0000), hop.value)
                           else ToSession(route.value, hop.value))
  {
    MalformedOnly(packet);
    if Parse(packet).Ok? {
      SourceExactly(Parse(packet).value, held);
      DecrementedExactly(packet);
      if Decremented(packet).Ok? {
        DecrementedOnly(packet);
      }
    }
  }

  lemma MalformedOnly(packet: Octets)
    ensures Parse(packet).Err? ==> Parse(packet).error == MalformedPacket
  {
    if |packet| >= 40 {
      WalkMalformed(packet, packet[6], 40, 8);
    }
  }

  lemma {:induction false} WalkMalformed(p: Octets, next: Byte, offset: nat, rounds: nat)
    ensures FinalProtocol(p, next, offset, rounds).Err? ==> FinalProtocol(p, next, offset, rounds).error == MalformedPacket
    decreases rounds
  {
    if rounds > 0 && IsExtension(next) && ExtensionLen(p, next, offset).Some? {
      WalkMalformed(p, p[offset], offset + ExtensionLen(p, next, offset).value, rounds - 1);
    }
  }

  /** The octet that counts hops. */
  function HopsLeft(packet: Octets): Byte
    requires Parse(packet).Ok?
  {
    if IsV4(packet) then packet[8] else packet[7]
  }

  /** Which fault earns which report, for a packet from one of the sender's own addresses: an announced MTU is below the
      packet's size and is that of the tunnel or of the target; expiry is a hop count of at most one; prohibition is a
      destination never advertised to the sender or a source outside the target's scope; no route is the lack of both a
      session and a network. */
  lemma JudgeKinds(c: Setting, from: SessionId, held: seq<AssignedAddress>, packet: Octets, route: Option<SessionId>)
    requires Judge(c, from, held, packet, route).Reported?
    ensures Parse(packet).Ok? && Earned(c, from, packet, route, Judge(c, from, held, packet, route))
  {
    if Forwardable(c, from, held, packet) {
      DecrementedOnly(packet);
      RoutedKinds(c, from, packet, Parse(packet).value, Decremented(packet).value, route);
    }
  }

  predicate Earned(c: Setting, from: SessionId, packet: Octets, route: Option<SessionId>, v: Verdict)
    requires Parse(packet).Ok? && v.Reported?
  {
    var info := Parse(packet).value;
    match v.kind
    case PacketTooBig(mtu) =>
      && v.error == MtuExceeded && mtu < |packet|
      && (mtu == c.mtu || (route.Some? && mtu == c.MtuOf(route.value)))
    case TimeExceeded => v.error == TtlExpired && HopsLeft(packet) <= 1
    case AdminProhibited =>
      && v.error == NotAllowed(info.dst)
      && (!c.Allows(from, info.dst, info.protocol) || (route.Some? && !c.Allows(route.value, info.src, info.protocol)))
    case NoRouteToHost => v.error == NoRoute && route.None? && !c.tun
  }

  lemma RoutedKinds(c: Setting, from: SessionId, packet: Octets, info: PacketInfo, hop: Octets, route: Option<SessionId>)
    requires Parse(packet) == Ok(info) && |hop| == |packet| <= c.mtu
    requires Routed(c, info, hop, route).Reported?
    ensures Earned(c, from, packet, route, Routed(c, info, hop, route))
  {
  }

  /** The packet that is passed on is the one that came, one hop later. */
  lemma JudgePasses(c: Setting, from: SessionId, held: seq<AssignedAddress>, packet: Octets, route: Option<SessionId>)
    requires Judge(c, from, held, packet, route).ToSession? || Judge(c, from, held, packet, route).ToNetwork?
    ensures var p := Judge(c, from, held, packet, route).packet;
            && |p| == |packet| && Parse(p) == Parse(packet)
            && (if IsV4(packet) then p[8] == packet[8] - 1 && HeaderVerifies(p)
                                     && forall k :: 0 <= k < |p| && k !in {8, 10, 11} ==> p[k] == packet[k]
                else p == packet[7 := packet[7] - 1])
  {
    DecrementedOnly(packet);
  }

  /** An error is reported only about a packet whose source belongs to the sender. */
  lemma JudgeReports(c: Setting, from: SessionId, held: seq<AssignedAddress>, packet: Octets, route: Option<SessionId>)
    requires Judge(c, from, held, packet, route).Reported?
    ensures var q := Judge(c, from, held, packet, route).quoted;
            Parse(q) == Parse(packet) && Parse(q).Ok? && ValidateSource(Parse(q).value, held).Ok?
  {
    if Decremented(packet).Ok? {
      DecrementedOnly(packet);
    }
  }

  /** An error that is built goes from the gateway to the source of the packet it is about. */
  lemma ReportAddressed(kind: Icmp.ErrorKind, gateways: Icmp.Gateways, q: Octets)
    requires Parse(q).Ok? && Icmp.BuildError(kind, gateways, q).Some?
    ensures var p := Icmp.BuildError(kind, gateways, q).value;
            && Parse(p).Ok? && Parse(p).value.dst == Parse(q).value.src
            && (Parse(p).value.src == V4(gateways.v4)
                || (gateways.v6.Some? && Parse(p).value.src == V6(gateways.v6.value)))
  {
    if IsV4(q) {
      Icmp.ErrorV4Parses(kind, gateways.v4, q);
    } else {
      Icmp.ErrorV6Parses(kind, gateways.v6.value, q);
    }
  }

  /** `dispatch_from_network` up to the delivery. */
  function JudgeInbound(c: Setting, packet: Octets, route: Option<SessionId>): Forwarding<(SessionId, Octets)> {
    var info :- Parse(packet);
    if route.None? then Err(NoRoute)
    else if !c.Allows(route.value, info.src, info.protocol) then Err(NotAllowed(info.src))
    else if |packet| > c.MtuOf(route.value) then Err(MtuExceeded)
    else
      var hop :- Decremented(packet);
      Ok((route.value, hop))
  }

  lemma InboundExactly(c: Setting, packet: Octets, route: Option<SessionId>)
    ensures JudgeInbound(c, packet, route).Ok? <==>
            && Parse(packet).Ok? && route.Some? && c.Allows(route.value, Parse(packet).value.src, Parse(packet).value.protocol)
            && |packet| <= c.MtuOf(route.value) && Decremented(packet).Ok?
    ensures JudgeInbound(c, packet, route).Ok? ==>
              var (s, p) := JudgeInbound(c, packet, route).value; route == Some(s) && Parse(p) == Parse(packet)
  {
    if Parse(packet).Ok? && Decremented(packet).Ok? {
      DecrementedOnly(packet);
    }
  }

  /** Why a packet from the network stops, in order. */
  lemma InboundOrder(c: Setting, packet: Octets, route: Option<SessionId>)
    ensures var v := JudgeInbound(c, packet, route);
            if Parse(packet).Err? then v == Err(MalformedPacket)
            else if route.None? then v == Err(NoRoute)
            else if !c.Allows(route.value, Parse(packet).value.src, Parse(packet).value.protocol) then
              v == Err(NotAllowed(Parse(packet).value.src))
            else if |packet| > c.MtuOf(route.value) then v == Err(MtuExceeded)
            else if HopsLeft(packet) < 2 then v == Err(TtlExpired)
            else Decremented(packet).Ok? && v == Ok((route.value, Decremented(packet).value))
  {
    MalformedOnly(packet);
    if Parse(packet).Ok? {
      DecrementedExactly(packet);
    }
  }

  datatype Metrics = Metrics(
    hairpin: nat, tunOut: nat, dropped: nat, rateLimited: nat, toClient: nat, icmpErrors: nat, mtuDropped: nat)

  /** An ICMP error that was delivered: to whom, on the strength of which addresses, about what. */
  datatype Report = Report(to: SessionId, held: seq<AssignedAddress>, quoted: Octets, packet: Octets)

  /** What happened outside: calls made, packets delivered to clients and to the network, errors among them. */
  datatype Log = Log(
    fromClient: nat, dispatched: nat, delivered: seq<(SessionId, Octets)>, sentOut: seq<Octets>, reports: seq<Report>)

  /** Conservation: each client packet is counted once among four outcomes; what clients received is hairpins, errors and
      dispatched packets; every error is among the deliveries, and went to the source it quotes at a session whose
      addresses contain that source. */
  ghost predicate Conserved(m: Metrics, l: Log) {
    && l.fromClient == m.hairpin + m.tunOut + m.dropped + m.rateLimited
    && m.toClient == m.hairpin + m.icmpErrors + l.dispatched
    && |l.delivered| == m.toClient && |l.sentOut| == m.tunOut && |l.reports| == m.icmpErrors
    && ReportsSound(l)
  }

  ghost predicate ReportsSound(l: Log) {
    forall i :: 0 <= i < |l.reports| ==> Justified(l.reports[i]) && (l.reports[i].to, l.reports[i].packet) in l.delivered
  }

  ghost predicate Justified(r: Report) {
    && Parse(r.quoted).Ok? && ValidateSource(Parse(r.quoted).value, r.held).Ok?
    && Parse(r.packet).Ok? && Parse(r.packet).value.dst == Parse(r.quoted).value.src
  }

  /** What carrying out a verdict does outside, given the reply of the sink or device it sends to. A report goes to the sender of
      the packet, on the addresses the packet was judged by, about what the verdict quotes, whenever an error can be built and the
      sender's sink takes it. */
  ghost predicate CarriesOut(
    c: Setting, from: SessionId, held: seq<AssignedAddress>, v: Verdict, reply: Reply, r: Forwarding<Forwarded>,
    was: Log, now: Log)
  {
    match v
    case Silent(e) => r == Err(e) && now == was
    case Reported(e, kind, q) =>
      var p := Icmp.BuildError(kind, c.gateways, q);
      r == Err(e) && now == if p.Some? && c.Sent(from, reply).Ok? then Told(was, from, held, q, p.value) else was
    case ToSession(t, p) =>
      if c.Sent(t, reply).Ok? then r == Ok(Hairpin(t)) && now == was.(delivered := was.delivered + [(t, p)])
      else r == Err(c.Sent(t, reply).error) && now == was
    case ToNetwork(p) =>
      if reply.Taken? then r == Ok(Tun) && now == was.(sentOut := was.sentOut + [p])
      else r == Err(Congested) && now == was
  }

  /** Whom a verdict sends to: the sender, for a report that can be built, or the target. */
  function SendsTo(c: Setting, from: SessionId, v: Verdict): Option<SessionId> {
    match v
    case Reported(_, kind, q) => if Icmp.BuildError(kind, c.gateways, q).Some? then Some(from) else None
    case ToSession(t, _) => Some(t)
    case _ => None
  }

  /** Packets found too wide after the hop: for the target's tunnel, and by the sink itself. */
  function Drops(c: Setting, from: SessionId, v: Verdict, peer: bool, reply: Reply): nat {
    var to := SendsTo(c, from, v);
    (if peer then 1 else 0) + (if to.Some? && to.value in c.sinks && reply.Narrow? then 1 else 0)
  }

  /** The target's tunnel is too narrow. */
  predicate PeerNarrow(c: Setting, from: SessionId, held: seq<AssignedAddress>, packet: Octets, v: Verdict) {
    Forwardable(c, from, held, packet) && v.Reported? && v.kind.PacketTooBig?
  }

  /** The log with one more error, delivered and on record. */
  function Told(l: Log, to: SessionId, held: seq<AssignedAddress>, quoted: Octets, packet: Octets): Log {
    l.(delivered := l.delivered + [(to, packet)], reports := l.reports + [Report(to, held, quoted, packet)])
  }

  /** Deliveries, errors and oversize packets are counted as they happen. */
  ghost predicate Booked(m: Metrics, l: Log, n: Metrics, k: Log, drops: nat) {
    && n == m.(mtuDropped := m.mtuDropped + drops, toClient := n.toClient, icmpErrors := n.icmpErrors)
    && n.toClient - m.toClient == |k.delivered| - |l.delivered|
    && n.icmpErrors - m.icmpErrors == |k.reports| - |l.reports|
  }

  /** The counter of the outcome of one client packet. */
  function Counted(m: Metrics, r: Forwarding<Forwarded>): Metrics {
    if r.Err? then m.(dropped := m.dropped + 1)
    else if r.value.Tun? then m.(tunOut := m.tunOut + 1)
    else m.(hairpin := m.hairpin + 1)
  }

  lemma BookedCounted(m: Metrics, l: Log, n: Metrics, k: Log, drops: nat, r: Forwarding<Forwarded>)
    requires Booked(m, l, n, k, drops)
    ensures Booked(Counted(m, r), l, Counted(n, r), k, drops)
  {
  }

  /** One call on the engine: who sent what, judged by which addresses, setting and lookup, the reply to what it sent, and the
      outcome. */
  datatype Event =
    | FromClient(
        c: Setting, from: SessionId, held: seq<AssignedAddress>, packet: Octets, route: Option<SessionId>, limited: bool,
        reply: Reply, outcome: Forwarding<Forwarded>)
    | FromNetwork(c: Setting, packet: Octets, route: Option<SessionId>, reply: Reply, dispatch: Forwarding<SessionId>)
  {
    function Verdict(): Verdict
      requires FromClient?
    {
      Judge(c, from, held, packet, route)
    }
  }

  /** What one call does to counters and log. */
  ghost predicate Moves(e: Event, m: Metrics, l: Log, n: Metrics, k: Log) {
    match e
    case FromClient(c, from, held, packet, route, limited, reply, r) =>
      var called := l.(fromClient := l.fromClient + 1);
      var v := e.Verdict();
      if limited then r == Err(RateLimited) && n == m.(rateLimited := m.rateLimited + 1) && k == called
      else
        && CarriesOut(c, from, held, v, reply, r, called, k)
        && Booked(Counted(m, r), called, n, k, Drops(c, from, v, PeerNarrow(c, from, held, packet, v), reply))
    case FromNetwork(c, packet, route, reply, r) =>
      match JudgeInbound(c, packet, route)
      case Err(error) => r == Err(error) && k == l && Booked(m, l, n, k, if error == MtuExceeded then 1 else 0)
      case Ok((s, p)) =>
        && Booked(m, l, n, k, if s in c.sinks && reply.Narrow? then 1 else 0)
        && (if c.Sent(s, reply).Ok? then
              r == Ok(s) && k == l.(delivered := l.delivered + [(s, p)], dispatched := l.dispatched + 1)
            else r == Err(c.Sent(s, reply).error) && k == l)
  }

  lemma ToldJustified(e: Event, kind: Icmp.ErrorKind, q: Octets)
    requires e.FromClient? && e.Verdict().Reported? && e.Verdict().kind == kind && e.Verdict().quoted == q
    requires Icmp.BuildError(kind, e.c.gateways, q).Some?
    ensures Justified(Report(e.from, e.held, q, Icmp.BuildError(kind, e.c.gateways, q).value))
  {
    JudgeReports(e.c, e.from, e.held, e.packet, e.route);
    ReportAddressed(kind, e.c.gateways, q);
  }

  lemma ReportsGrow(l: Log, k: Log)
    requires ReportsSound(l) && l.delivered <= k.delivered
    requires k.reports == l.reports || (|k.reports| == |l.reports| + 1 && l.reports <= k.reports
             && var r := k.reports[|l.reports|]; Justified(r) && (r.to, r.packet) in k.delivered)
    ensures ReportsSound(k)
  {
    forall i | 0 <= i < |k.reports|
      ensures Justified(k.reports[i]) && (k.reports[i].to, k.reports[i].packet) in k.delivered
    {
      if i < |l.reports| {
        assert k.reports[i] == l.reports[i];
      }
    }
  }

  lemma MoveConserved(e: Event, m: Metrics, l: Log, n: Metrics, k: Log)
    requires Conserved(m, l) && Moves(e, m, l, n, k)
    ensures Conserved(n, k)
  {
    if k.reports != l.reports {
      var v := e.Verdict();
      ToldJustified(e, v.kind, v.quoted);
      assert k.delivered[|l.delivered|] == (k.reports[|l.reports|].to, k.reports[|l.reports|].packet);
    }
    ReportsGrow(l, k);
  }

  /** A fault is answered: a call whose verdict is to report, about a packet that earns an error, from a session whose sink takes
      it, puts exactly that error on record. */
  lemma ReportAnswered(e: Event, m: Metrics, l: Log, n: Metrics, k: Log)
    requires Moves(e, m, l, n, k) && e.FromClient? && !e.limited && e.Verdict().Reported? && e.from in e.c.sinks && e.reply.Taken?
    requires Icmp.BuildError(e.Verdict().kind, e.c.gateways, e.Verdict().quoted).Some?
    ensures var p := Icmp.BuildError(e.Verdict().kind, e.c.gateways, e.Verdict().quoted).value;
            && k.reports == l.reports + [Report(e.from, e.held, e.Verdict().quoted, p)]
            && k.delivered == l.delivered + [(e.from, p)] && n.icmpErrors == m.icmpErrors + 1
  {
  }

  /** A packet that may go to a session whose sink takes it gets there, and one for the network likewise. */
  lemma PassedOn(e: Event, m: Metrics, l: Log, n: Metrics, k: Log)
    requires Moves(e, m, l, n, k) && e.FromClient? && !e.limited && e.reply.Taken?
    ensures e.Verdict().ToSession? && e.Verdict().target in e.c.sinks ==>
              && e.outcome == Ok(Hairpin(e.Verdict().target)) && n.hairpin == m.hairpin + 1
              && k.delivered == l.delivered + [(e.Verdict().target, e.Verdict().packet)]
    ensures e.Verdict().ToNetwork? ==>
              e.outcome == Ok(Tun) && n.tunOut == m.tunOut + 1 && k.sentOut == l.sentOut + [e.Verdict().packet]
  {
  }

  /** A run of calls on a fresh engine. */
  ghost predicate IsRun(es: seq<Event>, ms: seq<Metrics>, ls: seq<Log>) {
    && |ms| == |ls| == |es| + 1 && ms[0] == Metrics(0, 0, 0, 0, 0, 0, 0) && ls[0] == Log(0, 0, [], [], [])
    && (forall j {:trigger Linked(es, ms, ls, j)} :: 0 <= j < |es| ==> Linked(es, ms, ls, j))
  }

  ghost predicate Linked(es: seq<Event>, ms: seq<Metrics>, ls: seq<Log>, j: nat)
    requires |ms| == |ls| == |es| + 1 && j < |es|
  {
    Moves(es[j], ms[j], ls[j], ms[j + 1], ls[j + 1])
  }

  /** Conservation over any run of calls. */
  lemma {:induction false} RunConserved(es: seq<Event>, ms: seq<Metrics>, ls: seq<Log>, i: nat)
    requires IsRun(es, ms, ls) && i < |ms|
    ensures Conserved(ms[i], ls[i])
  {
    if i > 0 {
      RunConserved(es, ms, ls, i - 1);
      assert Linked(es, ms, ls, i - 1);
      MoveConserved(es[i - 1], ms[i - 1], ls[i - 1], ms[i], ls[i]);
    }
  }

  /** A call that was answered with this error: judged reportable, with the error built from the verdict and sent to the
      caller's own session. */
  ghost predicate Answered(e: Event, r: Report) {
    && e.FromClient? && !e.limited && e.Verdict().Reported?
    && r.to == e.from && r.held == e.held && r.quoted == e.Verdict().quoted
    && Icmp.BuildError(e.Verdict().kind, e.c.gateways, r.quoted) == Some(r.packet)
  }

  ghost predicate Replied(es: seq<Event>, reports: seq<Report>, calls: seq<nat>, j: nat)
    requires j < |calls| == |reports| && calls[j] < |es|
  {
    Answered(es[calls[j]], reports[j])
  }

  /** Which calls the errors on record answer: one call each, in order, so that no call is answered twice. */
  ghost predicate Answering(es: seq<Event>, reports: seq<Report>, calls: seq<nat>, n: nat)
    requires n <= |es|
  {
    && |calls| == |reports|
    && (forall j :: 0 <= j < |calls| ==> calls[j] < n)
    && (forall j {:trigger Replied(es, reports, calls, j)} :: 0 <= j < |calls| ==> Replied(es, reports, calls, j))
    && (forall j, k :: 0 <= j < k < |calls| ==> calls[j] < calls[k])
  }

  lemma MoveReports(e: Event, m: Metrics, l: Log, n: Metrics, k: Log)
    requires Moves(e, m, l, n, k)
    ensures k.reports == l.reports
            || (|k.reports| == |l.reports| + 1 && k.reports == l.reports + [k.reports[|l.reports|]]
                && Answered(e, k.reports[|l.reports|]))
  {
  }

  /** Every error on record answers a call of the run of its own, that of the session it went to. */
  lemma {:induction false} RunReports(es: seq<Event>, ms: seq<Metrics>, ls: seq<Log>, i: nat) returns (calls: seq<nat>)
    requires IsRun(es, ms, ls) && i < |ls|
    ensures Answering(es, ls[i].reports, calls, i)
  {
    if i == 0 {
      calls := [];
    } else {
      var earlier := RunReports(es, ms, ls, i - 1);
      assert Linked(es, ms, ls, i - 1);
      MoveReports(es[i - 1], ms[i - 1], ls[i - 1], ms[i], ls[i]);
      if ls[i].reports == ls[i - 1].reports {
        calls := earlier;
      } else {
        calls := earlier + [i - 1];
        AnsweringNext(es, ls[i - 1].reports, ls[i].reports[|earlier|], earlier, i - 1);
      }
    }
  }

  lemma RepliedStill(es: seq<Event>, reports: seq<Report>, r: Report, calls: seq<nat>, n: nat, j: nat)
    requires j < |calls| == |reports| && calls[j] < |es| && Replied(es, reports, calls, j)
    ensures Replied(es, reports + [r], calls + [n], j)
  {
  }

  lemma AnsweringNext(es: seq<Event>, reports: seq<Report>, r: Report, calls: seq<nat>, n: nat)
    requires n < |es| && Answering(es, reports, calls, n) && Answered(es[n], r)
    ensures Answering(es, reports + [r], calls + [n], n + 1)
  {
    assert Replied(es, reports + [r], calls + [n], |calls|);
    forall j | 0 <= j < |calls|
      ensures Replied(es, reports + [r], calls + [n], j)
    {
      RepliedStill(es, reports, r, calls, n, j);
    }
  }

  /** A hop on a buffer of the engine's own. A packet that parses can only have expired. */
  method Hop(packet: Octets) returns (r: Forwarding<Octets>)
    requires Parse(packet).Ok?
    ensures r == Decremented(packet)
    ensures r.Err? ==> r.error == TtlExpired
  {
    var buffer := new Byte[|packet|](i requires 0 <= i < |packet| => packet[i]);
    assert buffer[..] == packet;
    var hop := DecrementTtl(buffer);
    if hop.Err? {
      return Err(hop.error);
    }
    return Ok(buffer[..]);
  }

  class ForwardingEngine {
    const table: Router.RouteTable
    var sinks: set<SessionId>
    var policies: map<SessionId, seq<IpAddressRange>>
    var mtus: map<SessionId, nat>
    var limiters: map<SessionId, Limiter.Buckets>
    const tun: bool
    const mtu: U16
    const gateways: Icmp.Gateways
    const limits: Limiter.RateLimits
    var metrics: Metrics
    ghost var log: Log

    function View(): Setting
      reads this
    {
      Setting(sinks, policies, mtus, tun, mtu, gateways)
    }

    ghost predicate Valid()
      reads this, table
    {
      Router.ValidRoutes(table.routes) && Conserved(metrics, log)
    }

    constructor (table: Router.RouteTable, tun: bool, mtu: U16, gateways: Icmp.Gateways, limits: Limiter.RateLimits)
      ensures Conserved(metrics, log) && metrics == Metrics(0, 0, 0, 0, 0, 0, 0) && log == Log(0, 0, [], [], [])
      ensures sinks == {} && policies == map[] && mtus == map[] && limiters == map[]
      ensures this.table == table && this.tun == tun && this.mtu == mtu && this.gateways == gateways && this.limits == limits
    {
      this.table, this.tun, this.mtu, this.gateways, this.limits := table, tun, mtu, gateways, limits;
      sinks, policies, mtus, limiters := {}, map[], map[], map[];
      metrics, log := Metrics(0, 0, 0, 0, 0, 0, 0), Log(0, 0, [], [], []);
    }

    method Register(s: SessionId, policy: seq<IpAddressRange>, tunnelMtu: nat, now: nat)
      modifies this
      ensures sinks == old(sinks) + {s} && policies == old(policies)[s := policy] && mtus == old(mtus)[s := tunnelMtu]
      ensures limiters == if limits.Unlimited() then old(limiters) else old(limiters)[s := Limiter.New(limits, now)]
      ensures metrics == old(metrics) && log == old(log)
    {
      sinks, policies, mtus := sinks + {s}, policies[s := policy], mtus[s := tunnelMtu];
      if !limits.Unlimited() {
        limiters := limiters[s := Limiter.New(limits, now)];
      }
    }

    method Unregister(s: SessionId)
      modifies this
      ensures sinks == old(sinks) - {s} && policies == old(policies) - {s} && mtus == old(mtus) - {s}
      ensures limiters == old(limiters) - {s} && metrics == old(metrics) && log == old(log)
    {
      sinks, policies, mtus, limiters := sinks - {s}, policies - {s}, mtus - {s}, limiters - {s};
    }

    /** `deliver_to_session`: the sink may be gone, congested, or narrower than it was. */
    method Deliver(s: SessionId, packet: Octets) returns (r: Forwarding<()>, ghost reply: Reply)
      modifies this`metrics, this`log
      ensures r == View().Sent(s, reply)
      ensures log == if r.Ok? then old(log).(delivered := old(log).delivered + [(s, packet)]) else old(log)
      ensures metrics == old(metrics).(toClient := old(metrics).toClient + (if r.Ok? then 1 else 0),
                                       mtuDropped := old(metrics).mtuDropped + (if s in sinks && reply.Narrow? then 1 else 0))
    {
      if s !in sinks {
        return Err(NoRoute), Taken;
      }
      var oversize: bool, refused: bool := *, *;
      if oversize {
        metrics := metrics.(mtuDropped := metrics.mtuDropped + 1);
        return Err(MtuExceeded), Narrow;
      }
      if refused {
        return Err(Congested), Full;
      }
      metrics := metrics.(toClient := metrics.toClient + 1);
      log := log.(delivered := log.delivered + [(s, packet)]);
      return Ok(()), Taken;
    }

    /** `send_icmp_error`: build, deliver back to the sender, count if delivered. */
    method SendIcmpError(to: SessionId, kind: Icmp.ErrorKind, original: Octets, ghost held: seq<AssignedAddress>)
      returns (ghost reply: Reply)
      modifies this`metrics, this`log
      ensures var p := Icmp.BuildError(kind, gateways, original);
              log == if p.Some? && View().Sent(to, reply).Ok? then Told(old(log), to, held, original, p.value) else old(log)
      ensures Booked(old(metrics), old(log), metrics, log,
                     if Icmp.BuildError(kind, gateways, original).Some? && to in sinks && reply.Narrow? then 1 else 0)
    {
      reply := Taken;
      var p := Icmp.BuildError(kind, gateways, original);
      if p.None? {
        return;
      }
      var r;
      r, reply := Deliver(to, p.value);
      if r.Ok? {
        metrics := metrics.(icmpErrors := metrics.icmpErrors + 1);
        log := log.(reports := log.reports + [Report(to, held, original, p.value)]);
      }
    }

    /** Drop a packet with a report to its sender. */
    method Refuse(from: SessionId, ghost held: seq<AssignedAddress>, error: ForwardingError, kind: Icmp.ErrorKind, quoted: Octets)
      returns (r: Forwarding<Forwarded>, ghost reply: Reply)
      modifies this`metrics, this`log
      ensures Booked(old(metrics), old(log), metrics, log,
                     Drops(View(), from, Reported(error, kind, quoted), false, reply))
      ensures CarriesOut(View(), from, held, Reported(error, kind, quoted), reply, r, old(log), log)
    {
      reply := SendIcmpError(from, kind, quoted, held);
      return Err(error), reply;
    }

    /** `forward_validated`. */
    method ForwardValidated(from: SessionId, held: seq<AssignedAddress>, packet: Octets)
      returns (r: Forwarding<Forwarded>, ghost route: Option<SessionId>, ghost reply: Reply)
      requires Router.ValidRoutes(table.routes)
      modifies this`metrics, this`log
      ensures var v := Judge(View(), from, held, packet, route);
              && CarriesOut(View(), from, held, v, reply, r, old(log), log)
              && Booked(old(metrics), old(log), metrics, log,
                        Drops(View(), from, v, PeerNarrow(View(), from, held, packet, v), reply))
      ensures Forwardable(View(), from, held, packet) ==>
                table.View().Answers(Parse(packet).value.dst, Parse(packet).value.protocol, route)
    {
      route, reply := None, Taken;
      var info := Parse(packet);
      if info.Err? {
        return Err(info.error), None, Taken;
      }
      var source := ValidateSource(info.value, held);
      if source.Err? {
        return Err(source.error), None, Taken;
      }
      if |packet| > mtu {
        r, reply := Refuse(from, held, MtuExceeded, Icmp.PacketTooBig(mtu), packet);
        return;
      }
      if ValidateDestination(info.value.dst).Err? {
        return Err(LinkLocalDrop), None, Taken;
      }
      if !View().Allows(from, info.value.dst, info.value.protocol) {
        r, reply := Refuse(from, held, NotAllowed(info.value.dst), Icmp.AdminProhibited, packet);
        return;
      }
      var hop := Hop(packet);
      if hop.Err? {
        r, reply := Refuse(from, held, hop.error, Icmp.TimeExceeded, packet);
        return;
      }
      DecrementedOnly(packet);
      var target := table.Lookup(info.value.dst, info.value.protocol);
      r, reply := Send(from, held, info.value, hop.value, target);
      return r, target, reply;
    }

    /** The tail of `forward_validated`: hairpin, network or no route. */
    method Send(from: SessionId, ghost held: seq<AssignedAddress>, info: PacketInfo, hop: Octets, target: Option<SessionId>)
      returns (r: Forwarding<Forwarded>, ghost reply: Reply)
      modifies this`metrics, this`log
      ensures var v := Routed(View(), info, hop, target);
              && CarriesOut(View(), from, held, v, reply, r, old(log), log)
              && Booked(old(metrics), old(log), metrics, log,
                        Drops(View(), from, v, v.Reported? && v.kind.PacketTooBig?, reply))
    {
      reply := Taken;
      if target.Some? {
        if !View().Allows(target.value, info.src, info.protocol) {
          r, reply := Refuse(from, held, NotAllowed(info.dst), Icmp.AdminProhibited, hop);
          return;
        }
        var peerMtu := View().MtuOf(target.value);
        if |hop| > peerMtu {
          metrics := metrics.(mtuDropped := metrics.mtuDropped + 1);
          r, reply := Refuse(from, held, MtuExceeded, Icmp.PacketTooBig(peerMtu % 0x1_0000), hop);
          return;
        }
        var d;
        d, reply := Deliver(target.value, hop);
        if d.Err? {
          return Err(d.error), reply;
        }
        return Ok(Hairpin(target.value)), reply;
      }
      if tun {
        var congested: bool := *;
        if congested {
          return Err(Congested), Full;
        }
        log := log.(sentOut := log.sentOut + [hop]);
        return Ok(Tun), Taken;
      }
      r, reply := Refuse(from, held, NoRoute, Icmp.NoRouteToHost, hop);
    }

    /** The rate limiter of one session; a session without one is not limited. */
    method Admit(from: SessionId, bytes: U64, now: nat) returns (ok: bool)
      modifies this`limiters
      ensures ok == (from !in old(limiters) || Limiter.TryConsume(limits, old(limiters)[from], bytes, now).1)
      ensures limiters == if from in old(limiters)
                          then old(limiters)[from := Limiter.TryConsume(limits, old(limiters)[from], bytes, now).0]
                          else old(limiters)
    {
      if from !in limiters {
        return true;
      }
      var (bucket, admitted) := Limiter.TryConsume(limits, limiters[from], bytes, now);
      limiters := limiters[from := bucket];
      return admitted;
    }

    /** A packet the rate limiter let through: decide, count. */
    method ForwardAdmitted(from: SessionId, held: seq<AssignedAddress>, packet: Octets)
      returns (r: Forwarding<Forwarded>, ghost route: Option<SessionId>, ghost reply: Reply)
      requires Valid()
      modifies this`metrics, this`log
      ensures Valid()
      ensures Moves(FromClient(View(), from, held, packet, route, false, reply, r), old(metrics), old(log), metrics, log)
      ensures Forwardable(View(), from, held, packet) ==>
                table.View().Answers(Parse(packet).value.dst, Parse(packet).value.protocol, route)
    {
      log := log.(fromClient := log.fromClient + 1);
      ghost var called := log;
      r, route, reply := ForwardValidated(from, held, packet);
      ghost var v := Judge(View(), from, held, packet, route);
      BookedCounted(old(metrics), called, metrics, log,
                    Drops(View(), from, v, PeerNarrow(View(), from, held, packet, v), reply), r);
      metrics := Counted(metrics, r);
      MoveConserved(FromClient(View(), from, held, packet, route, false, reply, r), old(metrics), old(log), metrics, log);
    }

    /** `forward_from_client`: rate limit, decide, count. One call of the run, judged with what the lookup answers. */
    method ForwardFromClient(from: SessionId, held: seq<AssignedAddress>, packet: Octets, now: nat)
      returns (r: Forwarding<Forwarded>, ghost route: Option<SessionId>, ghost limited: bool, ghost reply: Reply)
      requires Valid() && |packet| < 0x1_0000_0000_0000_0000
      modifies this`metrics, this`log, this`limiters
      ensures Valid()
      ensures Moves(FromClient(View(), from, held, packet, route, limited, reply, r), old(metrics), old(log), metrics, log)
      ensures limited <==> from in old(limiters) && !Limiter.TryConsume(limits, old(limiters)[from], |packet|, now).1
      ensures limiters == if from in old(limiters)
                          then old(limiters)[from := Limiter.TryConsume(limits, old(limiters)[from], |packet|, now).0]
                          else old(limiters)
      ensures !limited && Forwardable(View(), from, held, packet) ==>
                table.View().Answers(Parse(packet).value.dst, Parse(packet).value.protocol, route)
    {
      route, reply := None, Taken;
      var admitted := Admit(from, |packet|, now);
      limited := !admitted;
      if !admitted {
        metrics := metrics.(rateLimited := metrics.rateLimited + 1);
        log := log.(fromClient := log.fromClient + 1);
        r := Err(RateLimited);
        MoveConserved(FromClient(View(), from, held, packet, route, true, reply, r), old(metrics), old(log), metrics, log);
      } else {
        r, route, reply := ForwardAdmitted(from, held, packet);
      }
    }

    /** `dispatch_from_network`. */
    method DispatchFromNetwork(packet: Octets)
      returns (r: Forwarding<SessionId>, ghost route: Option<SessionId>, ghost reply: Reply)
      requires Valid()
      modifies this`metrics, this`log
      ensures Valid() && Moves(FromNetwork(View(), packet, route, reply, r), old(metrics), old(log), metrics, log)
      ensures Parse(packet).Ok? ==> table.View().Answers(Parse(packet).value.dst, Parse(packet).value.protocol, route)
    {
      r, route, reply := Dispatch(packet);
      MoveConserved(FromNetwork(View(), packet, route, reply, r), old(metrics), old(log), metrics, log);
    }

    method Dispatch(packet: Octets)
      returns (r: Forwarding<SessionId>, ghost route: Option<SessionId>, ghost reply: Reply)
      requires Router.ValidRoutes(table.routes)
      modifies this`metrics, this`log
      ensures Moves(FromNetwork(View(), packet, route, reply, r), old(metrics), old(log), metrics, log)
      ensures Parse(packet).Ok? ==> table.View().Answers(Parse(packet).value.dst, Parse(packet).value.protocol, route)
    {
      route, reply := None, Taken;
      var info := Parse(packet);
      if info.Err? {
        MalformedOnly(packet);
        return Err(info.error), None, Taken;
      }
      var target := table.Lookup(info.value.dst, info.value.protocol);
      route := target;
      if target.None? {
        return Err(NoRoute), route, Taken;
      }
      if !View().Allows(target.value, info.value.src, info.value.protocol) {
        return Err(NotAllowed(info.value.src)), route, Taken;
      }
      if |packet| > View().MtuOf(target.value) {
        metrics := metrics.(mtuDropped := metrics.mtuDropped + 1);
        return Err(MtuExceeded), route, Taken;
      }
      var hop := Hop(packet);
      if hop.Err? {
        return Err(hop.error), route, Taken;
      }
      var d;
      d, reply := Deliver(target.value, hop.value);
      if d.Err? {
        return Err(d.error), route, reply;
      }
      log := log.(dispatched := log.dispatched + 1);
      return Ok(target.value), route, reply;
    }
  }
}
