/** The routes a session is given and held to: `resolve_advertised_routes` and `full_tunnel_routes` in
    src/session/handler.rs and `IpAddressRange::from_net` in src/capsule/mod.rs. Name resolution is an input. */
module Advertise {
  import opened Octets
  import opened Address
  import opened Net
  import opened CapsulePayload
  import Ranges

  /** What the request asked for; a hostname arrives as its addresses. */
  datatype Target = Everything | Prefix(ip: IpAddr, len: Byte) | Hosts(addrs: seq<IpAddr>)

  /** The address pools and the configured split-tunnel prefixes. */
  datatype Config = Config(net4: IpNet, net6: Option<IpNet>, split: seq<IpNet>) {
    ghost predicate Valid() {
      && net4.Valid() && net4.addr.V4? && (net6.Some? ==> net6.value.Valid() && net6.value.addr.V6?)
      && forall i :: 0 <= i < |split| ==> split[i].Valid()
    }
  }

  datatype RouteError = InvalidRequest | DnsFailure

  function FromNet(net: IpNet, proto: Byte): (r: IpAddressRange)
    requires net.Valid()
    ensures r.WellFormed() && r.ipProtocol == proto
    ensures forall addr, p :: r.Contains(addr, p) <==> net.Contains(addr) && Scoped(proto, addr, p)
  {
    NetBounds(net);
    IpAddressRange(net.addr.Version(), Of(net.addr.V4?, net.Network()), Of(net.addr.V4?, net.Last()), proto)
  }

  function FromNets(nets: seq<IpNet>, proto: Byte): (rs: seq<IpAddressRange>)
    requires forall i :: 0 <= i < |nets| ==> nets[i].Valid()
    ensures |rs| == |nets| && forall i :: 0 <= i < |nets| ==> rs[i] == FromNet(nets[i], proto)
  {
    if nets == [] then [] else [FromNet(nets[0], proto)] + FromNets(nets[1..], proto)
  }

  function FullTunnel(v6: bool, proto: Byte): seq<IpAddressRange> {
    [IpAddressRange(4, V4(0), V4(0xffff_ffff), proto)] +
    (if v6 then [IpAddressRange(6, V6(0), V6(0xffff_ffff_ffff_ffff_ffff_ffff_ffff_ffff), proto)] else [])
  }

  /** The resolved addresses of the families the proxy also assigns. */
  function HostRanges(addrs: seq<IpAddr>, v6: bool, proto: Byte): (rs: seq<IpAddressRange>)
    ensures forall r :: r in rs <==> exists i :: 0 <= i < |addrs| && (addrs[i].V4? || v6) && r == HostRange(addrs[i], proto)
  {
    if addrs == [] then []
    else
      var rest := HostRanges(addrs[1..], v6, proto);
      assert addrs == [addrs[0]] + addrs[1..];
      if addrs[0].V4? || v6 then [HostRange(addrs[0], proto)] + rest else rest
  }

  function HostRange(a: IpAddr, proto: Byte): IpAddressRange {
    IpAddressRange(a.Version(), a, a, proto)
  }

  /** The ranges before merging. */
  ghost function Gathered(c: Config, target: Target, proto: Byte): Result<seq<IpAddressRange>, RouteError>
    requires c.Valid()
  {
    match target
    case Everything =>
      Ok(FromNets(PoolNets(c.net4, c.net6), proto) +
         (if c.split == [] then FullTunnel(c.net6.Some?, proto) else FromNets(c.split, proto)))
    case Prefix(ip, len) =>
      var net := IpNet(ip, len);
      if !net.Valid() then Err(InvalidRequest) else Ok([FromNet(net, proto)])
    case Hosts(addrs) =>
      var rs := HostRanges(addrs, c.net6.Some?, proto);
      if rs == [] then Err(DnsFailure) else Ok(rs)
  }

  /** `resolve_advertised_routes`; no protocol asked for is every protocol. */
  ghost function Resolve(c: Config, target: Target, proto: Option<Byte>): Result<seq<IpAddressRange>, RouteError>
    requires c.Valid()
  {
    var rs := Gathered(c, target, if proto.Some? then proto.value else 0);
    if rs.Err? then rs else Ok(Ranges.Merge(rs.value))
  }

  /** The destinations a request should get. */
  ghost predicate Wanted(c: Config, target: Target, addr: IpAddr)
    requires c.Valid()
  {
    match target
    case Everything =>
      || c.net4.Contains(addr) || (c.net6.Some? && c.net6.value.Contains(addr))
      || (if c.split == [] then addr.V4? || c.net6.Some? else exists i :: 0 <= i < |c.split| && c.split[i].Contains(addr))
    case Prefix(ip, len) => IpNet(ip, len).Valid() && IpNet(ip, len).Contains(addr)
    case Hosts(addrs) => addr in addrs && (addr.V4? || c.net6.Some?)
  }

  lemma NetsAdmit(nets: seq<IpNet>, proto: Byte, addr: IpAddr, p: Byte)
    requires forall i :: 0 <= i < |nets| ==> nets[i].Valid()
    ensures Ranges.Admits(FromNets(nets, proto), addr, p) <==>
            Scoped(proto, addr, p) && exists i :: 0 <= i < |nets| && nets[i].Contains(addr)
  {
    var rs := FromNets(nets, proto);
    forall i | 0 <= i < |nets|
      ensures rs[i].Contains(addr, p) <==> nets[i].Contains(addr) && Scoped(proto, addr, p)
    {
    }
  }

  lemma AdmitsBoth(a: seq<IpAddressRange>, b: seq<IpAddressRange>, addr: IpAddr, p: Byte)
    ensures Ranges.Admits(a + b, addr, p) <==> Ranges.Admits(a, addr, p) || Ranges.Admits(b, addr, p)
  {
    if i :| 0 <= i < |a| && a[i].Contains(addr, p) {
      assert (a + b)[i].Contains(addr, p);
    }
    if i :| 0 <= i < |b| && b[i].Contains(addr, p) {
      assert (a + b)[|a| + i].Contains(addr, p);
    }
  }

  lemma FullTunnelAdmits(v6: bool, proto: Byte, addr: IpAddr, p: Byte)
    ensures Ranges.Admits(FullTunnel(v6, proto), addr, p) <==> Scoped(proto, addr, p) && (addr.V4? || v6)
  {
    var rs := FullTunnel(v6, proto);
    assert rs[0].Contains(addr, p) <==> addr.V4? && Scoped(proto, addr, p);
    assert v6 ==> (rs[1].Contains(addr, p) <==> addr.V6? && Scoped(proto, addr, p));
  }

  lemma HostsAdmit(addrs: seq<IpAddr>, v6: bool, proto: Byte, addr: IpAddr, p: Byte)
    ensures Ranges.Admits(HostRanges(addrs, v6, proto), addr, p) <==> Scoped(proto, addr, p) && addr in addrs && (addr.V4? || v6)
  {
    var rs := HostRanges(addrs, v6, proto);
    if i :| 0 <= i < |rs| && rs[i].Contains(addr, p) {
      assert rs[i] in rs;
    }
    if Scoped(proto, addr, p) && addr in addrs && (addr.V4? || v6) {
      var r := HostRange(addr, proto);
      assert r in rs && r.Contains(addr, p);
      var i :| 0 <= i < |rs| && rs[i] == r;
      assert rs[i].Contains(addr, p);
    }
  }

  lemma PoolsAdmit(c: Config, proto: Byte, addr: IpAddr, p: Byte)
    requires c.Valid()
    ensures Ranges.Admits(FromNets(PoolNets(c.net4, c.net6), proto), addr, p) <==>
            Scoped(proto, addr, p) && (c.net4.Contains(addr) || (c.net6.Some? && c.net6.value.Contains(addr)))
  {
    var nets := PoolNets(c.net4, c.net6);
    NetsAdmit(nets, proto, addr, p);
    assert nets[0] == c.net4 && (c.net6.Some? ==> nets[1] == c.net6.value);
  }

  lemma GatheredAdmits(c: Config, target: Target, proto: Byte, addr: IpAddr, p: Byte)
    requires c.Valid() && Gathered(c, target, proto).Ok?
    ensures Ranges.Admits(Gathered(c, target, proto).value, addr, p) <==> Wanted(c, target, addr) && Scoped(proto, addr, p)
  {
    var rs := Gathered(c, target, proto).value;
    match target
    case Everything =>
      PoolsAdmit(c, proto, addr, p);
      FullTunnelAdmits(c.net6.Some?, proto, addr, p);
      NetsAdmit(c.split, proto, addr, p);
      AdmitsBoth(FromNets(PoolNets(c.net4, c.net6), proto), rs[|PoolNets(c.net4, c.net6)|..], addr, p);
      assert rs == FromNets(PoolNets(c.net4, c.net6), proto) + rs[|PoolNets(c.net4, c.net6)|..];
      assert rs[|PoolNets(c.net4, c.net6)|..] == if c.split == [] then FullTunnel(c.net6.Some?, proto) else FromNets(c.split, proto);
    case Prefix(ip, len) =>
      assert rs[0] == FromNet(IpNet(ip, len), proto);
    case Hosts(addrs) =>
      HostsAdmit(addrs, c.net6.Some?, proto, addr, p);
  }

  lemma GatheredUniform(c: Config, target: Target, proto: Byte)
    requires c.Valid() && Gathered(c, target, proto).Ok?
    ensures forall r :: r in Gathered(c, target, proto).value ==> r.WellFormed() && r.ipProtocol == proto
  {
  }

  /** The advertised routes, which are also the egress policy, admit exactly the wanted destinations under the asked
      protocol (ICMP always passes), and they are a valid capsule: disjoint, ascending, and unchanged by the wire. */
  lemma AdvertisedExactly(c: Config, target: Target, proto: Option<Byte>, addr: IpAddr, p: Byte)
    requires c.Valid() && Resolve(c, target, proto).Ok?
    ensures var rs := Resolve(c, target, proto).value;
            && (Ranges.Admits(rs, addr, p) <==>
                Wanted(c, target, addr) && Scoped(if proto.Some? then proto.value else 0, addr, p))
            && Ranges.Separate(rs) && DecodeRoutes(EncodeRoutes(rs)) == Ok(rs)
  {
    var protocol := if proto.Some? then proto.value else 0;
    var rs := Gathered(c, target, protocol).value;
    GatheredAdmits(c, target, protocol, addr, p);
    GatheredUniform(c, target, protocol);
    assert forall i :: 0 <= i < |rs| ==> rs[i] in rs;
    Ranges.MergedRoutesRoundTrip(rs);
    Ranges.MergeSeparates(rs);
  }

  /** A request is refused exactly for an impossible prefix or a name without a usable address. */
  lemma RefusedExactly(c: Config, target: Target, proto: Option<Byte>)
    requires c.Valid()
    ensures Resolve(c, target, proto).Err? <==>
            || (target.Prefix? && target.len > (if target.ip.V4? then 32 else 128))
            || (target.Hosts? && forall a :: a in target.addrs ==> a.V6? && c.net6.None?)
    ensures Resolve(c, target, proto).Err? ==>
              Resolve(c, target, proto).error == if target.Prefix? then InvalidRequest else DnsFailure
  {
    if target.Hosts? {
      NoHosts(target.addrs, c.net6.Some?, if proto.Some? then proto.value else 0);
    }
  }

  lemma {:induction false} NoHosts(addrs: seq<IpAddr>, v6: bool, proto: Byte)
    ensures HostRanges(addrs, v6, proto) == [] <==> forall a :: a in addrs ==> a.V6? && !v6
  {
    if addrs != [] {
      NoHosts(addrs[1..], v6, proto);
      assert addrs[0] in addrs && forall a :: a in addrs <==> a == addrs[0] || a in addrs[1..];
      assert HostRanges(addrs, v6, proto) == [] <==>
             !(addrs[0].V4? || v6) && HostRanges(addrs[1..], v6, proto) == [];
    }
  }
}
