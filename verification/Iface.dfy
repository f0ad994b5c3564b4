/** The client's tunnel interface: the prefixes its advertised routes come to, src/iface/mod.rs. `Configure` applies and
    undoes them. */
module Iface {
  import opened Octets
  import opened Address
  import opened Net
  import opened Subnets
  import opened Sorting

  /** `IpNet`'s own order: family, address, length. */
  predicate NetLess(a: IpNet, b: IpNet) {
    || (a.addr.V4? && b.addr.V6?)
    || (a.addr.V4? == b.addr.V4? && (a.addr.Key() < b.addr.Key() || (a.addr.Key() == b.addr.Key() && a.len < b.len)))
  }

  predicate NetLeq(a: IpNet, b: IpNet) {
    !NetLess(b, a)
  }

  /** A default route goes in as two halves. */
  function SplitDefault(net: IpNet): (nets: seq<IpNet>)
    ensures forall i :: 0 <= i < |nets| ==> nets[i].len != 0 && (net.Valid() ==> nets[i].Valid())
  {
    if net.len != 0 then [net]
    else if net.addr.V4? then [IpNet(V4(0), 1), IpNet(V4(0x8000_0000), 1)]
    else [IpNet(V6(0), 1), IpNet(V6(0x8000_0000_0000_0000_0000_0000_0000_0000), 1)]
  }

  ghost predicate AllValid(nets: seq<IpNet>) {
    forall i :: 0 <= i < |nets| ==> nets[i].Valid()
  }

  ghost predicate Reach(nets: seq<IpNet>, ip: IpAddr)
    requires AllValid(nets)
  {
    exists i :: 0 <= i < |nets| && nets[i].Contains(ip)
  }

  lemma HalfBounds(net: IpNet)
    requires net.len == 1 && net.addr.Key() in {0, net.addr.Space() / 2}
    ensures net.Network() == net.addr.Key() && net.Last() == net.addr.Key() + (net.addr.Space() / 2 - 1)
  {
    PowersOfTwo();
    assert net.Size() == net.addr.Space() / 2 by {
      assert Pow2(32) == 2 * Pow2(31) && Pow2(128) == 2 * Pow2(127);
    }
    Rounded(net.addr.Key(), net.Size());
  }

  lemma WholeBounds(net: IpNet)
    requires net.len == 0
    ensures net.Network() == 0 && net.Last() == net.addr.Space() - 1
  {
    PowersOfTwo();
    assert net.Size() == net.addr.Space();
    assert net.addr.Key() / net.Size() == 0;
  }

  /** The halves reach what the whole reaches. */
  lemma SplitReaches(net: IpNet, ip: IpAddr)
    requires net.Valid()
    ensures Reach(SplitDefault(net), ip) <==> net.Contains(ip)
  {
    var nets := SplitDefault(net);
    if net.len == 0 {
      WholeBounds(net);
      HalfBounds(nets[0]);
      HalfBounds(nets[1]);
      assert nets[0].Contains(ip) || nets[1].Contains(ip) <==> net.Contains(ip);
    } else {
      assert nets[0] == net;
    }
  }

  function SplitAll(nets: seq<IpNet>): (r: seq<IpNet>)
    ensures forall i :: 0 <= i < |r| ==> r[i].len != 0
    ensures (forall i :: 0 <= i < |nets| ==> nets[i].Valid()) ==> forall i :: 0 <= i < |r| ==> r[i].Valid()
  {
    if nets == [] then [] else SplitDefault(nets[0]) + SplitAll(nets[1..])
  }

  /** One range's prefixes; a protocol scope cannot be expressed. */
  function RangePrefixes(r: IpAddressRange): (nets: seq<IpNet>)
    ensures forall i :: 0 <= i < |nets| ==> nets[i].len != 0 && nets[i].Valid()
  {
    if r.ipProtocol != 0 then [] else SplitAll(Prefixes(r))
  }

  function Gathered(ranges: seq<IpAddressRange>): (nets: seq<IpNet>)
    ensures forall i :: 0 <= i < |nets| ==> nets[i].len != 0 && nets[i].Valid()
  {
    if ranges == [] then [] else RangePrefixes(ranges[0]) + Gathered(ranges[1..])
  }

  /** `Vec::dedup`: drop repeats of the element before. */
  function Dedup(nets: seq<IpNet>): (r: seq<IpNet>)
    ensures forall x :: x in r <==> x in nets
    ensures r != [] <==> nets != []
    ensures r != [] ==> r[|r| - 1] == nets[|nets| - 1]
  {
    if |nets| <= 1 then nets
    else
      var front := Dedup(nets[..|nets| - 1]);
      assert nets == nets[..|nets| - 1] + [nets[|nets| - 1]];
      if nets[|nets| - 2] == nets[|nets| - 1] then front else front + [nets[|nets| - 1]]
  }

  /** `prefixes_from_ranges`. */
  function PrefixesFromRanges(ranges: seq<IpAddressRange>): seq<IpNet> {
    Dedup(Sort(Gathered(ranges), NetLeq))
  }

  lemma ReachAppend(a: seq<IpNet>, b: seq<IpNet>, ip: IpAddr)
    requires AllValid(a) && AllValid(b)
    ensures AllValid(a + b) && (Reach(a + b, ip) <==> Reach(a, ip) || Reach(b, ip))
  {
    if i :| 0 <= i < |a| && a[i].Contains(ip) {
      assert (a + b)[i].Contains(ip);
    }
    if i :| 0 <= i < |b| && b[i].Contains(ip) {
      assert (a + b)[|a| + i].Contains(ip);
    }
  }

  lemma {:induction false} SplitAllReaches(nets: seq<IpNet>, ip: IpAddr)
    requires AllValid(nets)
    ensures Reach(SplitAll(nets), ip) <==> Reach(nets, ip)
  {
    if nets != [] {
      SplitAllReaches(nets[1..], ip);
      SplitReaches(nets[0], ip);
      ReachAppend(SplitDefault(nets[0]), SplitAll(nets[1..]), ip);
      assert nets == [nets[0]] + nets[1..];
      ReachAppend([nets[0]], nets[1..], ip);
      assert Reach([nets[0]], ip) <==> nets[0].Contains(ip) by {
        assert [nets[0]][0] == nets[0];
      }
    }
  }

  ghost predicate Advertised(ranges: seq<IpAddressRange>, ip: IpAddr) {
    exists i :: 0 <= i < |ranges| && ranges[i].ipProtocol == 0 && Between(ranges[i], ip)
  }

  lemma RangeReaches(r: IpAddressRange, ip: IpAddr)
    ensures Reach(RangePrefixes(r), ip) <==> r.ipProtocol == 0 && Between(r, ip)
  {
    PrefixesCover(r, ip);
    SplitAllReaches(Prefixes(r), ip);
  }

  lemma {:induction false} GatheredReaches(ranges: seq<IpAddressRange>, ip: IpAddr)
    ensures Reach(Gathered(ranges), ip) <==> Advertised(ranges, ip)
  {
    if ranges != [] {
      GatheredReaches(ranges[1..], ip);
      RangeReaches(ranges[0], ip);
      ReachAppend(RangePrefixes(ranges[0]), Gathered(ranges[1..]), ip);
      if i :| 0 <= i < |ranges| && ranges[i].ipProtocol == 0 && Between(ranges[i], ip) {
        assert i > 0 ==> ranges[1..][i - 1] == ranges[i];
      }
      if i :| 0 <= i < |ranges[1..]| && ranges[1..][i].ipProtocol == 0 && Between(ranges[1..][i], ip) {
        assert ranges[i + 1] == ranges[1..][i];
      }
    }
  }

  lemma NetOrderTotal()
    ensures TotalOrder(NetLeq)
  {
  }

  lemma {:induction false} DedupStrict(nets: seq<IpNet>)
    requires Sorted(nets, NetLeq)
    ensures forall i, j :: 0 <= i < j < |Dedup(nets)| ==> NetLess(Dedup(nets)[i], Dedup(nets)[j])
  {
    if |nets| > 1 {
      var front, last := nets[..|nets| - 1], nets[|nets| - 1];
      DedupStrict(front);
      var d := Dedup(front);
      if nets[|nets| - 2] != last {
        forall i | 0 <= i < |d|
          ensures NetLess(d[i], last)
        {
          assert d[|d| - 1] == nets[|nets| - 2];
          assert NetLeq(nets[|nets| - 2], last);
          assert i < |d| - 1 ==> NetLess(d[i], d[|d| - 1]);
        }
      }
    }
  }

  /** The planned prefixes reach exactly the unscoped well-formed ranges, hold no default route, and come in strictly
      ascending order. */
  lemma PrefixesExact(ranges: seq<IpAddressRange>, ip: IpAddr)
    ensures var nets := PrefixesFromRanges(ranges);
            && AllValid(nets) && (Reach(nets, ip) <==> Advertised(ranges, ip))
            && (forall i :: 0 <= i < |nets| ==> nets[i].len != 0)
            && (forall i, j :: 0 <= i < j < |nets| ==> NetLess(nets[i], nets[j]))
  {
    var raw := Gathered(ranges);
    var sorted := Sort(raw, NetLeq);
    var nets := Dedup(sorted);
    SortMembers(raw, NetLeq);
    GatheredReaches(ranges, ip);
    SameMembersReach(raw, nets, ip);
    NetOrderTotal();
    SortSorted(raw, NetLeq);
    DedupStrict(sorted);
  }

  lemma SameMembersReach(a: seq<IpNet>, b: seq<IpNet>, ip: IpAddr)
    requires (forall x :: x in a <==> x in b) && AllValid(a) && forall i :: 0 <= i < |a| ==> a[i].len != 0
    ensures AllValid(b) && (Reach(a, ip) <==> Reach(b, ip)) && forall i :: 0 <= i < |b| ==> b[i].len != 0
  {
    forall i | 0 <= i < |b|
      ensures b[i].Valid() && b[i].len != 0
    {
      assert b[i] in a;
    }
    if i :| 0 <= i < |a| && a[i].Contains(ip) {
      assert a[i] in b;
    }
    if i :| 0 <= i < |b| && b[i].Contains(ip) {
      assert b[i] in a;
    }
  }

  /** What one range adds: nothing when scoped or malformed. */
  method PrefixesOf(range: IpAddressRange) returns (nets: seq<IpNet>)
    ensures nets == RangePrefixes(range)
  {
    if range.ipProtocol != 0 {
      return [];
    }
    if !Ordered(range) {
      return [];
    }
    var prefixes := CutRange(range.startIp.V4?, range.startIp.Key(), range.endIp.Key());
    nets := Extend([], prefixes);
    assert [] + SplitAll(prefixes) == SplitAll(prefixes);
  }

  lemma GatheredStep(ranges: seq<IpAddressRange>, n: nat, out: seq<IpNet>)
    requires n < |ranges|
    ensures out + Gathered(ranges[n..]) == out + RangePrefixes(ranges[n]) + Gathered(ranges[n + 1..])
  {
    assert ranges[n..][0] == ranges[n] && ranges[n..][1..] == ranges[n + 1..];
  }

  /** `prefixes_from_ranges`. */
  method CollectPrefixes(ranges: seq<IpAddressRange>) returns (out: seq<IpNet>)
    ensures out == PrefixesFromRanges(ranges)
  {
    out := [];
    assert ranges[0..] == ranges && [] + Gathered(ranges) == Gathered(ranges);
    for n := 0 to |ranges|
      invariant out + Gathered(ranges[n..]) == Gathered(ranges)
    {
      GatheredStep(ranges, n, out);
      var nets := PrefixesOf(ranges[n]);
      out := out + nets;
    }
    assert ranges[|ranges|..] == [] && out + [] == out;
    out := Dedup(Sort(out, NetLeq));
  }

  method Extend(out: seq<IpNet>, prefixes: seq<IpNet>) returns (r: seq<IpNet>)
    ensures r == out + SplitAll(prefixes)
  {
    r := out;
    for k := 0 to |prefixes|
      invariant r + SplitAll(prefixes[k..]) == out + SplitAll(prefixes)
    {
      ghost var rest := SplitAll(prefixes[k + 1..]);
      assert prefixes[k..][0] == prefixes[k] && prefixes[k..][1..] == prefixes[k + 1..];
      assert r + (SplitDefault(prefixes[k]) + rest) == r + SplitDefault(prefixes[k]) + rest;
      r := r + SplitDefault(prefixes[k]);
    }
    assert prefixes[|prefixes|..] == [] && r + [] == r;
  }
}
