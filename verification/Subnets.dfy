/** Ranges as prefixes: a verified version of the subnet iterators the source takes from the `ipnet` crate, and the
    `overlaps` test of src/forwarding/router.rs. */
module Subnets {
  import opened Octets
  import opened Address
  import opened Net

  /** An aligned block of `Pow2(b)` addresses starts at `start` and ends by `end`. */
  predicate Fits(start: nat, end: nat, b: nat) {
    start % Pow2(b) == 0 && start + Pow2(b) <= end + 1
  }

  /** The largest such block, climbing from `b`. */
  function Widest(v4: bool, start: nat, end: nat, b: nat): (w: nat)
    requires start <= end && b <= Bits(v4) && Fits(start, end, b)
    ensures b <= w <= Bits(v4) && Fits(start, end, w)
    ensures w == Bits(v4) || !Fits(start, end, w + 1)
    decreases Bits(v4) - b
  {
    if b < Bits(v4) && Fits(start, end, b + 1) then Widest(v4, start, end, b + 1) else b
  }

  predicate InSpace(v4: bool, k: nat) {
    k < (if v4 then 0x1_0000_0000 else 0x1_0000_0000_0000_0000_0000_0000_0000_0000)
  }

  /** The range cut greedily into aligned prefixes. */
  function Cut(v4: bool, start: nat, end: nat): (nets: seq<IpNet>)
    requires InSpace(v4, end)
    ensures forall i :: 0 <= i < |nets| ==> nets[i].Valid() && nets[i].addr.V4? == v4
    decreases end + 1 - start
  {
    if start > end then []
    else
      assert Fits(start, end, 0);
      var b := Widest(v4, start, end, 0);
      [IpNet(Of(v4, start), Bits(v4) - b)] + Cut(v4, start + Pow2(b), end)
  }

  lemma AlignedNetwork(v4: bool, start: nat, b: nat)
    requires InSpace(v4, start) && b <= Bits(v4) && start % Pow2(b) == 0
    ensures var net := IpNet(Of(v4, start), Bits(v4) - b);
            net.Valid() && net.Network() == start && net.Last() == start + (Pow2(b) - 1)
  {
    Rounded(start, Pow2(b));
  }

  lemma Rounded(x: nat, n: nat)
    requires n >= 1 && x % n == 0
    ensures x / n * n == x
  {
  }

  /** How many of the prefixes contain an address. */
  function Hits(nets: seq<IpNet>, ip: IpAddr): nat
    requires forall i :: 0 <= i < |nets| ==> nets[i].Valid()
  {
    if nets == [] then 0 else (if nets[0].Contains(ip) then 1 else 0) + Hits(nets[1..], ip)
  }

  lemma HitsBlock(v4: bool, start: nat, b: nat, nets: seq<IpNet>, ip: IpAddr)
    requires InSpace(v4, start) && b <= Bits(v4) && start % Pow2(b) == 0
    requires forall i :: 0 <= i < |nets| ==> nets[i].Valid()
    ensures Hits([IpNet(Of(v4, start), Bits(v4) - b)] + nets, ip) ==
            (if ip.V4? == v4 && start <= ip.Key() < start + Pow2(b) then 1 else 0) + Hits(nets, ip)
  {
    var net := IpNet(Of(v4, start), Bits(v4) - b);
    AlignedNetwork(v4, start, b);
    assert ([net] + nets)[0] == net && ([net] + nets)[1..] == nets;
  }

  /** The prefixes partition the range: each address of it lies in exactly one, every other address in none. */
  lemma {:induction false} CutPartitions(v4: bool, start: nat, end: nat, ip: IpAddr)
    requires InSpace(v4, end)
    ensures Hits(Cut(v4, start, end), ip) == if ip.V4? == v4 && start <= ip.Key() <= end then 1 else 0
    decreases end + 1 - start
  {
    if start <= end {
      var b, rest := CutHead(v4, start, end);
      CutPartitions(v4, start + Pow2(b), end, ip);
      HitsBlock(v4, start, b, rest, ip);
    }
  }

  /** A range that is not empty starts with an aligned block inside it. */
  lemma CutHead(v4: bool, start: nat, end: nat) returns (b: nat, rest: seq<IpNet>)
    requires InSpace(v4, end) && start <= end
    ensures b <= Bits(v4) && start % Pow2(b) == 0 && start + Pow2(b) <= end + 1
    ensures rest == Cut(v4, start + Pow2(b), end)
    ensures Cut(v4, start, end) == [IpNet(Of(v4, start), Bits(v4) - b)] + rest
  {
    assert Fits(start, end, 0);
    b := Widest(v4, start, end, 0);
    rest := Cut(v4, start + Pow2(b), end);
  }

  /** The prefix could not be doubled and still start on its own boundary and end by `end`. */
  predicate Tight(n: IpNet, end: nat)
    requires n.Valid()
  {
    n.len == 0 || n.Network() % (2 * n.Size()) != 0 || n.Network() + 2 * n.Size() > end + 1
  }

  lemma HeadTight(v4: bool, start: nat, end: nat, b: nat)
    requires InSpace(v4, start) && b <= Bits(v4) && start % Pow2(b) == 0 && (b == Bits(v4) || !Fits(start, end, b + 1))
    ensures Tight(IpNet(Of(v4, start), Bits(v4) - b), end)
  {
    AlignedNetwork(v4, start, b);
    assert Pow2(b + 1) == 2 * Pow2(b);
  }

  /** The prefixes of a range are as large as they can be. */
  lemma {:induction false} CutGreedy(v4: bool, start: nat, end: nat, i: nat)
    requires InSpace(v4, end) && i < |Cut(v4, start, end)|
    ensures Tight(Cut(v4, start, end)[i], end)
    decreases i
  {
    assert Fits(start, end, 0);
    var b := Widest(v4, start, end, 0);
    if i == 0 {
      HeadTight(v4, start, end, b);
    } else {
      CutGreedy(v4, start + Pow2(b), end, i - 1);
      assert Cut(v4, start, end)[i] == Cut(v4, start + Pow2(b), end)[i - 1];
    }
  }

  lemma {:induction false} HitsSome(nets: seq<IpNet>, ip: IpAddr)
    requires forall i :: 0 <= i < |nets| ==> nets[i].Valid()
    ensures Hits(nets, ip) > 0 <==> exists i :: 0 <= i < |nets| && nets[i].Contains(ip)
  {
    if nets != [] {
      HitsSome(nets[1..], ip);
      if j :| 0 <= j < |nets[1..]| && nets[1..][j].Contains(ip) {
        assert nets[j + 1].Contains(ip);
      }
      if j :| 0 <= j < |nets| && nets[j].Contains(ip) {
        assert j > 0 ==> nets[1..][j - 1].Contains(ip);
      }
    }
  }

  /** Some prefix of the range contains an address exactly when the range does. */
  lemma CutCovers(v4: bool, start: nat, end: nat, ip: IpAddr)
    requires InSpace(v4, end)
    ensures (exists i :: 0 <= i < |Cut(v4, start, end)| && Cut(v4, start, end)[i].Contains(ip)) <==>
            ip.V4? == v4 && start <= ip.Key() <= end
  {
    CutPartitions(v4, start, end, ip);
    HitsSome(Cut(v4, start, end), ip);
  }

  predicate Ordered(r: IpAddressRange) {
    r.startIp.V4? == r.endIp.V4? && r.startIp.Key() <= r.endIp.Key()
  }

  /** The prefixes of an advertised range; none where bounds disagree in family or order. The version octet plays no part. */
  function Prefixes(r: IpAddressRange): (nets: seq<IpNet>)
    ensures forall i :: 0 <= i < |nets| ==> nets[i].Valid()
  {
    if Ordered(r) then Cut(r.startIp.V4?, r.startIp.Key(), r.endIp.Key()) else []
  }

  predicate Between(r: IpAddressRange, ip: IpAddr) {
    Ordered(r) && ip.V4? == r.startIp.V4? && r.startIp.Key() <= ip.Key() <= r.endIp.Key()
  }

  lemma PrefixesCover(r: IpAddressRange, ip: IpAddr)
    ensures (exists i :: 0 <= i < |Prefixes(r)| && Prefixes(r)[i].Contains(ip)) <==> Between(r, ip)
  {
    var nets := Prefixes(r);
    if Ordered(r) {
      var v4, start, end := r.startIp.V4?, r.startIp.Key(), r.endIp.Key();
      CutCovers(v4, start, end, ip);
      assert nets == Cut(v4, start, end);
      if Between(r, ip) {
        var i :| 0 <= i < |Cut(v4, start, end)| && Cut(v4, start, end)[i].Contains(ip);
        assert nets[i].Contains(ip);
      }
    }
  }

  /** `overlaps`: one holds the other's first address. */
  predicate Overlaps(a: IpNet, b: IpNet)
    requires a.Valid() && b.Valid()
  {
    a.addr.V4? == b.addr.V4? && (a.Network() <= b.Network() <= a.Last() || b.Network() <= a.Network() <= b.Last())
  }

  /** Two prefixes overlap exactly when they share an address. */
  lemma OverlapsExactly(a: IpNet, b: IpNet)
    requires a.Valid() && b.Valid()
    ensures Overlaps(a, b) <==> exists ip :: a.Contains(ip) && b.Contains(ip)
  {
    NetBounds(a);
    NetBounds(b);
    if Overlaps(a, b) {
      var k := if a.Network() <= b.Network() then b.Network() else a.Network();
      var ip := Of(a.addr.V4?, k);
      assert a.Contains(ip) && b.Contains(ip);
    }
  }

  method WidestBlock(v4: bool, start: nat, end: nat) returns (b: nat)
    requires start <= end && Fits(start, end, 0)
    ensures b == Widest(v4, start, end, 0)
  {
    b := 0;
    while b < Bits(v4) && Fits(start, end, b + 1)
      invariant b <= Bits(v4) && Fits(start, end, b) && Widest(v4, start, end, 0) == Widest(v4, start, end, b)
    {
      b := b + 1;
    }
  }

  lemma CutStep(v4: bool, at: nat, end: nat, nets: seq<IpNet>)
    requires InSpace(v4, end) && at <= end && Fits(at, end, 0)
    ensures var b := Widest(v4, at, end, 0);
            nets + Cut(v4, at, end) == nets + [IpNet(Of(v4, at), Bits(v4) - b)] + Cut(v4, at + Pow2(b), end)
  {
  }

  /** The iterator as a loop. */
  method CutRange(v4: bool, start: nat, end: nat) returns (nets: seq<IpNet>)
    requires InSpace(v4, end)
    ensures nets == Cut(v4, start, end)
  {
    nets := [];
    var at := start;
    while at <= end
      invariant nets + Cut(v4, at, end) == Cut(v4, start, end)
      decreases end + 1 - at
    {
      assert Fits(at, end, 0);
      var b := WidestBlock(v4, at, end);
      CutStep(v4, at, end, nets);
      nets := nets + [IpNet(Of(v4, at), Bits(v4) - b)];
      at := at + Pow2(b);
    }
  }
}
