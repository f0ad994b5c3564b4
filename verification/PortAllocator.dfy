/** Public (IP, port) allocation for bind sessions: src/udp_bind/alloc.rs. */
module PortAllocator {
  import opened Octets
  import opened Address

  datatype Ports = Ports(ips: seq<IpAddr>, lo: U16, hi: U16, inUse: set<SocketAddr>, nextIp: nat, nextPort: U16) {

    predicate Valid() {
      ips != [] && lo <= nextPort <= hi && nextIp < |ips|
    }

    predicate Offers(a: SocketAddr) {
      a.ip in ips && lo <= a.port <= hi
    }

    function Span(): nat
      requires Valid()
    {
      hi - lo + 1
    }

    /** The `k`-th address tried at a port, from the cursor round. */
    function Index(k: nat): (i: nat)
      requires Valid()
      ensures i < |ips|
    {
      (nextIp + k) % |ips|
    }

    function Candidate(k: nat): SocketAddr
      requires Valid()
    {
      SocketAddr(ips[Index(k)], nextPort)
    }

    /** The first free candidate at the current port, from the `k`-th on. */
    function Search(k: nat): (r: Option<nat>)
      requires Valid() && k <= |ips|
      ensures r.Some? ==> k <= r.value < |ips| && Candidate(r.value) !in inUse
      ensures r.Some? ==> forall j :: k <= j < r.value ==> Candidate(j) in inUse
      ensures r.None? ==> forall j :: k <= j < |ips| ==> Candidate(j) in inUse
      decreases |ips| - k
    {
      if k == |ips| then None
      else if Candidate(k) !in inUse then Some(k)
      else Search(k + 1)
    }

    /** Commit the `k`-th candidate and move the cursor on. */
    function Commit(k: nat): Ports
      requires Valid()
    {
      var i := (Index(k) + 1) % |ips|;
      Ports(ips, lo, hi, inUse + {Candidate(k)}, i, if i == 0 then NextPort(nextPort, lo, hi) else nextPort)
    }

    /** `allocate`, with `left` ports still to try. */
    function Scan(left: nat): (Ports, Option<SocketAddr>)
      requires Valid()
      decreases left
    {
      if left == 0 then (this, None)
      else
        var k := Search(0);
        if k.Some? then (Commit(k.value), Some(Candidate(k.value)))
        else this.(nextPort := NextPort(nextPort, lo, hi)).Scan(left - 1)
    }

    function Allocate(): (Ports, Option<SocketAddr>)
      requires Valid()
    {
      Scan(Span())
    }

    function Release(a: SocketAddr): Ports {
      this.(inUse := inUse - {a})
    }
  }

  function NextPort(port: U16, lo: U16, hi: U16): (p: U16)
    requires lo <= port <= hi
    ensures lo <= p <= hi
  {
    if port >= hi then lo else port + 1
  }

  /** `PortAllocator::new`: an empty address list or an inverted range is refused. */
  function New(ips: seq<IpAddr>, lo: U16, hi: U16): (r: Option<Ports>)
    ensures r.Some? <==> ips != [] && lo <= hi
    ensures r.Some? ==> r.value.Valid()
  {
    if ips == [] || lo > hi then None else Some(Ports(ips, lo, hi, {}, 0, lo))
  }

  lemma WrapIndex(start: nat, k: nat, n: nat)
    requires start < n && k < n
    ensures (start + k) % n == if start + k < n then start + k else start + k - n
  {
    QuotientUnique(start + k, n, if start + k < n then 0 else 1, if start + k < n then start + k else start + k - n);
  }

  /** Every address is tried once at a port. */
  lemma EveryIndex(p: Ports, i: nat) returns (k: nat)
    requires p.Valid() && i < |p.ips|
    ensures k < |p.ips| && p.Index(k) == i
  {
    k := if i >= p.nextIp then i - p.nextIp else i + |p.ips| - p.nextIp;
    WrapIndex(p.nextIp, k, |p.ips|);
  }

  lemma PortFull(p: Ports, a: SocketAddr)
    requires p.Valid() && p.Search(0).None? && p.Offers(a) && a.port == p.nextPort
    ensures a in p.inUse
  {
    var i :| 0 <= i < |p.ips| && p.ips[i] == a.ip;
    var k := EveryIndex(p, i);
    assert p.Candidate(k) == a;
  }

  /** Whether a port lies among the next `left` from the cursor round. */
  predicate Ahead(p: Ports, left: nat, port: U16) {
    p.lo <= port <= p.hi &&
    (if port >= p.nextPort then port - p.nextPort < left else port - p.nextPort + (p.hi - p.lo + 1) < left)
  }

  /** The scan grants a free tuple or finds every tuple of the ports it tried in use, and then has not moved anything but
      the port cursor. */
  lemma {:induction false} ScanFinds(p: Ports, left: nat)
    requires p.Valid() && left <= p.Span()
    ensures var (q, a) := p.Scan(left);
            && q.Valid() && q.ips == p.ips && q.lo == p.lo && q.hi == p.hi
            && (a.Some? ==> p.Offers(a.value) && a.value !in p.inUse && q.inUse == p.inUse + {a.value})
            && (a.None? ==> q.inUse == p.inUse && q.nextIp == p.nextIp
                            && forall b :: p.Offers(b) && Ahead(p, left, b.port) ==> b in p.inUse)
    decreases left
  {
    if left > 0 && p.Search(0).None? {
      var n := p.(nextPort := NextPort(p.nextPort, p.lo, p.hi));
      ScanFinds(n, left - 1);
      if n.Scan(left - 1).1.None? {
        forall b | p.Offers(b) && Ahead(p, left, b.port)
          ensures b in p.inUse
        {
          if b.port == p.nextPort {
            PortFull(p, b);
          } else {
            assert n.Offers(b) && Ahead(n, left - 1, b.port);
          }
        }
      }
    }
  }

  lemma {:induction false} ScanCursor(p: Ports, left: nat)
    requires p.Valid() && left <= p.Span() && p.Scan(left).1.None?
    ensures var q := p.Scan(left).0;
            q.nextPort == if p.nextPort + left <= p.hi then p.nextPort + left else p.nextPort + left - p.Span()
    decreases left
  {
    if left > 0 {
      ScanCursor(p.(nextPort := NextPort(p.nextPort, p.lo, p.hi)), left - 1);
    }
  }

  /** `allocate` never repeats a tuple in use, and returns nothing exactly when every tuple is in use, wherever the
      cursor stands; a failed call changes nothing at all. */
  lemma AllocateExactly(p: Ports)
    requires p.Valid()
    ensures var (q, a) := p.Allocate();
            && q.Valid() && q.ips == p.ips && q.lo == p.lo && q.hi == p.hi
            && (a.Some? ==> p.Offers(a.value) && a.value !in p.inUse && q.inUse == p.inUse + {a.value})
            && (a.None? <==> forall b :: p.Offers(b) ==> b in p.inUse)
            && (a.None? ==> q == p)
  {
    ScanFinds(p, p.Span());
    var (q, a) := p.Allocate();
    if a.None? {
      ScanCursor(p, p.Span());
      forall b | p.Offers(b)
        ensures b in p.inUse
      {
        assert Ahead(p, p.Span(), b.port);
      }
    }
  }

  /** Released, a tuple can be had again. */
  lemma ReleaseReopens(p: Ports, a: SocketAddr)
    requires p.Valid() && p.Offers(a)
    ensures p.Release(a).Allocate().1.Some?
  {
    AllocateExactly(p.Release(a));
  }

  /** Released, a tuple is the only one that comes free: with everything else in use the next allocation is that tuple. */
  lemma ReleaseReturns(p: Ports, a: SocketAddr)
    requires p.Valid() && p.Offers(a) && forall b :: p.Offers(b) ==> b in p.inUse
    ensures p.Release(a).Allocate().1 == Some(a)
  {
    AllocateExactly(p.Release(a));
  }

  ghost predicate Distinct(ips: seq<IpAddr>) {
    forall i, j :: 0 <= i < j < |ips| ==> ips[i] != ips[j]
  }

  /** The `n`-th tuple of a fresh allocator: addresses vary fastest. */
  function Nth(ips: seq<IpAddr>, lo: nat, n: nat): SocketAddr
    requires ips != [] && lo + n / |ips| <= 0xffff
  {
    SocketAddr(ips[n % |ips|], lo + n / |ips|)
  }

  /** The state after `n` allocations and no release. */
  ghost predicate Fresh(p: Ports, n: nat) {
    && p.Valid() && Distinct(p.ips) && p.lo + n / |p.ips| <= p.hi + 1
    && p.nextIp == n % |p.ips|
    && (p.lo + n / |p.ips| <= p.hi ==> p.nextPort == p.lo + n / |p.ips|)
    && (forall i, port: U16 :: 0 <= i < |p.ips| && Earlier(p, n, i, port) ==> SocketAddr(p.ips[i], port) in p.inUse)
    && (forall a :: a in p.inUse ==> exists i :: 0 <= i < |p.ips| && a.ip == p.ips[i] && Earlier(p, n, i, a.port))
  }

  predicate Earlier(p: Ports, n: nat, i: nat, port: U16)
    requires p.ips != []
  {
    p.lo <= port && (port < p.lo + n / |p.ips| || (port == p.lo + n / |p.ips| && i < n % |p.ips|))
  }

  lemma NextIndex(n: nat, k: nat)
    requires k > 0
    ensures if n % k + 1 == k then (n + 1) % k == 0 && (n + 1) / k == n / k + 1
            else (n + 1) % k == n % k + 1 && (n + 1) / k == n / k
    ensures (n % k + 1) % k == (n + 1) % k
  {
    var q, r := n / k, n % k;
    assert n == k * q + r;
    if r + 1 == k {
      Distribute(k, q, 1);
      QuotientUnique(n + 1, k, q + 1, 0);
      QuotientUnique(r + 1, k, 1, 0);
    } else {
      QuotientUnique(n + 1, k, q, r + 1);
      QuotientUnique(r + 1, k, 0, r + 1);
    }
  }

  /** With distinct addresses and no release, allocation `n` is (ips[n mod k], lo + n div k). */
  lemma FreshStep(p: Ports, n: nat)
    requires Fresh(p, n) && p.lo + n / |p.ips| <= p.hi
    ensures p.Allocate().1 == Some(Nth(p.ips, p.lo, n))
    ensures Fresh(p.Allocate().0, n + 1)
  {
    var k := |p.ips|;
    var a := Nth(p.ips, p.lo, n);
    WrapIndex(p.nextIp, 0, k);
    assert p.Candidate(0) == a;
    FreshFree(p, n);
    assert p.Search(0) == Some(0);
    assert p.Allocate() == (p.Commit(0), Some(a));
    NextIndex(n, k);
    CommitFresh(p, p.Commit(0), n);
  }

  lemma FreshFree(p: Ports, n: nat)
    requires Fresh(p, n) && p.lo + n / |p.ips| <= p.hi
    ensures Nth(p.ips, p.lo, n) !in p.inUse
  {
    var a := Nth(p.ips, p.lo, n);
    forall i: nat | i < |p.ips| && a.ip == p.ips[i]
      ensures !Earlier(p, n, i, a.port)
    {
      assert i == n % |p.ips|;
    }
  }

  lemma CommitFresh(p: Ports, q: Ports, n: nat)
    requires Fresh(p, n) && p.lo + n / |p.ips| <= p.hi
    requires q.ips == p.ips && q.lo == p.lo && q.hi == p.hi && q.inUse == p.inUse + {Nth(p.ips, p.lo, n)}
    requires q.nextIp == (n + 1) % |p.ips|
    requires q.nextPort == if q.nextIp == 0 then NextPort(p.nextPort, p.lo, p.hi) else p.nextPort
    ensures Fresh(q, n + 1)
  {
    var k := |p.ips|;
    NextIndex(n, k);
    forall i, port: U16 | 0 <= i < k && Earlier(q, n + 1, i, port)
      ensures SocketAddr(q.ips[i], port) in q.inUse
    {
      EarlierGrows(p, q, n, i, port);
    }
    forall a | a in q.inUse
      ensures exists i :: 0 <= i < k && a.ip == q.ips[i] && Earlier(q, n + 1, i, a.port)
    {
      var i: nat;
      if a in p.inUse {
        i :| 0 <= i < k && a.ip == p.ips[i] && Earlier(p, n, i, a.port);
      } else {
        i := n % k;
      }
      EarlierGrows(p, q, n, i, a.port);
      assert a.ip == q.ips[i] && Earlier(q, n + 1, i, a.port);
    }
  }

  lemma EarlierGrows(p: Ports, q: Ports, n: nat, i: nat, port: U16)
    requires p.ips != [] && q.ips == p.ips && q.lo == p.lo && i < |p.ips|
    ensures Earlier(q, n + 1, i, port) <==> Earlier(p, n, i, port) || (i == n % |p.ips| && port == p.lo + n / |p.ips|)
  {
    NextIndex(n, |p.ips|);
  }

  /** The allocator after `n` allocations and no release. */
  function After(p: Ports, n: nat): (q: Ports)
    requires p.Valid()
    ensures q.Valid() && q.ips == p.ips && q.lo == p.lo && q.hi == p.hi
  {
    if n == 0 then p
    else
      AllocateExactly(After(p, n - 1));
      After(p, n - 1).Allocate().0
  }

  lemma QuotientMonotone(a: nat, b: nat, k: nat)
    requires a <= b && k > 0
    ensures a / k <= b / k
  {
    if a / k > b / k {
      assert a == k * (a / k) + a % k && b == k * (b / k) + b % k;
      Monotone(k, b / k + 1, a / k);
      Distribute(k, b / k, 1);
    }
  }

  lemma {:induction false} AfterFresh(p: Ports, n: nat)
    requires Fresh(p, 0) && (n > 0 ==> p.lo + (n - 1) / |p.ips| <= p.hi)
    ensures Fresh(After(p, n), n)
  {
    if n > 0 {
      if n > 1 {
        QuotientMonotone(n - 2, n - 1, |p.ips|);
      }
      AfterFresh(p, n - 1);
      FreshStep(After(p, n - 1), n - 1);
    }
  }

  /** From a new allocator over distinct addresses, with no release, allocation `n` is (ips[n mod k], lo + n div k) up to
      capacity. */
  lemma NthAllocation(ips: seq<IpAddr>, lo: U16, hi: U16, n: nat)
    requires ips != [] && lo <= hi && Distinct(ips) && lo + n / |ips| <= hi
    ensures After(New(ips, lo, hi).value, n).Allocate().1 == Some(Nth(ips, lo, n))
  {
    var p := New(ips, lo, hi).value;
    QuotientUnique(0, |ips|, 0, 0);
    assert Fresh(p, 0);
    if n > 0 {
      QuotientMonotone(n - 1, n, |ips|);
    }
    AfterFresh(p, n);
    FreshStep(After(p, n), n);
  }

  /** `PortAllocator`. */
  class Allocator {
    const ips: seq<IpAddr>
    const lo: U16
    const hi: U16
    var inUse: set<SocketAddr>
    var nextIp: nat
    var nextPort: U16

    function View(): Ports
      reads this
    {
      Ports(ips, lo, hi, inUse, nextIp, nextPort)
    }

    constructor (ips: seq<IpAddr>, lo: U16, hi: U16)
      requires ips != [] && lo <= hi
      ensures New(ips, lo, hi) == Some(View())
    {
      this.ips, this.lo, this.hi := ips, lo, hi;
      inUse, nextIp, nextPort := {}, 0, lo;
    }

    /** Ports from the cursor, and at each port every address from the cursor. */
    method Allocate() returns (a: Option<SocketAddr>)
      requires View().Valid()
      modifies this
      ensures (View(), a) == old(View()).Allocate()
    {
      var span := hi - lo + 1;
      for n := 0 to span
        invariant View().Valid() && View().Scan(span - n) == old(View()).Allocate()
      {
        var port := nextPort;
        for k := 0 to |ips|
          invariant View().Valid() && port == nextPort
          invariant View().Search(0) == View().Search(k)
          invariant View().Scan(span - n) == old(View()).Allocate()
        {
          var idx := (nextIp + k) % |ips|;
          var candidate := SocketAddr(ips[idx], port);
          if candidate !in inUse {
            inUse := inUse + {candidate};
            nextIp := (idx + 1) % |ips|;
            if nextIp == 0 {
              nextPort := NextPort(port, lo, hi);
            }
            return Some(candidate);
          }
        }
        nextPort := NextPort(port, lo, hi);
      }
      return None;
    }

    method Release(a: SocketAddr)
      modifies this
      ensures View() == old(View()).Release(a)
    {
      inUse := inUse - {a};
    }
  }
}
