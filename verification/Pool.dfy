/** Client address pools: src/address_pool.rs, as values. `AddressPool.dfy` refines these operations in place. */
module Pool {
  import opened Octets
  import opened Address
  import opened Net
  import opened Session

  /** One family's lazily materialised hosts: released addresses in `free`, and a cursor over the offsets below `limit`
      that were never handed out in pool order. `last` is the broadcast address. */
  datatype Hosts = Hosts(v4: bool, base: nat, last: nat, limit: nat, cursor: nat, free: set<nat>) {

    predicate Valid() {
      && base + limit <= last + 1 && cursor <= limit && base <= last
      && last < (if v4 then 0x1_0000_0000 else 0x1_0000_0000_0000_0000_0000_0000_0000_0000)
      && (v4 ==> limit == last - base)
      && (forall k: nat :: k in free ==> base <= k <= last)
    }

    /** Offsets 0 and 1 (network and gateway) are passed over. */
    function Skipped(): nat {
      if cursor >= limit || cursor >= 2 then cursor else Min(2, limit)
    }

    /** Still ahead of the cursor. */
    predicate Ahead(k: nat) {
      base + 2 <= k && base + cursor <= k < base + limit
    }

    predicate Offers(k: nat) {
      k in free || Ahead(k)
    }

    function Address(k: nat): IpAddr
      requires Valid() && k <= last
    {
      Of(v4, k)
    }

    /** `next`: the least released address, else the host at the cursor. */
    function Next(): (Hosts, Option<nat>)
    {
      if free != {} then
        var k := Least(free);
        (this.(free := free - {k}), Some(k))
      else if Skipped() >= limit then (this.(cursor := Skipped()), None)
      else (this.(cursor := Skipped() + 1), Some(base + Skipped()))
    }

    /** The retry loop around `next`: candidates already held are dropped. */
    function Take(holders: map<IpAddr, SessionId>): (r: (Hosts, Option<nat>))
      requires Valid()
      ensures r.0.Valid() && r.0.v4 == v4 && r.0.last == last
      ensures r.1.Some? ==> base <= r.1.value <= last
      decreases |free|, limit - cursor
    {
      var (h, k) := Next();
      if k.None? || h.Address(k.value) !in holders then (h, k) else h.Take(holders)
    }
  }

  ghost predicate IsLeast(m: nat, s: set<nat>) {
    m in s && forall x :: x in s ==> m <= x
  }

  lemma {:induction false} LeastExists(s: set<nat>)
    requires s != {}
    ensures exists m :: IsLeast(m, s)
  {
    var y :| y in s;
    var t := s - {y};
    if t == {} {
      assert s == {y};
      assert IsLeast(y, s);
    } else {
      LeastExists(t);
      var m :| IsLeast(m, t);
      assert forall x :: x in s ==> x == y || x in t;
      assert IsLeast(if m <= y then m else y, s);
    }
  }

  /** `BTreeSet::pop_first`. */
  function Least(s: set<nat>): (m: nat)
    requires s != {}
    ensures m in s && forall x :: x in s ==> m <= x
  {
    LeastExists(s);
    assert exists m :: m in s && forall x :: x in s ==> m <= x by {
      var l :| IsLeast(l, s);
      assert l in s && forall x :: x in s ==> l <= x;
    }
    var m :| m in s && forall x :: x in s ==> m <= x;
    m
  }

  /** What the retry loop finds, in terms of what the hosts offered before: an offered address nobody holds, the released
      ones first and lowest first, or nothing when everything offered is held. What it passed over, and only that, is
      gone from the offer, and all of it is held. */
  ghost predicate Taken(h: Hosts, holders: map<IpAddr, SessionId>, next: Hosts, k: Option<nat>)
    requires h.Valid() && next.Valid()
  {
    && next == h.(cursor := next.cursor, free := next.free)
    && (k.Some? ==>
          && h.Offers(k.value) && k.value <= h.last && h.Address(k.value) !in holders
          && (k.value in h.free ==> forall x :: x in h.free && x < k.value ==> h.Address(x) in holders)
          && (k.value !in h.free ==> forall x: nat :: h.Offers(x) && (x in h.free || x < k.value) ==> h.Address(x) in holders))
    && (k.None? ==> forall x: nat :: h.Offers(x) ==> h.Address(x) in holders)
    && (forall x: nat :: next.Offers(x) ==> h.Offers(x))
    && (forall x: nat :: h.Offers(x) && k != Some(x) ==> next.Offers(x) || h.Address(x) in holders)
  }

  lemma NextOffers(h: Hosts)
    requires h.Valid()
    ensures h.Next().0.Valid()
    ensures var (n, k) := h.Next();
            && n == h.(cursor := n.cursor, free := n.free)
            && (k.None? ==> forall x: nat :: !h.Offers(x))
            && (k.Some? ==>
                  && h.Offers(k.value) && k.value <= h.last
                  && (forall x: nat :: h.Offers(x) && x != k.value ==> n.Offers(x))
                  && (forall x: nat :: n.Offers(x) ==> h.Offers(x))
                  && (k.value in h.free ==> k.value !in n.free && forall x :: x in h.free ==> k.value <= x)
                  && (k.value !in h.free ==> h.free == {} && forall x: nat :: h.Offers(x) ==> k.value <= x))
  {
  }

  lemma {:induction false} TakeTaken(h: Hosts, holders: map<IpAddr, SessionId>)
    requires h.Valid()
    ensures Taken(h, holders, h.Take(holders).0, h.Take(holders).1)
    decreases |h.free|, h.limit - h.cursor
  {
    NextOffers(h);
    var (n, k) := h.Next();
    if k.Some? && n.Address(k.value) in holders {
      TakeTaken(n, holders);
      TakenAfter(h, holders, n, k.value, n.Take(holders).0, n.Take(holders).1);
    }
  }

  /** Passing over one held candidate. */
  lemma TakenAfter(h: Hosts, holders: map<IpAddr, SessionId>, n: Hosts, passed: nat, next: Hosts, k: Option<nat>)
    requires h.Valid() && n.Valid() && next.Valid() && h.Next() == (n, Some(passed)) && passed <= h.last
    requires n.Address(passed) in holders && Taken(n, holders, next, k)
    ensures Taken(h, holders, next, k)
  {
    NextOffers(h);
    assert forall x: nat :: x <= h.last ==> n.Address(x) == h.Address(x);
  }

  /** The pool: both families, who holds each address, and what each session holds in order. */
  datatype Pool = Pool(v4: Hosts, v6: Option<Hosts>, holders: map<IpAddr, SessionId>, allocations: map<SessionId, seq<IpAddr>>) {

    function Held(s: SessionId): seq<IpAddr> {
      if s in allocations then allocations[s] else []
    }

    function Side(four: bool): Option<Hosts> {
      if four then Some(v4) else v6
    }

    function WithSide(four: bool, h: Hosts): Pool {
      if four then this.(v4 := h) else this.(v6 := Some(h))
    }

    /** Hosts of the IPv4 prefix other than the network, gateway and broadcast addresses. */
    predicate Usable(k: nat) {
      v4.base + 2 <= k < v4.last
    }

    /** The two maps are exact inverses, and no list repeats an address. */
    ghost predicate Inverse() {
      && (forall s, i :: s in allocations && 0 <= i < |allocations[s]| ==>
            allocations[s][i] in holders && holders[allocations[s][i]] == s)
      && (forall a :: a in holders ==> a in Held(holders[a]))
      && (forall s, i, j :: s in allocations && 0 <= i < j < |allocations[s]| ==> allocations[s][i] != allocations[s][j])
    }

    /** Everything held or released lies where it may. */
    ghost predicate Within() {
      && v4.Valid() && v4.v4 && (v6.Some? ==> v6.value.Valid() && !v6.value.v4)
      && (forall a :: a in holders ==>
            if a.V4? then Usable(a.v4) else v6.Some? && v6.value.base <= a.v6 <= v6.value.last)
      && (forall k: nat :: k in v4.free ==> Usable(k))
    }

    /** No address is lost: what pool order has passed is held or released. */
    ghost predicate Covered()
      requires Within()
    {
      && (forall k: nat :: Usable(k) ==> V4(k) in holders || v4.Offers(k))
      && (v6.Some? ==> forall k: nat :: v6.value.base + 2 <= k < v6.value.base + v6.value.limit ==>
            V6(k) in holders || v6.value.Offers(k))
    }

    ghost predicate Valid() {
      Inverse() && Within() && Covered()
    }

    /** `record`. */
    function Record(s: SessionId, a: IpAddr): Pool {
      this.(holders := holders[a := s], allocations := allocations[s := Held(s) + [a]])
    }

    /** `allocate_v4` and `allocate_v6`. */
    function Allocate(four: bool, s: SessionId): (Pool, Option<AssignedAddress>)
      requires Within()
    {
      if Side(four).None? then (this, None)
      else
        var (h, k) := Side(four).value.Take(holders);
        Commit(four, h, k, s)
    }

    /** Record what the retry loop found, unprompted (request id 0). */
    function Commit(four: bool, h: Hosts, k: Option<nat>, s: SessionId): (Pool, Option<AssignedAddress>)
      requires h.Valid() && h.v4 == four && (k.Some? ==> k.value <= h.last)
    {
      var p := WithSide(four, h);
      if k.None? then (p, None)
      else
        var a := Of(four, k.value);
        (p.Record(s, a), Some(AddressEntry(0, a.Version(), a, if four then 32 else 128)))
    }

    /** The IPv4 gateway, `base + 1` on 32 bits. */
    function Gateway(): IpAddr {
      V4((v4.base + 1) % 0x1_0000_0000)
    }

    /** `try_allocate_specific`. */
    predicate Grants(a: IpAddr) {
      && (match a
          case V4(k) => v4.base <= k <= v4.last && k != v4.base && k != v4.last
          case V6(k) => v6.Some? && v6.value.base <= k <= v6.value.last)
      && a != Gateway() && a !in holders
    }

    /** An ADDRESS_REQUEST entry that names one address. */
    static predicate Specific(r: RequestedAddress) {
      r.ipAddress.Key() != 0 && r.prefixLength == (if r.ipAddress.V4? then 32 else 128)
    }

    /** `allocate_for_request`. */
    function Request(s: SessionId, r: RequestedAddress): (Pool, Option<AssignedAddress>)
      requires Within()
    {
      if Specific(r) && Grants(r.ipAddress) then
        (Record(s, r.ipAddress), Some(AddressEntry(r.requestId, r.ipVersion, r.ipAddress, r.prefixLength)))
      else if r.ipVersion != 4 && r.ipVersion != 6 then (this, None)
      else
        var (p, a) := Allocate(r.ipVersion == 4, s);
        (p, if a.None? then None else Some(a.value.(requestId := r.requestId)))
    }

    /** `release`. */
    function Release(s: SessionId): Pool {
      if s !in allocations then this
      else
        Pool(
          v4.(free := v4.free + Keys(allocations[s], true)),
          if v6.None? then None else Some(v6.value.(free := v6.value.free + Keys(allocations[s], false))),
          map a | a in holders && a !in allocations[s] :: holders[a],
          allocations - {s})
    }
  }

  /** The numbers of one family's addresses in a list. */
  function Keys(addrs: seq<IpAddr>, four: bool): set<nat> {
    set a | a in addrs && a.V4? == four :: a.Key()
  }

  /** A fresh family over a prefix: for IPv4 every host below the broadcast address, for IPv6 at most 2^64. */
  function Fresh(net: IpNet): (h: Hosts)
    requires net.Valid()
    ensures h.Valid() && h.v4 == net.addr.V4? && h.cursor == 0 && h.free == {}
  {
    NetBounds(net);
    var base, last := net.Network(), net.Last();
    if net.addr.V4? then Hosts(true, base, last, last - base, 0, {})
    else
      WindowFits(net.len);
      Hosts(false, base, last, if net.len >= 128 then 1 else Pow2(Min(128 - net.len, 64)), 0, {})
  }

  lemma WindowFits(len: nat)
    requires len <= 128
    ensures len < 128 ==> Pow2(Min(128 - len, 64)) <= Pow2(128 - len)
    ensures len == 128 ==> Pow2(128 - len) == 1
  {
    Pow2Grows(Min(128 - len, 64), 128 - len);
  }

  lemma {:induction false} Pow2Grows(a: nat, b: nat)
    requires a <= b
    ensures Pow2(a) <= Pow2(b)
    decreases b
  {
    if a < b {
      Pow2Grows(a, b - 1);
    }
  }

  /** `AddressPool::new`. */
  function New(net4: IpNet, net6: Option<IpNet>): (p: Pool)
    requires net4.Valid() && net4.addr.V4? && (net6.Some? ==> net6.value.Valid() && net6.value.addr.V6?)
    ensures p.Valid()
  {
    Pool(Fresh(net4), if net6.None? then None else Some(Fresh(net6.value)), map[], map[])
  }

  lemma RecordInverse(p: Pool, s: SessionId, a: IpAddr)
    requires p.Inverse() && a !in p.holders
    ensures p.Record(s, a).Inverse()
  {
    var q := p.Record(s, a);
    assert q.allocations[s] == p.Held(s) + [a];
    forall b | b in q.holders
      ensures b in q.Held(q.holders[b])
    {
      if b == a {
        assert q.Held(s)[|p.Held(s)|] == a;
      } else {
        assert b in p.Held(p.holders[b]);
      }
    }
    forall i | 0 <= i < |p.Held(s)|
      ensures p.Held(s)[i] != a
    {
      assert p.Held(s)[i] in p.holders;
    }
  }

  /** Committing what the retry loop found keeps every address in its place ... */
  lemma TakenWithin(p: Pool, four: bool, n: Hosts, k: Option<nat>, s: SessionId)
    requires p.Within() && p.Side(four).Some? && n.Valid() && Taken(p.Side(four).value, p.holders, n, k)
    ensures var q := p.WithSide(four, n);
            q.Within() && (k.Some? ==> q.Record(s, Of(four, k.value)).Within())
  {
    forall x: nat | four && x in n.free
      ensures p.Usable(x)
    {
      assert n.Offers(x);
    }
  }

  /** ... and loses none. */
  lemma TakenCovered(p: Pool, four: bool, n: Hosts, k: Option<nat>, s: SessionId)
    requires p.Within() && p.Covered() && p.Side(four).Some? && n.Valid() && Taken(p.Side(four).value, p.holders, n, k)
    requires p.WithSide(four, n).Within() && (k.Some? ==> p.WithSide(four, n).Record(s, Of(four, k.value)).Within())
    ensures var q := p.WithSide(four, n);
            if k.None? then q.Covered() else q.Record(s, Of(four, k.value)).Covered()
  {
    var h := p.Side(four).value;
    forall x: nat | h.Offers(x) && k != Some(x)
      ensures n.Offers(x) || h.Address(x) in p.holders
    {
    }
  }

  /** An assignment is recorded for one session at an address nobody held, and for nobody else. */
  ghost predicate Assigns(p: Pool, s: SessionId, q: Pool, a: Option<AssignedAddress>) {
    if a.None? then q.holders == p.holders && q.allocations == p.allocations
    else
      && a.value.ipAddress !in p.holders
      && q.holders == p.holders[a.value.ipAddress := s]
      && q.allocations == p.allocations[s := p.Held(s) + [a.value.ipAddress]]
  }

  /** The assignment of one address, under a request id. */
  function Single(id: U64, a: IpAddr): AssignedAddress {
    if a.V4? then AddressEntry(id, 4, a, 32) else AddressEntry(id, 6, a, 128)
  }

  lemma CommitValid(p: Pool, four: bool, n: Hosts, k: Option<nat>, s: SessionId)
    requires p.Valid() && p.Side(four).Some? && n.Valid() && Taken(p.Side(four).value, p.holders, n, k)
    ensures n.v4 == four && (k.Some? ==> k.value <= n.last) && p.Commit(four, n, k, s).0.Valid()
  {
    TakenWithin(p, four, n, k, s);
    TakenCovered(p, four, n, k, s);
    var q := p.WithSide(four, n);
    if k.Some? {
      RecordInverse(q, s, Of(four, k.value));
    }
    assert p.Commit(four, n, k, s).0 == if k.None? then q else q.Record(s, Of(four, k.value));
  }

  lemma CommitAssigns(p: Pool, four: bool, n: Hosts, k: Option<nat>, s: SessionId)
    requires p.Within() && p.Side(four).Some? && n.Valid() && Taken(p.Side(four).value, p.holders, n, k)
    ensures n.v4 == four && (k.Some? ==> k.value <= n.last)
    ensures var (q, a) := p.Commit(four, n, k, s);
            Assigns(p, s, q, a) && (a.Some? ==> a.value.ipAddress.V4? == four && a.value == Single(0, a.value.ipAddress))
  {
  }

  /** Pool order keeps the pool valid and gives out only addresses nobody holds. */
  lemma AllocateValid(p: Pool, four: bool, s: SessionId)
    requires p.Valid()
    ensures var (q, a) := p.Allocate(four, s);
            && q.Valid() && Assigns(p, s, q, a)
            && (a.Some? ==> a.value.ipAddress.V4? == four && a.value == Single(0, a.value.ipAddress))
  {
    if p.Side(four).Some? {
      var h := p.Side(four).value;
      TakeTaken(h, p.holders);
      CommitValid(p, four, h.Take(p.holders).0, h.Take(p.holders).1, s);
      CommitAssigns(p, four, h.Take(p.holders).0, h.Take(p.holders).1, s);
    }
  }

  /** `allocate_v4` returns nothing exactly when every usable address is held. */
  lemma ExhaustedExactly(p: Pool, s: SessionId)
    requires p.Valid()
    ensures p.Allocate(true, s).1.None? <==> forall k: nat :: p.Usable(k) ==> V4(k) in p.holders
  {
    TakeTaken(p.v4, p.holders);
    var (n, k) := p.v4.Take(p.holders);
    if k.Some? {
      assert p.Usable(k.value) && V4(k.value) !in p.holders;
    } else {
      forall x: nat | p.Usable(x)
        ensures V4(x) in p.holders
      {
        assert p.v4.Offers(x) ==> p.v4.Address(x) in p.holders;
      }
    }
  }

  /** `allocate_v6` returns nothing exactly when the released addresses and the window are all held. */
  lemma ExhaustedExactlyV6(p: Pool, s: SessionId)
    requires p.Valid() && p.v6.Some?
    ensures var h := p.v6.value;
            p.Allocate(false, s).1.None? <==>
            forall k: nat :: k in h.free || h.base + 2 <= k < h.base + h.limit ==> V6(k) in p.holders
  {
    var h := p.v6.value;
    TakeTaken(h, p.holders);
    var (n, k) := h.Take(p.holders);
    if k.None? {
      forall x: nat | x in h.free || h.base + 2 <= x < h.base + h.limit
        ensures V6(x) in p.holders
      {
        assert h.Offers(x) ==> h.Address(x) in p.holders;
      }
    }
  }

  lemma GrantsExactly(p: Pool, a: IpAddr)
    requires p.Valid()
    ensures p.Grants(a) <==>
            a !in p.holders && if a.V4? then p.Usable(a.v4) else p.v6.Some? && p.v6.value.base <= a.v6 <= p.v6.value.last
  {
  }

  lemma GrantValid(p: Pool, s: SessionId, a: IpAddr)
    requires p.Valid() && p.Grants(a)
    ensures p.Record(s, a).Valid()
  {
    GrantsExactly(p, a);
    RecordInverse(p, s, a);
  }

  lemma RequestValid(p: Pool, s: SessionId, r: RequestedAddress)
    requires p.Valid()
    ensures var (q, a) := p.Request(s, r);
            && q.Valid() && Assigns(p, s, q, a) && (a.Some? ==> a.value.requestId == r.requestId)
            && (Pool.Specific(r) && p.Grants(r.ipAddress) ==> a.Some? && a.value.ipAddress == r.ipAddress)
  {
    if Pool.Specific(r) && p.Grants(r.ipAddress) {
      GrantValid(p, s, r.ipAddress);
    } else if r.ipVersion == 4 || r.ipVersion == 6 {
      AllocateValid(p, r.ipVersion == 4, s);
    }
  }

  /** A request for one address gets that address exactly when nobody holds it and it is a usable IPv4 host or lies in the
      IPv6 prefix: neither the specific attempt nor the fallback to pool order gives it out otherwise. */
  lemma SpecificExactly(p: Pool, s: SessionId, r: RequestedAddress)
    requires p.Valid() && Whole(r)
    ensures p.Request(s, r).1.Some? && p.Request(s, r).1.value.ipAddress == r.ipAddress <==>
            Grantable(p, r.ipAddress)
  {
    GrantsExactly(p, r.ipAddress);
    RequestValid(p, s, r);
    SameNet(p, ServeRequest(s, r));
    var (q, a) := p.Request(s, r);
    if a.Some? && a.value.ipAddress == r.ipAddress {
      assert r.ipAddress in q.holders;
    }
  }

  /** The entry asks for one address: not the unspecified one, and at full prefix length. */
  predicate Whole(r: RequestedAddress) {
    match r.ipAddress
    case V4(a) => a != 0 && r.prefixLength == 32
    case V6(a) => a != 0 && r.prefixLength == 128
  }

  /** Nobody holds the address, and it is a usable IPv4 host or lies in the IPv6 prefix. */
  ghost predicate Grantable(p: Pool, a: IpAddr) {
    a !in p.holders && if a.V4? then p.Usable(a.v4) else p.v6.Some? && p.v6.value.base <= a.v6 <= p.v6.value.last
  }

  /** Pool order has nothing left in a family. */
  ghost predicate Exhausted(p: Pool, four: bool)
    requires p.Within()
  {
    if four then forall k: nat :: p.Usable(k) ==> V4(k) in p.holders
    else
      p.v6.Some? ==>
        forall k: nat :: k in p.v6.value.free || p.v6.value.base + 2 <= k < p.v6.value.base + p.v6.value.limit ==>
          V6(k) in p.holders
  }

  lemma NoneExactly(p: Pool, four: bool, s: SessionId)
    requires p.Valid()
    ensures p.Allocate(four, s).1.None? <==> Exhausted(p, four)
  {
    if four {
      ExhaustedExactly(p, s);
    } else if p.v6.Some? {
      ExhaustedExactlyV6(p, s);
    }
  }

  /** A request whose address is of the version it names gets a single address of that version, under its own id. It gets
      nothing exactly when the address it asks for, if it asks for one, cannot be granted and pool order has nothing left in
      the family it names. */
  lemma RequestExactly(p: Pool, s: SessionId, r: RequestedAddress)
    requires p.Valid()
    ensures var a := p.Request(s, r).1;
            && (a.Some? && r.ipVersion == r.ipAddress.Version() ==>
                  a.value == Single(r.requestId, a.value.ipAddress) && a.value.ipVersion == r.ipVersion)
            && (a.None? <==>
                && !(Whole(r) && Grantable(p, r.ipAddress))
                && (r.ipVersion == 4 ==> Exhausted(p, true)) && (r.ipVersion == 6 ==> Exhausted(p, false)))
  {
    GrantsExactly(p, r.ipAddress);
    if !(Pool.Specific(r) && p.Grants(r.ipAddress)) && (r.ipVersion == 4 || r.ipVersion == 6) {
      AllocateValid(p, r.ipVersion == 4, s);
      NoneExactly(p, r.ipVersion == 4, s);
    }
  }

  lemma HeldExactly(p: Pool, s: SessionId, a: IpAddr)
    requires p.Inverse()
    ensures a in p.Held(s) <==> a in p.holders && p.holders[a] == s
  {
  }

  lemma HeldOnce(p: Pool, s: SessionId, t: SessionId, i: nat, j: nat)
    requires p.Inverse() && i < |p.Held(s)| && j < |p.Held(t)| && (s, i) != (t, j)
    ensures p.Held(s)[i] != p.Held(t)[j]
  {
    assert s != t ==> p.holders[p.Held(s)[i]] == s && p.holders[p.Held(t)[j]] == t;
  }

  lemma ReleaseInverse(p: Pool, s: SessionId)
    requires p.Inverse()
    ensures p.Release(s).Inverse()
    ensures forall a :: a in p.Release(s).holders <==> a in p.holders && p.holders[a] != s
    ensures forall a :: a in p.Release(s).holders ==> p.Release(s).holders[a] == p.holders[a]
  {
    var q := p.Release(s);
    forall a
      ensures a in p.Held(s) <==> a in p.holders && p.holders[a] == s
    {
      HeldExactly(p, s, a);
    }
    forall a | a in q.holders
      ensures a in q.Held(q.holders[a])
    {
      HeldExactly(p, p.holders[a], a);
    }
  }

  lemma ReleaseWithin(p: Pool, s: SessionId)
    requires p.Inverse() && p.Within()
    ensures p.Release(s).Within()
  {
    if s in p.allocations {
      var held := p.allocations[s];
      forall k: nat | k in Keys(held, true)
        ensures p.Usable(k)
      {
        var a :| a in held && a.V4? && a.Key() == k;
        HeldExactly(p, s, a);
      }
      forall k: nat | k in Keys(held, false)
        ensures p.v6.Some? && p.v6.value.base <= k <= p.v6.value.last
      {
        var a :| a in held && a.V6? && a.Key() == k;
        HeldExactly(p, s, a);
      }
    }
  }

  /** Releasing returns exactly what the session held, to everybody. */
  lemma ReleaseValid(p: Pool, s: SessionId)
    requires p.Valid()
    ensures p.Release(s).Valid()
    ensures forall a :: a in p.Release(s).holders <==> a in p.holders && p.holders[a] != s
    ensures forall a :: a in p.Release(s).holders ==> p.Release(s).holders[a] == p.holders[a]
    ensures p.Release(s).allocations == p.allocations - {s}
  {
    ReleaseInverse(p, s);
    ReleaseWithin(p, s);
    ReleaseCovered(p, s);
  }

  lemma ReleaseCovered(p: Pool, s: SessionId)
    requires p.Valid() && p.Release(s).Within()
    ensures p.Release(s).Covered()
  {
    var q := p.Release(s);
    if s in p.allocations {
      var held := p.allocations[s];
      forall k: nat | q.Usable(k)
        ensures V4(k) in q.holders || q.v4.Offers(k)
      {
        assert V4(k) in held ==> V4(k).Key() in Keys(held, true);
        assert p.Usable(k);
      }
      if q.v6.Some? {
        forall k: nat | q.v6.value.base + 2 <= k < q.v6.value.base + q.v6.value.limit
          ensures V6(k) in q.holders || q.v6.value.Offers(k)
        {
          assert V6(k) in held ==> V6(k).Key() in Keys(held, false);
        }
      }
    }
  }

  /** Once a session that held an IPv4 address is gone, somebody else can have one. */
  lemma ReleaseReopens(p: Pool, s: SessionId, t: SessionId)
    requires p.Valid() && exists a :: a in p.Held(s) && a.V4?
    ensures p.Release(s).Within() && p.Release(s).Allocate(true, t).1.Some?
  {
    var q := p.Release(s);
    var a :| a in p.Held(s) && a.V4?;
    ReleaseValid(p, s);
    ExhaustedExactly(q, t);
    assert p.Usable(a.v4) && q.Usable(a.v4) && p.holders[a] == s;
  }

  /** An operation on the pool. */
  datatype Op =
    | AllocateV4(s: SessionId)
    | AllocateV6(s: SessionId)
    | ServeRequest(s: SessionId, r: RequestedAddress)
    | ReleaseAll(s: SessionId)

  function Apply(p: Pool, op: Op): Pool
    requires p.Within()
  {
    match op
    case AllocateV4(s) => p.Allocate(true, s).0
    case AllocateV6(s) => p.Allocate(false, s).0
    case ServeRequest(s, r) => p.Request(s, r).0
    case ReleaseAll(s) => p.Release(s)
  }

  lemma ApplyValid(p: Pool, op: Op)
    requires p.Valid()
    ensures Apply(p, op).Valid()
  {
    match op
    case AllocateV4(s) => AllocateValid(p, true, s);
    case AllocateV6(s) => AllocateValid(p, false, s);
    case ServeRequest(s, r) => RequestValid(p, s, r);
    case ReleaseAll(s) => ReleaseValid(p, s);
  }

  /** The pool after any sequence of operations. */
  ghost function Run(p: Pool, ops: seq<Op>): (q: Pool)
    requires p.Valid()
    ensures q.Valid()
    decreases |ops|
  {
    if ops == [] then p
    else
      ApplyValid(p, ops[0]);
      Run(Apply(p, ops[0]), ops[1..])
  }

  /** Over any sequence of operations on a fresh pool nobody shares an address, and nobody holds one twice. */
  lemma RunExclusive(net4: IpNet, net6: Option<IpNet>, ops: seq<Op>, s: SessionId, t: SessionId, i: nat, j: nat)
    requires net4.Valid() && net4.addr.V4? && (net6.Some? ==> net6.value.Valid() && net6.value.addr.V6?)
    requires var p := Run(New(net4, net6), ops); i < |p.Held(s)| && j < |p.Held(t)| && (s, i) != (t, j)
    ensures var p := Run(New(net4, net6), ops); p.Held(s)[i] != p.Held(t)[j]
  {
    HeldOnce(Run(New(net4, net6), ops), s, t, i, j);
  }

  lemma {:induction false} RunSameNet(p: Pool, ops: seq<Op>)
    requires p.Valid()
    ensures SameNets(p, Run(p, ops))
    decreases |ops|
  {
    if ops != [] {
      ApplyValid(p, ops[0]);
      SameNet(p, ops[0]);
      RunSameNet(Apply(p, ops[0]), ops[1..]);
    }
  }

  ghost predicate SameNets(p: Pool, q: Pool) {
    && q.v4.base == p.v4.base && q.v4.last == p.v4.last && q.v6.Some? == p.v6.Some?
    && (q.v6.Some? ==> q.v6.value == p.v6.value.(cursor := q.v6.value.cursor, free := q.v6.value.free))
  }

  lemma AllocateSameNet(p: Pool, four: bool, s: SessionId)
    requires p.Within()
    ensures SameNets(p, p.Allocate(four, s).0)
  {
    if p.Side(four).Some? {
      TakeTaken(p.Side(four).value, p.holders);
    }
  }

  lemma SameNet(p: Pool, op: Op)
    requires p.Valid()
    ensures SameNets(p, Apply(p, op))
  {
    match op
    case AllocateV4(s) => AllocateSameNet(p, true, s);
    case AllocateV6(s) => AllocateSameNet(p, false, s);
    case ServeRequest(s, r) => AllocateSameNet(p, r.ipVersion == 4, s);
    case ReleaseAll(s) =>
  }

  lemma RunReserves(net4: IpNet, net6: Option<IpNet>, ops: seq<Op>)
    requires net4.Valid() && net4.addr.V4? && (net6.Some? ==> net6.value.Valid() && net6.value.addr.V6?)
    ensures var held := Run(New(net4, net6), ops).holders;
            forall k: U32 :: k in {net4.Network(), net4.Network() + 1, net4.Last()} ==> V4(k) !in held
  {
    RunSameNet(New(net4, net6), ops);
  }

  /** The sizes a fresh pool gives its families: every IPv4 host after network and gateway and before the broadcast address;
      of an IPv6 prefix at most 2^64 addresses. */
  lemma FreshOffers(net: IpNet, k: nat)
    requires net.Valid()
    ensures Fresh(net).Offers(k) <==>
            net.Network() + 2 <= k < (if net.addr.V4? then net.Last() else net.Network() + Pow2(Min(128 - net.len, 64)))
  {
    assert net.len == 128 ==> Pow2(0) == 1;
  }

  /** Over any sequence of operations on a fresh pool, an IPv4 allocation fails exactly when every host between the gateway
      and the broadcast address is held. */
  lemma RunExhausted(net4: IpNet, net6: Option<IpNet>, ops: seq<Op>, s: SessionId)
    requires net4.Valid() && net4.addr.V4? && (net6.Some? ==> net6.value.Valid() && net6.value.addr.V6?)
    ensures var p := Run(New(net4, net6), ops);
            p.Allocate(true, s).1.None? <==> forall k: nat :: net4.Network() + 2 <= k < net4.Last() ==> V4(k) in p.holders
  {
    var p := Run(New(net4, net6), ops);
    RunSameNet(New(net4, net6), ops);
    ExhaustedExactly(p, s);
    assert forall k: nat :: p.Usable(k) <==> net4.Network() + 2 <= k < net4.Last();
  }

  /** Likewise for IPv6, when the window of 2^64 addresses, or the whole of a smaller prefix, and all that was released are
      held. */
  lemma RunExhaustedV6(net4: IpNet, net6: IpNet, ops: seq<Op>, s: SessionId)
    requires net4.Valid() && net4.addr.V4? && net6.Valid() && net6.addr.V6?
    ensures var p := Run(New(net4, Some(net6)), ops);
            && p.v6.Some?
            && (p.Allocate(false, s).1.None? <==>
                forall k: nat ::
                  (k in p.v6.value.free || net6.Network() + 2 <= k < net6.Network() + Pow2(Min(128 - net6.len, 64))) ==>
                  V6(k) in p.holders)
  {
    var p := Run(New(net4, Some(net6)), ops);
    RunSameNet(New(net4, Some(net6)), ops);
    ExhaustedExactlyV6(p, s);
    assert net6.len == 128 ==> Pow2(0) == 1;
    assert p.v6.value.limit == Pow2(Min(128 - net6.len, 64));
  }

  /** IPv6 has no such reservation on specific requests: any free address of the prefix is granted, the gateway too. */
  lemma GatewayV6Granted(net4: IpNet, net6: IpNet, s: SessionId, r: RequestedAddress)
    requires net4.Valid() && net4.addr.V4? && net6.Valid() && net6.addr.V6? && net6.len < 128
    requires Pool.Specific(r) && r.ipAddress.V6? && r.ipAddress.v6 == net6.Network() + 1
    ensures var p := New(net4, Some(net6));
            p.Request(s, r).1 == Some(AddressEntry(r.requestId, r.ipVersion, r.ipAddress, r.prefixLength))
  {
    assert net6.Size() >= 2 by { assert Pow2(128 - net6.len) == 2 * Pow2(127 - net6.len); }
  }

  /** The operation is a specific request for the IPv6 address numbered `k`. */
  predicate Names(op: Op, k: nat) {
    op.ServeRequest? && Pool.Specific(op.r) && op.r.ipAddress.V6? && op.r.ipAddress.v6 == k
  }

  /** Untouched: neither held nor released. */
  ghost predicate Untouched(p: Pool, k: U128) {
    V6(k) !in p.holders && (p.v6.Some? ==> k !in p.v6.value.free)
  }

  lemma {:induction false} RunReservesV6(p: Pool, ops: seq<Op>, k: U128)
    requires p.Valid() && p.v6.Some? && p.v6.value.base <= k < p.v6.value.base + 2 && Untouched(p, k)
    requires forall i :: 0 <= i < |ops| ==> !Names(ops[i], k)
    ensures V6(k) !in Run(p, ops).holders && Untouched(Run(p, ops), k)
    decreases |ops|
  {
    if ops != [] {
      ApplyValid(p, ops[0]);
      SameNet(p, ops[0]);
      StepUntouched(p, ops[0], k);
      RunReservesV6(Apply(p, ops[0]), ops[1..], k);
    }
  }

  lemma AllocateUntouched(p: Pool, four: bool, s: SessionId, k: U128)
    requires p.Valid() && p.v6.Some? && p.v6.value.base <= k < p.v6.value.base + 2 && Untouched(p, k)
    ensures Untouched(p.Allocate(four, s).0, k)
  {
    if four {
      TakeTaken(p.v4, p.holders);
    } else {
      var h := p.v6.value;
      TakeTaken(h, p.holders);
      assert !h.Offers(k);
    }
  }

  lemma ReleaseUntouched(p: Pool, s: SessionId, k: U128)
    requires p.Valid() && Untouched(p, k)
    ensures Untouched(p.Release(s), k)
  {
    ReleaseInverse(p, s);
    HeldExactly(p, s, V6(k));
    if s in p.allocations {
      forall a | a in p.allocations[s] && a.V6?
        ensures a.Key() != k
      {
        assert a != V6(k);
      }
    }
  }

  /** One step hands out or releases a low IPv6 address only when a specific request names it. */
  lemma StepUntouched(p: Pool, op: Op, k: U128)
    requires p.Valid() && p.v6.Some? && p.v6.value.base <= k < p.v6.value.base + 2 && Untouched(p, k)
    ensures V6(k) in Apply(p, op).holders <==> Names(op, k) && p.Grants(V6(k))
    ensures !Names(op, k) ==> Untouched(Apply(p, op), k)
  {
    match op
    case AllocateV4(s) => AllocateUntouched(p, true, s, k);
    case AllocateV6(s) => AllocateUntouched(p, false, s, k);
    case ReleaseAll(s) => ReleaseUntouched(p, s, k);
    case ServeRequest(s, r) =>
      AllocateUntouched(p, r.ipVersion == 4, s, k);
      if Names(op, k) {
        assert r.ipAddress == V6(k);
      }
  }
}
