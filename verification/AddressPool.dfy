/** The address pool as the source keeps it, updated in place: `V4Pool`, `V6Pool` and `AddressPool` of
    src/address_pool.rs. Each method refines an operation of `Pool`. */
module AddressPool {
  import opened Octets
  import opened Address
  import opened Session
  import P = Pool

  /** `V4Pool` and `V6Pool`: a cursor and a sorted set of released addresses. */
  class HostPool {
    const v4: bool
    const base: nat
    const last: nat
    const limit: nat
    var cursor: nat
    var free: set<nat>

    function View(): P.Hosts
      reads this
    {
      P.Hosts.Hosts(v4, base, last, limit, cursor, free)
    }

    constructor (h: P.Hosts)
      ensures View() == h
    {
      v4, base, last, limit, cursor, free := h.v4, h.base, h.last, h.limit, h.cursor, h.free;
    }

    /** `next`: pop the least released address, else advance the cursor past the two reserved offsets. */
    method Next() returns (k: Option<nat>)
      requires View().Valid()
      modifies this
      ensures (View(), k) == old(View()).Next()
    {
      if free != {} {
        var least := P.Least(free);
        free := free - {least};
        return Some(least);
      }
      while true
        invariant free == {} && old(free) == {}
        invariant old(cursor) <= cursor <= limit
        invariant cursor == old(cursor) || cursor <= 2
        invariant View().Skipped() == old(View()).Skipped()
        decreases limit - cursor
      {
        var candidate := base + cursor;
        if candidate >= base + limit {
          return None;
        }
        cursor := cursor + 1;
        if cursor <= 2 {
          continue;
        }
        return Some(candidate);
      }
    }
  }

  class Pools {
    const v4: HostPool
    const v6: Option<HostPool>
    var holders: map<IpAddr, SessionId>
    var allocations: map<SessionId, seq<IpAddr>>

    ghost const Repr: set<object>

    ghost predicate Separate()
    {
      && this in Repr && v4 in Repr && v4 as object != this
      && (v6.Some? ==> v6.value in Repr && v6.value != v4 && v6.value as object != this)
    }

    function View(): P.Pool
      reads this, v4, if v6.Some? then {v6.value} else {}
    {
      P.Pool.Pool(v4.View(), if v6.None? then None else Some(v6.value.View()), holders, allocations)
    }

    constructor (h4: P.Hosts, h6: Option<P.Hosts>)
      ensures Separate() && fresh(Repr)
      ensures View() == P.Pool.Pool(h4, h6, map[], map[])
    {
      v4 := new HostPool(h4);
      if h6.Some? {
        var six := new HostPool(h6.value);
        v6 := Some(six);
        Repr := {this, v4, six};
      } else {
        v6 := None;
        Repr := {this, v4};
      }
      holders, allocations := map[], map[];
    }

    /** `record`. */
    method Record(s: SessionId, a: IpAddr)
      modifies this
      ensures holders == old(holders)[a := s]
      ensures allocations == old(allocations)[s := old(if s in allocations then allocations[s] else []) + [a]]
    {
      holders := holders[a := s];
      allocations := allocations[s := (if s in allocations then allocations[s] else []) + [a]];
    }

    /** The retry loop of `allocate_v4` and `allocate_v6`. */
    method Search(pool: HostPool) returns (k: Option<nat>)
      requires pool.View().Valid()
      modifies pool
      ensures (pool.View(), k) == old(pool.View().Take(holders))
      ensures old(pool.View()).Take(old(holders)).0.Valid()
    {
      ghost var goal := pool.View().Take(holders);
      while true
        invariant pool.View().Valid() && pool.View().Take(old(holders)) == goal
        invariant holders == old(holders)
        decreases |pool.free|, pool.limit - pool.cursor
      {
        P.NextOffers(pool.View());
        k := pool.Next();
        if k.None? || Of(pool.v4, k.value) !in holders {
          return;
        }
      }
    }

    method Allocate(four: bool, s: SessionId) returns (a: Option<AssignedAddress>)
      requires Separate() && View().Within()
      modifies Repr
      ensures (View(), a) == old(View().Allocate(four, s))
    {
      if four {
        var k := Search(v4);
        if k.None? {
          return None;
        }
        Record(s, V4(k.value));
        return Some(AddressEntry(0, 4, V4(k.value), 32));
      }
      if v6.None? {
        return None;
      }
      var k := Search(v6.value);
      if k.None? {
        return None;
      }
      Record(s, V6(k.value));
      return Some(AddressEntry(0, 6, V6(k.value), 128));
    }

    /** `try_allocate_specific`. */
    method TrySpecific(s: SessionId, a: IpAddr) returns (ok: bool)
      requires Separate() && View().Within()
      modifies this
      ensures ok == old(View().Grants(a))
      ensures View() == if ok then old(View()).Record(s, a) else old(View())
    {
      var inPool := match a
        case V4(k) => v4.base <= k <= v4.last && k != v4.base && k != v4.last
        case V6(k) => v6.Some? && v6.value.base <= k <= v6.value.last;
      if !inPool {
        return false;
      }
      if a == V4((v4.base + 1) % 0x1_0000_0000) {
        return false;
      }
      if a in holders {
        return false;
      }
      Record(s, a);
      return true;
    }

    /** `allocate_for_request`. */
    method Request(s: SessionId, r: RequestedAddress) returns (a: Option<AssignedAddress>)
      requires Separate() && View().Within()
      modifies Repr
      ensures (View(), a) == old(View().Request(s, r))
      ensures a.Some? ==> a.value.requestId == r.requestId
    {
      if P.Pool.Specific(r) {
        var ok := TrySpecific(s, r.ipAddress);
        if ok {
          return Some(AddressEntry(r.requestId, r.ipVersion, r.ipAddress, r.prefixLength));
        }
      }
      if r.ipVersion != 4 && r.ipVersion != 6 {
        return None;
      }
      a := Allocate(r.ipVersion == 4, s);
      if a.Some? {
        a := Some(a.value.(requestId := r.requestId));
      }
    }

    /** `release`: drop the list, then free its addresses one at a time. */
    method Release(s: SessionId)
      requires Separate()
      modifies Repr
      ensures View() == old(View()).Release(s)
    {
      if s !in allocations {
        return;
      }
      var addrs := allocations[s];
      allocations := allocations - {s};
      for i := 0 to |addrs|
        invariant allocations == old(allocations) - {s}
        invariant holders == map a | a in old(holders) && a !in addrs[..i] :: old(holders)[a]
        invariant v4.View() == old(v4.View()).(free := old(v4.free) + P.Keys(addrs[..i], true))
        invariant v6.Some? ==>
                    v6.value.View() == old(v6.value.View()).(free := old(v6.value.free) + P.Keys(addrs[..i], false))
      {
        KeysGrow(addrs, i);
        assert addrs[..i + 1] == addrs[..i] + [addrs[i]];
        holders := holders - {addrs[i]};
        match addrs[i] {
          case V4(k) => v4.free := v4.free + {k};
          case V6(k) =>
            if v6.Some? {
              var pool := v6.value;
              pool.free := pool.free + {k};
            }
        }
      }
      assert addrs[..|addrs|] == addrs;
    }
  }

  lemma KeysGrow(addrs: seq<IpAddr>, i: nat)
    requires i < |addrs|
    ensures P.Keys(addrs[..i + 1], addrs[i].V4?) == P.Keys(addrs[..i], addrs[i].V4?) + {addrs[i].Key()}
    ensures P.Keys(addrs[..i + 1], !addrs[i].V4?) == P.Keys(addrs[..i], !addrs[i].V4?)
  {
    assert addrs[..i + 1] == addrs[..i] + [addrs[i]];
  }
}
