/** Destination address to session: `RouteTable` and `entries_from_client_ranges` in src/forwarding/router.rs. */
module Router {
  import opened Octets
  import opened Address
  import opened Net
  import opened Session
  import opened Subnets

  const MAX_CLIENT_ROUTE_PREFIXES := 128

  /** A prefix route toward a session; protocol 0 is every protocol. */
  datatype RouteEntry = RouteEntry(prefix: IpNet, ipProtocol: Byte, sessionId: SessionId) {

    predicate Matches(dst: IpAddr, proto: Byte)
      requires prefix.Valid()
    {
      prefix.Contains(dst) && Scoped(ipProtocol, dst, proto)
    }
  }

  ghost predicate ValidRoutes(routes: seq<RouteEntry>) {
    forall i :: 0 <= i < |routes| ==> routes[i].prefix.Valid()
  }

  /** `retain` of the entries of other sessions. */
  function Others(routes: seq<RouteEntry>, s: SessionId): (r: seq<RouteEntry>)
    ensures forall e :: e in r <==> e in routes && e.sessionId != s
  {
    if routes == [] then []
    else if routes[0].sessionId == s then Others(routes[1..], s)
    else [routes[0]] + Others(routes[1..], s)
  }

  /** Retaining keeps order: it works piece by piece. */
  lemma {:induction false} OthersAppend(a: seq<RouteEntry>, b: seq<RouteEntry>, s: SessionId)
    ensures Others(a + b, s) == Others(a, s) + Others(b, s)
    ensures forall e :: Others([e], s) == if e.sessionId == s then [] else [e]
  {
    if a == [] {
      assert a + b == b;
    } else {
      assert (a + b)[0] == a[0] && (a + b)[1..] == a[1..] + b;
      OthersAppend(a[1..], b, s);
    }
  }

  datatype Table = Table(routes: seq<RouteEntry>, clients: map<IpAddr, SessionId>) {

    function InsertClient(a: IpAddr, s: SessionId): Table {
      this.(clients := clients[a := s])
    }

    /** ROUTE_ADVERTISEMENT is full state: a session's old routes go. */
    function ReplaceRoutes(s: SessionId, entries: seq<RouteEntry>): Table {
      this.(routes := Others(routes, s) + entries)
    }

    function RemoveSession(s: SessionId): Table {
      Table(Others(routes, s), map a | a in clients && clients[a] != s :: clients[a])
    }

    /** The matching route with the longest prefix; of several, the one installed last. */
    ghost predicate Best(i: nat, dst: IpAddr, proto: Byte)
      requires ValidRoutes(routes)
    {
      && i < |routes| && routes[i].Matches(dst, proto)
      && (forall j :: 0 <= j < |routes| && routes[j].Matches(dst, proto) ==>
            routes[j].prefix.len < routes[i].prefix.len || (routes[j].prefix.len == routes[i].prefix.len && j <= i))
    }

    /** What a lookup must answer: the client address map first, then the best route. */
    ghost predicate Answers(dst: IpAddr, proto: Byte, s: Option<SessionId>)
      requires ValidRoutes(routes)
    {
      if dst in clients then s == Some(clients[dst])
      else if s.Some? then exists i: nat :: Best(i, dst, proto) && routes[i].sessionId == s.value
      else forall i :: 0 <= i < |routes| ==> !routes[i].Matches(dst, proto)
    }
  }

  /** A lookup has one answer. */
  lemma AnswerUnique(t: Table, dst: IpAddr, proto: Byte, s: Option<SessionId>, u: Option<SessionId>)
    requires ValidRoutes(t.routes) && t.Answers(dst, proto, s) && t.Answers(dst, proto, u)
    ensures s == u
  {
    if dst !in t.clients && s.Some? && u.Some? {
      var i: nat :| t.Best(i, dst, proto) && t.routes[i].sessionId == s.value;
      var j: nat :| t.Best(j, dst, proto) && t.routes[j].sessionId == u.value;
      assert t.routes[i].Matches(dst, proto) && t.routes[j].Matches(dst, proto);
    }
  }

  ghost predicate ValidNets(nets: seq<IpNet>) {
    forall i :: 0 <= i < |nets| ==> nets[i].Valid()
  }

  predicate Denied(nets: seq<IpNet>, deny: seq<IpNet>)
    requires forall i :: 0 <= i < |nets| ==> nets[i].Valid()
    requires forall i :: 0 <= i < |deny| ==> deny[i].Valid()
  {
    exists i, j :: 0 <= i < |nets| && 0 <= j < |deny| && Overlaps(deny[j], nets[i])
  }

  /** A range is refused exactly when it shares an address with a denied prefix. */
  lemma DeniedExactly(r: IpAddressRange, deny: seq<IpNet>)
    requires ValidNets(deny)
    ensures Denied(Prefixes(r), deny) <==>
            exists j, ip :: 0 <= j < |deny| && deny[j].Contains(ip) && Between(r, ip)
  {
    var nets := Prefixes(r);
    if Denied(nets, deny) {
      var i, j :| 0 <= i < |nets| && 0 <= j < |deny| && Overlaps(deny[j], nets[i]);
      OverlapsExactly(deny[j], nets[i]);
      var ip :| deny[j].Contains(ip) && nets[i].Contains(ip);
      PrefixesCover(r, ip);
      assert deny[j].Contains(ip) && Between(r, ip);
    }
    if j, ip :| 0 <= j < |deny| && deny[j].Contains(ip) && Between(r, ip) {
      PrefixesCover(r, ip);
      var i :| 0 <= i < |nets| && nets[i].Contains(ip);
      OverlapsExactly(deny[j], nets[i]);
    }
  }

  function Installed(nets: seq<IpNet>, proto: Byte, s: SessionId): (es: seq<RouteEntry>)
    ensures |es| == |nets| && forall i :: 0 <= i < |nets| ==> es[i] == RouteEntry(nets[i], proto, s)
  {
    seq(|nets|, i requires 0 <= i < |nets| => RouteEntry(nets[i], proto, s))
  }

  /** The entries of every accepted range, before the cap. */
  ghost function AllEntries(s: SessionId, ranges: seq<IpAddressRange>, deny: seq<IpNet>): (es: seq<RouteEntry>)
    requires ValidNets(deny)
    ensures ValidRoutes(es) && forall e :: e in es ==> e.sessionId == s
  {
    if ranges == [] then []
    else
      var nets := Prefixes(ranges[0]);
      (if Denied(nets, deny) then [] else Installed(nets, ranges[0].ipProtocol, s)) + AllEntries(s, ranges[1..], deny)
  }

  ghost function Entries(s: SessionId, ranges: seq<IpAddressRange>, deny: seq<IpNet>): (es: seq<RouteEntry>)
    requires ValidNets(deny)
    ensures |es| <= MAX_CLIENT_ROUTE_PREFIXES && ValidRoutes(es) && forall e :: e in es ==> e.sessionId == s
  {
    Capped(AllEntries(s, ranges, deny))
  }

  /** A range that takes part: no address of it is denied. */
  ghost predicate Accepted(r: IpAddressRange, deny: seq<IpNet>)
    requires ValidNets(deny)
  {
    forall j, ip :: 0 <= j < |deny| && deny[j].Contains(ip) ==> !Between(r, ip)
  }

  /** Uncapped, the entries route exactly what the accepted ranges admit. */
  lemma {:induction false} EntriesMean(s: SessionId, ranges: seq<IpAddressRange>, deny: seq<IpNet>, dst: IpAddr, proto: Byte)
    requires ValidNets(deny)
    ensures Matched(AllEntries(s, ranges, deny), dst, proto) <==>
            exists r :: r in ranges && Accepted(r, deny) && Between(r, dst) && Scoped(r.ipProtocol, dst, proto)
  {
    if ranges != [] {
      var r := ranges[0];
      var nets := Prefixes(r);
      var mine := if Denied(nets, deny) then [] else Installed(nets, r.ipProtocol, s);
      EntriesMean(s, ranges[1..], deny, dst, proto);
      OneRangeMeans(s, r, deny, dst, proto);
      MatchedAppend(mine, AllEntries(s, ranges[1..], deny), dst, proto);
      assert forall x :: x in ranges <==> x == r || x in ranges[1..];
    }
  }

  ghost predicate Matched(es: seq<RouteEntry>, dst: IpAddr, proto: Byte)
    requires ValidRoutes(es)
  {
    exists e :: e in es && e.Matches(dst, proto)
  }

  lemma MatchedAppend(a: seq<RouteEntry>, b: seq<RouteEntry>, dst: IpAddr, proto: Byte)
    requires ValidRoutes(a) && ValidRoutes(b)
    ensures ValidRoutes(a + b) && (Matched(a + b, dst, proto) <==> Matched(a, dst, proto) || Matched(b, dst, proto))
  {
    assert forall e :: e in a + b <==> e in a || e in b;
  }

  lemma OneRangeMeans(s: SessionId, r: IpAddressRange, deny: seq<IpNet>, dst: IpAddr, proto: Byte)
    requires ValidNets(deny)
    ensures var nets := Prefixes(r);
            var mine := if Denied(nets, deny) then [] else Installed(nets, r.ipProtocol, s);
            && ValidRoutes(mine)
            && (Matched(mine, dst, proto) <==>
                Accepted(r, deny) && Between(r, dst) && Scoped(r.ipProtocol, dst, proto))
  {
    var nets := Prefixes(r);
    var mine := Installed(nets, r.ipProtocol, s);
    DeniedExactly(r, deny);
    PrefixesCover(r, dst);
    if e :| e in mine && e.Matches(dst, proto) {
      var i :| 0 <= i < |mine| && mine[i] == e;
      assert nets[i].Contains(dst);
    }
    if Between(r, dst) && Scoped(r.ipProtocol, dst, proto) {
      var i :| 0 <= i < |nets| && nets[i].Contains(dst);
      assert mine[i] in mine && mine[i].Matches(dst, proto);
    }
  }

  /** No installed route, capped or not, covers an address of a denied prefix. */
  lemma EntriesAvoid(s: SessionId, ranges: seq<IpAddressRange>, deny: seq<IpNet>, e: RouteEntry, j: nat, ip: IpAddr)
    requires ValidNets(deny) && e in Entries(s, ranges, deny) && j < |deny| && deny[j].Contains(ip)
    ensures !e.prefix.Contains(ip)
  {
    var all := AllEntries(s, ranges, deny);
    assert e in all;
    EntriesMean(s, ranges, deny, ip, e.ipProtocol);
    if e.prefix.Contains(ip) {
      assert e.Matches(ip, e.ipProtocol);
      assert false;
    }
  }

  /** The cap keeps the first 128 entries and drops only what comes after them. */
  lemma EntriesFirst(s: SessionId, ranges: seq<IpAddressRange>, deny: seq<IpNet>)
    requires ValidNets(deny)
    ensures Entries(s, ranges, deny) <= AllEntries(s, ranges, deny)
    ensures |Entries(s, ranges, deny)| == 128 || Entries(s, ranges, deny) == AllEntries(s, ranges, deny)
  {
  }

  /** Replacing a session's routes: its old ones are gone, the new ones are there, every other session keeps its own in
      their order, and client addresses are untouched. */
  lemma ReplaceExactly(t: Table, s: SessionId, entries: seq<RouteEntry>, u: SessionId)
    requires forall e :: e in entries ==> e.sessionId == s
    ensures var n := t.ReplaceRoutes(s, entries);
            && n.clients == t.clients
            && RoutesOf(n.routes, u) == if u == s then entries else RoutesOf(t.routes, u)
  {
    RoutesOfAppend(Others(t.routes, s), entries, u);
    RoutesOfOthers(t.routes, s, u);
    RoutesOfOne(entries, s, u);
  }

  /** The entries of one session, in order. */
  function RoutesOf(routes: seq<RouteEntry>, u: SessionId): seq<RouteEntry> {
    if routes == [] then []
    else (if routes[0].sessionId == u then [routes[0]] else []) + RoutesOf(routes[1..], u)
  }

  lemma {:induction false} RoutesOfAppend(a: seq<RouteEntry>, b: seq<RouteEntry>, u: SessionId)
    ensures RoutesOf(a + b, u) == RoutesOf(a, u) + RoutesOf(b, u)
  {
    if a == [] {
      assert a + b == b;
    } else {
      assert (a + b)[0] == a[0] && (a + b)[1..] == a[1..] + b;
      RoutesOfAppend(a[1..], b, u);
      JoinedOnce(if a[0].sessionId == u then [a[0]] else [], RoutesOf(a[1..], u), RoutesOf(b, u));
    }
  }

  lemma JoinedOnce(a: seq<RouteEntry>, b: seq<RouteEntry>, c: seq<RouteEntry>)
    ensures (a + b) + c == a + (b + c)
  {
  }

  lemma {:induction false} RoutesOfOthers(routes: seq<RouteEntry>, s: SessionId, u: SessionId)
    ensures RoutesOf(Others(routes, s), u) == if u == s then [] else RoutesOf(routes, u)
  {
    if routes != [] {
      RoutesOfOthers(routes[1..], s, u);
      if routes[0].sessionId != s {
        RoutesOfAppend([routes[0]], Others(routes[1..], s), u);
        assert [routes[0]][1..] == [];
      }
    }
  }

  lemma {:induction false} RoutesOfOne(entries: seq<RouteEntry>, s: SessionId, u: SessionId)
    requires forall e :: e in entries ==> e.sessionId == s
    ensures RoutesOf(entries, u) == if u == s then entries else []
  {
    if entries != [] {
      RoutesOfOne(entries[1..], s, u);
      assert entries == [entries[0]] + entries[1..];
    }
  }

  /** Removing a session takes its routes and its client addresses, and nothing of anybody else's. */
  lemma RemoveExactly(t: Table, s: SessionId, u: SessionId)
    ensures var n := t.RemoveSession(s);
            && RoutesOf(n.routes, u) == (if u == s then [] else RoutesOf(t.routes, u))
            && n.clients.Keys == (set a | a in t.clients && t.clients[a] != s)
            && forall a :: a in n.clients ==> n.clients[a] == t.clients[a]
  {
    RoutesOfOthers(t.routes, s, u);
  }

  /** After an advertisement below the cap, an address that is nobody's own and that no other session routes leads to the
      session exactly when one of the ranges that take part admits it. */
  lemma AdvertisedLookup(
    t: Table, s: SessionId, ranges: seq<IpAddressRange>, deny: seq<IpNet>, dst: IpAddr, proto: Byte, r: Option<SessionId>)
    requires ValidNets(deny) && ValidRoutes(t.routes) && |AllEntries(s, ranges, deny)| <= MAX_CLIENT_ROUTE_PREFIXES
    requires dst !in t.clients && forall e :: e in t.routes && e.sessionId != s ==> !e.Matches(dst, proto)
    ensures var n := t.ReplaceRoutes(s, Entries(s, ranges, deny));
            && ValidRoutes(n.routes)
            && (n.Answers(dst, proto, r) ==>
                  r == if exists x :: x in ranges && Accepted(x, deny) && Between(x, dst) && Scoped(x.ipProtocol, dst, proto)
                       then Some(s) else None)
  {
    var entries := Entries(s, ranges, deny);
    var n := t.ReplaceRoutes(s, entries);
    assert entries == AllEntries(s, ranges, deny);
    EntriesMean(s, ranges, deny, dst, proto);
    forall i | 0 <= i < |n.routes|
      ensures n.routes[i].prefix.Valid() && (n.routes[i].Matches(dst, proto) ==> n.routes[i] in entries)
    {
      assert n.routes[i] in Others(t.routes, s) || n.routes[i] in entries;
    }
    if n.Answers(dst, proto, r) {
      AnswerOf(n, entries, dst, proto, r, s);
    }
  }

  lemma AnswerOf(n: Table, entries: seq<RouteEntry>, dst: IpAddr, proto: Byte, r: Option<SessionId>, s: SessionId)
    requires ValidRoutes(n.routes) && ValidRoutes(entries) && dst !in n.clients && n.Answers(dst, proto, r)
    requires forall e :: e in entries ==> e in n.routes && e.sessionId == s
    requires forall i :: 0 <= i < |n.routes| && n.routes[i].Matches(dst, proto) ==> n.routes[i] in entries
    ensures r == if Matched(entries, dst, proto) then Some(s) else None
  {
    if r.Some? {
      var i: nat :| n.Best(i, dst, proto) && n.routes[i].sessionId == r.value;
      assert n.routes[i] in entries;
    }
  }

  function Capped(es: seq<RouteEntry>): seq<RouteEntry> {
    es[..Min(|es|, MAX_CLIENT_ROUTE_PREFIXES)]
  }

  /** Push one range's prefixes until the cap is in the way. */
  method Push(entries: seq<RouteEntry>, prefixes: seq<IpNet>, proto: Byte, s: SessionId)
    returns (out: seq<RouteEntry>, full: bool)
    requires |entries| <= MAX_CLIENT_ROUTE_PREFIXES
    ensures out == Capped(entries + Installed(prefixes, proto, s))
    ensures full == (|entries| + |prefixes| > MAX_CLIENT_ROUTE_PREFIXES)
  {
    ghost var all := entries + Installed(prefixes, proto, s);
    out := entries;
    for k := 0 to |prefixes|
      invariant |out| == |entries| + k <= MAX_CLIENT_ROUTE_PREFIXES && out == all[..|entries| + k]
    {
      if |out| >= MAX_CLIENT_ROUTE_PREFIXES {
        return out, true;
      }
      out := out + [RouteEntry(prefixes[k], proto, s)];
    }
    return out, false;
  }

  /** The cap does not see what follows it. */
  lemma CappedPrefix(before: seq<RouteEntry>, mine: seq<RouteEntry>, later: seq<RouteEntry>)
    ensures |before + mine| > MAX_CLIENT_ROUTE_PREFIXES ==> Capped(before + (mine + later)) == Capped(before + mine)
    ensures |before + mine| <= MAX_CLIENT_ROUTE_PREFIXES ==> Capped(before + mine) == before + mine
    ensures before + mine + later == before + (mine + later)
  {
    assert before + mine + later == before + (mine + later);
  }

  lemma EntriesStep(s: SessionId, ranges: seq<IpAddressRange>, deny: seq<IpNet>, n: nat)
    requires ValidNets(deny) && n < |ranges|
    ensures var nets := Prefixes(ranges[n]);
            AllEntries(s, ranges[n..], deny) ==
            (if Denied(nets, deny) then [] else Installed(nets, ranges[n].ipProtocol, s)) + AllEntries(s, ranges[n + 1..], deny)
  {
    assert ranges[n..][0] == ranges[n] && ranges[n..][1..] == ranges[n + 1..];
  }

  /** `entries_from_client_ranges`: skip refused ranges, stop at the cap. */
  method EntriesFromClientRanges(s: SessionId, ranges: seq<IpAddressRange>, deny: seq<IpNet>) returns (entries: seq<RouteEntry>)
    requires ValidNets(deny)
    ensures entries == Entries(s, ranges, deny)
  {
    entries := [];
    ghost var all := AllEntries(s, ranges, deny);
    assert ranges[0..] == ranges && [] + all == all;
    for n := 0 to |ranges|
      invariant |entries| <= MAX_CLIENT_ROUTE_PREFIXES
      invariant entries + AllEntries(s, ranges[n..], deny) == all
    {
      var range := ranges[n];
      EntriesStep(s, ranges, deny, n);
      ghost var later := AllEntries(s, ranges[n + 1..], deny);
      var prefixes := [];
      if Ordered(range) {
        prefixes := CutRange(range.startIp.V4?, range.startIp.Key(), range.endIp.Key());
      }
      var refused := AnyOverlap(prefixes, deny);
      if !refused {
        CappedPrefix(entries, Installed(prefixes, range.ipProtocol, s), later);
        var full;
        entries, full := Push(entries, prefixes, range.ipProtocol, s);
        if full {
          return;
        }
      } else {
        assert [] + later == later;
      }
    }
    assert ranges[|ranges|..] == [] && entries + [] == entries;
  }

  method AnyOverlap(nets: seq<IpNet>, deny: seq<IpNet>) returns (found: bool)
    requires ValidNets(nets) && ValidNets(deny)
    ensures found == Denied(nets, deny)
  {
    for i := 0 to |nets|
      invariant forall x, y :: 0 <= x < i && 0 <= y < |deny| ==> !Overlaps(deny[y], nets[x])
    {
      for j := 0 to |deny|
        invariant forall y :: 0 <= y < j ==> !Overlaps(deny[y], nets[i])
      {
        if Overlaps(deny[j], nets[i]) {
          return true;
        }
      }
    }
    return false;
  }

  /** `RouteTable`. */
  class RouteTable {
    var routes: seq<RouteEntry>
    var clientAddrs: map<IpAddr, SessionId>

    function View(): Table
      reads this
    {
      Table(routes, clientAddrs)
    }

    constructor ()
      ensures View() == Table([], map[])
    {
      routes, clientAddrs := [], map[];
    }

    method InsertClientAddr(a: IpAddr, s: SessionId)
      modifies this
      ensures View() == old(View()).InsertClient(a, s)
    {
      clientAddrs := clientAddrs[a := s];
    }

    /** `Vec::retain`, front to back. */
    method Retain(s: SessionId)
      modifies this`routes
      ensures routes == Others(old(routes), s)
    {
      var kept := [];
      for i := 0 to |routes|
        invariant routes == old(routes)
        invariant kept + Others(routes[i..], s) == Others(routes, s)
      {
        assert routes[i..][1..] == routes[i + 1..];
        if routes[i].sessionId != s {
          assert kept + ([routes[i]] + Others(routes[i + 1..], s)) == kept + [routes[i]] + Others(routes[i + 1..], s);
          kept := kept + [routes[i]];
        }
      }
      assert kept + [] == kept;
      routes := kept;
    }

    method ReplaceSessionRoutes(s: SessionId, entries: seq<RouteEntry>)
      modifies this
      ensures View() == old(View()).ReplaceRoutes(s, entries)
    {
      Retain(s);
      routes := routes + entries;
    }

    method RemoveSession(s: SessionId)
      modifies this
      ensures View() == old(View()).RemoveSession(s)
    {
      clientAddrs := map a | a in clientAddrs && clientAddrs[a] != s :: clientAddrs[a];
      Retain(s);
    }

    /** `lookup`: the fast path, then one pass for the longest match; a later equal match wins. */
    method Lookup(dst: IpAddr, proto: Byte) returns (s: Option<SessionId>)
      requires ValidRoutes(routes)
      ensures View().Answers(dst, proto, s)
    {
      if dst in clientAddrs {
        return Some(clientAddrs[dst]);
      }
      var best: Option<nat> := None;
      for i := 0 to |routes|
        invariant best.None? ==> forall j :: 0 <= j < i ==> !routes[j].Matches(dst, proto)
        invariant best.Some? ==> best.value < i && routes[best.value].Matches(dst, proto)
        invariant best.Some? ==> forall j :: 0 <= j < i && routes[j].Matches(dst, proto) ==>
                    routes[j].prefix.len < routes[best.value].prefix.len
                    || (routes[j].prefix.len == routes[best.value].prefix.len && j <= best.value)
      {
        if routes[i].Matches(dst, proto) && (best.None? || routes[i].prefix.len >= routes[best.value].prefix.len) {
          best := Some(i);
        }
      }
      if best.None? {
        return None;
      }
      assert View().Best(best.value, dst, proto);
      return Some(routes[best.value].sessionId);
    }
  }
}
