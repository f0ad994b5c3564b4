/** Coalescing advertised routes: `merge_ranges` in src/capsule/mod.rs. */
module Ranges {
  import opened Octets
  import opened Address
  import opened CapsulePayload
  import opened Sorting

  const U128_MAX: nat := 0xffff_ffff_ffff_ffff_ffff_ffff_ffff_ffff

  /** `saturating_add(1)` on a u128. */
  function Successor(k: nat): nat {
    if k >= U128_MAX then U128_MAX else k + 1
  }

  predicate SameScope(a: IpAddressRange, b: IpAddressRange) {
    a.ipVersion == b.ipVersion && a.ipProtocol == b.ipProtocol
  }

  /** Overlapping or adjacent, for a range that starts no earlier. */
  predicate Reaches(a: IpAddressRange, b: IpAddressRange) {
    b.startIp.Key() <= a.endIp.Key() + 1
  }

  /** One turn of the merge loop: widen the last range or append. */
  function Absorb(merged: seq<IpAddressRange>, r: IpAddressRange): seq<IpAddressRange> {
    if merged != [] && Joins(merged[|merged| - 1], r) then
      var last := merged[|merged| - 1];
      if r.endIp.Key() > last.endIp.Key() then merged[|merged| - 1 := last.(endIp := r.endIp)] else merged
    else merged + [r]
  }

  predicate Joins(last: IpAddressRange, r: IpAddressRange) {
    SameScope(last, r) && r.startIp.Key() <= Successor(last.endIp.Key())
  }

  lemma JoinsReaches(last: IpAddressRange, r: IpAddressRange)
    ensures Joins(last, r) <==> SameScope(last, r) && Reaches(last, r)
  {
  }

  function MergeSorted(rs: seq<IpAddressRange>): seq<IpAddressRange> {
    if rs == [] then [] else Absorb(MergeSorted(rs[..|rs| - 1]), rs[|rs| - 1])
  }

  /** `merge_ranges`; the sort is the struct's derived order. */
  function Merge(rs: seq<IpAddressRange>): seq<IpAddressRange> {
    MergeSorted(Sort(rs, DerivedLeq))
  }

  /** Bounds of the declared family, as every range from a prefix or from the wire has; not necessarily in order. */
  predicate Familiar(r: IpAddressRange) {
    r.ipVersion == r.startIp.Version() == r.endIp.Version()
  }

  ghost predicate AllFamiliar(rs: seq<IpAddressRange>) {
    forall i :: 0 <= i < |rs| ==> Familiar(rs[i])
  }

  /** In derived order: versions ascend, and starts ascend within a version. */
  ghost predicate Ascends(rs: seq<IpAddressRange>) {
    forall i, j :: 0 <= i < j < |rs| ==> NotAfter(rs[i], rs[j])
  }

  predicate NotAfter(a: IpAddressRange, b: IpAddressRange) {
    a.ipVersion < b.ipVersion || (a.ipVersion == b.ipVersion && a.startIp.Key() <= b.startIp.Key())
  }

  /** What the merged list knows of the ranges behind it: it covers each of them within its scope, and takes every start
      and every end from one of them. */
  ghost predicate Tracks(merged: seq<IpAddressRange>, rs: seq<IpAddressRange>) {
    && (merged == [] <==> rs == [])
    && (rs != [] ==> SameScope(merged[|merged| - 1], rs[|rs| - 1]))
    && (forall a {:trigger Enclosed(merged, rs[a])} :: 0 <= a < |rs| ==> Enclosed(merged, rs[a]))
    && (forall i {:trigger Started(rs, merged[i])} :: 0 <= i < |merged| ==> Started(rs, merged[i]))
    && (forall i {:trigger Ended(rs, merged[i])} :: 0 <= i < |merged| ==> Ended(rs, merged[i]))
  }

  ghost predicate Enclosed(merged: seq<IpAddressRange>, r: IpAddressRange) {
    exists i :: 0 <= i < |merged| && Encloses(merged[i], r)
  }

  ghost predicate Started(rs: seq<IpAddressRange>, m: IpAddressRange) {
    exists a :: 0 <= a < |rs| && StartsAs(m, rs[a])
  }

  ghost predicate Ended(rs: seq<IpAddressRange>, m: IpAddressRange) {
    exists a :: 0 <= a < |rs| && EndsAs(m, rs[a])
  }

  predicate Encloses(m: IpAddressRange, r: IpAddressRange) {
    SameScope(m, r) && m.startIp.Key() <= r.startIp.Key() && r.endIp.Key() <= m.endIp.Key()
  }

  predicate StartsAs(m: IpAddressRange, r: IpAddressRange) {
    SameScope(m, r) && m.startIp == r.startIp
  }

  predicate EndsAs(m: IpAddressRange, r: IpAddressRange) {
    SameScope(m, r) && m.endIp == r.endIp
  }

  lemma AbsorbEncloses(merged: seq<IpAddressRange>, rs: seq<IpAddressRange>, r: IpAddressRange, a: nat)
    requires Tracks(merged, rs) && a < |rs|
    requires forall i :: 0 <= i < |merged| ==> NotAfter(merged[i], r)
    ensures Enclosed(Absorb(merged, r), rs[a])
  {
    assert Enclosed(merged, rs[a]);
    var i :| 0 <= i < |merged| && Encloses(merged[i], rs[a]);
    assert Encloses(Absorb(merged, r)[i], rs[a]);
  }

  lemma AbsorbStarts(merged: seq<IpAddressRange>, rs: seq<IpAddressRange>, r: IpAddressRange, i: nat)
    requires Tracks(merged, rs) && i < |Absorb(merged, r)|
    ensures Started(rs + [r], Absorb(merged, r)[i])
  {
    var next, all := Absorb(merged, r), rs + [r];
    if i < |merged| {
      assert Started(rs, merged[i]);
      var a :| 0 <= a < |rs| && StartsAs(merged[i], rs[a]);
      assert StartsAs(next[i], all[a]);
    } else {
      assert StartsAs(next[i], all[|rs|]);
    }
  }

  lemma AbsorbEnds(merged: seq<IpAddressRange>, rs: seq<IpAddressRange>, r: IpAddressRange, i: nat)
    requires Tracks(merged, rs) && i < |Absorb(merged, r)|
    ensures Ended(rs + [r], Absorb(merged, r)[i])
  {
    var next, all := Absorb(merged, r), rs + [r];
    if i < |merged| && next[i] == merged[i] {
      assert Ended(rs, merged[i]);
      var a :| 0 <= a < |rs| && EndsAs(merged[i], rs[a]);
      assert EndsAs(next[i], all[a]);
    } else {
      assert EndsAs(next[i], all[|rs|]);
    }
  }

  lemma TracksStep(merged: seq<IpAddressRange>, rs: seq<IpAddressRange>, r: IpAddressRange)
    requires Tracks(merged, rs)
    requires forall i :: 0 <= i < |merged| ==> NotAfter(merged[i], r)
    ensures Tracks(Absorb(merged, r), rs + [r])
  {
    var next, all := Absorb(merged, r), rs + [r];
    assert Encloses(next[|next| - 1], r) && SameScope(next[|next| - 1], r);
    forall a | 0 <= a < |all|
      ensures Enclosed(next, all[a])
    {
      if a < |rs| {
        AbsorbEncloses(merged, rs, r, a);
      }
    }
    forall i | 0 <= i < |next|
      ensures Started(all, next[i]) && Ended(all, next[i])
    {
      AbsorbStarts(merged, rs, r, i);
      AbsorbEnds(merged, rs, r, i);
    }
  }

  /** Merged ranges come no later than what is still to be merged. */
  lemma MergedNotAfter(merged: seq<IpAddressRange>, rs: seq<IpAddressRange>, r: IpAddressRange)
    requires Tracks(merged, rs) && forall a :: 0 <= a < |rs| ==> NotAfter(rs[a], r)
    ensures forall i :: 0 <= i < |merged| ==> NotAfter(merged[i], r)
  {
    forall i | 0 <= i < |merged|
      ensures NotAfter(merged[i], r)
    {
      assert Started(rs, merged[i]);
      var a :| 0 <= a < |rs| && StartsAs(merged[i], rs[a]);
      assert NotAfter(rs[a], r);
    }
  }

  lemma {:induction false} MergeTracks(rs: seq<IpAddressRange>)
    requires Ascends(rs)
    ensures Tracks(MergeSorted(rs), rs)
    ensures rs != [] ==>
              var r := rs[|rs| - 1]; var merged := MergeSorted(rs[..|rs| - 1]);
              Tracks(merged, rs[..|rs| - 1]) && forall i :: 0 <= i < |merged| ==> NotAfter(merged[i], r)
  {
    if rs != [] {
      var front, r := rs[..|rs| - 1], rs[|rs| - 1];
      MergeTracks(front);
      MergedNotAfter(MergeSorted(front), front, r);
      TracksStep(MergeSorted(front), front, r);
      assert front + [r] == rs;
    }
  }

  /** A list of ranges as a policy: whether it admits a destination and protocol. */
  predicate Admits(rs: seq<IpAddressRange>, addr: IpAddr, proto: Byte) {
    exists i :: 0 <= i < |rs| && rs[i].Contains(addr, proto)
  }

  lemma AdmitsAppend(rs: seq<IpAddressRange>, r: IpAddressRange, addr: IpAddr, proto: Byte)
    ensures Admits(rs + [r], addr, proto) <==> Admits(rs, addr, proto) || r.Contains(addr, proto)
  {
    var all := rs + [r];
    assert all[|rs|] == r;
    if Admits(rs, addr, proto) {
      var i :| 0 <= i < |rs| && rs[i].Contains(addr, proto);
      assert all[i].Contains(addr, proto);
    }
  }

  lemma AbsorbAdmits(merged: seq<IpAddressRange>, r: IpAddressRange, addr: IpAddr, proto: Byte)
    requires forall i :: 0 <= i < |merged| ==> NotAfter(merged[i], r)
    ensures Admits(Absorb(merged, r), addr, proto) <==> Admits(merged, addr, proto) || r.Contains(addr, proto)
  {
    if merged != [] && Joins(merged[|merged| - 1], r) {
      var front, last := merged[..|merged| - 1], merged[|merged| - 1];
      var wide := if r.endIp.Key() > last.endIp.Key() then last.(endIp := r.endIp) else last;
      assert merged == front + [last] && Absorb(merged, r) == front + [wide];
      AdmitsAppend(front, last, addr, proto);
      AdmitsAppend(front, wide, addr, proto);
      assert NotAfter(last, r);
      assert wide.Contains(addr, proto) <==> last.Contains(addr, proto) || r.Contains(addr, proto);
    } else {
      AdmitsAppend(merged, r, addr, proto);
    }
  }

  lemma {:induction false} MergeSortedAdmits(rs: seq<IpAddressRange>, addr: IpAddr, proto: Byte)
    requires Ascends(rs)
    ensures Admits(MergeSorted(rs), addr, proto) <==> Admits(rs, addr, proto)
  {
    if rs != [] {
      var front, r := rs[..|rs| - 1], rs[|rs| - 1];
      MergeTracks(rs);
      MergeSortedAdmits(front, addr, proto);
      AbsorbAdmits(MergeSorted(front), r, addr, proto);
      assert rs == front + [r];
      AdmitsAppend(front, r, addr, proto);
    }
  }

  lemma SortAscends(rs: seq<IpAddressRange>)
    requires AllFamiliar(rs)
    ensures Ascends(Sort(rs, DerivedLeq)) && AllFamiliar(Sort(rs, DerivedLeq))
  {
    var sorted := Sort(rs, DerivedLeq);
    OrdersTotal();
    SortSorted(rs, DerivedLeq);
    SortMembers(rs, DerivedLeq);
    forall i | 0 <= i < |sorted|
      ensures Familiar(sorted[i])
    {
      assert sorted[i] in sorted;
    }
    assert forall i, j :: 0 <= i < j < |sorted| ==> DerivedLeq(sorted[i], sorted[j]);
  }

  /** Merging preserves the policy: a packet is admitted by the merged list exactly when the original list admits it. */
  lemma MergeKeepsMeaning(rs: seq<IpAddressRange>, addr: IpAddr, proto: Byte)
    requires AllFamiliar(rs)
    ensures Admits(Merge(rs), addr, proto) <==> Admits(rs, addr, proto)
  {
    var sorted := Sort(rs, DerivedLeq);
    SortAscends(rs);
    MergeSortedAdmits(sorted, addr, proto);
    SortMembers(rs, DerivedLeq);
    if Admits(rs, addr, proto) {
      var i :| 0 <= i < |rs| && rs[i].Contains(addr, proto);
      assert rs[i] in sorted;
    }
    if Admits(sorted, addr, proto) {
      var i :| 0 <= i < |sorted| && sorted[i].Contains(addr, proto);
      assert sorted[i] in rs;
    }
  }

  /** Neither overlap nor adjacency within a scope. */
  ghost predicate Coalesced(rs: seq<IpAddressRange>) {
    forall i, j :: 0 <= i < j < |rs| && SameScope(rs[i], rs[j]) ==> !Reaches(rs[i], rs[j])
  }

  /** Some range is reached by an earlier one of its own scope, while its immediate predecessor has another scope. */
  ghost predicate Interleaved(rs: seq<IpAddressRange>) {
    exists i, k :: 0 <= i < k - 1 < |rs| - 1 && Blocked(rs, i, k)
  }

  predicate Blocked(rs: seq<IpAddressRange>, i: nat, k: nat)
    requires i < k < |rs|
  {
    SameScope(rs[i], rs[k]) && Reaches(rs[i], rs[k]) && !SameScope(rs[k - 1], rs[k])
  }

  lemma InterleavedAppend(rs: seq<IpAddressRange>, r: IpAddressRange)
    requires rs != []
    ensures Interleaved(rs + [r]) <==>
            || Interleaved(rs)
            || (!SameScope(rs[|rs| - 1], r) && exists i :: 0 <= i < |rs| && SameScope(rs[i], r) && Reaches(rs[i], r))
  {
    var all := rs + [r];
    if Interleaved(rs) {
      var i, k :| 0 <= i < k - 1 < |rs| - 1 && Blocked(rs, i, k);
      assert Blocked(all, i, k);
    }
    if !SameScope(rs[|rs| - 1], r) && exists i :: 0 <= i < |rs| && SameScope(rs[i], r) && Reaches(rs[i], r) {
      var i :| 0 <= i < |rs| && SameScope(rs[i], r) && Reaches(rs[i], r);
      assert Blocked(all, i, |rs|);
    }
    if Interleaved(all) {
      var i, k :| 0 <= i < k - 1 < |all| - 1 && Blocked(all, i, k);
      if k < |rs| {
        assert Blocked(rs, i, k);
      }
    }
  }

  /** Widening the last range leaves every gap as it was; appending adds the gaps before the new range. */
  lemma CoalescedStep(merged: seq<IpAddressRange>, r: IpAddressRange)
    requires merged != [] && NotAfter(merged[|merged| - 1], r)
    ensures SameScope(merged[|merged| - 1], r) ==> (Coalesced(Absorb(merged, r)) <==> Coalesced(merged))
    ensures !SameScope(merged[|merged| - 1], r) ==>
              (Coalesced(Absorb(merged, r)) <==>
               Coalesced(merged) && forall i :: 0 <= i < |merged| && SameScope(merged[i], r) ==> !Reaches(merged[i], r))
  {
    var last := merged[|merged| - 1];
    JoinsReaches(last, r);
    if Joins(last, r) {
      CoalescedWiden(merged, if r.endIp.Key() > last.endIp.Key() then last.(endIp := r.endIp) else last);
    } else {
      CoalescedAppend(merged, r);
      if SameScope(last, r) && Coalesced(merged) {
        forall i | 0 <= i < |merged| && SameScope(merged[i], r)
          ensures !Reaches(merged[i], r)
        {
          assert i < |merged| - 1 ==> SameScope(merged[i], last) && !Reaches(merged[i], last);
        }
      }
    }
  }

  lemma CoalescedWiden(merged: seq<IpAddressRange>, wide: IpAddressRange)
    requires merged != [] && SameScope(merged[|merged| - 1], wide) && merged[|merged| - 1].startIp == wide.startIp
    ensures Coalesced(merged[|merged| - 1 := wide]) <==> Coalesced(merged)
  {
    var last := |merged| - 1;
    var next := merged[last := wide];
    assert forall i :: 0 <= i < last ==> next[i] == merged[i];
    assert forall i :: 0 <= i < last ==> (Reaches(merged[i], merged[last]) <==> Reaches(next[i], next[last]));
    assert forall i :: 0 <= i < last ==> (SameScope(merged[i], merged[last]) <==> SameScope(next[i], next[last]));
  }

  lemma CoalescedAppend(merged: seq<IpAddressRange>, r: IpAddressRange)
    ensures Coalesced(merged + [r]) <==>
            Coalesced(merged) && forall i :: 0 <= i < |merged| && SameScope(merged[i], r) ==> !Reaches(merged[i], r)
  {
    var next := merged + [r];
    assert next[|merged|] == r;
    assert forall i :: 0 <= i < |merged| ==> next[i] == merged[i];
    if Coalesced(next) {
      assert forall i :: 0 <= i < |merged| && SameScope(next[i], next[|merged|]) ==> !Reaches(next[i], next[|merged|]);
    }
  }

  lemma {:induction false} CoalescedExactly(rs: seq<IpAddressRange>)
    requires Ascends(rs)
    ensures Coalesced(MergeSorted(rs)) <==> !Interleaved(rs)
  {
    if |rs| >= 2 {
      var front, r := rs[..|rs| - 1], rs[|rs| - 1];
      var merged := MergeSorted(front);
      CoalescedExactly(front);
      MergeTracks(rs);
      assert rs == front + [r];
      InterleavedAppend(front, r);
      CoalescedStep(merged, r);
      ReachedAlike(merged, front, r);
    } else if |rs| == 1 {
      assert MergeSorted(rs[..0]) == [];
    }
  }

  lemma ReachedAlike(merged: seq<IpAddressRange>, rs: seq<IpAddressRange>, r: IpAddressRange)
    requires Tracks(merged, rs)
    ensures (exists i :: 0 <= i < |merged| && SameScope(merged[i], r) && Reaches(merged[i], r)) <==>
            (exists a :: 0 <= a < |rs| && SameScope(rs[a], r) && Reaches(rs[a], r))
  {
    if i :| 0 <= i < |merged| && SameScope(merged[i], r) && Reaches(merged[i], r) {
      assert Ended(rs, merged[i]);
      var a :| 0 <= a < |rs| && EndsAs(merged[i], rs[a]);
      assert SameScope(rs[a], r) && Reaches(rs[a], r);
    }
    if a :| 0 <= a < |rs| && SameScope(rs[a], r) && Reaches(rs[a], r) {
      assert Enclosed(merged, rs[a]);
      var i :| 0 <= i < |merged| && Encloses(merged[i], rs[a]);
      assert SameScope(merged[i], r) && Reaches(merged[i], r);
    }
  }

  /** The merge loop leaves no overlap or adjacency within a scope exactly when the sorted input never returns to a scope
      that still reaches the range at hand after a range of another scope. */
  lemma MergeCoalescesExactly(rs: seq<IpAddressRange>)
    requires AllFamiliar(rs)
    ensures Coalesced(Merge(rs)) <==> !Interleaved(Sort(rs, DerivedLeq))
  {
    SortAscends(rs);
    CoalescedExactly(Sort(rs, DerivedLeq));
  }

  lemma BlockedStays(rs: seq<IpAddressRange>, i: nat, k: nat)
    requires AllFamiliar(rs) && Sorted(rs, DerivedLeq) && i < k - 1 < |rs| - 1 && Blocked(rs, i, k)
    ensures !Coalesced(Merge(rs))
  {
    SortFixesSorted(rs, DerivedLeq);
    MergeCoalescesExactly(rs);
  }

  lemma ThreeBlocked(a: IpAddressRange, b: IpAddressRange, c: IpAddressRange)
    requires a.WellFormed() && b.WellFormed() && c.WellFormed()
    requires DerivedLeq(a, b) && DerivedLeq(b, c) && DerivedLeq(a, c)
    requires SameScope(a, c) && !SameScope(b, c) && Reaches(a, c)
    ensures RangesWellFormed([a, b, c]) && !Coalesced(Merge([a, b, c]))
  {
    var rs := [a, b, c];
    assert Blocked(rs, 0, 2);
    BlockedStays(rs, 0, 2);
  }

  /** Two TCP ranges that overlap stay apart when a UDP range sorts between them. */
  lemma MergeLeavesOverlap() returns (a: IpAddressRange, b: IpAddressRange, c: IpAddressRange)
    ensures RangesWellFormed([a, b, c]) && !Coalesced(Merge([a, b, c]))
  {
    a := IpAddressRange(4, V4(0), V4(10), 6);
    b := IpAddressRange(4, V4(5), V4(15), 17);
    c := IpAddressRange(4, V4(8), V4(20), 6);
    ThreeBlocked(a, b, c);
  }

  /** Every range of a version carries one protocol, as the advertised routes of a session do. */
  ghost predicate OneProtocol(rs: seq<IpAddressRange>) {
    forall a, b :: a in rs && b in rs && a.ipVersion == b.ipVersion ==> a.ipProtocol == b.ipProtocol
  }

  lemma OneProtocolNotInterleaved(rs: seq<IpAddressRange>)
    requires OneProtocol(rs) && Ascends(rs)
    ensures !Interleaved(rs)
  {
    forall i, k | 0 <= i < k - 1 < |rs| - 1 && SameScope(rs[i], rs[k])
      ensures SameScope(rs[k - 1], rs[k])
    {
      assert NotAfter(rs[i], rs[k - 1]) && NotAfter(rs[k - 1], rs[k]);
      assert rs[k - 1] in rs && rs[k] in rs;
    }
  }

  /** Ascending, disjoint and with a gap between neighbours of one version. */
  ghost predicate Separate(rs: seq<IpAddressRange>) {
    forall i, j :: 0 <= i < j < |rs| ==>
      rs[i].ipVersion < rs[j].ipVersion || (rs[i].ipVersion == rs[j].ipVersion && rs[i].endIp.Key() + 1 < rs[j].startIp.Key())
  }

  lemma {:induction false} MergeVersionsAscend(rs: seq<IpAddressRange>)
    requires Ascends(rs)
    ensures forall i, j :: 0 <= i < j < |MergeSorted(rs)| ==> MergeSorted(rs)[i].ipVersion <= MergeSorted(rs)[j].ipVersion
  {
    if rs != [] {
      MergeVersionsAscend(rs[..|rs| - 1]);
      MergeTracks(rs);
    }
  }

  lemma TracksOneProtocol(merged: seq<IpAddressRange>, rs: seq<IpAddressRange>)
    requires Tracks(merged, rs) && OneProtocol(rs)
    ensures OneProtocol(merged)
  {
    forall x, y | x in merged && y in merged && x.ipVersion == y.ipVersion
      ensures x.ipProtocol == y.ipProtocol
    {
      var i :| 0 <= i < |merged| && merged[i] == x;
      var j :| 0 <= j < |merged| && merged[j] == y;
      assert Started(rs, merged[i]) && Started(rs, merged[j]);
      var a :| 0 <= a < |rs| && StartsAs(merged[i], rs[a]);
      var b :| 0 <= b < |rs| && StartsAs(merged[j], rs[b]);
      assert rs[a] in rs && rs[b] in rs;
    }
  }

  /** With one protocol per version the result ascends, is disjoint and nowhere adjacent, up to the top of IPv6. */
  lemma MergeSeparates(rs: seq<IpAddressRange>)
    requires AllFamiliar(rs) && OneProtocol(rs)
    ensures Separate(Merge(rs)) && OneProtocol(Merge(rs))
  {
    var sorted := Sort(rs, DerivedLeq);
    var merged := Merge(rs);
    SortAscends(rs);
    SortMembers(rs, DerivedLeq);
    OneProtocolNotInterleaved(sorted);
    CoalescedExactly(sorted);
    MergeVersionsAscend(sorted);
    MergeTracks(sorted);
    TracksOneProtocol(merged, sorted);
    forall i, j | 0 <= i < j < |merged| && merged[i].ipVersion == merged[j].ipVersion
      ensures merged[i].endIp.Key() + 1 < merged[j].startIp.Key()
    {
      assert merged[i] in merged && merged[j] in merged;
      assert SameScope(merged[i], merged[j]);
    }
  }

  lemma {:induction false} MergeWellFormed(rs: seq<IpAddressRange>)
    requires Ascends(rs) && RangesWellFormed(rs)
    ensures RangesWellFormed(MergeSorted(rs))
  {
    if rs != [] {
      var front, r := rs[..|rs| - 1], rs[|rs| - 1];
      assert r in rs && forall x :: x in front ==> x in rs;
      MergeWellFormed(front);
      MergeTracks(rs);
      var merged := MergeSorted(front);
      forall x | x in Absorb(merged, r)
        ensures x.WellFormed()
      {
        assert merged != [] ==> merged[|merged| - 1] in merged;
      }
    }
  }

  lemma SeparateIsOrdered(rs: seq<IpAddressRange>)
    requires Separate(rs) && OneProtocol(rs) && RangesWellFormed(rs)
    ensures Sorted(rs, RfcLeq) && DistinctKeys(rs)
  {
    forall i, j | 0 <= i < j < |rs|
      ensures RfcLeq(rs[i], rs[j]) && !SameKey(rs[i], rs[j])
    {
      assert rs[i] in rs && rs[j] in rs;
      assert rs[i].WellFormed() && rs[j].WellFormed();
    }
  }

  /** The routes a session advertises survive the wire unchanged: merged once, they decode to themselves and still admit
      exactly what the configured prefixes admit. */
  lemma MergedRoutesRoundTrip(rs: seq<IpAddressRange>)
    requires RangesWellFormed(rs) && OneProtocol(rs)
    ensures DecodeRoutes(EncodeRoutes(Merge(rs))) == Ok(Merge(rs))
    ensures forall addr, proto :: Admits(Merge(rs), addr, proto) <==> Admits(rs, addr, proto)
  {
    var sorted := Sort(rs, DerivedLeq);
    assert forall i :: 0 <= i < |rs| ==> rs[i] in rs;
    MergeSeparates(rs);
    SortAscends(rs);
    SortMembers(rs, DerivedLeq);
    MergeWellFormed(sorted);
    SeparateIsOrdered(Merge(rs));
    SortFixesSorted(Merge(rs), RfcLeq);
    RoutesRoundTrip(Merge(rs));
    forall addr, proto
      ensures Admits(Merge(rs), addr, proto) <==> Admits(rs, addr, proto)
    {
      MergeKeepsMeaning(rs, addr, proto);
    }
  }

  /** `merge_ranges`: sort, then one pass that widens the last range in place. */
  method MergeRanges(rs: seq<IpAddressRange>) returns (merged: seq<IpAddressRange>)
    ensures merged == Merge(rs)
  {
    var ranges := Sort(rs, DerivedLeq);
    merged := [];
    for n := 0 to |ranges|
      invariant merged == MergeSorted(ranges[..n])
    {
      var range := ranges[n];
      assert ranges[..n + 1][..n] == ranges[..n];
      var last := |merged| - 1;
      if merged != [] && merged[last].ipVersion == range.ipVersion && merged[last].ipProtocol == range.ipProtocol
         && range.startIp.Key() <= Successor(merged[last].endIp.Key()) {
        if range.endIp.Key() > merged[last].endIp.Key() {
          merged := merged[last := merged[last].(endIp := range.endIp)];
        }
      } else {
        merged := merged + [range];
      }
    }
    assert ranges[..|ranges|] == ranges;
  }
}
