/** Stable sorting by a comparison, standing in for the standard library's `sort` and `sort_by`. */
module Sorting {

  ghost predicate TotalOrder<T(!new)>(le: (T, T) -> bool) {
    && (forall x, y :: le(x, y) || le(y, x))
    && (forall x, y, z :: le(x, y) && le(y, z) ==> le(x, z))
  }

  ghost predicate Sorted<T>(s: seq<T>, le: (T, T) -> bool) {
    forall i, j :: 0 <= i < j < |s| ==> le(s[i], s[j])
  }

  function Insert<T>(x: T, s: seq<T>, le: (T, T) -> bool): (r: seq<T>)
    ensures multiset(r) == multiset{x} + multiset(s)
  {
    if s == [] then [x]
    else if le(x, s[0]) then [x] + s
    else
      assert s == [s[0]] + s[1..];
      [s[0]] + Insert(x, s[1..], le)
  }

  /** Equal elements keep their order. */
  function Sort<T>(s: seq<T>, le: (T, T) -> bool): (r: seq<T>)
    ensures multiset(r) == multiset(s)
    ensures |r| == |s|
  {
    if s == [] then []
    else
      assert s == [s[0]] + s[1..];
      var r := Insert(s[0], Sort(s[1..], le), le);
      assert |r| == |multiset(r)| == |multiset(s)| == |s|;
      r
  }

  lemma {:induction false} InsertSorted<T(!new)>(x: T, s: seq<T>, le: (T, T) -> bool)
    requires TotalOrder(le) && Sorted(s, le)
    ensures Sorted(Insert(x, s, le), le)
  {
    if s != [] && !le(x, s[0]) {
      InsertSorted(x, s[1..], le);
      var t := Insert(x, s[1..], le);
      forall k | 0 <= k < |t|
        ensures le(s[0], t[k])
      {
        assert t[k] in multiset(t);
        assert t[k] == x || t[k] in multiset(s[1..]);
        assert t[k] == x || t[k] in s[1..];
      }
    }
  }

  lemma {:induction false} SortSorted<T(!new)>(s: seq<T>, le: (T, T) -> bool)
    requires TotalOrder(le)
    ensures Sorted(Sort(s, le), le)
  {
    if s != [] {
      SortSorted(s[1..], le);
      InsertSorted(s[0], Sort(s[1..], le), le);
    }
  }

  /** The elements of `s` that tie with `x`, in order. */
  function Ties<T>(s: seq<T>, x: T, le: (T, T) -> bool): seq<T> {
    if s == [] then [] else (if le(s[0], x) && le(x, s[0]) then [s[0]] else []) + Ties(s[1..], x, le)
  }

  /** The ties of a longer sequence. */
  lemma TiesCons<T>(y: T, s: seq<T>, x: T, le: (T, T) -> bool)
    ensures Ties([y] + s, x, le) == (if le(y, x) && le(x, y) then [y] else []) + Ties(s, x, le)
  {
    assert ([y] + s)[1..] == s;
  }

  lemma NotBothTie<T(!new)>(y: T, z: T, x: T, le: (T, T) -> bool)
    requires TotalOrder(le) && !le(y, z)
    ensures !(le(y, x) && le(x, z))
  {
  }

  lemma {:induction false} InsertTies<T(!new)>(y: T, s: seq<T>, x: T, le: (T, T) -> bool)
    requires TotalOrder(le)
    ensures Ties(Insert(y, s, le), x, le) == Ties([y] + s, x, le)
  {
    if s != [] && !le(y, s[0]) {
      var z, rest := s[0], s[1..];
      InsertTies(y, rest, x, le);
      NotBothTie(y, z, x, le);
      TiesCons(z, Insert(y, rest, le), x, le);
      TiesCons(y, rest, x, le);
      TiesCons(y, s, x, le);
    }
  }

  /** Elements that tie keep their order. */
  lemma {:induction false} SortStable<T(!new)>(s: seq<T>, x: T, le: (T, T) -> bool)
    requires TotalOrder(le)
    ensures Ties(Sort(s, le), x, le) == Ties(s, x, le)
  {
    if s != [] {
      SortStable(s[1..], x, le);
      InsertTies(s[0], Sort(s[1..], le), x, le);
      assert ([s[0]] + Sort(s[1..], le))[1..] == Sort(s[1..], le);
    }
  }

  /** Sorting changes nothing where nothing is out of order. */
  lemma {:induction false} SortFixesSorted<T>(s: seq<T>, le: (T, T) -> bool)
    requires Sorted(s, le)
    ensures Sort(s, le) == s
  {
    if s != [] {
      SortFixesSorted(s[1..], le);
      assert s == [s[0]] + s[1..];
    }
  }

  lemma SortMembers<T>(s: seq<T>, le: (T, T) -> bool)
    ensures forall x :: x in s <==> x in Sort(s, le)
  {
    assert forall x :: x in s <==> x in multiset(s);
    assert forall x :: x in Sort(s, le) <==> x in multiset(Sort(s, le));
  }
}
