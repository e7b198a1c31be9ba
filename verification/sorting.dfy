/** Stable sorting, as `sort_by` and `sort` of the standard library. */
module Sorting {
  ghost predicate TotalPreorder<T(!new)>(le: (T, T) -> bool) {
    && (forall x, y :: le(x, y) || le(y, x))
    && (forall x, y, z :: le(x, y) && le(y, z) ==> le(x, z))
  }

  ghost predicate SortedBy<T>(s: seq<T>, le: (T, T) -> bool) {
    forall i, j :: 0 <= i < j < |s| ==> le(s[i], s[j])
  }

  /** Puts `x` behind every element that does not exceed it. */
  function Insert<T>(s: seq<T>, x: T, le: (T, T) -> bool): (r: seq<T>)
    ensures multiset(r) == multiset(s) + multiset{x}
    ensures |r| == |s| + 1
  {
    if s == [] then [x]
    else
      assert s == s[..|s| - 1] + [s[|s| - 1]];
      if le(s[|s| - 1], x) then s + [x]
      else Insert(s[..|s| - 1], x, le) + [s[|s| - 1]]
  }

  function Sort<T>(s: seq<T>, le: (T, T) -> bool): (r: seq<T>)
    ensures multiset(r) == multiset(s)
    ensures |r| == |s|
  {
    if s == [] then []
    else
      assert s == s[..|s| - 1] + [s[|s| - 1]];
      Insert(Sort(s[..|s| - 1], le), s[|s| - 1], le)
  }

  lemma {:induction false} InsertSorted<T(!new)>(s: seq<T>, x: T, le: (T, T) -> bool)
    requires TotalPreorder(le) && SortedBy(s, le)
    ensures SortedBy(Insert(s, x, le), le)
  {
    if s != [] {
      var init, last := s[..|s| - 1], s[|s| - 1];
      if !le(last, x) {
        InsertSorted(init, x, le);
        var r := Insert(init, x, le);
        forall i | 0 <= i < |r| ensures le(r[i], last) {
          assert r[i] in multiset(r);
          assert r[i] == x || r[i] in init;
        }
      }
    }
  }

  lemma {:induction false} SortSorted<T(!new)>(s: seq<T>, le: (T, T) -> bool)
    requires TotalPreorder(le)
    ensures SortedBy(Sort(s, le), le)
  {
    if s != [] {
      SortSorted(s[..|s| - 1], le);
      InsertSorted(Sort(s[..|s| - 1], le), s[|s| - 1], le);
    }
  }

  predicate Tie<T>(le: (T, T) -> bool, x: T, y: T) {
    le(x, y) && le(y, x)
  }

  /** The elements that tie with `z`, in order. */
  function Ties<T>(s: seq<T>, z: T, le: (T, T) -> bool): seq<T> {
    if s == [] then [] else Ties(s[..|s| - 1], z, le) + (if Tie(le, s[|s| - 1], z) then [s[|s| - 1]] else [])
  }

  lemma {:induction false} InsertStable<T(!new)>(s: seq<T>, x: T, z: T, le: (T, T) -> bool)
    requires TotalPreorder(le)
    ensures Ties(Insert(s, x, le), z, le) == Ties(s, z, le) + (if Tie(le, x, z) then [x] else [])
  {
    if s != [] {
      var init, last := s[..|s| - 1], s[|s| - 1];
      if le(last, x) {
        assert (s + [x])[..|s|] == s;
      } else {
        InsertStable(init, x, z, le);
        assert Insert(s, x, le)[..|s|] == Insert(init, x, le);
      }
    }
  }

  /** Sorting is stable: elements that tie stay in the order they were in. */
  lemma {:induction false} SortStable<T(!new)>(s: seq<T>, z: T, le: (T, T) -> bool)
    requires TotalPreorder(le)
    ensures Ties(Sort(s, le), z, le) == Ties(s, z, le)
  {
    if s != [] {
      SortStable(s[..|s| - 1], z, le);
      InsertStable(Sort(s[..|s| - 1], le), s[|s| - 1], z, le);
    }
  }

  lemma SameMembers<T>(s: seq<T>, r: seq<T>)
    requires multiset(s) == multiset(r)
    ensures forall x :: x in s <==> x in r
  {
    forall x ensures x in s <==> x in r {
      assert x in multiset(s) <==> x in multiset(r);
    }
  }

  lemma TwiceCounts<T>(s: seq<T>, i: nat, j: nat)
    requires i < j < |s| && s[i] == s[j]
    ensures multiset(s)[s[i]] >= 2
  {
    assert s == s[..j] + [s[j]] + s[j + 1..];
    assert s[i] in multiset(s[..j]) by { assert s[..j][i] == s[i]; }
  }

  lemma RemoveAt<T>(s: seq<T>, j: nat)
    requires j < |s|
    ensures multiset(s[..j] + s[j + 1..]) + multiset{s[j]} == multiset(s)
  {
    assert s == s[..j] + [s[j]] + s[j + 1..];
  }

  lemma {:induction false} NoRepeatCounts<T>(s: seq<T>, x: T)
    requires forall i, j :: 0 <= i < j < |s| ==> s[i] != s[j]
    ensures multiset(s)[x] <= 1
  {
    if s != [] {
      var init := s[..|s| - 1];
      NoRepeatCounts(init, x);
      assert s == init + [s[|s| - 1]];
      if s[|s| - 1] == x { assert x !in init; }
    }
  }
}
