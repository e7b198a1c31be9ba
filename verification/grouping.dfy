/** Node lists and groups shared by the community and component algorithms. */
module Grouping {
  import opened Bytes
  import Sorting

  ghost predicate NoDuplicates(s: seq<str>) {
    forall i, j :: 0 <= i < j < |s| ==> s[i] != s[j]
  }

  /** `sort` of a list without duplicates. */
  method SortNames(s: seq<str>) returns (r: seq<str>)
    requires NoDuplicates(s)
    ensures Increasing(r) && NoDuplicates(r) && forall x :: x in r <==> x in s
  {
    LeTotalPreorder();
    Sorting.SortSorted(s, Le);
    r := Sorting.Sort(s, Le);
    Sorting.SameMembers(s, r);
    forall i, j | 0 <= i < j < |r| ensures Lt(r[i], r[j]) && r[i] != r[j] {
      if r[i] == r[j] {
        Sorting.TwiceCounts(r, i, j);
        Sorting.NoRepeatCounts(s, r[i]);
      }
    }
  }

  lemma LeTotalPreorder()
    ensures Sorting.TotalPreorder(Le)
  {
    forall x: seq<byte>, y: seq<byte> ensures Le(x, y) || Le(y, x) { LtTotal(x, y); }
    forall x: seq<byte>, y: seq<byte>, z: seq<byte> | Le(x, y) && Le(y, z) ensures Le(x, z) { LeLtTransitive(x, y, z); }
  }

  /** The members of a set, in order. */
  method SortedNames(s: set<str>) returns (r: seq<str>)
    ensures Increasing(r) && NoDuplicates(r) && forall x :: x in r <==> x in s
  {
    var listing: seq<str>, todo := [], s;
    while todo != {}
      invariant todo <= s && NoDuplicates(listing)
      invariant forall x :: x in listing <==> x in s - todo
      decreases |todo|
    {
      var x :| x in todo;
      assert x !in listing;
      todo := todo - {x};
      listing := listing + [x];
    }
    r := SortNames(listing);
  }

  /** `groups` lists, in order, exactly the nodes of each assigned label. */
  ghost predicate Groups(groups: map<str, seq<str>>, a: map<str, str>) {
    && groups.Keys == a.Values
    && forall c :: c in groups ==> Increasing(groups[c]) && forall x :: x in groups[c] <==> x in a && a[x] == c
  }

  /** `raw` lists once, in any order, the nodes of `done` under each of their labels. */
  ghost predicate Collected(raw: map<str, seq<str>>, a: map<str, str>, done: set<str>)
    requires done <= a.Keys
  {
    && (forall x :: x in done ==> a[x] in raw)
    && (forall c :: c in raw ==> CollectedAt(raw[c], a, done, c))
  }

  ghost predicate CollectedAt(members: seq<str>, a: map<str, str>, done: set<str>, c: str)
    requires done <= a.Keys
  {
    && members != [] && NoDuplicates(members)
    && (forall x :: x in members <==> x in done && a[x] == c)
  }

  lemma CollectOne(raw: map<str, seq<str>>, a: map<str, str>, done: set<str>, x: str)
    requires done <= a.Keys && Collected(raw, a, done) && x in a && x !in done
    ensures Collected(raw[a[x] := (if a[x] in raw then raw[a[x]] else []) + [x]], a, done + {x})
  {
    var before := if a[x] in raw then raw[a[x]] else [];
    var raw' := raw[a[x] := before + [x]];
    assert x !in before;
    forall c | c in raw' ensures CollectedAt(raw'[c], a, done + {x}, c) {
      if c == a[x] {
        assert forall y :: y in before <==> y in done && a[y] == c;
        forall y ensures y in before + [x] <==> y in done + {x} && a[y] == c {}
      } else {
        assert CollectedAt(raw[c], a, done, c);
      }
    }
  }

  /** Communities from an assignment visited in any order. */
  method GroupsFromAssignment(a: map<str, str>) returns (groups: map<str, seq<str>>)
    ensures Groups(groups, a)
  {
    var raw: map<str, seq<str>> := map[];
    var todo := a.Keys;
    while todo != {}
      invariant todo <= a.Keys && Collected(raw, a, a.Keys - todo)
      decreases |todo|
    {
      var x :| x in todo;
      CollectOne(raw, a, a.Keys - todo, x);
      assert a.Keys - todo + {x} == a.Keys - (todo - {x});
      todo := todo - {x};
      raw := raw[a[x] := (if a[x] in raw then raw[a[x]] else []) + [x]];
    }
    assert a.Keys - todo == a.Keys;
    groups := SortGroups(raw);
    CollectedAll(raw, groups, a);
  }

  lemma CollectedAll(raw: map<str, seq<str>>, groups: map<str, seq<str>>, a: map<str, str>)
    requires Collected(raw, a, a.Keys) && groups.Keys == raw.Keys
    requires forall c :: c in raw ==> Increasing(groups[c]) && forall x :: x in groups[c] <==> x in raw[c]
    ensures Groups(groups, a)
  {
    forall c | c in raw ensures c in a.Values && forall x :: x in groups[c] <==> x in a && a[x] == c {
      assert CollectedAt(raw[c], a, a.Keys, c);
      assert raw[c][0] in raw[c];
    }
    forall c | c in a.Values ensures c in raw {
      var x :| x in a && a[x] == c;
    }
  }

  method SortGroups(raw: map<str, seq<str>>) returns (groups: map<str, seq<str>>)
    requires forall c :: c in raw ==> NoDuplicates(raw[c])
    ensures groups.Keys == raw.Keys
    ensures forall c :: c in raw ==> Increasing(groups[c]) && forall x :: x in groups[c] <==> x in raw[c]
  {
    groups := map[];
    var left := raw.Keys;
    while left != {}
      invariant left <= raw.Keys && groups.Keys == raw.Keys - left
      invariant forall c :: c in groups ==> Increasing(groups[c]) && forall x :: x in groups[c] <==> x in raw[c]
      decreases |left|
    {
      var c :| c in left;
      var members := SortNames(raw[c]);
      groups := groups[c := members];
      left := left - {c};
    }
  }

  /** Every node is in exactly one group. */
  lemma GroupsPartition(groups: map<str, seq<str>>, a: map<str, str>, x: str)
    requires Groups(groups, a) && x in a
    ensures a[x] in groups && x in groups[a[x]] && forall c :: c in groups && x in groups[c] ==> c == a[x]
  {
    assert a[x] in a.Values;
  }

  lemma IncreasingDistinct(nodes: seq<str>)
    requires Increasing(nodes)
    ensures NoDuplicates(nodes)
  {
    forall i, j | 0 <= i < j < |nodes| ensures nodes[i] != nodes[j] { LtIrreflexive(nodes[i]); }
  }

  lemma MaxLast(s: seq<str>, x: str)
    requires Increasing(s) && x in s
    ensures Le(x, s[|s| - 1])
  {
    var i :| 0 <= i < |s| && s[i] == x;
  }

  /** Increasing lists with the same members are the same list. */
  lemma {:induction false} SameListing(p: seq<str>, q: seq<str>)
    requires Increasing(p) && Increasing(q) && forall x :: x in p <==> x in q
    ensures p == q
  {
    assert q != [] ==> q[0] in q;
    if p != [] {
      assert p[0] in q;
      var m, n := p[|p| - 1], q[|q| - 1];
      MaxLast(p, n);
      MaxLast(q, m);
      LtTrichotomy(m, n);
      var r, t := p[..|p| - 1], q[..|q| - 1];
      forall x ensures x in r <==> x in t {
        IncreasingDistinct(p);
        IncreasingDistinct(q);
        assert p == r + [m] && q == t + [m];
        assert x in p <==> x in r || x == m;
        assert x in q <==> x in t || x == m;
      }
      SameListing(r, t);
    }
  }
}
