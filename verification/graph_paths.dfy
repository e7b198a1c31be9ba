/** Paths over sets of links, and the connectivity they generate. */
module GraphPaths {
  import opened Bytes

  type Links = set<(str, str)>

  predicate IsPath(links: Links, p: seq<str>) {
    p != [] && forall i :: 0 <= i < |p| - 1 ==> LinkAt(links, p, i)
  }

  predicate LinkAt(links: Links, p: seq<str>, i: nat)
    requires i + 1 < |p|
  {
    (p[i], p[i + 1]) in links
  }

  predicate PathFromTo(links: Links, p: seq<str>, x: str, y: str) {
    IsPath(links, p) && p[0] == x && p[|p| - 1] == y
  }

  ghost function Undirected(links: Links): (u: Links)
    ensures forall x, y :: (x, y) in u <==> (x, y) in links || (y, x) in links
  {
    links + set l | l in links :: (l.1, l.0)
  }

  /** The equivalence closure of the links. */
  ghost predicate Connected(links: Links, x: str, y: str) {
    exists p :: PathFromTo(Undirected(links), p, x, y)
  }

  lemma ConnectedReflexive(links: Links, x: str)
    ensures Connected(links, x, x)
  {
    assert PathFromTo(Undirected(links), [x], x, x);
  }

  lemma ConnectedLink(links: Links, x: str, y: str)
    requires (x, y) in links
    ensures Connected(links, x, y) && Connected(links, y, x)
  {
    var u := Undirected(links);
    assert LinkAt(u, [x, y], 0) && LinkAt(u, [y, x], 0);
    assert PathFromTo(u, [x, y], x, y) && PathFromTo(u, [y, x], y, x);
  }

  lemma Joined(links: Links, p: seq<str>, q: seq<str>, x: str, y: str, z: str)
    requires PathFromTo(links, p, x, y) && PathFromTo(links, q, y, z)
    ensures PathFromTo(links, p + q[1..], x, z)
  {
    var r := p + q[1..];
    forall i | 0 <= i < |r| - 1 ensures LinkAt(links, r, i) {
      if i < |p| - 1 { assert LinkAt(links, p, i); } else { assert LinkAt(links, q, i + 1 - |p|); }
    }
  }

  lemma ConnectedTransitive(links: Links, x: str, y: str, z: str)
    requires Connected(links, x, y) && Connected(links, y, z)
    ensures Connected(links, x, z)
  {
    var p :| PathFromTo(Undirected(links), p, x, y);
    var q :| PathFromTo(Undirected(links), q, y, z);
    Joined(Undirected(links), p, q, x, y, z);
  }

  lemma ConnectedSymmetric(links: Links, x: str, y: str)
    requires Connected(links, x, y)
    ensures Connected(links, y, x)
  {
    var u := Undirected(links);
    var p :| PathFromTo(u, p, x, y);
    var r := seq(|p|, i requires 0 <= i < |p| => p[|p| - 1 - i]);
    forall i | 0 <= i < |r| - 1 ensures LinkAt(u, r, i) { assert LinkAt(u, p, |p| - 2 - i); }
    assert PathFromTo(u, r, y, x);
  }

  /** A relation that holds along every link holds between connected nodes, such as carrying equal marks. */
  lemma {:induction false} ConnectedAlong<T>(links: Links, p: seq<str>, f: str -> T)
    requires IsPath(Undirected(links), p) && forall l :: l in links ==> f(l.0) == f(l.1)
    ensures f(p[0]) == f(p[|p| - 1])
    decreases |p|
  {
    if |p| > 1 {
      var init := p[..|p| - 1];
      forall i | 0 <= i < |init| - 1 ensures LinkAt(Undirected(links), init, i) { assert LinkAt(Undirected(links), p, i); }
      ConnectedAlong(links, init, f);
      assert LinkAt(Undirected(links), p, |p| - 2);
    }
  }
}
