/** Vectors of exact reals and what spreading amounts over them does to their sum and L1 distance. */
module RankVectors {
  function Abs(x: real): (r: real)
    ensures r >= 0.0
  {
    if x < 0.0 then -x else x
  }

  function Sum(s: seq<real>): real {
    if s == [] then 0.0 else Sum(s[..|s| - 1]) + s[|s| - 1]
  }

  /** L1 distance. */
  function L1(a: seq<real>, b: seq<real>): (d: real)
    requires |a| == |b|
    ensures d >= 0.0
  {
    if a == [] then 0.0 else L1(a[..|a| - 1], b[..|b| - 1]) + Abs(a[|a| - 1] - b[|b| - 1])
  }

  /** A target and an amount. */
  type Link = (nat, real)

  function Weight(links: seq<Link>): real {
    if links == [] then 0.0 else Weight(links[..|links| - 1]) + links[|links| - 1].1
  }

  predicate GoodLinks(links: seq<Link>, n: nat) {
    forall j :: 0 <= j < |links| ==> links[j].0 < n && links[j].1 > 0.0
  }

  predicate InRange(adds: seq<Link>, n: nat) {
    forall j :: 0 <= j < |adds| ==> adds[j].0 < n
  }

  ghost predicate AllInRange(all: seq<seq<Link>>) {
    forall j :: 0 <= j < |all| ==> InRange(all[j], |all|)
  }

  /** Adds each amount to its target. */
  function Scatter(next: seq<real>, adds: seq<Link>): (r: seq<real>)
    requires InRange(adds, |next|)
    ensures |r| == |next|
  {
    if adds == [] then next
    else
      var before := Scatter(next, adds[..|adds| - 1]);
      var (di, x) := adds[|adds| - 1];
      before[di := before[di] + x]
  }

  function Constant(n: nat, x: real): (s: seq<real>)
    ensures |s| == n
  {
    if n == 0 then [] else Constant(n - 1, x) + [x]
  }

  /** The first `i` contributions on top of a constant base. */
  ghost function Spread(base: real, all: seq<seq<Link>>, i: nat): (next: seq<real>)
    requires i <= |all| && AllInRange(all)
    ensures |next| == |all|
  {
    if i == 0 then Constant(|all|, base) else Scatter(Spread(base, all, i - 1), all[i - 1])
  }

  /** Everything sent by the first `i` nodes. */
  function Sent(all: seq<seq<Link>>, i: nat): real
    requires i <= |all|
  {
    if i == 0 then 0.0 else Sent(all, i - 1) + Weight(all[i - 1])
  }

  /** Rank held by nodes below `i` that have no outgoing weight. */
  function Dangling(strength: seq<real>, rank: seq<real>, i: nat): real
    requires i <= |rank| == |strength|
  {
    if i == 0 then 0.0 else Dangling(strength, rank, i - 1) + (if strength[i - 1] == 0.0 then rank[i - 1] else 0.0)
  }

  /** L1 distance over the dangling nodes below `i`. */
  function DanglingL1(strength: seq<real>, a: seq<real>, b: seq<real>, i: nat): real
    requires i <= |a| == |b| == |strength|
  {
    if i == 0 then 0.0
    else DanglingL1(strength, a, b, i - 1) + (if strength[i - 1] == 0.0 then Abs(a[i - 1] - b[i - 1]) else 0.0)
  }

  // -------------------------------------------------------------------------
  // Additive functions: scaling by a factor the proofs need not look into
  // -------------------------------------------------------------------------

  function Plus(x: real, y: real): real {
    x + y
  }

  ghost predicate Additive(f: real -> real) {
    f(0.0) == 0.0 && forall x, y {:trigger f(Plus(x, y))} :: f(Plus(x, y)) == f(x) + f(y)
  }

  function Times(k: real): real -> real {
    x => k * x
  }

  lemma Distribute(k: real, x: real, y: real)
    ensures k * (x + y) == k * x + k * y
  {
  }

  lemma TimesAdditive(k: real)
    ensures Additive(Times(k))
  {
    var f := Times(k);
    forall x, y ensures f(Plus(x, y)) == f(x) + f(y) { Distribute(k, x, y); }
  }

  /** Each link's target with its weight scaled. */
  function Adds(links: seq<Link>, f: real -> real): (adds: seq<Link>)
    ensures |adds| == |links|
    ensures forall j :: 0 <= j < |links| ==> adds[j].0 == links[j].0
  {
    if links == [] then []
    else Adds(links[..|links| - 1], f) + [(links[|links| - 1].0, f(links[|links| - 1].1))]
  }

  // -------------------------------------------------------------------------
  // Sums
  // -------------------------------------------------------------------------

  lemma {:induction false} SumUpdate(s: seq<real>, i: nat, x: real)
    requires i < |s|
    ensures Sum(s[i := x]) == Sum(s) - s[i] + x
  {
    var n := |s| - 1;
    if i < n {
      assert s[i := x][..n] == s[..n][i := x];
      SumUpdate(s[..n], i, x);
    } else {
      assert s[i := x][..n] == s[..n];
    }
  }

  lemma {:induction false} SumScatter(next: seq<real>, adds: seq<Link>)
    requires InRange(adds, |next|)
    ensures Sum(Scatter(next, adds)) == Sum(next) + Weight(adds)
  {
    if adds != [] {
      var init := adds[..|adds| - 1];
      var (di, x) := adds[|adds| - 1];
      SumScatter(next, init);
      var before := Scatter(next, init);
      SumUpdate(before, di, before[di] + x);
    }
  }

  lemma {:induction false} SumSpread(base: real, all: seq<seq<Link>>, i: nat)
    requires i <= |all| && AllInRange(all)
    ensures Sum(Spread(base, all, i)) == Sum(Constant(|all|, base)) + Sent(all, i)
  {
    if i > 0 {
      SumSpread(base, all, i - 1);
      SumScatter(Spread(base, all, i - 1), all[i - 1]);
    }
  }

  lemma {:induction false} WeightAdds(links: seq<Link>, f: real -> real)
    requires Additive(f)
    ensures Weight(Adds(links, f)) == f(Weight(links))
  {
    if links != [] {
      var init := links[..|links| - 1];
      WeightAdds(init, f);
      assert Adds(links, f)[..|links| - 1] == Adds(init, f);
      assert Weight(links) == Plus(Weight(init), links[|links| - 1].1);
    }
  }

  /** What is sent, together with the scaled dangling rank, is the whole scaled rank. */
  lemma {:induction false} SentTotal(strength: seq<real>, rank: seq<real>, all: seq<seq<Link>>, f: real -> real, i: nat)
    requires i <= |rank| == |strength| == |all| && Additive(f)
    requires forall j :: 0 <= j < |all| ==> Weight(all[j]) == if strength[j] == 0.0 then 0.0 else f(rank[j])
    ensures Sent(all, i) + f(Dangling(strength, rank, i)) == f(Sum(rank[..i]))
  {
    if i > 0 {
      SentTotal(strength, rank, all, f, i - 1);
      assert rank[..i][..i - 1] == rank[..i - 1];
      assert Sum(rank[..i]) == Plus(Sum(rank[..i - 1]), rank[i - 1]);
      if strength[i - 1] == 0.0 {
        assert Dangling(strength, rank, i) == Plus(Dangling(strength, rank, i - 1), rank[i - 1]);
      }
    }
  }

  // -------------------------------------------------------------------------
  // Signs
  // -------------------------------------------------------------------------

  ghost predicate NonNegative(s: seq<real>) {
    forall i :: 0 <= i < |s| ==> s[i] >= 0.0
  }

  ghost predicate NonNegativeAdds(adds: seq<Link>) {
    forall j :: 0 <= j < |adds| ==> adds[j].1 >= 0.0
  }

  lemma {:induction false} ScatterNonNegative(next: seq<real>, adds: seq<Link>)
    requires InRange(adds, |next|) && NonNegative(next) && NonNegativeAdds(adds)
    ensures NonNegative(Scatter(next, adds))
  {
    if adds != [] { ScatterNonNegative(next, adds[..|adds| - 1]); }
  }

  lemma {:induction false} AddsNonNegative(links: seq<Link>, f: real -> real, n: nat)
    requires GoodLinks(links, n) && forall w :: w > 0.0 ==> f(w) >= 0.0
    ensures NonNegativeAdds(Adds(links, f))
  {
    if links != [] { AddsNonNegative(links[..|links| - 1], f, n); }
  }

  lemma {:induction false} WeightPositive(links: seq<Link>, n: nat)
    requires GoodLinks(links, n)
    ensures Weight(links) >= 0.0 && (Weight(links) == 0.0 <==> links == [])
  {
    if links != [] { WeightPositive(links[..|links| - 1], n); }
  }

  lemma {:induction false} DanglingNonNegative(strength: seq<real>, rank: seq<real>, i: nat)
    requires i <= |rank| == |strength| && NonNegative(rank)
    ensures Dangling(strength, rank, i) >= 0.0
  {
    if i > 0 { DanglingNonNegative(strength, rank, i - 1); }
  }

  lemma {:induction false} ConstantIs(n: nat, x: real)
    ensures forall i :: 0 <= i < n ==> Constant(n, x)[i] == x
  {
    if n > 0 { ConstantIs(n - 1, x); }
  }

  lemma {:induction false} SpreadNonNegative(base: real, all: seq<seq<Link>>, i: nat)
    requires i <= |all| && base >= 0.0 && AllInRange(all)
    requires forall j :: 0 <= j < |all| ==> NonNegativeAdds(all[j])
    ensures NonNegative(Spread(base, all, i))
  {
    if i == 0 {
      ConstantIs(|all|, base);
    } else {
      SpreadNonNegative(base, all, i - 1);
      ScatterNonNegative(Spread(base, all, i - 1), all[i - 1]);
    }
  }

  // -------------------------------------------------------------------------
  // L1 distances
  // -------------------------------------------------------------------------

  lemma {:induction false} L1Update(a: seq<real>, b: seq<real>, i: nat, x: real, y: real)
    requires |a| == |b| && i < |a|
    ensures L1(a[i := x], b[i := y]) == L1(a, b) - Abs(a[i] - b[i]) + Abs(x - y)
  {
    var n := |a| - 1;
    if i < n {
      assert a[i := x][..n] == a[..n][i := x] && b[i := y][..n] == b[..n][i := y];
      L1Update(a[..n], b[..n], i, x, y);
    } else {
      assert a[i := x][..n] == a[..n] && b[i := y][..n] == b[..n];
    }
  }

  lemma {:induction false} L1Zero(a: seq<real>, b: seq<real>)
    requires |a| == |b| && L1(a, b) == 0.0
    ensures a == b
  {
    if a != [] {
      var n := |a| - 1;
      L1Zero(a[..n], b[..n]);
      assert a == a[..n] + [a[n]] && b == b[..n] + [b[n]];
    }
  }

  ghost predicate SameTargets(p: seq<Link>, q: seq<Link>) {
    |p| == |q| && forall j :: 0 <= j < |p| ==> p[j].0 == q[j].0
  }

  ghost predicate AllSameTargets(p: seq<seq<Link>>, q: seq<seq<Link>>) {
    |p| == |q| && forall j :: 0 <= j < |p| ==> SameTargets(p[j], q[j])
  }

  /** Total change of the amounts sent. */
  function AddsL1(p: seq<Link>, q: seq<Link>): real
    requires |p| == |q|
  {
    if p == [] then 0.0 else AddsL1(p[..|p| - 1], q[..|q| - 1]) + Abs(p[|p| - 1].1 - q[|q| - 1].1)
  }

  ghost function AllL1(p: seq<seq<Link>>, q: seq<seq<Link>>, i: nat): real
    requires AllSameTargets(p, q) && i <= |p|
  {
    if i == 0 then 0.0 else AllL1(p, q, i - 1) + AddsL1(p[i - 1], q[i - 1])
  }

  lemma {:induction false} L1Scatter(a: seq<real>, b: seq<real>, p: seq<Link>, q: seq<Link>)
    requires |a| == |b| && InRange(p, |a|) && InRange(q, |b|) && SameTargets(p, q)
    ensures L1(Scatter(a, p), Scatter(b, q)) <= L1(a, b) + AddsL1(p, q)
  {
    if p != [] {
      var n := |p| - 1;
      L1Scatter(a, b, p[..n], q[..n]);
      var x, y, di := Scatter(a, p[..n]), Scatter(b, q[..n]), p[n].0;
      L1Update(x, y, di, x[di] + p[n].1, y[di] + q[n].1);
    }
  }

  lemma {:induction false} L1Spread(x: real, y: real, p: seq<seq<Link>>, q: seq<seq<Link>>, i: nat)
    requires AllSameTargets(p, q) && i <= |p| && AllInRange(p) && AllInRange(q)
    ensures L1(Spread(x, p, i), Spread(y, q, i)) <= L1(Constant(|p|, x), Constant(|q|, y)) + AllL1(p, q, i)
  {
    if i > 0 {
      L1Spread(x, y, p, q, i - 1);
      L1Scatter(Spread(x, p, i - 1), Spread(y, q, i - 1), p[i - 1], q[i - 1]);
    }
  }

  /** Scaling the same links by `f` and by `g` moves the amounts apart by `h` of the weight. */
  lemma {:induction false} AddsDifference(links: seq<Link>, f: real -> real, g: real -> real, h: real -> real, n: nat)
    requires GoodLinks(links, n) && Additive(h) && forall w :: w > 0.0 ==> Abs(f(w) - g(w)) == h(w)
    ensures AddsL1(Adds(links, f), Adds(links, g)) == h(Weight(links))
  {
    if links != [] {
      var init, w := links[..|links| - 1], links[|links| - 1].1;
      AddsDifference(init, f, g, h, n);
      assert Adds(links, f)[..|links| - 1] == Adds(init, f) && Adds(links, g)[..|links| - 1] == Adds(init, g);
      assert Weight(links) == Plus(Weight(init), w);
    }
  }

  lemma {:induction false} DanglingDifference(strength: seq<real>, a: seq<real>, b: seq<real>, i: nat)
    requires i <= |a| == |b| == |strength|
    ensures Abs(Dangling(strength, a, i) - Dangling(strength, b, i)) <= DanglingL1(strength, a, b, i)
  {
    if i > 0 { DanglingDifference(strength, a, b, i - 1); }
  }

  /** The change in what is sent, with the scaled dangling change, is the whole scaled change. */
  lemma {:induction false} AllDifference(strength: seq<real>, a: seq<real>, b: seq<real>, p: seq<seq<Link>>, q: seq<seq<Link>>, h: real -> real, i: nat)
    requires i <= |a| == |b| == |strength| == |p| && AllSameTargets(p, q) && Additive(h)
    requires forall j :: 0 <= j < |p| ==> AddsL1(p[j], q[j]) == if strength[j] == 0.0 then 0.0 else h(Abs(a[j] - b[j]))
    ensures AllL1(p, q, i) + h(DanglingL1(strength, a, b, i)) == h(L1(a[..i], b[..i]))
  {
    if i > 0 {
      AllDifference(strength, a, b, p, q, h, i - 1);
      var d := Abs(a[i - 1] - b[i - 1]);
      assert a[..i][..i - 1] == a[..i - 1] && b[..i][..i - 1] == b[..i - 1];
      assert L1(a[..i], b[..i]) == Plus(L1(a[..i - 1], b[..i - 1]), d);
      if strength[i - 1] == 0.0 {
        assert DanglingL1(strength, a, b, i) == Plus(DanglingL1(strength, a, b, i - 1), d);
      }
    }
  }

  // -------------------------------------------------------------------------
  // Constant vectors
  // -------------------------------------------------------------------------

  lemma OneMore(n: nat, c: real)
    requires n > 0
    ensures n as real * c == (n - 1) as real * c + c
  {
    Distribute(c, (n - 1) as real, 1.0);
  }

  lemma {:induction false} SumConstant(n: nat, x: real)
    ensures Sum(Constant(n, x)) == n as real * x
  {
    if n > 0 {
      SumConstant(n - 1, x);
      assert Constant(n, x)[..n - 1] == Constant(n - 1, x);
      OneMore(n, x);
    }
  }

  lemma {:induction false} L1Constant(n: nat, x: real, y: real)
    ensures L1(Constant(n, x), Constant(n, y)) == Sum(Constant(n, Abs(x - y)))
  {
    if n > 0 {
      L1Constant(n - 1, x, y);
      assert Constant(n, x)[..n - 1] == Constant(n - 1, x) && Constant(n, y)[..n - 1] == Constant(n - 1, y);
      assert Constant(n, Abs(x - y))[..n - 1] == Constant(n - 1, Abs(x - y));
    }
  }

  // -------------------------------------------------------------------------
  // Spreading, in total
  // -------------------------------------------------------------------------

  /** When the base hands back the scaled dangling rank, spreading yields `left` plus the scaled rank sum. */
  lemma SpreadSum(strength: seq<real>, rank: seq<real>, all: seq<seq<Link>>, f: real -> real, base: real, left: real)
    requires |rank| == |strength| == |all| && AllInRange(all) && Additive(f)
    requires forall j :: 0 <= j < |all| ==> Weight(all[j]) == if strength[j] == 0.0 then 0.0 else f(rank[j])
    requires Sum(Constant(|all|, base)) == left + f(Dangling(strength, rank, |all|))
    ensures Sum(Spread(base, all, |all|)) == left + f(Sum(rank))
  {
    SumSpread(base, all, |all|);
    SentTotal(strength, rank, all, f, |all|);
    assert rank[..|all|] == rank;
  }

  lemma AllDifferenceTotal(strength: seq<real>, a: seq<real>, b: seq<real>, p: seq<seq<Link>>, q: seq<seq<Link>>, h: real -> real)
    requires |a| == |b| == |strength| == |p| && AllSameTargets(p, q) && Additive(h)
    requires forall j :: 0 <= j < |p| ==> AddsL1(p[j], q[j]) == if strength[j] == 0.0 then 0.0 else h(Abs(a[j] - b[j]))
    ensures AllL1(p, q, |p|) + h(DanglingL1(strength, a, b, |p|)) == h(L1(a, b))
  {
    AllDifference(strength, a, b, p, q, h, |p|);
    assert a[..|p|] == a && b[..|p|] == b;
  }
}
