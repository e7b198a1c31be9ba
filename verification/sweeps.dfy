/**
 Passes over a fixed node order (the outer loops of crates/graph/src/community.rs):
 every pass visits each node once, and the first pass that changes nothing is the last.
 */
module Sweeps {
  import opened Bytes

  type Assignment = map<str, str>

  /** What one visit may turn an assignment into. */
  type Visit = (Assignment, str, Assignment) -> bool

  ghost predicate VisitAt(visit: Visit, nodes: seq<str>, steps: seq<Assignment>, i: nat)
    requires i < |nodes| && i + 1 < |steps|
  {
    visit(steps[i], nodes[i], steps[i + 1])
  }

  /** The assignments around the first visits of a pass. */
  ghost predicate Started(visit: Visit, nodes: seq<str>, steps: seq<Assignment>) {
    0 < |steps| <= |nodes| + 1 && forall i: nat :: i + 1 < |steps| ==> VisitAt(visit, nodes, steps, i)
  }

  ghost predicate Quiet(steps: seq<Assignment>) {
    forall i: nat :: i + 1 < |steps| ==> steps[i] == steps[i + 1]
  }

  ghost predicate PassAt(visit: Visit, nodes: seq<str>, start: Assignment, passes: seq<seq<Assignment>>, k: nat)
    requires k < |passes|
  {
    && Started(visit, nodes, passes[k]) && |passes[k]| == |nodes| + 1
    && passes[k][0] == After(start, passes[..k])
  }

  /** The assignment after some passes. */
  ghost function After(start: Assignment, passes: seq<seq<Assignment>>): Assignment {
    if passes == [] || passes[|passes| - 1] == [] then start else passes[|passes| - 1][|passes[|passes| - 1]| - 1]
  }

  /** Consecutive passes from `start`, all but possibly the last with a change. */
  ghost predicate Running(visit: Visit, nodes: seq<str>, start: Assignment, passes: seq<seq<Assignment>>) {
    forall k: nat :: k < |passes| ==> PassAt(visit, nodes, start, passes, k) && (k + 1 < |passes| ==> !Quiet(passes[k]))
  }

  /** The passes of a whole run: they end with the first quiet one, or when `limit` are done. */
  ghost predicate Passes(visit: Visit, nodes: seq<str>, start: Assignment, passes: seq<seq<Assignment>>, limit: nat) {
    && Running(visit, nodes, start, passes) && |passes| <= limit
    && (|passes| < limit ==> Settles(passes))
  }

  /** The last pass changed nothing. */
  ghost predicate Settles(passes: seq<seq<Assignment>>) {
    passes != [] && Quiet(passes[|passes| - 1])
  }

  lemma VisitNext(visit: Visit, nodes: seq<str>, steps: seq<Assignment>, b: Assignment)
    requires Started(visit, nodes, steps) && |steps| <= |nodes| && visit(steps[|steps| - 1], nodes[|steps| - 1], b)
    ensures Started(visit, nodes, steps + [b])
    ensures Quiet(steps + [b]) <==> Quiet(steps) && b == steps[|steps| - 1]
  {
    var more := steps + [b];
    forall i: nat | i + 1 < |more| ensures VisitAt(visit, nodes, more, i) {
      if i + 1 < |steps| { assert VisitAt(visit, nodes, steps, i); }
    }
    if Quiet(more) {
      forall i: nat | i + 1 < |steps| ensures steps[i] == steps[i + 1] { assert more[i] == more[i + 1]; }
      assert more[|steps| - 1] == more[|steps| - 1 + 1];
    }
    if Quiet(steps) && b == steps[|steps| - 1] {
      forall i: nat | i + 1 < |more| ensures more[i] == more[i + 1] {
        if i + 1 < |steps| { assert steps[i] == steps[i + 1]; }
      }
    }
  }

  /** A run that has not settled yet and stands at `a`. */
  ghost predicate Loud(visit: Visit, nodes: seq<str>, start: Assignment, passes: seq<seq<Assignment>>, a: Assignment) {
    Running(visit, nodes, start, passes) && a == After(start, passes) && (passes != [] ==> !Settles(passes))
  }

  /** One more pass, from `a` to `b`. */
  ghost predicate IsPass(visit: Visit, nodes: seq<str>, steps: seq<Assignment>, a: Assignment, b: Assignment) {
    Started(visit, nodes, steps) && |steps| == |nodes| + 1 && steps[0] == a && steps[|nodes|] == b
  }

  lemma PassNext(visit: Visit, nodes: seq<str>, start: Assignment, passes: seq<seq<Assignment>>, a: Assignment, steps: seq<Assignment>, b: Assignment, limit: nat)
    requires Loud(visit, nodes, start, passes, a) && IsPass(visit, nodes, steps, a, b) && |passes| < limit
    ensures After(start, passes + [steps]) == b
    ensures if Quiet(steps) then Settles(passes + [steps]) && Passes(visit, nodes, start, passes + [steps], limit)
            else Loud(visit, nodes, start, passes + [steps], b)
  {
    var more := passes + [steps];
    forall k: nat | k < |more| ensures PassAt(visit, nodes, start, more, k) && (k + 1 < |more| ==> !Quiet(more[k])) {
      if k < |passes| {
        assert PassAt(visit, nodes, start, passes, k) && more[..k] == passes[..k];
      } else {
        assert more[..k] == passes;
      }
    }
  }

  /** Without a quiet pass a run ends at its limit. */
  lemma LimitReached(visit: Visit, nodes: seq<str>, start: Assignment, passes: seq<seq<Assignment>>, a: Assignment, limit: nat)
    requires Loud(visit, nodes, start, passes, a) && |passes| == limit
    ensures Passes(visit, nodes, start, passes, limit) && a == After(start, passes) && !Settles(passes)
  {
  }

  /** A quiet pass ends where it began. */
  lemma {:induction false} QuietStays(steps: seq<Assignment>, i: nat)
    requires Quiet(steps) && i < |steps|
    ensures steps[i] == steps[0]
  {
    if i > 0 {
      QuietStays(steps, i - 1);
      assert steps[i - 1] == steps[i - 1 + 1];
    }
  }

  /** What `inv` says of an assignment, every visit keeps. */
  ghost predicate Kept(visit: Visit, inv: Assignment -> bool) {
    forall a: Assignment, x: str, b: Assignment :: inv(a) && visit(a, x, b) ==> inv(b)
  }

  lemma {:induction false} StepsKeep(visit: Visit, nodes: seq<str>, steps: seq<Assignment>, inv: Assignment -> bool, i: nat)
    requires Started(visit, nodes, steps) && Kept(visit, inv) && inv(steps[0]) && i < |steps|
    ensures inv(steps[i])
  {
    if i > 0 {
      StepsKeep(visit, nodes, steps, inv, i - 1);
      assert VisitAt(visit, nodes, steps, i - 1);
    }
  }

  /** What every visit keeps holds after any number of passes. */
  lemma {:induction false} RunKeeps(visit: Visit, nodes: seq<str>, start: Assignment, passes: seq<seq<Assignment>>, inv: Assignment -> bool, k: nat)
    requires Running(visit, nodes, start, passes) && Kept(visit, inv) && inv(start) && k <= |passes|
    ensures inv(After(start, passes[..k]))
  {
    if k > 0 {
      RunKeeps(visit, nodes, start, passes, inv, k - 1);
      assert PassAt(visit, nodes, start, passes, k - 1);
      StepsKeep(visit, nodes, passes[k - 1], inv, |nodes|);
    }
  }

  /** It holds at every visit of a pass as well. */
  lemma PassKeeps(visit: Visit, nodes: seq<str>, start: Assignment, passes: seq<seq<Assignment>>, inv: Assignment -> bool, k: nat, i: nat)
    requires Running(visit, nodes, start, passes) && Kept(visit, inv) && inv(start) && k < |passes| && i < |passes[k]|
    ensures inv(passes[k][i])
  {
    RunKeeps(visit, nodes, start, passes, inv, k);
    assert PassAt(visit, nodes, start, passes, k);
    StepsKeep(visit, nodes, passes[k], inv, i);
  }
}
