/** Reachability in a dependency graph. */
module Graphs {
  import opened Objects

  /** The targets of an object's edges, in stored order. */
  function Targets(g: Graph, i: nat): (t: seq<nat>)
    requires i < |g|
    ensures |t| == |g[i].dependencies| && forall k :: 0 <= k < |t| ==> t[k] == g[i].dependencies[k].target
  {
    seq(|g[i].dependencies|, k requires 0 <= k < |g[i].dependencies| => g[i].dependencies[k].target)
  }

  ghost predicate Adjacent(g: Graph, u: nat, w: nat) {
    u < |g| && w in Targets(g, u)
  }

  /** A walk along edges from `u` to `w`. */
  ghost predicate IsPath(g: Graph, p: seq<nat>, u: nat, w: nat) {
    && |p| > 0 && p[0] == u && p[|p| - 1] == w
    && forall k :: 0 <= k < |p| - 1 ==> Adjacent(g, p[k], p[k + 1])
  }

  ghost predicate Reaches(g: Graph, u: nat, w: nat) {
    exists p :: IsPath(g, p, u, w)
  }

  lemma {:induction false} ReachesSelf(g: Graph, u: nat)
    ensures Reaches(g, u, u)
  {
    assert IsPath(g, [u], u, u);
  }

  lemma {:induction false} ReachesStep(g: Graph, u: nat, m: nat, w: nat)
    requires Reaches(g, u, m) && Adjacent(g, m, w)
    ensures Reaches(g, u, w)
  {
    var p :| IsPath(g, p, u, m);
    var q := p + [w];
    forall k | 0 <= k < |q| - 1 ensures Adjacent(g, q[k], q[k + 1]) {
      if k < |p| - 1 { assert Adjacent(g, p[k], p[k + 1]); }
    }
    assert IsPath(g, q, u, w);
  }

  /** A set closed under edges holds everything reachable from its members. */
  lemma {:induction false} ClosedReaches(g: Graph, closed: set<nat>, u: nat, w: nat)
    requires u in closed && Reaches(g, u, w)
    requires forall a, b :: a in closed && Adjacent(g, a, b) ==> b in closed
    ensures w in closed
  {
    var p :| IsPath(g, p, u, w);
    for k := 0 to |p|
      invariant k < |p| ==> p[k] in closed
      invariant forall j :: 0 <= j < k ==> p[j] in closed
    {
      if k + 1 < |p| { assert Adjacent(g, p[k], p[k + 1]); }
    }
  }
}
