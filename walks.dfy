/**
 * Walks through the adjacency table: what "reachable from start" and "the
 * total weight of a path" mean, which the traversals and the shortest-path
 * searches are specified against.
 */
module Walks {
  import opened Adjacency

  /** A non-empty sequence of cities, each one adjacent to the next. */
  ghost predicate IsWalk(adj: Adj, p: seq<City>)
  {
    && |p| > 0
    && p[0] in adj
    && forall i :: 0 <= i < |p| - 1 ==> HasEdge(adj, p[i], p[i + 1])
  }

  ghost predicate Reachable(adj: Adj, s: City, t: City)
  {
    exists p :: IsWalk(adj, p) && p[0] == s && p[|p| - 1] == t
  }

  /** Sum of the selected weight over the consecutive pairs of p. */
  function WalkCost(adj: Adj, p: seq<City>, m: Metric): real
  {
    if |p| <= 1 then 0.0 else EdgeWeight(adj, p[0], p[1], m) + WalkCost(adj, p[1..], m)
  }

  /** No walk from s to t costs less than c. */
  ghost predicate Shortest(adj: Adj, m: Metric, s: City, t: City, c: real)
  {
    forall p :: IsWalk(adj, p) && p[0] == s && p[|p| - 1] == t ==> c <= WalkCost(adj, p, m)
  }

  /** S contains every neighbour of each of its cities. */
  ghost predicate ClosedUnder(adj: Adj, S: set<City>)
  {
    forall c, n :: c in S && HasEdge(adj, c, n) ==> n in S
  }

  lemma ReachableFromItself(adj: Adj, s: City)
    requires s in adj
    ensures Reachable(adj, s, s)
  {
    assert IsWalk(adj, [s]);
  }

  /** Reachability extends along an edge. */
  lemma ReachableStep(adj: Adj, s: City, u: City, v: City)
    requires Reachable(adj, s, u) && HasEdge(adj, u, v)
    ensures Reachable(adj, s, v)
  {
    var p :| IsWalk(adj, p) && p[0] == s && p[|p| - 1] == u;
    var q := p + [v];
    forall i | 0 <= i < |q| - 1
      ensures HasEdge(adj, q[i], q[i + 1])
    {
      if i < |p| - 1 {
        assert q[i] == p[i] && q[i + 1] == p[i + 1];
      }
    }
    assert IsWalk(adj, q);
  }

  /** Dropping the last city of a walk of two or more leaves a walk. */
  lemma WalkPrefix(adj: Adj, p: seq<City>)
    requires IsWalk(adj, p) && |p| > 1
    ensures IsWalk(adj, p[..|p| - 1])
    ensures HasEdge(adj, p[|p| - 2], p[|p| - 1])
  {
    var q := p[..|p| - 1];
    forall i | 0 <= i < |q| - 1
      ensures HasEdge(adj, q[i], q[i + 1])
    {
      assert q[i] == p[i] && q[i + 1] == p[i + 1];
    }
  }

  /** A walk that starts in a set closed under adjacency ends in it. */
  lemma {:induction false} WalkStaysInClosed(adj: Adj, S: set<City>, p: seq<City>)
    requires IsWalk(adj, p) && p[0] in S && ClosedUnder(adj, S)
    ensures p[|p| - 1] in S
  {
    if |p| > 1 {
      WalkPrefix(adj, p);
      WalkStaysInClosed(adj, S, p[..|p| - 1]);
    }
  }

  /** The cities reachable from s. */
  ghost function ReachableFrom(adj: Adj, s: City): set<City>
  {
    set c | c in adj && Reachable(adj, s, c)
  }

  /** In a symmetric table every city reachable from s is itself a city, so ReachableFrom misses none. */
  lemma ReachableFromComplete(adj: Adj, s: City, t: City)
    requires WellFormed(adj) && Reachable(adj, s, t)
    ensures t in ReachableFrom(adj, s)
  {
    var p :| IsWalk(adj, p) && p[0] == s && p[|p| - 1] == t;
    assert ClosedUnder(adj, adj.Keys);
    WalkStaysInClosed(adj, adj.Keys, p);
  }

  lemma ReachableFromStart(adj: Adj, s: City)
    requires s in adj
    ensures s in ReachableFrom(adj, s)
  {
    ReachableFromItself(adj, s);
  }

  /** ReachableFrom is closed under the edges of the table. */
  lemma ReachableFromStep(adj: Adj, s: City, u: City, v: City)
    requires u in ReachableFrom(adj, s) && HasEdge(adj, u, v) && v in adj
    ensures v in ReachableFrom(adj, s)
  {
    ReachableStep(adj, s, u, v);
  }

  /** So every city reachable from a member of a closed set belongs to it. */
  lemma ClosedContainsReachable(adj: Adj, S: set<City>, s: City, t: City)
    requires s in S && ClosedUnder(adj, S) && Reachable(adj, s, t)
    ensures t in S
  {
    var p :| IsWalk(adj, p) && p[0] == s && p[|p| - 1] == t;
    WalkStaysInClosed(adj, S, p);
  }

  /**
   * A set inside s's component that holds s and is closed under the edges is
   * the whole component.
   */
  lemma ClosedComponent(adj: Adj, s: City, S: set<City>)
    requires s in S && ClosedUnder(adj, S) && S <= ReachableFrom(adj, s)
    ensures forall c :: c in S <==> Reachable(adj, s, c)
  {
    forall c
      ensures c in S <==> Reachable(adj, s, c)
    {
      if Reachable(adj, s, c) {
        ClosedContainsReachable(adj, S, s, c);
      }
    }
  }

  /** The cost of a walk grows by the weight of the edge appended to it. */
  lemma {:induction false} WalkCostAppend(adj: Adj, p: seq<City>, x: City, m: Metric)
    requires |p| > 0
    ensures WalkCost(adj, p + [x], m) == WalkCost(adj, p, m) + EdgeWeight(adj, p[|p| - 1], x, m)
  {
    if |p| > 1 {
      assert (p + [x])[1..] == p[1..] + [x];
      WalkCostAppend(adj, p[1..], x, m);
    }
  }

  /** A walk extends backwards along an edge into its first city; the cost grows by that edge. */
  lemma WalkPrepend(adj: Adj, x: City, p: seq<City>, m: Metric)
    requires IsWalk(adj, p) && HasEdge(adj, x, p[0])
    ensures IsWalk(adj, [x] + p)
    ensures WalkCost(adj, [x] + p, m) == EdgeWeight(adj, x, p[0], m) + WalkCost(adj, p, m)
  {
    var q := [x] + p;
    assert q[1..] == p;
    forall i | 0 <= i < |q| - 1
      ensures HasEdge(adj, q[i], q[i + 1])
    {
      if i > 0 {
        assert q[i] == p[i - 1] && q[i + 1] == p[i];
      }
    }
  }

  /** With non-negative weights no walk has a negative cost. */
  lemma {:induction false} WalkCostNonNegative(adj: Adj, p: seq<City>, m: Metric)
    requires NonNegative(adj)
    ensures WalkCost(adj, p, m) >= 0.0
  {
    if |p| > 1 {
      WalkCostNonNegative(adj, p[1..], m);
    }
  }
}
