/**
 * The adjacency table of the graph engine as a value: a map from city name to
 * that city's neighbour map, each neighbour carrying the edge's two weights.
 * The functions here are the new tables that the engine's mutators produce;
 * their contracts say what each mutation means, and the lemmas say which
 * structural invariants each one keeps.
 */
module Adjacency {

  type City = string

  /** The two weights every edge carries. */
  datatype Weights = Weights(distance: real, time: real)

  /** Which of the two weights a shortest-path query sums. */
  datatype Metric = Distance | Time

  function Weight(w: Weights, m: Metric): real
  {
    match m
    case Distance => w.distance
    case Time => w.time
  }

  /** city -> (neighbour -> (distance, time)) */
  type Adj = map<City, map<City, Weights>>

  /** The sign correction addEdge applies to both weights. */
  function Abs(x: real): (r: real)
    ensures r >= 0.0
    ensures r == x || r == -x
  {
    if x < 0.0 then -x else x
  }

  /** Reading `adj[k]` with operator[]: a missing city reads as an empty neighbour map. */
  function Neighbours(adj: Adj, k: City): map<City, Weights>
  {
    if k in adj then adj[k] else map[]
  }

  predicate HasEdge(adj: Adj, a: City, b: City)
  {
    a in adj && b in adj[a]
  }

  /** The weight of the stored edge a-b under metric m (0 where there is none). */
  function EdgeWeight(adj: Adj, a: City, b: City, m: Metric): real
  {
    if HasEdge(adj, a, b) then Weight(adj[a][b], m) else 0.0
  }

  /** Every edge is stored in both directions with identical weights. */
  ghost predicate Symmetric(adj: Adj)
  {
    forall a, b :: HasEdge(adj, a, b) ==> HasEdge(adj, b, a) && adj[b][a] == adj[a][b]
  }

  ghost predicate NoSelfLoops(adj: Adj)
  {
    forall a :: a in adj ==> a !in adj[a]
  }

  ghost predicate NonNegative(adj: Adj)
  {
    forall a, b :: HasEdge(adj, a, b) ==> adj[a][b].distance >= 0.0 && adj[a][b].time >= 0.0
  }

  /** The structural invariant every table the engine builds satisfies. */
  ghost predicate WellFormed(adj: Adj)
  {
    Symmetric(adj) && NoSelfLoops(adj) && NonNegative(adj)
  }

  /** In a symmetric table every neighbour is itself a city. */
  lemma NeighbourIsCity(adj: Adj, a: City, b: City)
    requires Symmetric(adj) && HasEdge(adj, a, b)
    ensures b in adj
  {
  }

  lemma WeightNonNegative(adj: Adj, a: City, b: City, m: Metric)
    requires NonNegative(adj) && HasEdge(adj, a, b)
    ensures Weight(adj[a][b], m) >= 0.0
  {
  }

  /** addCity: an absent name gets an empty neighbour map; a present one changes nothing. */
  function WithCity(adj: Adj, name: City): (r: Adj)
    ensures r.Keys == adj.Keys + {name}
    ensures name !in adj ==> r[name] == map[] && |r| == |adj| + 1
    ensures name in adj ==> r == adj
    ensures forall c :: c in adj ==> r[c] == adj[c]
  {
    if name in adj then adj else adj[name := map[]]
  }

  /**
   * addEdge for src != dest: the pair is stored in both directions, replacing
   * whatever weights it had; a missing endpoint is created with operator[].
   */
  function WithEdge(adj: Adj, src: City, dest: City, w: Weights): (r: Adj)
    requires src != dest
    ensures r.Keys == adj.Keys + {src, dest}
    ensures HasEdge(r, src, dest) && r[src][dest] == w
    ensures HasEdge(r, dest, src) && r[dest][src] == w
    ensures forall c :: c in adj && c != src && c != dest ==> r[c] == adj[c]
  {
    var r1 := adj[src := Neighbours(adj, src)[dest := w]];
    r1[dest := Neighbours(r1, dest)[src := w]]
  }

  /** deleteCity on a present name: the city and every edge that mentions it are gone. */
  function WithoutCity(adj: Adj, name: City): (r: Adj)
    ensures r.Keys == adj.Keys - {name}
    ensures forall c :: c in r ==> name !in r[c]
    ensures forall a, b :: a != name && b != name ==>
              (HasEdge(r, a, b) <==> HasEdge(adj, a, b)) && (HasEdge(r, a, b) ==> r[a][b] == adj[a][b])
    ensures name in adj ==> |r| == |adj| - 1
  {
    map c | c in adj && c != name :: adj[c] - {name}
  }

  /**
   * deleteEdge once the edge is known: both orientations are erased; operator[]
   * creates a missing endpoint with an empty neighbour map.
   */
  function WithoutEdge(adj: Adj, src: City, dest: City): (r: Adj)
    ensures r.Keys == adj.Keys + {src, dest}
    ensures !HasEdge(r, src, dest) && !HasEdge(r, dest, src)
    ensures forall a, b :: !(a == src && b == dest) && !(a == dest && b == src) ==>
              (HasEdge(r, a, b) <==> HasEdge(adj, a, b)) && (HasEdge(r, a, b) ==> r[a][b] == adj[a][b])
  {
    var r1 := adj[src := Neighbours(adj, src) - {dest}];
    r1[dest := Neighbours(r1, dest) - {src}]
  }

  /** Every edge other than src-dest is stored exactly as before. */
  lemma WithEdgeFrame(adj: Adj, src: City, dest: City, w: Weights, a: City, b: City)
    requires src != dest
    requires !(a == src && b == dest) && !(a == dest && b == src)
    ensures HasEdge(WithEdge(adj, src, dest, w), a, b) <==> HasEdge(adj, a, b)
    ensures HasEdge(adj, a, b) ==> WithEdge(adj, src, dest, w)[a][b] == adj[a][b]
  {
  }

  lemma WithCityKeepsWellFormed(adj: Adj, name: City)
    requires WellFormed(adj)
    ensures WellFormed(WithCity(adj, name))
  {
    if name !in adj {
      var r := adj[name := map[]];
      forall a, b | HasEdge(r, a, b)
        ensures HasEdge(adj, a, b) && r[a] == adj[a] && r[b] == adj[b]
      {
        assert a != name && HasEdge(adj, a, b);
        NeighbourIsCity(adj, a, b);
      }
    }
  }

  lemma WithEdgeKeepsWellFormed(adj: Adj, src: City, dest: City, w: Weights)
    requires WellFormed(adj) && src != dest
    requires w.distance >= 0.0 && w.time >= 0.0
    ensures WellFormed(WithEdge(adj, src, dest, w))
  {
    var r := WithEdge(adj, src, dest, w);
    forall a, b | HasEdge(r, a, b)
      ensures HasEdge(r, b, a) && r[b][a] == r[a][b]
    {
      if !(a == src && b == dest) && !(a == dest && b == src) {
        WithEdgeFrame(adj, src, dest, w, a, b);
        WithEdgeFrame(adj, src, dest, w, b, a);
      }
    }
    forall a | a in r
      ensures a !in r[a]
    {
      WithEdgeFrame(adj, src, dest, w, a, a);
    }
  }

  /** The neighbour map WithEdge leaves at city c. */
  lemma WithEdgeAt(adj: Adj, src: City, dest: City, w: Weights, c: City)
    requires src != dest
    ensures c in WithEdge(adj, src, dest, w) <==> c in adj || c == src || c == dest
    ensures c == src ==> WithEdge(adj, src, dest, w)[c] == Neighbours(adj, src)[dest := w]
    ensures c == dest ==> WithEdge(adj, src, dest, w)[c] == Neighbours(adj, dest)[src := w]
    ensures c != src && c != dest && c in adj ==> WithEdge(adj, src, dest, w)[c] == adj[c]
  {
  }

  /** Writing a key twice leaves only the second write. */
  lemma UpdateTwice(n: map<City, Weights>, k: City, w1: Weights, w2: Weights)
    ensures n[k := w1][k := w2] == n[k := w2]
  {
    var lhs, rhs := n[k := w1][k := w2], n[k := w2];
    assert lhs.Keys == rhs.Keys;
    forall c | c in lhs ensures lhs[c] == rhs[c] {
    }
  }

  lemma EdgeUpsertReplacesAt(adj: Adj, src: City, dest: City, w1: Weights, w2: Weights, c: City)
    requires src != dest
    requires c in WithEdge(WithEdge(adj, src, dest, w1), src, dest, w2)
    ensures c in WithEdge(adj, src, dest, w2)
    ensures WithEdge(WithEdge(adj, src, dest, w1), src, dest, w2)[c] == WithEdge(adj, src, dest, w2)[c]
  {
    var mid := WithEdge(adj, src, dest, w1);
    WithEdgeAt(mid, src, dest, w2, c);
    WithEdgeAt(adj, src, dest, w2, c);
    if c == src {
      WithEdgeAt(adj, src, dest, w1, src);
      var n := Neighbours(adj, src);
      assert Neighbours(mid, src) == n[dest := w1];
      UpdateTwice(n, dest, w1, w2);
    } else if c == dest {
      WithEdgeAt(adj, src, dest, w1, dest);
      var n := Neighbours(adj, dest);
      assert Neighbours(mid, dest) == n[src := w1];
      UpdateTwice(n, src, w1, w2);
    } else {
      WithEdgeAt(adj, src, dest, w1, c);
    }
  }

  /** Re-adding an edge replaces its weights: the earlier call leaves no trace. */
  lemma EdgeUpsertReplaces(adj: Adj, src: City, dest: City, w1: Weights, w2: Weights)
    requires src != dest
    ensures WithEdge(WithEdge(adj, src, dest, w1), src, dest, w2) == WithEdge(adj, src, dest, w2)
  {
    var lhs := WithEdge(WithEdge(adj, src, dest, w1), src, dest, w2);
    var rhs := WithEdge(adj, src, dest, w2);
    forall c | c in lhs
      ensures c in rhs && lhs[c] == rhs[c]
    {
      EdgeUpsertReplacesAt(adj, src, dest, w1, w2, c);
    }
    assert lhs.Keys == rhs.Keys;
  }

  /** An undirected edge: adding it from either end gives the same table. */
  lemma EdgeOrientationIrrelevant(adj: Adj, src: City, dest: City, w: Weights)
    requires WellFormed(adj) && src != dest
    ensures WithEdge(adj, src, dest, w) == WithEdge(adj, dest, src, w)
  {
    var lhs := WithEdge(adj, src, dest, w);
    var rhs := WithEdge(adj, dest, src, w);
    forall c | c in lhs
      ensures lhs[c] == rhs[c]
    {
      assert lhs[c].Keys == rhs[c].Keys by {
        forall n ensures n in lhs[c] <==> n in rhs[c] {
          assert HasEdge(lhs, c, n) <==> HasEdge(rhs, c, n);
        }
      }
      forall n | n in lhs[c] ensures lhs[c][n] == rhs[c][n] {
        assert HasEdge(lhs, c, n);
      }
    }
  }

  lemma WithoutCityKeepsWellFormed(adj: Adj, name: City)
    requires WellFormed(adj)
    ensures WellFormed(WithoutCity(adj, name))
  {
  }

  /**
   * On a well-formed table deleting a stored edge keeps the set of cities
   * and the invariant.
   */
  lemma WithoutEdgeKeepsWellFormed(adj: Adj, src: City, dest: City)
    requires WellFormed(adj)
    requires HasEdge(adj, src, dest) || HasEdge(adj, dest, src)
    ensures WithoutEdge(adj, src, dest).Keys == adj.Keys
    ensures WellFormed(WithoutEdge(adj, src, dest))
  {
    var r := WithoutEdge(adj, src, dest);
    forall a, b | HasEdge(r, a, b)
      ensures HasEdge(r, b, a) && r[b][a] == r[a][b]
    {
      assert HasEdge(adj, a, b);
    }
  }
}
