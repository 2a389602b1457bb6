/**
 * The graph engine: an undirected graph of named cities whose edges carry a
 * distance and a time, with city and edge mutation, membership queries,
 * breadth- and depth-first traversal, and shortest paths by either weight.
 */
module Graphs {
  import opened Adjacency
  import opened Walks
  import opened ShortestPaths
  import opened Traversal

  /** A path from start to destination and its total weight; the empty path means "no path". */
  datatype PathResult = PathResult(path: seq<City>, distanceOrTime: real)

  /**
   * What both shortest-path queries answer: the empty path at cost 0 exactly
   * when a city is missing or the destination is unreachable, and otherwise a
   * walk from start to destination whose cost under m is the reported one and
   * is no greater than any other walk's; a query from a city to itself gives
   * that city alone at cost 0.
   */
  ghost predicate ShortestResult(adj: Adj, m: Metric, start: City, destination: City, r: PathResult)
  {
    && (r.path == [] <==> start !in adj || destination !in adj || !Reachable(adj, start, destination))
    && (r.path == [] ==> r.distanceOrTime == 0.0)
    && (r.path != [] ==>
          && IsWalk(adj, r.path) && r.path[0] == start && r.path[|r.path| - 1] == destination
          && r.distanceOrTime == WalkCost(adj, r.path, m)
          && Shortest(adj, m, start, destination, r.distanceOrTime))
    && (start == destination && start in adj ==> r == PathResult([start], 0.0))
  }

  class Graph {
    var adj: Adj
    var numberOfCities: int

    /** The structural invariant: symmetric, loop-free, non-negative weights. */
    ghost predicate Valid()
      reads this
    {
      WellFormed(adj)
    }

    /** The maintained counter agrees with the table. */
    ghost predicate Counted()
      reads this
    {
      numberOfCities == |adj|
    }

    constructor ()
      ensures adj == map[] && numberOfCities == 0
      ensures Valid() && Counted()
    {
      adj := map[];
      numberOfCities := 0;
    }

    method AddCity(name: City)
      requires Valid()
      modifies this
      ensures Valid()
      ensures adj == WithCity(old(adj), name)
      ensures numberOfCities == if name in old(adj) then old(numberOfCities) else old(numberOfCities) + 1
      ensures old(Counted()) ==> Counted()
    {
      WithCityKeepsWellFormed(adj, name);
      if !ContainsCity(name) {
        adj := adj[name := map[]];
        numberOfCities := numberOfCities + 1;
      }
    }

    function GetNumberOfCities(): (n: int)
      reads this
      ensures Counted() ==> n == |adj|
    {
      numberOfCities
    }

    /** Every city once, in the table's (unspecified) order. */
    method GetAllCities() returns (res: seq<City>)
      ensures forall c :: c in res <==> c in adj
      ensures NoDuplicates(res)
      ensures |res| == |adj|
    {
      res := [];
      var rest := adj.Keys;
      while rest != {}
        invariant rest <= adj.Keys
        invariant forall c :: c in res <==> c in adj && c !in rest
        invariant NoDuplicates(res)
        invariant |res| + |rest| == |adj|
        decreases rest
      {
        var c :| c in rest;
        res := res + [c];
        rest := rest - {c};
      }
    }

    /**
     * A self-loop is ignored; otherwise both orientations get the
     * sign-corrected weights. The counter is left alone, so it stays exact
     * only when both endpoints were already cities.
     */
    method AddEdge(src: City, dest: City, distance: real, time: real)
      requires Valid()
      modifies this
      ensures Valid()
      ensures numberOfCities == old(numberOfCities)
      ensures src == dest ==> adj == old(adj)
      ensures src != dest ==> adj == WithEdge(old(adj), src, dest, Weights(Abs(distance), Abs(time)))
      ensures old(Counted()) && src != dest ==> (Counted() <==> src in old(adj) && dest in old(adj))
    {
      if src == dest {
        return;
      }
      var w := Weights(Abs(distance), Abs(time));
      ghost var before := adj;
      adj := adj[src := Neighbours(adj, src)[dest := w]];
      adj := adj[dest := Neighbours(adj, dest)[src := w]];
      assert adj == WithEdge(before, src, dest, w);
      WithEdgeKeepsWellFormed(before, src, dest, w);
      if src !in before {
        assert before.Keys < adj.Keys;
      } else if dest !in before {
        assert before.Keys < adj.Keys;
      } else {
        assert before.Keys == adj.Keys;
      }
    }

    /** Strips the city from every neighbour map, then drops its own entry. */
    method DeleteCity(name: City)
      requires Valid()
      modifies this
      ensures Valid()
      ensures name !in old(adj) ==> adj == old(adj) && numberOfCities == old(numberOfCities)
      ensures name in old(adj) ==> adj == WithoutCity(old(adj), name) && numberOfCities == old(numberOfCities) - 1
      ensures old(Counted()) ==> Counted()
    {
      if !ContainsCity(name) {
        return;
      }
      ghost var before := adj;
      StripCity(name);
      StrippedIsWithoutCity(before, adj, name);
      WithoutCityKeepsWellFormed(before, name);
      adj := adj - {name};
      numberOfCities := numberOfCities - 1;
      assert |adj| == |before| - 1;
    }

    /** The loop of deleteCity: name is erased from every neighbour map, in place. */
    method StripCity(name: City)
      modifies this
      ensures adj.Keys == old(adj).Keys
      ensures forall c :: c in adj ==> adj[c] == old(adj)[c] - {name}
      ensures numberOfCities == old(numberOfCities)
    {
      var pending := adj.Keys;
      while pending != {}
        invariant pending <= adj.Keys == old(adj).Keys
        invariant forall c :: c in adj ==> adj[c] == if c in pending then old(adj)[c] else old(adj)[c] - {name}
        invariant numberOfCities == old(numberOfCities)
        decreases pending
      {
        var c :| c in pending;
        adj := adj[c := adj[c] - {name}];
        pending := pending - {c};
      }
    }

    /** A no-op unless the edge is stored in some orientation; then both are erased. */
    method DeleteEdge(src: City, dest: City)
      requires Valid()
      modifies this
      ensures Valid()
      ensures numberOfCities == old(numberOfCities)
      ensures !old(HasEdge(adj, src, dest) || HasEdge(adj, dest, src)) ==> adj == old(adj)
      ensures old(HasEdge(adj, src, dest) || HasEdge(adj, dest, src)) ==>
                adj == WithoutEdge(old(adj), src, dest) && adj.Keys == old(adj).Keys
      ensures !HasEdge(adj, src, dest) && !HasEdge(adj, dest, src)
      ensures old(Counted()) ==> Counted()
    {
      if !ContainsEdge(src, dest) {
        return;
      }
      ghost var before := adj;
      adj := adj[src := Neighbours(adj, src) - {dest}];
      adj := adj[dest := Neighbours(adj, dest) - {src}];
      assert adj == WithoutEdge(before, src, dest);
      WithoutEdgeKeepsWellFormed(before, src, dest);
    }

    function ContainsCity(name: City): (b: bool)
      reads this
      ensures b <==> name in adj
    {
      name in adj
    }

    /** Looks in both orientations, so the answer does not depend on the order of the arguments. */
    function ContainsEdge(city1: City, city2: City): (b: bool)
      reads this
      ensures b <==> HasEdge(adj, city1, city2) || HasEdge(adj, city2, city1)
      ensures Valid() ==> (b <==> HasEdge(adj, city1, city2))
    {
      (ContainsCity(city1) && city2 in adj[city1]) || (ContainsCity(city2) && city1 in adj[city2])
    }

    /**
     * Breadth-first traversal from start: cities are marked when enqueued, so
     * each is listed once, and the list is exactly start's component.
     */
    method BFS(start: City) returns (result: seq<City>)
      requires Valid()
      ensures result == [] <==> start !in adj
      ensures result != [] ==> result[0] == start
      ensures NoDuplicates(result)
      ensures forall c :: c in result <==> Reachable(adj, start, c)
    {
      result := [];
      if !ContainsCity(start) {
        return;
      }
      var visited: set<City> := {start};
      var q: seq<City> := [start];
      BreadthFirstInit(adj, start);
      while q != []
        invariant BreadthFirstState(adj, start, visited, result, q)
        decreases |adj.Keys - visited| + |q|
      {
        BreadthFirstPop(adj, start, visited, result, q);
        var city := q[0];
        q := q[1..];
        result := result + [city];
        ghost var measure := |adj.Keys - visited| + |q|;
        var rest := adj[city].Keys;
        while rest != {}
          invariant EnqueueState(adj, start, city, visited, result, q, rest)
          invariant |adj.Keys - visited| + |q| == measure
          decreases rest
        {
          var n :| n in rest;
          if n !in visited {
            EnqueueNew(adj, start, city, visited, result, q, rest, n);
            visited := visited + {n};
            q := q + [n];
          } else {
            EnqueueSeen(adj, start, city, visited, result, q, rest, n);
          }
          rest := rest - {n};
        }
        EnqueueDone(adj, start, city, visited, result, q);
      }
      BreadthFirstDone(adj, start, visited, result);
    }

    /** The inner loop of DFS: every neighbour of city not yet visited goes on top of the stack. */
    method PushUnvisited(city: City, visited: set<City>, st: seq<City>) returns (pushed: seq<City>)
      requires city in adj
      ensures forall x :: x in pushed <==> x in st || (x in adj[city] && x !in visited)
      ensures |pushed| >= |st| && pushed[..|st|] == st
      ensures NoDuplicates(pushed[|st|..])
      ensures forall x :: x in pushed[|st|..] <==> x in adj[city] && x !in visited
    {
      pushed := st;
      var rest := adj[city].Keys;
      while rest != {}
        invariant rest <= adj[city].Keys
        invariant forall x :: x in pushed <==> x in st || (x in adj[city] && x !in visited && x !in rest)
        invariant |pushed| >= |st| && pushed[..|st|] == st
        invariant NoDuplicates(pushed[|st|..])
        invariant forall x :: x in pushed[|st|..] ==> x !in rest
        invariant forall x :: x in pushed[|st|..] <==> x in adj[city] && x !in visited && x !in rest
        decreases rest
      {
        var n :| n in rest;
        rest := rest - {n};
        if n !in visited {
          assert (pushed + [n])[|st|..] == pushed[|st|..] + [n];
          pushed := pushed + [n];
        }
      }
    }

    /**
     * Iterative depth-first traversal from start. A city may be pushed more
     * than once; the visited check on pop lists it only the first time.
     */
    method DFS(start: City) returns (result: seq<City>)
      requires Valid()
      ensures result == [] <==> start !in adj
      ensures result != [] ==> result[0] == start
      ensures NoDuplicates(result)
      ensures forall c :: c in result <==> Reachable(adj, start, c)
    {
      result := [];
      if !ContainsCity(start) {
        return;
      }
      var visited: set<City> := {};
      var st: seq<City> := [start];  // the top is the last element
      DepthFirstInit(adj, start);
      while st != []
        invariant DepthFirstState(adj, start, visited, result, st)
        decreases |adj.Keys - visited|, |st|
      {
        ghost var visited0, result0, st0 := visited, result, st;
        var city := st[|st| - 1];
        st := st[..|st| - 1];
        if city !in visited {
          DepthFirstTop(adj, start, visited, result, st0);
          visited := visited + {city};
          result := result + [city];
          st := PushUnvisited(city, visited, st);
          DepthFirstVisit(adj, start, visited0, result0, st0, st);
        } else {
          DepthFirstSkip(adj, start, visited, result, st0);
        }
      }
      DepthFirstDone(adj, start, visited, result);
    }

    /**
     * Dijkstra's algorithm over the weight m, as both shortest-path queries run
     * it: the empty result when either city is missing or the destination is
     * unreachable, and otherwise a cheapest walk from start to destination with
     * its cost.
     */
    method ShortestPath(start: City, destination: City, m: Metric) returns (r: PathResult)
      requires Valid()
      ensures ShortestResult(adj, m, start, destination, r)
    {
      if !ContainsCity(start) || !ContainsCity(destination) {
        return PathResult([], 0.0);
      }
      r := Dijkstra(adj, m, start, destination);
    }

    /** dijkstraDistance: the shortest path by total distance. */
    method DijkstraDistance(start: City, destination: City) returns (r: PathResult)
      requires Valid()
      ensures ShortestResult(adj, Distance, start, destination, r)
    {
      r := ShortestPath(start, destination, Distance);
    }

    /** dijkstraTime: the same search summing travel times. */
    method DijkstraTime(start: City, destination: City) returns (r: PathResult)
      requires Valid()
      ensures ShortestResult(adj, Time, start, destination, r)
    {
      r := ShortestPath(start, destination, Time);
    }
  }

  /**
   * The relaxation loop of the shortest-path search: each neighbour of the
   * just-settled city whose label improves through it gets the new label,
   * the city as predecessor, and a fresh frontier entry.
   */
  method RelaxNeighbours(adj: Adj, m: Metric, start: City, city: City, d: real,
                         dist0: map<City, real>, prev0: map<City, City>, pq0: set<Entry>,
                         ghost done: set<City>, ghost rank: map<City, nat>)
    returns (dist: map<City, real>, prev: map<City, City>, pq: set<Entry>)
    requires WellFormed(adj)
    requires city in done && city in dist0 && dist0[city] == d
    requires Labels(adj, m, start, dist0, prev0, done, rank)
    requires Frontier(dist0, done, pq0)
    requires RelaxedBut(adj, m, dist0, done, city)
    requires forall u :: u in done ==> dist0[u] <= d
    ensures Labels(adj, m, start, dist, prev, done, rank)
    ensures Frontier(dist, done, pq)
    ensures Relaxed(adj, m, dist, done)
    ensures forall u :: u in done ==> u in dist && dist[u] == dist0[u]
  {
    dist, prev, pq := dist0, prev0, pq0;
    var rest := adj[city].Keys;
    ghost var processed: set<City> := {};
    while rest != {}
      invariant rest <= adj[city].Keys
      invariant forall n :: n in adj[city] ==> n in processed || n in rest
      invariant Relaxing(adj, m, start, city, d, dist0, dist, prev, pq, done, rank, processed)
      decreases rest
    {
      var n :| n in rest;
      dist, prev, pq := RelaxEdge(adj, m, start, city, d, dist0, dist, prev, pq, done, rank, processed, n);
      rest := rest - {n};
      processed := processed + {n};
    }
  }

  /**
   * One edge city-n of the relaxation loop: when the route through city
   * beats n's label (or n has none), n gets that label, city as its
   * predecessor and a new frontier entry; otherwise nothing changes.
   */
  method RelaxEdge(adj: Adj, m: Metric, start: City, city: City, d: real, dist0: map<City, real>,
                   dist: map<City, real>, prev: map<City, City>, pq: set<Entry>,
                   ghost done: set<City>, ghost rank: map<City, nat>, ghost processed: set<City>, n: City)
    returns (dist': map<City, real>, prev': map<City, City>, pq': set<Entry>)
    requires WellFormed(adj) && HasEdge(adj, city, n)
    requires Relaxing(adj, m, start, city, d, dist0, dist, prev, pq, done, rank, processed)
    ensures Relaxing(adj, m, start, city, d, dist0, dist', prev', pq', done, rank, processed + {n})
    ensures var nd := d + Weight(adj[city][n], m);
            if n !in dist || nd < dist[n]
            then dist' == dist[n := nd] && prev' == prev[n := city] && pq' == pq + {(nd, n)}
            else dist' == dist && prev' == prev && pq' == pq
  {
    RelaxStep(adj, m, start, city, d, dist0, dist, prev, pq, done, rank, processed, n);
    var newDist := d + Weight(adj[city][n], m);
    if n !in dist || newDist < dist[n] {
      dist', prev', pq' := dist[n := newDist], prev[n := city], pq + {(newDist, n)};
    } else {
      dist', prev', pq' := dist, prev, pq;
    }
  }

  /**
   * The body both shortest-path queries share once both cities are known:
   * the search, then the answer built from the labels it leaves.
   */
  method Dijkstra(adj: Adj, m: Metric, start: City, destination: City) returns (r: PathResult)
    requires WellFormed(adj) && start in adj && destination in adj
    ensures ShortestResult(adj, m, start, destination, r)
  {
    var dist, prev;
    ghost var done, rank;
    dist, prev, done, rank := Search(adj, m, start, destination);
    r := Answer(adj, m, start, destination, dist, prev, done, rank);
  }

  /**
   * The search loop: pop the cheapest frontier entry, skip it when stale,
   * stop at the destination, otherwise settle the city and relax its edges.
   * When it stops, a label on the destination is the cost of a cheapest walk
   * to it, and no label means no walk.
   */
  method Search(adj: Adj, m: Metric, start: City, destination: City)
    returns (dist: map<City, real>, prev: map<City, City>, ghost done: set<City>, ghost rank: map<City, nat>)
    requires WellFormed(adj) && start in adj && destination in adj
    ensures Labels(adj, m, start, dist, prev, done, rank)
    ensures destination in dist ==> Shortest(adj, m, start, destination, dist[destination])
    ensures destination !in dist ==> !Reachable(adj, start, destination)
  {
    dist := map[start := 0.0];
    prev := map[];
    var pq: set<Entry> := {(0.0, start)};
    done := {};
    rank := map[];
    ghost var broke := false;
    SearchStart(adj, m, start);
    while pq != {}
      invariant Labels(adj, m, start, dist, prev, done, rank)
      invariant Frontier(dist, done, pq)
      invariant Relaxed(adj, m, dist, done)
      invariant SettledShortest(adj, m, start, dist, done)
      invariant !broke
      decreases |adj.Keys - done|, |pq|
    {
      MinEntryExists(pq);
      var e :| e in pq && IsMinEntry(pq, e);
      var d, city := e.0, e.1;
      if d > dist[city] {
        DropStale(dist, done, pq, e);
        pq := pq - {e};
        continue;
      }
      PoppedIsShortest(adj, m, start, dist, done, pq, e);
      if city == destination {
        broke := true;
        break;
      }
      SettlingShrinks(adj.Keys, done, city);
      dist, prev, pq, done, rank := Expand(adj, m, start, dist, prev, pq, done, rank, e);
    }
    if !broke {
      SearchExhausted(adj, m, start, dist, done, destination);
    }
  }

  /**
   * The end of a query once the search stopped: an unlabelled destination
   * gives the empty result, a labelled one the walk back along the
   * predecessor links and its label.
   */
  method Answer(adj: Adj, m: Metric, start: City, destination: City,
                dist: map<City, real>, prev: map<City, City>, ghost done: set<City>, ghost rank: map<City, nat>)
    returns (r: PathResult)
    requires Labels(adj, m, start, dist, prev, done, rank)
    requires destination in dist ==> Shortest(adj, m, start, destination, dist[destination])
    requires destination !in dist ==> !Reachable(adj, start, destination)
    ensures ShortestResult(adj, m, start, destination, r)
  {
    if destination !in dist {
      return PathResult([], 0.0);
    }
    var path := Reconstruct(adj, m, start, destination, dist, prev, done, rank);
    r := PathResult(path, dist[destination]);
  }

  /**
   * One round of the search after the cheapest entry e = (d, city) was popped
   * and found current: city is settled with the next rank and its edges are
   * relaxed.
   */
  method Expand(adj: Adj, m: Metric, start: City, dist0: map<City, real>, prev0: map<City, City>,
                pq0: set<Entry>, ghost done0: set<City>, ghost rank0: map<City, nat>, e: Entry)
    returns (dist: map<City, real>, prev: map<City, City>, pq: set<Entry>,
             ghost done: set<City>, ghost rank: map<City, nat>)
    requires WellFormed(adj)
    requires Labels(adj, m, start, dist0, prev0, done0, rank0)
    requires Frontier(dist0, done0, pq0)
    requires Relaxed(adj, m, dist0, done0) && SettledShortest(adj, m, start, dist0, done0)
    requires IsMinEntry(pq0, e) && e.1 in dist0 && e.1 !in done0 && e.0 == dist0[e.1]
    requires Shortest(adj, m, start, e.1, e.0)
    ensures done == done0 + {e.1}
    ensures Labels(adj, m, start, dist, prev, done, rank)
    ensures Frontier(dist, done, pq)
    ensures Relaxed(adj, m, dist, done)
    ensures SettledShortest(adj, m, start, dist, done)
  {
    var d, city := e.0, e.1;
    SettledShortestAdd(adj, m, start, dist0, done0, city);
    SettleLabels(adj, m, start, dist0, prev0, done0, rank0, city);
    SettleFrontier(dist0, done0, pq0, e);
    rank := rank0[city := |done0|];
    done := done0 + {city};
    dist, prev, pq := RelaxNeighbours(adj, m, start, city, d, dist0, prev0, pq0 - {e}, done, rank);
    SettledShortestKept(adj, m, start, dist0, dist, done);
  }

  /** Walks back from the destination along the predecessor links, then reverses. */
  method Reconstruct(adj: Adj, m: Metric, start: City, destination: City,
                     dist: map<City, real>, prev: map<City, City>, ghost done: set<City>, ghost rank: map<City, nat>)
    returns (path: seq<City>)
    requires Labels(adj, m, start, dist, prev, done, rank) && destination in dist
    ensures IsWalk(adj, path) && path[0] == start && path[|path| - 1] == destination
    ensures WalkCost(adj, path, m) == dist[destination]
    ensures start == destination ==> path == [start]
  {
    var cur := destination;
    var rev := [destination];
    ghost var walk := [destination];
    while cur != start
      invariant cur in dist
      invariant walk == Reversed(rev)
      invariant IsWalk(adj, walk) && walk[0] == cur && walk[|walk| - 1] == destination
      invariant WalkCost(adj, walk, m) + dist[cur] == dist[destination]
      invariant start == destination ==> rev == [destination]
      decreases if cur in done then rank[cur] else |done|
    {
      assert Linked(adj, m, dist, prev, done, cur);
      var p := prev[cur];
      WalkPrepend(adj, p, walk, m);
      ReversedAppend(rev, p);
      walk := [p] + walk;
      rev := rev + [p];
      if cur in done {
        assert RankedAfterPrev(prev, rank, cur);
      }
      cur := p;
    }
    path := Reversed(rev);
  }

  /** Once every neighbour map has lost the name, dropping its own entry gives WithoutCity. */
  lemma StrippedIsWithoutCity(before: Adj, stripped: Adj, name: City)
    requires stripped.Keys == before.Keys
    requires forall c :: c in stripped ==> stripped[c] == before[c] - {name}
    ensures stripped - {name} == WithoutCity(before, name)
  {
    var r := WithoutCity(before, name);
    assert (stripped - {name}).Keys == r.Keys;
    forall c | c in r
      ensures (stripped - {name})[c] == r[c]
    {
    }
  }

  /** containsEdge does not depend on the order of its arguments, on any table. */
  lemma ContainsEdgeSymmetric(g: Graph, a: City, b: City)
    ensures g.ContainsEdge(a, b) == g.ContainsEdge(b, a)
  {
  }
}
