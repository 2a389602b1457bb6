/**
 * The loop states of the two traversals and why each pop keeps them: what
 * has been listed, what is still waiting on the queue or stack, and how both
 * relate to the component of the start city.
 */
module Traversal {
  import opened Adjacency
  import opened Walks

  /** No city appears twice in s. */
  predicate NoDuplicates(s: seq<City>)
  {
    forall i, j :: 0 <= i < j < |s| ==> s[i] != s[j]
  }

  lemma AppendAssociative(a: seq<City>, b: seq<City>, c: seq<City>)
    ensures a + (b + c) == (a + b) + c
  {
  }

  /** Popping the last element of s leaves every other member in place. */
  lemma PopMembers(s: seq<City>)
    requires |s| > 0
    ensures forall x :: x in s <==> x == s[|s| - 1] || x in s[..|s| - 1]
  {
    assert s == s[..|s| - 1] + [s[|s| - 1]];
  }

  lemma NoDuplicatesAppend(s: seq<City>, x: City)
    requires NoDuplicates(s) && x !in s
    ensures NoDuplicates(s + [x])
  {
  }

  /**
   * Between two pops of the breadth-first traversal: every visited city lies
   * in start's component, a city is visited exactly when it is listed or
   * queued, listed and queued cities together appear once each, the list
   * begins with start, and every neighbour of a listed city is visited.
   */
  ghost predicate BreadthFirstState(adj: Adj, start: City, visited: set<City>, result: seq<City>, q: seq<City>)
  {
    && visited <= ReachableFrom(adj, start)
    && (forall c :: c in visited <==> c in result || c in q)
    && NoDuplicates(result + q)
    && (result == [] ==> q == [start])
    && (result != [] ==> result[0] == start)
    && (forall c :: c in result && c in adj ==> adj[c].Keys <= visited)
  }

  /**
   * Inside the neighbour loop of the breadth-first traversal, city (the last
   * listed) has had the neighbours outside rest looked at, and each of those
   * is visited.
   */
  ghost predicate EnqueueState(adj: Adj, start: City, city: City, visited: set<City>, result: seq<City>,
                               q: seq<City>, rest: set<City>)
  {
    && city in adj && rest <= adj[city].Keys
    && result != [] && result[0] == start && result[|result| - 1] == city
    && visited <= ReachableFrom(adj, start)
    && (forall c :: c in visited <==> c in result || c in q)
    && NoDuplicates(result + q)
    && (forall c :: c in result && c != city && c in adj ==> adj[c].Keys <= visited)
    && adj[city].Keys - rest <= visited
  }

  lemma BreadthFirstInit(adj: Adj, start: City)
    requires start in adj
    ensures BreadthFirstState(adj, start, {start}, [], [start])
  {
    ReachableFromStart(adj, start);
  }

  /** Moving the head of the queue to the list starts the neighbour loop for it. */
  lemma BreadthFirstPop(adj: Adj, start: City, visited: set<City>, result: seq<City>, q: seq<City>)
    requires BreadthFirstState(adj, start, visited, result, q) && q != []
    ensures q[0] in adj
    ensures EnqueueState(adj, start, q[0], visited, result + [q[0]], q[1..], adj[q[0]].Keys)
  {
    assert q[0] in visited;
    assert (result + [q[0]]) + q[1..] == result + q;
  }

  /** An unvisited neighbour is marked and queued; one fewer city is left unvisited. */
  lemma EnqueueNew(adj: Adj, start: City, city: City, visited: set<City>, result: seq<City>,
                   q: seq<City>, rest: set<City>, n: City)
    requires Symmetric(adj)
    requires EnqueueState(adj, start, city, visited, result, q, rest)
    requires n in rest && n !in visited
    ensures EnqueueState(adj, start, city, visited + {n}, result, q + [n], rest - {n})
    ensures |adj.Keys - (visited + {n})| + |q + [n]| == |adj.Keys - visited| + |q|
  {
    NeighbourIsCity(adj, city, n);
    assert city in ReachableFrom(adj, start);
    ReachableFromStep(adj, start, city, n);
    assert adj.Keys - (visited + {n}) == (adj.Keys - visited) - {n};
    NoDuplicatesAppend(result + q, n);
    AppendAssociative(result, q, [n]);
  }

  /** A neighbour already visited is only crossed off. */
  lemma EnqueueSeen(adj: Adj, start: City, city: City, visited: set<City>, result: seq<City>,
                    q: seq<City>, rest: set<City>, n: City)
    requires EnqueueState(adj, start, city, visited, result, q, rest)
    requires n in rest && n in visited
    ensures EnqueueState(adj, start, city, visited, result, q, rest - {n})
  {
  }

  /** Once every neighbour was looked at, the traversal state holds again. */
  lemma EnqueueDone(adj: Adj, start: City, city: City, visited: set<City>, result: seq<City>, q: seq<City>)
    requires EnqueueState(adj, start, city, visited, result, q, {})
    ensures BreadthFirstState(adj, start, visited, result, q)
  {
  }

  /**
   * When the queue is empty the visited cities are closed under the edges,
   * so the list holds exactly the cities reachable from start.
   */
  lemma BreadthFirstDone(adj: Adj, start: City, visited: set<City>, result: seq<City>)
    requires BreadthFirstState(adj, start, visited, result, [])
    ensures result != [] && result[0] == start
    ensures NoDuplicates(result)
    ensures forall c :: c in result <==> Reachable(adj, start, c)
  {
    assert result + [] == result;
    assert ClosedUnder(adj, visited) by {
      forall c, n | c in visited && HasEdge(adj, c, n)
        ensures n in visited
      {
      }
    }
    ClosedComponent(adj, start, visited);
  }

  /**
   * Between two pops of the depth-first traversal: every visited or stacked
   * city lies in start's component, visited and result hold the same cities,
   * result lists each once and begins with start, and every neighbour of a
   * visited city is visited or still on the stack.
   */
  ghost predicate DepthFirstState(adj: Adj, start: City, visited: set<City>, result: seq<City>, st: seq<City>)
  {
    && visited <= ReachableFrom(adj, start)
    && (forall c :: c in st ==> c in ReachableFrom(adj, start))
    && (forall c :: c in visited <==> c in result)
    && NoDuplicates(result)
    && (result == [] ==> st == [start])
    && (result != [] ==> result[0] == start)
    && (forall c, n :: c in visited && c in adj && n in adj[c] ==> n in visited || n in st)
  }

  lemma DepthFirstInit(adj: Adj, start: City)
    requires start in adj
    ensures DepthFirstState(adj, start, {}, [], [start])
  {
    ReachableFromStart(adj, start);
  }

  /** The city on top of the stack is a city of the table. */
  lemma DepthFirstTop(adj: Adj, start: City, visited: set<City>, result: seq<City>, st: seq<City>)
    requires DepthFirstState(adj, start, visited, result, st) && st != []
    ensures st[|st| - 1] in adj
  {
    assert st[|st| - 1] in ReachableFrom(adj, start);
  }

  /** Popping a city already visited only shortens the stack. */
  lemma DepthFirstSkip(adj: Adj, start: City, visited: set<City>, result: seq<City>, st: seq<City>)
    requires DepthFirstState(adj, start, visited, result, st) && st != []
    requires st[|st| - 1] in visited
    ensures DepthFirstState(adj, start, visited, result, st[..|st| - 1])
  {
    PopMembers(st);
  }

  /**
   * Popping an unvisited city lists it and stacks its unvisited neighbours:
   * the state holds again and one more city of the table is visited.
   */
  lemma DepthFirstVisit(adj: Adj, start: City, visited: set<City>, result: seq<City>, st: seq<City>,
                        pushed: seq<City>)
    requires Symmetric(adj)
    requires DepthFirstState(adj, start, visited, result, st) && st != []
    requires st[|st| - 1] !in visited && st[|st| - 1] in adj
    requires forall x :: x in pushed <==> x in st[..|st| - 1] ||
                                          (x in adj[st[|st| - 1]] && x !in visited + {st[|st| - 1]})
    ensures DepthFirstState(adj, start, visited + {st[|st| - 1]}, result + [st[|st| - 1]], pushed)
    ensures |adj.Keys - (visited + {st[|st| - 1]})| < |adj.Keys - visited|
  {
    var city := st[|st| - 1];
    PopMembers(st);
    assert city in ReachableFrom(adj, start);
    forall x | x in pushed
      ensures x in ReachableFrom(adj, start)
    {
      if x !in st[..|st| - 1] {
        NeighbourIsCity(adj, city, x);
        ReachableFromStep(adj, start, city, x);
      }
    }
    NoDuplicatesAppend(result, city);
    assert adj.Keys - (visited + {city}) == (adj.Keys - visited) - {city};
  }

  /**
   * When the stack is empty the visited cities are closed under the edges,
   * so the list holds exactly the cities reachable from start.
   */
  lemma DepthFirstDone(adj: Adj, start: City, visited: set<City>, result: seq<City>)
    requires DepthFirstState(adj, start, visited, result, [])
    ensures result != [] && result[0] == start
    ensures NoDuplicates(result)
    ensures forall c :: c in result <==> Reachable(adj, start, c)
  {
    assert ClosedUnder(adj, visited) by {
      forall c, n | c in visited && HasEdge(adj, c, n)
        ensures n in visited
      {
      }
    }
    ClosedComponent(adj, start, visited);
  }
}
