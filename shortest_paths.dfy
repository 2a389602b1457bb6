/**
 * The state of the shortest-path search, and why it is right.
 *
 * `dist` holds the tentative cost of every city the search has labelled; a city
 * missing from it is at infinity. `pq` is the frontier of (cost, city) entries,
 * possibly holding stale entries. `done` (ghost) is the set of cities that were
 * popped with their current label and whose neighbours were relaxed.
 */
module ShortestPaths {
  import opened Adjacency
  import opened Walks

  type Entry = (real, City)

  /**
   * The labels and the predecessor links: start is labelled 0; every other
   * labelled city was reached over an edge from a settled predecessor, and
   * its label is that predecessor's plus the edge weight. `rank` numbers the
   * settled cities in the order they were settled; a settled city's
   * predecessor was settled before it, which is what makes the walk back
   * along the predecessor links end.
   */
  ghost predicate Labels(adj: Adj, m: Metric, start: City, dist: map<City, real>, prev: map<City, City>,
                         done: set<City>, rank: map<City, nat>)
  {
    && dist.Keys <= adj.Keys
    && start in dist && dist[start] == 0.0
    && done <= dist.Keys
    && (done == {} ==> dist.Keys == {start})
    && (done != {} ==> start in done)
    && (forall v {:trigger Linked(adj, m, dist, prev, done, v)} ::
          v in dist && v != start ==> Linked(adj, m, dist, prev, done, v))
    && rank.Keys == done
    && (forall u :: u in rank ==> rank[u] < |done|)
    && (forall v {:trigger RankedAfterPrev(prev, rank, v)} ::
          v in done && v != start ==> RankedAfterPrev(prev, rank, v))
  }

  /** v's label came over an edge from its settled predecessor. */
  ghost predicate Linked(adj: Adj, m: Metric, dist: map<City, real>, prev: map<City, City>, done: set<City>, v: City)
  {
    && v in dist && v in prev && prev[v] in done && prev[v] in dist && HasEdge(adj, prev[v], v)
    && dist[v] == dist[prev[v]] + Weight(adj[prev[v]][v], m)
  }

  /** v's predecessor was settled before v. */
  ghost predicate RankedAfterPrev(prev: map<City, City>, rank: map<City, nat>, v: City)
  {
    v in prev && v in rank && prev[v] in rank && rank[prev[v]] < rank[v]
  }

  /** Every settled city has relaxed all its edges. */
  ghost predicate Relaxed(adj: Adj, m: Metric, dist: map<City, real>, done: set<City>)
  {
    forall u, n :: u in done && HasEdge(adj, u, n) ==>
      u in dist && n in dist && dist[n] <= dist[u] + Weight(adj[u][n], m)
  }

  /** Every settled city but the one being expanded has relaxed all its edges. */
  ghost predicate RelaxedBut(adj: Adj, m: Metric, dist: map<City, real>, done: set<City>, city: City)
  {
    forall u, n :: u in done && u != city && HasEdge(adj, u, n) ==>
      u in dist && n in dist && dist[n] <= dist[u] + Weight(adj[u][n], m)
  }

  /** Every settled city's label is the cost of a cheapest walk to it. */
  ghost predicate SettledShortest(adj: Adj, m: Metric, start: City, dist: map<City, real>, done: set<City>)
  {
    forall u {:trigger u in done} :: u in done ==> u in dist && Shortest(adj, m, start, u, dist[u])
  }

  /** Before the first pop only start is labelled, at 0, and nothing is settled. */
  lemma SearchStart(adj: Adj, m: Metric, start: City)
    requires start in adj
    ensures Labels(adj, m, start, map[start := 0.0], map[], {}, map[])
    ensures Frontier(map[start := 0.0], {}, {(0.0, start)})
    ensures Relaxed(adj, m, map[start := 0.0], {})
    ensures SettledShortest(adj, m, start, map[start := 0.0], {})
  {
  }

  /** Labels that did not move keep their optimality. */
  lemma SettledShortestKept(adj: Adj, m: Metric, start: City, dist0: map<City, real>, dist: map<City, real>,
                            done: set<City>)
    requires SettledShortest(adj, m, start, dist0, done)
    requires forall u :: u in done ==> u in dist && dist[u] == dist0[u]
    ensures SettledShortest(adj, m, start, dist, done)
  {
    forall u | u in done
      ensures u in dist && Shortest(adj, m, start, u, dist[u])
    {
      assert dist[u] == dist0[u];
    }
  }

  /** A city popped at its shortest cost joins the settled ones. */
  lemma SettledShortestAdd(adj: Adj, m: Metric, start: City, dist: map<City, real>, done: set<City>, city: City)
    requires SettledShortest(adj, m, start, dist, done)
    requires city in dist && Shortest(adj, m, start, city, dist[city])
    ensures SettledShortest(adj, m, start, dist, done + {city})
  {
  }

  /** Settling one more city of the table shrinks the part still to settle. */
  lemma SettlingShrinks(cities: set<City>, done: set<City>, city: City)
    requires city in cities && city !in done
    ensures |cities - (done + {city})| < |cities - done|
  {
    assert cities - (done + {city}) == (cities - done) - {city};
  }

  /**
   * The frontier: no entry is below its city's label (and a settled city's
   * remaining entries are all stale), every unsettled label has a live entry,
   * and no entry is cheaper than a settled label.
   */
  ghost predicate Frontier(dist: map<City, real>, done: set<City>, pq: set<Entry>)
  {
    && done <= dist.Keys
    && (forall e {:trigger e in pq} :: e in pq ==> e.1 in dist && dist[e.1] <= e.0 && (e.1 in done ==> dist[e.1] < e.0))
    && (forall v {:trigger v in dist} :: v in dist && v !in done ==> (dist[v], v) in pq)
    && (forall u, e {:trigger u in done, e in pq} :: u in done && e in pq ==> dist[u] <= e.0)
  }

  predicate IsMinEntry(pq: set<Entry>, e: Entry)
  {
    e in pq && forall e' {:trigger e' in pq} :: e' in pq ==> e.0 <= e'.0
  }

  /** A non-empty frontier has a cheapest entry (the top of the priority queue). */
  lemma {:induction false} MinEntryExists(pq: set<Entry>)
    requires pq != {}
    ensures exists e :: IsMinEntry(pq, e)
  {
    var x :| x in pq;
    if pq != {x} {
      MinEntryExists(pq - {x});
      var y :| IsMinEntry(pq - {x}, y);
      forall e' | e' in pq
        ensures e' == x || e' in pq - {x}
      {
      }
      if x.0 < y.0 {
        assert IsMinEntry(pq, x);
      } else {
        assert IsMinEntry(pq, y);
      }
    } else {
      assert IsMinEntry(pq, x);
    }
  }

  /**
   * A walk from a settled city to an unsettled one, over a graph whose settled
   * cities are relaxed and correctly labelled, leaves the settled set at a
   * labelled city whose label is no more than the walk's cost.
   */
  lemma {:induction false} LeavesSettled(adj: Adj, m: Metric, p: seq<City>, dist: map<City, real>, done: set<City>)
    requires NonNegative(adj)
    requires IsWalk(adj, p) && p[0] in done && p[|p| - 1] !in done
    requires Relaxed(adj, m, dist, done)
    requires SettledShortest(adj, m, p[0], dist, done)
    ensures exists x :: x in dist && x !in done && dist[x] <= WalkCost(adj, p, m)
  {
    var n := |p|;
    var q := p[..n - 1];
    assert p == q + [p[n - 1]];
    WalkPrefix(adj, p);
    WalkCostAppend(adj, q, p[n - 1], m);
    var w := EdgeWeight(adj, p[n - 2], p[n - 1], m);
    assert w == Weight(adj[p[n - 2]][p[n - 1]], m) >= 0.0;
    if p[n - 2] in done {
      assert dist[p[n - 2]] <= WalkCost(adj, q, m);
      assert dist[p[n - 1]] <= dist[p[n - 2]] + w;
    } else {
      LeavesSettled(adj, m, q, dist, done);
      var x :| x in dist && x !in done && dist[x] <= WalkCost(adj, q, m);
      assert dist[x] <= WalkCost(adj, p, m);
    }
  }

  /**
   * The heart of Dijkstra's algorithm: an entry popped at minimum cost that is
   * not stale belongs to an unsettled city, and its cost is that of a cheapest
   * walk from start.
   */
  lemma PoppedIsShortest(adj: Adj, m: Metric, start: City, dist: map<City, real>,
                         done: set<City>, pq: set<Entry>, e: Entry)
    requires NonNegative(adj)
    requires start in dist && dist[start] == 0.0
    requires done == {} ==> dist.Keys == {start}
    requires done != {} ==> start in done
    requires Relaxed(adj, m, dist, done) && SettledShortest(adj, m, start, dist, done)
    requires Frontier(dist, done, pq)
    requires IsMinEntry(pq, e) && e.0 <= dist[e.1]
    ensures e.1 !in done && e.0 == dist[e.1]
    ensures Shortest(adj, m, start, e.1, e.0)
  {
    forall p | IsWalk(adj, p) && p[0] == start && p[|p| - 1] == e.1
      ensures e.0 <= WalkCost(adj, p, m)
    {
      if done == {} {
        WalkCostNonNegative(adj, p, m);
      } else {
        LeavesSettled(adj, m, p, dist, done);
        var x :| x in dist && x !in done && dist[x] <= WalkCost(adj, p, m);
        assert (dist[x], x) in pq;
      }
    }
  }

  /** Discarding a stale entry keeps the frontier's invariant. */
  lemma DropStale(dist: map<City, real>, done: set<City>, pq: set<Entry>, e: Entry)
    requires Frontier(dist, done, pq)
    requires e in pq && e.0 > dist[e.1]
    ensures Frontier(dist, done, pq - {e})
    ensures |pq - {e}| < |pq|
  {
  }

  /** Settling the popped city keeps the labels, with the next rank for it. */
  lemma SettleLabels(adj: Adj, m: Metric, start: City, dist: map<City, real>, prev: map<City, City>,
                     done: set<City>, rank: map<City, nat>, city: City)
    requires Labels(adj, m, start, dist, prev, done, rank)
    requires city in dist && city !in done
    requires done == {} ==> city == start
    ensures Labels(adj, m, start, dist, prev, done + {city}, rank[city := |done|])
  {
    var done' := done + {city};
    var rank' := rank[city := |done|];
    assert |done'| == |done| + 1;
    assert rank'.Keys == done';
    assert forall u :: u in rank' ==> rank'[u] < |done'|;
    forall v | v in dist && v != start
      ensures Linked(adj, m, dist, prev, done', v)
    {
      assert Linked(adj, m, dist, prev, done, v);
    }
    forall v | v in done' && v != start
      ensures RankedAfterPrev(prev, rank', v)
    {
      assert Linked(adj, m, dist, prev, done, v);
      if v != city {
        assert RankedAfterPrev(prev, rank, v);
      }
    }
  }

  /** Popping the cheapest entry and settling its city keeps the frontier's invariant. */
  lemma SettleFrontier(dist: map<City, real>, done: set<City>, pq: set<Entry>, e: Entry)
    requires Frontier(dist, done, pq)
    requires IsMinEntry(pq, e) && e.1 in dist && e.1 !in done && e.0 == dist[e.1]
    ensures Frontier(dist, done + {e.1}, pq - {e})
    ensures forall u :: u in done + {e.1} ==> dist[u] <= e.0
  {
    var done' := done + {e.1};
    forall x | x in pq - {e}
      ensures x.1 in done' ==> dist[x.1] < x.0
    {
      if x.1 == e.1 {
        assert x != e;
      }
    }
  }

  /** Relaxing the edge city-n to a better label nd keeps the labels (n is never a settled city). */
  lemma RelaxLabels(adj: Adj, m: Metric, start: City, dist: map<City, real>, prev: map<City, City>,
                    done: set<City>, rank: map<City, nat>, city: City, d: real, n: City, nd: real)
    requires HasEdge(adj, city, n) && n in adj && city != n && Weight(adj[city][n], m) >= 0.0
    requires Labels(adj, m, start, dist, prev, done, rank)
    requires city in done && city in dist && dist[city] == d && forall u :: u in done ==> dist[u] <= d
    requires nd == d + Weight(adj[city][n], m) && (n !in dist || nd < dist[n])
    ensures n !in done && n != start
    ensures Labels(adj, m, start, dist[n := nd], prev[n := city], done, rank)
  {
    var dist' := dist[n := nd];
    var prev' := prev[n := city];
    assert start in done && n !in done;
    RelaxLinked(adj, m, start, dist, prev, done, rank, city, n, nd);
    forall v | v in done && v != start
      ensures RankedAfterPrev(prev', rank, v)
    {
      assert RankedAfterPrev(prev, rank, v);
    }
    assert dist'.Keys <= adj.Keys && done <= dist'.Keys;
    assert start in dist' && dist'[start] == 0.0;
    assert done != {} && start in done;
    assert rank.Keys == done;
    assert forall u :: u in rank ==> rank[u] < |done|;
  }

  /** The predecessor links after relaxing city-n: n's now points at city. */
  lemma RelaxLinked(adj: Adj, m: Metric, start: City, dist: map<City, real>, prev: map<City, City>,
                    done: set<City>, rank: map<City, nat>, city: City, n: City, nd: real)
    requires HasEdge(adj, city, n) && city != n
    requires Labels(adj, m, start, dist, prev, done, rank)
    requires city in done && n !in done && nd == dist[city] + Weight(adj[city][n], m)
    ensures forall v {:trigger Linked(adj, m, dist[n := nd], prev[n := city], done, v)} ::
              v in dist[n := nd] && v != start ==> Linked(adj, m, dist[n := nd], prev[n := city], done, v)
  {
    var dist' := dist[n := nd];
    var prev' := prev[n := city];
    forall v | v in dist' && v != start
      ensures Linked(adj, m, dist', prev', done, v)
    {
      if v != n {
        assert Linked(adj, m, dist, prev, done, v);
      }
    }
  }

  /** Relaxing the edge city-n to a better label keeps the frontier, with the new entry for n. */
  lemma RelaxFrontier(dist: map<City, real>, done: set<City>, pq: set<Entry>, d: real, n: City, nd: real)
    requires Frontier(dist, done, pq)
    requires n !in done && nd >= d && forall u :: u in done ==> dist[u] <= d
    requires n !in dist || nd < dist[n]
    ensures Frontier(dist[n := nd], done, pq + {(nd, n)})
  {
  }

  /** A better label for n keeps every other settled city relaxed. */
  lemma RelaxKeepsRelaxed(adj: Adj, m: Metric, dist: map<City, real>, done: set<City>, city: City, n: City, nd: real)
    requires RelaxedBut(adj, m, dist, done, city)
    requires n !in done
    requires n !in dist || nd < dist[n]
    ensures RelaxedBut(adj, m, dist[n := nd], done, city)
  {
  }

  /**
   * The invariant of the relaxation loop over the settled city's neighbours:
   * settled labels are untouched and no larger than d (the city's own label),
   * the labels and frontier stay sound, every other settled city stays
   * relaxed, and every neighbour looked at so far is relaxed from city.
   */
  ghost predicate Relaxing(adj: Adj, m: Metric, start: City, city: City, d: real, dist0: map<City, real>,
                           dist: map<City, real>, prev: map<City, City>, pq: set<Entry>,
                           done: set<City>, rank: map<City, nat>, processed: set<City>)
  {
    && city in done && city in dist && dist[city] == d
    && (forall u :: u in done ==> u in dist0 && u in dist && dist[u] == dist0[u] && dist0[u] <= d)
    && Labels(adj, m, start, dist, prev, done, rank)
    && Frontier(dist, done, pq)
    && RelaxedBut(adj, m, dist, done, city)
    && RelaxedFrom(adj, m, dist, city, d, processed)
  }

  /** Every neighbour in processed is labelled no higher than through city. */
  ghost predicate RelaxedFrom(adj: Adj, m: Metric, dist: map<City, real>, city: City, d: real, processed: set<City>)
  {
    forall n :: n in processed && HasEdge(adj, city, n) ==> n in dist && dist[n] <= d + Weight(adj[city][n], m)
  }

  /** A lower label for n keeps every processed neighbour relaxed, n included. */
  lemma RelaxedFromLowered(adj: Adj, m: Metric, dist: map<City, real>, city: City, d: real,
                           processed: set<City>, n: City, nd: real)
    requires RelaxedFrom(adj, m, dist, city, d, processed)
    requires HasEdge(adj, city, n) && nd == d + Weight(adj[city][n], m)
    requires n !in dist || nd < dist[n]
    ensures RelaxedFrom(adj, m, dist[n := nd], city, d, processed + {n})
  {
  }

  /** One iteration of the relaxation loop keeps its invariant. */
  lemma RelaxStep(adj: Adj, m: Metric, start: City, city: City, d: real, dist0: map<City, real>,
                  dist: map<City, real>, prev: map<City, City>, pq: set<Entry>,
                  done: set<City>, rank: map<City, nat>, processed: set<City>, n: City)
    requires WellFormed(adj) && HasEdge(adj, city, n)
    requires Relaxing(adj, m, start, city, d, dist0, dist, prev, pq, done, rank, processed)
    ensures var nd := d + Weight(adj[city][n], m);
            if n !in dist || nd < dist[n]
            then Relaxing(adj, m, start, city, d, dist0, dist[n := nd], prev[n := city], pq + {(nd, n)},
                          done, rank, processed + {n})
            else Relaxing(adj, m, start, city, d, dist0, dist, prev, pq, done, rank, processed + {n})
  {
    var nd := d + Weight(adj[city][n], m);
    if n !in dist || nd < dist[n] {
      NeighbourIsCity(adj, city, n);
      WeightNonNegative(adj, city, n, m);
      RelaxImproves(adj, m, start, city, d, dist0, dist, prev, pq, done, rank, processed, n);
    }
  }

  /** The branch of RelaxStep where n gets a better label through city. */
  lemma RelaxImproves(adj: Adj, m: Metric, start: City, city: City, d: real, dist0: map<City, real>,
                      dist: map<City, real>, prev: map<City, City>, pq: set<Entry>,
                      done: set<City>, rank: map<City, nat>, processed: set<City>, n: City)
    requires HasEdge(adj, city, n) && n in adj && city != n && Weight(adj[city][n], m) >= 0.0
    requires Relaxing(adj, m, start, city, d, dist0, dist, prev, pq, done, rank, processed)
    requires n !in dist || d + Weight(adj[city][n], m) < dist[n]
    ensures Relaxing(adj, m, start, city, d, dist0, dist[n := d + Weight(adj[city][n], m)], prev[n := city],
                     pq + {(d + Weight(adj[city][n], m), n)}, done, rank, processed + {n})
  {
    var nd := d + Weight(adj[city][n], m);
    RelaxLabels(adj, m, start, dist, prev, done, rank, city, d, n, nd);
    RelaxFrontier(dist, done, pq, d, n, nd);
    RelaxKeepsRelaxed(adj, m, dist, done, city, n, nd);
    RelaxedFromLowered(adj, m, dist, city, d, processed, n, nd);
    SettledUntouched(dist0, dist, done, d, n, nd);
    RelaxingIntro(adj, m, start, city, d, dist0, dist[n := nd], prev[n := city], pq + {(nd, n)}, done, rank, processed + {n});
  }

  /** Relaxing from its parts. */
  lemma RelaxingIntro(adj: Adj, m: Metric, start: City, city: City, d: real, dist0: map<City, real>,
                      dist: map<City, real>, prev: map<City, City>, pq: set<Entry>,
                      done: set<City>, rank: map<City, nat>, processed: set<City>)
    requires city in done && city in dist && dist[city] == d
    requires forall u :: u in done ==> u in dist0 && u in dist && dist[u] == dist0[u] && dist0[u] <= d
    requires Labels(adj, m, start, dist, prev, done, rank)
    requires Frontier(dist, done, pq)
    requires RelaxedBut(adj, m, dist, done, city)
    requires RelaxedFrom(adj, m, dist, city, d, processed)
    ensures Relaxing(adj, m, start, city, d, dist0, dist, prev, pq, done, rank, processed)
  {
  }

  /** A new label for an unsettled city leaves every settled label as it was. */
  lemma SettledUntouched(dist0: map<City, real>, dist: map<City, real>, done: set<City>, d: real, n: City, nd: real)
    requires forall u :: u in done ==> u in dist0 && u in dist && dist[u] == dist0[u] && dist0[u] <= d
    requires n !in done
    ensures forall u :: u in done ==> u in dist0 && u in dist[n := nd] && dist[n := nd][u] == dist0[u] && dist0[u] <= d
  {
  }

  /** When the frontier runs dry every labelled city is settled, and so nothing else is reachable. */
  lemma ExhaustedFrontier(adj: Adj, m: Metric, start: City, dist: map<City, real>, done: set<City>, t: City)
    requires start in dist
    requires Relaxed(adj, m, dist, done) && Frontier(dist, done, {})
    requires t !in dist
    ensures !Reachable(adj, start, t)
  {
    assert ClosedUnder(adj, done);
    if Reachable(adj, start, t) {
      ClosedContainsReachable(adj, done, start, t);
    }
  }

  /**
   * When the search runs out of frontier, a labelled destination is settled and
   * so labelled with its shortest cost, and an unlabelled one is unreachable.
   */
  lemma SearchExhausted(adj: Adj, m: Metric, start: City, dist: map<City, real>, done: set<City>, t: City)
    requires start in dist
    requires Frontier(dist, done, {}) && Relaxed(adj, m, dist, done)
    requires SettledShortest(adj, m, start, dist, done)
    ensures t in dist ==> Shortest(adj, m, start, t, dist[t])
    ensures t !in dist ==> !Reachable(adj, start, t)
  {
    if t in dist {
      assert t in done;
    } else {
      ExhaustedFrontier(adj, m, start, dist, done, t);
    }
  }

  /** The reversal std::reverse performs on the reconstructed path. */
  function Reversed(s: seq<City>): (r: seq<City>)
    ensures |r| == |s|
    ensures forall i :: 0 <= i < |s| ==> r[i] == s[|s| - 1 - i]
  {
    if s == [] then [] else [s[|s| - 1]] + Reversed(s[..|s| - 1])
  }

  /** Reversing after appending x puts x first. */
  lemma ReversedAppend(s: seq<City>, x: City)
    ensures Reversed(s + [x]) == [x] + Reversed(s)
  {
    assert (s + [x])[..|s|] == s;
  }
}
