/**
 * The weighted graph kept as adjacency lists, with breadth-first and
 * depth-first traversal and the shortest-path search.
 */
module Graphs {
  import opened Walks
  import opened ShortestPaths

  /** What a traversal returns: the visiting order, or the missing-start message. */
  datatype Traversal = StartNotFound | Visited(order: seq<Vertex>)

  /**
   * The result a traversal from `start` promises: the missing-start case
   * when `start` is not a vertex; otherwise a duplicate-free order that
   * begins at `start` and lists exactly the vertices reachable from it.
   */
  ghost predicate TraversalPost(adj: Adjacency, start: Vertex, r: Traversal)
  {
    && (start !in adj <==> r.StartNotFound?)
    && (r.Visited? ==>
          && |r.order| >= 1 && r.order[0] == start
          && Distinct(r.order)
          && (forall v :: v in r.order ==> v in adj)
          && (forall v :: v in r.order <==> Reachable(adj, start, v)))
  }

  /** The elements of `s` back to front. */
  function Reversed<T>(s: seq<T>): (r: seq<T>)
    ensures |r| == |s|
    ensures forall i :: 0 <= i < |s| ==> r[i] == s[|s| - 1 - i]
  {
    if s == [] then [] else [s[|s| - 1]] + Reversed(s[..|s| - 1])
  }

  /** Reverse a list in place by swapping from both ends toward the middle. */
  method ReverseInPlace<T>(a: array<T>)
    modifies a
    ensures a[..] == Reversed(old(a[..]))
  {
    var n := a.Length;
    var i := 0;
    while i < n / 2
      invariant 0 <= i <= n / 2
      invariant forall k :: 0 <= k < i ==> a[k] == old(a[n - 1 - k]) && a[n - 1 - k] == old(a[k])
      invariant forall k :: i <= k < n - i ==> a[k] == old(a[k])
    {
      a[i], a[n - 1 - i] := a[n - 1 - i], a[i];
      i := i + 1;
    }
  }

  class Graph {
    /** Each vertex's edges as (neighbour, weight) pairs, in insertion order. */
    var adj: Adjacency

    /** Every edge leads to a vertex of the graph. */
    ghost predicate Valid()
      reads this
    {
      Closed(adj)
    }

    constructor ()
      ensures Valid() && adj == map[]
    {
      adj := map[];
    }

    /** Add a vertex with no edges, unless it is already there. */
    method AddVertex(v: Vertex)
      requires Valid()
      modifies this
      ensures Valid()
      ensures v in old(adj) ==> adj == old(adj)
      ensures v !in old(adj) ==> adj == old(adj)[v := []]
    {
      if v !in adj {
        adj := adj[v := []];
      }
    }

    /**
     * Add an edge of weight `weight` from `from` to `to`, creating either
     * vertex if needed; unless `directed`, also the edge back. Each edge is
     * appended to its vertex's list and no other list changes.
     */
    method AddEdge(from: Vertex, to: Vertex, weight: nat := 1, directed: bool := false)
      requires Valid()
      modifies this
      ensures Valid()
      ensures adj.Keys == old(adj).Keys + {from, to}
      ensures forall v :: v in adj && v != from && v != to ==> adj[v] == old(adj)[v]
      ensures from != to ==> adj[from] == EdgesOf(old(adj), from) + [(to, weight)]
      ensures from != to && directed ==> adj[to] == EdgesOf(old(adj), to)
      ensures from != to && !directed ==> adj[to] == EdgesOf(old(adj), to) + [(from, weight)]
      ensures from == to && directed ==> adj[from] == EdgesOf(old(adj), from) + [(to, weight)]
      ensures from == to && !directed ==> adj[from] == EdgesOf(old(adj), from) + [(to, weight), (from, weight)]
    {
      AddVertex(from);
      AddVertex(to);
      AppendKeepsClosed(adj, from, (to, weight));
      adj := adj[from := adj[from] + [(to, weight)]];
      if !directed {
        AppendKeepsClosed(adj, to, (from, weight));
        adj := adj[to := adj[to] + [(from, weight)]];
      }
    }

    /**
     * Breadth-first traversal from `start`: a FIFO queue of discovered
     * vertices; a vertex is marked when it is discovered and recorded when
     * it is dequeued.
     */
    method Bfs(start: Vertex) returns (r: Traversal)
      requires Valid()
      ensures TraversalPost(adj, start, r)
    {
      if start !in adj {
        return StartNotFound;
      }
      var visited := {start};
      var queue := [start];
      var path := [];
      ReachableSelf(adj, start);
      while queue != []
        invariant visited <= adj.Keys
        invariant forall x :: x in visited <==> x in path || x in queue
        invariant Distinct(path + queue)
        invariant if path == [] then queue == [start] else path[0] == start
        invariant forall x :: x in visited ==> Reachable(adj, start, x)
        invariant forall x, i :: x in path && 0 <= i < |EdgesOf(adj, x)| ==> EdgesOf(adj, x)[i].0 in visited
        decreases adj.Keys - visited, |queue|
      {
        var v := queue[0];
        assert path + queue == (path + [v]) + queue[1..];
        queue := queue[1..];
        path := path + [v];
        visited, queue := EnqueueNeighbours(start, v, visited, queue, path);
      }
      assert path + queue == path;
      assert ClosedUnderEdges(adj, visited);
      forall x | Reachable(adj, start, x) ensures x in path {
        ClosedSetHoldsReachable(adj, visited, start, x);
      }
      return Visited(path);
    }

    /**
     * Depth-first traversal from `start`: the recursive visit marks and
     * records a vertex on entry and then visits each unmarked neighbour in
     * the order of its edge list.
     */
    method Dfs(start: Vertex) returns (r: Traversal)
      requires Valid()
      ensures TraversalPost(adj, start, r)
    {
      if start !in adj {
        return StartNotFound;
      }
      ReachableSelf(adj, start);
      var visited, path := DfsVisit(start, start, {}, [], {});
      assert ClosedUnderEdges(adj, visited);
      forall x | Reachable(adj, start, x) ensures x in path {
        ClosedSetHoldsReachable(adj, visited, start, x);
      }
      return Visited(path);
    }

    /**
     * Visit `v`: mark it, record it, then visit every neighbour still
     * unmarked when its turn comes. `stack` holds the vertices whose visits
     * are still in progress; every other marked vertex has all its
     * neighbours marked, before and after the call.
     */
    method DfsVisit(ghost start: Vertex, v: Vertex, visited0: set<Vertex>, path0: seq<Vertex>,
                    ghost stack: set<Vertex>)
      returns (visited: set<Vertex>, path: seq<Vertex>)
      requires Valid() && v in adj && v !in visited0 && visited0 <= adj.Keys
      requires forall x :: x in visited0 <==> x in path0
      requires Distinct(path0)
      requires stack <= visited0
      requires forall x, j :: x in visited0 && x !in stack && 0 <= j < |EdgesOf(adj, x)| ==>
        EdgesOf(adj, x)[j].0 in visited0
      requires Reachable(adj, start, v) && forall x :: x in visited0 ==> Reachable(adj, start, x)
      ensures visited0 + {v} <= visited <= adj.Keys
      ensures path0 + [v] <= path
      ensures forall x :: x in visited <==> x in path
      ensures Distinct(path)
      ensures forall x, j :: x in visited && x !in stack && 0 <= j < |EdgesOf(adj, x)| ==>
        EdgesOf(adj, x)[j].0 in visited
      ensures forall x :: x in visited ==> Reachable(adj, start, x)
      decreases adj.Keys - visited0
    {
      DistinctAppend(path0, v);
      visited := visited0 + {v};
      path := path0 + [v];
      var edges := EdgesOf(adj, v);
      var i := 0;
      while i < |edges|
        invariant i <= |edges|
        invariant visited0 + {v} <= visited <= adj.Keys
        invariant path0 + [v] <= path
        invariant forall x :: x in visited <==> x in path
        invariant Distinct(path)
        invariant forall x, j :: x in visited && x !in stack && x != v && 0 <= j < |EdgesOf(adj, x)| ==>
          EdgesOf(adj, x)[j].0 in visited
        invariant forall j :: 0 <= j < i ==> edges[j].0 in visited
        invariant forall x :: x in visited ==> Reachable(adj, start, x)
      {
        var u := edges[i].0;
        if u !in visited {
          ReachableStep(adj, start, v, i);
          ghost var before := visited;
          visited, path := DfsVisit(start, u, visited, path, stack + {v});
          assert before <= visited;
        }
        i := i + 1;
      }
    }

    /**
     * Least-cost path from `start` to `end`: infinity and no path when
     * either is missing; otherwise the distance the search settles for
     * `end` and the path its predecessors spell.
     */
    method Dijkstra(start: Vertex, end: Vertex) returns (cost: Dist, path: seq<Vertex>)
      requires Valid()
      ensures ShortestPathPost(adj, start, end, cost, path)
    {
      if start !in adj || end !in adj {
        return Inf, [];
      }
      var dist, pred, done, rank := ShortestDistances(start, end);
      Conclude(adj, start, end, dist, pred, done, rank);
      path := RebuildPath(start, end, pred, done, rank);
      cost := dist[end];
    }

    /**
     * The main loop of the search. The priority queue of (cost, vertex)
     * entries starts as the single entry (0, `start`), and every distance
     * starts infinite except that of `start`, which is 0; a popped entry dearer than its vertex's distance is stale and
     * skipped; popping `end` stops the search; otherwise every edge of the
     * popped vertex is relaxed. On exit the distance of `end` is optimal,
     * or infinite exactly because `end` is unreachable.
     */
    method ShortestDistances(start: Vertex, end: Vertex)
      returns (dist: map<Vertex, Dist>, pred: map<Vertex, Vertex>, ghost done: set<Vertex>,
               ghost rank: map<Vertex, nat>)
      requires Valid() && start in adj && end in adj
      ensures dist.Keys == adj.Keys && dist[start] == Fin(0)
      ensures PredOk(adj, start, dist, pred, done, rank)
      ensures dist[end].Fin? ==> Optimal(adj, start, end, dist[end].n)
      ensures dist[end].Inf? ==> !Reachable(adj, start, end)
    {
      var heap: multiset<Entry> := multiset{(0, start)};
      dist := map v | v in adj :: Inf;
      dist := dist[start := Fin(0)];
      pred := map[];
      done, rank := {}, map[];
      InitialInv(adj, start, dist);
      ghost var reached := false;
      while heap != multiset{}
        invariant Inv(adj, start, dist, pred, heap, done, rank)
        invariant !reached
        decreases adj.Keys - done, |heap|
      {
        MinExists(heap);
        var e :| IsMin(heap, e);
        var c, u := e.0, e.1;
        Popped(adj, start, dist, pred, heap, done, rank, e);
        ghost var before := heap;
        heap := heap - multiset{e};
        if Exceeds(c, dist[u]) {
          DropEntry(adj, start, dist, pred, before, done, rank, e);
          continue;
        }
        PopOptimal(adj, start, dist, pred, before, done, rank, c, u);
        if u == end {
          reached := true;
          break;
        }
        dist, pred, heap, done, rank := SettleAndRelax(start, u, c, dist, pred, heap, done, rank, before);
      }
      if !reached {
        EmptyQueueDecides(adj, start, dist, pred, done, rank, end);
      }
    }

    /**
     * One round of the main loop after a fresh (non-stale) pop of `u` at
     * cost `c`, other than the target: `u` is settled if it was not yet,
     * then its edges are relaxed. Re-popping a settled vertex changes
     * nothing but the queue it was popped from.
     */
    method SettleAndRelax(ghost s: Vertex, u: Vertex, c: nat, dist0: map<Vertex, Dist>,
                          pred0: map<Vertex, Vertex>, heap0: multiset<Entry>, ghost done0: set<Vertex>,
                          ghost rank0: map<Vertex, nat>, ghost before: multiset<Entry>)
      returns (dist: map<Vertex, Dist>, pred: map<Vertex, Vertex>, heap: multiset<Entry>,
               ghost done: set<Vertex>, ghost rank: map<Vertex, nat>)
      requires Valid()
      requires Inv(adj, s, dist0, pred0, before, done0, rank0) && IsMin(before, (c, u))
      requires dist0[u] == Fin(c) && heap0 == before - multiset{(c, u)}
      ensures Inv(adj, s, dist, pred, heap, done, rank)
      ensures u !in done0 ==> done == done0 + {u}
      ensures u in done0 ==> done == done0 && heap == heap0
    {
      if u !in done0 {
        Settle(adj, s, dist0, pred0, before, done0, rank0, c, u);
        rank := rank0[u := |done0|];
        done := done0 + {u};
      } else {
        DropEntry(adj, s, dist0, pred0, before, done0, rank0, (c, u));
        done, rank := done0, rank0;
      }
      dist, pred, heap := RelaxEdges(s, u, c, dist0, pred0, heap0, done, rank);
    }

    /**
     * Rebuild the path: collect `end` and its predecessors back to a vertex
     * that has none, append `start`, and reverse the list in place.
     */
    method RebuildPath(start: Vertex, end: Vertex, pred: map<Vertex, Vertex>, ghost done: set<Vertex>,
                       ghost rank: map<Vertex, nat>)
      returns (path: seq<Vertex>)
      requires Acyclic(pred, done, rank)
      ensures path == Rebuilt(start, pred, done, rank, end)
    {
      var back: seq<Vertex> := [];
      var v := end;
      while v in pred
        invariant Rebuilt(start, pred, done, rank, end) == Rebuilt(start, pred, done, rank, v) + Reversed(back)
        decreases Rank(done, rank, v)
      {
        back := back + [v];
        v := pred[v];
      }
      back := back + [start];
      var a := new Vertex[|back|](i requires 0 <= i < |back| => back[i]);
      assert a[..] == back;
      ReverseInPlace(a);
      path := a[..];
    }

    /**
     * The inner loop of the search: for each edge (x, w) of the settled
     * vertex `u` in list order, if `c + w` beats x's distance, x gets that
     * distance, `u` as predecessor, and a queue entry.
     */
    method RelaxEdges(ghost s: Vertex, u: Vertex, c: nat, dist0: map<Vertex, Dist>, pred0: map<Vertex, Vertex>,
                      heap0: multiset<Entry>, ghost done: set<Vertex>, ghost rank: map<Vertex, nat>)
      returns (dist: map<Vertex, Dist>, pred: map<Vertex, Vertex>, heap: multiset<Entry>)
      requires Valid()
      requires Core(adj, s, dist0, pred0, heap0, done, rank) && RelaxedExcept(adj, dist0, done, u, 0)
      requires u in done && dist0[u] == Fin(c)
      ensures Inv(adj, s, dist, pred, heap, done, rank)
      ensures AllRelaxed(adj, dist0, done) ==> dist == dist0 && pred == pred0 && heap == heap0
    {
      dist, pred, heap := dist0, pred0, heap0;
      var edges := EdgesOf(adj, u);
      var i := 0;
      while i < |edges|
        invariant i <= |edges|
        invariant RelaxLoop(adj, s, dist, pred, heap, done, rank, u, c, i, dist0, pred0, heap0)
      {
        var x, w := edges[i].0, edges[i].1;
        RelaxTarget(adj, s, dist, pred, heap, done, rank, u, c, i, dist0, pred0, heap0);
        ghost var prevDist, prevPred, prevHeap := dist, pred, heap;
        if Improves(c + w, dist[x]) {
          dist := dist[x := Fin(c + w)];
          pred := pred[x := u];
          heap := heap + multiset{(c + w, x)};
        }
        RelaxStep(adj, s, prevDist, prevPred, prevHeap, done, rank, u, c, i, dist0, pred0, heap0, x, w, dist, pred, heap);
        i := i + 1;
      }
      RelaxLoopEnd(adj, s, dist, pred, heap, done, rank, u, c, dist0, pred0, heap0);
    }

    /**
     * The inner loop of the breadth-first traversal: every neighbour of `v`
     * that is not yet marked is marked and appended to the queue, in the
     * order of `v`'s edge list.
     */
    method EnqueueNeighbours(ghost start: Vertex, v: Vertex, visited0: set<Vertex>, queue0: seq<Vertex>,
                             ghost path: seq<Vertex>)
      returns (visited: set<Vertex>, queue: seq<Vertex>)
      requires Valid() && v in visited0 && visited0 <= adj.Keys
      requires forall x :: x in visited0 <==> x in path || x in queue0
      requires Distinct(path + queue0)
      requires forall x :: x in visited0 ==> Reachable(adj, start, x)
      ensures visited0 <= visited <= adj.Keys
      ensures queue0 <= queue && (visited == visited0 ==> queue == queue0)
      ensures forall x :: x in visited <==> x in path || x in queue
      ensures Distinct(path + queue)
      ensures forall x :: x in visited ==> Reachable(adj, start, x)
      ensures forall j :: 0 <= j < |EdgesOf(adj, v)| ==> EdgesOf(adj, v)[j].0 in visited
    {
      visited, queue := visited0, queue0;
      var edges := EdgesOf(adj, v);
      var i := 0;
      while i < |edges|
        invariant i <= |edges|
        invariant visited0 <= visited <= adj.Keys
        invariant queue0 <= queue && (visited == visited0 ==> queue == queue0)
        invariant forall x :: x in visited <==> x in path || x in queue
        invariant Distinct(path + queue)
        invariant forall x :: x in visited ==> Reachable(adj, start, x)
        invariant forall j :: 0 <= j < i ==> edges[j].0 in visited
      {
        var u := edges[i].0;
        if u !in visited {
          ReachableStep(adj, start, v, i);
          DistinctAppend(path + queue, u);
          assert (path + queue) + [u] == path + (queue + [u]);
          visited := visited + {u};
          queue := queue + [u];
        }
        i := i + 1;
      }
    }
  }
}
