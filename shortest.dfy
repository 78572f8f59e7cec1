/**
 * The vocabulary and the invariant of the shortest-path search: tentative
 * distances, the priority queue of (cost, vertex) entries, the predecessor
 * map, and the facts that make a popped minimum final.
 */
module ShortestPaths {
  import opened Walks

  /** A tentative distance: unbounded (a float infinity) or a finite cost. */
  datatype Dist = Inf | Fin(n: nat)

  /** `c > d` as floats compare: no cost exceeds infinity. */
  predicate Exceeds(c: nat, d: Dist)
  {
    d.Fin? && c > d.n
  }

  /** `c < d` as floats compare: every cost improves on infinity. */
  predicate Improves(c: nat, d: Dist)
  {
    d.Inf? || c < d.n
  }

  /** A priority-queue entry: the cost at which a vertex was pushed. */
  type Entry = (nat, Vertex)

  /** `e` is an entry of least cost in `Q`: one the heap may pop. */
  predicate IsMin(Q: multiset<Entry>, e: Entry)
  {
    e in Q && forall f | f in Q :: e.0 <= f.0
  }

  lemma {:induction false} MinExists(Q: multiset<Entry>)
    requires Q != multiset{}
    ensures exists e :: IsMin(Q, e)
    decreases |Q|
  {
    var x :| x in Q;
    var R := Q - multiset{x};
    assert forall f :: f in Q ==> f == x || f in R by {
      forall f | f in Q && f != x ensures f in R {
      }
    }
    if R == multiset{} {
      assert IsMin(Q, x);
    } else {
      MinExists(R);
      var m :| IsMin(R, m);
      if x.0 < m.0 {
        assert IsMin(Q, x);
      } else {
        assert IsMin(Q, m);
      }
    }
  }

  // ---------------------------------------------------------------------
  // Predecessors and the path they spell
  // ---------------------------------------------------------------------

  /**
   * Settled vertices are numbered in the order they were settled, and each
   * predecessor is a settled vertex settled before its successor: the
   * predecessor chains have no cycles.
   */
  ghost predicate Acyclic(P: map<Vertex, Vertex>, Done: set<Vertex>, rank: map<Vertex, nat>)
  {
    && rank.Keys == Done
    && (forall v :: v in rank ==> rank[v] < |Done|)
    && (forall v :: v in P ==> P[v] in Done)
    && (forall v :: v in P && v in Done ==> rank[P[v]] < rank[v])
  }

  /** The position of `v` in the settling order; unsettled vertices come last. */
  ghost function Rank(Done: set<Vertex>, rank: map<Vertex, nat>, v: Vertex): nat
  {
    if v in rank then rank[v] else |Done|
  }

  /**
   * The path the reconstruction loop spells: follow predecessors back from
   * `v` and put `s` in front of the vertex that has none.
   */
  ghost function Rebuilt(s: Vertex, P: map<Vertex, Vertex>, Done: set<Vertex>, rank: map<Vertex, nat>,
                         v: Vertex): (p: seq<Vertex>)
    requires Acyclic(P, Done, rank)
    ensures |p| >= 1 && p[0] == s
    ensures v in P ==> p[|p| - 1] == v
    ensures v !in P ==> p == [s]
    decreases Rank(Done, rank, v)
  {
    if v in P then Rebuilt(s, P, Done, rank, P[v]) + [v] else [s]
  }

  /** `u` is finite and some edge from `u` to `v` explains `v`'s distance. */
  ghost predicate PredEdge(adj: Adjacency, D: map<Vertex, Dist>, u: Vertex, v: Vertex)
  {
    && u in D && v in D && D[u].Fin? && D[v].Fin?
    && exists w :: (v, w) in EdgesOf(adj, u) && D[u].n + w <= D[v].n
  }

  /**
   * Predecessors: only finite vertices other than `s` have one, every
   * finite vertex other than `s` has one, and it is a settled vertex whose
   * distance plus an edge accounts for the successor's.
   */
  ghost predicate PredOk(adj: Adjacency, s: Vertex, D: map<Vertex, Dist>, P: map<Vertex, Vertex>,
                         Done: set<Vertex>, rank: map<Vertex, nat>)
  {
    && Acyclic(P, Done, rank)
    && s !in P
    && (forall v :: v in P ==> PredEdge(adj, D, P[v], v))
    && (forall v :: v in D && D[v].Fin? && v !in P ==> v == s)
  }

  // ---------------------------------------------------------------------
  // The loop invariant
  // ---------------------------------------------------------------------

  /**
   * Everything the main loop keeps except the relaxation of settled
   * vertices' edges: `s` is at distance 0; each queue entry is no cheaper
   * than its vertex's distance; settled vertices are finite and optimal;
   * every finite unsettled vertex is queued at its distance; predecessors
   * are as `PredOk` says.
   */
  ghost predicate Core(adj: Adjacency, s: Vertex, D: map<Vertex, Dist>, P: map<Vertex, Vertex>,
                       Q: multiset<Entry>, Done: set<Vertex>, rank: map<Vertex, nat>)
  {
    && Closed(adj) && s in adj
    && D.Keys == adj.Keys && D[s] == Fin(0)
    && QueueSound(D, Q)
    && Done <= D.Keys
    && SettledOptimal(adj, s, D, Done)
    && QueueCovers(D, Q, Done)
    && PredOk(adj, s, D, P, Done, rank)
  }

  /** Each queue entry is no cheaper than its vertex's (finite) distance. */
  ghost predicate QueueSound(D: map<Vertex, Dist>, Q: multiset<Entry>)
  {
    forall e :: e in Q ==> e.1 in D && D[e.1].Fin? && D[e.1].n <= e.0
  }

  /** Settled vertices are finite and optimal. */
  ghost predicate SettledOptimal(adj: Adjacency, s: Vertex, D: map<Vertex, Dist>, Done: set<Vertex>)
  {
    forall u :: u in Done ==> u in D && D[u].Fin? && Optimal(adj, s, u, D[u].n)
  }

  /** Every finite unsettled vertex is queued at its distance. */
  ghost predicate QueueCovers(D: map<Vertex, Dist>, Q: multiset<Entry>, Done: set<Vertex>)
  {
    forall v :: v in D && D[v].Fin? && v !in Done ==> (D[v].n, v) in Q
  }

  /** The edge `e` leaving `u` offers nothing cheaper than what `D` has. */
  ghost predicate Relaxed(D: map<Vertex, Dist>, u: Vertex, e: Edge)
  {
    u in D && D[u].Fin? && e.0 in D && D[e.0].Fin? && D[e.0].n <= D[u].n + e.1
  }

  /** Every edge of every settled vertex is relaxed. */
  ghost predicate AllRelaxed(adj: Adjacency, D: map<Vertex, Dist>, Done: set<Vertex>)
  {
    forall x, i :: x in Done && 0 <= i < |EdgesOf(adj, x)| ==> Relaxed(D, x, EdgesOf(adj, x)[i])
  }

  /** As `AllRelaxed`, except that of `u`'s edges only the first `k` are. */
  ghost predicate RelaxedExcept(adj: Adjacency, D: map<Vertex, Dist>, Done: set<Vertex>, u: Vertex, k: nat)
  {
    && (forall x, i :: x in Done && x != u && 0 <= i < |EdgesOf(adj, x)| ==> Relaxed(D, x, EdgesOf(adj, x)[i]))
    && (forall i :: 0 <= i < k && i < |EdgesOf(adj, u)| ==> Relaxed(D, u, EdgesOf(adj, u)[i]))
  }

  /** The main loop's invariant. */
  ghost predicate Inv(adj: Adjacency, s: Vertex, D: map<Vertex, Dist>, P: map<Vertex, Vertex>,
                      Q: multiset<Entry>, Done: set<Vertex>, rank: map<Vertex, nat>)
  {
    Core(adj, s, D, P, Q, Done, rank) && AllRelaxed(adj, D, Done)
  }

  // ---------------------------------------------------------------------
  // Lemmas
  // ---------------------------------------------------------------------

  /** The state before the loop: `s` queued at 0, everything else infinite. */
  lemma InitialInv(adj: Adjacency, s: Vertex, D: map<Vertex, Dist>)
    requires Closed(adj) && s in adj
    requires D.Keys == adj.Keys && D[s] == Fin(0) && forall v :: v in D && v != s ==> D[v] == Inf
    ensures Inv(adj, s, D, map[], multiset{(0, s)}, {}, map[])
  {
  }

  /**
   * The path the predecessors spell for a finite vertex is a weighted walk
   * from `s` to it costing no more than its distance.
   */
  lemma {:induction false} PredWalk(adj: Adjacency, s: Vertex, D: map<Vertex, Dist>, P: map<Vertex, Vertex>,
                                    Done: set<Vertex>, rank: map<Vertex, nat>, v: Vertex)
    returns (ws: seq<nat>)
    requires PredOk(adj, s, D, P, Done, rank) && s in D && D[s] == Fin(0)
    requires v in D && D[v].Fin?
    ensures IsWeightedWalk(adj, Rebuilt(s, P, Done, rank, v), ws)
    ensures Rebuilt(s, P, Done, rank, v)[|Rebuilt(s, P, Done, rank, v)| - 1] == v
    ensures Sum(ws) <= D[v].n
    decreases Rank(Done, rank, v)
  {
    if v in P {
      var u := P[v];
      assert PredEdge(adj, D, u, v);
      var vs := PredWalk(adj, s, D, P, Done, rank, u);
      var w :| (v, w) in EdgesOf(adj, u) && D[u].n + w <= D[v].n;
      WeightedWalkExtend(adj, Rebuilt(s, P, Done, rank, u), vs, v, w);
      ws := vs + [w];
    } else {
      ws := [];
    }
  }

  /**
   * Every weighted walk from `s` is bounded below by something the search
   * still holds: a queue entry no dearer than the walk, or a settled last
   * vertex whose distance is no dearer.
   */
  lemma {:induction false} WalkBound(adj: Adjacency, s: Vertex, D: map<Vertex, Dist>, P: map<Vertex, Vertex>,
                                     Q: multiset<Entry>, Done: set<Vertex>, rank: map<Vertex, nat>,
                                     p: seq<Vertex>, ws: seq<nat>)
    requires Inv(adj, s, D, P, Q, Done, rank)
    requires IsWeightedWalk(adj, p, ws) && p[0] == s
    ensures (exists e :: e in Q && e.0 <= Sum(ws))
            || (p[|p| - 1] in Done && D[p[|p| - 1]].n <= Sum(ws))
    decreases |p|
  {
    if |p| == 1 {
      if s !in Done {
        assert (0, s) in Q;
      }
    } else {
      WeightedWalkPrefix(adj, p, ws);
      var q, vs := p[..|p| - 1], ws[..|ws| - 1];
      WalkBound(adj, s, D, P, Q, Done, rank, q, vs);
      var x, y, w := q[|q| - 1], p[|p| - 1], ws[|ws| - 1];
      if x in Done && D[x].n <= Sum(vs) {
        var i :| 0 <= i < |EdgesOf(adj, x)| && EdgesOf(adj, x)[i] == (y, w);
        assert Relaxed(D, x, EdgesOf(adj, x)[i]);
        if y !in Done {
          assert (D[y].n, y) in Q;
        }
      }
    }
  }

  /** A queued entry names a vertex whose finite distance is no dearer than the entry. */
  lemma Popped(adj: Adjacency, s: Vertex, D: map<Vertex, Dist>, P: map<Vertex, Vertex>,
               Q: multiset<Entry>, Done: set<Vertex>, rank: map<Vertex, nat>, e: Entry)
    requires Inv(adj, s, D, P, Q, Done, rank) && e in Q
    ensures e.1 in D && e.1 in adj && D[e.1].Fin? && D[e.1].n <= e.0
  {
  }

  /**
   * A popped minimum that is not stale carries its vertex's distance, and
   * that distance is optimal.
   */
  lemma PopOptimal(adj: Adjacency, s: Vertex, D: map<Vertex, Dist>, P: map<Vertex, Vertex>,
                   Q: multiset<Entry>, Done: set<Vertex>, rank: map<Vertex, nat>, c: nat, u: Vertex)
    requires Inv(adj, s, D, P, Q, Done, rank) && IsMin(Q, (c, u))
    requires u in D && !Exceeds(c, D[u])
    ensures D[u] == Fin(c) && Optimal(adj, s, u, c)
  {
    forall p, ws | IsWeightedWalk(adj, p, ws) && p[0] == s && p[|p| - 1] == u
      ensures c <= Sum(ws)
    {
      WalkBound(adj, s, D, P, Q, Done, rank, p, ws);
    }
  }

  /** A stale entry, or one for a settled vertex, can leave the queue. */
  lemma DropEntry(adj: Adjacency, s: Vertex, D: map<Vertex, Dist>, P: map<Vertex, Vertex>,
                  Q: multiset<Entry>, Done: set<Vertex>, rank: map<Vertex, nat>, e: Entry)
    requires Inv(adj, s, D, P, Q, Done, rank) && e in Q
    requires e.1 in Done || Exceeds(e.0, D[e.1])
    ensures Inv(adj, s, D, P, Q - multiset{e}, Done, rank)
  {
    var R := Q - multiset{e};
    forall v | v in D && D[v].Fin? && v !in Done ensures (D[v].n, v) in R {
      assert (D[v].n, v) != e;
    }
  }

  /**
   * Settling the popped minimum `u`: its distance is final, it joins the
   * settled set with the next number, and its edges are not yet relaxed.
   */
  lemma Settle(adj: Adjacency, s: Vertex, D: map<Vertex, Dist>, P: map<Vertex, Vertex>,
               Q: multiset<Entry>, Done: set<Vertex>, rank: map<Vertex, nat>, c: nat, u: Vertex)
    requires Inv(adj, s, D, P, Q, Done, rank) && IsMin(Q, (c, u))
    requires D[u] == Fin(c) && u !in Done
    ensures Core(adj, s, D, P, Q - multiset{(c, u)}, Done + {u}, rank[u := |Done|])
    ensures RelaxedExcept(adj, D, Done + {u}, u, 0)
  {
    PopOptimal(adj, s, D, P, Q, Done, rank, c, u);
    var R, Done', rank' := Q - multiset{(c, u)}, Done + {u}, rank[u := |Done|];
    forall v | v in D && D[v].Fin? && v !in Done' ensures (D[v].n, v) in R {
      assert (D[v].n, v) != (c, u);
    }
    SettleAcyclic(P, Done, rank, u);
    assert PredOk(adj, s, D, P, Done', rank');
    assert forall e :: e in R ==> e.1 in D && D[e.1].Fin? && D[e.1].n <= e.0;
    assert forall v :: v in Done' ==> D[v].Fin? && Optimal(adj, s, v, D[v].n);
    assert Core(adj, s, D, P, R, Done', rank');
  }

  /** Numbering a newly settled vertex last keeps predecessor chains ordered. */
  lemma SettleAcyclic(P: map<Vertex, Vertex>, Done: set<Vertex>, rank: map<Vertex, nat>, u: Vertex)
    requires Acyclic(P, Done, rank) && u !in Done
    ensures Acyclic(P, Done + {u}, rank[u := |Done|])
  {
    assert |Done + {u}| == |Done| + 1;
  }

  /** Relaxing an edge that offers nothing cheaper changes nothing. */
  lemma RelaxSkips(adj: Adjacency, s: Vertex, D: map<Vertex, Dist>, P: map<Vertex, Vertex>,
                   Q: multiset<Entry>, Done: set<Vertex>, rank: map<Vertex, nat>, u: Vertex, k: nat)
    requires Core(adj, s, D, P, Q, Done, rank) && RelaxedExcept(adj, D, Done, u, k)
    requires u in Done && k < |EdgesOf(adj, u)|
    requires !Improves(D[u].n + EdgesOf(adj, u)[k].1, D[EdgesOf(adj, u)[k].0])
    ensures RelaxedExcept(adj, D, Done, u, k + 1)
  {
  }

  /**
   * An edge that improves its target's distance never leads to a settled
   * vertex: the predecessor path to `u` and the edge would be a walk
   * cheaper than that vertex's optimal distance.
   */
  lemma ImprovedNotDone(adj: Adjacency, s: Vertex, D: map<Vertex, Dist>, P: map<Vertex, Vertex>,
                        Q: multiset<Entry>, Done: set<Vertex>, rank: map<Vertex, nat>, u: Vertex, k: nat)
    requires Core(adj, s, D, P, Q, Done, rank)
    requires u in Done && k < |EdgesOf(adj, u)|
    requires Improves(D[u].n + EdgesOf(adj, u)[k].1, D[EdgesOf(adj, u)[k].0])
    ensures EdgesOf(adj, u)[k].0 !in Done
  {
    var x, w := EdgesOf(adj, u)[k].0, EdgesOf(adj, u)[k].1;
    if x in Done {
      assert D[u].Fin?;
      var p := Rebuilt(s, P, Done, rank, u);
      var ws := PredWalk(adj, s, D, P, Done, rank, u);
      assert EdgesOf(adj, u)[k] == (x, w);
      WeightedWalkExtend(adj, p, ws, x, w);
      var q, vs := p + [x], ws + [w];
      assert q[0] == s && q[|q| - 1] == x;
      OptimalBelow(adj, s, x, D[x].n, q, vs);
      assert false;
    }
  }

  /** Lowering one unsettled vertex's distance keeps settled edges relaxed. */
  lemma RelaxKeepsRelaxed(adj: Adjacency, D: map<Vertex, Dist>, Done: set<Vertex>, u: Vertex, k: nat,
                          x: Vertex, w: nat, c: nat)
    requires RelaxedExcept(adj, D, Done, u, k)
    requires u in D && D[u].Fin? && x in D && x != u && x !in Done
    requires k < |EdgesOf(adj, u)| && EdgesOf(adj, u)[k] == (x, w)
    requires c == D[u].n + w && Improves(c, D[x])
    ensures RelaxedExcept(adj, D[x := Fin(c)], Done, u, k + 1)
  {
    var D' := D[x := Fin(c)];
    forall y, i | y in Done && y != u && 0 <= i < |EdgesOf(adj, y)|
      ensures Relaxed(D', y, EdgesOf(adj, y)[i])
    {
      assert Relaxed(D, y, EdgesOf(adj, y)[i]);
    }
    forall i | 0 <= i < k + 1 && i < |EdgesOf(adj, u)| ensures Relaxed(D', u, EdgesOf(adj, u)[i]) {
      if i < k {
        assert Relaxed(D, u, EdgesOf(adj, u)[i]);
      }
    }
  }

  /** Lowering an unsettled vertex's distance through a settled `u` keeps the predecessors right. */
  lemma RelaxKeepsPredOk(adj: Adjacency, s: Vertex, D: map<Vertex, Dist>, P: map<Vertex, Vertex>,
                         Done: set<Vertex>, rank: map<Vertex, nat>, u: Vertex, x: Vertex, w: nat, c: nat)
    requires PredOk(adj, s, D, P, Done, rank) && s in D && D[s] == Fin(0)
    requires u in Done && u in D && D[u].Fin? && x in D && x !in Done
    requires (x, w) in EdgesOf(adj, u) && c == D[u].n + w && Improves(c, D[x])
    ensures PredOk(adj, s, D[x := Fin(c)], P[x := u], Done, rank)
  {
    var D', P' := D[x := Fin(c)], P[x := u];
    assert x != s && x != u;
    assert PredEdge(adj, D', u, x);
    forall v | v in P' ensures PredEdge(adj, D', P'[v], v) {
      if v != x {
        assert PredEdge(adj, D, P[v], v);
        var w' :| (v, w') in EdgesOf(adj, P[v]) && D[P[v]].n + w' <= D[v].n;
        assert P[v] != x;
      }
    }
  }

  /** Lowering an unsettled vertex's distance and queueing it keeps the queue facts. */
  lemma RelaxKeepsQueue(D: map<Vertex, Dist>, Q: multiset<Entry>, Done: set<Vertex>, x: Vertex, c: nat)
    requires QueueSound(D, Q) && QueueCovers(D, Q, Done)
    requires x in D && Improves(c, D[x])
    ensures QueueSound(D[x := Fin(c)], Q + multiset{(c, x)})
    ensures QueueCovers(D[x := Fin(c)], Q + multiset{(c, x)}, Done)
  {
    var D', Q' := D[x := Fin(c)], Q + multiset{(c, x)};
    forall e | e in Q' ensures e.1 in D' && D'[e.1].Fin? && D'[e.1].n <= e.0 {
      if e != (c, x) {
        assert e in Q;
      }
    }
    forall v | v in D' && D'[v].Fin? && v !in Done ensures (D'[v].n, v) in Q' {
      if v != x {
        assert (D[v].n, v) in Q;
      }
    }
  }

  /** Changing an unsettled vertex's distance leaves the settled ones optimal. */
  lemma RelaxKeepsSettled(adj: Adjacency, s: Vertex, D: map<Vertex, Dist>, Done: set<Vertex>, x: Vertex, c: nat)
    requires SettledOptimal(adj, s, D, Done) && x !in Done
    ensures SettledOptimal(adj, s, D[x := Fin(c)], Done)
  {
    assert forall v :: v in Done ==> D[x := Fin(c)][v] == D[v];
  }

  /**
   * Relaxing an edge that improves its target: the target gets the new
   * distance, `u` as predecessor, and a queue entry at that distance.
   */
  lemma RelaxImproves(adj: Adjacency, s: Vertex, D: map<Vertex, Dist>, P: map<Vertex, Vertex>,
                      Q: multiset<Entry>, Done: set<Vertex>, rank: map<Vertex, nat>, u: Vertex, k: nat,
                      x: Vertex, w: nat, c: nat)
    requires Core(adj, s, D, P, Q, Done, rank) && RelaxedExcept(adj, D, Done, u, k)
    requires u in Done && k < |EdgesOf(adj, u)| && EdgesOf(adj, u)[k] == (x, w)
    requires c == D[u].n + w && Improves(c, D[x])
    ensures x != u
    ensures Core(adj, s, D[x := Fin(c)], P[x := u], Q + multiset{(c, x)}, Done, rank)
    ensures RelaxedExcept(adj, D[x := Fin(c)], Done, u, k + 1)
  {
    ImprovedNotDone(adj, s, D, P, Q, Done, rank, u, k);
    var D', P', Q' := D[x := Fin(c)], P[x := u], Q + multiset{(c, x)};
    assert x != u && x in D;
    RelaxKeepsRelaxed(adj, D, Done, u, k, x, w, c);
    RelaxKeepsPredOk(adj, s, D, P, Done, rank, u, x, w, c);
    RelaxKeepsQueue(D, Q, Done, x, c);
    RelaxKeepsSettled(adj, s, D, Done, x, c);
  }

  /** Once every edge of `u` has been compared, the loop invariant gives back `Inv`. */
  lemma RelaxLoopEnd(adj: Adjacency, s: Vertex, D: map<Vertex, Dist>, P: map<Vertex, Vertex>,
                     Q: multiset<Entry>, Done: set<Vertex>, rank: map<Vertex, nat>, u: Vertex, c: nat,
                     D0: map<Vertex, Dist>, P0: map<Vertex, Vertex>, Q0: multiset<Entry>)
    requires RelaxLoop(adj, s, D, P, Q, Done, rank, u, c, |EdgesOf(adj, u)|, D0, P0, Q0)
    ensures Inv(adj, s, D, P, Q, Done, rank)
    ensures AllRelaxed(adj, D0, Done) ==> D == D0 && P == P0 && Q == Q0
  {
  }

  /**
   * When the queue runs dry every finite distance is optimal, and a vertex
   * left at infinity cannot be reached.
   */
  lemma EmptyQueueDecides(adj: Adjacency, s: Vertex, D: map<Vertex, Dist>, P: map<Vertex, Vertex>,
                          Done: set<Vertex>, rank: map<Vertex, nat>, t: Vertex)
    requires Inv(adj, s, D, P, multiset{}, Done, rank) && t in adj
    ensures D[t].Fin? ==> Optimal(adj, s, t, D[t].n)
    ensures D[t].Inf? ==> !Reachable(adj, s, t)
  {
    if D[t].Fin? {
      assert t in Done;
    }
    if Reachable(adj, s, t) {
      ReachableIffWeightedWalk(adj, s, t);
      var p, ws :| IsWeightedWalk(adj, p, ws) && p[0] == s && p[|p| - 1] == t;
      WalkBound(adj, s, D, P, multiset{}, Done, rank, p, ws);
    }
  }

  /**
   * What the search returns: infinity and no path when an endpoint is
   * missing; otherwise a path from `s`, which is just `[s]` with infinity
   * exactly when `t` is unreachable, and which is otherwise a walk ending
   * at `t` whose weight is the returned cost and no more than any walk's.
   */
  ghost predicate ShortestPathPost(adj: Adjacency, s: Vertex, t: Vertex, cost: Dist, path: seq<Vertex>)
  {
    && (s !in adj || t !in adj ==> cost == Inf && path == [])
    && (s in adj && t in adj ==>
          && |path| >= 1 && path[0] == s
          && (cost.Inf? <==> !Reachable(adj, s, t))
          && (cost.Inf? ==> path == [s])
          && (cost.Fin? ==>
                && path[|path| - 1] == t
                && (exists ws :: IsWeightedWalk(adj, path, ws) && Sum(ws) == cost.n)
                && Optimal(adj, s, t, cost.n)))
  }

  /**
   * With the distance of `t` decided, the path the predecessors spell and
   * that distance are what the search promises.
   */
  lemma Conclude(adj: Adjacency, s: Vertex, t: Vertex, D: map<Vertex, Dist>, P: map<Vertex, Vertex>,
                 Done: set<Vertex>, rank: map<Vertex, nat>)
    requires PredOk(adj, s, D, P, Done, rank) && s in adj && t in adj
    requires D.Keys == adj.Keys && D[s] == Fin(0)
    requires D[t].Fin? ==> Optimal(adj, s, t, D[t].n)
    requires D[t].Inf? ==> !Reachable(adj, s, t)
    ensures ShortestPathPost(adj, s, t, D[t], Rebuilt(s, P, Done, rank, t))
  {
    var path := Rebuilt(s, P, Done, rank, t);
    if D[t].Fin? {
      var ws := PredWalk(adj, s, D, P, Done, rank, t);
      OptimalBelow(adj, s, t, D[t].n, path, ws);
      WeightedWalkIsWalk(adj, path, ws);
      assert Reachable(adj, s, t);
    }
  }

  /** An edge already relaxed offers no improvement. */
  lemma RelaxedBlocksImprove(adj: Adjacency, D: map<Vertex, Dist>, Done: set<Vertex>, u: Vertex, k: nat)
    requires AllRelaxed(adj, D, Done) && u in Done && u in D && k < |EdgesOf(adj, u)|
    ensures D[u].Fin? && EdgesOf(adj, u)[k].0 in D
    ensures !Improves(D[u].n + EdgesOf(adj, u)[k].1, D[EdgesOf(adj, u)[k].0])
  {
    assert Relaxed(D, u, EdgesOf(adj, u)[k]);
  }

  /**
   * The invariant of the relaxation loop over `u`'s edges: the main
   * invariant holds except for `u`'s edges from the `k`-th on, `u` keeps
   * distance `c`, and nothing has changed if everything was relaxed to
   * begin with.
   */
  ghost predicate RelaxLoop(adj: Adjacency, s: Vertex, D: map<Vertex, Dist>, P: map<Vertex, Vertex>,
                            Q: multiset<Entry>, Done: set<Vertex>, rank: map<Vertex, nat>, u: Vertex, c: nat,
                            k: nat, D0: map<Vertex, Dist>, P0: map<Vertex, Vertex>, Q0: multiset<Entry>)
  {
    && Core(adj, s, D, P, Q, Done, rank) && RelaxedExcept(adj, D, Done, u, k)
    && u in Done && u in D && D[u] == Fin(c)
    && (AllRelaxed(adj, D0, Done) ==> D == D0 && P == P0 && Q == Q0)
  }

  /** The edge the relaxation loop looks at next leads to a vertex with a distance. */
  lemma RelaxTarget(adj: Adjacency, s: Vertex, D: map<Vertex, Dist>, P: map<Vertex, Vertex>,
                    Q: multiset<Entry>, Done: set<Vertex>, rank: map<Vertex, nat>, u: Vertex, c: nat,
                    k: nat, D0: map<Vertex, Dist>, P0: map<Vertex, Vertex>, Q0: multiset<Entry>)
    requires RelaxLoop(adj, s, D, P, Q, Done, rank, u, c, k, D0, P0, Q0)
    requires k < |EdgesOf(adj, u)|
    ensures EdgesOf(adj, u)[k].0 in D
  {
  }

  /**
   * One step of the relaxation loop: the state after comparing `c + w`
   * with the distance of `x`, for either outcome, keeps the loop invariant.
   */
  lemma RelaxStep(adj: Adjacency, s: Vertex, D: map<Vertex, Dist>, P: map<Vertex, Vertex>,
                  Q: multiset<Entry>, Done: set<Vertex>, rank: map<Vertex, nat>, u: Vertex, c: nat,
                  k: nat, D0: map<Vertex, Dist>, P0: map<Vertex, Vertex>, Q0: multiset<Entry>,
                  x: Vertex, w: nat, D': map<Vertex, Dist>, P': map<Vertex, Vertex>, Q': multiset<Entry>)
    requires RelaxLoop(adj, s, D, P, Q, Done, rank, u, c, k, D0, P0, Q0)
    requires k < |EdgesOf(adj, u)| && EdgesOf(adj, u)[k] == (x, w) && x in D
    requires Improves(c + w, D[x]) ==> D' == D[x := Fin(c + w)] && P' == P[x := u] && Q' == Q + multiset{(c + w, x)}
    requires !Improves(c + w, D[x]) ==> D' == D && P' == P && Q' == Q
    ensures RelaxLoop(adj, s, D', P', Q', Done, rank, u, c, k + 1, D0, P0, Q0)
  {
    if AllRelaxed(adj, D0, Done) {
      RelaxedBlocksImprove(adj, D0, Done, u, k);
    }
    if Improves(c + w, D[x]) {
      RelaxImproves(adj, s, D, P, Q, Done, rank, u, k, x, w, c + w);
    } else {
      RelaxSkips(adj, s, D, P, Q, Done, rank, u, k);
    }
  }
}
