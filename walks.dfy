/**
 * Adjacency lists and walks over them: the vocabulary in which the graph
 * traversals and the shortest-path search are specified.
 */
module Walks {

  /** Vertices are labels (neighbourhood names). */
  type Vertex = string

  /** An adjacency entry: the neighbour and the weight of the edge to it. */
  type Edge = (Vertex, nat)

  /** Each vertex's list of outgoing edges, in the order they were added. */
  type Adjacency = map<Vertex, seq<Edge>>

  /** The edge list of `v`, empty for a vertex that is not in the map. */
  function EdgesOf(adj: Adjacency, v: Vertex): seq<Edge>
  {
    if v in adj then adj[v] else []
  }

  /** Every edge leads to a vertex of the map. */
  ghost predicate Closed(adj: Adjacency)
  {
    forall v, i :: v in adj && 0 <= i < |adj[v]| ==> adj[v][i].0 in adj
  }

  /** There is an edge from `u` to `x`. */
  ghost predicate IsEdge(adj: Adjacency, u: Vertex, x: Vertex)
  {
    exists i :: 0 <= i < |EdgesOf(adj, u)| && EdgesOf(adj, u)[i].0 == x
  }

  /** A non-empty vertex sequence in which each vertex has an edge to the next. */
  ghost predicate IsWalk(adj: Adjacency, p: seq<Vertex>)
  {
    |p| >= 1 && forall i :: 0 <= i < |p| - 1 ==> IsEdge(adj, p[i], p[i + 1])
  }

  /** Some walk leads from `s` to `v`. */
  ghost predicate Reachable(adj: Adjacency, s: Vertex, v: Vertex)
  {
    exists p :: IsWalk(adj, p) && p[0] == s && p[|p| - 1] == v
  }

  /** Every edge leaving a vertex of `S` leads back into `S`. */
  ghost predicate ClosedUnderEdges(adj: Adjacency, S: set<Vertex>)
  {
    forall x, i :: x in S && 0 <= i < |EdgesOf(adj, x)| ==> EdgesOf(adj, x)[i].0 in S
  }

  ghost predicate Distinct<T>(s: seq<T>)
  {
    forall i, j :: 0 <= i < j < |s| ==> s[i] != s[j]
  }

  /** Every vertex reaches itself. */
  lemma ReachableSelf(adj: Adjacency, s: Vertex)
    ensures Reachable(adj, s, s)
  {
    assert IsWalk(adj, [s]);
  }

  /** Reachability extends along an edge. */
  lemma ReachableStep(adj: Adjacency, s: Vertex, u: Vertex, i: nat)
    requires Reachable(adj, s, u) && i < |EdgesOf(adj, u)|
    ensures Reachable(adj, s, EdgesOf(adj, u)[i].0)
  {
    var p :| IsWalk(adj, p) && p[0] == s && p[|p| - 1] == u;
    var x := EdgesOf(adj, u)[i].0;
    var q := p + [x];
    assert IsEdge(adj, u, x);
    forall j | 0 <= j < |q| - 1 ensures IsEdge(adj, q[j], q[j + 1]) {
      if j < |p| - 1 {
        assert q[j] == p[j] && q[j + 1] == p[j + 1];
      }
    }
    assert IsWalk(adj, q);
  }

  /**
   * A set that contains `s` and that no edge leaves holds every vertex
   * reachable from `s`.
   */
  lemma ClosedSetHoldsReachable(adj: Adjacency, S: set<Vertex>, s: Vertex, v: Vertex)
    requires s in S && ClosedUnderEdges(adj, S) && Reachable(adj, s, v)
    ensures v in S
  {
    var p :| IsWalk(adj, p) && p[0] == s && p[|p| - 1] == v;
    WalkStaysInside(adj, S, p, |p| - 1);
  }

  lemma {:induction false} WalkStaysInside(adj: Adjacency, S: set<Vertex>, p: seq<Vertex>, k: nat)
    requires IsWalk(adj, p) && p[0] in S && ClosedUnderEdges(adj, S) && k < |p|
    ensures p[k] in S
  {
    if k > 0 {
      WalkStaysInside(adj, S, p, k - 1);
      assert IsEdge(adj, p[k - 1], p[k]);
      var i :| 0 <= i < |EdgesOf(adj, p[k - 1])| && EdgesOf(adj, p[k - 1])[i].0 == p[k];
    }
  }

  /** Appending an element that is not already there keeps a sequence duplicate-free. */
  lemma DistinctAppend<T>(s: seq<T>, x: T)
    requires Distinct(s) && x !in s
    ensures Distinct(s + [x])
  {
    var t := s + [x];
    forall i, j | 0 <= i < j < |t| ensures t[i] != t[j] {
      if j < |s| {
        assert t[i] == s[i] && t[j] == s[j];
      } else {
        assert t[i] == s[i];
      }
    }
  }

  // ---------------------------------------------------------------------
  // Weighted walks
  // ---------------------------------------------------------------------

  /** The sum of a sequence of weights. */
  function Sum(ws: seq<nat>): nat
  {
    if ws == [] then 0 else Sum(ws[..|ws| - 1]) + ws[|ws| - 1]
  }

  /**
   * `p` is a walk and `ws` names, for each step, the weight of an edge that
   * the adjacency list really holds for that step (parallel edges may have
   * different weights).
   */
  ghost predicate IsWeightedWalk(adj: Adjacency, p: seq<Vertex>, ws: seq<nat>)
  {
    && |p| >= 1 && |ws| == |p| - 1
    && forall i :: 0 <= i < |ws| ==> (p[i + 1], ws[i]) in EdgesOf(adj, p[i])
  }

  /** No walk from `s` to `v` weighs less than `d`. */
  ghost predicate Optimal(adj: Adjacency, s: Vertex, v: Vertex, d: nat)
  {
    forall p, ws :: IsWeightedWalk(adj, p, ws) && p[0] == s && p[|p| - 1] == v ==> d <= Sum(ws)
  }

  /** A weighted walk extends by an edge leaving its last vertex. */
  lemma WeightedWalkExtend(adj: Adjacency, p: seq<Vertex>, ws: seq<nat>, x: Vertex, w: nat)
    requires IsWeightedWalk(adj, p, ws) && (x, w) in EdgesOf(adj, p[|p| - 1])
    ensures IsWeightedWalk(adj, p + [x], ws + [w]) && Sum(ws + [w]) == Sum(ws) + w
  {
    var q, vs := p + [x], ws + [w];
    assert vs[..|vs| - 1] == ws;
    forall i | 0 <= i < |vs| ensures (q[i + 1], vs[i]) in EdgesOf(adj, q[i]) {
      if i < |ws| {
        assert q[i] == p[i] && q[i + 1] == p[i + 1] && vs[i] == ws[i];
      }
    }
  }

  /** A weighted walk is a walk. */
  lemma WeightedWalkIsWalk(adj: Adjacency, p: seq<Vertex>, ws: seq<nat>)
    requires IsWeightedWalk(adj, p, ws)
    ensures IsWalk(adj, p)
  {
    forall i | 0 <= i < |p| - 1 ensures IsEdge(adj, p[i], p[i + 1]) {
      var e := (p[i + 1], ws[i]);
      assert e in EdgesOf(adj, p[i]);
      var j :| 0 <= j < |EdgesOf(adj, p[i])| && EdgesOf(adj, p[i])[j] == e;
    }
  }

  /** Every walk can be weighted by the edges it follows. */
  lemma {:induction false} WalkHasWeights(adj: Adjacency, p: seq<Vertex>) returns (ws: seq<nat>)
    requires IsWalk(adj, p)
    ensures IsWeightedWalk(adj, p, ws)
  {
    if |p| == 1 {
      ws := [];
    } else {
      var q := p[..|p| - 1];
      assert IsWalk(adj, q) by {
        forall i | 0 <= i < |q| - 1 ensures IsEdge(adj, q[i], q[i + 1]) {
          assert q[i] == p[i] && q[i + 1] == p[i + 1];
        }
      }
      var vs := WalkHasWeights(adj, q);
      var u := p[|p| - 2];
      assert IsEdge(adj, u, p[|p| - 1]);
      var j :| 0 <= j < |EdgesOf(adj, u)| && EdgesOf(adj, u)[j].0 == p[|p| - 1];
      var w := EdgesOf(adj, u)[j].1;
      assert (p[|p| - 1], w) in EdgesOf(adj, u) by {
        assert EdgesOf(adj, u)[j] == (p[|p| - 1], w);
      }
      WeightedWalkExtend(adj, q, vs, p[|p| - 1], w);
      assert q + [p[|p| - 1]] == p;
      ws := vs + [w];
    }
  }

  /** Reachability is the existence of a weighted walk. */
  lemma ReachableIffWeightedWalk(adj: Adjacency, s: Vertex, v: Vertex)
    ensures Reachable(adj, s, v) <==>
      exists p, ws :: IsWeightedWalk(adj, p, ws) && p[0] == s && p[|p| - 1] == v
  {
    if Reachable(adj, s, v) {
      var p :| IsWalk(adj, p) && p[0] == s && p[|p| - 1] == v;
      var ws := WalkHasWeights(adj, p);
      assert IsWeightedWalk(adj, p, ws);
    }
    if exists p, ws :: IsWeightedWalk(adj, p, ws) && p[0] == s && p[|p| - 1] == v {
      var p, ws :| IsWeightedWalk(adj, p, ws) && p[0] == s && p[|p| - 1] == v;
      WeightedWalkIsWalk(adj, p, ws);
    }
  }

  /** Dropping the last step of a weighted walk leaves a weighted walk. */
  lemma WeightedWalkPrefix(adj: Adjacency, p: seq<Vertex>, ws: seq<nat>)
    requires IsWeightedWalk(adj, p, ws) && |p| >= 2
    ensures IsWeightedWalk(adj, p[..|p| - 1], ws[..|ws| - 1])
    ensures (p[|p| - 1], ws[|ws| - 1]) in EdgesOf(adj, p[|p| - 2])
    ensures Sum(ws) == Sum(ws[..|ws| - 1]) + ws[|ws| - 1]
  {
    var q, vs := p[..|p| - 1], ws[..|ws| - 1];
    forall i | 0 <= i < |vs| ensures (q[i + 1], vs[i]) in EdgesOf(adj, q[i]) {
      assert q[i] == p[i] && q[i + 1] == p[i + 1] && vs[i] == ws[i];
    }
  }

  /** An optimal distance is a lower bound on each walk's weight. */
  lemma OptimalBelow(adj: Adjacency, s: Vertex, v: Vertex, d: nat, p: seq<Vertex>, ws: seq<nat>)
    requires Optimal(adj, s, v, d)
    requires IsWeightedWalk(adj, p, ws) && p[0] == s && p[|p| - 1] == v
    ensures d <= Sum(ws)
  {
  }

  /** Appending an edge between two vertices of the map keeps it closed. */
  lemma AppendKeepsClosed(adj: Adjacency, v: Vertex, e: Edge)
    requires Closed(adj) && v in adj && e.0 in adj
    ensures Closed(adj[v := adj[v] + [e]])
  {
    var adj': Adjacency := adj[v := adj[v] + [e]];
    forall x: Vertex, i: int | x in adj' && 0 <= i < |adj'[x]| ensures adj'[x][i].0 in adj' {
      if x == v && i < |adj[v]| {
        assert adj'[x][i] == adj[v][i];
      }
    }
  }
}

