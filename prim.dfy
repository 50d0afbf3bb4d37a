/**
 * Prim's minimum spanning tree over an undirected edge list, and the
 * undirected identity of an edge (its equality and hash code).
 *
 * Vertices are of any type with equality. An edge carries its weight
 * (the distance between its endpoints) as a natural number.
 */
module Prim {
  import opened Wrappers

  /** An undirected edge between `u` and `v` with a precomputed weight. */
  datatype Edge<V> = Edge(u: V, v: V, distance: nat)

  // ---------------------------------------------------------------------
  // Edge identity
  // ---------------------------------------------------------------------

  /** The `==` operator on two non-null edges: the same endpoints in either order. */
  predicate SameEdge<V(==)>(left: Edge<V>, right: Edge<V>)
  {
    (left.u == right.u && left.v == right.v) || (left.u == right.v && left.v == right.u)
  }

  /** The `==` operator, where `None` is a null reference. */
  predicate Equal<V(==)>(left: Option<Edge<V>>, right: Option<Edge<V>>)
  {
    match (left, right)
    case (None, None) => true
    case (Some(l), Some(r)) => SameEdge(l, r)
    case _ => false
  }

  /** The `!=` operator. */
  predicate NotEqual<V(==)>(left: Option<Edge<V>>, right: Option<Edge<V>>)
  {
    !Equal(left, right)
  }

  /** `Equals(object)`; `None` is null or an object that is not an edge. */
  predicate EqualsObject<V(==)>(e: Edge<V>, obj: Option<Edge<V>>)
  {
    obj.Some? && Equal(Some(e), obj)
  }

  /** `GetHashCode`: the XOR of the endpoints' 32-bit hash codes. */
  function HashCode<V>(e: Edge<V>, hash: V -> bv32): bv32
  {
    hash(e.u) ^ hash(e.v)
  }

  /** Equality ignores the order of the endpoints and the weight. */
  lemma EqualityIgnoresOrder<V>(a: V, b: V, d1: nat, d2: nat)
    ensures Equal(Some(Edge(a, b, d1)), Some(Edge(b, a, d2)))
    ensures EqualsObject(Edge(a, b, d1), Some(Edge(b, a, d2)))
  {
  }

  /** Equality is an equivalence relation on edges and null. */
  lemma EqualityIsEquivalence<V>(x: Option<Edge<V>>, y: Option<Edge<V>>, z: Option<Edge<V>>)
    ensures Equal(x, x)
    ensures Equal(x, y) <==> Equal(y, x)
    ensures Equal(x, y) && Equal(y, z) ==> Equal(x, z)
    ensures NotEqual(x, y) <==> !Equal(x, y)
  {
  }

  /** Two edges are equal exactly when their sets of endpoints are equal. */
  lemma SameEdgeIffSameEndpoints<V>(left: Edge<V>, right: Edge<V>)
    ensures SameEdge(left, right) <==> {left.u, left.v} == {right.u, right.v}
  {
    if {left.u, left.v} == {right.u, right.v} {
      assert left.u in {right.u, right.v} && left.v in {right.u, right.v};
      assert right.u in {left.u, left.v} && right.v in {left.u, left.v};
    }
  }

  /** Equal edges have equal hash codes, because XOR is commutative. */
  lemma EqualEdgesHashEqually<V>(left: Edge<V>, right: Edge<V>, hash: V -> bv32)
    requires SameEdge(left, right)
    ensures HashCode(left, hash) == HashCode(right, hash)
  {
  }

  // ---------------------------------------------------------------------
  // Vertex sets and crossing edges
  // ---------------------------------------------------------------------

  /** Every endpoint of every edge of the list. */
  function Endpoints<V>(edges: seq<Edge<V>>): set<V>
  {
    if |edges| == 0 then {}
    else
      var last := edges[|edges| - 1];
      Endpoints(edges[..|edges| - 1]) + {last.u, last.v}
  }

  /** Appending an edge adds its two endpoints. */
  lemma EndpointsAppend<V>(edges: seq<Edge<V>>, e: Edge<V>)
    ensures Endpoints(edges + [e]) == Endpoints(edges) + {e.u, e.v}
  {
    assert (edges + [e])[..|edges|] == edges;
  }

  /** The endpoints of an edge of the list are in its vertex set. */
  lemma {:induction false} EndpointsContain<V>(edges: seq<Edge<V>>, i: nat)
    requires i < |edges|
    ensures edges[i].u in Endpoints(edges) && edges[i].v in Endpoints(edges)
  {
    var n := |edges| - 1;
    if i < n {
      EndpointsContain(edges[..n], i);
    }
  }

  /** Every vertex of the set is an endpoint of some edge of the list. */
  lemma {:induction false} EndpointsOnly<V>(edges: seq<Edge<V>>, w: V) returns (i: nat)
    requires w in Endpoints(edges)
    ensures i < |edges| && (edges[i].u == w || edges[i].v == w)
  {
    var n := |edges| - 1;
    if w in Endpoints(edges[..n]) {
      i := EndpointsOnly(edges[..n], w);
    } else {
      i := n;
    }
  }

  /** The vertices a tree grown from `start` spans. */
  function TreeVertices<V>(start: V, tree: seq<Edge<V>>): set<V>
  {
    {start} + Endpoints(tree)
  }

  /** Exactly one endpoint of `e` is closed. */
  predicate Crossing<V(==)>(e: Edge<V>, closedSet: set<V>)
  {
    (e.u in closedSet) != (e.v in closedSet)
  }

  /** No edge of the list leaves the closed set. */
  predicate NoCrossing<V(==)>(edges: seq<Edge<V>>, closedSet: set<V>)
  {
    forall i :: 0 <= i < |edges| ==> !Crossing(edges[i], closedSet)
  }

  /**
   * `edges[i]` is a crossing edge of least weight, and no crossing edge
   * before it in the list has that weight.
   */
  predicate FirstLightestCrossing<V(==)>(edges: seq<Edge<V>>, closedSet: set<V>, i: nat)
  {
    && i < |edges|
    && Crossing(edges[i], closedSet)
    && (forall j :: 0 <= j < |edges| && Crossing(edges[j], closedSet) ==> edges[i].distance <= edges[j].distance)
    && (forall j :: 0 <= j < i && Crossing(edges[j], closedSet) ==> edges[i].distance < edges[j].distance)
  }

  /**
   * The inner scan of one pass: the first crossing edge of least weight,
   * or none when no edge crosses.
   */
  method LightestCrossingEdge<V(==)>(edges: seq<Edge<V>>, closedSet: set<V>) returns (found: bool, chosen: nat)
    ensures found ==> FirstLightestCrossing(edges, closedSet, chosen)
    ensures !found ==> NoCrossing(edges, closedSet)
  {
    found, chosen := false, 0;
    var minWeight := 0;
    for i := 0 to |edges|
      invariant found ==> chosen < i && Crossing(edges[chosen], closedSet) && minWeight == edges[chosen].distance
      invariant found ==> forall j :: 0 <= j < i && Crossing(edges[j], closedSet) ==> minWeight <= edges[j].distance
      invariant found ==> forall j :: 0 <= j < chosen && Crossing(edges[j], closedSet) ==> minWeight < edges[j].distance
      invariant !found ==> forall j :: 0 <= j < i ==> !Crossing(edges[j], closedSet)
    {
      var edge := edges[i];
      var isUClosed := edge.u in closedSet;
      var isVClosed := edge.v in closedSet;
      if isUClosed != isVClosed {
        if !found || edge.distance < minWeight {
          found, chosen, minWeight := true, i, edge.distance;
        }
      }
    }
  }

  // ---------------------------------------------------------------------
  // The spanning tree
  // ---------------------------------------------------------------------

  /**
   * `tree` is what Prim's algorithm grows from `start`: each edge is
   * `edges[picks[k]]`, the first lightest edge crossing out of the
   * vertices spanned by the edges before it.
   */
  ghost predicate PrimRun<V>(edges: seq<Edge<V>>, start: V, tree: seq<Edge<V>>, picks: seq<nat>)
    decreases |tree|
  {
    && |picks| == |tree|
    && (|tree| > 0 ==>
          var n := |tree| - 1;
          && PrimRun(edges, start, tree[..n], picks[..n])
          && picks[n] < |edges|
          && edges[picks[n]] == tree[n]
          && FirstLightestCrossing(edges, TreeVertices(start, tree[..n]), picks[n]))
  }

  /** The loop that fills the open set with both endpoints of every edge. */
  method CollectVertices<V(==)>(edges: seq<Edge<V>>) returns (vertices: set<V>)
    ensures vertices == Endpoints(edges)
  {
    vertices := {};
    for i := 0 to |edges|
      invariant vertices == Endpoints(edges[..i])
    {
      assert edges[..i + 1] == edges[..i] + [edges[i]];
      EndpointsAppend(edges[..i], edges[i]);
      vertices := vertices + {edges[i].u};
      vertices := vertices + {edges[i].v};
    }
    assert edges[..|edges|] == edges;
  }

  /**
   * `MinimumSpanningTree`: grows a tree from `start`, one lightest
   * crossing edge per pass, until every vertex is closed or no edge
   * crosses (a disconnected graph, for which the partial tree is returned).
   */
  method MinimumSpanningTree<V(==)>(edges: seq<Edge<V>>, start: V) returns (results: seq<Edge<V>>, ghost picks: seq<nat>)
    ensures PrimRun(edges, start, results, picks)
    ensures TreeVertices(start, results) <= Endpoints(edges) + {start}
    ensures TreeVertices(start, results) == Endpoints(edges) + {start}
            || NoCrossing(edges, TreeVertices(start, results))
  {
    // Initialize the open set with all vertices.
    var openSet := CollectVertices(edges);
    var closedSet: set<V> := {};

    closedSet := closedSet + {start};
    openSet := openSet - {start};

    results, picks := [], [];
    while |openSet| > 0
      invariant PassInvariant(edges, start, openSet, closedSet, results, picks)
      decreases |openSet|
    {
      var found, chosen := LightestCrossingEdge(edges, closedSet);
      if !found {
        // The graph is disconnected: the error is only logged and the partial tree returned.
        PassExit(edges, start, openSet, closedSet, results, picks);
        return;
      }
      var chosenEdge := edges[chosen];
      // Move the newly connected vertex from open to closed set.
      var moved := if chosenEdge.u in closedSet then chosenEdge.v else chosenEdge.u;
      PassPreservesInvariant(edges, start, openSet, closedSet, results, picks, chosen);
      results, picks := results + [chosenEdge], picks + [chosen];
      closedSet := closedSet + {moved};
      openSet := openSet - {moved};
    }
    PassExit(edges, start, openSet, closedSet, results, picks);
  }

  /** When the loop ends, the closed set is the whole vertex set or nothing crosses out of it. */
  lemma PassExit<V>(edges: seq<Edge<V>>, start: V, openSet: set<V>, closedSet: set<V>,
                    results: seq<Edge<V>>, picks: seq<nat>)
    requires PassInvariant(edges, start, openSet, closedSet, results, picks)
    requires |openSet| == 0 || NoCrossing(edges, closedSet)
    ensures TreeVertices(start, results) <= Endpoints(edges) + {start}
    ensures TreeVertices(start, results) == Endpoints(edges) + {start}
            || NoCrossing(edges, TreeVertices(start, results))
  {
    if |openSet| == 0 {
      assert forall w :: w in Endpoints(edges) + {start} ==> w in closedSet;
    }
  }

  /** What holds between passes of the main loop. */
  ghost predicate PassInvariant<V>(edges: seq<Edge<V>>, start: V, openSet: set<V>, closedSet: set<V>,
                                   results: seq<Edge<V>>, picks: seq<nat>)
  {
    && closedSet == TreeVertices(start, results)
    && closedSet <= Endpoints(edges) + {start}
    && openSet == Endpoints(edges) + {start} - closedSet
    && PrimRun(edges, start, results, picks)
  }

  /** One pass moves the open endpoint of the chosen edge into the closed set. */
  lemma PassPreservesInvariant<V>(edges: seq<Edge<V>>, start: V, openSet: set<V>, closedSet: set<V>,
                                  results: seq<Edge<V>>, picks: seq<nat>, chosen: nat)
    requires PassInvariant(edges, start, openSet, closedSet, results, picks)
    requires FirstLightestCrossing(edges, closedSet, chosen)
    ensures var e := edges[chosen];
            var moved := if e.u in closedSet then e.v else e.u;
            && moved in openSet
            && PassInvariant(edges, start, openSet - {moved}, closedSet + {moved}, results + [e], picks + [chosen])
  {
    EndpointsContain(edges, chosen);
    AddCrossingEdge(start, results, edges[chosen]);
    PrimRunExtend(edges, start, results, picks, chosen);
  }

  /** A run extended by the next first lightest crossing edge is a run. */
  lemma PrimRunExtend<V>(edges: seq<Edge<V>>, start: V, tree: seq<Edge<V>>, picks: seq<nat>, i: nat)
    requires PrimRun(edges, start, tree, picks)
    requires FirstLightestCrossing(edges, TreeVertices(start, tree), i)
    ensures PrimRun(edges, start, tree + [edges[i]], picks + [i])
  {
    assert (tree + [edges[i]])[..|tree|] == tree;
    assert (picks + [i])[..|picks|] == picks;
  }

  /** A prefix of a run is a run. */
  lemma {:induction false} PrimRunPrefix<V>(edges: seq<Edge<V>>, start: V, tree: seq<Edge<V>>, picks: seq<nat>, n: nat)
    requires PrimRun(edges, start, tree, picks)
    requires n <= |tree|
    ensures PrimRun(edges, start, tree[..n], picks[..n])
  {
    if n < |tree| {
      var m := |tree| - 1;
      PrimRunPrefix(edges, start, tree[..m], picks[..m], n);
      assert tree[..m][..n] == tree[..n];
      assert picks[..m][..n] == picks[..n];
    } else {
      assert tree[..n] == tree && picks[..n] == picks;
    }
  }

  /**
   * Every edge of a run, at the moment it was chosen, had exactly one
   * endpoint closed and was the first lightest such edge.
   */
  lemma PrimRunSteps<V>(edges: seq<Edge<V>>, start: V, tree: seq<Edge<V>>, picks: seq<nat>, k: nat)
    requires PrimRun(edges, start, tree, picks)
    requires k < |tree|
    ensures picks[k] < |edges| && edges[picks[k]] == tree[k]
    ensures FirstLightestCrossing(edges, TreeVertices(start, tree[..k]), picks[k])
  {
    PrimRunPrefix(edges, start, tree, picks, k + 1);
    assert tree[..k + 1][..k] == tree[..k];
    assert picks[..k + 1][k] == picks[k];
  }

  /** An edge crossing out of the spanned vertices adds exactly its open endpoint. */
  lemma AddCrossingEdge<V>(start: V, tree: seq<Edge<V>>, e: Edge<V>)
    requires Crossing(e, TreeVertices(start, tree))
    ensures var w := if e.u in TreeVertices(start, tree) then e.v else e.u;
            && w !in TreeVertices(start, tree)
            && TreeVertices(start, tree + [e]) == TreeVertices(start, tree) + {w}
            && |TreeVertices(start, tree + [e])| == |TreeVertices(start, tree)| + 1
  {
    EndpointsAppend(tree, e);
  }

  /** Each pass adds one new vertex: the tree has one edge fewer than the vertices it spans. */
  lemma {:induction false} TreeSize<V>(edges: seq<Edge<V>>, start: V, tree: seq<Edge<V>>, picks: seq<nat>)
    requires PrimRun(edges, start, tree, picks)
    ensures |TreeVertices(start, tree)| == |tree| + 1
  {
    if |tree| > 0 {
      var n := |tree| - 1;
      TreeSize(edges, start, tree[..n], picks[..n]);
      AddCrossingEdge(start, tree[..n], tree[n]);
      assert tree[..n] + [tree[n]] == tree;
    }
  }

  /** Walks over an edge list. */
  ghost predicate Joins<V>(es: seq<Edge<V>>, a: V, b: V)
  {
    exists e :: e in es && ((e.u == a && e.v == b) || (e.u == b && e.v == a))
  }

  ghost predicate IsWalk<V>(es: seq<Edge<V>>, p: seq<V>)
  {
    forall i :: 0 <= i < |p| - 1 ==> Joins(es, p[i], p[i + 1])
  }

  ghost predicate Reachable<V(!new)>(es: seq<Edge<V>>, a: V, b: V)
  {
    exists p :: |p| > 0 && p[0] == a && p[|p| - 1] == b && IsWalk(es, p)
  }

  /** Every vertex the tree spans is joined to `start` by a walk over tree edges. */
  lemma {:induction false} TreeConnected<V>(edges: seq<Edge<V>>, start: V, tree: seq<Edge<V>>, picks: seq<nat>, w: V)
    returns (p: seq<V>)
    requires PrimRun(edges, start, tree, picks)
    requires w in TreeVertices(start, tree)
    ensures |p| > 0 && p[0] == start && p[|p| - 1] == w && IsWalk(tree, p)
  {
    if |tree| == 0 {
      p := [start];
    } else {
      var n := |tree| - 1;
      PrimRunPrefix(edges, start, tree, picks, n);
      var closedSet := TreeVertices(start, tree[..n]);
      var e := tree[n];
      assert tree == tree[..n] + [e];
      EndpointsAppend(tree[..n], e);
      assert TreeVertices(start, tree) == closedSet + {e.u, e.v};
      var target := w;
      if w !in closedSet {
        target := if e.u in closedSet then e.u else e.v;
      }
      var q := TreeConnected(edges, start, tree[..n], picks[..n], target);
      forall i | 0 <= i < |q| - 1 ensures Joins(tree, q[i], q[i + 1]) {
        assert Joins(tree[..n], q[i], q[i + 1]);
        var f :| f in tree[..n] && ((f.u == q[i] && f.v == q[i + 1]) || (f.u == q[i + 1] && f.v == q[i]));
        assert f in tree;
      }
      if w in closedSet {
        p := q;
      } else {
        p := q + [w];
        assert e in tree;
        assert Joins(tree, target, w);
        forall i | 0 <= i < |p| - 1 ensures Joins(tree, p[i], p[i + 1]) {
          if i < |q| - 1 {
            assert p[i] == q[i] && p[i + 1] == q[i + 1];
          }
        }
      }
    }
  }

  /** A walk that starts in a set no edge crosses never leaves it. */
  lemma {:induction false} WalkStaysClosed<V>(edges: seq<Edge<V>>, closedSet: set<V>, p: seq<V>)
    requires NoCrossing(edges, closedSet)
    requires |p| > 0 && p[0] in closedSet && IsWalk(edges, p)
    ensures p[|p| - 1] in closedSet
  {
    if |p| > 1 {
      var e :| e in edges && ((e.u == p[0] && e.v == p[1]) || (e.u == p[1] && e.v == p[0]));
      var i :| 0 <= i < |edges| && edges[i] == e;
      assert !Crossing(edges[i], closedSet);
      assert IsWalk(edges, p[1..]) by {
        forall j | 0 <= j < |p[1..]| - 1 ensures Joins(edges, p[1..][j], p[1..][j + 1]) {
          assert p[1..][j] == p[j + 1] && p[1..][j + 1] == p[j + 2];
        }
      }
      WalkStaysClosed(edges, closedSet, p[1..]);
    }
  }

  /**
   * When every vertex is reachable from `start`, the run closes them all
   * and returns |V| - 1 edges.
   */
  lemma SpanningWhenConnected<V(!new)>(edges: seq<Edge<V>>, start: V, tree: seq<Edge<V>>, picks: seq<nat>)
    requires PrimRun(edges, start, tree, picks)
    requires TreeVertices(start, tree) <= Endpoints(edges) + {start}
    requires TreeVertices(start, tree) == Endpoints(edges) + {start}
             || NoCrossing(edges, TreeVertices(start, tree))
    requires forall w :: w in Endpoints(edges) ==> Reachable(edges, start, w)
    ensures TreeVertices(start, tree) == Endpoints(edges) + {start}
    ensures |tree| == |Endpoints(edges) + {start}| - 1
  {
    var closedSet := TreeVertices(start, tree);
    if NoCrossing(edges, closedSet) {
      forall w | w in Endpoints(edges) ensures w in closedSet {
        var p :| |p| > 0 && p[0] == start && p[|p| - 1] == w && IsWalk(edges, p);
        WalkStaysClosed(edges, closedSet, p);
      }
    }
    TreeSize(edges, start, tree, picks);
  }
}
