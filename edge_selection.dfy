/**
 * The edge selection both generators perform before carving hallways:
 * the spanning tree of the triangulation, plus every other edge whose
 * random draw falls below the loop rate.
 *
 * A `HashSet<Prim.Edge>` is a list without two equal edges (equal in the
 * sense of `Prim.SameEdge`, the set's `Equals`), enumerated in insertion
 * order; removing elements keeps the order of those that stay.
 */
module EdgeSelection {
  import opened Prim

  // ---------------------------------------------------------------------
  // Hash sets of edges
  // ---------------------------------------------------------------------

  /** `set.Contains(e)`: some element equals `e`. */
  predicate Contains<V(==)>(s: seq<Edge<V>>, e: Edge<V>)
  {
    exists i :: 0 <= i < |s| && SameEdge(s[i], e)
  }

  /** No two elements of the list are equal edges. */
  predicate Distinct<V(==)>(s: seq<Edge<V>>)
  {
    forall i, j :: 0 <= i < j < |s| ==> !SameEdge(s[i], s[j])
  }

  /** Every element of `s` is literally an element of `xs`. */
  predicate Within<V(==)>(s: seq<Edge<V>>, xs: seq<Edge<V>>)
  {
    forall i :: 0 <= i < |s| ==> s[i] in xs
  }

  /** `set.Add(e)`: appends `e` unless an equal edge is already there. */
  function Add<V(==)>(s: seq<Edge<V>>, e: Edge<V>): seq<Edge<V>>
  {
    if Contains(s, e) then s else s + [e]
  }

  /** After `Add(e)` the set contains what it contained and `e`, and stays free of duplicates. */
  lemma AddMembers<V>(s: seq<Edge<V>>, e: Edge<V>, x: Edge<V>)
    ensures Contains(Add(s, e), x) <==> Contains(s, x) || SameEdge(e, x)
    ensures Distinct(s) ==> Distinct(Add(s, e))
  {
    if !Contains(s, e) {
      ContainsConcat(s, [e], x);
      assert Contains([e], x) <==> SameEdge([e][0], x);
    }
  }

  /** `new HashSet<Edge>(xs)`: the elements of `xs` added one by one. */
  function FromList<V(==)>(xs: seq<Edge<V>>): seq<Edge<V>>
  {
    if |xs| == 0 then []
    else Add(FromList(xs[..|xs| - 1]), xs[|xs| - 1])
  }

  /** `set.ExceptWith(other)`: the elements of `s` not contained in `other`, in their order. */
  function ExceptWith<V(==)>(s: seq<Edge<V>>, other: seq<Edge<V>>): seq<Edge<V>>
  {
    if |s| == 0 then []
    else
      var last := s[|s| - 1];
      ExceptWith(s[..|s| - 1], other) + (if Contains(other, last) then [] else [last])
  }

  lemma ContainsConcat<V>(a: seq<Edge<V>>, b: seq<Edge<V>>, e: Edge<V>)
    ensures Contains(a + b, e) <==> Contains(a, e) || Contains(b, e)
  {
    var ab := a + b;
    if Contains(a, e) {
      var i :| 0 <= i < |a| && SameEdge(a[i], e);
      assert SameEdge(ab[i], e);
    }
    if Contains(b, e) {
      var i :| 0 <= i < |b| && SameEdge(b[i], e);
      assert SameEdge(ab[|a| + i], e);
    }
    if Contains(ab, e) {
      var i :| 0 <= i < |ab| && SameEdge(ab[i], e);
      if i < |a| { assert SameEdge(a[i], e); } else { assert SameEdge(b[i - |a|], e); }
    }
  }

  /** The hash set built from a list contains exactly the edges the list contains. */
  lemma {:induction false} FromListContains<V>(xs: seq<Edge<V>>, x: Edge<V>)
    ensures Contains(FromList(xs), x) <==> Contains(xs, x)
  {
    if |xs| > 0 {
      var n := |xs| - 1;
      FromListContains(xs[..n], x);
      AddMembers(FromList(xs[..n]), xs[n], x);
      assert xs == xs[..n] + [xs[n]];
      ContainsConcat(xs[..n], [xs[n]], x);
      assert Contains([xs[n]], x) <==> SameEdge([xs[n]][0], x);
    }
  }

  /** The hash set built from a list holds list elements only, each edge once. */
  lemma {:induction false} FromListShape<V>(xs: seq<Edge<V>>)
    ensures Distinct(FromList(xs))
    ensures Within(FromList(xs), xs)
    ensures |FromList(xs)| <= |xs|
  {
    if |xs| > 0 {
      var n := |xs| - 1;
      var prefix := xs[..n];
      FromListShape(prefix);
      AddMembers(FromList(prefix), xs[n], xs[n]);
      forall i | 0 <= i < |FromList(xs)| ensures FromList(xs)[i] in xs {
        if i < |FromList(prefix)| { assert FromList(prefix)[i] in prefix; }
      }
    }
  }

  /** After `ExceptWith`, the set contains the edges of `s` that `other` does not contain. */
  lemma {:induction false} ExceptWithContains<V>(s: seq<Edge<V>>, other: seq<Edge<V>>, x: Edge<V>)
    ensures Contains(ExceptWith(s, other), x) <==> Contains(s, x) && !Contains(other, x)
  {
    if |s| > 0 {
      var n := |s| - 1;
      var prefix, last := s[..n], s[n];
      var kept := if Contains(other, last) then [] else [last];
      ExceptWithContains(prefix, other, x);
      assert s == prefix + [last];
      ContainsConcat(ExceptWith(prefix, other), kept, x);
      ContainsConcat(prefix, [last], x);
      assert Contains([last], x) <==> SameEdge([last][0], x);
      if kept != [] {
        assert Contains(kept, x) <==> SameEdge(kept[0], x);
      }
    }
  }

  /** `ExceptWith` keeps elements of `s` only, in their order, and keeps it free of duplicates. */
  lemma {:induction false} ExceptWithShape<V>(s: seq<Edge<V>>, other: seq<Edge<V>>)
    ensures Distinct(s) ==> Distinct(ExceptWith(s, other))
    ensures Within(ExceptWith(s, other), s)
    ensures |ExceptWith(s, other)| <= |s|
  {
    if |s| > 0 {
      var n := |s| - 1;
      var prefix, last := s[..n], s[n];
      ExceptWithShape(prefix, other);
      var r := ExceptWith(s, other);
      forall i | 0 <= i < |r| ensures r[i] in s {
        if i < |ExceptWith(prefix, other)| { assert r[i] in prefix; }
      }
      if Distinct(s) && !Contains(other, last) {
        assert Distinct(prefix);
        forall i | 0 <= i < |r| - 1 ensures !SameEdge(r[i], last) {
          assert r[i] in prefix;
        }
      }
    }
  }

  // ---------------------------------------------------------------------
  // Selecting the hallway edges
  // ---------------------------------------------------------------------

  /** The edges that are not tree edges, as the `remainingEdges` hash set enumerates them. */
  function Remaining<V(==)>(edges: seq<Edge<V>>, tree: seq<Edge<V>>): seq<Edge<V>>
  {
    ExceptWith(FromList(edges), FromList(tree))
  }

  /** The elements `remaining[k]` whose draw `draws[k]` is below the loop rate. */
  function Admitted<V>(remaining: seq<Edge<V>>, draws: seq<real>, loopRate: real): seq<Edge<V>>
    requires |draws| >= |remaining|
  {
    if |remaining| == 0 then []
    else
      var n := |remaining| - 1;
      Admitted(remaining[..n], draws, loopRate) + (if draws[n] < loopRate then [remaining[n]] else [])
  }

  /** The selected edges: the tree's hash set, then the admitted remaining edges in their order. */
  function Selection<V(==)>(edges: seq<Edge<V>>, tree: seq<Edge<V>>, draws: seq<real>, loopRate: real): seq<Edge<V>>
    requires |draws| >= |edges|
  {
    RemainingBounded(edges, tree);
    FromList(tree) + Admitted(Remaining(edges, tree), draws, loopRate)
  }

  /** The remaining edges are input edges, each edge at most once. */
  lemma RemainingBounded<V>(edges: seq<Edge<V>>, tree: seq<Edge<V>>)
    ensures |Remaining(edges, tree)| <= |edges|
    ensures Distinct(Remaining(edges, tree))
    ensures Within(Remaining(edges, tree), edges)
  {
    FromListShape(edges);
    ExceptWithShape(FromList(edges), FromList(tree));
    var r := Remaining(edges, tree);
    forall i | 0 <= i < |r| ensures r[i] in edges {
      assert r[i] in FromList(edges);
    }
  }

  /** An edge remains exactly when the input has it and the tree does not. */
  lemma RemainingContains<V>(edges: seq<Edge<V>>, tree: seq<Edge<V>>, x: Edge<V>)
    ensures Contains(Remaining(edges, tree), x) <==> Contains(edges, x) && !Contains(tree, x)
  {
    FromListContains(edges, x);
    FromListContains(tree, x);
    ExceptWithContains(FromList(edges), FromList(tree), x);
  }

  /** No remaining edge equals an edge of the tree's hash set. */
  lemma RemainingOutsideTree<V>(edges: seq<Edge<V>>, tree: seq<Edge<V>>, k: nat)
    requires k < |Remaining(edges, tree)|
    ensures !Contains(FromList(tree), Remaining(edges, tree)[k])
  {
    var x := Remaining(edges, tree)[k];
    assert SameEdge(Remaining(edges, tree)[k], x);
    RemainingContains(edges, tree, x);
    FromListContains(tree, x);
  }

  /** An admitted element is an element of the list whose draw is below the rate. */
  lemma {:induction false} AdmittedOnly<V>(remaining: seq<Edge<V>>, draws: seq<real>, loopRate: real, x: Edge<V>)
    returns (k: nat)
    requires |draws| >= |remaining|
    requires x in Admitted(remaining, draws, loopRate)
    ensures k < |remaining| && remaining[k] == x && draws[k] < loopRate
  {
    var n := |remaining| - 1;
    if x in Admitted(remaining[..n], draws, loopRate) {
      k := AdmittedOnly(remaining[..n], draws, loopRate, x);
    } else {
      k := n;
    }
  }

  /** Every element of the list whose draw is below the rate is admitted. */
  lemma {:induction false} AdmittedAll<V>(remaining: seq<Edge<V>>, draws: seq<real>, loopRate: real, k: nat)
    requires |draws| >= |remaining|
    requires k < |remaining| && draws[k] < loopRate
    ensures remaining[k] in Admitted(remaining, draws, loopRate)
  {
    var n := |remaining| - 1;
    if k < n {
      AdmittedAll(remaining[..n], draws, loopRate, k);
    }
  }

  /**
   * `GenerateHallways` after the triangulation: the spanning tree grown from
   * the first edge's `u`, its hash set, and each remaining edge added when
   * its draw is below `loopRate`. The triangulation must have an edge, since
   * `edges[0]` is read; one draw is consumed per remaining edge.
   */
  method SelectEdges<V(==)>(edges: seq<Edge<V>>, draws: seq<real>, loopRate: real)
    returns (selectedEdges: seq<Edge<V>>, ghost mst: seq<Edge<V>>, ghost picks: seq<nat>)
    requires |edges| > 0
    requires |draws| >= |edges|
    ensures PrimRun(edges, edges[0].u, mst, picks)
    ensures TreeVertices(edges[0].u, mst) <= Endpoints(edges) + {edges[0].u}
    ensures TreeVertices(edges[0].u, mst) == Endpoints(edges) + {edges[0].u}
            || NoCrossing(edges, TreeVertices(edges[0].u, mst))
    ensures selectedEdges == Selection(edges, mst, draws, loopRate)
    ensures Distinct(selectedEdges) && Within(selectedEdges, edges)
  {
    var tree;
    tree, picks := MinimumSpanningTree(edges, edges[0].u);
    mst := tree;
    selectedEdges := FromList(tree);
    var remainingEdges := FromList(edges);
    remainingEdges := ExceptWith(remainingEdges, selectedEdges);
    RemainingBounded(edges, tree);
    forall k | 0 <= k < |remainingEdges| ensures !Contains(selectedEdges, remainingEdges[k]) {
      RemainingOutsideTree(edges, tree, k);
    }
    selectedEdges := AddLoopEdges(selectedEdges, remainingEdges, draws, loopRate);
    SelectionDistinct(edges, tree, draws, loopRate);
    SelectionWithinEdges(edges, edges[0].u, tree, picks, draws, loopRate);
  }

  /**
   * The loop over the remaining edges: each is added to the selection when
   * its draw is below `loopRate`. None of them equals an edge already
   * selected, so each admitted edge is appended.
   */
  method AddLoopEdges<V(==)>(treeSet: seq<Edge<V>>, remainingEdges: seq<Edge<V>>, draws: seq<real>, loopRate: real)
    returns (selectedEdges: seq<Edge<V>>)
    requires |draws| >= |remainingEdges|
    requires Distinct(remainingEdges)
    requires forall k :: 0 <= k < |remainingEdges| ==> !Contains(treeSet, remainingEdges[k])
    ensures selectedEdges == treeSet + Admitted(remainingEdges, draws, loopRate)
  {
    selectedEdges := treeSet;
    for k := 0 to |remainingEdges|
      invariant selectedEdges == treeSet + Admitted(remainingEdges[..k], draws, loopRate)
    {
      assert remainingEdges[..k + 1][..k] == remainingEdges[..k];
      if draws[k] < loopRate {
        NotYetSelected(treeSet, remainingEdges, draws, loopRate, k);
        selectedEdges := Add(selectedEdges, remainingEdges[k]);
      }
    }
    assert remainingEdges[..|remainingEdges|] == remainingEdges;
  }

  /** A remaining edge is not yet selected when its turn comes. */
  lemma NotYetSelected<V>(treeSet: seq<Edge<V>>, remaining: seq<Edge<V>>, draws: seq<real>, loopRate: real, k: nat)
    requires k < |remaining| <= |draws|
    requires Distinct(remaining)
    requires !Contains(treeSet, remaining[k])
    ensures var selected := treeSet + Admitted(remaining[..k], draws, loopRate);
            Add(selected, remaining[k]) == selected + [remaining[k]]
  {
    var admitted := Admitted(remaining[..k], draws, loopRate);
    ContainsConcat(treeSet, admitted, remaining[k]);
    if Contains(admitted, remaining[k]) {
      var i :| 0 <= i < |admitted| && SameEdge(admitted[i], remaining[k]);
      var j := AdmittedOnly(remaining[..k], draws, loopRate, admitted[i]);
      assert false;
    }
  }

  // ---------------------------------------------------------------------
  // What the selection is
  // ---------------------------------------------------------------------

  /** Every tree edge is selected. */
  lemma SelectionContainsTree<V>(edges: seq<Edge<V>>, tree: seq<Edge<V>>, draws: seq<real>, loopRate: real, i: nat)
    requires |draws| >= |edges|
    requires i < |tree|
    ensures Contains(Selection(edges, tree, draws, loopRate), tree[i])
  {
    RemainingBounded(edges, tree);
    assert SameEdge(tree[i], tree[i]);
    FromListContains(tree, tree[i]);
    ContainsConcat(FromList(tree), Admitted(Remaining(edges, tree), draws, loopRate), tree[i]);
  }

  /** Every selected edge is one of the input edges. */
  lemma SelectionWithinEdges<V>(edges: seq<Edge<V>>, start: V, tree: seq<Edge<V>>, picks: seq<nat>,
                                draws: seq<real>, loopRate: real)
    requires |draws| >= |edges|
    requires PrimRun(edges, start, tree, picks)
    ensures Within(Selection(edges, tree, draws, loopRate), edges)
  {
    RemainingBounded(edges, tree);
    var remaining := Remaining(edges, tree);
    var selection := Selection(edges, tree, draws, loopRate);
    var treeSet := FromList(tree);
    FromListShape(tree);
    forall i | 0 <= i < |selection| ensures selection[i] in edges {
      if i < |treeSet| {
        assert treeSet[i] in tree;
        var k :| 0 <= k < |tree| && tree[k] == selection[i];
        PrimRunSteps(edges, start, tree, picks, k);
      } else {
        var k := AdmittedOnly(remaining, draws, loopRate, selection[i]);
      }
    }
  }

  /** No edge is selected twice. */
  lemma SelectionDistinct<V>(edges: seq<Edge<V>>, tree: seq<Edge<V>>, draws: seq<real>, loopRate: real)
    requires |draws| >= |edges|
    ensures Distinct(Selection(edges, tree, draws, loopRate))
  {
    RemainingBounded(edges, tree);
    var remaining := Remaining(edges, tree);
    var selection := Selection(edges, tree, draws, loopRate);
    var treeSet := FromList(tree);
    FromListShape(tree);
    forall i, j | 0 <= i < j < |selection| ensures !SameEdge(selection[i], selection[j]) {
      if j >= |treeSet| {
        var kj := AdmittedOnly(remaining, draws, loopRate, selection[j]);
        if i < |treeSet| {
          RemainingOutsideTree(edges, tree, kj);
          assert selection[i] == treeSet[i];
        } else {
          AdmittedOrder(remaining, draws, loopRate, i - |treeSet|, j - |treeSet|);
        }
      }
    }
  }

  /** Admitted elements keep the order of their positions in the list. */
  lemma {:induction false} AdmittedOrder<V>(remaining: seq<Edge<V>>, draws: seq<real>, loopRate: real, a: nat, b: nat)
    requires |draws| >= |remaining|
    requires a < b < |Admitted(remaining, draws, loopRate)|
    ensures exists ka, kb :: 0 <= ka < kb < |remaining|
                             && remaining[ka] == Admitted(remaining, draws, loopRate)[a]
                             && remaining[kb] == Admitted(remaining, draws, loopRate)[b]
  {
    var n := |remaining| - 1;
    var prefix := Admitted(remaining[..n], draws, loopRate);
    if b < |prefix| {
      AdmittedOrder(remaining[..n], draws, loopRate, a, b);
      var ka, kb :| 0 <= ka < kb < n && remaining[..n][ka] == prefix[a] && remaining[..n][kb] == prefix[b];
      assert remaining[ka] == Admitted(remaining, draws, loopRate)[a];
    } else {
      var ka := AdmittedOnly(remaining[..n], draws, loopRate, prefix[a]);
      assert remaining[n] == Admitted(remaining, draws, loopRate)[b];
      assert remaining[ka] == Admitted(remaining, draws, loopRate)[a];
    }
  }

  /**
   * An input edge that is not a tree edge is selected exactly when the draw
   * made at its turn in the remaining edges is below the loop rate.
   */
  lemma NonTreeEdgeSelectedIff<V>(edges: seq<Edge<V>>, tree: seq<Edge<V>>, draws: seq<real>, loopRate: real, i: nat)
    returns (k: nat)
    requires |draws| >= |edges|
    requires i < |edges|
    requires !Contains(tree, edges[i])
    ensures k < |Remaining(edges, tree)| <= |edges| && SameEdge(Remaining(edges, tree)[k], edges[i])
    ensures Contains(Selection(edges, tree, draws, loopRate), edges[i]) <==> draws[k] < loopRate
  {
    RemainingBounded(edges, tree);
    var e := edges[i];
    var remaining := Remaining(edges, tree);
    var admitted := Admitted(remaining, draws, loopRate);
    assert SameEdge(edges[i], e);
    RemainingContains(edges, tree, e);
    k :| 0 <= k < |remaining| && SameEdge(remaining[k], e);
    FromListContains(tree, e);
    ContainsConcat(FromList(tree), admitted, e);
    if draws[k] < loopRate {
      AdmittedAll(remaining, draws, loopRate, k);
      var a :| 0 <= a < |admitted| && admitted[a] == remaining[k];
      assert SameEdge(admitted[a], e);
    }
    if Contains(admitted, e) {
      var a :| 0 <= a < |admitted| && SameEdge(admitted[a], e);
      var j := AdmittedOnly(remaining, draws, loopRate, admitted[a]);
      assert SameEdge(remaining[j], remaining[k]);
    }
  }
}
