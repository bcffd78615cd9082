/**
 * Graph properties that Prim's algorithm is stated against (subgraphs,
 * connectivity, negative edges) over the first graph version's adjacency
 * maps, and the connectivity of the unit tests' graph.
 */
module MstSpec {
  import opened GraphsV1

  type Adjs<V> = map<V, seq<Edge<V>>>

  /** Every edge of h between vertices of h is an edge of g with the same first-match weight. */
  ghost predicate SubgraphOf<V>(h: Adjs<V>, g: Adjs<V>)
  {
    forall a, b {:trigger WeightTo(h[a], b)} | a in h && b in h :: WeightTo(h[a], b).Some? ==> a in g && WeightTo(g[a], b) == WeightTo(h[a], b)
  }

  /** Some edge of g leaves s for a vertex outside s. */
  ghost predicate Crossed<V>(g: Adjs<V>, s: set<V>)
  {
    exists a, b {:trigger WeightTo(g[a], b)} | a in s && a in g && b in g && b !in s :: WeightTo(g[a], b).Some?
  }

  /** Every nonempty proper subset of the vertices has an edge leaving it. */
  ghost predicate Connected<V>(g: Adjs<V>)
  {
    forall s {:trigger Crossed(g, s)} | s <= g.Keys && s != {} && s != g.Keys :: Crossed(g, s)
  }

  /** A negative edge between two distinct vertices. */
  ghost predicate NegativeLink<V>(g: Adjs<V>)
  {
    exists a, b {:trigger WeightTo(g[a], b)} | a in g && b in g && a != b :: WeightTo(g[a], b).Some? && WeightTo(g[a], b).value < 0
  }

  /** a and b are vertices of g joined both ways. */
  ghost predicate Joined<V>(g: Adjs<V>, a: V, b: V)
  {
    a in g && b in g && WeightTo(g[a], b).Some? && WeightTo(g[b], a).Some?
  }

  /** In a closed graph every destination of a list is a vertex. */
  lemma LinkedIsVertex<V>(g: Adjs<V>, a: V, b: V)
    requires Closed(g) && a in g && WeightTo(g[a], b).Some?
    ensures b in g
  {
    var k :| 0 <= k < |g[a]| && g[a][k].dest == b;
    assert g[a][k] in g[a];
  }

  /** A vertex outside a closed graph is nobody's destination in it. */
  lemma NoEdgeTo<V>(g: Adjs<V>, a: V, x: V)
    requires Closed(g) && a in g && x !in g
    ensures WeightTo(g[a], x).None?
  {
    forall k | 0 <= k < |g[a]| ensures g[a][k].dest != x {
      assert g[a][k] in g[a];
    }
  }

  // ---------------------------------------------------------------------
  // The unit tests' graph
  // ---------------------------------------------------------------------

  /** addEdgeForced keeps every link and links src to dest, both ways when undirected. */
  lemma WithEdgeForcedLinks<V>(g: Adjs<V>, src: V, dest: V, w: int, a: V, b: V)
    requires WellFormed(g, false)
    ensures var g' := WithEdgeForced(g, src, dest, w, false);
      && (a in g && WeightTo(g[a], b).Some? ==> WeightTo(g'[a], b).Some?)
      && WeightTo(g'[src], dest).Some? && WeightTo(g'[dest], src).Some?
  {
    var g1 := WithVertex(g, src);
    var g2 := WithVertex(g1, dest);
    var g' := WithEdge(g2, src, dest, w, false);
    assert WithEdgeForced(g, src, dest, w, false) == g';
    WithVertexWellFormed(g, src, false);
    WithVertexWellFormed(g1, dest, false);
    if WeightTo(g2[src], dest).Some? {
      assert g' == g2;
    } else {
      assert WeightTo(g2[dest], src).None?;
      WithEdgeLookup(g2, src, dest, w, false, src, dest);
      WithEdgeLookup(g2, src, dest, w, false, dest, src);
      if a in g && WeightTo(g[a], b).Some? {
        LinkedIsVertex(g, a, b);
        WithEdgeLookup(g2, src, dest, w, false, a, b);
      }
    }
  }

  /** Step m of a run keeps every link of gs[m] and links the forced edge's endpoints both ways. */
  lemma ForcedStepLinks<V>(gs: seq<Adjs<V>>, edges: seq<(V, V, int)>, m: nat, a: V, b: V)
    requires ForcedRun(gs, edges, false) && m < |edges|
    ensures edges[m].0 in gs[m + 1] && edges[m].1 in gs[m + 1] && gs[m].Keys <= gs[m + 1].Keys
    ensures a in gs[m] && WeightTo(gs[m][a], b).Some? ==> WeightTo(gs[m + 1][a], b).Some?
    ensures WeightTo(gs[m + 1][edges[m].0], edges[m].1).Some? && WeightTo(gs[m + 1][edges[m].1], edges[m].0).Some?
  {
    var e := edges[m];
    ForcedRunWellFormed(gs, edges, false, m);
    assert ForcedStep(gs, edges, false, m);
    WithEdgeForcedLinks(gs[m], e.0, e.1, e.2, a, b);
  }

  /** Every edge forced in a run links its endpoints, both ways, in the final graph. */
  lemma {:induction false} ForcedRunHas<V>(gs: seq<Adjs<V>>, edges: seq<(V, V, int)>, n: nat, i: nat)
    requires ForcedRun(gs, edges, false) && i < n <= |edges|
    ensures edges[i].0 in gs[n] && edges[i].1 in gs[n]
    ensures WeightTo(gs[n][edges[i].0], edges[i].1).Some? && WeightTo(gs[n][edges[i].1], edges[i].0).Some?
  {
    if i < n - 1 {
      ForcedRunHas(gs, edges, n - 1, i);
      ForcedStepLinks(gs, edges, n - 1, edges[i].0, edges[i].1);
      ForcedStepLinks(gs, edges, n - 1, edges[i].1, edges[i].0);
    } else {
      ForcedStepLinks(gs, edges, n - 1, edges[i].0, edges[i].1);
    }
  }

  /** The labels the first n edges of a list join. */
  ghost function Endpoints<V>(edges: seq<(V, V, int)>, n: nat): set<V>
    requires n <= |edges|
  {
    if n == 0 then {} else Endpoints(edges, n - 1) + {edges[n - 1].0, edges[n - 1].1}
  }

  /** The vertices of a run are the endpoints of its edges. */
  lemma {:induction false} ForcedRunKeys<V>(gs: seq<Adjs<V>>, edges: seq<(V, V, int)>, n: nat)
    requires ForcedRun(gs, edges, false) && n <= |edges|
    ensures gs[n].Keys == Endpoints(edges, n)
  {
    if n > 0 {
      ForcedRunKeys(gs, edges, n - 1);
      assert ForcedStep(gs, edges, false, n - 1);
    }
  }

  /** The seven test edges join the seven labels. */
  lemma TestEndpoints<V>(c: seq<V>)
    requires |c| == 7
    ensures Endpoints(TestEdges(c), 7) == {c[0], c[1], c[2], c[3], c[4], c[5], c[6]}
  {
    var e := TestEdges(c);
    assert Endpoints(e, 1) == {c[0], c[1]};
    assert Endpoints(e, 2) == {c[0], c[1], c[2]};
    assert Endpoints(e, 3) == {c[0], c[1], c[2], c[3]};
    assert Endpoints(e, 4) == {c[0], c[1], c[2], c[3], c[6]};
    assert Endpoints(e, 5) == {c[0], c[1], c[2], c[3], c[6]};
    assert Endpoints(e, 6) == {c[0], c[1], c[2], c[3], c[4], c[6]};
  }

  /** A graph on the seven labels holding the test edges both ways is connected. */
  lemma TestLinksConnect<V>(c: seq<V>, g: Adjs<V>)
    requires |c| == 7 && g.Keys == {c[0], c[1], c[2], c[3], c[4], c[5], c[6]}
    requires Joined(g, c[0], c[1]) && Joined(g, c[2], c[0]) && Joined(g, c[3], c[1]) && Joined(g, c[6], c[0])
    requires Joined(g, c[6], c[2]) && Joined(g, c[4], c[1]) && Joined(g, c[5], c[3])
    ensures Connected(g)
  {
    forall s | s <= g.Keys && s != {} && s != g.Keys ensures Crossed(g, s) {
      // Some tree edge has exactly one end in s; otherwise s would be all or nothing.
      if (c[0] in s) != (c[1] in s) {
        CrossedBy(g, s, c[0], c[1]);
      } else if (c[2] in s) != (c[0] in s) {
        CrossedBy(g, s, c[2], c[0]);
      } else if (c[3] in s) != (c[1] in s) {
        CrossedBy(g, s, c[3], c[1]);
      } else if (c[6] in s) != (c[0] in s) {
        CrossedBy(g, s, c[6], c[0]);
      } else if (c[4] in s) != (c[1] in s) {
        CrossedBy(g, s, c[4], c[1]);
      } else if (c[5] in s) != (c[3] in s) {
        CrossedBy(g, s, c[5], c[3]);
      } else {
        assert false;
      }
    }
  }

  /** An edge joining a vertex of s to one outside it crosses s. */
  lemma CrossedBy<V>(g: Adjs<V>, s: set<V>, a: V, b: V)
    requires Joined(g, a, b) && (a in s) != (b in s)
    ensures Crossed(g, s)
  {
    if a in s {
      assert WeightTo(g[a], b).Some?;
    } else {
      assert WeightTo(g[b], a).Some?;
    }
  }

  /** Seven distinct labels make a set of seven. */
  lemma SevenLabels<V>(c: seq<V>)
    requires |c| == 7 && forall i, j :: 0 <= i < j < 7 ==> c[i] != c[j]
    ensures |{c[0], c[1], c[2], c[3], c[4], c[5], c[6]}| == 7
  {
    var s := {c[0]};
    assert |s| == 1;
    s := s + {c[1]};
    assert |s| == 2;
    s := s + {c[2]};
    assert |s| == 3;
    s := s + {c[3]};
    assert |s| == 4;
    s := s + {c[4]};
    assert |s| == 5;
    s := s + {c[5]};
    assert |s| == 6;
    s := s + {c[6]};
    assert s == {c[0], c[1], c[2], c[3], c[4], c[5], c[6]};
  }

  /**
   * The unit tests' undirected graph on seven labels is connected, so the
   * tree Prim's algorithm builds on it has 7 vertices and 6 edges.
   */
  lemma TestGraphConnected<V>(c: seq<V>, gs: seq<Adjs<V>>)
    requires |c| == 7 && forall i, j :: 0 <= i < j < 7 ==> c[i] != c[j]
    requires ForcedRun(gs, TestEdges(c), false)
    ensures gs[7].Keys == {c[0], c[1], c[2], c[3], c[4], c[5], c[6]} && |gs[7].Keys| == 7
    ensures WellFormed(gs[7], false) && Connected(gs[7])
  {
    var e := TestEdges(c);
    ForcedRunKeys(gs, e, 7);
    TestEndpoints(c);
    ForcedRunWellFormed(gs, e, false, 7);
    ForcedRunHas(gs, e, 7, 0);
    ForcedRunHas(gs, e, 7, 1);
    ForcedRunHas(gs, e, 7, 2);
    ForcedRunHas(gs, e, 7, 3);
    ForcedRunHas(gs, e, 7, 4);
    ForcedRunHas(gs, e, 7, 5);
    ForcedRunHas(gs, e, 7, 6);
    TestLinksConnect(c, gs[7]);
    SevenLabels(c);
  }
}
