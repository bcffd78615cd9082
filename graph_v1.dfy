/**
 * The first graph version: a map from each vertex to the list of its
 * outgoing edges (destination, weight). In undirected mode every edge is
 * stored twice, once in each endpoint's list, and counts and sums are halved.
 * The value-level transitions below are the effect of each mutator on the
 * map; the class performs them step by step and is proved to match.
 */
module GraphsV1 {
  import opened Errors
  import opened Sums

  /** One outgoing connection. */
  datatype Edge<V> = Edge(dest: V, weight: int)

  /** The weight of the first edge to d in list order, as the source's scans find it. */
  function WeightTo<V(==)>(l: seq<Edge<V>>, d: V): (r: Option<int>)
    ensures r.Some? <==> exists k :: 0 <= k < |l| && l[k].dest == d
    ensures r.Some? ==> exists k :: 0 <= k < |l| && l[k] == Edge(d, r.value)
    decreases |l|
  {
    if |l| == 0 then None
    else
      var p := WeightTo(l[..|l| - 1], d);
      if p.Some? then p
      else if l[|l| - 1].dest == d then Some(l[|l| - 1].weight)
      else None
  }

  /** Appending an edge changes the first match only when there was none. */
  lemma WeightToAppend<V>(l: seq<Edge<V>>, e: Edge<V>, d: V)
    ensures WeightTo(l + [e], d) ==
      if WeightTo(l, d).Some? then WeightTo(l, d)
      else if e.dest == d then Some(e.weight) else None
  {
    assert (l + [e])[..|l|] == l;
  }

  /** The first edge to d in list order is the one WeightTo reports. */
  lemma {:induction false} WeightToFirst<V>(l: seq<Edge<V>>, d: V, k: nat)
    requires k < |l| && l[k].dest == d
    requires forall j :: 0 <= j < k ==> l[j].dest != d
    ensures WeightTo(l, d) == Some(l[k].weight)
    decreases |l|
  {
    var n := |l| - 1;
    if k < n {
      WeightToFirst(l[..n], d, k);
    } else {
      assert forall j :: 0 <= j < n ==> l[..n][j].dest != d;
    }
  }

  /** The list with every edge to v removed, the others kept in order. */
  function EdgesNotTo<V(==)>(l: seq<Edge<V>>, v: V): (r: seq<Edge<V>>)
    ensures |r| <= |l|
    decreases |l|
  {
    if |l| == 0 then []
    else EdgesNotTo(l[..|l| - 1], v) + (if l[|l| - 1].dest == v then [] else [l[|l| - 1]])
  }

  /** The filtered list holds exactly the edges of l not pointing at v. */
  lemma {:induction false} EdgesNotToMember<V>(l: seq<Edge<V>>, v: V, e: Edge<V>)
    ensures e in EdgesNotTo(l, v) <==> e in l && e.dest != v
    decreases |l|
  {
    if |l| > 0 {
      var n := |l| - 1;
      EdgesNotToMember(l[..n], v, e);
      assert l == l[..n] + [l[n]];
    }
  }

  /** After filtering out v, nothing leads to v and every other first match is unchanged. */
  lemma {:induction false} WeightToFiltered<V>(l: seq<Edge<V>>, v: V, d: V)
    ensures WeightTo(EdgesNotTo(l, v), d) == if d == v then None else WeightTo(l, d)
    decreases |l|
  {
    if |l| > 0 {
      var n := |l| - 1;
      WeightToFiltered(l[..n], v, d);
      if l[n].dest == v {
        assert EdgesNotTo(l, v) == EdgesNotTo(l[..n], v) + [];
        assert EdgesNotTo(l, v) == EdgesNotTo(l[..n], v);
        if d != v {
          assert l[n].dest != d;
          assert WeightTo(l, d) == WeightTo(l[..n], d);
        }
      } else {
        WeightToAppend(EdgesNotTo(l[..n], v), l[n], d);
      }
    }
  }

  /** Filtering out a vertex no edge leads to changes nothing. */
  lemma {:induction false} EdgesNotToAbsent<V>(l: seq<Edge<V>>, v: V)
    requires WeightTo(l, v).None?
    ensures EdgesNotTo(l, v) == l
    decreases |l|
  {
    if |l| > 0 {
      var n := |l| - 1;
      assert l[..n][..] == l[..n];
      assert WeightTo(l[..n], v).None?;
      EdgesNotToAbsent(l[..n], v);
      assert l == l[..n] + [l[n]];
    }
  }

  /** Every edge leads to a vertex of the graph. */
  ghost predicate Closed<V>(g: map<V, seq<Edge<V>>>)
  {
    forall a, k {:trigger g[a][k]} :: a in g && 0 <= k < |g[a]| ==> g[a][k].dest in g
  }

  /** Undirected storage: a's first edge to b and b's first edge to a agree, or both are absent. */
  ghost predicate Symmetric<V>(g: map<V, seq<Edge<V>>>)
  {
    forall a, b {:trigger WeightTo(g[a], b)} :: a in g && b in g ==> WeightTo(g[a], b) == WeightTo(g[b], a)
  }

  /** The invariant of a graph built by the mutators. */
  ghost predicate WellFormed<V>(g: map<V, seq<Edge<V>>>, oriented: bool)
  {
    Closed(g) && (!oriented ==> Symmetric(g))
  }

  // ---------------------------------------------------------------------
  // The mutators, as values
  // ---------------------------------------------------------------------

  /** addVertex: put an empty list unless the vertex is present. */
  function WithVertex<V(==)>(g: map<V, seq<Edge<V>>>, v: V): (r: map<V, seq<Edge<V>>>)
    ensures r.Keys == g.Keys + {v}
    ensures forall a :: a in g ==> r[a] == g[a]
  {
    if v in g then g else g[v := []]
  }

  /** addEdge on present endpoints: append (dest, w) to src and, undirected, (src, w) to dest, unless src already leads to dest. */
  function WithEdge<V(==)>(g: map<V, seq<Edge<V>>>, src: V, dest: V, w: int, oriented: bool): (r: map<V, seq<Edge<V>>>)
    requires src in g && dest in g
    ensures r.Keys == g.Keys
  {
    if WeightTo(g[src], dest).Some? then g
    else
      var g1 := g[src := g[src] + [Edge(dest, w)]];
      if oriented then g1 else g1[dest := g1[dest] + [Edge(src, w)]]
  }

  /** removeEdge on a present edge: drop every src-to-dest edge and, undirected, every dest-to-src edge. */
  function WithoutEdge<V(==)>(g: map<V, seq<Edge<V>>>, src: V, dest: V, oriented: bool): (r: map<V, seq<Edge<V>>>)
    requires src in g && dest in g
    ensures r.Keys == g.Keys
  {
    var g1 := g[src := EdgesNotTo(g[src], dest)];
    if oriented then g1 else g1[dest := EdgesNotTo(g1[dest], src)]
  }

  /** removeVertex on a present vertex: drop its list and every edge leading to it. */
  function WithoutVertex<V(==)>(g: map<V, seq<Edge<V>>>, v: V): (r: map<V, seq<Edge<V>>>)
    ensures r.Keys == g.Keys - {v}
  {
    map a | a in g && a != v :: EdgesNotTo(g[a], v)
  }

  /** addVertex keeps a graph well formed, and leaves every existing list alone. */
  lemma WithVertexWellFormed<V>(g: map<V, seq<Edge<V>>>, v: V, oriented: bool)
    requires WellFormed(g, oriented)
    ensures WellFormed(WithVertex(g, v), oriented)
  {
    var r := WithVertex(g, v);
    if v !in g && !oriented {
      forall a, b | a in r && b in r
        ensures WeightTo(r[a], b) == WeightTo(r[b], a)
      {
        if a == v && b != v {
          assert WeightTo(g[b], v).None?;
        } else if b == v && a != v {
          assert WeightTo(g[a], v).None?;
        }
      }
    }
  }

  /** After addEdge on an absent edge, src leads to dest with weight w and, undirected, dest to src; other first matches are unchanged. */
  lemma WithEdgeLookup<V>(g: map<V, seq<Edge<V>>>, src: V, dest: V, w: int, oriented: bool, a: V, b: V)
    requires src in g && dest in g && a in g && b in g
    requires WeightTo(g[src], dest).None? && (!oriented ==> WeightTo(g[dest], src).None?)
    ensures WeightTo(WithEdge(g, src, dest, w, oriented)[a], b) ==
      if a == src && b == dest then Some(w)
      else if !oriented && a == dest && b == src then Some(w)
      else WeightTo(g[a], b)
  {
    var g1 := g[src := g[src] + [Edge(dest, w)]];
    WeightToAppend(g[src], Edge(dest, w), b);
    if !oriented {
      WeightToAppend(g1[dest], Edge(src, w), b);
      if src == dest {
        WeightToAppend(g[src] + [Edge(dest, w)], Edge(src, w), b);
      }
    }
  }

  /** addEdge keeps a graph well formed. */
  lemma WithEdgeWellFormed<V>(g: map<V, seq<Edge<V>>>, src: V, dest: V, w: int, oriented: bool)
    requires WellFormed(g, oriented) && src in g && dest in g
    ensures WellFormed(WithEdge(g, src, dest, w, oriented), oriented)
  {
    var r := WithEdge(g, src, dest, w, oriented);
    if WeightTo(g[src], dest).None? {
      var g1 := g[src := g[src] + [Edge(dest, w)]];
      forall a, e: Edge<V> | a in r && e in r[a]
        ensures e.dest in r
      {
        if a == src || a == dest {
          assert e in g[a] || e == Edge(dest, w) || e == Edge(src, w);
        }
      }
      if !oriented {
        forall a, b | a in r && b in r
          ensures WeightTo(r[a], b) == WeightTo(r[b], a)
        {
          WithEdgeLookup(g, src, dest, w, oriented, a, b);
          WithEdgeLookup(g, src, dest, w, oriented, b, a);
        }
      }
    }
  }

  /** After removeEdge, src no longer leads to dest (nor, undirected, dest to src); other first matches are unchanged. */
  lemma WithoutEdgeLookup<V>(g: map<V, seq<Edge<V>>>, src: V, dest: V, oriented: bool, a: V, b: V)
    requires src in g && dest in g && a in g && b in g
    ensures WeightTo(WithoutEdge(g, src, dest, oriented)[a], b) ==
      if a == src && b == dest then None
      else if !oriented && a == dest && b == src then None
      else WeightTo(g[a], b)
  {
    var g1 := g[src := EdgesNotTo(g[src], dest)];
    WeightToFiltered(g[src], dest, b);
    if !oriented {
      WeightToFiltered(g1[dest], src, b);
      WeightToFiltered(g[dest], src, b);
    }
  }

  /** removeEdge keeps a graph well formed. */
  lemma WithoutEdgeWellFormed<V>(g: map<V, seq<Edge<V>>>, src: V, dest: V, oriented: bool)
    requires WellFormed(g, oriented) && src in g && dest in g
    ensures WellFormed(WithoutEdge(g, src, dest, oriented), oriented)
  {
    var r := WithoutEdge(g, src, dest, oriented);
    var g1 := g[src := EdgesNotTo(g[src], dest)];
    forall a, e: Edge<V> | a in r && e in r[a]
      ensures e.dest in r
    {
      EdgesNotToMember(g[src], dest, e);
      EdgesNotToMember(g1[dest], src, e);
    }
    if !oriented {
      forall a, b | a in r && b in r
        ensures WeightTo(r[a], b) == WeightTo(r[b], a)
      {
        WithoutEdgeLookup(g, src, dest, oriented, a, b);
        WithoutEdgeLookup(g, src, dest, oriented, b, a);
      }
    }
  }

  /** removeVertex keeps a graph well formed: no edge is left dangling. */
  lemma WithoutVertexWellFormed<V>(g: map<V, seq<Edge<V>>>, v: V, oriented: bool)
    requires WellFormed(g, oriented)
    ensures WellFormed(WithoutVertex(g, v), oriented)
  {
    var r := WithoutVertex(g, v);
    forall a, e: Edge<V> | a in r && e in r[a]
      ensures e.dest in r
    {
      EdgesNotToMember(g[a], v, e);
    }
    if !oriented {
      forall a, b | a in r && b in r
        ensures WeightTo(r[a], b) == WeightTo(r[b], a)
      {
        WeightToFiltered(g[a], v, b);
        WeightToFiltered(g[b], v, a);
      }
    }
  }

  // ---------------------------------------------------------------------
  // Counts and sums
  // ---------------------------------------------------------------------

  /** The length of each adjacency list. */
  ghost function Degrees<V>(g: map<V, seq<Edge<V>>>): (d: map<V, int>)
    ensures d.Keys == g.Keys
  {
    map a | a in g :: |g[a]|
  }

  /** The number of stored edge entries: every undirected edge counts twice. */
  ghost function EntryCount<V>(g: map<V, seq<Edge<V>>>): int
  {
    Sum(Degrees(g))
  }

  /** The sum of the weights of a list. */
  function ListWeight<V(==)>(l: seq<Edge<V>>): int
    decreases |l|
  {
    if |l| == 0 then 0 else ListWeight(l[..|l| - 1]) + l[|l| - 1].weight
  }

  /** The weight of each adjacency list. */
  ghost function ListWeights<V>(g: map<V, seq<Edge<V>>>): (d: map<V, int>)
    ensures d.Keys == g.Keys
  {
    map a | a in g :: ListWeight(g[a])
  }

  /** The sum of the weights of all stored entries. */
  ghost function EntryWeight<V>(g: map<V, seq<Edge<V>>>): int
  {
    Sum(ListWeights(g))
  }

  /** Appending one entry to one list grows the entry count by one and the entry weight by its weight. */
  lemma AppendTotals<V>(g: map<V, seq<Edge<V>>>, a: V, e: Edge<V>)
    requires a in g
    ensures EntryCount(g[a := g[a] + [e]]) == EntryCount(g) + 1
    ensures EntryWeight(g[a := g[a] + [e]]) == EntryWeight(g) + e.weight
  {
    var r := g[a := g[a] + [e]];
    assert EntryCount(r) == EntryCount(g) + 1 by {
      assert Degrees(r) == Degrees(g)[a := |g[a]| + 1];
      SumUpdate(Degrees(g), a, |g[a]| + 1);
    }
    assert ListWeight(g[a] + [e]) == ListWeight(g[a]) + e.weight by {
      assert (g[a] + [e])[..|g[a]|] == g[a];
    }
    assert ListWeights(r) == ListWeights(g)[a := ListWeight(g[a]) + e.weight];
    SumUpdate(ListWeights(g), a, ListWeight(g[a]) + e.weight);
  }

  /** addVertex adds no entry. */
  lemma WithVertexTotals<V>(g: map<V, seq<Edge<V>>>, v: V)
    ensures EntryCount(WithVertex(g, v)) == EntryCount(g)
    ensures EntryWeight(WithVertex(g, v)) == EntryWeight(g)
  {
    if v !in g {
      assert Degrees(g[v := []]) == Degrees(g)[v := 0];
      SumInsert(Degrees(g), v, 0);
      assert ListWeights(g[v := []]) == ListWeights(g)[v := 0];
      SumInsert(ListWeights(g), v, 0);
    }
  }

  /** A new edge adds one entry when oriented and two when undirected, each of weight w. */
  lemma WithEdgeTotals<V>(g: map<V, seq<Edge<V>>>, src: V, dest: V, w: int, oriented: bool)
    requires src in g && dest in g && WeightTo(g[src], dest).None?
    ensures EntryCount(WithEdge(g, src, dest, w, oriented)) == EntryCount(g) + (if oriented then 1 else 2)
    ensures EntryWeight(WithEdge(g, src, dest, w, oriented)) == EntryWeight(g) + (if oriented then w else 2 * w)
  {
    var g1 := g[src := g[src] + [Edge(dest, w)]];
    AppendTotals(g, src, Edge(dest, w));
    if !oriented {
      AppendTotals(g1, dest, Edge(src, w));
    }
  }

  /** addEdgeForced: add the missing endpoints, then the edge. */
  function WithEdgeForced<V>(g: map<V, seq<Edge<V>>>, src: V, dest: V, w: int, oriented: bool): (r: map<V, seq<Edge<V>>>)
    ensures r.Keys == g.Keys + {src, dest}
  {
    WithEdge(WithVertex(WithVertex(g, src), dest), src, dest, w, oriented)
  }

  /** A forced edge that is new adds one entry of weight w when oriented, two when undirected. */
  lemma WithEdgeForcedTotals<V>(g: map<V, seq<Edge<V>>>, src: V, dest: V, w: int, oriented: bool)
    requires src in g ==> WeightTo(g[src], dest).None?
    ensures EntryCount(WithEdgeForced(g, src, dest, w, oriented)) == EntryCount(g) + (if oriented then 1 else 2)
    ensures EntryWeight(WithEdgeForced(g, src, dest, w, oriented)) == EntryWeight(g) + (if oriented then w else 2 * w)
  {
    var g1 := WithVertex(g, src);
    var g2 := WithVertex(g1, dest);
    WithVertexTotals(g, src);
    WithVertexTotals(g1, dest);
    WithEdgeTotals(g2, src, dest, w, oriented);
  }

  /** addEdgeForced keeps a graph well formed. */
  lemma WithEdgeForcedWellFormed<V>(g: map<V, seq<Edge<V>>>, src: V, dest: V, w: int, oriented: bool)
    requires WellFormed(g, oriented)
    ensures WellFormed(WithEdgeForced(g, src, dest, w, oriented), oriented)
  {
    WithVertexWellFormed(g, src, oriented);
    WithVertexWellFormed(WithVertex(g, src), dest, oriented);
    WithEdgeWellFormed(WithVertex(WithVertex(g, src), dest), src, dest, w, oriented);
  }

  /**
   * The edges the unit tests force into notOrientedConnectedGraph, over any
   * seven labels c[0..7] standing for Londra, New York, Dubai, Parigi,
   * Milano, Manchester and Roma, in the order the tests add them.
   */
  function TestEdges<V>(c: seq<V>): (r: seq<(V, V, int)>)
    requires |c| == 7
    ensures |r| == 7
  {
    [(c[0], c[1], 5), (c[2], c[0], 12), (c[3], c[1], 3), (c[6], c[0], 6),
     (c[6], c[2], 2), (c[4], c[1], 7), (c[5], c[3], 1)]
  }

  /**
   * gs records the graph before and after each call of addEdgeForced(edges[i])
   * on a graph that starts empty.
   */
  ghost predicate ForcedRun<V>(gs: seq<map<V, seq<Edge<V>>>>, edges: seq<(V, V, int)>, oriented: bool)
  {
    |gs| == |edges| + 1 && gs[0] == map[] &&
    forall i :: 0 <= i < |edges| ==> ForcedStep(gs, edges, oriented, i)
  }

  /** Step i of a run: gs[i + 1] is gs[i] after addEdgeForced(edges[i]). */
  ghost predicate ForcedStep<V>(gs: seq<map<V, seq<Edge<V>>>>, edges: seq<(V, V, int)>, oriented: bool, i: nat)
    requires i < |edges| && |gs| == |edges| + 1
  {
    gs[i + 1] == WithEdgeForced(gs[i], edges[i].0, edges[i].1, edges[i].2, oriented)
  }

  /** The sum of the weights of the first n edges of a list. */
  function EdgesWeight<V>(edges: seq<(V, V, int)>, n: nat): int
    requires n <= |edges|
  {
    if n == 0 then 0 else EdgesWeight(edges, n - 1) + edges[n - 1].2
  }

  /** Edge e leads from a to b, or also from b to a when undirected. */
  ghost predicate Joins<V>(e: (V, V, int), a: V, b: V, oriented: bool)
  {
    (e.0 == a && e.1 == b) || (!oriented && e.0 == b && e.1 == a)
  }

  /** No edge among the first n joins the same vertices as an earlier one. */
  ghost predicate NewEdges<V>(edges: seq<(V, V, int)>, n: nat, oriented: bool)
    requires n <= |edges|
  {
    forall i, j :: 0 <= j < i < n ==> !Joins(edges[j], edges[i].0, edges[i].1, oriented)
  }

  /** Every graph of a run of addEdgeForced calls is well formed. */
  lemma {:induction false} ForcedRunWellFormed<V>(gs: seq<map<V, seq<Edge<V>>>>, edges: seq<(V, V, int)>, oriented: bool, n: nat)
    requires ForcedRun(gs, edges, oriented) && n <= |edges|
    ensures WellFormed(gs[n], oriented)
  {
    if n > 0 {
      var e := edges[n - 1];
      assert ForcedStep(gs, edges, oriented, n - 1);
      ForcedRunWellFormed(gs, edges, oriented, n - 1);
      WithEdgeForcedWellFormed(gs[n - 1], e.0, e.1, e.2, oriented);
    }
  }

  /** In a run of addEdgeForced calls, a leads to b only if some forced edge joins them. */
  lemma {:induction false} ForcedRunLinks<V>(gs: seq<map<V, seq<Edge<V>>>>, edges: seq<(V, V, int)>, oriented: bool, n: nat, a: V, b: V)
    requires ForcedRun(gs, edges, oriented) && n <= |edges|
    requires a in gs[n] && WeightTo(gs[n][a], b).Some?
    ensures exists j :: 0 <= j < n && Joins(edges[j], a, b, oriented)
  {
    var g := gs[n - 1];
    var e := edges[n - 1];
    var (src, dest, w) := e;
    var g2 := WithVertex(WithVertex(g, src), dest);
    assert ForcedStep(gs, edges, oriented, n - 1);
    assert gs[n] == WithEdge(g2, src, dest, w, oriented);
    if a in g && WeightTo(g[a], b).Some? {
      ForcedRunLinks(gs, edges, oriented, n - 1, a, b);
    } else if WeightTo(g2[src], dest).None? {
      ForcedRunWellFormed(gs, edges, oriented, n - 1);
      WithVertexWellFormed(g, src, oriented);
      WithVertexWellFormed(WithVertex(g, src), dest, oriented);
      if b in g2 {
        WithEdgeLookup(g2, src, dest, w, oriented, a, b);
        assert Joins(e, a, b, oriented);
      } else {
        WithEdgeWellFormed(g2, src, dest, w, oriented);
        assert false;
      }
    }
  }

  /** Forcing n pairwise new edges stores one entry per edge when oriented and two when undirected. */
  lemma {:induction false} ForcedRunTotals<V>(gs: seq<map<V, seq<Edge<V>>>>, edges: seq<(V, V, int)>, oriented: bool, n: nat)
    requires ForcedRun(gs, edges, oriented) && n <= |edges| && NewEdges(edges, n, oriented)
    ensures oriented ==> EntryCount(gs[n]) == n && EntryWeight(gs[n]) == EdgesWeight(edges, n)
    ensures !oriented ==> EntryCount(gs[n]) == 2 * n && EntryWeight(gs[n]) == 2 * EdgesWeight(edges, n)
  {
    if n == 0 {
      assert gs[0] == map[];
    } else {
      NewEdgesPrefix(edges, n, oriented);
      ForcedRunTotals(gs, edges, oriented, n - 1);
      ForcedStepTotals(gs, edges, oriented, n - 1);
    }
  }

  /** A run's edges are new up to n, so also up to any m <= n. */
  lemma NewEdgesPrefix<V>(edges: seq<(V, V, int)>, n: nat, oriented: bool)
    requires 0 < n <= |edges| && NewEdges(edges, n, oriented)
    ensures NewEdges(edges, n - 1, oriented)
  {
  }

  /** Forcing a new edge in step i adds one entry (two when undirected) of that edge's weight. */
  lemma ForcedStepTotals<V>(gs: seq<map<V, seq<Edge<V>>>>, edges: seq<(V, V, int)>, oriented: bool, i: nat)
    requires ForcedRun(gs, edges, oriented) && i < |edges| && NewEdges(edges, i + 1, oriented)
    ensures EntryCount(gs[i + 1]) == EntryCount(gs[i]) + (if oriented then 1 else 2)
    ensures EntryWeight(gs[i + 1]) == EntryWeight(gs[i]) + (if oriented then edges[i].2 else 2 * edges[i].2)
  {
    var e := edges[i];
    assert ForcedStep(gs, edges, oriented, i);
    NewEdgeAbsent(gs, edges, oriented, i);
    WithEdgeForcedTotals(gs[i], e.0, e.1, e.2, oriented);
  }

  /** An edge new to a run is not yet linked when it is forced. */
  lemma NewEdgeAbsent<V>(gs: seq<map<V, seq<Edge<V>>>>, edges: seq<(V, V, int)>, oriented: bool, n: nat)
    requires ForcedRun(gs, edges, oriented) && n < |edges| && NewEdges(edges, n + 1, oriented)
    ensures edges[n].0 in gs[n] ==> WeightTo(gs[n][edges[n].0], edges[n].1).None?
  {
    if edges[n].0 in gs[n] && WeightTo(gs[n][edges[n].0], edges[n].1).Some? {
      ForcedRunLinks(gs, edges, oriented, n, edges[n].0, edges[n].1);
      assert false;
    }
  }

  /** The seven test edges weigh 36 together. */
  lemma TestEdgesWeight<V>(c: seq<V>)
    requires |c| == 7
    ensures EdgesWeight(TestEdges(c), 7) == 36
  {
    var e := TestEdges(c);
    assert EdgesWeight(e, 1) == 5;
    assert EdgesWeight(e, 2) == 17;
    assert EdgesWeight(e, 3) == 20;
    assert EdgesWeight(e, 4) == 26;
    assert EdgesWeight(e, 5) == 28;
    assert EdgesWeight(e, 6) == 35;
  }

  /** The seven test edges join seven distinct labels pairwise differently. */
  lemma TestEdgesAreNew<V>(c: seq<V>)
    requires |c| == 7 && forall i, j :: 0 <= i < j < 7 ==> c[i] != c[j]
    ensures NewEdges(TestEdges(c), 7, false)
  {
    var e := TestEdges(c);
    forall i, j | 0 <= j < i < 7
      ensures !Joins(e[j], e[i].0, e[i].1, false)
    {
    }
  }

  /** The unit tests' expectation: the undirected test graph has 7 edges and weighs 36. */
  lemma TestGraphTotals<V>(c: seq<V>, gs: seq<map<V, seq<Edge<V>>>>)
    requires |c| == 7 && forall i, j :: 0 <= i < j < 7 ==> c[i] != c[j]
    requires ForcedRun(gs, TestEdges(c), false)
    ensures EntryCount(gs[7]) / 2 == 7
    ensures EntryWeight(gs[7]) / 2 == 36
  {
    TestEdgesWeight(c);
    TestEdgesAreNew(c);
    ForcedRunTotals(gs, TestEdges(c), false, 7);
  }

  /** The graph as the source keeps it: a vertex map updated in place and a fixed orientation. */
  class Graph<V(==)> {
    var adjs: map<V, seq<Edge<V>>>
    const oriented: bool

    /** The invariant every mutator keeps. */
    ghost predicate Valid()
      reads this
    {
      WellFormed(adjs, oriented)
    }

    /** An empty graph of the given orientation. */
    constructor(oriented: bool)
      ensures this.oriented == oriented && adjs == map[] && Valid()
    {
      this.oriented := oriented;
      adjs := map[];
    }

    /** containsVertex */
    function ContainsVertex(v: V): (b: bool)
      reads this
      ensures b <==> v in adjs.Keys
    {
      v in adjs
    }

    /** vertexCount */
    function VertexCount(): (n: nat)
      reads this
      ensures n == |adjs.Keys|
    {
      |adjs|
    }

    /** isEmpty: no vertex at all. */
    function IsEmpty(): (b: bool)
      reads this
      ensures b <==> adjs.Keys == {}
      ensures b <==> VertexCount() == 0
    {
      |adjs| == 0
    }

    /** isOriented */
    function IsOriented(): (b: bool)
      ensures b <==> oriented
    {
      oriented
    }

    /** addVertex: a present vertex keeps its edges. */
    method AddVertex(v: V)
      requires Valid()
      modifies this
      ensures adjs == WithVertex(old(adjs), v) && Valid()
      ensures VertexCount() == old(VertexCount()) + (if v in old(adjs) then 0 else 1)
    {
      WithVertexWellFormed(adjs, v, oriented);
      if v !in adjs {
        adjs := adjs[v := []];
      }
    }

    /** The source's scan of src's list for an edge to dest, once both vertices are known present. */
    method FindEdge(src: V, dest: V) returns (found: bool)
      requires src in adjs
      ensures found <==> exists k :: 0 <= k < |adjs[src]| && adjs[src][k].dest == dest
    {
      var l := adjs[src];
      var i := 0;
      while i < |l|
        invariant i <= |l|
        invariant forall k :: 0 <= k < i ==> l[k].dest != dest
      {
        if l[i].dest == dest {
          return true;
        }
        i := i + 1;
      }
      return false;
    }

    /** containsEdge: a missing endpoint is an error, otherwise whether some edge of src leads to dest. */
    method ContainsEdge(src: V, dest: V) returns (r: Result<bool>)
      ensures r.Ok? || r == Err(VertexNotFound)
      ensures src !in adjs || dest !in adjs <==> r == Err(VertexNotFound)
      ensures r.Ok? ==> (r.value <==> exists k :: 0 <= k < |adjs[src]| && adjs[src][k].dest == dest)
    {
      if src !in adjs || dest !in adjs {
        return Err(VertexNotFound);
      }
      var found := FindEdge(src, dest);
      return Ok(found);
    }

    /** getEdgeWeight: the weight of the first edge from src to dest. */
    method GetEdgeWeight(src: V, dest: V) returns (r: Result<int>)
      ensures r.Ok? || r == Err(VertexNotFound) || r == Err(EdgeNotFound)
      ensures src !in adjs || dest !in adjs <==> r == Err(VertexNotFound)
      ensures src in adjs && dest in adjs ==>
        (r == Err(EdgeNotFound) <==> forall k :: 0 <= k < |adjs[src]| ==> adjs[src][k].dest != dest)
      ensures r.Ok? ==> exists k :: 0 <= k < |adjs[src]| && adjs[src][k] == Edge(dest, r.value) &&
                                  forall j :: 0 <= j < k ==> adjs[src][j].dest != dest
      ensures r.Ok? ==> WeightTo(adjs[src], dest) == Some(r.value)
    {
      if src !in adjs || dest !in adjs {
        return Err(VertexNotFound);
      }
      var l := adjs[src];
      var i := 0;
      while i < |l|
        invariant i <= |l|
        invariant forall k :: 0 <= k < i ==> l[k].dest != dest
      {
        if dest == l[i].dest {
          WeightToFirst(l, dest, i);
          return Ok(l[i].weight);
        }
        i := i + 1;
      }
      return Err(EdgeNotFound);
    }

    /** Appends one edge entry to a vertex's list. */
    method Link(src: V, e: Edge<V>)
      requires src in adjs
      modifies this
      ensures adjs == old(adjs)[src := old(adjs)[src] + [e]]
    {
      adjs := adjs[src := adjs[src] + [e]];
    }

    /** The shared tail of addEdge and addEdgeForced: append the edge unless src already leads to dest. */
    method Connect(src: V, dest: V, weight: int)
      requires src in adjs && dest in adjs
      modifies this
      ensures adjs == WithEdge(old(adjs), src, dest, weight, oriented)
    {
      var present := FindEdge(src, dest);
      if !present {
        adjs := adjs[src := adjs[src] + [Edge(dest, weight)]];
        if !oriented {
          adjs := adjs[dest := adjs[dest] + [Edge(src, weight)]];
        }
      }
    }

    /** addEdge: both endpoints must be present; an existing src-to-dest edge is left as it is. */
    method AddEdge(src: V, dest: V, weight: int) returns (o: Outcome)
      requires Valid()
      modifies this
      ensures Valid()
      ensures o.Pass? || o == Fail(VertexNotFound)
      ensures src !in old(adjs) || dest !in old(adjs) <==> o == Fail(VertexNotFound)
      ensures o.Fail? ==> adjs == old(adjs)
      ensures o.Pass? ==> adjs == WithEdge(old(adjs), src, dest, weight, oriented)
    {
      if src !in adjs || dest !in adjs {
        return Fail(VertexNotFound);
      }
      WithEdgeWellFormed(adjs, src, dest, weight, oriented);
      Connect(src, dest, weight);
      return Pass;
    }

    /** addEdgeForced: missing endpoints are added first. */
    method AddEdgeForced(src: V, dest: V, weight: int)
      requires Valid()
      modifies this
      ensures Valid()
      ensures adjs == WithEdgeForced(old(adjs), src, dest, weight, oriented)
    {
      AddVertex(src);
      AddVertex(dest);
      WithEdgeWellFormed(adjs, src, dest, weight, oriented);
      Connect(src, dest, weight);
    }

    /** The source's list-iterator pass removing every edge to v from one list. */
    static method DropEdgesTo(l: seq<Edge<V>>, v: V) returns (r: seq<Edge<V>>)
      ensures r == EdgesNotTo(l, v)
    {
      r := [];
      var i := 0;
      while i < |l|
        invariant i <= |l|
        invariant r == EdgesNotTo(l[..i], v)
      {
        assert l[..i + 1][..i] == l[..i];
        if l[i].dest != v {
          r := r + [l[i]];
        }
        i := i + 1;
      }
      assert l[..i] == l;
    }

    /** The source's pass over every remaining list, removing each edge to v. */
    method DropAllEdgesTo(v: V)
      modifies this
      ensures adjs == map a | a in old(adjs) :: EdgesNotTo(old(adjs)[a], v)
    {
      ghost var g0 := adjs;
      var keys := adjs.Keys;
      while keys != {}
        invariant keys <= adjs.Keys == g0.Keys
        invariant forall a :: a in adjs ==> adjs[a] == if a in keys then g0[a] else EdgesNotTo(g0[a], v)
        decreases keys
      {
        var a :| a in keys;
        var l := DropEdgesTo(adjs[a], v);
        adjs := adjs[a := l];
        keys := keys - {a};
      }
    }

    /** removeVertex: a missing vertex is an error; otherwise its list and every edge to it go. */
    method RemoveVertex(v: V) returns (o: Outcome)
      requires Valid()
      modifies this
      ensures Valid()
      ensures o.Pass? || o == Fail(VertexNotFound)
      ensures v !in old(adjs) <==> o == Fail(VertexNotFound)
      ensures o.Fail? ==> adjs == old(adjs)
      ensures o.Pass? ==> adjs == WithoutVertex(old(adjs), v)
    {
      if v !in adjs {
        return Fail(VertexNotFound);
      }
      WithoutVertexWellFormed(adjs, v, oriented);
      adjs := adjs - {v};
      DropAllEdgesTo(v);
      return Pass;
    }

    /** removeEdge: missing endpoints, then a missing edge, are errors; otherwise every src-to-dest entry goes, and undirected every dest-to-src entry too. */
    method RemoveEdge(src: V, dest: V) returns (o: Outcome)
      requires Valid()
      modifies this
      ensures Valid()
      ensures o.Pass? || o == Fail(VertexNotFound) || o == Fail(EdgeNotFound)
      ensures src !in old(adjs) || dest !in old(adjs) <==> o == Fail(VertexNotFound)
      ensures src in old(adjs) && dest in old(adjs) ==>
        (o == Fail(EdgeNotFound) <==> WeightTo(old(adjs)[src], dest).None?)
      ensures o.Fail? ==> adjs == old(adjs)
      ensures o.Pass? ==> adjs == WithoutEdge(old(adjs), src, dest, oriented)
    {
      if src !in adjs || dest !in adjs {
        return Fail(VertexNotFound);
      }
      var present := FindEdge(src, dest);
      if !present {
        return Fail(EdgeNotFound);
      }
      WithoutEdgeWellFormed(adjs, src, dest, oriented);
      var l := DropEdgesTo(adjs[src], dest);
      adjs := adjs[src := l];
      if !oriented {
        l := DropEdgesTo(adjs[dest], src);
        adjs := adjs[dest := l];
      }
      return Pass;
    }

    /** getAllVertex: every vertex once, in some order. */
    method GetAllVertex() returns (vs: seq<V>)
      ensures forall v :: v in vs <==> v in adjs
      ensures forall i, j :: 0 <= i < j < |vs| ==> vs[i] != vs[j]
      ensures |vs| == VertexCount()
    {
      vs := [];
      var keys := adjs.Keys;
      while keys != {}
        invariant keys <= adjs.Keys
        invariant forall v :: v in vs <==> v in adjs && v !in keys
        invariant forall i, j :: 0 <= i < j < |vs| ==> vs[i] != vs[j]
        invariant |vs| + |keys| == |adjs.Keys|
        decreases keys
      {
        var a :| a in keys;
        vs := vs + [a];
        keys := keys - {a};
      }
    }

    /** getVertexAdjs: the destinations of a vertex's edges, in list order; an absent vertex dereferences null. */
    method GetVertexAdjs(v: V) returns (r: Result<seq<V>>)
      ensures r.Ok? || r == Err(NullDereference)
      ensures v !in adjs <==> r == Err(NullDereference)
      ensures r.Ok? ==> |r.value| == |adjs[v]| && forall k :: 0 <= k < |r.value| ==> r.value[k] == adjs[v][k].dest
    {
      if v !in adjs {
        return Err(NullDereference);
      }
      var l := adjs[v];
      var out := [];
      var i := 0;
      while i < |l|
        invariant i <= |l| && |out| == i
        invariant forall k :: 0 <= k < i ==> out[k] == l[k].dest
      {
        out := out + [l[i].dest];
        i := i + 1;
      }
      return Ok(out);
    }

    /** edgeCount: the number of entries, halved when every edge is stored twice. */
    method EdgeCount() returns (n: int)
      ensures n == if oriented then EntryCount(adjs) else EntryCount(adjs) / 2
      ensures n >= 0
    {
      ghost var d := Degrees(adjs);
      var count := 0;
      var keys := adjs.Keys;
      SumOverNonNegative(d, keys);
      while keys != {}
        invariant keys <= adjs.Keys
        invariant count + SumOver(d, keys) == Sum(d)
        decreases keys
      {
        var a :| a in keys;
        SumOverRemove(d, keys, a);
        count := count + |adjs[a]|;
        keys := keys - {a};
      }
      n := if oriented then count else count / 2;
    }

    /** The sum of the weights of one list, as the source's inner loop adds them. */
    static method ListTotal(l: seq<Edge<V>>) returns (t: int)
      ensures t == ListWeight(l)
    {
      t := 0;
      var i := 0;
      while i < |l|
        invariant i <= |l|
        invariant t == ListWeight(l[..i])
      {
        assert l[..i + 1][..i] == l[..i];
        t := t + l[i].weight;
        i := i + 1;
      }
      assert l[..i] == l;
    }

    /** weight: the sum of all entry weights, halved when every edge is stored twice. */
    method Weight() returns (w: real)
      ensures w == if oriented then EntryWeight(adjs) as real else EntryWeight(adjs) as real / 2.0
    {
      ghost var d := ListWeights(adjs);
      var total := 0;
      var keys := adjs.Keys;
      while keys != {}
        invariant keys <= adjs.Keys
        invariant total + SumOver(d, keys) == Sum(d)
        decreases keys
      {
        var a :| a in keys;
        SumOverRemove(d, keys, a);
        var t := ListTotal(adjs[a]);
        total := total + t;
        keys := keys - {a};
      }
      w := if oriented then total as real else total as real / 2.0;
    }
  }
}
