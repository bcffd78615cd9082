/**
 * Prim's minimum-spanning-tree algorithm over the first graph version: every
 * vertex is queued with the "unreached" key, the start vertex's key is set
 * to 0, and then the vertex with the least key is extracted, attached to its
 * parent (or added alone when it has none) and its still-queued neighbours
 * are relaxed. The loop's bookkeeping is stated on values: q is the queue's
 * priority map, w the key map, p the parent map and res the result graph.
 */
module Prim {
  import opened Errors
  import opened Ordering
  import HeapSpec
  import opened PriorityQueues
  import opened GraphsV1
  import opened MstSpec

  // ---------------------------------------------------------------------
  // The loop's bookkeeping
  // ---------------------------------------------------------------------

  /**
   * The shapes of the maps: g is an undirected graph holding the start
   * vertex, the queued vertices are exactly those not yet in the result,
   * every vertex has a key, and a queued vertex's priority is its key.
   */
  ghost predicate Frame<V>(g: Adjs<V>, start: V, q: map<V, Key>, w: map<V, Key>, res: Adjs<V>)
  {
    && WellFormed(g, false) && start in g
    && q.Keys <= g.Keys
    && res.Keys == g.Keys - q.Keys
    && w.Keys == g.Keys
    && (forall v | v in q :: q[v] == w[v])
  }

  /** A parent is an extracted vertex, and the child's key is the weight of the edge from it. */
  ghost predicate ParentsOk<V>(g: Adjs<V>, w: map<V, Key>, p: map<V, V>, res: Adjs<V>)
  {
    forall v | v in p ::
      v in g && v in w && p[v] in res && p[v] in g && w[v].Finite? && WeightTo(g[p[v]], v) == Some(w[v].w)
  }

  /** No negative edge of g joins two distinct vertices of s. */
  ghost predicate NonNegativeAmong<V>(g: Adjs<V>, s: set<V>)
  {
    forall u, b {:trigger WeightTo(g[u], b)} | u in s && b in s && u != b && u in g :: WeightTo(g[u], b).Some? ==> WeightTo(g[u], b).value >= 0
  }

  /**
   * The result is an undirected subgraph of g with one edge per extracted
   * vertex that had a parent (roots counts those that had none), and no
   * negative edge of g joins two of its vertices.
   */
  ghost predicate Forest<V>(g: Adjs<V>, res: Adjs<V>, roots: nat)
  {
    && WellFormed(res, false)
    && SubgraphOf(res, g)
    && EntryCount(res) == 2 * (|res.Keys| - roots)
    && NonNegativeAmong(g, res.Keys)
  }

  /**
   * Until the start vertex is extracted it alone has a finite key; afterwards
   * every finite-keyed queued vertex has a parent; and a second root means
   * the graph is not connected.
   */
  ghost predicate Phase<V>(g: Adjs<V>, start: V, q: map<V, Key>, w: map<V, Key>, p: map<V, V>, first: bool, roots: nat)
  {
    && (first <==> start in q)
    && (first ==> roots == 0 && p == map[] && start in w && w[start].Finite? &&
                  forall v | v in q && v in w && v != start :: w[v].Infinite?)
    && (!first ==> roots >= 1 && forall v | v in q && v in w && w[v].Finite? :: v in p)
    && (roots >= 2 ==> !Connected(g))
  }

  /** What holds between extractions. */
  ghost predicate Core<V>(g: Adjs<V>, start: V, q: map<V, Key>, w: map<V, Key>, p: map<V, V>, res: Adjs<V>, first: bool, roots: nat)
  {
    Frame(g, start, q, w, res) && ParentsOk(g, w, p, res) && Forest(g, res, roots) && Phase(g, start, q, w, p, first, roots)
  }

  /** Every queued vertex in bs that u leads to was checked non-negative and has a parent. */
  ghost predicate ScannedFor<V>(g: Adjs<V>, q: map<V, Key>, p: map<V, V>, u: V, bs: set<V>)
  {
    u in g && forall b {:trigger WeightTo(g[u], b)} | b in q && b in bs :: WeightTo(g[u], b).Some? ==> WeightTo(g[u], b).value >= 0 && b in p
  }

  /** Every extracted vertex other than x has had its neighbours scanned. */
  ghost predicate ScannedExcept<V>(g: Adjs<V>, q: map<V, Key>, p: map<V, V>, res: Adjs<V>, x: V)
  {
    forall u | u in res && u != x :: ScannedFor(g, q, p, u, g.Keys)
  }

  /** Every extracted vertex has had its neighbours scanned. */
  ghost predicate AllScanned<V>(g: Adjs<V>, q: map<V, Key>, p: map<V, V>, res: Adjs<V>)
  {
    forall u | u in res :: ScannedFor(g, q, p, u, g.Keys)
  }

  /** The result after extracting `actual`: an isolated vertex without a parent, the edge to the parent otherwise. */
  ghost function Attach<V>(res: Adjs<V>, w: map<V, Key>, p: map<V, V>, actual: V): Adjs<V>
    requires actual in p ==> actual in w && w[actual].Finite?
  {
    if actual in p then WithEdgeForced(res, actual, p[actual], w[actual].w, false) else WithVertex(res, actual)
  }

  /** The keys after extracting `actual`: a parentless vertex's key is reset to 0. */
  ghost function Reset<V>(w: map<V, Key>, p: map<V, V>, actual: V): map<V, Key>
  {
    if actual in p then w else w[actual := Finite(0)]
  }

  // ---------------------------------------------------------------------
  // The bookkeeping across one step
  // ---------------------------------------------------------------------

  /** Before the loop: every vertex queued with the sentinel, the start vertex with key 0, nothing extracted. */
  lemma InitialCore<V>(g: Adjs<V>, start: V, w: map<V, Key>)
    requires WellFormed(g, false) && start in g && w.Keys == g.Keys
    requires w[start] == Finite(0) && forall v | v in w && v != start :: w[v].Infinite?
    ensures Core(g, start, w, w, map[], map[], true, 0)
    ensures AllScanned(g, w, map[], map[])
  {
    var empty: Adjs<V> := map[];
    assert Degrees(empty) == map[];
    assert EntryCount(empty) == 0;
  }

  /** Adding a new vertex alone keeps a closed subgraph a subgraph. */
  lemma AloneSubgraph<V>(g: Adjs<V>, res: Adjs<V>, actual: V)
    requires WellFormed(res, false) && SubgraphOf(res, g) && actual !in res
    ensures SubgraphOf(WithVertex(res, actual), g)
  {
    var res' := WithVertex(res, actual);
    forall a, b {:trigger WeightTo(res'[a], b)} | a in res' && b in res' && WeightTo(res'[a], b).Some?
      ensures a in g && WeightTo(g[a], b) == WeightTo(res'[a], b)
    {
      if a != actual {
        LinkedIsVertex(res, a, b);
      }
    }
  }

  /** Adding `actual` alone keeps an undirected subgraph and its entries. */
  lemma AttachAlone<V>(g: Adjs<V>, w: map<V, Key>, p: map<V, V>, res: Adjs<V>, actual: V)
    requires WellFormed(res, false) && SubgraphOf(res, g)
    requires actual !in p && actual !in res
    ensures var res' := Attach(res, w, p, actual);
      && WellFormed(res', false)
      && res'.Keys == res.Keys + {actual}
      && SubgraphOf(res', g)
      && EntryCount(res') == EntryCount(res)
  {
    WithVertexWellFormed(res, actual, false);
    WithVertexTotals(res, actual);
    AloneSubgraph(g, res, actual);
  }

  /** An edge of g from a new vertex to a vertex of a closed subgraph, forced both ways, keeps it a subgraph. */
  lemma EdgeSubgraph<V>(g: Adjs<V>, res: Adjs<V>, actual: V, par: V, x: int)
    requires WellFormed(res, false) && SubgraphOf(res, g)
    requires actual !in res && par in res && actual in g && par in g
    requires WeightTo(g[par], actual) == Some(x) && WeightTo(g[actual], par) == Some(x)
    ensures SubgraphOf(WithEdgeForced(res, actual, par, x, false), g)
  {
    var g2 := WithVertex(res, actual);
    var res' := WithEdgeForced(res, actual, par, x, false);
    assert WithVertex(g2, par) == g2;
    assert res' == WithEdge(g2, actual, par, x, false);
    NoEdgeTo(res, par, actual);
    assert WeightTo(g2[par], actual).None? && WeightTo(g2[actual], par).None?;
    forall a, b {:trigger WeightTo(res'[a], b)} | a in res' && b in res' && WeightTo(res'[a], b).Some?
      ensures a in g && WeightTo(g[a], b) == WeightTo(res'[a], b)
    {
      WithEdgeLookup(g2, actual, par, x, false, a, b);
    }
  }

  /** Attaching `actual` to its parent adds the parent's edge, both ways, to an undirected subgraph. */
  lemma AttachEdge<V>(g: Adjs<V>, w: map<V, Key>, p: map<V, V>, res: Adjs<V>, actual: V)
    requires WellFormed(g, false) && ParentsOk(g, w, p, res)
    requires WellFormed(res, false) && SubgraphOf(res, g)
    requires actual in p && actual !in res
    ensures var res' := Attach(res, w, p, actual);
      && WellFormed(res', false)
      && res'.Keys == res.Keys + {actual}
      && SubgraphOf(res', g)
      && EntryCount(res') == EntryCount(res) + 2
  {
    var par, x := p[actual], w[actual].w;
    assert WeightTo(g[par], actual) == Some(x);
    assert WeightTo(g[actual], par) == Some(x);
    WithEdgeForcedWellFormed(res, actual, par, x, false);
    NoEdgeTo(res, par, actual);
    WithEdgeForcedTotals(res, actual, par, x, false);
    EdgeSubgraph(g, res, actual, par, x);
  }

  /** The edges from a newly extracted vertex to extracted ones were scanned, so none is negative. */
  lemma AttachNonNegative<V>(g: Adjs<V>, q: map<V, Key>, p: map<V, V>, res: Adjs<V>, actual: V)
    requires WellFormed(g, false) && NonNegativeAmong(g, res.Keys) && AllScanned(g, q, p, res)
    requires actual in q && actual in g && res.Keys <= g.Keys
    ensures NonNegativeAmong(g, res.Keys + {actual})
  {
    forall u, b {:trigger WeightTo(g[u], b)} | u in res.Keys + {actual} && b in res.Keys + {actual} && u != b && u in g && WeightTo(g[u], b).Some?
      ensures WeightTo(g[u], b).value >= 0
    {
      if u == actual {
        assert ScannedFor(g, q, p, b, g.Keys);
        assert WeightTo(g[b], actual) == WeightTo(g[actual], b);
      } else if b == actual {
        assert ScannedFor(g, q, p, u, g.Keys);
      }
    }
  }

  /** The result graph after one extraction stays a forest of the same kind, one vertex larger. */
  lemma AttachStep<V>(g: Adjs<V>, start: V, q: map<V, Key>, w: map<V, Key>, p: map<V, V>, res: Adjs<V>, roots: nat, actual: V)
    requires Frame(g, start, q, w, res) && ParentsOk(g, w, p, res) && Forest(g, res, roots) && AllScanned(g, q, p, res)
    requires actual in q
    ensures actual in p ==> w[actual].Finite?
    ensures Attach(res, w, p, actual).Keys == res.Keys + {actual}
    ensures Forest(g, Attach(res, w, p, actual), if actual in p then roots else roots + 1)
  {
    if actual in p {
      AttachEdge(g, w, p, res, actual);
    } else {
      AttachAlone(g, w, p, res, actual);
    }
    AttachNonNegative(g, q, p, res, actual);
  }

  /** A second vertex extracted without a parent proves the graph disconnected: nothing leads from the extracted vertices to the queued ones. */
  lemma SecondRoot<V>(g: Adjs<V>, start: V, q: map<V, Key>, w: map<V, Key>, p: map<V, V>, res: Adjs<V>, roots: nat, actual: V)
    requires Frame(g, start, q, w, res) && ParentsOk(g, w, p, res) && Phase(g, start, q, w, p, false, roots)
    requires AllScanned(g, q, p, res)
    requires actual in q && actual !in p
    requires forall e | e in q :: MinCompare(q[actual], q[e]) >= 0
    ensures !Connected(g)
  {
    var s := res.Keys;
    assert start in s;
    assert q[actual].Infinite?;
    forall a, b {:trigger WeightTo(g[a], b)} | a in s && a in g && b in g && b !in s
      ensures WeightTo(g[a], b).None?
    {
      if WeightTo(g[a], b).Some? {
        assert false;
      }
    }
    assert !Crossed(g, s);
    assert s <= g.Keys && s != {} && s != g.Keys;
  }

  /** The first extraction takes the start vertex, the only one with a finite key, as the first root. */
  lemma PhaseFirst<V>(g: Adjs<V>, start: V, q: map<V, Key>, w: map<V, Key>, p: map<V, V>, res: Adjs<V>, roots: nat, actual: V)
    requires Frame(g, start, q, w, res) && Phase(g, start, q, w, p, true, roots)
    requires actual in q && start in q && MinCompare(q[actual], q[start]) >= 0
    ensures actual == start && actual !in p
    ensures Phase(g, start, q - {actual}, Reset(w, p, actual), p, false, roots + 1)
  {
    StartLeast(q[actual], q[start]);
  }

  /** Nothing but a finite key ranks at least as high as a finite key under the minimizing comparator. */
  lemma StartLeast(a: Key, z: Key)
    requires z.Finite? && MinCompare(a, z) >= 0
    ensures a.Finite?
  {
  }

  /** A later extraction keeps the phase; a second root disconnects the graph. */
  lemma PhaseLater<V>(g: Adjs<V>, start: V, q: map<V, Key>, w: map<V, Key>, p: map<V, V>, res: Adjs<V>, roots: nat, actual: V)
    requires Frame(g, start, q, w, res) && ParentsOk(g, w, p, res) && Phase(g, start, q, w, p, false, roots)
    requires AllScanned(g, q, p, res)
    requires actual in q && forall e | e in q :: MinCompare(q[actual], q[e]) >= 0
    ensures Phase(g, start, q - {actual}, Reset(w, p, actual), p, false, if actual in p then roots else roots + 1)
  {
    if actual !in p && roots == 1 {
      SecondRoot(g, start, q, w, p, res, roots, actual);
    }
  }

  /** One extraction of a least-key vertex keeps the bookkeeping, except that the vertex's own neighbours are still to be scanned. */
  lemma ExtractStep<V>(g: Adjs<V>, start: V, q: map<V, Key>, w: map<V, Key>, p: map<V, V>, res: Adjs<V>, first: bool, roots: nat, actual: V)
    requires Core(g, start, q, w, p, res, first, roots) && AllScanned(g, q, p, res)
    requires actual in q && forall e | e in q :: MinCompare(q[actual], q[e]) >= 0
    ensures actual in p ==> actual in w && w[actual].Finite?
    ensures first ==> actual == start
    ensures Core(g, start, q - {actual}, Reset(w, p, actual), p, Attach(res, w, p, actual), false, if actual in p then roots else roots + 1)
    ensures ScannedExcept(g, q - {actual}, p, Attach(res, w, p, actual), actual)
    ensures actual in Attach(res, w, p, actual)
  {
    AttachStep(g, start, q, w, p, res, roots, actual);
    if first {
      assert MinCompare(q[actual], q[start]) >= 0;
      PhaseFirst(g, start, q, w, p, res, roots, actual);
    } else {
      PhaseLater(g, start, q, w, p, res, roots, actual);
    }
    FrameStep(g, start, q, w, p, res, actual);
    ParentsStep(g, w, p, res, actual);
    ScannedStep(g, q, w, p, res, actual);
  }

  /** Extracting `actual` moves it from the queue to the result and keeps the key map total. */
  lemma FrameStep<V>(g: Adjs<V>, start: V, q: map<V, Key>, w: map<V, Key>, p: map<V, V>, res: Adjs<V>, actual: V)
    requires Frame(g, start, q, w, res) && actual in q
    requires actual in p ==> w[actual].Finite?
    requires Attach(res, w, p, actual).Keys == res.Keys + {actual}
    ensures Frame(g, start, q - {actual}, Reset(w, p, actual), Attach(res, w, p, actual))
  {
  }

  /** Extracting a vertex changes no recorded parent edge: only a parentless vertex's key is reset. */
  lemma ParentsStep<V>(g: Adjs<V>, w: map<V, Key>, p: map<V, V>, res: Adjs<V>, actual: V)
    requires ParentsOk(g, w, p, res)
    requires actual in p ==> actual in w && w[actual].Finite?
    requires res.Keys <= Attach(res, w, p, actual).Keys
    ensures ParentsOk(g, Reset(w, p, actual), p, Attach(res, w, p, actual))
  {
  }

  /** The vertices scanned before stay scanned once the queue shrinks. */
  lemma ScannedStep<V>(g: Adjs<V>, q: map<V, Key>, w: map<V, Key>, p: map<V, V>, res: Adjs<V>, actual: V)
    requires AllScanned(g, q, p, res)
    requires actual in p ==> actual in w && w[actual].Finite?
    requires Attach(res, w, p, actual).Keys == res.Keys + {actual}
    ensures ScannedExcept(g, q - {actual}, p, Attach(res, w, p, actual), actual)
  {
    forall u | u in Attach(res, w, p, actual) && u != actual
      ensures ScannedFor(g, q - {actual}, p, u, g.Keys)
    {
      assert ScannedFor(g, q, p, u, g.Keys);
    }
  }

  /** Scanning one queued neighbour b of `actual` with a non-negative edge: relax its key when the edge is lighter. */
  lemma RelaxStep<V>(g: Adjs<V>, start: V, q: map<V, Key>, w: map<V, Key>, p: map<V, V>, res: Adjs<V>, roots: nat,
                     actual: V, bs: set<V>, b: V, ew: int)
    requires Core(g, start, q, w, p, res, false, roots) && actual in res
    requires ScannedExcept(g, q, p, res, actual) && ScannedFor(g, q, p, actual, bs)
    requires b in q && WeightTo(g[actual], b) == Some(ew) && ew >= 0
    ensures b in w
    ensures var relax := KeyBelow(Finite(ew), w[b]);
      var w' := if relax then w[b := Finite(ew)] else w;
      var q' := if relax then q[b := Finite(ew)] else q;
      var p' := if relax then p[b := actual] else p;
      && Core(g, start, q', w', p', res, false, roots)
      && ScannedExcept(g, q', p', res, actual)
      && ScannedFor(g, q', p', actual, bs + {b})
  {
    if KeyBelow(Finite(ew), w[b]) {
      RelaxFrame(g, start, q, w, res, b, ew);
      RelaxParents(g, w, p, res, actual, b, ew);
      RelaxPhase(g, start, q, w, p, roots, actual, b, ew);
      RelaxScanned(g, q, p, res, actual, bs, b, ew);
    } else {
      assert w[b].Finite?;
    }
  }

  /** Lowering a queued vertex's key in both maps keeps them in step. */
  lemma RelaxFrame<V>(g: Adjs<V>, start: V, q: map<V, Key>, w: map<V, Key>, res: Adjs<V>, b: V, ew: int)
    requires Frame(g, start, q, w, res) && b in q
    ensures Frame(g, start, q[b := Finite(ew)], w[b := Finite(ew)], res)
  {
    assert q[b := Finite(ew)].Keys == q.Keys;
  }

  /** Making an extracted vertex the parent of b, with the key of the edge between them, keeps every parent edge in g. */
  lemma RelaxParents<V>(g: Adjs<V>, w: map<V, Key>, p: map<V, V>, res: Adjs<V>, actual: V, b: V, ew: int)
    requires ParentsOk(g, w, p, res) && actual in res && actual in g && b in g && b in w
    requires WeightTo(g[actual], b) == Some(ew)
    ensures ParentsOk(g, w[b := Finite(ew)], p[b := actual], res)
  {
  }

  /** After the first extraction, a vertex given a finite key is given a parent with it. */
  lemma RelaxPhase<V>(g: Adjs<V>, start: V, q: map<V, Key>, w: map<V, Key>, p: map<V, V>, roots: nat, actual: V, b: V, ew: int)
    requires Phase(g, start, q, w, p, false, roots) && b in q
    ensures Phase(g, start, q[b := Finite(ew)], w[b := Finite(ew)], p[b := actual], false, roots)
  {
    assert q[b := Finite(ew)].Keys == q.Keys;
  }

  /** Giving b a parent keeps every scan done so far, and completes the scan of b from `actual`. */
  lemma RelaxScanned<V>(g: Adjs<V>, q: map<V, Key>, p: map<V, V>, res: Adjs<V>, actual: V, bs: set<V>, b: V, ew: int)
    requires ScannedExcept(g, q, p, res, actual) && ScannedFor(g, q, p, actual, bs)
    requires b in q && WeightTo(g[actual], b) == Some(ew) && ew >= 0
    ensures ScannedExcept(g, q[b := Finite(ew)], p[b := actual], res, actual)
    ensures ScannedFor(g, q[b := Finite(ew)], p[b := actual], actual, bs + {b})
  {
    var q', p' := q[b := Finite(ew)], p[b := actual];
    assert q'.Keys == q.Keys;
    forall u | u in res && u != actual ensures ScannedFor(g, q', p', u, g.Keys) {
      assert ScannedFor(g, q, p, u, g.Keys);
    }
  }

  /** A neighbour no longer queued needs no scanning. */
  lemma SkipStep<V>(g: Adjs<V>, q: map<V, Key>, p: map<V, V>, actual: V, bs: set<V>, b: V)
    requires ScannedFor(g, q, p, actual, bs) && b !in q
    ensures ScannedFor(g, q, p, actual, bs + {b})
  {
  }

  /** Once every destination in actual's list is scanned, every neighbour is. */
  lemma ScanDone<V>(g: Adjs<V>, q: map<V, Key>, p: map<V, V>, res: Adjs<V>, actual: V, bs: set<V>)
    requires ScannedExcept(g, q, p, res, actual) && ScannedFor(g, q, p, actual, bs)
    requires forall k :: 0 <= k < |g[actual]| ==> g[actual][k].dest in bs
    ensures AllScanned(g, q, p, res)
  {
    forall b {:trigger WeightTo(g[actual], b)} | b in q && b in g.Keys && WeightTo(g[actual], b).Some?
      ensures WeightTo(g[actual], b).value >= 0 && b in p
    {
      var k :| 0 <= k < |g[actual]| && g[actual][k].dest == b;
    }
  }

  /** When the queue is empty every vertex is in the result, no negative edge joins two vertices, and a connected graph yields |V| - 1 edges. */
  lemma Finished<V>(g: Adjs<V>, start: V, w: map<V, Key>, p: map<V, V>, res: Adjs<V>, first: bool, roots: nat)
    requires Core(g, start, map[], w, p, res, first, roots)
    ensures res.Keys == g.Keys
    ensures !NegativeLink(g)
    ensures Connected(g) ==> EntryCount(res) == 2 * (|g.Keys| - 1)
  {
    assert !first;
    assert NonNegativeAmong(g, res.Keys);
  }

  // ---------------------------------------------------------------------
  // The algorithm
  // ---------------------------------------------------------------------

  /** The map the bulk constructor builds from distinct vertices and sentinel priorities is the sentinel key map. */
  lemma SentinelMap<V>(allVertex: seq<V>, priorities: seq<Key>, weights: map<V, Key>)
    requires forall j, k :: 0 <= j < k < |allVertex| ==> allVertex[j] != allVertex[k]
    requires |priorities| == |allVertex| && forall k :: 0 <= k < |priorities| ==> priorities[k] == Infinite
    requires forall v :: v in weights <==> v in allVertex
    requires forall v | v in weights :: weights[v] == Infinite
    ensures HeapSpec.ZipMap(allVertex, priorities) == weights
  {
    HeapSpec.ZipMapLookup(allVertex, priorities);
    var m := HeapSpec.ZipMap(allVertex, priorities);
    forall v | v in weights ensures v in m && m[v] == weights[v] {
      var k :| 0 <= k < |allVertex| && allVertex[k] == v;
    }
    assert m.Keys == weights.Keys;
  }

  /**
   * The set-up: a key map holding the sentinel for every vertex, a queue
   * built in bulk from every vertex with the same, and then key 0 for the
   * start vertex in both.
   */
  method Initialize<V(==)>(allVertex: seq<V>, start: V) returns (queue: PriorityQueue<V, Key>, weights: map<V, Key>)
    requires forall j, k :: 0 <= j < k < |allVertex| ==> allVertex[j] != allVertex[k]
    requires start in allVertex
    ensures fresh(queue) && queue.Valid() && queue.cmp == MinCompare
    ensures queue.Priorities() == weights
    ensures forall v :: v in weights <==> v in allVertex
    ensures weights[start] == Finite(0) && forall v | v in weights && v != start :: weights[v].Infinite?
  {
    weights := map[];
    var i := 0;
    while i < |allVertex|
      invariant i <= |allVertex|
      invariant forall k :: 0 <= k < i ==> allVertex[k] in weights
      invariant forall v | v in weights :: v in allVertex[..i] && weights[v] == Infinite
    {
      weights := weights[allVertex[i] := Infinite];
      i := i + 1;
    }
    assert allVertex[..i] == allVertex;

    var priorities := seq(|allVertex|, _ => Infinite);
    SentinelMap(allVertex, priorities, weights);
    assert priorities[..|allVertex|] == priorities;
    MinCompareIsComparator();
    var built := PriorityQueue.Build(allVertex, priorities, MinCompare);
    assert built.Ok?;
    queue := built.value;

    weights := weights[start := Finite(0)];
    var o := queue.UpdatePriority(start, Finite(0));
    assert o.Pass?;
  }

  /**
   * The inner loop over actual's neighbours: each one still queued is
   * checked for a negative edge and relaxed when the edge beats its key.
   * `failed` reports the negative edge that aborts the algorithm.
   */
  method RelaxNeighbours<V(==)>(g: Graph<V>, queue: PriorityQueue<V, Key>, result: Graph<V>, start: V, actual: V,
                                weights0: map<V, Key>, parents0: map<V, V>, ghost roots: nat)
    returns (failed: bool, weights: map<V, Key>, parents: map<V, V>)
    requires queue.Valid() && queue.cmp == MinCompare
    requires Core(g.adjs, start, queue.Priorities(), weights0, parents0, result.adjs, false, roots)
    requires actual in result.adjs
    requires ScannedExcept(g.adjs, queue.Priorities(), parents0, result.adjs, actual)
    modifies queue
    ensures queue.Valid() && queue.cmp == MinCompare
    ensures queue.Priorities().Keys == old(queue.Priorities()).Keys
    ensures failed ==> NegativeLink(g.adjs)
    ensures !failed ==> Core(g.adjs, start, queue.Priorities(), weights, parents, result.adjs, false, roots)
    ensures !failed ==> AllScanned(g.adjs, queue.Priorities(), parents, result.adjs)
  {
    weights, parents := weights0, parents0;
    assert actual in g.adjs;
    var adjsResult := g.GetVertexAdjs(actual);
    assert adjsResult.Ok?;
    var adjs := adjsResult.value;
    ghost var q0 := queue.Priorities();
    ghost var gs, rs := g.adjs, result.adjs;
    assert g as object != queue && result as object != queue;
    ghost var q := q0;
    ghost var scanned: set<V> := {};
    var j := 0;
    while j < |adjs|
      invariant j <= |adjs| && g.adjs == gs && result.adjs == rs
      invariant queue.Valid() && queue.cmp == MinCompare && queue.Priorities() == q && q.Keys == q0.Keys
      invariant Core(gs, start, q, weights, parents, rs, false, roots)
      invariant ScannedExcept(gs, q, parents, rs, actual)
      invariant ScannedFor(gs, q, parents, actual, scanned)
      invariant forall k :: 0 <= k < j ==> adjs[k] in scanned
    {
      ghost var scanned' := scanned + {adjs[j]};
      assert forall k :: 0 <= k < j + 1 ==> adjs[k] in scanned';
      ghost var w0, p0 := weights, parents;
      var failed;
      ghost var ew, relaxed;
      failed, weights, parents, ew, relaxed := ScanNeighbour(g, queue, actual, j, adjs[j], weights, parents);
      if failed {
        assert actual != adjs[j] && WeightTo(gs[actual], adjs[j]).value < 0;
        return true, weights, parents;
      }
      if adjs[j] in q {
        RelaxStep(gs, start, q, w0, p0, rs, roots, actual, scanned, adjs[j], ew);
      } else {
        SkipStep(gs, q, parents, actual, scanned, adjs[j]);
      }
      q := if relaxed then q[adjs[j] := Finite(ew)] else q;
      scanned := scanned';
      j := j + 1;
    }
    ScanDone(gs, q, parents, rs, actual, scanned);
    return false, weights, parents;
  }

  /**
   * One pass of the inner loop on the j-th destination of actual's list.
   * When it is still queued, a negative edge to it fails, and otherwise its
   * key is lowered to the edge weight, with `actual` as its parent, when the
   * edge is lighter than its key. `ew` is the edge weight and `relaxed` says
   * whether the key was lowered.
   */
  method ScanNeighbour<V(==)>(g: Graph<V>, queue: PriorityQueue<V, Key>, actual: V, j: nat, adiacent: V,
                              weights0: map<V, Key>, parents0: map<V, V>)
    returns (failed: bool, weights: map<V, Key>, parents: map<V, V>, ghost ew: int, ghost relaxed: bool)
    requires g.Valid() && queue.Valid() && queue.cmp == MinCompare
    requires actual in g.adjs && j < |g.adjs[actual]| && g.adjs[actual][j].dest == adiacent
    requires queue.Priorities().Keys <= weights0.Keys
    modifies queue
    ensures queue.Valid() && queue.cmp == MinCompare
    ensures failed || relaxed ==> adiacent in old(queue.Priorities())
    ensures adiacent in old(queue.Priorities()) ==> WeightTo(g.adjs[actual], adiacent) == Some(ew)
    ensures failed <==> adiacent in old(queue.Priorities()) && ew < 0
    ensures failed ==> queue.Priorities() == old(queue.Priorities())
    ensures !failed ==> (relaxed <==> adiacent in old(queue.Priorities()) && KeyBelow(Finite(ew), weights0[adiacent]))
    ensures queue.Priorities().Keys == old(queue.Priorities()).Keys
    ensures !failed ==> queue.Priorities() == if relaxed then old(queue.Priorities())[adiacent := Finite(ew)] else old(queue.Priorities())
    ensures !failed ==> weights == if relaxed then weights0[adiacent := Finite(ew)] else weights0
    ensures !failed ==> parents == if relaxed then parents0[adiacent := actual] else parents0
  {
    failed, weights, parents, ew, relaxed := false, weights0, parents0, 0, false;
    assert g as object != queue;
    if !queue.Contains(adiacent) {
      return;
    }
    var ewr := g.GetEdgeWeight(actual, adiacent);
    assert ewr.Ok?;
    var edgeWeight := ewr.value;
    ew := edgeWeight;
    if edgeWeight < 0 {
      failed := true;
      return;
    }
    if KeyBelow(Finite(edgeWeight), weights[adiacent]) {
      weights := weights[adiacent := Finite(edgeWeight)];
      var u := queue.UpdatePriority(adiacent, Finite(edgeWeight));
      assert u.Pass?;
      parents := parents[adiacent := actual];
      relaxed := true;
    }
  }

  /**
   * The first half of a round: extract a least-key vertex and add it to the
   * result, alone when it has no parent, with the edge to its parent
   * otherwise.
   */
  method ExtractAndAttach<V(==)>(queue: PriorityQueue<V, Key>, result: Graph<V>, weights: map<V, Key>, parents: map<V, V>)
    returns (actual: V)
    requires queue.Valid() && queue.cmp == MinCompare && queue.Priorities() != map[]
    requires result.Valid() && !result.oriented
    requires forall v | v in parents :: v in weights && weights[v].Finite?
    modifies queue, result
    ensures queue.Valid() && queue.cmp == MinCompare && result.Valid() && !result.oriented
    ensures actual in old(queue.Priorities()) && queue.Priorities() == old(queue.Priorities()) - {actual}
    ensures queue.Priorities().Keys == old(queue.Priorities()).Keys - {actual}
    ensures forall e | e in old(queue.Priorities()) :: MinCompare(old(queue.Priorities())[actual], old(queue.Priorities())[e]) >= 0
    ensures actual in parents ==> actual in weights && weights[actual].Finite?
    ensures result.adjs == Attach(old(result.adjs), weights, parents, actual)
  {
    assert queue as object != result;
    var er := queue.ExtractRec();
    assert er.Ok?;
    actual := er.value;
    if actual !in parents {
      result.AddVertex(actual);
    } else {
      result.AddEdgeForced(actual, parents[actual], weights[actual].w);
    }
  }

  /**
   * One round of the outer loop: extract a least-key vertex, attach it to
   * the result (resetting its key to 0 when it has no parent), then scan its
   * neighbours. The bookkeeping holds again afterwards unless a negative
   * edge was met.
   */
  method Round<V(==)>(g: Graph<V>, queue: PriorityQueue<V, Key>, result: Graph<V>, start: V,
                      weights0: map<V, Key>, parents0: map<V, V>, ghost first: bool, ghost roots0: nat)
    returns (actual: V, failed: bool, weights: map<V, Key>, parents: map<V, V>, ghost roots: nat)
    requires g != result
    requires queue.Valid() && queue.cmp == MinCompare && queue.Priorities() != map[] && result.Valid() && !result.oriented
    requires Core(g.adjs, start, queue.Priorities(), weights0, parents0, result.adjs, first, roots0)
    requires AllScanned(g.adjs, queue.Priorities(), parents0, result.adjs)
    modifies queue, result
    ensures queue.Valid() && queue.cmp == MinCompare && result.Valid() && !result.oriented
    ensures actual in old(queue.Priorities()) && queue.Priorities().Keys == old(queue.Priorities()).Keys - {actual}
    ensures actual !in old(result.adjs) && result.adjs.Keys == old(result.adjs).Keys + {actual}
    ensures failed ==> NegativeLink(g.adjs)
    ensures !failed ==> Core(g.adjs, start, queue.Priorities(), weights, parents, result.adjs, false, roots)
    ensures !failed ==> AllScanned(g.adjs, queue.Priorities(), parents, result.adjs)
  {
    assert g as object != queue && result as object != queue;
    ghost var gs, q, res0 := g.adjs, queue.Priorities(), result.adjs;
    actual := ExtractAndAttach(queue, result, weights0, parents0);
    ExtractStep(gs, start, q, weights0, parents0, res0, first, roots0, actual);
    weights, parents := weights0, parents0;
    if actual !in parents {
      weights := weights[actual := Finite(0)];
    }
    roots := if actual in parents then roots0 else roots0 + 1;
    failed, weights, parents := RelaxNeighbours(g, queue, result, start, actual, weights, parents, roots);
  }

  /**
   * The outer loop of mstPrim, from the state the initialization leaves: the
   * whole vertex set queued with the sentinel key but the start vertex, with
   * key 0, and nothing extracted. It fails exactly when the graph has a
   * negative edge; otherwise the result is a subgraph of g on all its
   * vertices, with |V| - 1 edges when g is connected, after |V| rounds.
   */
  method RunRounds<V(==)>(g: Graph<V>, queue: PriorityQueue<V, Key>, result: Graph<V>, start: V, weights0: map<V, Key>)
    returns (failed: bool, ghost rounds: nat)
    requires g != result
    requires queue.Valid() && queue.cmp == MinCompare && result.Valid() && !result.oriented && result.adjs == map[]
    requires Core(g.adjs, start, queue.Priorities(), weights0, map[], map[], true, 0)
    requires AllScanned(g.adjs, queue.Priorities(), map[], map[])
    modifies queue, result
    ensures failed <==> NegativeLink(g.adjs)
    ensures !failed ==> result.Valid() && !result.oriented
    ensures !failed ==> result.adjs.Keys == g.adjs.Keys && SubgraphOf(result.adjs, g.adjs)
    ensures !failed ==> rounds == |g.adjs.Keys|
    ensures !failed && Connected(g.adjs) ==> EntryCount(result.adjs) == 2 * (|g.adjs.Keys| - 1)
  {
    assert g as object != queue && result as object != queue;
    var weights, parents: map<V, V> := weights0, map[];
    rounds := 0;
    ghost var first := true;
    ghost var roots: nat := 0;
    while !queue.IsEmpty()
      invariant queue.Valid() && queue.cmp == MinCompare && result.Valid() && !result.oriented
      invariant Core(g.adjs, start, queue.Priorities(), weights, parents, result.adjs, first, roots)
      invariant AllScanned(g.adjs, queue.Priorities(), parents, result.adjs)
      invariant rounds == |result.adjs.Keys|
      decreases queue.Priorities().Keys
    {
      var actual;
      actual, failed, weights, parents, roots := Round(g, queue, result, start, weights, parents, first, roots);
      first := false;
      rounds := rounds + 1;
      if failed {
        return;
      }
    }
    Finished(g.adjs, start, weights, parents, result.adjs, first, roots);
    failed := false;
  }

  /**
   * mstPrim with the minimizing comparator. A null graph, an oriented graph
   * and a missing start vertex are rejected in that order; a negative edge
   * met while relaxing aborts. The result is a new undirected graph on the
   * same vertices whose edges are edges of g with their weights, one per
   * vertex extracted with a parent, so |V| - 1 of them when g is connected.
   * `rounds` counts the loop's iterations.
   */
  method MstPrim<V(==)>(g: Graph?<V>, start: V) returns (r: Result<Graph<V>>, ghost rounds: nat)
    requires g != null ==> g.Valid()
    ensures g == null <==> r == Err(InvalidArgument)
    ensures g != null ==> (g.oriented <==> r == Err(UnsupportedOrientation))
    ensures g != null && !g.oriented ==> (start !in g.adjs <==> r == Err(VertexNotFound))
    ensures g != null && !g.oriented && start in g.adjs ==>
      (r.Ok? || r == Err(UnsupportedNegativeWeight)) && (r == Err(UnsupportedNegativeWeight) <==> NegativeLink(g.adjs))
    ensures r.Ok? ==> g != null && r.value.Valid() && !r.value.oriented && fresh(r.value)
    ensures r.Ok? ==> r.value.adjs.Keys == g.adjs.Keys && SubgraphOf(r.value.adjs, g.adjs)
    ensures r.Ok? ==> rounds == g.VertexCount()
    ensures r.Ok? && Connected(g.adjs) ==> EntryCount(r.value.adjs) == 2 * (g.VertexCount() - 1)
  {
    rounds := 0;
    if g == null {
      return Err(InvalidArgument), rounds;
    }
    if g.IsOriented() {
      return Err(UnsupportedOrientation), rounds;
    }
    if !g.ContainsVertex(start) {
      return Err(VertexNotFound), rounds;
    }

    r, rounds := MstFrom(g, start);
  }

  /**
   * mstPrim once its argument checks have passed: queue every vertex, run the
   * rounds, and hand back the result graph unless a negative edge was met.
   */
  method MstFrom<V(==)>(g: Graph<V>, start: V) returns (r: Result<Graph<V>>, ghost rounds: nat)
    requires g.Valid() && !g.oriented && start in g.adjs
    ensures r.Ok? || r == Err(UnsupportedNegativeWeight)
    ensures r == Err(UnsupportedNegativeWeight) <==> NegativeLink(g.adjs)
    ensures r.Ok? ==> r.value.Valid() && !r.value.oriented && fresh(r.value)
    ensures r.Ok? ==> r.value.adjs.Keys == g.adjs.Keys && SubgraphOf(r.value.adjs, g.adjs)
    ensures r.Ok? ==> rounds == g.VertexCount()
    ensures r.Ok? && Connected(g.adjs) ==> EntryCount(r.value.adjs) == 2 * (g.VertexCount() - 1)
  {
    var allVertex := g.GetAllVertex();
    var result := new Graph<V>(false);
    var queue, weights := Initialize(allVertex, start);
    InitialCore(g.adjs, start, weights);
    var failed;
    failed, rounds := RunRounds(g, queue, result, start, weights);
    if failed {
      return Err(UnsupportedNegativeWeight), rounds;
    }
    return Ok(result), rounds;
  }
}
