/**
 * The second graph version: each vertex maps to the list of its neighbours,
 * and the weights live in a separate weight table with a running aggregate.
 * The value-level transitions below are the effect of each mutator on the
 * triple (lists, table, aggregate); the class performs them step by step.
 */
module GraphsV2 {
  import opened Errors
  import opened Sums
  import opened WeightTables

  // ---------------------------------------------------------------------
  // Lists
  // ---------------------------------------------------------------------

  /** LinkedList.remove(Object): the list without the first occurrence of x, if any. */
  ghost function RemoveFirst<V>(l: seq<V>, x: V): (r: seq<V>)
    ensures x in l ==> |r| == |l| - 1
    ensures x !in l ==> r == l
    decreases |l|
  {
    if |l| == 0 then []
    else if l[0] == x then l[1..]
    else [l[0]] + RemoveFirst(l[1..], x)
  }

  /** Removing the first occurrence takes exactly one x out of the list's multiset. */
  lemma {:induction false} RemoveFirstMultiset<V>(l: seq<V>, x: V)
    ensures multiset(RemoveFirst(l, x)) == multiset(l) - multiset{x}
    decreases |l|
  {
    if |l| > 0 {
      assert l == [l[0]] + l[1..];
      if l[0] != x {
        RemoveFirstMultiset(l[1..], x);
      }
    }
  }

  /** Cutting at the first occurrence of x is the same removal. */
  lemma {:induction false} RemoveFirstAt<V>(l: seq<V>, x: V, i: nat)
    requires i < |l| && l[i] == x && x !in l[..i]
    ensures RemoveFirst(l, x) == l[..i] + l[i + 1..]
    decreases i
  {
    if i > 0 {
      assert l[0] in l[..i];
      assert l[1..][..i - 1] == l[1..i];
      RemoveFirstAt(l[1..], x, i - 1);
      assert l[..i] == [l[0]] + l[1..i];
      assert l[1..][i..] == l[i + 1..];
    }
  }

  /** No label occurs twice. */
  ghost predicate Distinct<V>(l: seq<V>)
  {
    forall i, j :: 0 <= i < j < |l| ==> l[i] != l[j]
  }

  /** Appending a label the list lacks keeps it without repetitions. */
  lemma DistinctAppend<V>(l: seq<V>, x: V)
    requires Distinct(l) && x !in l
    ensures Distinct(l + [x])
  {
    forall i, j | 0 <= i < j < |l + [x]| ensures (l + [x])[i] != (l + [x])[j] {
      if j == |l| {
        assert (l + [x])[i] == l[i] && l[i] in l;
      }
    }
  }

  /** From a list without repetitions, removing x leaves exactly the other labels, still without repetitions. */
  lemma {:induction false} RemoveFirstDistinct<V>(l: seq<V>, x: V)
    requires Distinct(l)
    ensures Distinct(RemoveFirst(l, x))
    ensures forall y :: y in RemoveFirst(l, x) <==> y in l && y != x
    decreases |l|
  {
    if |l| > 0 {
      var t := l[1..];
      assert Distinct(t) by {
        forall i, j | 0 <= i < j < |t| ensures t[i] != t[j] {
          assert t[i] == l[i + 1] && t[j] == l[j + 1];
        }
      }
      assert l[0] !in t by {
        forall j | 0 <= j < |t| ensures t[j] != l[0] {
          assert t[j] == l[j + 1];
        }
      }
      if l[0] != x {
        RemoveFirstDistinct(t, x);
        var r := RemoveFirst(t, x);
        assert RemoveFirst(l, x) == [l[0]] + r;
        forall i, j | 0 <= i < j < |[l[0]] + r| ensures ([l[0]] + r)[i] != ([l[0]] + r)[j] {
          if i == 0 {
            assert ([l[0]] + r)[j] == r[j - 1];
            assert r[j - 1] in r;
          } else {
            assert ([l[0]] + r)[i] == r[i - 1] && ([l[0]] + r)[j] == r[j - 1];
          }
        }
      }
    }
  }

  // ---------------------------------------------------------------------
  // The graph as a value
  // ---------------------------------------------------------------------

  /** The graph's whole state: neighbour lists, weight cells and the aggregate. */
  datatype State<V> = State(adjs: map<V, seq<V>>, table: Table<V>, weight: int)

  /** The value of a cell, or 0 when it is absent. */
  ghost function CellValue<V>(t: Table<V>, r: V, c: V): int
  {
    if Cell(t, r, c).Some? then Cell(t, r, c).value else 0
  }

  /** Every cell has its mirror image with the same value. */
  ghost predicate Mirrored<V>(t: Table<V>)
  {
    forall a, b | a in t && b in t[a] :: b in t && a in t[b] && t[b][a] == t[a][b]
  }

  /** Mirroring, cell by cell. */
  lemma MirroredCells<V>(t: Table<V>)
    ensures Mirrored(t) <==> forall a, b :: Cell(t, a, b) == Cell(t, b, a)
  {
    if Mirrored(t) {
      forall a, b ensures Cell(t, a, b) == Cell(t, b, a) {
        if Cell(t, a, b).Some? {
          assert Cell(t, b, a).Some?;
        }
        if Cell(t, b, a).Some? {
          assert Cell(t, a, b).Some?;
        }
      }
    } else {
      var a, b :| a in t && b in t[a] && !(b in t && a in t[b] && t[b][a] == t[a][b]);
      assert Cell(t, a, b) != Cell(t, b, a);
    }
  }

  /**
   * The invariant of an undirected graph built by the mutators: mirrored
   * cells between distinct vertices, neighbour lists without repetitions
   * that list exactly the cells of their row, and an aggregate equal to the
   * sum of the cells.
   */
  ghost predicate Undirected<V>(s: State<V>)
  {
    Mirrored(s.table) &&
    (forall a, b | a in s.table && b in s.table[a] :: a in s.adjs && b in s.adjs && a != b && b in s.adjs[a]) &&
    (forall a, b | a in s.adjs && b in s.adjs[a] :: a in s.table && b in s.table[a]) &&
    (forall a :: a in s.adjs ==> Distinct(s.adjs[a])) &&
    s.weight == CellSum(s.table)
  }

  /** The invariant yields its cell-by-cell form. */
  lemma UndirectedToCells<V>(s: State<V>)
    requires Undirected(s)
    ensures forall a, b :: Cell(s.table, a, b) == Cell(s.table, b, a)
    ensures forall a, b :: Cell(s.table, a, b).Some? ==> a in s.adjs && b in s.adjs && a != b
    ensures forall a, b :: a in s.adjs ==> (b in s.adjs[a] <==> Cell(s.table, a, b).Some?)
  {
    MirroredCells(s.table);
  }

  /** The cell-by-cell form yields the invariant. */
  lemma CellsToUndirected<V>(s: State<V>)
    requires forall a, b :: Cell(s.table, a, b) == Cell(s.table, b, a)
    requires forall a, b :: Cell(s.table, a, b).Some? ==> a in s.adjs && b in s.adjs && a != b
    requires forall a, b :: a in s.adjs ==> (b in s.adjs[a] <==> Cell(s.table, a, b).Some?)
    requires forall a :: a in s.adjs ==> Distinct(s.adjs[a])
    requires s.weight == CellSum(s.table)
    ensures Undirected(s)
  {
    assert Mirrored(s.table) by {
      MirroredCells(s.table);
    }
    CellsLinked(s);
  }

  /** Cells and neighbour lists agree, from the cell-by-cell form. */
  lemma CellsLinked<V>(s: State<V>)
    requires forall a, b :: Cell(s.table, a, b).Some? ==> a in s.adjs && b in s.adjs && a != b
    requires forall a, b :: a in s.adjs ==> (b in s.adjs[a] <==> Cell(s.table, a, b).Some?)
    ensures forall a, b {:trigger b in s.table[a]} | a in s.table && b in s.table[a] :: a in s.adjs && b in s.adjs && a != b && b in s.adjs[a]
    ensures forall a, b {:trigger b in s.adjs[a]} | a in s.adjs && b in s.adjs[a] :: a in s.table && b in s.table[a]
  {
    forall a, b {:trigger b in s.table[a]} | a in s.table && b in s.table[a]
      ensures a in s.adjs && b in s.adjs && a != b && b in s.adjs[a]
    {
      assert Cell(s.table, a, b).Some?;
    }
    forall a, b {:trigger b in s.adjs[a]} | a in s.adjs && b in s.adjs[a]
      ensures a in s.table && b in s.table[a]
    {
      assert Cell(s.table, a, b).Some?;
    }
  }

  /** In a mirrored table, `get` sees exactly the stored cells: the column-is-a-row condition never bites. */
  lemma GetIsCell<V>(t: Table<V>, r: V, c: V)
    requires Mirrored(t)
    ensures TableGet(t, r, c) == Cell(t, r, c)
  {
    MirroredCells(t);
    if Cell(t, r, c).Some? {
      assert Cell(t, c, r).Some?;
    }
  }

  /** In an unmirrored table, a cell whose column is not a row label is invisible to `get`. */
  lemma GetMissesSinkColumn<V>(t: Table<V>, r: V, c: V)
    requires Cell(t, r, c).Some? && c !in t
    ensures TableGet(t, r, c) == None
  {
  }

  /** addVertex: an empty neighbour list for a new vertex; nothing else changes. */
  ghost function WithVertex<V>(s: State<V>, v: V): (r: State<V>)
    ensures r.adjs.Keys == s.adjs.Keys + {v} && r.table == s.table && r.weight == s.weight
  {
    if v in s.adjs then s else s.(adjs := s.adjs[v := []])
  }

  /** addEdge on present endpoints: when `get` sees no cell, list dest and store the cell (and the mirror when undirected). */
  ghost function WithEdge<V>(s: State<V>, src: V, dest: V, w: int, oriented: bool): State<V>
    requires src in s.adjs && dest in s.adjs
  {
    if TableGet(s.table, src, dest).Some? then s
    else
      var a1 := s.adjs[src := s.adjs[src] + [dest]];
      var t1 := SetCell(s.table, src, dest, w);
      if oriented then State(a1, t1, s.weight + w)
      else State(a1[dest := a1[dest] + [src]], SetCell(t1, dest, src, w), s.weight + w + w)
  }

  /** addEdgeForced: add missing endpoints, then the edge. */
  ghost function WithEdgeForced<V>(s: State<V>, src: V, dest: V, w: int, oriented: bool): State<V>
  {
    WithEdge(WithVertex(WithVertex(s, src), dest), src, dest, w, oriented)
  }

  /** removeEdge on a present edge: unlist dest and drop the cell (and the mirror when undirected). */
  ghost function WithoutEdge<V>(s: State<V>, src: V, dest: V, oriented: bool): State<V>
    requires src in s.adjs && dest in s.adjs
  {
    var a1 := s.adjs[src := RemoveFirst(s.adjs[src], dest)];
    var t1 := RemoveCell(s.table, src, dest);
    var w1 := s.weight - CellValue(s.table, src, dest);
    if oriented then State(a1, t1, w1)
    else State(a1[dest := RemoveFirst(a1[dest], src)], RemoveCell(t1, dest, src), w1 - CellValue(t1, dest, src))
  }

  /** The table after clearing cells (k, v) and (v, k) for every k in ks. */
  ghost function Cleared<V>(t: Table<V>, v: V, ks: set<V>): (u: Table<V>)
    ensures u.Keys == t.Keys
  {
    map r | r in t :: if r == v then t[r] - ks else if r in ks then t[r] - {v} else t[r]
  }

  /** Clearing removes exactly the cells between v and ks. */
  lemma ClearedLookup<V>(t: Table<V>, v: V, ks: set<V>, a: V, b: V)
    requires v !in ks
    ensures Cell(Cleared(t, v, ks), a, b) == if (a == v && b in ks) || (a in ks && b == v) then None else Cell(t, a, b)
  {
  }

  /** Clearing no vertex leaves the table as it is. */
  lemma ClearedNothing<V>(t: Table<V>, v: V)
    ensures Cleared(t, v, {}) == t
  {
    var u := Cleared(t, v, {});
    forall r | r in t ensures u[r] == t[r] {
      assert t[r] - {} == t[r];
    }
  }

  /** Clearing one more vertex k is two more corrected removals. */
  lemma ClearedStep<V>(t: Table<V>, v: V, ks: set<V>, k: V)
    requires v !in ks && k != v && k !in ks
    ensures RemoveCell(RemoveCell(Cleared(t, v, ks), k, v), v, k) == Cleared(t, v, ks + {k})
  {
    var u := RemoveCell(RemoveCell(Cleared(t, v, ks), k, v), v, k);
    var u' := Cleared(t, v, ks + {k});
    assert u.Keys == u'.Keys;
    forall r | r in u ensures u[r] == u'[r] {
      if r == v {
        assert u[r] == t[v] - ks - {k};
      }
    }
  }

  /** removeVertex (with absent cells left alone): drop v's list, unlist v everywhere, clear its cells. */
  ghost function WithoutVertex<V>(s: State<V>, v: V): State<V>
  {
    var rest := s.adjs.Keys - {v};
    var t := Cleared(s.table, v, rest);
    State(map a | a in rest :: RemoveFirst(s.adjs[a], v), t, s.weight - (CellSum(s.table) - CellSum(t)))
  }

  // ---------------------------------------------------------------------
  // The undirected invariant is kept
  // ---------------------------------------------------------------------

  /** addVertex keeps an undirected graph well formed. */
  lemma WithVertexUndirected<V>(s: State<V>, v: V)
    requires Undirected(s)
    ensures Undirected(WithVertex(s, v))
  {
    var r := WithVertex(s, v);
    if v !in s.adjs {
      UndirectedToCells(s);
      forall a, b | a in r.adjs ensures b in r.adjs[a] <==> Cell(r.table, a, b).Some? {
        if a == v {
          assert Cell(s.table, a, b).None?;
        }
      }
      CellsToUndirected(r);
    }
  }

  /** Looking up a cell after the undirected addEdge of an absent edge. */
  lemma WithEdgeLookup<V>(s: State<V>, src: V, dest: V, w: int, a: V, b: V)
    requires Undirected(s) && src in s.adjs && dest in s.adjs
    requires Cell(s.table, src, dest).None?
    ensures Cell(WithEdge(s, src, dest, w, false).table, a, b) ==
      if (a == src && b == dest) || (a == dest && b == src) then Some(w) else Cell(s.table, a, b)
  {
    GetIsCell(s.table, src, dest);
    var t1 := SetCell(s.table, src, dest, w);
    SetCellLookup(s.table, src, dest, w, a, b);
    SetCellLookup(t1, dest, src, w, a, b);
  }

  /** The lists after the undirected addEdge of an absent edge: each endpoint gains the other once. */
  lemma WithEdgeLists<V>(s: State<V>, src: V, dest: V, w: int, a: V)
    requires Undirected(s) && src in s.adjs && dest in s.adjs && src != dest
    requires Cell(s.table, src, dest).None? && a in s.adjs
    ensures var r := WithEdge(s, src, dest, w, false);
      a in r.adjs && Distinct(r.adjs[a]) &&
      forall b :: b in r.adjs[a] <==> b in s.adjs[a] || (a == src && b == dest) || (a == dest && b == src)
  {
    GetIsCell(s.table, src, dest);
    var r := WithEdge(s, src, dest, w, false);
    if a == src || a == dest {
      var l := s.adjs[a];
      var x := if a == src then dest else src;
      assert Cell(s.table, a, x).None? by {
        MirroredCells(s.table);
      }
      assert x !in l;
      assert r.adjs[a] == l + [x];
      DistinctAppend(l, x);
    }
  }

  /** The undirected addEdge keeps the graph well formed. */
  lemma WithEdgeUndirected<V>(s: State<V>, src: V, dest: V, w: int)
    requires Undirected(s) && src in s.adjs && dest in s.adjs && src != dest
    ensures Undirected(WithEdge(s, src, dest, w, false))
  {
    GetIsCell(s.table, src, dest);
    if Cell(s.table, src, dest).None? {
      UndirectedToCells(s);
      var r := WithEdge(s, src, dest, w, false);
      var t1 := SetCell(s.table, src, dest, w);
      SetCellLookup(s.table, src, dest, w, dest, src);
      SetCellSum(s.table, src, dest, w);
      SetCellSum(t1, dest, src, w);
      forall a, b ensures Cell(r.table, a, b) == Cell(r.table, b, a) {
        WithEdgeLookup(s, src, dest, w, a, b);
        WithEdgeLookup(s, src, dest, w, b, a);
      }
      forall a, b | Cell(r.table, a, b).Some? ensures a in r.adjs && b in r.adjs && a != b {
        WithEdgeLookup(s, src, dest, w, a, b);
      }
      forall a, b | a in r.adjs ensures b in r.adjs[a] <==> Cell(r.table, a, b).Some? {
        WithEdgeLookup(s, src, dest, w, a, b);
        WithEdgeLists(s, src, dest, w, a);
      }
      forall a | a in r.adjs ensures Distinct(r.adjs[a]) {
        WithEdgeLists(s, src, dest, w, a);
      }
      CellsToUndirected(r);
    }
  }

  /** Looking up a cell after the undirected removeEdge. */
  lemma WithoutEdgeLookup<V>(s: State<V>, src: V, dest: V, a: V, b: V)
    requires src in s.adjs && dest in s.adjs
    ensures Cell(WithoutEdge(s, src, dest, false).table, a, b) ==
      if (a == src && b == dest) || (a == dest && b == src) then None else Cell(s.table, a, b)
  {
    var t1 := RemoveCell(s.table, src, dest);
    RemoveCellLookup(s.table, src, dest, a, b);
    RemoveCellLookup(t1, dest, src, a, b);
  }

  /** The lists after the undirected removeEdge: dest leaves src's list and src leaves dest's. */
  lemma WithoutEdgeLists<V>(s: State<V>, src: V, dest: V, a: V)
    requires Undirected(s) && src in s.adjs && dest in s.adjs && src != dest
    requires a in s.adjs
    ensures var r := WithoutEdge(s, src, dest, false);
      a in r.adjs && Distinct(r.adjs[a]) &&
      forall b :: b in r.adjs[a] <==> b in s.adjs[a] && !((a == src && b == dest) || (a == dest && b == src))
  {
    var r := WithoutEdge(s, src, dest, false);
    if a == src {
      assert r.adjs[a] == RemoveFirst(s.adjs[src], dest);
      RemoveFirstDistinct(s.adjs[src], dest);
    } else if a == dest {
      assert r.adjs[a] == RemoveFirst(s.adjs[dest], src);
      RemoveFirstDistinct(s.adjs[dest], src);
    }
  }

  /** The undirected removeEdge keeps the graph well formed. */
  lemma WithoutEdgeUndirected<V>(s: State<V>, src: V, dest: V)
    requires Undirected(s) && src in s.adjs && dest in s.adjs && Cell(s.table, src, dest).Some?
    ensures Undirected(WithoutEdge(s, src, dest, false))
  {
    var r := WithoutEdge(s, src, dest, false);
    UndirectedToCells(s);
    assert src != dest;
    var t1 := RemoveCell(s.table, src, dest);
    RemoveCellSum(s.table, src, dest);
    RemoveCellSum(t1, dest, src);
    assert r.adjs.Keys == s.adjs.Keys;
    forall a, b ensures Cell(r.table, a, b) == Cell(r.table, b, a) {
      WithoutEdgeLookup(s, src, dest, a, b);
      WithoutEdgeLookup(s, src, dest, b, a);
    }
    forall a, b | Cell(r.table, a, b).Some? ensures a in r.adjs && b in r.adjs && a != b {
      WithoutEdgeLookup(s, src, dest, a, b);
    }
    forall a, b | a in r.adjs ensures b in r.adjs[a] <==> Cell(r.table, a, b).Some? {
      WithoutEdgeLookup(s, src, dest, a, b);
      WithoutEdgeLists(s, src, dest, a);
    }
    forall a | a in r.adjs ensures Distinct(r.adjs[a]) {
      WithoutEdgeLists(s, src, dest, a);
    }
    CellsToUndirected(r);
  }

  /** removeVertex keeps an undirected graph well formed. */
  lemma WithoutVertexUndirected<V>(s: State<V>, v: V)
    requires Undirected(s) && v in s.adjs
    ensures Undirected(WithoutVertex(s, v))
  {
    var r := WithoutVertex(s, v);
    UndirectedToCells(s);
    var rest := s.adjs.Keys - {v};
    forall a | a in r.adjs ensures Distinct(r.adjs[a]) && forall y :: y in r.adjs[a] <==> y in s.adjs[a] && y != v {
      RemoveFirstDistinct(s.adjs[a], v);
    }
    forall a, b ensures Cell(r.table, a, b) == Cell(r.table, b, a) {
      ClearedLookup(s.table, v, rest, a, b);
      ClearedLookup(s.table, v, rest, b, a);
    }
    forall a, b | Cell(r.table, a, b).Some? ensures a in r.adjs && b in r.adjs && a != b {
      ClearedLookup(s.table, v, rest, a, b);
    }
    forall a, b | a in r.adjs ensures b in r.adjs[a] <==> Cell(r.table, a, b).Some? {
      ClearedLookup(s.table, v, rest, a, b);
    }
    CellsToUndirected(r);
  }

  // ---------------------------------------------------------------------
  // Counts
  // ---------------------------------------------------------------------

  /** The length of each neighbour list. */
  ghost function Degrees<V>(adjs: map<V, seq<V>>): (d: map<V, int>)
    ensures d.Keys == adjs.Keys
  {
    map a | a in adjs :: |adjs[a]|
  }

  // ---------------------------------------------------------------------
  // The class
  // ---------------------------------------------------------------------

  /** The graph as the source keeps it: neighbour lists updated in place and a weight table object. */
  class Graph<V(==)> {
    var adjs: map<V, seq<V>>
    const weights: WeightTable<V>
    const oriented: bool

    /** The whole state as a value. */
    ghost function Model(): State<V>
      reads this, weights
    {
      State(adjs, weights.table, weights.weight)
    }

    /** Undirected graphs keep their invariant; oriented ones promise none. */
    ghost predicate Valid()
      reads this, weights
    {
      !oriented ==> Undirected(Model())
    }

    /** An empty graph of the given orientation with an empty table. */
    constructor(oriented: bool)
      ensures this.oriented == oriented && fresh(weights)
      ensures Model() == State(map[], map[], 0) && Valid()
    {
      this.oriented := oriented;
      adjs := map[];
      weights := new WeightTable();
    }

    /** containsVertex */
    function ContainsVertex(v: V): (b: bool)
      reads this
      ensures b <==> v in adjs.Keys
    {
      v in adjs
    }

    /** vertexCount */
    function VertexCount(): (n: nat)
      reads this
      ensures n == |adjs.Keys|
    {
      |adjs|
    }

    /** isEmpty: no vertex at all. */
    function IsEmpty(): (b: bool)
      reads this
      ensures b <==> adjs.Keys == {}
      ensures b <==> VertexCount() == 0
    {
      |adjs| == 0
    }

    /** isOriented */
    function IsOriented(): (b: bool)
      ensures b <==> oriented
    {
      oriented
    }

    /** addVertex: a present vertex keeps its list. */
    method AddVertex(v: V)
      requires Valid()
      modifies this
      ensures Model() == WithVertex(old(Model()), v) && Valid()
    {
      if v !in adjs {
        adjs := adjs[v := []];
      }
      if !oriented {
        WithVertexUndirected(old(Model()), v);
      }
    }

    /** The shared tail of addEdge and addEdgeForced. */
    method Connect(src: V, dest: V, weight: int)
      requires src in adjs && dest in adjs
      modifies this, weights
      ensures Model() == WithEdge(old(Model()), src, dest, weight, oriented)
    {
      if weights.Get(src, dest).None? {
        adjs := adjs[src := adjs[src] + [dest]];
        weights.Set(src, dest, weight);
        if !oriented {
          adjs := adjs[dest := adjs[dest] + [src]];
          weights.Set(dest, src, weight);
        }
      }
    }

    /** addEdge: both endpoints must be present; an edge `get` already sees is left alone. An undirected self-loop leaves the invariant. */
    method AddEdge(src: V, dest: V, weight: int) returns (o: Outcome)
      requires Valid()
      modifies this, weights
      ensures oriented || src != dest ==> Valid()
      ensures o.Pass? || o == Fail(VertexNotFound)
      ensures src !in old(adjs) || dest !in old(adjs) <==> o == Fail(VertexNotFound)
      ensures o.Fail? ==> Model() == old(Model())
      ensures o.Pass? ==> Model() == WithEdge(old(Model()), src, dest, weight, oriented)
    {
      if src !in adjs || dest !in adjs {
        return Fail(VertexNotFound);
      }
      if !oriented && src != dest {
        WithEdgeUndirected(Model(), src, dest, weight);
      }
      Connect(src, dest, weight);
      return Pass;
    }

    /** addEdgeForced: missing endpoints are added first. An undirected self-loop leaves the invariant. */
    method AddEdgeForced(src: V, dest: V, weight: int)
      requires Valid()
      modifies this, weights
      ensures oriented || src != dest ==> Valid()
      ensures Model() == WithEdgeForced(old(Model()), src, dest, weight, oriented)
    {
      AddVertex(src);
      AddVertex(dest);
      if !oriented && src != dest {
        WithEdgeUndirected(Model(), src, dest, weight);
      }
      Connect(src, dest, weight);
    }

    /** LinkedList.remove(Object) on one list. */
    static method RemoveFirstOf(l: seq<V>, x: V) returns (r: seq<V>)
      ensures r == RemoveFirst(l, x)
    {
      var i := 0;
      while i < |l| && l[i] != x
        invariant i <= |l| && x !in l[..i]
      {
        assert l[..i + 1] == l[..i] + [l[i]];
        i := i + 1;
      }
      if i == |l| {
        assert l[..i] == l;
        return l;
      }
      RemoveFirstAt(l, x, i);
      r := l[..i] + l[i + 1..];
    }

    /** The source's pass over every remaining list, removing the first occurrence of v. */
    method UnlistEverywhere(v: V)
      modifies this
      ensures adjs == map a | a in old(adjs) :: RemoveFirst(old(adjs)[a], v)
    {
      ghost var a0 := adjs;
      var keys := adjs.Keys;
      while keys != {}
        invariant keys <= adjs.Keys == a0.Keys
        invariant forall a :: a in adjs ==> adjs[a] == if a in keys then a0[a] else RemoveFirst(a0[a], v)
        decreases keys
      {
        var a :| a in keys;
        var l := RemoveFirstOf(adjs[a], v);
        adjs := adjs[a := l];
        keys := keys - {a};
      }
    }

    /** The source's pass over the remaining vertices k, removing cells (k, v) and (v, k). */
    method ClearCells(v: V)
      requires v !in adjs
      modifies weights
      ensures weights.table == Cleared(old(weights.table), v, adjs.Keys)
      ensures weights.weight == old(weights.weight) - (CellSum(old(weights.table)) - CellSum(weights.table))
    {
      ghost var t0 := weights.table;
      var keys := adjs.Keys;
      assert adjs.Keys - keys == {};
      ClearedNothing(t0, v);
      while keys != {}
        invariant keys <= adjs.Keys
        invariant weights.table == Cleared(t0, v, adjs.Keys - keys)
        invariant weights.weight == old(weights.weight) - (CellSum(t0) - CellSum(weights.table))
        decreases keys
      {
        var k :| k in keys;
        ghost var done := adjs.Keys - keys;
        ghost var t := weights.table;
        RemoveCellSum(t, k, v);
        RemoveCellSum(RemoveCell(t, k, v), v, k);
        weights.Remove(k, v);
        weights.Remove(v, k);
        ClearedStep(t0, v, done, k);
        assert adjs.Keys - (keys - {k}) == done + {k};
        keys := keys - {k};
      }
      assert adjs.Keys - keys == adjs.Keys;
    }

    /** removeVertex: a missing vertex is an error; otherwise its list goes, it is unlisted everywhere and its cells are cleared. */
    method RemoveVertex(v: V) returns (o: Outcome)
      requires Valid()
      modifies this, weights
      ensures Valid()
      ensures o.Pass? || o == Fail(VertexNotFound)
      ensures v !in old(adjs) <==> o == Fail(VertexNotFound)
      ensures o.Fail? ==> Model() == old(Model())
      ensures o.Pass? ==> Model() == WithoutVertex(old(Model()), v)
    {
      if v !in adjs {
        return Fail(VertexNotFound);
      }
      ghost var s0 := Model();
      if !oriented {
        WithoutVertexUndirected(s0, v);
      }
      adjs := adjs - {v};
      UnlistEverywhere(v);
      assert adjs == WithoutVertex(s0, v).adjs;
      assert adjs.Keys == s0.adjs.Keys - {v};
      assert weights.table == s0.table && weights.weight == s0.weight;
      ClearCells(v);
      assert weights.table == WithoutVertex(s0, v).table;
      assert weights.weight == WithoutVertex(s0, v).weight;
      return Pass;
    }

    /** removeEdge: missing endpoints, then an edge `get` does not see, are errors; otherwise the edge goes, mirrored when undirected. */
    method RemoveEdge(src: V, dest: V) returns (o: Outcome)
      requires Valid()
      modifies this, weights
      ensures Valid()
      ensures o.Pass? || o == Fail(VertexNotFound) || o == Fail(EdgeNotFound)
      ensures src !in old(adjs) || dest !in old(adjs) <==> o == Fail(VertexNotFound)
      ensures src in old(adjs) && dest in old(adjs) ==>
        (o == Fail(EdgeNotFound) <==> TableGet(old(weights.table), src, dest).None?)
      ensures o.Fail? ==> Model() == old(Model())
      ensures o.Pass? ==> Model() == WithoutEdge(old(Model()), src, dest, oriented)
    {
      if src !in adjs || dest !in adjs {
        return Fail(VertexNotFound);
      }
      if weights.Get(src, dest).None? {
        return Fail(EdgeNotFound);
      }
      if !oriented {
        WithoutEdgeUndirected(Model(), src, dest);
      }
      var l := RemoveFirstOf(adjs[src], dest);
      adjs := adjs[src := l];
      weights.Remove(src, dest);
      if !oriented {
        l := RemoveFirstOf(adjs[dest], src);
        adjs := adjs[dest := l];
        weights.Remove(dest, src);
      }
      return Pass;
    }

    /** getAllVertex: every vertex once, in some order. */
    method GetAllVertex() returns (vs: seq<V>)
      ensures forall v :: v in vs <==> v in adjs
      ensures Distinct(vs)
      ensures |vs| == VertexCount()
    {
      vs := [];
      var keys := adjs.Keys;
      while keys != {}
        invariant keys <= adjs.Keys
        invariant forall v :: v in vs <==> v in adjs && v !in keys
        invariant Distinct(vs)
        invariant |vs| + |keys| == |adjs.Keys|
        decreases keys
      {
        var a :| a in keys;
        vs := vs + [a];
        keys := keys - {a};
      }
    }

    /** getVertexAdjs: a copy of a vertex's neighbour list; an absent vertex dereferences null. */
    method GetVertexAdjs(v: V) returns (r: Result<seq<V>>)
      ensures r.Ok? || r == Err(NullDereference)
      ensures v !in adjs <==> r == Err(NullDereference)
      ensures r.Ok? ==> r.value == adjs[v]
    {
      if v !in adjs {
        return Err(NullDereference);
      }
      var l := adjs[v];
      var out := [];
      var i := 0;
      while i < |l|
        invariant i <= |l| && out == l[..i]
      {
        assert l[..i + 1] == l[..i] + [l[i]];
        out := out + [l[i]];
        i := i + 1;
      }
      assert l[..i] == l;
      return Ok(out);
    }

    /** getEdgeWeight: only the cell is consulted, through `get`; endpoints are not checked. */
    function GetEdgeWeight(src: V, dest: V): (r: Result<int>)
      reads this, weights
      ensures r.Ok? ==> Cell(weights.table, src, dest) == Some(r.value)
      ensures r.Err? ==> r.error == EdgeNotFound
      ensures Valid() && !oriented ==> (r.Ok? <==> Cell(weights.table, src, dest).Some?)
    {
      assert Valid() && !oriented ==> weights.Get(src, dest) == Cell(weights.table, src, dest) by {
        if Valid() && !oriented {
          GetIsCell(weights.table, src, dest);
        }
      }
      match weights.Get(src, dest)
      case None => Err(EdgeNotFound)
      case Some(w) => Ok(w)
    }

    /** containsEdge: missing endpoints are an error; otherwise whether `get` sees the cell. */
    function ContainsEdge(src: V, dest: V): (r: Result<bool>)
      reads this, weights
      ensures src !in adjs || dest !in adjs <==> r == Err(VertexNotFound)
      ensures r.Ok? && r.value ==> Cell(weights.table, src, dest).Some?
      ensures r.Ok? && Valid() && !oriented ==> (r.value <==> Cell(weights.table, src, dest).Some?)
    {
      if src !in adjs || dest !in adjs then Err(VertexNotFound)
      else
        assert Valid() && !oriented ==> weights.Get(src, dest) == Cell(weights.table, src, dest) by {
        if Valid() && !oriented {
          GetIsCell(weights.table, src, dest);
        }
      }
        Ok(weights.Get(src, dest).Some?)
    }

    /** edgeCount: the total length of the lists, halved when every edge is listed twice. */
    method EdgeCount() returns (n: int)
      ensures n == if oriented then Sum(Degrees(adjs)) else Sum(Degrees(adjs)) / 2
    {
      ghost var d := Degrees(adjs);
      var count := 0;
      var keys := adjs.Keys;
      while keys != {}
        invariant keys <= adjs.Keys
        invariant count + SumOver(d, keys) == Sum(d)
        decreases keys
      {
        var a :| a in keys;
        SumOverRemove(d, keys, a);
        count := count + |adjs[a]|;
        keys := keys - {a};
      }
      n := if oriented then count else count / 2;
    }

    /** weight: the aggregate, halved when undirected. */
    function Weight(): (w: real)
      reads this, weights
      ensures oriented ==> w == weights.weight as real
      ensures Valid() && !oriented ==> w == CellSum(weights.table) as real / 2.0
    {
      if oriented then weights.GetWeight() as real else weights.GetWeight() as real / 2.0
    }
  }

  /** In an undirected graph, containsEdge(a, b) and containsEdge(b, a) agree, and so do the weights. */
  lemma ContainsEdgeSymmetric<V>(g: Graph<V>, a: V, b: V)
    requires g.Valid() && !g.oriented
    ensures g.ContainsEdge(a, b) == g.ContainsEdge(b, a)
    ensures g.GetEdgeWeight(a, b) == g.GetEdgeWeight(b, a)
  {
    MirroredCells(g.weights.table);
    GetIsCell(g.weights.table, a, b);
    GetIsCell(g.weights.table, b, a);
  }
}
