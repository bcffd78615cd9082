/**
 * The second graph version's weight table: a nested map from row label to
 * column label to weight, with a running aggregate `weight` kept beside it.
 */
module WeightTables {
  import opened Errors
  import opened Sums

  type Table<V> = map<V, map<V, int>>

  /** The stored value of cell (r, c), if there is one. */
  ghost function Cell<V>(t: Table<V>, r: V, c: V): Option<int>
  {
    if r in t && c in t[r] then Some(t[r][c]) else None
  }

  /** The sum of each row's cells. */
  ghost function RowSums<V>(t: Table<V>): (s: map<V, int>)
    ensures s.Keys == t.Keys
  {
    map r | r in t :: Sum(t[r])
  }

  /** The sum of all cells of the table. */
  ghost function CellSum<V>(t: Table<V>): int
  {
    Sum(RowSums(t))
  }

  /** `set`: create the row if missing, then store the cell. */
  function SetCell<V(==)>(t: Table<V>, r: V, c: V, val: int): (u: Table<V>)
    ensures u.Keys == t.Keys + {r}
    ensures Cell(u, r, c) == Some(val)
  {
    t[r := (if r in t then t[r] else map[])[c := val]]
  }

  /** Storing a cell changes that cell only. */
  lemma SetCellLookup<V>(t: Table<V>, r: V, c: V, val: int, r': V, c': V)
    ensures Cell(SetCell(t, r, c, val), r', c') == if r' == r && c' == c then Some(val) else Cell(t, r', c')
  {
  }

  /** The corrected `remove`: drop cell (r, c) when row r exists; an absent cell is left alone. */
  function RemoveCell<V(==)>(t: Table<V>, r: V, c: V): (u: Table<V>)
    ensures u.Keys == t.Keys
    ensures Cell(u, r, c) == None
  {
    if r in t then t[r := t[r] - {c}] else t
  }

  /** Dropping a cell changes that cell only. */
  lemma RemoveCellLookup<V>(t: Table<V>, r: V, c: V, r': V, c': V)
    ensures Cell(RemoveCell(t, r, c), r', c') == if r' == r && c' == c then None else Cell(t, r', c')
  {
  }

  /** `get` as written: the cell is seen only when its column label is also a row label. */
  function TableGet<V(==)>(t: Table<V>, r: V, c: V): (res: Option<int>)
    ensures c in t ==> res == Cell(t, r, c)
    ensures c !in t ==> res == None
  {
    if r in t && c in t && c in t[r] then Some(t[r][c]) else None
  }

  /** Storing a cell adds its value to the sum of cells, less the value it overwrites. */
  lemma SetCellSum<V>(t: Table<V>, r: V, c: V, val: int)
    ensures CellSum(SetCell(t, r, c, val)) ==
      CellSum(t) + val - (if Cell(t, r, c).Some? then Cell(t, r, c).value else 0)
  {
    var u := SetCell(t, r, c, val);
    if r in t {
      if c in t[r] {
        SumUpdate(t[r], c, val);
      } else {
        SumInsert(t[r], c, val);
      }
      assert RowSums(u) == RowSums(t)[r := Sum(u[r])];
      SumUpdate(RowSums(t), r, Sum(u[r]));
    } else {
      var empty: map<V, int> := map[];
      SumInsert(empty, c, val);
      assert RowSums(u) == RowSums(t)[r := Sum(u[r])];
      SumInsert(RowSums(t), r, Sum(u[r]));
    }
  }

  /** Dropping a cell takes its value off the sum of cells. */
  lemma RemoveCellSum<V>(t: Table<V>, r: V, c: V)
    ensures CellSum(RemoveCell(t, r, c)) ==
      CellSum(t) - (if Cell(t, r, c).Some? then Cell(t, r, c).value else 0)
  {
    if r in t {
      var u := RemoveCell(t, r, c);
      if c in t[r] {
        SumRemoveKey(t[r], c);
      } else {
        assert t[r] - {c} == t[r];
      }
      assert RowSums(u) == RowSums(t)[r := Sum(u[r])];
      SumUpdate(RowSums(t), r, Sum(u[r]));
    }
  }

  /**
   * `remove` as written: it subtracts the value `get` returns, and Java fails
   * unboxing it when `get` returns null, that is when row r exists but the
   * cell is absent or column c is not a row label.
   */
  function RemoveAsWritten<V(==)>(t: Table<V>, weight: int, r: V, c: V): (res: Result<(Table<V>, int)>)
    ensures res.Err? <==> r in t && (Cell(t, r, c).None? || c !in t)
    ensures res.Err? ==> res.error == NullDereference
  {
    if r !in t then Ok((t, weight))
    else
      match TableGet(t, r, c)
      case None => Err(NullDereference)
      case Some(x) => Ok((t[r := t[r] - {c}], weight - x))
  }

  /** Removing an absent cell from an existing row fails as written. */
  lemma RemoveAsWrittenFailsOnAbsentCell<V>(t: Table<V>, weight: int, r: V, c: V)
    requires r in t && Cell(t, r, c).None?
    ensures RemoveAsWritten(t, weight, r, c) == Err(NullDereference)
  {
  }

  /** Removing a present cell whose column is not a row label also fails as written. */
  lemma RemoveAsWrittenFailsOnSinkColumn<V>(t: Table<V>, weight: int, r: V, c: V)
    requires r in t && Cell(t, r, c).Some? && c !in t
    ensures RemoveAsWritten(t, weight, r, c) == Err(NullDereference)
  {
  }

  /**
   * The table of an oriented graph with vertices a and v and the one edge
   * a -> v of weight w has no row v, so removeVertex(v)'s call remove(a, v)
   * fails as written although the edge exists.
   */
  lemma RemoveAsWrittenFailsOnOrientedSink<V>(a: V, v: V, w: int)
    requires a != v
    ensures Cell(map[a := map[v := w]], a, v) == Some(w)
    ensures RemoveAsWritten(map[a := map[v := w]], w, a, v) == Err(NullDereference)
  {
  }

  /** Where the source does not fail, it does what the corrected removal does. */
  lemma RemoveAsWrittenAgrees<V>(t: Table<V>, weight: int, r: V, c: V)
    requires RemoveAsWritten(t, weight, r, c).Ok?
    ensures RemoveAsWritten(t, weight, r, c).value.0 == RemoveCell(t, r, c)
    ensures RemoveAsWritten(t, weight, r, c).value.1 ==
      weight - (if Cell(t, r, c).Some? then Cell(t, r, c).value else 0)
  {
  }

  /** The table object: cells updated in place and the aggregate kept beside them. */
  class WeightTable<V(==)> {
    var table: Table<V>
    var weight: int

    /** The aggregate equals the sum of the cells. */
    ghost predicate Consistent()
      reads this
    {
      weight == CellSum(table)
    }

    /** An empty table with a zero aggregate. */
    constructor()
      ensures table == map[] && weight == 0 && Consistent()
    {
      table := map[];
      weight := 0;
    }

    /** `set`: store the cell and add val to the aggregate, whatever the cell held before. */
    method Set(r: V, c: V, val: int)
      modifies this
      ensures table == SetCell(old(table), r, c, val)
      ensures weight == old(weight) + val
      ensures old(Consistent()) && Cell(old(table), r, c).None? ==> Consistent()
    {
      SetCellSum(table, r, c, val);
      if r !in table {
        table := table[r := map[]];
      }
      table := table[r := table[r][c := val]];
      weight := weight + val;
    }

    /** `get`, with the column-must-be-a-row condition of the source. */
    function Get(r: V, c: V): (res: Option<int>)
      reads this
      ensures c in table ==> res == Cell(table, r, c)
      ensures c !in table ==> res == None
    {
      TableGet(table, r, c)
    }

    /** `remove`, with an absent cell left alone instead of failing. */
    method Remove(r: V, c: V)
      modifies this
      ensures table == RemoveCell(old(table), r, c)
      ensures weight == old(weight) - (if Cell(old(table), r, c).Some? then Cell(old(table), r, c).value else 0)
      ensures old(Consistent()) ==> Consistent()
    {
      RemoveCellSum(table, r, c);
      if r in table {
        if c in table[r] {
          weight := weight - table[r][c];
        }
        table := table[r := table[r] - {c}];
      }
    }

    /** `getWeight`: the aggregate, which is the sum of the cells while the table is consistent. */
    function GetWeight(): (w: int)
      reads this
      ensures Consistent() ==> w == CellSum(table)
    {
      weight
    }
  }
}
