/**
 * Comparators. A comparator is a function returning a signed int, as
 * java.util.Comparator.compare does; the heap ranks x above y when
 * compare(x, y) > 0.
 */
module Ordering {

  /**
   * The java.util.Comparator contract: the sign of compare(x, y) is the
   * opposite of the sign of compare(y, x), and "ranks at least as high"
   * (compare >= 0) is transitive. Together they make a total preorder.
   */
  ghost predicate IsComparator<P(!new)>(cmp: (P, P) -> int)
  {
    && (forall x, y :: cmp(x, y) > 0 <==> cmp(y, x) < 0)
    && (forall x, y, z :: cmp(x, y) >= 0 && cmp(y, z) >= 0 ==> cmp(x, z) >= 0)
  }

  /** A comparator finds every value equal to itself. */
  lemma CompareSelf<P(!new)>(cmp: (P, P) -> int, x: P)
    requires IsComparator(cmp)
    ensures cmp(x, x) == 0
  {
  }

  /** The priority Prim's algorithm gives a vertex: a finite key, or the "unreached" sentinel. */
  datatype Key = Finite(w: int) | Infinite

  /** Key order: finite keys by value, the sentinel above every finite key. */
  predicate KeyBelow(a: Key, b: Key)
  {
    match (a, b)
    case (Finite(x), Finite(y)) => x < y
    case (Finite(_), Infinite) => true
    case (Infinite, _) => false
  }

  /** The natural order of keys, as Double.compareTo reports it (-1, 0 or 1). */
  function NaturalCompare(a: Key, b: Key): (r: int)
    ensures r < 0 <==> KeyBelow(a, b)
    ensures r > 0 <==> KeyBelow(b, a)
    ensures r == 0 <==> a == b
  {
    if KeyBelow(a, b) then -1 else if KeyBelow(b, a) then 1 else 0
  }

  /**
   * The minimizing comparator handed to Prim's algorithm: the negated natural
   * order, so the smallest key ranks highest and is extracted first.
   */
  function MinCompare(a: Key, b: Key): (r: int)
    ensures r > 0 <==> KeyBelow(a, b)
    ensures r >= 0 <==> !KeyBelow(b, a)
  {
    -NaturalCompare(a, b)
  }

  /** The minimizing comparator meets the comparator contract. */
  lemma MinCompareIsComparator()
    ensures IsComparator(MinCompare)
  {
    forall x, y, z | MinCompare(x, y) >= 0 && MinCompare(y, z) >= 0
      ensures MinCompare(x, z) >= 0
    {
      assert !KeyBelow(y, x) && !KeyBelow(z, y);
    }
  }
}
