/**
 * The value-keyed revision of the property map, for two property dimensions: each
 * dimension is a singly linked list of distinct values, and the payload table is keyed on
 * the tuple of property values itself.
 */
module ValueKeyedMap {
  import opened Wrappers
  import opened Dimension
  import opened Sorting
  import opened PayloadTable

  class PropMap<M, P0(==), P1(==)> {
    /** The per-dimension value lists, in enumeration order. */
    var dim0: seq<P0>
    var dim1: seq<P1>
    /** The payload table, keyed on value tuples. */
    var table: map<(P0, P1), M>

    /** Each dimension holds every value at most once, and every stored key's values are listed. */
    ghost predicate Valid()
      reads this
    {
      && NoDuplicates(dim0)
      && NoDuplicates(dim1)
      && (forall k :: k in table ==> k.0 in dim0 && k.1 in dim1)
    }

    constructor ()
      ensures Valid()
      ensures dim0 == [] && dim1 == [] && table == map[]
    {
      dim0, dim1, table := [], [], map[];
    }

    /**
     * Scan the list; append `p` after the last element unless an equal element is found,
     * in which case the list is left as it is.
     */
    static method ContainerInsert<P(==)>(c: seq<P>, p: P) returns (r: seq<P>)
      ensures r == Interned(c, p)
      ensures p in c ==> r == c
      ensures p !in c ==> |r| == |c| + 1 && r[..|c|] == c && r[|c|] == p
    {
      // `it` counts how far the iterator has advanced from before-begin: it sits just
      // before element `it`.
      var it := 0;
      var found := false;
      while it < |c|
        invariant 0 <= it <= |c|
        invariant forall j :: 0 <= j < it ==> c[j] != p
      {
        if c[it] == p {
          found := true;
          break;
        }
        it := it + 1;
      }
      if !found {
        r := c[..it] + [p] + c[it..];
      } else {
        r := c;
      }
    }

    /** Intern one value per dimension, dimension 0 first. */
    method AddProp(p0: P0, p1: P1)
      requires Valid()
      modifies this
      ensures Valid()
      ensures dim0 == Interned(old(dim0), p0) && dim1 == Interned(old(dim1), p1)
      ensures table == old(table)
    {
      dim0 := ContainerInsert(dim0, p0);
      dim1 := ContainerInsert(dim1, p1);
    }

    /** Intern both values, then emplace the payload under the value tuple (first write wins). */
    method Insert(x: M, p0: P0, p1: P1)
      requires Valid()
      modifies this
      ensures Valid()
      ensures dim0 == Interned(old(dim0), p0) && dim1 == Interned(old(dim1), p1)
      ensures table == Emplace(old(table), (p0, p1), x)
      ensures Lookup(table, (p0, p1)) ==
                if (p0, p1) in old(table) then Lookup(old(table), (p0, p1)) else Some(x)
      ensures forall k :: k != (p0, p1) ==> Lookup(table, k) == Lookup(old(table), k)
    {
      AddProp(p0, p1);
      table := Emplace(table, (p0, p1), x);
    }

    /** The enumeration of dimension 0: distinct values, covering every stored key's first value. */
    function Prop0(): (r: seq<P0>)
      reads this
      requires Valid()
      ensures NoDuplicates(r)
      ensures forall k :: k in table ==> k.0 in r
    {
      dim0
    }

    /** The enumeration of dimension 1: distinct values, covering every stored key's second value. */
    function Prop1(): (r: seq<P1>)
      reads this
      requires Valid()
      ensures NoDuplicates(r)
      ensures forall k :: k in table ==> k.1 in r
    {
      dim1
    }

    /**
     * Copy the payload stored under `(p0, p1)` into the out-argument and answer true, or
     * answer false and hand back the out-argument `x` untouched. Reads nothing but the table.
     */
    method Get(x: M, p0: P0, p1: P1) returns (found: bool, x': M)
      ensures found <==> (p0, p1) in table
      ensures found ==> x' == table[(p0, p1)]
      ensures !found ==> x' == x
    {
      var it := Lookup(table, (p0, p1));
      if it.Some? {
        found, x' := true, it.value;
      } else {
        found, x' := false, x;
      }
    }

    /** Sort dimension 0 with comparator `less` (for the default form, `<` of P0). */
    method Sort0(less: (P0, P0) -> bool)
      requires Valid() && StrictWeakOrderOn(less, dim0)
      modifies this
      ensures Valid()
      ensures dim0 == SortBy(old(dim0), less)
      ensures SortedBy(dim0, less) && multiset(dim0) == multiset(old(dim0))
      ensures dim1 == old(dim1) && table == old(table)
    {
      SortBySorted(dim0, less);
      SortByKeepsNoDuplicates(dim0, less);
      ghost var before := dim0;
      dim0 := SortBy(dim0, less);
      forall k | k in table ensures k.0 in dim0 {
        assert k.0 in multiset(before);
      }
    }

    /** Sort dimension 1 with comparator `less` (for the default form, `<` of P1). */
    method Sort1(less: (P1, P1) -> bool)
      requires Valid() && StrictWeakOrderOn(less, dim1)
      modifies this
      ensures Valid()
      ensures dim1 == SortBy(old(dim1), less)
      ensures SortedBy(dim1, less) && multiset(dim1) == multiset(old(dim1))
      ensures dim0 == old(dim0) && table == old(table)
    {
      SortBySorted(dim1, less);
      SortByKeepsNoDuplicates(dim1, less);
      ghost var before := dim1;
      dim1 := SortBy(dim1, less);
      forall k | k in table ensures k.1 in dim1 {
        assert k.1 in multiset(before);
      }
    }
  }
}
