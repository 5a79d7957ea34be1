/**
 * The interning revision of the property map, for two property dimensions. Each dimension
 * is an append-only arena of distinct values; a canonical handle is a slot index into it,
 * and the dimension's enumeration order is a separate permutation of its slots. The
 * payload table is keyed on the tuple of handles.
 */
module InterningMap {
  import opened Wrappers
  import opened Dimension
  import opened Sorting
  import opened PayloadTable
  import opened KeyHash

  /** Every stored key is a pair of live handles. */
  ghost predicate ValidKeys<M>(table: map<(nat, nat), M>, n0: nat, n1: nat) {
    forall k :: k in table ==> k.0 < n0 && k.1 < n1
  }

  /**
   * `get` by values: resolve each value to its handle without interning, then probe the
   * table with the handle pair. Answers exactly when some stored key's handles denote the
   * queried values.
   */
  function ResolveAndLookup<M, P0(==), P1(==)>(
    arena0: seq<P0>, arena1: seq<P1>, table: map<(nat, nat), M>, p0: P0, p1: P1): (r: Option<M>)
    requires NoDuplicates(arena0) && NoDuplicates(arena1)
    ensures r.Some? <==>
              exists k :: k in table && k.0 < |arena0| && k.1 < |arena1| && arena0[k.0] == p0 && arena1[k.1] == p1
    ensures forall k :: k in table && k.0 < |arena0| && k.1 < |arena1| && arena0[k.0] == p0 && arena1[k.1] == p1
                        ==> r == Some(table[k])
  {
    match (Find(arena0, p0), Find(arena1, p1))
    case (Some(h0), Some(h1)) =>
      forall k: (nat, nat) | k in table && k.0 < |arena0| && k.1 < |arena1| && arena0[k.0] == p0 && arena1[k.1] == p1
        ensures k == (h0, h1)
      {
        HandleUnique(arena0, k.0);
        HandleUnique(arena1, k.1);
      }
      Lookup(table, (h0, h1))
    case _ => None
  }

  /**
   * What one insert does to every lookup: the inserted value pair now answers with the
   * payload it already had, or else with `x`; every other value pair answers as before.
   */
  lemma LookupAfterInsert<M, P0, P1>(
    arena0: seq<P0>, arena1: seq<P1>, table: map<(nat, nat), M>, x: M, p0: P0, p1: P1, q0: P0, q1: P1)
    requires NoDuplicates(arena0) && NoDuplicates(arena1) && ValidKeys(table, |arena0|, |arena1|)
    ensures
      var a0, a1 := Interned(arena0, p0), Interned(arena1, p1);
      var t := Emplace(table, (Handle(a0, p0), Handle(a1, p1)), x);
      ResolveAndLookup(a0, a1, t, q0, q1) ==
        if (q0, q1) == (p0, p1) then Some(ResolveAndLookup(arena0, arena1, table, p0, p1).GetOr(x))
        else ResolveAndLookup(arena0, arena1, table, q0, q1)
  {
    var a0, a1 := Interned(arena0, p0), Interned(arena1, p1);
    FindAfterIntern(arena0, p0, p0);
    FindAfterIntern(arena1, p1, p1);
    FindAfterIntern(arena0, p0, q0);
    FindAfterIntern(arena1, p1, q1);
  }

  /**
   * The intended handle order for sorting: slots compare as the values they hold.
   */
  function SlotLess<P>(arena: seq<P>, less: (P, P) -> bool): (nat, nat) -> bool {
    (a: nat, b: nat) => a < |arena| && b < |arena| && less(arena[a], arena[b])
  }

  /** A strict weak ordering on the values is one on the slots that hold them. */
  lemma SlotLessIsStrictWeakOrder<P>(arena: seq<P>, less: (P, P) -> bool, order: seq<nat>)
    requires StrictWeakOrderOn(less, arena)
    requires forall j :: 0 <= j < |order| ==> order[j] < |arena|
    ensures StrictWeakOrderOn(SlotLess(arena, less), order)
  {
    var sl := SlotLess(arena, less);
    forall a, b, c | a in order && b in order && c in order && sl(a, c)
      ensures sl(a, b) || sl(b, c)
    {
      assert arena[a] in arena && arena[b] in arena && arena[c] in arena;
    }
    forall a, b | a in order && b in order && sl(a, b)
      ensures !sl(b, a)
    {
      assert arena[a] in arena && arena[b] in arena;
    }
  }

  /** A slot order sorted by SlotLess enumerates the values sorted by `less`. */
  lemma SortedSlotsEnumerateSorted<P>(arena: seq<P>, less: (P, P) -> bool, order: seq<nat>)
    requires forall j :: 0 <= j < |order| ==> order[j] < |arena|
    requires SortedBy(order, SlotLess(arena, less))
    ensures SortedBy(Enumerate(arena, order), less)
  {
    var r := Enumerate(arena, order);
    forall i, j | 0 <= i < j < |r| ensures !less(r[j], r[i]) {
      assert !SlotLess(arena, less)(order[j], order[i]);
    }
  }

  /** Sorting a slot order by SlotLess leaves it an order over the same slots. */
  lemma SortedSlotsStayASlotOrder<P>(arena: seq<P>, less: (P, P) -> bool, order: seq<nat>)
    requires IsSlotOrder(order, |arena|)
    ensures IsSlotOrder(SortBy(order, SlotLess(arena, less)), |arena|)
  {
    var sorted := SortBy(order, SlotLess(arena, less));
    SortByKeepsNoDuplicates(order, SlotLess(arena, less));
    assert |sorted| == |multiset(sorted)| == |multiset(order)| == |order|;
    forall j | 0 <= j < |sorted| ensures sorted[j] < |arena| {
      assert sorted[j] in multiset(order);
    }
    forall s | 0 <= s < |arena| ensures s in sorted {
      assert s in order;
      assert s in multiset(order);
    }
  }

  /**
   * The container_insert of this revision AS WRITTEN: the scan leaves the iterator one
   * step behind the element it examines, and the found branch returns what that iterator
   * points at. Returns None where that is the before-begin position (undefined
   * behaviour). Only the returned handle is modelled here; the container update is the
   * same as in PropMap.ContainerInsert.
   */
  method ContainerInsertAsWritten<P(==)>(arena: seq<P>, order: seq<nat>, p: P) returns (r: Option<nat>)
    requires NoDuplicates(arena) && IsSlotOrder(order, |arena|)
    ensures p !in arena ==> r == Some(|arena|)
    ensures p in arena ==> r.None? || (r.value < |arena| && arena[r.value] != p)
    ensures |order| > 0 && arena[order[0]] == p ==> r.None?
  {
    var it := 0;
    var found := false;
    while it < |order|
      invariant 0 <= it <= |order|
      invariant forall j :: 0 <= j < it ==> arena[order[j]] != p
    {
      if arena[order[it]] == p {
        found := true;
        break;
      }
      it := it + 1;
    }
    if !found {
      forall s | 0 <= s < |arena| ensures arena[s] != p {
        assert s in order;
      }
      r := Some(|arena|);
    } else if it == 0 {
      r := None;
    } else {
      r := Some(order[it - 1]);
    }
  }

  class PropMap<M, P0(==), P1(==)> {
    /** The arenas: slot i of a dimension holds the i-th distinct value it interned. */
    var arena0: seq<P0>
    var arena1: seq<P1>
    /** The enumeration order of each dimension, as a permutation of its slots. */
    var order0: seq<nat>
    var order1: seq<nat>
    /** The payload table, keyed on handle pairs. */
    var table: map<(nat, nat), M>

    ghost predicate Valid()
      reads this
    {
      && NoDuplicates(arena0)
      && NoDuplicates(arena1)
      && IsSlotOrder(order0, |arena0|)
      && IsSlotOrder(order1, |arena1|)
      && ValidKeys(table, |arena0|, |arena1|)
    }

    constructor ()
      ensures Valid()
      ensures arena0 == [] && arena1 == [] && order0 == [] && order1 == [] && table == map[]
    {
      arena0, arena1, order0, order1, table := [], [], [], [], map[];
    }

    /**
     * Intern `p`: scan the enumeration for an equal value and return its handle, or append
     * a new slot holding `p` after the last enumerated element and return the new handle.
     */
    static method ContainerInsert<P(==)>(arena: seq<P>, order: seq<nat>, p: P)
      returns (arena': seq<P>, order': seq<nat>, h: nat)
      requires NoDuplicates(arena) && IsSlotOrder(order, |arena|)
      ensures arena' == Interned(arena, p)
      ensures order' == if p in arena then order else order + [|arena|]
      ensures h == Handle(arena', p)
      ensures p in arena ==> h < |arena|
      ensures p !in arena ==> h == |arena|
      ensures NoDuplicates(arena') && IsSlotOrder(order', |arena'|)
    {
      // `it` counts how far the iterator has advanced from before-begin: it sits just
      // before element `it`, the one examined next.
      var it := 0;
      var found := false;
      while it < |order|
        invariant 0 <= it <= |order|
        invariant forall j :: 0 <= j < it ==> arena[order[j]] != p
      {
        if arena[order[it]] == p {
          found := true;
          break;
        }
        it := it + 1;
      }
      if !found {
        forall s | 0 <= s < |arena| ensures arena[s] != p {
          assert s in order;
        }
        h := |arena|;
        arena' := arena + [p];
        order' := order[..it] + [h] + order[it..];
        AppendSlot(order, |arena|);
      } else {
        h := order[it];
        HandleUnique(arena, h);
        arena', order' := arena, order;
      }
    }

    /** Intern one value per dimension and return the key of their handles. */
    method AddProp(p0: P0, p1: P1) returns (key: (nat, nat))
      requires Valid()
      modifies this
      ensures Valid()
      ensures arena0 == Interned(old(arena0), p0) && arena1 == Interned(old(arena1), p1)
      ensures order0 == if p0 in old(arena0) then old(order0) else old(order0) + [|old(arena0)|]
      ensures order1 == if p1 in old(arena1) then old(order1) else old(order1) + [|old(arena1)|]
      ensures key == (Handle(arena0, p0), Handle(arena1, p1))
      ensures table == old(table)
    {
      var h0, h1;
      arena0, order0, h0 := ContainerInsert(arena0, order0, p0);
      arena1, order1, h1 := ContainerInsert(arena1, order1, p1);
      key := (h0, h1);
    }

    /** Intern both values, then emplace the payload under their handle pair (first write wins). */
    method Insert(x: M, p0: P0, p1: P1)
      requires Valid()
      modifies this
      ensures Valid()
      ensures arena0 == Interned(old(arena0), p0) && arena1 == Interned(old(arena1), p1)
      ensures order0 == if p0 in old(arena0) then old(order0) else old(order0) + [|old(arena0)|]
      ensures order1 == if p1 in old(arena1) then old(order1) else old(order1) + [|old(arena1)|]
      ensures table == Emplace(old(table), (Handle(arena0, p0), Handle(arena1, p1)), x)
      ensures ResolveAndLookup(arena0, arena1, table, p0, p1) ==
                Some(old(ResolveAndLookup(arena0, arena1, table, p0, p1)).GetOr(x))
      ensures forall q0, q1 :: (q0, q1) != (p0, p1) ==>
                ResolveAndLookup(arena0, arena1, table, q0, q1) ==
                ResolveAndLookup(old(arena0), old(arena1), old(table), q0, q1)
    {
      var key := AddProp(p0, p1);
      table := Emplace(table, key, x);
      LookupAfterInsert(old(arena0), old(arena1), old(table), x, p0, p1, p0, p1);
      forall q0, q1 | (q0, q1) != (p0, p1)
        ensures ResolveAndLookup(arena0, arena1, table, q0, q1) ==
                ResolveAndLookup(old(arena0), old(arena1), old(table), q0, q1)
      {
        LookupAfterInsert(old(arena0), old(arena1), old(table), x, p0, p1, q0, q1);
      }
    }

    /** Dimension 0 in enumeration order: every interned value exactly once. */
    function Prop0(): (r: seq<P0>)
      reads this
      requires Valid()
      ensures NoDuplicates(r)
      ensures forall v :: v in r ==> v in arena0
      ensures forall v :: v in arena0 ==> v in r
    {
      EnumerateIsDeduplicated(arena0, order0);
      Enumerate(arena0, order0)
    }

    /** Dimension 1 in enumeration order: every interned value exactly once. */
    function Prop1(): (r: seq<P1>)
      reads this
      requires Valid()
      ensures NoDuplicates(r)
      ensures forall v :: v in r ==> v in arena1
      ensures forall v :: v in arena1 ==> v in r
    {
      EnumerateIsDeduplicated(arena1, order1);
      Enumerate(arena1, order1)
    }

    /**
     * Copy the payload stored for the values `(p0, p1)` into the out-argument and answer
     * true, or answer false and hand back `x` untouched. Resolving a value never interns it.
     */
    method Get(x: M, p0: P0, p1: P1) returns (found: bool, x': M)
      requires Valid()
      ensures found <==>
                exists k :: k in table && k.0 < |arena0| && k.1 < |arena1| && arena0[k.0] == p0 && arena1[k.1] == p1
      ensures found ==> forall k :: k in table && k.0 < |arena0| && k.1 < |arena1| && arena0[k.0] == p0 && arena1[k.1] == p1
                                    ==> x' == table[k]
      ensures !found ==> x' == x
      ensures found == ResolveAndLookup(arena0, arena1, table, p0, p1).Some?
      ensures x' == ResolveAndLookup(arena0, arena1, table, p0, p1).GetOr(x)
    {
      var h0 := Find(arena0, p0);
      var h1 := Find(arena1, p1);
      if h0.Some? && h1.Some? && (h0.value, h1.value) in table {
        found, x' := true, table[(h0.value, h1.value)];
      } else {
        found, x' := false, x;
      }
    }

    /**
     * Sort dimension 0's enumeration by comparing the values its handles denote (for the
     * default form, `<` of P0). Arenas, handles and the table are untouched.
     */
    method Sort0(less: (P0, P0) -> bool)
      requires Valid() && StrictWeakOrderOn(less, arena0)
      modifies this
      ensures Valid()
      ensures order0 == SortBy(old(order0), SlotLess(arena0, less))
      ensures SortedBy(Prop0(), less)
      ensures arena0 == old(arena0) && arena1 == old(arena1) && order1 == old(order1) && table == old(table)
    {
      SlotLessIsStrictWeakOrder(arena0, less, order0);
      SortBySorted(order0, SlotLess(arena0, less));
      SortedSlotsStayASlotOrder(arena0, less, order0);
      order0 := SortBy(order0, SlotLess(arena0, less));
      SortedSlotsEnumerateSorted(arena0, less, order0);
    }

    /**
     * Sort dimension 1's enumeration by comparing the values its handles denote (for the
     * default form, `<` of P1). Arenas, handles and the table are untouched.
     */
    method Sort1(less: (P1, P1) -> bool)
      requires Valid() && StrictWeakOrderOn(less, arena1)
      modifies this
      ensures Valid()
      ensures order1 == SortBy(old(order1), SlotLess(arena1, less))
      ensures SortedBy(Prop1(), less)
      ensures arena0 == old(arena0) && arena1 == old(arena1) && order0 == old(order0) && table == old(table)
    {
      SlotLessIsStrictWeakOrder(arena1, less, order1);
      SortBySorted(order1, SlotLess(arena1, less));
      SortedSlotsStayASlotOrder(arena1, less, order1);
      order1 := SortBy(order1, SlotLess(arena1, less));
      SortedSlotsEnumerateSorted(arena1, less, order1);
    }

    /**
     * The table's hash of a handle key: the combiner folded over the hashes of the values
     * the handles denote, so it equals the value-keyed revision's hash of that value pair.
     */
    function KeyHash(hash0: P0 -> bv64, hash1: P1 -> bv64, key: (nat, nat)): (r: bv64)
      reads this
      requires key.0 < |arena0| && key.1 < |arena1|
      ensures r == PairHash(hash0, hash1, (arena0[key.0], arena1[key.1]))
    {
      CombineUpTo(0, [hash0(arena0[key.0]), hash1(arena1[key.1])], 1)
    }
  }
}
