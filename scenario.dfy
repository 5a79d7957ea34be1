/**
 * The allocation driver's call pattern: three inserts over two dimensions of integers
 * (standing in for objects compared by their integer field), one of them repeating a
 * value, then sorting dimension 0 ascending.
 */
module AllocScenario {
  import InterningMap
  import opened Wrappers
  import ValueKeyedMap
  import Sorting
  import Dimension

  /** The natural order of the integer properties. */
  function IntLess(a: int, b: int): bool {
    a < b
  }

  /** Ascending insertion sort of the three values of dimension 0. */
  lemma SortExample()
    ensures Sorting.SortBy([1, 3, 2], IntLess) == [1, 2, 3]
  {
    assert [1, 3, 2][1..] == [3, 2] && [3, 2][1..] == [2] && [2][1..] == [];
    assert Sorting.SortBy([2], IntLess) == [2];
    assert Sorting.SortBy([3, 2], IntLess) == [2, 3];
    assert Sorting.InsertSorted(1, [2, 3], IntLess) == [1, 2, 3];
  }

  /** The first two steps of sorting slots [1, 2] by the values [1, 3, 2]: slot 2 goes before slot 1. */
  lemma SlotSortTail()
    ensures var slots: seq<nat> := [1, 2]; Sorting.SortBy(slots, InterningMap.SlotLess([1, 3, 2], IntLess)) == [2, 1]
  {
    var values: seq<int> := [1, 3, 2];
    var sl := InterningMap.SlotLess(values, IntLess);
    var s12: seq<nat>, s2: seq<nat> := [1, 2], [2];
    assert s12[1..] == s2 && s2[1..] == [];
    assert Sorting.SortBy(s2, sl) == s2;
    assert values[2] == 2 && values[1] == 3;
    assert IntLess(values[2], values[1]);
    assert sl(2, 1);
    assert Sorting.SortBy(s12, sl) == Sorting.InsertSorted(1, s2, sl);
  }

  /** Ascending sort of dimension 0's slots by the values [1, 3, 2] they hold, and what it enumerates. */
  lemma SlotSortExample()
    ensures var slots: seq<nat> := [0, 1, 2]; Sorting.SortBy(slots, InterningMap.SlotLess([1, 3, 2], IntLess)) == [0, 2, 1]
    ensures Dimension.Enumerate([1, 3, 2], [0, 2, 1]) == [1, 2, 3]
  {
    var order: seq<nat> := [0, 1, 2];
    var values: seq<int> := [1, 3, 2];
    var sl := InterningMap.SlotLess(values, IntLess);
    var s12: seq<nat>, s21: seq<nat> := [1, 2], [2, 1];
    SlotSortTail();
    assert order[1..] == s12;
    assert Sorting.SortBy(order, sl) == Sorting.InsertSorted(0, s21, sl);
    assert values[2] == 2 && values[0] == 1;
    assert !sl(2, 0);
  }

  /** The sequence facts the runs below rely on, proved once outside their larger contexts. */
  lemma Concatenations()
    ensures [1] + [3] == [1, 3] && [1, 3] + [2] == [1, 3, 2] && [2] + [3] == [2, 3]
    ensures [0] + [1] == [0, 1] && [0, 1] + [2] == [0, 1, 2]
    ensures 3 !in [1] && 2 !in [1, 3] && 3 !in [2] && 1 in [1, 3, 2] && 2 in [2, 3]
    ensures Dimension.Enumerate([2, 3], [0, 1]) == [2, 3]
  {
  }

  /** Inserts (1, 2) -> 1, (3, 2) -> 4, (2, 3) -> 4 into a fresh map; `2` is interned once in dimension 1. */
  method BuildAllocMap() returns (pm: InterningMap.PropMap<int, int, int>)
    ensures fresh(pm) && pm.Valid()
    ensures pm.arena0 == [1, 3, 2] && pm.order0 == [0, 1, 2] && pm.arena1 == [2, 3] && pm.order1 == [0, 1]
    ensures InterningMap.ResolveAndLookup(pm.arena0, pm.arena1, pm.table, 3, 2) == Some(4)
    ensures InterningMap.ResolveAndLookup(pm.arena0, pm.arena1, pm.table, 2, 2) == None
  {
    Concatenations();
    pm := new InterningMap.PropMap<int, int, int>();
    pm.Insert(1, 1, 2);
    assert pm.arena0 == [1] && pm.order0 == [0] && pm.arena1 == [2] && pm.order1 == [0];
    pm.Insert(4, 3, 2);
    assert pm.arena0 == [1, 3] && pm.order0 == [0, 1] && pm.arena1 == [2] && pm.order1 == [0];
    assert InterningMap.ResolveAndLookup(pm.arena0, pm.arena1, pm.table, 2, 2) == None;
    assert InterningMap.ResolveAndLookup(pm.arena0, pm.arena1, pm.table, 3, 2) == Some(4);
    pm.Insert(4, 2, 3);
  }

  /** The allocation driver: build, sort dimension 0 ascending, enumerate, and look up. */
  method InterningRun() returns (names0: seq<int>, names1: seq<int>, hit: bool, payload: int, miss: bool)
    ensures names0 == [1, 2, 3] && names1 == [2, 3]
    ensures hit && payload == 4
    ensures !miss
  {
    var pm := BuildAllocMap();
    SlotSortExample();
    Concatenations();
    pm.Sort0(IntLess);
    names0 := pm.Prop0();
    names1 := pm.Prop1();
    hit, payload := pm.Get(0, 3, 2);
    var unused;
    miss, unused := pm.Get(0, 2, 2);
  }

  /** The same inserts on the value-keyed revision, with a repeated insert that does not overwrite. */
  method ValueKeyedRun() returns (names0: seq<int>, names1: seq<int>, hit: bool, payload: int)
    ensures names0 == [1, 2, 3] && names1 == [2, 3]
    ensures hit && payload == 1
  {
    Concatenations();
    var pm := new ValueKeyedMap.PropMap<int, int, int>();
    pm.Insert(1, 1, 2);
    assert pm.dim0 == [1] && pm.dim1 == [2];
    pm.Insert(4, 3, 2);
    assert pm.dim0 == [1, 3] && pm.dim1 == [2];
    pm.Insert(4, 2, 3);
    assert pm.dim0 == [1, 3, 2] && pm.dim1 == [2, 3];
    pm.Insert(7, 1, 2);
    assert pm.dim0 == [1, 3, 2] && pm.dim1 == [2, 3];
    pm.Sort0(IntLess);
    SortExample();
    names0 := pm.Prop0();
    names1 := pm.Prop1();
    hit, payload := pm.Get(0, 1, 2);
  }
}
