/**
 * The two revisions agree: after the same sequence of inserts, the value-keyed map and
 * the interning map hold the same dimension contents and answer every `get` alike.
 */
module CrossRevision {
  import opened Dimension
  import opened PayloadTable
  import ValueKeyedMap
  import InterningMap

  /** One `insert(x, p0, p1)` call, as a driver issues it per input record. */
  datatype Insertion<M, P0, P1> = Insertion(x: M, p0: P0, p1: P1)

  /** Dimension lists and value-keyed table after the inserts, applied in order from empty. */
  function ValueKeyedAfter<M, P0(==), P1(==)>(ops: seq<Insertion<M, P0, P1>>)
    : (seq<P0>, seq<P1>, map<(P0, P1), M>)
    decreases |ops|
  {
    if ops == [] then ([], [], map[])
    else
      var (d0, d1, t) := ValueKeyedAfter(ops[..|ops| - 1]);
      var op := ops[|ops| - 1];
      (Interned(d0, op.p0), Interned(d1, op.p1), Emplace(t, (op.p0, op.p1), op.x))
  }

  /** Arenas and handle-keyed table after the inserts, applied in order from empty. */
  function InterningAfter<M, P0(==), P1(==)>(ops: seq<Insertion<M, P0, P1>>)
    : (seq<P0>, seq<P1>, map<(nat, nat), M>)
    decreases |ops|
  {
    if ops == [] then ([], [], map[])
    else
      var (a0, a1, t) := InterningAfter(ops[..|ops| - 1]);
      var op := ops[|ops| - 1];
      var a0', a1' := Interned(a0, op.p0), Interned(a1, op.p1);
      (a0', a1', Emplace(t, (Handle(a0', op.p0), Handle(a1', op.p1)), op.x))
  }

  /**
   * After the same inserts, both revisions list the same values per dimension, the
   * interning map's keys are live handles, and `get` gives the same answer for every pair.
   */
  lemma {:induction false} SameAnswers<M, P0, P1>(ops: seq<Insertion<M, P0, P1>>)
    ensures
      var (d0, d1, t) := ValueKeyedAfter(ops);
      var (a0, a1, u) := InterningAfter(ops);
      && d0 == a0 && d1 == a1
      && NoDuplicates(a0) && NoDuplicates(a1) && InterningMap.ValidKeys(u, |a0|, |a1|)
      && forall q0, q1 :: Lookup(t, (q0, q1)) == InterningMap.ResolveAndLookup(a0, a1, u, q0, q1)
    decreases |ops|
  {
    if ops != [] {
      var prefix := ops[..|ops| - 1];
      SameAnswers(prefix);
      var (d0, d1, t) := ValueKeyedAfter(prefix);
      var (a0, a1, u) := InterningAfter(prefix);
      var op := ops[|ops| - 1];
      var (e0, e1, t') := ValueKeyedAfter(ops);
      var (b0, b1, u') := InterningAfter(ops);
      forall q0, q1 ensures Lookup(t', (q0, q1)) == InterningMap.ResolveAndLookup(b0, b1, u', q0, q1) {
        InterningMap.LookupAfterInsert(a0, a1, u, op.x, op.p0, op.p1, q0, q1);
        assert Lookup(t, (op.p0, op.p1)) == InterningMap.ResolveAndLookup(a0, a1, u, op.p0, op.p1);
      }
    }
  }

  /** Applying insert `i` to the value-keyed container advances its replay by that insert. */
  method AdvanceValueKeyed<M, P0(==), P1(==)>(
    vm: ValueKeyedMap.PropMap<M, P0, P1>, ops: seq<Insertion<M, P0, P1>>, i: nat)
    requires i < |ops|
    requires vm.Valid()
    requires (vm.dim0, vm.dim1, vm.table) == ValueKeyedAfter(ops[..i])
    modifies vm
    ensures vm.Valid()
    ensures (vm.dim0, vm.dim1, vm.table) == ValueKeyedAfter(ops[..i + 1])
  {
    assert ops[..i + 1][..i] == ops[..i];
    var op := ops[i];
    vm.Insert(op.x, op.p0, op.p1);
  }

  /**
   * Applying insert `i` to the interning container advances its replay by that insert,
   * and an enumeration never sorted stays in insertion order.
   */
  method AdvanceInterning<M, P0(==), P1(==)>(
    im: InterningMap.PropMap<M, P0, P1>, ops: seq<Insertion<M, P0, P1>>, i: nat)
    requires i < |ops|
    requires im.Valid()
    requires (im.arena0, im.arena1, im.table) == InterningAfter(ops[..i])
    requires im.order0 == InsertionOrder(|im.arena0|) && im.order1 == InsertionOrder(|im.arena1|)
    modifies im
    ensures im.Valid()
    ensures (im.arena0, im.arena1, im.table) == InterningAfter(ops[..i + 1])
    ensures im.order0 == InsertionOrder(|im.arena0|) && im.order1 == InsertionOrder(|im.arena1|)
  {
    assert ops[..i + 1][..i] == ops[..i];
    var op := ops[i];
    InsertionOrderAfterIntern(im.arena0, op.p0);
    InsertionOrderAfterIntern(im.arena1, op.p1);
    im.Insert(op.x, op.p0, op.p1);
  }

  /**
   * Drive both containers with the same inserts: every dimension enumerates the same values
   * in the same order, and every `get` they can be asked answers alike.
   */
  method InsertAllIntoBoth<M, P0(==), P1(==)>(ops: seq<Insertion<M, P0, P1>>)
    returns (vm: ValueKeyedMap.PropMap<M, P0, P1>, im: InterningMap.PropMap<M, P0, P1>)
    ensures vm.Valid() && im.Valid()
    ensures vm.dim0 == im.arena0 && vm.dim1 == im.arena1
    ensures vm.Prop0() == im.Prop0() && vm.Prop1() == im.Prop1()
    ensures forall q0, q1 :: Lookup(vm.table, (q0, q1)) ==
                             InterningMap.ResolveAndLookup(im.arena0, im.arena1, im.table, q0, q1)
  {
    vm := new ValueKeyedMap.PropMap();
    im := new InterningMap.PropMap();
    var i := 0;
    while i < |ops|
      invariant 0 <= i <= |ops|
      invariant fresh(vm) && fresh(im)
      invariant vm.Valid() && im.Valid()
      invariant (vm.dim0, vm.dim1, vm.table) == ValueKeyedAfter(ops[..i])
      invariant (im.arena0, im.arena1, im.table) == InterningAfter(ops[..i])
      invariant im.order0 == InsertionOrder(|im.arena0|) && im.order1 == InsertionOrder(|im.arena1|)
    {
      AdvanceValueKeyed(vm, ops, i);
      AdvanceInterning(im, ops, i);
      i := i + 1;
    }
    assert ops[..|ops|] == ops;
    SameAnswers(ops);
    EnumerateInInsertionOrder(im.arena0);
    EnumerateInInsertionOrder(im.arena1);
  }
}
