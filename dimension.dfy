/**
 * One dimension dictionary: the deduplicated, append-only list of the values seen in one
 * property dimension, and the lookups both container revisions perform on it.
 */
module Dimension {
  import opened Wrappers

  /** No two entries are equal: at most one canonical entry per distinct value. */
  ghost predicate NoDuplicates<P>(s: seq<P>) {
    forall i, j :: 0 <= i < j < |s| ==> s[i] != s[j]
  }

  /**
   * The contents after interning `p`: unchanged when an equal value is present, otherwise
   * `p` appended after the last entry.
   */
  function Interned<P(==)>(c: seq<P>, p: P): (r: seq<P>)
    ensures p in r
    ensures |c| <= |r| <= |c| + 1
    ensures r[..|c|] == c
    ensures NoDuplicates(c) ==> NoDuplicates(r)
  {
    if p in c then c else c + [p]
  }

  /** Interning the same value again changes nothing. */
  lemma InternedIdempotent<P>(c: seq<P>, p: P)
    ensures Interned(Interned(c, p), p) == Interned(c, p)
  {
  }

  /**
   * Read-only resolution of a value to its slot: the first position holding `p`,
   * or None when no entry equals `p`.
   */
  function Find<P(==)>(c: seq<P>, p: P): (r: Option<nat>)
    ensures r.Some? ==> r.value < |c| && c[r.value] == p
    ensures r.Some? ==> forall j :: 0 <= j < r.value ==> c[j] != p
    ensures r.None? <==> p !in c
    decreases |c|
  {
    if c == [] then None
    else if c[0] == p then Some(0)
    else match Find(c[1..], p)
      case None => None
      case Some(i) => Some(i + 1)
  }

  /** The canonical handle of an interned value: its slot index. */
  function Handle<P(==)>(c: seq<P>, p: P): (h: nat)
    requires p in c
    ensures h < |c| && c[h] == p
  {
    Find(c, p).value
  }

  /** Without duplicates, a slot is determined by its value: two handles are equal iff their values are. */
  lemma HandleUnique<P>(c: seq<P>, h: nat)
    requires NoDuplicates(c) && h < |c|
    ensures Handle(c, c[h]) == h
  {
  }

  /**
   * Reference stability: after interning `p`, every value that was already present resolves
   * to the slot it had, `p` resolves to its slot, and nothing else resolves.
   */
  lemma {:induction false} FindAfterIntern<P>(c: seq<P>, p: P, q: P)
    ensures Find(Interned(c, p), q) ==
              if q in c then Find(c, q) else if q == p then Some(|c|) else None
    decreases |c|
  {
    if p !in c && c != [] && c[0] != q {
      assert (c + [p])[1..] == c[1..] + [p];
      FindAfterIntern(c[1..], p, q);
    }
  }

  /**
   * An enumeration order over `n` slots: every entry is a slot below `n`, no slot is listed
   * twice and every slot is listed.
   */
  ghost predicate IsSlotOrder(order: seq<nat>, n: nat) {
    && |order| == n
    && NoDuplicates(order)
    && (forall j :: 0 <= j < |order| ==> order[j] < n)
    && (forall s :: 0 <= s < n ==> s in order)
  }

  /** Appending the next fresh slot to an enumeration keeps it an enumeration of one more slot. */
  lemma AppendSlot(order: seq<nat>, n: nat)
    requires IsSlotOrder(order, n)
    ensures IsSlotOrder(order + [n], n + 1)
  {
    forall s | 0 <= s < n + 1 ensures s in order + [n] {
      if s < n { assert s in order; }
    }
  }

  /** The enumeration of a dimension that has never been sorted: its slots in insertion order. */
  function InsertionOrder(n: nat): (r: seq<nat>)
    ensures IsSlotOrder(r, n)
  {
    InsertionOrderIsSlotOrder(n);
    seq(n, i requires 0 <= i < n => i)
  }

  lemma InsertionOrderIsSlotOrder(n: nat)
    ensures IsSlotOrder(seq(n, i requires 0 <= i < n => i), n)
  {
    var r := seq(n, i requires 0 <= i < n => i);
    forall s | 0 <= s < n ensures s in r {
      assert r[s] == s;
    }
  }

  /**
   * Interning appends each new slot at the tail, so an enumeration in insertion order
   * stays in insertion order.
   */
  lemma InsertionOrderAfterIntern<P>(arena: seq<P>, p: P)
    ensures (if p in arena then InsertionOrder(|arena|) else InsertionOrder(|arena|) + [|arena|])
            == InsertionOrder(|Interned(arena, p)|)
  {
  }

  /** The values of a dimension in enumeration order. */
  function Enumerate<P>(arena: seq<P>, order: seq<nat>): (r: seq<P>)
    requires forall j :: 0 <= j < |order| ==> order[j] < |arena|
    ensures |r| == |order|
    ensures forall j :: 0 <= j < |order| ==> r[j] == arena[order[j]]
  {
    seq(|order|, j requires 0 <= j < |order| => arena[order[j]])
  }

  /** Until a dimension is sorted, its enumeration lists the values in the order they were first interned. */
  lemma EnumerateInInsertionOrder<P>(arena: seq<P>)
    ensures Enumerate(arena, InsertionOrder(|arena|)) == arena
  {
  }

  /** Enumerating a duplicate-free arena through a slot order lists every value exactly once. */
  lemma EnumerateIsDeduplicated<P>(arena: seq<P>, order: seq<nat>)
    requires NoDuplicates(arena) && IsSlotOrder(order, |arena|)
    ensures NoDuplicates(Enumerate(arena, order))
    ensures forall v :: v in Enumerate(arena, order) <==> v in arena
  {
    var r := Enumerate(arena, order);
    forall v | v in arena ensures v in r {
      var s :| 0 <= s < |arena| && arena[s] == v;
      assert s in order;
      var j :| 0 <= j < |order| && order[j] == s;
      assert r[j] == v;
    }
  }
}
