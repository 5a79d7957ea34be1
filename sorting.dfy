/**
 * Reordering one dimension's enumeration with a comparator. The comparator must be a
 * strict weak ordering on the values it compares, as the list sort it models demands.
 */
module Sorting {
  import opened Dimension

  /** `less` is asymmetric and negatively transitive on the elements of `dom`. */
  ghost predicate StrictWeakOrderOn<T>(less: (T, T) -> bool, dom: seq<T>) {
    && (forall a, b :: a in dom && b in dom && less(a, b) ==> !less(b, a))
    && (forall a, b, c :: a in dom && b in dom && c in dom && less(a, c) ==> less(a, b) || less(b, c))
  }

  /** No element is less than one before it. */
  ghost predicate SortedBy<T>(s: seq<T>, less: (T, T) -> bool) {
    forall i, j :: 0 <= i < j < |s| ==> !less(s[j], s[i])
  }

  /** Place `x` in front of the first element that is not less than it; nothing is lost or added. */
  function InsertSorted<T>(x: T, s: seq<T>, less: (T, T) -> bool): (r: seq<T>)
    ensures multiset(r) == multiset(s) + multiset{x}
    decreases |s|
  {
    if s == [] then [x]
    else if less(s[0], x) then
      assert s == [s[0]] + s[1..];
      [s[0]] + InsertSorted(x, s[1..], less)
    else [x] + s
  }

  /** Insertion sort: sort the tail, then place the head. Sorting only reorders. */
  function SortBy<T>(s: seq<T>, less: (T, T) -> bool): (r: seq<T>)
    ensures multiset(r) == multiset(s)
    decreases |s|
  {
    if s == [] then []
    else
      assert s == [s[0]] + s[1..];
      InsertSorted(s[0], SortBy(s[1..], less), less)
  }

  lemma {:induction false} InsertSortedSorted<T>(x: T, s: seq<T>, less: (T, T) -> bool, dom: seq<T>)
    requires StrictWeakOrderOn(less, dom)
    requires x in dom && forall e :: e in s ==> e in dom
    requires SortedBy(s, less)
    ensures SortedBy(InsertSorted(x, s, less), less)
    decreases |s|
  {
    if s == [] {
    } else if less(s[0], x) {
      var t := InsertSorted(x, s[1..], less);
      InsertSortedSorted(x, s[1..], less, dom);
      forall j | 0 <= j < |t| ensures !less(t[j], s[0]) {
        assert t[j] in multiset(t);
        if t[j] != x {
          assert t[j] in s[1..];
          var k :| 0 <= k < |s[1..]| && s[1..][k] == t[j];
          assert s[k + 1] == t[j];
        }
      }
      assert s[0] in dom;
    } else {
      forall i, j | 0 <= i < j < |[x] + s| ensures !less(([x] + s)[j], ([x] + s)[i]) {
        if i == 0 && j > 1 {
          assert s[j - 1] in dom && s[0] in dom;
          assert !less(s[j - 1], s[0]);
        }
      }
    }
  }

  /** Sorting yields an order in which no element is less than one before it. */
  lemma SortBySorted<T>(s: seq<T>, less: (T, T) -> bool)
    requires StrictWeakOrderOn(less, s)
    ensures SortedBy(SortBy(s, less), less)
  {
    SortBySortedWithin(s, less, s);
  }

  lemma {:induction false} SortBySortedWithin<T>(s: seq<T>, less: (T, T) -> bool, dom: seq<T>)
    requires StrictWeakOrderOn(less, dom)
    requires forall e :: e in s ==> e in dom
    ensures SortedBy(SortBy(s, less), less)
    decreases |s|
  {
    if s != [] {
      assert forall e :: e in s[1..] ==> e in s;
      SortBySortedWithin(s[1..], less, dom);
      var t := SortBy(s[1..], less);
      forall e | e in t ensures e in dom {
        assert e in multiset(t);
      }
      InsertSortedSorted(s[0], t, less, dom);
    }
  }

  lemma NoDuplicatesCons<T>(a: T, t: seq<T>)
    requires a !in t && NoDuplicates(t)
    ensures NoDuplicates([a] + t)
  {
    forall i, j | 0 <= i < j < |[a] + t| ensures ([a] + t)[i] != ([a] + t)[j] {
      if i > 0 { assert ([a] + t)[i] == t[i - 1]; }
    }
  }

  lemma {:induction false} InsertSortedKeepsNoDuplicates<T>(x: T, s: seq<T>, less: (T, T) -> bool)
    requires x !in s && NoDuplicates(s)
    ensures NoDuplicates(InsertSorted(x, s, less))
    decreases |s|
  {
    if s == [] {
    } else if less(s[0], x) {
      var t := InsertSorted(x, s[1..], less);
      InsertSortedKeepsNoDuplicates(x, s[1..], less);
      assert s == [s[0]] + s[1..];
      assert s[0] !in s[1..];
      assert s[0] !in multiset(t);
      NoDuplicatesCons(s[0], t);
    } else {
      NoDuplicatesCons(x, s);
    }
  }

  /** Sorting a duplicate-free list leaves it duplicate-free. */
  lemma {:induction false} SortByKeepsNoDuplicates<T>(s: seq<T>, less: (T, T) -> bool)
    requires NoDuplicates(s)
    ensures NoDuplicates(SortBy(s, less))
    decreases |s|
  {
    if s != [] {
      var t := SortBy(s[1..], less);
      SortByKeepsNoDuplicates(s[1..], less);
      assert s == [s[0]] + s[1..];
      assert s[0] !in s[1..];
      assert s[0] !in multiset(t);
      InsertSortedKeepsNoDuplicates(s[0], t, less);
    }
  }
}
