/** `sort.Slice`, `sort.Strings`, `slices.Sort` and `slices.SortFunc`. */
module Sorting {
  import opened Order
  import opened Splices

  /** An order that ranks: what is not below `y` is above all that is. */
  ghost predicate Ranks<T(!new)>(less: (T, T) -> bool) {
    && (forall x, y :: less(x, y) ==> !less(y, x))
    && (forall x, y, z :: less(x, y) && !less(z, y) ==> less(x, z))
  }

  ghost predicate InOrder<T>(s: seq<T>, less: (T, T) -> bool) {
    forall i, j | 0 <= i < j < |s| :: !less(s[j], s[i])
  }

  /** Any sorting keeps the elements and puts them in order; this one inserts them one by one. */
  method Sort<T(!new)>(items: seq<T>, less: (T, T) -> bool) returns (sorted: seq<T>)
    requires Ranks(less)
    ensures InOrder(sorted, less) && multiset(sorted) == multiset(items)
  {
    hide Ranks, InOrder;
    sorted := [];
    NoneInOrder(less);
    for i := 0 to |items|
      invariant InOrder(sorted, less) && multiset(sorted) == multiset(items[..i])
    {
      assert items[..i + 1] == items[..i] + [items[i]];
      sorted := Insert(sorted, items[i], less);
    }
    assert items[..|items|] == items;
  }

  lemma NoneInOrder<T>(less: (T, T) -> bool)
    ensures InOrder([], less)
  {
  }

  method Insert<T(!new)>(sorted: seq<T>, e: T, less: (T, T) -> bool) returns (r: seq<T>)
    requires Ranks(less) && InOrder(sorted, less)
    ensures InOrder(r, less) && multiset(r) == multiset(sorted) + multiset{e}
  {
    hide InsertAt, Ranks;
    var i := 0;
    while i < |sorted| && !less(e, sorted[i])
      invariant 0 <= i <= |sorted|
      invariant forall j | 0 <= j < i :: !less(e, sorted[j])
    {
      i := i + 1;
    }
    InsertedInOrder(sorted, e, i, less);
    InsertOnce(sorted, i, e);
    r := InsertAt(sorted, i, e);
  }

  lemma InsertedInOrder<T(!new)>(sorted: seq<T>, e: T, i: nat, less: (T, T) -> bool)
    requires Ranks(less) && InOrder(sorted, less) && i <= |sorted|
    requires forall j | 0 <= j < i :: !less(e, sorted[j])
    requires i < |sorted| ==> less(e, sorted[i])
    ensures InOrder(InsertAt(sorted, i, e), less)
  {
    hide InsertAt;
    forall j | i <= j < |sorted| ensures !less(sorted[j], e) {
      assert j > i ==> !less(sorted[j], sorted[i]);
      assert less(e, sorted[j]);
    }
  }

  /** Sequences with the same elements, counted, have the same members. */
  lemma SameMembers<T>(a: seq<T>, b: seq<T>)
    requires multiset(a) == multiset(b)
    ensures |a| == |b|
    ensures forall e :: e in a <==> e in b
  {
    assert |multiset(a)| == |multiset(b)|;
    forall e ensures e in a <==> e in b {
      assert e in a <==> e in multiset(a);
    }
  }

  /** They have an element twice if the others do. */
  lemma SameTwice<T>(a: seq<T>, b: seq<T>)
    requires multiset(a) == multiset(b) && forall i, j | 0 <= i < j < |b| :: b[i] != b[j]
    ensures forall i, j | 0 <= i < j < |a| :: a[i] != a[j]
  {
    forall i, j | 0 <= i < j < |a| ensures a[i] != a[j] {
      if a[i] == a[j] {
        assert a == a[..i] + [a[i]] + a[i + 1..j] + [a[j]] + a[j + 1..];
        assert multiset(b)[a[i]] >= 2;
        CountedOnce(b, a[i]);
      }
    }
  }

  lemma {:induction false} CountedOnce<T>(b: seq<T>, e: T)
    requires forall i, j | 0 <= i < j < |b| :: b[i] != b[j]
    ensures multiset(b)[e] <= 1
  {
    if b != [] {
      var n := |b| - 1;
      assert b == b[..n] + [b[n]];
      CountedOnce(b[..n], e);
      assert b[n] !in b[..n];
    }
  }

  // ----- by a byte-string key -----

  function KeyLess<T>(key: T -> Bytes): (T, T) -> bool {
    (a, b) => LexLess(key(a), key(b))
  }

  ghost predicate SortedBy<T>(s: seq<T>, key: T -> Bytes) {
    forall i, j | 0 <= i < j < |s| :: !LexLess(key(s[j]), key(s[i]))
  }

  method SortBy<T(!new)>(items: seq<T>, key: T -> Bytes) returns (sorted: seq<T>)
    ensures SortedBy(sorted, key) && multiset(sorted) == multiset(items)
  {
    KeyRanks(key);
    sorted := Sort(items, KeyLess(key));
    assert InOrder(sorted, KeyLess(key)) ==> SortedBy(sorted, key) by { hide LexLess; }
  }

  lemma KeyRanks<T(!new)>(key: T -> Bytes)
    ensures Ranks(KeyLess(key))
  {
    hide LexLess;
    forall x, y ensures !(LexLess(key(x), key(y)) && LexLess(key(y), key(x))) {
      LexTrichotomy(key(x), key(y));
    }
    forall x, y, z | LexLess(key(x), key(y)) && !LexLess(key(z), key(y)) ensures LexLess(key(x), key(z)) {
      LexTrichotomy(key(z), key(y));
      if LexLess(key(y), key(z)) {
        LexTransitive(key(x), key(y), key(z));
      }
    }
  }
}
