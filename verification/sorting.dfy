/** Sorting by a total preorder: what JavaScript's stable sort and Go's unstable
    sort.Slice promise, and an insertion sort that keeps both promises. */
module Sorting {
  /** `leq` compares every two elements and is transitive. */
  ghost predicate TotalPreorder<T(!new)>(leq: (T, T) -> bool) {
    && (forall x, y :: leq(x, y) || leq(y, x))
    && (forall x, y, z :: leq(x, y) && leq(y, z) ==> leq(x, z))
  }

  ghost predicate Ordered<T(!new)>(s: seq<T>, leq: (T, T) -> bool) {
    forall i, j :: 0 <= i < j < |s| ==> leq(s[i], s[j])
  }

  /** The promise of sort.Slice: some ordered permutation. */
  ghost predicate SortOf<T(!new)>(r: seq<T>, s: seq<T>, leq: (T, T) -> bool) {
    multiset(r) == multiset(s) && Ordered(r, leq)
  }

  /** Insert after everything that may stand before `x`. */
  function Insert<T>(s: seq<T>, x: T, leq: (T, T) -> bool): seq<T> {
    if s == [] then [x]
    else if leq(s[|s| - 1], x) then s + [x]
    else Insert(s[..|s| - 1], x, leq) + [s[|s| - 1]]
  }

  /** The stable sort. */
  function Sorted<T>(s: seq<T>, leq: (T, T) -> bool): seq<T> {
    if s == [] then [] else Insert(Sorted(s[..|s| - 1], leq), s[|s| - 1], leq)
  }

  lemma {:induction false} InsertKeeps<T(!new)>(s: seq<T>, x: T, leq: (T, T) -> bool)
    ensures multiset(Insert(s, x, leq)) == multiset(s) + multiset{x}
  {
    if s != [] {
      InsertKeeps(s[..|s| - 1], x, leq);
      assert s == s[..|s| - 1] + [s[|s| - 1]];
    }
  }

  lemma {:induction false} InsertOrders<T(!new)>(s: seq<T>, x: T, leq: (T, T) -> bool)
    requires TotalPreorder(leq) && Ordered(s, leq)
    ensures Ordered(Insert(s, x, leq), leq)
  {
    if s != [] && !leq(s[|s| - 1], x) {
      var rest, last := s[..|s| - 1], s[|s| - 1];
      InsertOrders(rest, x, leq);
      InsertKeeps(rest, x, leq);
      var r := Insert(rest, x, leq);
      forall i | 0 <= i < |r| ensures leq(r[i], last) {
        assert r[i] in multiset(r);
        assert r[i] == x || r[i] in rest;
      }
    }
  }

  lemma {:induction false} SortedSorts<T(!new)>(s: seq<T>, leq: (T, T) -> bool)
    requires TotalPreorder(leq)
    ensures SortOf(Sorted(s, leq), s, leq)
  {
    if s != [] {
      var rest, last := s[..|s| - 1], s[|s| - 1];
      SortedSorts(rest, leq);
      InsertKeeps(Sorted(rest, leq), last, leq);
      InsertOrders(Sorted(rest, leq), last, leq);
      assert s == rest + [last];
    }
  }

  lemma SortedOrders<T(!new)>(s: seq<T>, leq: (T, T) -> bool)
    requires TotalPreorder(leq)
    ensures Ordered(Sorted(s, leq), leq)
  {
    SortedSorts(s, leq);
  }

  lemma {:induction false} InsertHead<T(!new)>(s: seq<T>, x: T, leq: (T, T) -> bool)
    requires TotalPreorder(leq) && Ordered(s, leq) && s != []
    ensures Insert(s, x, leq) != [] && Insert(s, x, leq)[0] == if leq(s[0], x) then s[0] else x
  {
    if !leq(s[|s| - 1], x) {
      if |s| > 1 {
        InsertHead(s[..|s| - 1], x, leq);
      } else {
        assert s[..0] == [];
      }
    } else {
      assert leq(s[0], s[|s| - 1]) || |s| == 1;
    }
  }

  /** Where the first of the least elements stands. */
  ghost predicate FirstLeast<T(!new)>(s: seq<T>, i: nat, leq: (T, T) -> bool) {
    i < |s| && (forall j :: 0 <= j < |s| ==> leq(s[i], s[j])) && (forall j :: 0 <= j < i ==> !leq(s[j], s[i]))
  }

  /** The stable sort puts the first of the least elements in front. */
  lemma {:induction false} HeadIsFirstLeast<T(!new)>(s: seq<T>, leq: (T, T) -> bool) returns (i: nat)
    requires TotalPreorder(leq) && s != []
    ensures i < |s| && Sorted(s, leq) != [] && FirstLeast(s, i, leq) && Sorted(s, leq)[0] == s[i]
  {
    var rest, last := s[..|s| - 1], s[|s| - 1];
    assert s == rest + [last];
    assert Sorted(s, leq) == Insert(Sorted(rest, leq), last, leq);
    if rest == [] {
      i := 0;
    } else {
      hide *;
      var k := HeadIsFirstLeast(rest, leq);
      SortedOrders(rest, leq);
      InsertHead(Sorted(rest, leq), last, leq);
      FirstLeastSnoc(rest, last, k, leq);
      i := if leq(rest[k], last) then k else |rest|;
    }
  }

  lemma FirstLeastSnoc<T(!new)>(s: seq<T>, x: T, i: nat, leq: (T, T) -> bool)
    requires TotalPreorder(leq) && FirstLeast(s, i, leq)
    ensures i < |s| && FirstLeast(s + [x], if leq(s[i], x) then i else |s|, leq)
  {}

  /** No two elements at different places may stand in either order. */
  ghost predicate Strict<T(!new)>(s: seq<T>, leq: (T, T) -> bool) {
    forall i, j :: 0 <= i < j < |s| ==> !(leq(s[i], s[j]) && leq(s[j], s[i]))
  }

  /** A permutation of a strict sequence is strict. */
  lemma StrictPermutes<T(!new)>(a: seq<T>, b: seq<T>, leq: (T, T) -> bool)
    requires multiset(a) == multiset(b) && Strict(a, leq) && TotalPreorder(leq)
    ensures Strict(b, leq)
  {
    forall i, j | 0 <= i < j < |b| ensures !(leq(b[i], b[j]) && leq(b[j], b[i])) {
      var x, y := b[i], b[j];
      if x == y {
        CountTwo(b, i, j);
        assert multiset(a)[x] >= 2;
        var k, l := TwoPlaces(a, x);
      } else {
        assert x in multiset(a) && y in multiset(a);
        var k :| 0 <= k < |a| && a[k] == x;
        var l :| 0 <= l < |a| && a[l] == y;
      }
    }
  }

  lemma CountTwo<T(!new)>(s: seq<T>, i: nat, j: nat)
    requires i < j < |s| && s[i] == s[j]
    ensures multiset(s)[s[i]] >= 2
  {
    assert s == s[..i] + [s[i]] + s[i + 1..j] + [s[j]] + s[j + 1..];
  }

  lemma {:induction false} TwoPlaces<T(!new)>(s: seq<T>, x: T) returns (k: nat, l: nat)
    requires multiset(s)[x] >= 2
    ensures k < l < |s| && s[k] == s[l] == x
  {
    var rest, last := s[..|s| - 1], s[|s| - 1];
    assert s == rest + [last];
    if last == x {
      assert x in multiset(rest);
      k :| 0 <= k < |rest| && rest[k] == x;
      l := |rest|;
    } else {
      k, l := TwoPlaces(rest, x);
    }
  }

  lemma HeadsAgree<T(!new)>(a: seq<T>, b: seq<T>, leq: (T, T) -> bool)
    requires TotalPreorder(leq) && multiset(a) == multiset(b) && Strict(a, leq) && a != [] && b != []
    requires Ordered(a, leq) && Ordered(b, leq)
    ensures a[0] == b[0]
  {
    assert a[0] in multiset(b) && b[0] in multiset(a);
    var i :| 0 <= i < |b| && b[i] == a[0];
    var j :| 0 <= j < |a| && a[j] == b[0];
  }

  /** A strict sequence has only one ordered permutation, however it is sorted. */
  lemma {:induction false} SortUnique<T(!new)>(a: seq<T>, b: seq<T>, leq: (T, T) -> bool)
    requires TotalPreorder(leq) && multiset(a) == multiset(b) && Strict(a, leq)
    requires Ordered(a, leq) && Ordered(b, leq)
    ensures a == b
  {
    hide *;
    assert |a| == |multiset(a)| == |multiset(b)| == |b|;
    if a != [] {
      HeadsAgree(a, b, leq);
      TailsAgree(a, b, leq);
      SortUnique(a[1..], b[1..], leq);
      assert a == [a[0]] + a[1..] && b == [b[0]] + b[1..];
    }
  }

  lemma TailsAgree<T(!new)>(a: seq<T>, b: seq<T>, leq: (T, T) -> bool)
    requires multiset(a) == multiset(b) && a != [] && b != [] && a[0] == b[0]
    requires Strict(a, leq) && Ordered(a, leq) && Ordered(b, leq)
    ensures multiset(a[1..]) == multiset(b[1..])
    ensures Strict(a[1..], leq) && Ordered(a[1..], leq) && Ordered(b[1..], leq)
  {
    TailCounts(a);
    TailCounts(b);
  }

  lemma TailCounts<T>(s: seq<T>)
    requires s != []
    ensures multiset(s[1..]) == multiset(s) - multiset{s[0]}
  {
    assert s == [s[0]] + s[1..];
  }

  /** Distinct elements that tie can come out either way round: the outcome of
      sort.Slice is determined exactly when there are no ties. */
  lemma UniqueIffStrict<T(!new)>(s: seq<T>, leq: (T, T) -> bool)
    requires TotalPreorder(leq) && forall i, j :: 0 <= i < j < |s| ==> s[i] != s[j]
    ensures Strict(s, leq) <==> forall a, b :: SortOf(a, s, leq) && SortOf(b, s, leq) ==> a == b
  {
    if Strict(s, leq) {
      hide TotalPreorder, Strict, Ordered;
      forall a, b | SortOf(a, s, leq) && SortOf(b, s, leq) ensures a == b {
        StrictPermutes(s, a, leq);
        SortUnique(a, b, leq);
      }
    } else {
      var a, b := TwoSorts(s, leq);
    }
  }

  lemma TwoSorts<T(!new)>(s: seq<T>, leq: (T, T) -> bool) returns (a: seq<T>, b: seq<T>)
    requires TotalPreorder(leq) && !Strict(s, leq) && forall i, j :: 0 <= i < j < |s| ==> s[i] != s[j]
    ensures SortOf(a, s, leq) && SortOf(b, s, leq) && a != b
  {
    a := Sorted(s, leq);
    SortedSorts(s, leq);
    var i, j :| 0 <= i < j < |s| && leq(s[i], s[j]) && leq(s[j], s[i]);
    assert s[i] in multiset(a) && s[j] in multiset(a);
    var k :| 0 <= k < |a| && a[k] == s[i];
    var l :| 0 <= l < |a| && a[l] == s[j];
    b := a[k := a[l]][l := a[k]];
    SwapTied(a, k, l, leq);
  }

  lemma SwapTied<T(!new)>(r: seq<T>, k: nat, l: nat, leq: (T, T) -> bool)
    requires TotalPreorder(leq) && Ordered(r, leq) && k < |r| && l < |r| && leq(r[k], r[l]) && leq(r[l], r[k])
    ensures var swapped := r[k := r[l]][l := r[k]];
            multiset(swapped) == multiset(r) && Ordered(swapped, leq) && swapped[k] == r[l]
  {
    var swapped := r[k := r[l]][l := r[k]];
    forall i, j | 0 <= i < j < |r| ensures leq(swapped[i], swapped[j]) {
      assert leq(swapped[i], r[i]) && leq(r[j], swapped[j]);
    }
  }
}
