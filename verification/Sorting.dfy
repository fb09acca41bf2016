/**
  The stable sort of the host language, as a specification: ascending by an integer key, equal keys in
  their original order.
*/
module Sorting {
  function Insert<T(!new)>(sorted: seq<T>, x: T, key: T -> int): seq<T> {
    if sorted != [] && key(sorted[|sorted| - 1]) > key(x)
    then Insert(sorted[..|sorted| - 1], x, key) + [sorted[|sorted| - 1]]
    else sorted + [x]
  }

  function Sort<T(!new)>(items: seq<T>, key: T -> int): seq<T> {
    if items == [] then [] else Insert(Sort(items[..|items| - 1], key), items[|items| - 1], key)
  }

  function Filter<T(!new)>(items: seq<T>, p: T -> bool): seq<T> {
    if items == [] then []
    else Filter(items[..|items| - 1], p) + if p(items[|items| - 1]) then [items[|items| - 1]] else []
  }

  ghost predicate Sorted<T(!new)>(items: seq<T>, key: T -> int) {
    forall i, j :: 0 <= i < j < |items| ==> key(items[i]) <= key(items[j])
  }

  // `a` stands before `b`.
  ghost predicate Before<T(!new)>(items: seq<T>, a: T, b: T) {
    exists i, j :: 0 <= i < j < |items| && items[i] == a && items[j] == b
  }

  lemma {:induction false} InsertContents<T(!new)>(sorted: seq<T>, x: T, key: T -> int)
    ensures multiset(Insert(sorted, x, key)) == multiset(sorted) + multiset{x}
    ensures forall y :: y in Insert(sorted, x, key) <==> y in sorted || y == x
  {
    if sorted != [] && key(sorted[|sorted| - 1]) > key(x) {
      InsertContents(sorted[..|sorted| - 1], x, key);
      assert sorted == sorted[..|sorted| - 1] + [sorted[|sorted| - 1]];
    }
  }

  lemma {:induction false} InsertProperties<T(!new)>(sorted: seq<T>, x: T, key: T -> int)
    requires Sorted(sorted, key)
    ensures Sorted(Insert(sorted, x, key), key)
    ensures multiset(Insert(sorted, x, key)) == multiset(sorted) + multiset{x}
  {
    InsertContents(sorted, x, key);
    if sorted != [] && key(sorted[|sorted| - 1]) > key(x) {
      var init, last := sorted[..|sorted| - 1], sorted[|sorted| - 1];
      InsertProperties(init, x, key);
      InsertContents(init, x, key);
      var inner := Insert(init, x, key);
      forall i | 0 <= i < |inner| ensures key(inner[i]) <= key(last) {
        assert inner[i] in inner;
        if inner[i] != x {
          var m :| 0 <= m < |init| && init[m] == inner[i];
          assert key(sorted[m]) <= key(sorted[|sorted| - 1]);
        }
      }
      assert Insert(sorted, x, key) == inner + [last];
    }
  }

  lemma {:induction false} SortProperties<T(!new)>(items: seq<T>, key: T -> int)
    ensures Sorted(Sort(items, key), key)
    ensures multiset(Sort(items, key)) == multiset(items)
    ensures forall x :: x in Sort(items, key) <==> x in items
  {
    if items != [] {
      SortProperties(items[..|items| - 1], key);
      InsertProperties(Sort(items[..|items| - 1], key), items[|items| - 1], key);
      assert items == items[..|items| - 1] + [items[|items| - 1]];
    }
    SameContents(Sort(items, key), items);
  }

  lemma SameContents<T(!new)>(a: seq<T>, b: seq<T>)
    requires multiset(a) == multiset(b)
    ensures forall x :: x in a <==> x in b
  {
    assert forall x :: x in a <==> x in multiset(a);
    assert forall x :: x in b <==> x in multiset(b);
  }

  lemma BeforeInLonger<T(!new)>(init: seq<T>, last: T, a: T, b: T)
    requires Before(init, a, b)
    ensures Before(init + [last], a, b)
  {
    var m, n :| 0 <= m < n < |init| && init[m] == a && init[n] == b;
    assert (init + [last])[m] == a && (init + [last])[n] == b;
  }

  lemma LastIsAfter<T(!new)>(init: seq<T>, last: T, a: T)
    ensures a in init ==> Before(init + [last], a, last)
  {
    if a in init {
      var m :| 0 <= m < |init| && init[m] == a;
      assert (init + [last])[m] == a && (init + [last])[|init|] == last;
    }
  }

  lemma {:induction false} InsertGoesLast<T(!new)>(sorted: seq<T>, x: T, key: T -> int, a: T, b: T)
    requires Sorted(sorted, key) && key(a) == key(b) && Before(Insert(sorted, x, key), a, b)
    ensures Before(sorted, a, b) || (b == x && a in sorted)
  {
    var r := Insert(sorted, x, key);
    var i, j :| 0 <= i < j < |r| && r[i] == a && r[j] == b;
    InsertProperties(sorted, x, key);
    if sorted != [] && key(sorted[|sorted| - 1]) > key(x) {
      var init, last := sorted[..|sorted| - 1], sorted[|sorted| - 1];
      var inner := Insert(init, x, key);
      assert r == inner + [last] && sorted == init + [last];
      InsertContents(init, x, key);
      if j < |inner| {
        assert inner[i] == a && inner[j] == b;
        InsertGoesLast(init, x, key, a, b);
        if Before(init, a, b) {
          BeforeInLonger(init, last, a, b);
        }
      } else {
        assert b == last && a == inner[i] && a in inner;
        assert a in init || a == x;
        LastIsAfter(init, last, a);
      }
    } else {
      if j < |sorted| {
        assert sorted[i] == a && sorted[j] == b;
      }
    }
  }

  // Equal keys keep their order.
  lemma {:induction false} SortIsStable<T(!new)>(items: seq<T>, key: T -> int, a: T, b: T)
    requires key(a) == key(b) && Before(Sort(items, key), a, b)
    ensures Before(items, a, b)
  {
    if items != [] {
      var init, last := items[..|items| - 1], items[|items| - 1];
      SortProperties(init, key);
      InsertGoesLast(Sort(init, key), last, key, a, b);
      if Before(Sort(init, key), a, b) {
        SortIsStable(init, key, a, b);
        var m, n :| 0 <= m < n < |init| && init[m] == a && init[n] == b;
        assert items[m] == a && items[n] == b;
      } else {
        assert a in init;
        var m :| 0 <= m < |init| && init[m] == a;
        assert items[m] == a && items[|items| - 1] == b;
      }
    }
  }

  lemma FilterSnoc<T(!new)>(items: seq<T>, x: T, p: T -> bool)
    ensures Filter(items + [x], p) == Filter(items, p) + if p(x) then [x] else []
  {
    assert (items + [x])[..|items|] == items;
  }

  lemma {:induction false} FilterContents<T(!new)>(items: seq<T>, p: T -> bool)
    ensures forall x :: x in Filter(items, p) <==> x in items && p(x)
  {
    if items != [] {
      FilterContents(items[..|items| - 1], p);
      assert items == items[..|items| - 1] + [items[|items| - 1]];
    }
  }

  lemma {:induction false} FilterKeepsOrder<T(!new)>(items: seq<T>, p: T -> bool, a: T, b: T)
    requires Before(Filter(items, p), a, b)
    ensures Before(items, a, b)
  {
    var init, last := items[..|items| - 1], items[|items| - 1];
    var kept, inner := Filter(items, p), Filter(init, p);
    var i, j :| 0 <= i < j < |kept| && kept[i] == a && kept[j] == b;
    assert items == init + [last];
    if j < |inner| {
      assert inner[i] == a && inner[j] == b;
      FilterKeepsOrder(init, p, a, b);
      BeforeInLonger(init, last, a, b);
    } else {
      assert b == last && inner[i] == a;
      FilterContents(init, p);
      LastIsAfter(init, last, a);
    }
  }

  lemma {:induction false} NoneKept<T(!new)>(items: seq<T>, p: T -> bool)
    requires forall i :: 0 <= i < |items| ==> !p(items[i])
    ensures Filter(items, p) == []
  {
    if items != [] {
      NoneKept(items[..|items| - 1], p);
    }
  }

  lemma {:induction false} FilterStartsWith<T(!new)>(items: seq<T>, p: T -> bool, i: nat)
    requires i < |items| && p(items[i]) && forall j :: 0 <= j < i ==> !p(items[j])
    ensures Filter(items, p) != [] && Filter(items, p)[0] == items[i]
  {
    var n := |items| - 1;
    if i == n {
      NoneKept(items[..n], p);
    } else {
      FilterStartsWith(items[..n], p, i);
    }
  }

  // Sorting what is sorted changes nothing.
  lemma {:induction false} SortOfSorted<T(!new)>(items: seq<T>, key: T -> int)
    requires Sorted(items, key)
    ensures Sort(items, key) == items
  {
    if items != [] {
      var init, last := items[..|items| - 1], items[|items| - 1];
      SortOfSorted(init, key);
      InsertAtEnd(init, last, key);
      assert items == init + [last];
    }
  }

  lemma {:induction false} InsertFiltered<T(!new)>(sorted: seq<T>, x: T, key: T -> int, p: T -> bool)
    requires Sorted(sorted, key)
    ensures Filter(Insert(sorted, x, key), p) == if p(x) then Insert(Filter(sorted, p), x, key) else Filter(sorted, p)
  {
    if sorted != [] && key(sorted[|sorted| - 1]) > key(x) {
      var init, last := sorted[..|sorted| - 1], sorted[|sorted| - 1];
      InsertFiltered(init, x, key, p);
      assert sorted == init + [last];
      FilteredAbove(init, last, x, key, p);
    } else {
      forall y | y in sorted ensures key(y) <= key(x) {
        LastIsGreatest(sorted, y, key);
      }
      InsertAtEnd(sorted, x, key);
      FilterSnoc(sorted, x, p);
      FilteredBelow(sorted, x, key, p);
    }
  }

  lemma FilteredAbove<T(!new)>(init: seq<T>, last: T, x: T, key: T -> int, p: T -> bool)
    requires key(last) > key(x)
    requires Filter(Insert(init, x, key), p) == if p(x) then Insert(Filter(init, p), x, key) else Filter(init, p)
    ensures Filter(Insert(init + [last], x, key), p)
         == if p(x) then Insert(Filter(init + [last], p), x, key) else Filter(init + [last], p)
  {
    InsertBefore(init, last, x, key);
    var kept, inserted := Filter(init, p), Filter(Insert(init, x, key), p);
    FilterSnoc(Insert(init, x, key), last, p);
    FilterSnoc(init, last, p);
    if p(last) {
      InsertBefore(kept, last, x, key);
    } else {
      assert kept + [] == kept && inserted + [] == inserted;
    }
  }

  lemma InsertBefore<T(!new)>(init: seq<T>, last: T, x: T, key: T -> int)
    requires key(last) > key(x)
    ensures Insert(init + [last], x, key) == Insert(init, x, key) + [last]
  {
    assert (init + [last])[..|init|] == init;
  }

  lemma FilteredBelow<T(!new)>(sorted: seq<T>, x: T, key: T -> int, p: T -> bool)
    requires forall y :: y in sorted ==> key(y) <= key(x)
    ensures Insert(Filter(sorted, p), x, key) == Filter(sorted, p) + [x]
  {
    LastKept(sorted, p);
    InsertAtEnd(Filter(sorted, p), x, key);
  }

  lemma InsertAtEnd<T(!new)>(items: seq<T>, x: T, key: T -> int)
    requires items != [] ==> key(items[|items| - 1]) <= key(x)
    ensures Insert(items, x, key) == items + [x]
  {
  }

  lemma LastIsGreatest<T(!new)>(sorted: seq<T>, x: T, key: T -> int)
    requires Sorted(sorted, key) && x in sorted
    ensures key(x) <= key(sorted[|sorted| - 1])
  {
    var i :| 0 <= i < |sorted| && sorted[i] == x;
  }

  lemma LastKept<T(!new)>(items: seq<T>, p: T -> bool)
    ensures var kept := Filter(items, p); kept != [] ==> kept[|kept| - 1] in items
  {
    FilterContents(items, p);
    var kept := Filter(items, p);
    assert kept != [] ==> kept[|kept| - 1] in kept;
  }

  // Leaving items out before sorting or after makes no difference.
  lemma {:induction false} SortFiltered<T(!new)>(items: seq<T>, key: T -> int, p: T -> bool)
    ensures Filter(Sort(items, key), p) == Sort(Filter(items, p), key)
  {
    if items != [] {
      var init, last := items[..|items| - 1], items[|items| - 1];
      SortFiltered(init, key, p);
      SortProperties(init, key);
      InsertFiltered(Sort(init, key), last, key, p);
      var kept := Filter(init, p);
      if p(last) {
        assert Filter(items, p) == kept + [last];
        assert (kept + [last])[..|kept|] == kept;
      } else {
        assert Filter(items, p) == kept;
      }
    }
  }
}
