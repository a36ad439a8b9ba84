/**
 * `Array.prototype.sort` with a comparator: a stable sort. `less(x, y)`
 * stands for "the comparator returns a negative number for (x, y)"; the
 * result is the insertion sort that keeps elements the comparator calls
 * equal in their original order.
 */
module JsSort {
  /** `less` is a strict weak order, which a consistent comparator gives. */
  ghost predicate StrictWeakOrder<T(!new)>(less: (T, T) -> bool) {
    && (forall a :: !less(a, a))
    && (forall a, b, c :: less(a, b) && less(b, c) ==> less(a, c))
    && (forall a, b, c :: less(a, c) && !less(a, b) ==> less(b, c))
  }

  /** No element is followed by one that must come before it. */
  ghost predicate Sorted<T>(less: (T, T) -> bool, s: seq<T>) {
    forall i, j :: 0 <= i < j < |s| ==> !less(s[j], s[i])
  }

  /** Insert `x` before the first element that must come after it. */
  function Insert<T>(less: (T, T) -> bool, x: T, s: seq<T>): (r: seq<T>)
    ensures |r| == |s| + 1
  {
    if s == [] then [x]
    else if less(x, s[0]) then [x] + s
    else [s[0]] + Insert(less, x, s[1..])
  }

  /** The sorted array: each element inserted, in order, into the sorted elements before it. */
  function Sort<T>(less: (T, T) -> bool, s: seq<T>): (r: seq<T>)
    ensures |r| == |s|
  {
    if s == [] then [] else Insert(less, s[|s| - 1], Sort(less, s[..|s| - 1]))
  }

  lemma {:induction false} InsertPermutes<T(!new)>(less: (T, T) -> bool, x: T, s: seq<T>)
    ensures multiset(Insert(less, x, s)) == multiset(s) + multiset{x}
  {
    if s != [] && !less(x, s[0]) {
      InsertPermutes(less, x, s[1..]);
      assert s == [s[0]] + s[1..];
    }
  }

  /** Sorting neither loses nor duplicates an element. */
  lemma {:induction false} SortPermutes<T(!new)>(less: (T, T) -> bool, s: seq<T>)
    ensures multiset(Sort(less, s)) == multiset(s)
  {
    if s != [] {
      var init := s[..|s| - 1];
      SortPermutes(less, init);
      InsertPermutes(less, s[|s| - 1], Sort(less, init));
      assert s == init + [s[|s| - 1]];
    }
  }

  lemma {:induction false} InsertSorted<T(!new)>(less: (T, T) -> bool, x: T, s: seq<T>)
    requires StrictWeakOrder(less) && Sorted(less, s)
    ensures Sorted(less, Insert(less, x, s))
  {
    if s == [] {
    } else if less(x, s[0]) {
      var r := [x] + s;
      assert forall j :: 0 < j < |r| ==> r[j] == s[j - 1];
    } else {
      InsertSorted(less, x, s[1..]);
      var t := Insert(less, x, s[1..]);
      InsertPermutes(less, x, s[1..]);
      forall e | e in t
        ensures !less(e, s[0])
      {
        assert e in multiset(t);
        if e != x {
          assert e in multiset(s[1..]);
          var j :| 0 <= j < |s[1..]| && s[1..][j] == e;
          assert s[j + 1] == e;
        }
      }
      var r := [s[0]] + t;
      assert forall j :: 0 < j < |r| ==> r[j] == t[j - 1] && r[j] in t;
    }
  }

  /** The result of a sort is sorted. */
  lemma {:induction false} SortSorted<T(!new)>(less: (T, T) -> bool, s: seq<T>)
    requires StrictWeakOrder(less)
    ensures Sorted(less, Sort(less, s))
  {
    if s != [] {
      SortSorted(less, s[..|s| - 1]);
      InsertSorted(less, s[|s| - 1], Sort(less, s[..|s| - 1]));
    }
  }

  /** Neither of `x` and `e` must come before the other. */
  ghost predicate Tied<T>(less: (T, T) -> bool, x: T, e: T) {
    !less(x, e) && !less(e, x)
  }

  /** The elements of `s` tied with `e`, in order. */
  ghost function TiedWith<T>(less: (T, T) -> bool, s: seq<T>, e: T): seq<T> {
    if s == [] then []
    else (if Tied(less, s[0], e) then [s[0]] else []) + TiedWith(less, s[1..], e)
  }

  lemma {:induction false} TiedWithAppend<T(!new)>(less: (T, T) -> bool, s: seq<T>, t: seq<T>, e: T)
    ensures TiedWith(less, s + t, e) == TiedWith(less, s, e) + TiedWith(less, t, e)
  {
    if s == [] {
      assert s + t == t;
    } else {
      assert (s + t)[0] == s[0];
      assert (s + t)[1..] == s[1..] + t;
      TiedWithAppend(less, s[1..], t, e);
    }
  }

  /** Nothing in a sorted list that starts above `x` is tied with `x`. */
  lemma {:induction false} AboveNotTied<T(!new)>(less: (T, T) -> bool, x: T, s: seq<T>, e: T)
    requires StrictWeakOrder(less) && Sorted(less, s) && s != [] && less(x, s[0]) && Tied(less, x, e)
    ensures TiedWith(less, s, e) == []
  {
    assert !Tied(less, s[0], e);
    if |s| > 1 {
      assert !less(s[1], s[0]);
      assert less(x, s[1]);
      assert Sorted(less, s[1..]);
      AboveNotTied(less, x, s[1..], e);
    }
  }

  lemma {:induction false} InsertStable<T(!new)>(less: (T, T) -> bool, x: T, s: seq<T>, e: T)
    requires StrictWeakOrder(less) && Sorted(less, s)
    ensures TiedWith(less, Insert(less, x, s), e) == TiedWith(less, s, e) + TiedWith(less, [x], e)
  {
    if s == [] {
    } else if less(x, s[0]) {
      TiedWithAppend(less, [x], s, e);
      if Tied(less, x, e) {
        AboveNotTied(less, x, s, e);
      }
    } else {
      assert Sorted(less, s[1..]);
      InsertStable(less, x, s[1..], e);
      InsertStableStep(less, x, s, e);
    }
  }

  lemma InsertStableStep<T(!new)>(less: (T, T) -> bool, x: T, s: seq<T>, e: T)
    requires s != [] && !less(x, s[0])
    requires TiedWith(less, Insert(less, x, s[1..]), e) == TiedWith(less, s[1..], e) + TiedWith(less, [x], e)
    ensures TiedWith(less, Insert(less, x, s), e) == TiedWith(less, s, e) + TiedWith(less, [x], e)
  {
    var head, tail := [s[0]], s[1..];
    calc {
      TiedWith(less, Insert(less, x, s), e);
      { assert Insert(less, x, s) == head + Insert(less, x, tail); }
      TiedWith(less, head + Insert(less, x, tail), e);
      { TiedWithAppend(less, head, Insert(less, x, tail), e); }
      TiedWith(less, head, e) + (TiedWith(less, tail, e) + TiedWith(less, [x], e));
      (TiedWith(less, head, e) + TiedWith(less, tail, e)) + TiedWith(less, [x], e);
      { TiedWithAppend(less, head, tail, e); assert head + tail == s; }
      TiedWith(less, s, e) + TiedWith(less, [x], e);
    }
  }

  /** The sort is stable: elements tied with one another keep their relative order. */
  lemma {:induction false} SortStable<T(!new)>(less: (T, T) -> bool, s: seq<T>, e: T)
    requires StrictWeakOrder(less)
    ensures TiedWith(less, Sort(less, s), e) == TiedWith(less, s, e)
  {
    if s != [] {
      var init, x := s[..|s| - 1], s[|s| - 1];
      SortStable(less, init, e);
      SortSorted(less, init);
      InsertStable(less, x, Sort(less, init), e);
      TiedWithAppend(less, init, [x], e);
      assert init + [x] == s;
    }
  }

  lemma {:induction false} InsertAtEnd<T(!new)>(less: (T, T) -> bool, x: T, s: seq<T>)
    requires forall i :: 0 <= i < |s| ==> !less(x, s[i])
    ensures Insert(less, x, s) == s + [x]
  {
    if s != [] {
      InsertAtEnd(less, x, s[1..]);
      assert [s[0]] + (s[1..] + [x]) == s + [x];
    }
  }

  /** Sorting a list already in order changes nothing. */
  lemma {:induction false} SortOfSorted<T(!new)>(less: (T, T) -> bool, s: seq<T>)
    requires Sorted(less, s)
    ensures Sort(less, s) == s
  {
    if s != [] {
      var init, x := s[..|s| - 1], s[|s| - 1];
      assert Sorted(less, init);
      SortOfSorted(less, init);
      InsertAtEnd(less, x, init);
      assert init + [x] == s;
    }
  }
}
