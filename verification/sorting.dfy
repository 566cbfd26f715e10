/** Ascending sorting of LRS values and the "how many are at most x" count
    that `pvalue` and `permutation` in src/regression.rs rely on.  The source
    sorts with the standard library; the model sorts by insertion and proves
    the result is the one sorted permutation of its input. */
module Sorting {

  predicate Sorted(s: seq<real>) {
    forall i, j :: 0 <= i < j < |s| ==> s[i] <= s[j]
  }

  /** Every element of `s` is at least `x`. */
  predicate AllAtLeast(s: seq<real>, x: real) {
    forall i :: 0 <= i < |s| ==> x <= s[i]
  }

  lemma AtLeastOfMultiset(s: seq<real>, t: seq<real>, x: real)
    requires multiset(s) == multiset(t) && AllAtLeast(t, x)
    ensures AllAtLeast(s, x)
  {
    forall i | 0 <= i < |s|
      ensures x <= s[i]
    {
      assert s[i] in multiset(s);
      assert s[i] in multiset(t);
      var j :| 0 <= j < |t| && t[j] == s[i];
    }
  }

  function Insert(x: real, s: seq<real>): (r: seq<real>)
    requires Sorted(s)
    ensures Sorted(r) && multiset(r) == multiset(s) + multiset{x}
    decreases |s|
  {
    if |s| == 0 || x <= s[0] then [x] + s
    else
      SortedTail(s);
      var rest := Insert(x, s[1..]);
      InsertBehindHead(x, s, rest);
      [s[0]] + rest
  }

  lemma SortedTail(s: seq<real>)
    requires Sorted(s) && |s| > 0
    ensures Sorted(s[1..])
  {
  }

  /** Putting the head back in front of the tail with `x` inserted keeps the
      order, because `x` is above the head. */
  lemma InsertBehindHead(x: real, s: seq<real>, rest: seq<real>)
    requires Sorted(s) && |s| > 0 && s[0] < x
    requires Sorted(rest) && multiset(rest) == multiset(s[1..]) + multiset{x}
    ensures Sorted([s[0]] + rest) && multiset([s[0]] + rest) == multiset(s) + multiset{x}
  {
    assert s == [s[0]] + s[1..];
    assert AllAtLeast(s[1..] + [x], s[0]);
    assert multiset(rest) == multiset(s[1..] + [x]);
    AtLeastOfMultiset(rest, s[1..] + [x], s[0]);
  }

  /** `sort_by` with `partial_cmp` on values that are never NaN. */
  function Sort(s: seq<real>): (r: seq<real>)
    ensures Sorted(r) && multiset(r) == multiset(s) && |r| == |s|
    decreases |s|
  {
    if |s| == 0 then []
    else
      assert s == [s[0]] + s[1..];
      var r := Insert(s[0], Sort(s[1..]));
      assert |r| == |multiset(r)| == |multiset(s)| == |s|;
      r
  }

  /** Two sorted sequences with the same elements are equal: whatever sort
      the library uses, the result is `Sort`'s. */
  lemma {:induction false} SortedUnique(a: seq<real>, b: seq<real>)
    requires Sorted(a) && Sorted(b) && multiset(a) == multiset(b)
    ensures a == b
    decreases |a|
  {
    assert |a| == |multiset(a)| == |multiset(b)| == |b|;
    if |a| > 0 {
      SameHead(a, b);
      SortedTail(a);
      SortedTail(b);
      assert a == [a[0]] + a[1..] && b == [b[0]] + b[1..];
      assert multiset(a[1..]) == multiset(a) - multiset{a[0]};
      assert multiset(b[1..]) == multiset(b) - multiset{b[0]};
      SortedUnique(a[1..], b[1..]);
    }
  }

  /** Two non-empty sorted sequences with the same elements start with the
      same, least, element. */
  lemma SameHead(a: seq<real>, b: seq<real>)
    requires Sorted(a) && Sorted(b) && multiset(a) == multiset(b) && |a| > 0 && |b| > 0
    ensures a[0] == b[0]
  {
    assert AllAtLeast(b, b[0]);
    AtLeastOfMultiset(a, b, b[0]);
    assert AllAtLeast(a, a[0]);
    AtLeastOfMultiset(b, a, a[0]);
    assert a[0] in multiset(b);
    assert b[0] in multiset(a);
  }

  // ---------------------------------------------------------------------
  // Counting

  /** The number of elements of `s` that are at most `x`. */
  function CountLe(s: seq<real>, x: real): (r: nat)
    ensures r <= |s|
    decreases |s|
  {
    if |s| == 0 then 0 else (if s[0] <= x then 1 else 0) + CountLe(s[1..], x)
  }

  /** `iter().take_while(|v| v <= x).count()`: the length of the longest
      prefix whose elements are all at most `x`. */
  function TakeWhileLe(s: seq<real>, x: real): (r: nat)
    ensures r <= |s|
    ensures forall i :: 0 <= i < r ==> s[i] <= x
    ensures r < |s| ==> s[r] > x
    decreases |s|
  {
    if |s| == 0 || s[0] > x then 0 else 1 + TakeWhileLe(s[1..], x)
  }

  lemma {:induction false} CountLeNone(s: seq<real>, x: real)
    requires forall i :: 0 <= i < |s| ==> s[i] > x
    ensures CountLe(s, x) == 0
    decreases |s|
  {
    if |s| > 0 {
      CountLeNone(s[1..], x);
    }
  }

  lemma {:induction false} CountLeAll(s: seq<real>, x: real)
    requires forall i :: 0 <= i < |s| ==> s[i] <= x
    ensures CountLe(s, x) == |s|
    decreases |s|
  {
    if |s| > 0 {
      CountLeAll(s[1..], x);
    }
  }

  /** On a sorted sequence the prefix count is the full count. */
  lemma {:induction false} TakeWhileCounts(s: seq<real>, x: real)
    requires Sorted(s)
    ensures TakeWhileLe(s, x) == CountLe(s, x)
    decreases |s|
  {
    if |s| > 0 {
      if s[0] > x {
        CountLeNone(s, x);
      } else {
        TakeWhileCounts(s[1..], x);
      }
    }
  }

  lemma {:induction false} CountLeInsert(y: real, s: seq<real>, x: real)
    requires Sorted(s)
    ensures CountLe(Insert(y, s), x) == CountLe(s, x) + (if y <= x then 1 else 0)
    decreases |s|
  {
    // The steps below need only the one-step equation of `Insert`.
    hide Insert;
    InsertStep(y, s);
    if |s| > 0 && y > s[0] {
      CountLeInsert(y, s[1..], x);
      assert Insert(y, s)[1..] == Insert(y, s[1..]);
    } else {
      assert ([y] + s)[1..] == s;
    }
  }

  lemma InsertStep(y: real, s: seq<real>)
    requires Sorted(s)
    ensures |s| > 0 ==> Sorted(s[1..])
    ensures Insert(y, s) == if |s| == 0 || y <= s[0] then [y] + s else [s[0]] + Insert(y, s[1..])
  {
    if |s| > 0 {
      SortedTail(s);
    }
  }

  /** Sorting a copy does not change how many values are at most `x`. */
  lemma {:induction false} CountLeSort(s: seq<real>, x: real)
    ensures CountLe(Sort(s), x) == CountLe(s, x)
    decreases |s|
  {
    if |s| > 0 {
      CountLeSort(s[1..], x);
      CountLeInsert(s[0], Sort(s[1..]), x);
    }
  }

  /** A larger threshold counts at least as many values. */
  lemma {:induction false} CountLeMonotone(s: seq<real>, x: real, y: real)
    requires x <= y
    ensures CountLe(s, x) <= CountLe(s, y)
    decreases |s|
  {
    if |s| > 0 {
      CountLeMonotone(s[1..], x, y);
    }
  }
}
