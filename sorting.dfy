/** Python's `sorted(xs, key=...)` and `list.sort(key=...)`: a stable sort
    under a total preorder `le` ("key of a <= key of b"), written as an
    insertion sort. */
module Sorting {
  import opened Text

  /** `le` compares keys: any two values are comparable and the order is
      transitive. */
  ghost predicate TotalPreorder<T(!new)>(le: (T, T) -> bool)
  {
    (forall a, b :: le(a, b) || le(b, a)) &&
    (forall a, b, c :: le(a, b) && le(b, c) ==> le(a, c))
  }

  ghost predicate Sorted<T>(xs: seq<T>, le: (T, T) -> bool)
  {
    forall i, j :: 0 <= i < j < |xs| ==> le(xs[i], xs[j])
  }

  /** Puts `x` into the sorted `s` after every element whose key is at most
      its own, so equal keys keep their arrival order. */
  function InsertBy<T>(x: T, s: seq<T>, le: (T, T) -> bool): seq<T>
    decreases |s|
  {
    if s == [] || le(s[|s| - 1], x) then s + [x]
    else InsertBy(x, s[..|s| - 1], le) + [s[|s| - 1]]
  }

  function SortBy<T>(xs: seq<T>, le: (T, T) -> bool): seq<T>
    decreases |xs|
  {
    if xs == [] then [] else InsertBy(xs[|xs| - 1], SortBy(xs[..|xs| - 1], le), le)
  }

  lemma {:induction false} InsertByPermutes<T>(x: T, s: seq<T>, le: (T, T) -> bool)
    ensures multiset(InsertBy(x, s, le)) == multiset(s) + multiset{x}
    decreases |s|
  {
    if !(s == [] || le(s[|s| - 1], x)) {
      var init := s[..|s| - 1];
      InsertByPermutes(x, init, le);
      assert s == init + [s[|s| - 1]];
    }
  }

  lemma {:induction false} InsertBySorted<T(!new)>(x: T, s: seq<T>, le: (T, T) -> bool)
    requires TotalPreorder(le) && Sorted(s, le)
    ensures Sorted(InsertBy(x, s, le), le)
    decreases |s|
  {
    if s == [] {
    } else if le(s[|s| - 1], x) {
      var r := s + [x];
      forall i, j | 0 <= i < j < |r| ensures le(r[i], r[j]) {
        if j == |s| && i < |s| - 1 {
          assert le(s[i], s[|s| - 1]);
        }
      }
    } else {
      var init := s[..|s| - 1];
      var top := s[|s| - 1];
      InsertBySorted(x, init, le);
      InsertByPermutes(x, init, le);
      var front := InsertBy(x, init, le);
      assert le(x, top);
      forall e | e in front ensures le(e, top) {
        assert e in multiset(front);
        if e != x {
          assert e in multiset(init);
          var k :| 0 <= k < |init| && init[k] == e;
          assert le(s[k], s[|s| - 1]);
        }
      }
      var r := front + [top];
      forall i, j | 0 <= i < j < |r| ensures le(r[i], r[j]) {
        if j == |front| {
          assert r[i] in front;
        }
      }
    }
  }

  /** The sort rearranges without adding or dropping, whatever `le` is. */
  lemma {:induction false} SortByPermutes<T>(xs: seq<T>, le: (T, T) -> bool)
    ensures multiset(SortBy(xs, le)) == multiset(xs)
    ensures |SortBy(xs, le)| == |xs|
    ensures forall y :: y in SortBy(xs, le) <==> y in xs
    decreases |xs|
  {
    if xs != [] {
      var init := xs[..|xs| - 1];
      SortByPermutes(init, le);
      InsertByPermutes(xs[|xs| - 1], SortBy(init, le), le);
      assert xs == init + [xs[|xs| - 1]];
    }
    assert |multiset(SortBy(xs, le))| == |multiset(xs)|;
    forall y ensures y in SortBy(xs, le) <==> y in xs {
      assert y in SortBy(xs, le) <==> y in multiset(SortBy(xs, le));
      assert y in xs <==> y in multiset(xs);
    }
  }

  /** Under a total preorder the sort also puts the keys in order. */
  lemma {:induction false} SortBySpec<T(!new)>(xs: seq<T>, le: (T, T) -> bool)
    requires TotalPreorder(le)
    ensures Sorted(SortBy(xs, le), le)
    ensures multiset(SortBy(xs, le)) == multiset(xs)
    decreases |xs|
  {
    SortByPermutes(xs, le);
    if xs != [] {
      var init := xs[..|xs| - 1];
      SortBySpec(init, le);
      InsertBySorted(xs[|xs| - 1], SortBy(init, le), le);
    }
  }

  /** A list already in key order is left as it is. */
  lemma {:induction false} SortBySortedIsIdentity<T>(xs: seq<T>, le: (T, T) -> bool)
    requires Sorted(xs, le)
    ensures SortBy(xs, le) == xs
    decreases |xs|
  {
    if xs != [] {
      var init := xs[..|xs| - 1];
      assert Sorted(init, le);
      SortBySortedIsIdentity(init, le);
      if |init| > 0 {
        assert le(init[|init| - 1], xs[|xs| - 1]);
      }
      assert init + [xs[|xs| - 1]] == xs;
    }
  }

  /** Filtering one element keeps it exactly when it passes. */
  lemma FilterOne<T>(x: T, p: T -> bool)
    ensures Filter([x], p) == if p(x) then [x] else []
  {
    assert [x][..0] == [];
  }

  /** The elements whose key equals the key of `k`. */
  function SameKey<T>(le: (T, T) -> bool, k: T): T -> bool
  {
    e => le(e, k) && le(k, e)
  }

  /** Inserting `x` keeps, among the elements of any one key class, the
      order they arrived in, with `x` last. */
  lemma {:induction false} InsertByStable<T(!new)>(x: T, s: seq<T>, le: (T, T) -> bool, p: T -> bool)
    requires TotalPreorder(le) && Sorted(s, le)
    requires forall a, b :: p(a) && p(b) ==> le(a, b)
    ensures Filter(InsertBy(x, s, le), p) == Filter(s, p) + Filter([x], p)
    decreases |s|
  {
    if s == [] || le(s[|s| - 1], x) {
      FilterAppend(s, [x], p);
    } else {
      var init := s[..|s| - 1];
      var top := s[|s| - 1];
      assert Sorted(init, le);
      InsertByStable(x, init, le, p);
      assert le(x, top);
      assert !(p(x) && p(top));
      StableStep(InsertBy(x, init, le), init, x, top, p);
      assert s == init + [top];
    }
  }

  /** The step of that induction: `top` passes behind `x` only when at
      most one of them is kept. */
  lemma StableStep<T>(front: seq<T>, init: seq<T>, x: T, top: T, p: T -> bool)
    requires Filter(front, p) == Filter(init, p) + Filter([x], p)
    requires !(p(x) && p(top))
    ensures Filter(front + [top], p) == Filter(init + [top], p) + Filter([x], p)
  {
    FilterAppend(front, [top], p);
    FilterAppend(init, [top], p);
    FilterOne(x, p);
    FilterOne(top, p);
  }

  /** The sort is stable: the elements of one key class come out in the
      order they went in. */
  lemma {:induction false} SortByStable<T(!new)>(xs: seq<T>, le: (T, T) -> bool, p: T -> bool)
    requires TotalPreorder(le)
    requires forall a, b :: p(a) && p(b) ==> le(a, b)
    ensures Filter(SortBy(xs, le), p) == Filter(xs, p)
    decreases |xs|
  {
    if xs != [] {
      var init := xs[..|xs| - 1];
      var last := xs[|xs| - 1];
      SortByStable(init, le, p);
      SortBySpec(init, le);
      InsertByStable(last, SortBy(init, le), le, p);
      assert xs == init + [last];
      FilterAppend(init, [last], p);
    }
  }

  /** Elements with equal keys keep their input order. */
  lemma SortByKeepsTies<T(!new)>(xs: seq<T>, le: (T, T) -> bool, k: T)
    requires TotalPreorder(le)
    ensures Filter(SortBy(xs, le), SameKey(le, k)) == Filter(xs, SameKey(le, k))
  {
    SortByStable(xs, le, SameKey(le, k));
  }
}
