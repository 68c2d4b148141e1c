/** Sequence helpers behind the iterator chains of the source. */
module Collections {

  predicate NoDuplicates<T(==)>(s: seq<T>) {
    forall i, j :: 0 <= i < j < |s| ==> s[i] != s[j]
  }

  lemma ConsNoDuplicates<T>(x: T, s: seq<T>)
    requires x !in s && NoDuplicates(s)
    ensures NoDuplicates([x] + s)
  {
    forall i, j | 0 <= i < j < |[x] + s| ensures ([x] + s)[i] != ([x] + s)[j] {
      assert ([x] + s)[j] == s[j - 1];
    }
  }

  /** The position of the first `x` in `s`. */
  function FirstIndex<T(==)>(s: seq<T>, x: T): (k: nat)
    requires x in s
    ensures k < |s| && s[k] == x && x !in s[..k]
  {
    if s[0] == x then 0
    else
      var k := FirstIndex(s[1..], x);
      assert s[..k + 1] == [s[0]] + s[1..][..k];
      k + 1
  }

  lemma FirstIndexOfPrefix<T>(s: seq<T>, n: nat, x: T)
    requires n <= |s| && x in s[..n]
    ensures FirstIndex(s, x) == FirstIndex(s[..n], x)
  {
    var k := FirstIndex(s[..n], x);
    assert s[..n][..k] == s[..k];
  }

  /**
   * Itertools' `unique`: every element once, at the place of its first
   * occurrence, in the order of first occurrence.
   */
  function Unique<T(==,!new)>(s: seq<T>): (r: seq<T>)
    ensures NoDuplicates(r)
    ensures forall x :: x in r <==> x in s
    ensures forall i, j :: 0 <= i < j < |r| ==> FirstIndex(s, r[i]) < FirstIndex(s, r[j])
    decreases |s|
  {
    if s == [] then []
    else
      var init, last := s[..|s| - 1], s[|s| - 1];
      var u := Unique(init);
      assert s == init + [last];
      forall x | x in u ensures FirstIndex(s, x) == FirstIndex(init, x) {
        FirstIndexOfPrefix(s, |s| - 1, x);
      }
      if last in u then u
      else
        assert FirstIndex(s, last) == |s| - 1;
        u + [last]
  }

  /** `Iterator::filter` collected into a vector. */
  function Filter<T(!new)>(s: seq<T>, keep: T -> bool): (r: seq<T>)
    ensures |r| <= |s|
    ensures forall x :: x in r <==> x in s && keep(x)
    ensures r == [] <==> forall x :: x in s ==> !keep(x)
    ensures |s| == 1 ==> r == if keep(s[0]) then s else []
    decreases |s|
  {
    if s == [] then []
    else
      var rest := Filter(s[1..], keep);
      assert forall x :: x in s <==> x == s[0] || x in s[1..];
      (if keep(s[0]) then [s[0]] else []) + rest
  }

  /** A passing element is kept as often as it occurs; any other is dropped. */
  lemma {:induction false} FilterCount<T(!new)>(s: seq<T>, keep: T -> bool, x: T)
    ensures multiset(Filter(s, keep))[x] == if keep(x) then multiset(s)[x] else 0
    decreases |s|
  {
    if s != [] {
      FilterCount(s[1..], keep, x);
      assert s == [s[0]] + s[1..];
    }
  }

  lemma ConcatAssoc<T>(a: seq<T>, b: seq<T>, c: seq<T>)
    ensures a + (b + c) == (a + b) + c
  {
  }

  /**
   * Filtering goes element by element: with the one-element case of `Filter`
   * this fixes the result as the kept elements in their order.
   */
  lemma {:induction false} FilterAppend<T(!new)>(a: seq<T>, b: seq<T>, keep: T -> bool)
    ensures Filter(a + b, keep) == Filter(a, keep) + Filter(b, keep)
    decreases |a|
  {
    if a == [] {
      assert a + b == b;
    } else {
      var ab := a + b;
      var head := if keep(a[0]) then [a[0]] else [];
      assert ab[0] == a[0] && ab[1..] == a[1..] + b;
      FilterAppend(a[1..], b, keep);
      calc {
        Filter(ab, keep);
        head + Filter(ab[1..], keep);
        head + (Filter(a[1..], keep) + Filter(b, keep));
        { ConcatAssoc(head, Filter(a[1..], keep), Filter(b, keep)); }
        (head + Filter(a[1..], keep)) + Filter(b, keep);
        Filter(a, keep) + Filter(b, keep);
      }
    }
  }

  /** `Iterator::flatten` collected into a vector. */
  function Flatten<T(!new)>(ss: seq<seq<T>>): (r: seq<T>)
    ensures forall x :: x in r <==> exists k :: 0 <= k < |ss| && x in ss[k]
    ensures |ss| == 1 ==> r == ss[0]
    decreases |ss|
  {
    if ss == [] then []
    else
      var rest := Flatten(ss[1..]);
      assert forall k :: 1 <= k < |ss| ==> ss[k] == ss[1..][k - 1];
      ss[0] + rest
  }

  /** Flattening goes part by part, keeping the order of the parts and of their elements. */
  lemma {:induction false} FlattenAppend<T(!new)>(a: seq<seq<T>>, b: seq<seq<T>>)
    ensures Flatten(a + b) == Flatten(a) + Flatten(b)
    decreases |a|
  {
    if a == [] {
      assert a + b == b;
    } else {
      FlattenAppend(a[1..], b);
      assert (a + b)[1..] == a[1..] + b;
    }
  }

  /** `Iterator::filter(keep).flat_map(f)` collected into a vector. */
  function FilterFlatMap<A(!new), B(!new)>(s: seq<A>, keep: A -> bool, f: A -> seq<B>): (r: seq<B>)
    ensures forall y :: y in r <==> exists x :: x in s && keep(x) && y in f(x)
    ensures |s| == 1 ==> r == if keep(s[0]) then f(s[0]) else []
    decreases |s|
  {
    if s == [] then []
    else
      var rest := FilterFlatMap(s[1..], keep, f);
      assert forall x :: x in s <==> x == s[0] || x in s[1..];
      (if keep(s[0]) then f(s[0]) else []) + rest
  }

  /**
   * Filtering and mapping go element by element: with the one-element case of
   * `FilterFlatMap` this fixes the result as the images of the kept elements
   * in input order.
   */
  lemma {:induction false} FilterFlatMapAppend<A(!new), B(!new)>(a: seq<A>, b: seq<A>, keep: A -> bool, f: A -> seq<B>)
    ensures FilterFlatMap(a + b, keep, f) == FilterFlatMap(a, keep, f) + FilterFlatMap(b, keep, f)
    decreases |a|
  {
    if a == [] {
      assert a + b == b;
    } else {
      var ab := a + b;
      var head := if keep(a[0]) then f(a[0]) else [];
      assert ab[0] == a[0] && ab[1..] == a[1..] + b;
      FilterFlatMapAppend(a[1..], b, keep, f);
      calc {
        FilterFlatMap(ab, keep, f);
        head + FilterFlatMap(ab[1..], keep, f);
        head + (FilterFlatMap(a[1..], keep, f) + FilterFlatMap(b, keep, f));
        { ConcatAssoc(head, FilterFlatMap(a[1..], keep, f), FilterFlatMap(b, keep, f)); }
        (head + FilterFlatMap(a[1..], keep, f)) + FilterFlatMap(b, keep, f);
        FilterFlatMap(a, keep, f) + FilterFlatMap(b, keep, f);
      }
    }
  }

  /** `Iterator::take(n)` collected into a vector. */
  function Take<T>(s: seq<T>, n: nat): (r: seq<T>)
    ensures |r| == if |s| <= n then |s| else n
    ensures r == s[..|r|]
  {
    if |s| <= n then s else s[..n]
  }

  /**
   * The first `n` distinct elements: none twice, all from `s`, all of them
   * when there are fewer than `n`, and exactly `n` when there are at least `n`.
   */
  lemma TakeUnique<T(!new)>(s: seq<T>, n: nat)
    ensures NoDuplicates(Take(Unique(s), n))
    ensures forall x :: x in Take(Unique(s), n) ==> x in s
    ensures |Take(Unique(s), n)| < n ==> forall x :: x in s ==> x in Take(Unique(s), n)
    ensures |Take(Unique(s), n)| == n <==> |Unique(s)| >= n
  {
    var u := Unique(s);
    var r := Take(u, n);
    forall i, j | 0 <= i < j < |r| ensures r[i] != r[j] {
      assert r[i] == u[i] && r[j] == u[j];
    }
    assert forall x :: x in r ==> x in u;
  }

  /** The number of occurrences of `x` in `s`. */
  function Count<T(==)>(s: seq<T>, x: T): nat
    decreases |s|
  {
    if s == [] then 0 else (if s[0] == x then 1 else 0) + Count(s[1..], x)
  }

  lemma {:induction false} CountSnoc<T>(s: seq<T>, y: T, x: T)
    ensures Count(s + [y], x) == Count(s, x) + (if y == x then 1 else 0)
    decreases |s|
  {
    if s == [] {
      assert [y][1..] == [];
    } else {
      CountSnoc(s[1..], y, x);
      assert (s + [y])[1..] == s[1..] + [y];
    }
  }
}
