/** Ordering by a comparator: the model of LINQ `OrderBy` and `ThenBy` under a database
    collation that the model does not fix. A comparator is `leq(a, b)`: "a may come before b". */
module Ordering {

  /** The comparator is total and transitive, as a collation's "sorts no later than" is. */
  ghost predicate TotalPreorder<T(!new)>(leq: (T, T) -> bool) {
    && (forall a, b :: leq(a, b) || leq(b, a))
    && (forall a, b, c :: leq(a, b) && leq(b, c) ==> leq(a, c))
  }

  predicate Sorted<T>(xs: seq<T>, leq: (T, T) -> bool) {
    forall i, j :: 0 <= i < j < |xs| ==> leq(xs[i], xs[j])
  }

  /** `OrderBy(key)`: compare elements by their keys. */
  function OnKey<T, K>(key: T -> K, leq: (K, K) -> bool): (T, T) -> bool {
    (a: T, b: T) => leq(key(a), key(b))
  }

  /** `ThenBy`: order by `first`, and by `second` among elements `first` ranks equal. */
  function ThenBy<T>(first: (T, T) -> bool, second: (T, T) -> bool): (T, T) -> bool {
    (a: T, b: T) => first(a, b) && (first(b, a) ==> second(a, b))
  }

  lemma OnKeyPreorder<T(!new), K(!new)>(key: T -> K, leq: (K, K) -> bool)
    requires TotalPreorder(leq)
    ensures TotalPreorder(OnKey(key, leq))
  {
    var o := OnKey(key, leq);
    forall a, b, c | o(a, b) && o(b, c) ensures o(a, c) {
      assert leq(key(a), key(b)) && leq(key(b), key(c));
    }
    forall a, b ensures o(a, b) || o(b, a) {
      assert leq(key(a), key(b)) || leq(key(b), key(a));
    }
  }

  lemma ThenByPreorder<T(!new)>(first: (T, T) -> bool, second: (T, T) -> bool)
    requires TotalPreorder(first) && TotalPreorder(second)
    ensures TotalPreorder(ThenBy(first, second))
  {
    var o := ThenBy(first, second);
    forall a, b, c | o(a, b) && o(b, c) ensures o(a, c) {
      assert first(a, c);
      if first(c, a) {
        assert first(b, a) && first(c, b);
        assert second(a, b) && second(b, c);
      }
    }
    forall a, b ensures o(a, b) || o(b, a) {
      if !o(a, b) {
        assert first(b, a);
        if first(a, b) {
          assert second(b, a);
        }
      }
    }
  }

  /** Insertion into a sorted sequence; `x` goes before the first element it may precede,
      so elements that compare equal keep their relative order. */
  function Insert<T(!new)>(x: T, xs: seq<T>, leq: (T, T) -> bool): (r: seq<T>)
    requires TotalPreorder(leq) && Sorted(xs, leq)
    ensures Sorted(r, leq)
    ensures multiset(r) == multiset(xs) + multiset{x}
  {
    if xs == [] then [x]
    else if leq(x, xs[0]) then
      FirstBelowAll(x, xs, leq);
      ConsSorted(x, xs, leq);
      [x] + xs
    else
      var rest := Insert(x, xs[1..], leq);
      assert xs == [xs[0]] + xs[1..];
      HeadBelowRest(x, xs, rest, leq);
      ConsSorted(xs[0], rest, leq);
      [xs[0]] + rest
  }

  /** An element that may precede the head of a sorted sequence may precede all of it. */
  lemma FirstBelowAll<T(!new)>(x: T, xs: seq<T>, leq: (T, T) -> bool)
    requires TotalPreorder(leq) && Sorted(xs, leq) && xs != [] && leq(x, xs[0])
    ensures forall y :: y in xs ==> leq(x, y)
  {
    forall k | 0 <= k < |xs| ensures leq(x, xs[k]) {
      if k > 0 { assert leq(xs[0], xs[k]); }
    }
  }

  /** The head of a sorted sequence may precede every element of the rest with `x` added,
      when `x` may not precede the head. */
  lemma HeadBelowRest<T(!new)>(x: T, xs: seq<T>, rest: seq<T>, leq: (T, T) -> bool)
    requires TotalPreorder(leq) && Sorted(xs, leq) && xs != [] && !leq(x, xs[0])
    requires multiset(rest) == multiset(xs[1..]) + multiset{x}
    ensures forall y :: y in rest ==> leq(xs[0], y)
  {
    forall y | y in rest ensures leq(xs[0], y) {
      assert y in multiset(rest);
      if y != x {
        assert y in multiset(xs[1..]);
        var k :| 0 <= k < |xs[1..]| && xs[1..][k] == y;
        assert xs[k + 1] == y;
      } else {
        assert leq(x, xs[0]) || leq(xs[0], x);
      }
    }
  }

  /** A head that may precede every element of a sorted sequence keeps it sorted. */
  lemma ConsSorted<T>(h: T, rest: seq<T>, leq: (T, T) -> bool)
    requires Sorted(rest, leq) && forall y :: y in rest ==> leq(h, y)
    ensures Sorted([h] + rest, leq)
  {
    var r := [h] + rest;
    forall i, j | 0 <= i < j < |r| ensures leq(r[i], r[j]) {
      assert r[j] == rest[j - 1];
      if i > 0 { assert r[i] == rest[i - 1]; }
    }
  }

  /** An insertion sort by `leq`: the same elements, in order. */
  function SortBy<T(!new)>(xs: seq<T>, leq: (T, T) -> bool): (r: seq<T>)
    requires TotalPreorder(leq)
    ensures Sorted(r, leq)
    ensures multiset(r) == multiset(xs)
  {
    if xs == [] then []
    else
      assert xs == [xs[0]] + xs[1..];
      Insert(xs[0], SortBy(xs[1..], leq), leq)
  }
}
