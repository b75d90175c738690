/**
 * Boolean-mask row selection over a table held as a sequence of rows.
 *
 * `Filter(s, keep)` is the table `s[mask]` where `mask` holds `keep` of every
 * row: the kept rows, in their original order. `Count(s, keep)` is the number
 * of true entries in the mask, computed in one pass over the table; it is the
 * reference against which the lengths of filtered tables are stated.
 */
module Masks {

  /** The rows of `s` that satisfy `keep`, in order. */
  function Filter<T(==)>(s: seq<T>, keep: T -> bool): (r: seq<T>)
    ensures |r| <= |s|
  {
    if s == [] then []
    else (if keep(s[0]) then [s[0]] else []) + Filter(s[1..], keep)
  }

  /** The number of rows of `s` that satisfy `keep`. */
  function Count<T>(s: seq<T>, keep: T -> bool): nat
  {
    if s == [] then 0 else (if keep(s[0]) then 1 else 0) + Count(s[1..], keep)
  }

  /** The conjunction of two row predicates, one mask applied after the other. */
  function Both<T>(p: T -> bool, q: T -> bool): T -> bool
  {
    x => p(x) && q(x)
  }

  /**
   * A filtered table holds each row that satisfies the mask as often as the
   * table does, and no other row.
   */
  lemma {:induction false} FilterContents<T(!new)>(s: seq<T>, keep: T -> bool)
    ensures forall x :: multiset(Filter(s, keep))[x] == if keep(x) then multiset(s)[x] else 0
    ensures forall x :: x in Filter(s, keep) <==> x in s && keep(x)
  {
    if s != [] {
      assert s == [s[0]] + s[1..];
      FilterContents(s[1..], keep);
    }
  }

  /** The length of a filtered table is the number of rows its mask keeps. */
  lemma {:induction false} FilterLength<T(!new)>(s: seq<T>, keep: T -> bool)
    ensures |Filter(s, keep)| == Count(s, keep)
  {
    if s != [] {
      FilterLength(s[1..], keep);
    }
  }

  /** Counting never exceeds the number of rows. */
  lemma {:induction false} CountBound<T>(s: seq<T>, keep: T -> bool)
    ensures Count(s, keep) <= |s|
  {
    if s != [] {
      CountBound(s[1..], keep);
    }
  }

  /** No row is kept exactly when no row satisfies the predicate. */
  lemma {:induction false} CountZero<T>(s: seq<T>, keep: T -> bool)
    ensures Count(s, keep) == 0 <==> forall x :: x in s ==> !keep(x)
  {
    if s != [] {
      CountZero(s[1..], keep);
      CountBound(s[1..], keep);
      assert forall x :: x in s <==> x == s[0] || x in s[1..];
    }
  }

  /**
   * Adding a second predicate keeps the count exactly when every row the
   * first keeps also satisfies the second.
   */
  lemma {:induction false} CountBothFull<T>(s: seq<T>, p: T -> bool, q: T -> bool)
    ensures Count(s, Both(p, q)) == Count(s, p) <==> forall x :: x in s && p(x) ==> q(x)
  {
    if s != [] {
      CountBothFull(s[1..], p, q);
      CountMonotone(s[1..], Both(p, q), p);
      assert forall x :: x in s <==> x == s[0] || x in s[1..];
    }
  }

  /** Counting distributes over concatenation of tables. */
  lemma {:induction false} CountConcat<T>(a: seq<T>, b: seq<T>, keep: T -> bool)
    ensures Count(a + b, keep) == Count(a, keep) + Count(b, keep)
  {
    if a == [] {
      assert a + b == b;
    } else {
      assert (a + b)[1..] == a[1..] + b;
      CountConcat(a[1..], b, keep);
    }
  }

  /** A weaker predicate keeps at least as many rows. */
  lemma {:induction false} CountMonotone<T>(s: seq<T>, p: T -> bool, q: T -> bool)
    requires forall x :: x in s && p(x) ==> q(x)
    ensures Count(s, p) <= Count(s, q)
  {
    if s != [] {
      CountMonotone(s[1..], p, q);
    }
  }

  /**
   * Two tables of the same length whose rows agree, position by position, on
   * the two predicates have the same count.
   */
  lemma {:induction false} CountPointwise<T, U>(s: seq<T>, t: seq<U>, p: T -> bool, q: U -> bool)
    requires |s| == |t|
    requires forall i :: 0 <= i < |s| ==> p(s[i]) == q(t[i])
    ensures Count(s, p) == Count(t, q)
  {
    if s != [] {
      CountPointwise(s[1..], t[1..], p, q);
    }
  }

  /** A predicate that is the disjoint union of two others counts their sum. */
  lemma {:induction false} CountDisjointUnion<T>(s: seq<T>, p: T -> bool, q: T -> bool, u: T -> bool)
    requires forall x :: x in s ==> (u(x) <==> p(x) || q(x))
    requires forall x :: x in s ==> !(p(x) && q(x))
    ensures Count(s, u) == Count(s, p) + Count(s, q)
  {
    if s != [] {
      CountDisjointUnion(s[1..], p, q, u);
    }
  }

  /** Filtering distributes over concatenation of tables. */
  lemma {:induction false} FilterConcat<T(!new)>(a: seq<T>, b: seq<T>, keep: T -> bool)
    ensures Filter(a + b, keep) == Filter(a, keep) + Filter(b, keep)
  {
    if a == [] {
      assert a + b == b;
    } else {
      assert (a + b)[0] == a[0] && (a + b)[1..] == a[1..] + b;
      FilterConcat(a[1..], b, keep);
      var head := if keep(a[0]) then [a[0]] else [];
      assert Filter(a + b, keep) == head + Filter(a[1..] + b, keep);
      assert Filter(a, keep) == head + Filter(a[1..], keep);
    }
  }

  /** A row the mask rejects can be dropped from the table. */
  lemma FilterSkip<T(!new)>(xs: seq<T>, x: T, ys: seq<T>, keep: T -> bool)
    requires !keep(x)
    ensures Filter(xs + [x] + ys, keep) == Filter(xs + ys, keep)
  {
    assert Filter([x], keep) == [] by {
      assert [x][1..] == [];
    }
    FilterConcat(xs, [x], keep);
    FilterConcat(xs + [x], ys, keep);
    FilterConcat(xs, ys, keep);
  }

  /** Applying one mask after another keeps the rows that satisfy both. */
  lemma {:induction false} FilterOfFilter<T(!new)>(s: seq<T>, p: T -> bool, q: T -> bool)
    ensures Filter(Filter(s, p), q) == Filter(s, Both(p, q))
  {
    if s != [] {
      var head := if p(s[0]) then [s[0]] else [];
      FilterConcat(head, Filter(s[1..], p), q);
      FilterOfFilter(s[1..], p, q);
    }
  }

  /**
   * Counting with `q` after filtering with `p` changes nothing when every row
   * that `q` keeps also satisfies `p`.
   */
  lemma {:induction false} CountAfterFilter<T(!new)>(s: seq<T>, p: T -> bool, q: T -> bool)
    requires forall x :: q(x) ==> p(x)
    ensures Count(Filter(s, p), q) == Count(s, q)
  {
    if s != [] {
      var head := if p(s[0]) then [s[0]] else [];
      CountConcat(head, Filter(s[1..], p), q);
      CountAfterFilter(s[1..], p, q);
    }
  }
}
