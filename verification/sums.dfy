/** `SUM(...)` over a sequence of rows: the total of a per-row value. */
module Sums {
  import opened Filtering

  function Total<T>(s: seq<T>, value: T -> real): real
  {
    if |s| == 0 then 0.0 else value(s[0]) + Total(s[1..], value)
  }

  lemma {:induction false} TotalConcat<T>(a: seq<T>, b: seq<T>, value: T -> real)
    ensures Total(a + b, value) == Total(a, value) + Total(b, value)
    decreases |a|
  {
    if |a| > 0 {
      assert (a + b)[0] == a[0];
      assert (a + b)[1..] == a[1..] + b;
      TotalConcat(a[1..], b, value);
    } else {
      assert a + b == b;
    }
  }

  /** A total does not depend on the order of the rows. */
  lemma {:induction false} TotalPermutation<T>(a: seq<T>, b: seq<T>, value: T -> real)
    requires multiset(a) == multiset(b)
    ensures Total(a, value) == Total(b, value)
    decreases |a|
  {
    if |a| == 0 {
      assert |b| == |multiset(b)| == 0;
    } else {
      var x := a[0];
      assert x in multiset(b);
      var i :| 0 <= i < |b| && b[i] == x;
      var rest := b[..i] + b[i + 1..];
      RemoveAt(b, i);
      assert a == [x] + a[1..];
      assert multiset(a[1..]) == multiset(a) - multiset{x};
      TotalPermutation(a[1..], rest, value);
      TotalRemoveAt(b, i, value);
    }
  }

  lemma RemoveAt<T>(b: seq<T>, i: int)
    requires 0 <= i < |b|
    ensures multiset(b[..i] + b[i + 1..]) == multiset(b) - multiset{b[i]}
  {
    assert b == b[..i] + [b[i]] + b[i + 1..];
  }

  /** A row in front adds its value to the total. */
  lemma TotalCons<T>(x: T, s: seq<T>, value: T -> real)
    ensures Total([x] + s, value) == value(x) + Total(s, value)
  {
    assert ([x] + s)[0] == x && ([x] + s)[1..] == s;
  }

  /** A row at the end adds its value to the total. */
  lemma TotalSnoc<T>(s: seq<T>, x: T, value: T -> real)
    ensures Total(s + [x], value) == Total(s, value) + value(x)
  {
    TotalConcat(s, [x], value);
    TotalCons(x, [], value);
    assert [x] + [] == [x];
  }

  /** Taking one row out of a total leaves the total of the others. */
  lemma TotalRemoveAt<T>(b: seq<T>, i: int, value: T -> real)
    requires 0 <= i < |b|
    ensures Total(b, value) == value(b[i]) + Total(b[..i] + b[i + 1..], value)
  {
    var head, tail := b[..i], b[i + 1..];
    assert b == head + ([b[i]] + tail);
    TotalConcat(head, [b[i]] + tail, value);
    TotalCons(b[i], tail, value);
    TotalConcat(head, tail, value);
  }

  /** Rows that agree value by value have the same total. */
  lemma {:induction false} TotalPointwise<A, B>(a: seq<A>, f: A -> real, b: seq<B>, g: B -> real)
    requires |a| == |b|
    requires forall i :: 0 <= i < |a| ==> f(a[i]) == g(b[i])
    ensures Total(a, f) == Total(b, g)
    decreases |a|
  {
    if |a| > 0 {
      TotalPointwise(a[1..], f, b[1..], g);
    }
  }

  /** `value` on the rows `keep` admits and 0 elsewhere: the summand of
      `SUM(CASE WHEN ... THEN value ELSE 0 END)`. */
  function Masked<T>(keep: T -> bool, value: T -> real): T -> real {
    (x: T) => if keep(x) then value(x) else 0.0
  }

  /** Summing a masked value over all rows is summing the value over the
      rows the `WHERE` clause keeps. */
  lemma {:induction false} TotalOfFilter<T(!new)>(s: seq<T>, keep: T -> bool, value: T -> real)
    ensures Total(s, Masked(keep, value)) == Total(Filter(s, keep), value)
    decreases |s|
  {
    if |s| > 0 {
      var init, x := s[..|s| - 1], s[|s| - 1];
      assert s == init + [x];
      TotalOfFilter(init, keep, value);
      MaskedSnoc(init, x, keep, value);
      FilteredSnoc(init, x, keep, value);
    }
  }

  lemma MaskedSnoc<T>(s: seq<T>, x: T, keep: T -> bool, value: T -> real)
    ensures Total(s + [x], Masked(keep, value)) == Total(s, Masked(keep, value)) + (if keep(x) then value(x) else 0.0)
  {
    TotalSnoc(s, x, Masked(keep, value));
  }

  lemma FilteredSnoc<T(!new)>(s: seq<T>, x: T, keep: T -> bool, value: T -> real)
    ensures Total(Filter(s + [x], keep), value) == Total(Filter(s, keep), value) + (if keep(x) then value(x) else 0.0)
  {
    FilterAppend(s, x, keep);
    if keep(x) {
      TotalSnoc(Filter(s, keep), x, value);
    } else {
      assert Filter(s, keep) + [] == Filter(s, keep);
    }
  }

  /** A sum of non-negative values is non-negative. */
  lemma {:induction false} TotalNonNegative<T>(s: seq<T>, value: T -> real)
    requires forall i :: 0 <= i < |s| ==> value(s[i]) >= 0.0
    ensures Total(s, value) >= 0.0
    decreases |s|
  {
    if |s| > 0 {
      TotalNonNegative(s[1..], value);
    }
  }
}
