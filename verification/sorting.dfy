/** `ORDER BY key, id` (ascending or descending on both) over a sequence of
    rows, as a stable insertion sort. `key` is the sort text of a row and
    `id` its primary key, the tie-breaker. */
module Sorting {
  import opened Text

  datatype Direction = Ascending | Descending

  /** Row `a` must be listed strictly before row `b`. */
  predicate Before<T>(dir: Direction, key: T -> string, id: T -> int, a: T, b: T) {
    match dir
    case Ascending => TextLt(key(a), key(b)) || (key(a) == key(b) && id(a) < id(b))
    case Descending => TextLt(key(b), key(a)) || (key(a) == key(b) && id(a) > id(b))
  }

  /** No row is listed after one that must come after it. */
  predicate Sorted<T>(dir: Direction, key: T -> string, id: T -> int, s: seq<T>) {
    forall i, j :: 0 <= i < j < |s| ==> !Before(dir, key, id, s[j], s[i])
  }

  lemma BeforeAsymmetric<T>(dir: Direction, key: T -> string, id: T -> int, a: T, b: T)
    ensures Before(dir, key, id, a, b) ==> !Before(dir, key, id, b, a)
  {
    TextLtAsymmetric(key(a), key(b));
    TextLtIrreflexive(key(a));
  }

  /** "Not after" is transitive. */
  lemma NotBeforeTransitive<T>(dir: Direction, key: T -> string, id: T -> int, a: T, b: T, c: T)
    requires !Before(dir, key, id, b, a) && !Before(dir, key, id, c, b)
    ensures !Before(dir, key, id, c, a)
  {
    var ka, kb, kc := key(a), key(b), key(c);
    if ka != kb {
      TextLtTotal(ka, kb);
    }
    if kb != kc {
      TextLtTotal(kb, kc);
    }
    if ka != kc {
      TextLtTotal(ka, kc);
    }
    if TextLt(ka, kb) && TextLt(kb, kc) {
      TextLtTransitive(ka, kb, kc);
    }
    if TextLt(kc, kb) && TextLt(kb, ka) {
      TextLtTransitive(kc, kb, ka);
    }
    TextLtAsymmetric(ka, kc);
    TextLtAsymmetric(ka, kb);
    TextLtAsymmetric(kb, kc);
    TextLtIrreflexive(ka);
  }

  /** Two rows neither of which must precede the other share key and id. */
  lemma BeforeTotal<T>(dir: Direction, key: T -> string, id: T -> int, a: T, b: T)
    requires !Before(dir, key, id, a, b) && !Before(dir, key, id, b, a)
    ensures key(a) == key(b) && id(a) == id(b)
  {
    if key(a) != key(b) {
      TextLtTotal(key(a), key(b));
    }
  }

  function Insert<T>(dir: Direction, key: T -> string, id: T -> int, x: T, s: seq<T>): (r: seq<T>)
    requires Sorted(dir, key, id, s)
    ensures multiset(r) == multiset(s) + multiset{x}
    ensures Sorted(dir, key, id, r)
  {
    if |s| == 0 then [x]
    else if Before(dir, key, id, s[0], x) then
      var tail := Insert(dir, key, id, x, s[1..]);
      assert s == [s[0]] + s[1..];
      assert forall j :: 0 <= j < |tail| ==> !Before(dir, key, id, tail[j], s[0]) by {
        forall j | 0 <= j < |tail|
          ensures !Before(dir, key, id, tail[j], s[0])
        {
          assert tail[j] in multiset(tail);
          if tail[j] == x {
            BeforeAsymmetric(dir, key, id, s[0], x);
          } else {
            assert tail[j] in multiset(s[1..]);
            var k :| 0 <= k < |s[1..]| && s[1..][k] == tail[j];
            assert s[k + 1] == tail[j];
          }
        }
      }
      [s[0]] + tail
    else
      assert forall j :: 0 <= j < |s| ==> !Before(dir, key, id, s[j], x) by {
        forall j | 0 <= j < |s|
          ensures !Before(dir, key, id, s[j], x)
        {
          if j > 0 {
            NotBeforeTransitive(dir, key, id, x, s[0], s[j]);
          }
        }
      }
      [x] + s
  }

  /** The rows of `s`, each once, in the order `dir` prescribes. */
  function Sort<T>(dir: Direction, key: T -> string, id: T -> int, s: seq<T>): (r: seq<T>)
    ensures multiset(r) == multiset(s)
    ensures Sorted(dir, key, id, r)
  {
    if |s| == 0 then []
    else
      assert s == [s[0]] + s[1..];
      Insert(dir, key, id, s[0], Sort(dir, key, id, s[1..]))
  }

  /** When ids are distinct, a sorted listing of the rows is unique: any two
      sorted permutations of the same rows coincide. */
  lemma {:induction false} SortedUnique<T>(dir: Direction, key: T -> string, id: T -> int, a: seq<T>, b: seq<T>)
    requires multiset(a) == multiset(b)
    requires Sorted(dir, key, id, a) && Sorted(dir, key, id, b)
    requires forall i, j :: 0 <= i < j < |a| ==> id(a[i]) != id(a[j])
    ensures a == b
    decreases |a|
  {
    assert |a| == |multiset(a)| == |multiset(b)| == |b|;
    if |a| > 0 {
      SortedHeadsAgree(dir, key, id, a, b);
      MultisetTail(a, b);
      SortedTail(dir, key, id, a);
      SortedTail(dir, key, id, b);
      DistinctTail(id, a);
      SortedUnique(dir, key, id, a[1..], b[1..]);
      assert a == [a[0]] + a[1..] && b == [b[0]] + b[1..];
    }
  }

  lemma SortedHeadsAgree<T>(dir: Direction, key: T -> string, id: T -> int, a: seq<T>, b: seq<T>)
    requires |a| > 0 && multiset(a) == multiset(b)
    requires Sorted(dir, key, id, a) && Sorted(dir, key, id, b)
    requires forall i, j :: 0 <= i < j < |a| ==> id(a[i]) != id(a[j])
    ensures |b| > 0 && a[0] == b[0]
  {
    assert a[0] in multiset(b);
    var i :| 0 <= i < |b| && b[i] == a[0];
    assert b[0] in multiset(a);
    var k :| 0 <= k < |a| && a[k] == b[0];
    if i != 0 && k != 0 {
      assert !Before(dir, key, id, a[0], b[0]);
      assert !Before(dir, key, id, b[0], a[0]);
      BeforeTotal(dir, key, id, a[0], b[0]);
    }
  }

  lemma SortedTail<T>(dir: Direction, key: T -> string, id: T -> int, s: seq<T>)
    requires |s| > 0 && Sorted(dir, key, id, s)
    ensures Sorted(dir, key, id, s[1..])
  {
    forall i, j | 0 <= i < j < |s| - 1
      ensures !Before(dir, key, id, s[1..][j], s[1..][i])
    {
      assert s[1..][j] == s[j + 1] && s[1..][i] == s[i + 1];
    }
  }

  lemma MultisetTail<T>(a: seq<T>, b: seq<T>)
    requires |a| > 0 && |b| > 0 && a[0] == b[0] && multiset(a) == multiset(b)
    ensures multiset(a[1..]) == multiset(b[1..])
  {
    assert a == [a[0]] + a[1..] && b == [b[0]] + b[1..];
    assert multiset(a[1..]) == multiset(a) - multiset{a[0]};
    assert multiset(b[1..]) == multiset(b) - multiset{b[0]};
  }

  lemma DistinctTail<T>(id: T -> int, a: seq<T>)
    requires |a| > 0
    requires forall i, j :: 0 <= i < j < |a| ==> id(a[i]) != id(a[j])
    ensures forall i, j :: 0 <= i < j < |a[1..]| ==> id(a[1..][i]) != id(a[1..][j])
  {
    forall i, j | 0 <= i < j < |a[1..]|
      ensures id(a[1..][i]) != id(a[1..][j])
    {
      assert a[1..][i] == a[i + 1] && a[1..][j] == a[j + 1];
    }
  }

  /** No row occurs twice. */
  predicate NoDuplicates<T(==)>(s: seq<T>) {
    forall i, j :: 0 <= i < j < |s| ==> s[i] != s[j]
  }

  lemma CountAtLeastTwo<T>(s: seq<T>, i: int, j: int)
    requires 0 <= i < j < |s|
    ensures s[i] == s[j] ==> multiset(s)[s[i]] >= 2
  {
    assert s == s[..i] + [s[i]] + s[i + 1..j] + [s[j]] + s[j + 1..];
  }

  lemma {:induction false} NoDuplicatesCount<T>(s: seq<T>, x: T)
    requires NoDuplicates(s)
    ensures multiset(s)[x] <= 1
    decreases |s|
  {
    if |s| > 0 {
      assert s == [s[0]] + s[1..];
      assert NoDuplicates(s[1..]) by {
        forall i, j | 0 <= i < j < |s| - 1
          ensures s[1..][i] != s[1..][j]
        {
          assert s[1..][i] == s[i + 1] && s[1..][j] == s[j + 1];
        }
      }
      NoDuplicatesCount(s[1..], x);
      if s[0] == x {
        assert x !in s[1..] by {
          forall k | 0 <= k < |s| - 1
            ensures s[1..][k] != x
          {
            assert s[1..][k] == s[k + 1];
          }
        }
      }
    }
  }

  /** Dropping or reordering rows cannot create a duplicate. */
  lemma NoDuplicatesSubMultiset<T>(a: seq<T>, b: seq<T>)
    requires multiset(b) <= multiset(a) && NoDuplicates(a)
    ensures NoDuplicates(b)
  {
    forall i, j | 0 <= i < j < |b|
      ensures b[i] != b[j]
    {
      CountAtLeastTwo(b, i, j);
      NoDuplicatesCount(a, b[i]);
    }
  }

  /** Distinct keys stay distinct when rows are dropped or reordered. */
  lemma DistinctKeysSubMultiset<T>(a: seq<T>, b: seq<T>, key: T -> int)
    requires multiset(b) <= multiset(a)
    requires forall i, j :: 0 <= i < j < |a| ==> key(a[i]) != key(a[j])
    ensures forall i, j :: 0 <= i < j < |b| ==> key(b[i]) != key(b[j])
  {
    NoDuplicatesSubMultiset(a, b);
    forall i, j | 0 <= i < j < |b|
      ensures key(b[i]) != key(b[j])
    {
      assert b[i] in multiset(a) && b[j] in multiset(a);
      var p :| 0 <= p < |a| && a[p] == b[i];
      var q :| 0 <= q < |a| && a[q] == b[j];
      assert p != q;
      if p < q {
        assert key(a[p]) != key(a[q]);
      } else {
        assert key(a[q]) != key(a[p]);
      }
    }
  }

  /** A reordering holds the same rows. */
  lemma SameRows<T>(a: seq<T>, b: seq<T>)
    requires multiset(a) == multiset(b)
    ensures forall x :: x in a <==> x in b
    ensures |a| == |b|
  {
    forall x
      ensures x in a <==> x in b
    {
      assert x in a <==> x in multiset(a);
      assert x in b <==> x in multiset(b);
    }
    assert |a| == |multiset(a)|;
  }
}
