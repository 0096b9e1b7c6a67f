/** SQLite compares TEXT values with the BINARY collation: byte-wise, with a
    proper prefix ordering first. On Unicode scalar values UTF-8 preserves
    code-point order, so comparing `char`s one by one gives the same order. */
module Text {

  /** `a` sorts strictly before `b`. */
  predicate TextLt(a: string, b: string)
    decreases |a|
  {
    if |a| == 0 then |b| > 0
    else if |b| == 0 then false
    else if a[0] != b[0] then a[0] < b[0]
    else TextLt(a[1..], b[1..])
  }

  /** The BINARY collation as SQLite computes it: `memcmp` over the shorter
      length decides at the first differing character; when that finds no
      difference, the shorter string comes first. */
  predicate MemcmpLt(a: string, b: string) {
    || (exists k :: 0 <= k < |a| && k < |b| && a[..k] == b[..k] && a[k] < b[k])
    || (|a| < |b| && a == b[..|a|])
  }

  /** `TextLt` is exactly the `memcmp`-then-length comparison. */
  lemma {:induction false} TextLtIsMemcmp(a: string, b: string)
    ensures TextLt(a, b) <==> MemcmpLt(a, b)
    decreases |a|
  {
    if |a| == 0 {
      assert a == b[..0];
    } else if |b| == 0 {
    } else if a[0] != b[0] {
      if a[0] < b[0] {
        assert a[..0] == b[..0];
      }
    } else {
      var a', b' := a[1..], b[1..];
      TextLtIsMemcmp(a', b');
      if MemcmpLt(a', b') {
        if k :| 0 <= k < |a'| && k < |b'| && a'[..k] == b'[..k] && a'[k] < b'[k] {
          assert a[..k + 1] == [a[0]] + a'[..k] && b[..k + 1] == [b[0]] + b'[..k];
          assert a[k + 1] == a'[k] && b[k + 1] == b'[k];
        } else {
          assert a == [a[0]] + a' && b[..|a|] == [b[0]] + b'[..|a'|];
        }
      }
      if MemcmpLt(a, b) {
        if k :| 0 <= k < |a| && k < |b| && a[..k] == b[..k] && a[k] < b[k] {
          assert k > 0;
          assert a'[..k - 1] == a[..k][1..] && b'[..k - 1] == b[..k][1..];
          assert a'[k - 1] == a[k] && b'[k - 1] == b[k];
        } else {
          assert a' == a[1..] && b'[..|a'|] == b[..|a|][1..];
        }
      }
    }
  }

  predicate TextLe(a: string, b: string) {
    a == b || TextLt(a, b)
  }

  lemma {:induction false} TextLtIrreflexive(a: string)
    ensures !TextLt(a, a)
    decreases |a|
  {
    if |a| > 0 {
      TextLtIrreflexive(a[1..]);
    }
  }

  lemma {:induction false} TextLtAsymmetric(a: string, b: string)
    ensures TextLt(a, b) ==> !TextLt(b, a)
    decreases |a|
  {
    if |a| > 0 && |b| > 0 && a[0] == b[0] {
      TextLtAsymmetric(a[1..], b[1..]);
    }
  }

  lemma {:induction false} TextLtTransitive(a: string, b: string, c: string)
    requires TextLt(a, b) && TextLt(b, c)
    ensures TextLt(a, c)
    decreases |a|
  {
    if |a| > 0 && a[0] == b[0] && b[0] == c[0] {
      TextLtTransitive(a[1..], b[1..], c[1..]);
    }
  }

  /** Any two distinct strings are ordered one way or the other. */
  lemma {:induction false} TextLtTotal(a: string, b: string)
    requires a != b
    ensures TextLt(a, b) || TextLt(b, a)
    decreases |a|
  {
    if |a| > 0 && |b| > 0 && a[0] == b[0] {
      assert a == [a[0]] + a[1..] && b == [b[0]] + b[1..];
      TextLtTotal(a[1..], b[1..]);
    }
  }

  /** Comparing two strings that start with pieces of equal length compares
      those pieces first and the remainders only on a tie. */
  lemma {:induction false} ConcatLt(p: string, x: string, q: string, y: string)
    requires |p| == |q|
    ensures TextLt(p + x, q + y) <==> TextLt(p, q) || (p == q && TextLt(x, y))
    decreases |p|
  {
    if |p| == 0 {
      assert p + x == x && q + y == y;
      TextLtIrreflexive(p);
    } else {
      assert (p + x)[0] == p[0] && (q + y)[0] == q[0];
      assert (p + x)[1..] == p[1..] + x && (q + y)[1..] == q[1..] + y;
      ConcatLt(p[1..], x, q[1..], y);
      if p[0] == q[0] {
        assert p == [p[0]] + p[1..] && q == [q[0]] + q[1..];
        assert p == q <==> p[1..] == q[1..];
      }
    }
  }

  /** A string against a longer one whose head has the same length. */
  lemma PrefixAgainst(p: string, q: string, y: string)
    requires |p| == |q| && |y| > 0
    ensures TextLt(p, q + y) <==> TextLt(p, q) || p == q
    ensures TextLt(q + y, p) <==> TextLt(q, p)
  {
    assert p + [] == p;
    ConcatLt(p, [], q, y);
    ConcatLt(q, y, p, []);
  }

  /** `a <= b` exactly when `b < a` fails: TEXT order is total. */
  lemma TextLeNotGreater(a: string, b: string)
    ensures TextLe(a, b) <==> !TextLt(b, a)
  {
    TextLtAsymmetric(a, b);
    TextLtIrreflexive(a);
    if a != b {
      TextLtTotal(a, b);
    }
  }
}
