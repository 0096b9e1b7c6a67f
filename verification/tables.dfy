/** Reading a whole table. */
module Tables {
  import opened Wrappers
  import opened Sorting

  /** `LEFT JOIN ... ON key = id`: the joined row's name, or NULL when the
      key is NULL or matches no row. */
  function JoinedName<V>(table: map<int, V>, key: Option<int>, name: V -> string): (r: Option<string>)
    ensures r.Some? <==> key.Some? && key.value in table
    ensures r.Some? ==> r.value == name(table[key.value])
  {
    if key.Some? && key.value in table then Some(name(table[key.value])) else None
  }

  /** A set without members is empty. */
  lemma EmptyIfNoMember(s: set<int>)
    ensures (forall x :: x !in s) ==> s == {}
  {
    if forall x :: x !in s {
      assert s == {};
    }
  }

  /** A scan of a table: every key once, in an order nothing promises. */
  method TableIds<V>(m: map<int, V>) returns (ids: seq<int>)
    ensures forall k :: k in ids <==> k in m
    ensures NoDuplicates(ids)
    ensures |ids| == |m|
  {
    var remaining := m.Keys;
    ids := [];
    while remaining != {}
      invariant remaining <= m.Keys
      invariant forall k :: k in m <==> k in ids || k in remaining
      invariant forall k :: k in ids ==> k !in remaining
      invariant NoDuplicates(ids)
      invariant |ids| + |remaining| == |m|
      decreases |remaining|
    {
      EmptyIfNoMember(remaining);
      var k :| k in remaining;
      ids := ids + [k];
      remaining := remaining - {k};
    }
  }
}
