/** The two query shapes the data-access layer uses on a table keyed by a positive id
    below an allocation bound: `filter(...).all()` and `filter(...).first()`. Rows come
    back in ascending id order, one admissible order for a query without ORDER BY. */
module Query {
  import opened Results

  /** The keys in `[1, bound)` whose row satisfies `p`, in ascending order. */
  function Select<T>(table: map<int, T>, p: T -> bool, bound: int): (ids: seq<int>)
    ensures forall k :: k in ids <==> k in table && 1 <= k < bound && p(table[k])
    ensures forall i, j :: 0 <= i < j < |ids| ==> ids[i] < ids[j]
    ensures |ids| == 0 <==> forall k :: k in table && 1 <= k < bound ==> !p(table[k])
    decreases bound
  {
    if bound <= 1 then []
    else
      var prefix := Select(table, p, bound - 1);
      assert forall i :: 0 <= i < |prefix| ==> prefix[i] in prefix && prefix[i] < bound - 1;
      if bound - 1 in table && p(table[bound - 1]) then
        var ids := prefix + [bound - 1];
        assert ids[|prefix|] == bound - 1;
        ids
      else prefix
  }

  /** Every row of `table` stores its own key, read through `key`. */
  ghost predicate KeyedBy<T>(table: map<int, T>, key: T -> int)
  {
    forall k :: k in table ==> key(table[k]) == k
  }

  /** `filter(p).all()`: exactly the rows below `bound` that satisfy `p`, in ascending key order. */
  function Where<T(!new)>(table: map<int, T>, key: T -> int, p: T -> bool, bound: int): (rows: seq<T>)
    requires KeyedBy(table, key)
    ensures forall x :: x in rows <==> key(x) in table && table[key(x)] == x && 1 <= key(x) < bound && p(x)
    ensures forall i, j :: 0 <= i < j < |rows| ==> key(rows[i]) < key(rows[j])
    ensures |rows| == 0 <==> forall k :: k in table && 1 <= k < bound ==> !p(table[k])
  {
    var ids := Select(table, p, bound);
    var rows := seq(|ids|, i requires 0 <= i < |ids| => table[ids[i]]);
    assert forall i :: 0 <= i < |ids| ==> key(rows[i]) == ids[i];
    forall x | key(x) in table && table[key(x)] == x && 1 <= key(x) < bound && p(x)
      ensures x in rows
    {
      assert key(x) in ids;
      var i :| 0 <= i < |ids| && ids[i] == key(x);
      assert rows[i] == x;
    }
    rows
  }

  /** `filter(p).first()`: the key of the lowest-keyed row below `bound` satisfying `p`. */
  function First<T>(table: map<int, T>, p: T -> bool, bound: int): (r: Option<int>)
    ensures r.Some? ==> r.value in table && 1 <= r.value < bound && p(table[r.value])
    ensures r.Some? ==> forall k :: k in table && 1 <= k < r.value && p(table[k]) ==> false
    ensures r.None? <==> forall k :: k in table && 1 <= k < bound ==> !p(table[k])
  {
    var ids := Select(table, p, bound);
    if ids == [] then None
    else
      assert ids[0] in ids;
      Some(ids[0])
  }
}
