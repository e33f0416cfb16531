/** Queries over a table held as a sequence of rows, each row having an
    integer key: the in-memory meaning of `FindAsync(id)`,
    `FirstOrDefault(pred)`, `AnyAsync(pred)`, `Where(pred)` and `Remove`. */
module Tables {
  import opened Wrappers

  /** Every key is a positive id below `bound` (ids handed out so far). */
  ghost predicate KeysBelow<T>(rows: seq<T>, key: T -> int, bound: int) {
    forall i :: 0 <= i < |rows| ==> 1 <= key(rows[i]) < bound
  }

  /** No two rows share a key. */
  ghost predicate KeysUnique<T>(rows: seq<T>, key: T -> int) {
    forall i, j :: 0 <= i < j < |rows| ==> key(rows[i]) != key(rows[j])
  }

  /** A table whose keys are unique and below `bound`. */
  ghost predicate WellKeyed<T>(rows: seq<T>, key: T -> int, bound: int) {
    KeysBelow(rows, key, bound) && KeysUnique(rows, key)
  }

  /** `Any(pred)`. */
  predicate Any<T>(rows: seq<T>, p: T -> bool) {
    exists i | 0 <= i < |rows| :: p(rows[i])
  }

  /** `FirstOrDefault(pred)`: the first row satisfying `p`, or none. */
  function First<T>(rows: seq<T>, p: T -> bool): (r: Option<T>)
    ensures r.Some? <==> Any(rows, p)
    ensures r.Some? ==> r.value in rows && p(r.value)
    ensures r.Some? && |rows| > 0 && p(rows[0]) ==> r.value == rows[0]
  {
    if |rows| == 0 then None
    else if p(rows[0]) then Some(rows[0])
    else
      var r := First(rows[1..], p);
      assert Any(rows, p) ==> Any(rows[1..], p) by {
        if Any(rows, p) {
          var i :| 0 <= i < |rows| && p(rows[i]);
          assert rows[1..][i - 1] == rows[i];
        }
      }
      r
  }

  /** `FindAsync(id)`: the row with key `id`, or none. */
  function Find<T>(rows: seq<T>, key: T -> int, id: int): (r: Option<T>)
    ensures r.None? <==> forall i :: 0 <= i < |rows| ==> key(rows[i]) != id
    ensures r.Some? ==> r.value in rows && key(r.value) == id
  {
    First(rows, x => key(x) == id)
  }

  /** With unique keys, the row `Find` returns is the one row with that key. */
  lemma FindUnique<T>(rows: seq<T>, key: T -> int, i: int)
    requires KeysUnique(rows, key) && 0 <= i < |rows|
    ensures Find(rows, key, key(rows[i])) == Some(rows[i])
  {
    var r := Find(rows, key, key(rows[i]));
    var j :| 0 <= j < |rows| && rows[j] == r.value;
    assert key(rows[j]) == key(rows[i]);
  }

  /** `Where(pred)`: the rows satisfying `p`, in their original order. */
  function Filter<T(!new)>(rows: seq<T>, p: T -> bool): (r: seq<T>)
    ensures |r| <= |rows|
    ensures forall x :: multiset(r)[x] == if p(x) then multiset(rows)[x] else 0
    ensures forall x :: x in r <==> x in rows && p(x)
  {
    if |rows| == 0 then []
    else
      assert rows == [rows[0]] + rows[1..];
      var rest := Filter(rows[1..], p);
      if p(rows[0]) then [rows[0]] + rest else rest
  }

  /** A table with the row of key `id` (if any) removed: `Remove(entity)`. */
  function RemoveKey<T(!new)>(rows: seq<T>, key: T -> int, id: int): (r: seq<T>)
    ensures forall x :: x in r <==> x in rows && key(x) != id
  {
    Filter(rows, x => key(x) != id)
  }

  /** A table with every row of key `id` replaced by `x`, order kept: an
      update of a tracked entity followed by `SaveChanges`. */
  function ReplaceKey<T>(rows: seq<T>, key: T -> int, id: int, x: T): (r: seq<T>)
    ensures |r| == |rows|
    ensures forall i :: 0 <= i < |rows| ==> r[i] == if key(rows[i]) == id then x else rows[i]
  {
    seq(|rows|, i requires 0 <= i < |rows| => if key(rows[i]) == id then x else rows[i])
  }

  /** Removing a key keeps the table well keyed and leaves no row with that key. */
  lemma RemoveKeyWellKeyed<T(!new)>(rows: seq<T>, key: T -> int, bound: int, id: int)
    requires WellKeyed(rows, key, bound)
    ensures WellKeyed(RemoveKey(rows, key, id), key, bound)
    ensures Find(RemoveKey(rows, key, id), key, id).None?
    ensures |RemoveKey(rows, key, id)| == |rows| - (if Find(rows, key, id).Some? then 1 else 0)
  {
    FilterWellKeyed(rows, key, bound, x => key(x) != id);
    var r := RemoveKey(rows, key, id);
    assert forall i :: 0 <= i < |r| ==> r[i] in r;
    if Find(rows, key, id).Some? {
      var i :| 0 <= i < |rows| && key(rows[i]) == id;
      RemoveOneOfUnique(rows, key, i);
    } else {
      FilterKeepsAll(rows, x => key(x) != id);
    }
  }

  /** `Filter` keeps every row when every row satisfies the predicate. */
  lemma {:induction false} FilterKeepsAll<T(!new)>(rows: seq<T>, p: T -> bool)
    requires forall i :: 0 <= i < |rows| ==> p(rows[i])
    ensures Filter(rows, p) == rows
    decreases |rows|
  {
    if |rows| > 0 {
      FilterKeepsAll(rows[1..], p);
    }
  }

  /** Removing the key of row `i` of a uniquely keyed table removes exactly one row. */
  lemma {:induction false} RemoveOneOfUnique<T(!new)>(rows: seq<T>, key: T -> int, i: int)
    requires KeysUnique(rows, key) && 0 <= i < |rows|
    ensures |RemoveKey(rows, key, key(rows[i]))| == |rows| - 1
    decreases |rows|
  {
    var id := key(rows[i]);
    if i == 0 {
      assert forall j :: 0 <= j < |rows[1..]| ==> key(rows[1..][j]) != id by {
        forall j | 0 <= j < |rows[1..]| ensures key(rows[1..][j]) != id {
          assert rows[1..][j] == rows[j + 1];
        }
      }
      FilterKeepsAll(rows[1..], x => key(x) != id);
    } else {
      assert rows[1..][i - 1] == rows[i];
      RemoveOneOfUnique(rows[1..], key, i - 1);
    }
  }

  /** A filtered table is as well keyed as the table. */
  lemma FilterWellKeyed<T(!new)>(rows: seq<T>, key: T -> int, bound: int, p: T -> bool)
    requires WellKeyed(rows, key, bound)
    ensures WellKeyed(Filter(rows, p), key, bound)
  {
    var r := Filter(rows, p);
    forall i | 0 <= i < |r| ensures 1 <= key(r[i]) < bound {
      assert r[i] in r;
      var k :| 0 <= k < |rows| && rows[k] == r[i];
    }
    FilterKeysUnique(rows, key, p);
  }

  lemma {:induction false} FilterKeysUnique<T(!new)>(rows: seq<T>, key: T -> int, p: T -> bool)
    requires KeysUnique(rows, key)
    ensures KeysUnique(Filter(rows, p), key)
    decreases |rows|
  {
    if |rows| > 0 {
      var tail := rows[1..];
      assert forall i :: 0 <= i < |tail| ==> tail[i] == rows[i + 1];
      FilterKeysUnique(tail, key, p);
      var rest := Filter(tail, p);
      if p(rows[0]) {
        var r := [rows[0]] + rest;
        forall j | 0 <= j < |rest| ensures key(rest[j]) != key(rows[0]) {
          assert rest[j] in tail;
          var b :| 0 <= b < |tail| && tail[b] == rest[j];
        }
        forall i, j | 0 <= i < j < |r| ensures key(r[i]) != key(r[j]) {
          assert r[j] == rest[j - 1];
          if i > 0 { assert r[i] == rest[i - 1]; }
        }
      }
    }
  }

  /** Appending a row with a fresh key (the current `bound`) keeps the table
      well keyed under the advanced bound. */
  lemma AppendWellKeyed<T>(rows: seq<T>, key: T -> int, bound: int, x: T)
    requires WellKeyed(rows, key, bound) && key(x) == bound && bound >= 1
    ensures WellKeyed(rows + [x], key, bound + 1)
    ensures Find(rows, key, key(x)).None?
  {
  }

  /** Replacing the row of key `id` by a row with the same key keeps the table well keyed. */
  lemma ReplaceWellKeyed<T>(rows: seq<T>, key: T -> int, bound: int, id: int, x: T)
    requires WellKeyed(rows, key, bound) && key(x) == id
    requires Find(rows, key, id).Some?
    ensures WellKeyed(ReplaceKey(rows, key, id, x), key, bound)
  {
  }

  /** Filtering by two predicates that agree on every row gives the same rows. */
  lemma {:induction false} FilterSamePredicate<T(!new)>(rows: seq<T>, p: T -> bool, q: T -> bool)
    requires forall i :: 0 <= i < |rows| ==> p(rows[i]) == q(rows[i])
    ensures Filter(rows, p) == Filter(rows, q)
    decreases |rows|
  {
    if |rows| > 0 {
      FilterSamePredicate(rows[1..], p, q);
    }
  }

  /** Appending a row the predicate rejects does not change the filtered rows. */
  lemma {:induction false} FilterAppendRejected<T(!new)>(rows: seq<T>, p: T -> bool, x: T)
    requires !p(x)
    ensures Filter(rows + [x], p) == Filter(rows, p)
    decreases |rows|
  {
    if |rows| == 0 {
      assert rows + [x] == [x];
    } else {
      assert (rows + [x])[1..] == rows[1..] + [x];
      FilterAppendRejected(rows[1..], p, x);
    }
  }

  /** A key present in the table. */
  predicate HasKey<T>(rows: seq<T>, key: T -> int, id: int) {
    exists i | 0 <= i < |rows| :: key(rows[i]) == id
  }

  /** `Where(r => ids.Contains(key(r))).Select(key)`: the keys of the rows
      whose key is listed, in table order. */
  function KeysIn<T>(rows: seq<T>, key: T -> int, ids: seq<int>): (r: seq<int>)
    ensures |r| <= |rows|
    ensures forall x :: x in r <==> x in ids && HasKey(rows, key, x)
    decreases |rows|
  {
    if |rows| == 0 then []
    else
      var rest := KeysIn(rows[1..], key, ids);
      assert forall x :: HasKey(rows, key, x) <==> key(rows[0]) == x || HasKey(rows[1..], key, x) by {
        forall x ensures HasKey(rows, key, x) ==> key(rows[0]) == x || HasKey(rows[1..], key, x) {
          if HasKey(rows, key, x) && key(rows[0]) != x {
            var i :| 0 <= i < |rows| && key(rows[i]) == x;
            assert key(rows[1..][i - 1]) == x;
          }
        }
        forall x ensures HasKey(rows[1..], key, x) ==> HasKey(rows, key, x) {
          if HasKey(rows[1..], key, x) {
            var i :| 0 <= i < |rows[1..]| && key(rows[1..][i]) == x;
            assert key(rows[i + 1]) == x;
          }
        }
      }
      (if key(rows[0]) in ids then [key(rows[0])] else []) + rest
  }

  /** `HasKey` is `Find` succeeding. */
  lemma HasKeyIsFind<T>(rows: seq<T>, key: T -> int, id: int)
    ensures HasKey(rows, key, id) <==> Find(rows, key, id).Some?
  {
  }

  /** With unique keys the selected keys are pairwise different. */
  lemma {:induction false} KeysInUnique<T>(rows: seq<T>, key: T -> int, ids: seq<int>)
    requires KeysUnique(rows, key)
    ensures forall i, j :: 0 <= i < j < |KeysIn(rows, key, ids)| ==> KeysIn(rows, key, ids)[i] != KeysIn(rows, key, ids)[j]
    decreases |rows|
  {
    if |rows| > 0 {
      var rest := KeysIn(rows[1..], key, ids);
      assert KeysUnique(rows[1..], key) by {
        forall i, j | 0 <= i < j < |rows[1..]| ensures key(rows[1..][i]) != key(rows[1..][j]) {
          assert rows[1..][i] == rows[i + 1] && rows[1..][j] == rows[j + 1];
        }
      }
      KeysInUnique(rows[1..], key, ids);
      if key(rows[0]) in ids {
        assert !HasKey(rows[1..], key, key(rows[0])) by {
          forall i | 0 <= i < |rows[1..]| ensures key(rows[1..][i]) != key(rows[0]) {
            assert rows[1..][i] == rows[i + 1];
          }
        }
        assert key(rows[0]) !in rest;
        var r := [key(rows[0])] + rest;
        forall i, j | 0 <= i < j < |r| ensures r[i] != r[j] {
          if i == 0 {
            assert r[j] == rest[j - 1];
          } else {
            assert r[i] == rest[i - 1] && r[j] == rest[j - 1];
          }
        }
      }
    }
  }

  /** Raising the bound keeps a table well keyed. */
  lemma WellKeyedRaise<T>(rows: seq<T>, key: T -> int, bound: int)
    requires WellKeyed(rows, key, bound)
    ensures WellKeyed(rows, key, bound + 1)
  {
  }
}
