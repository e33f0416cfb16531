/** The name rule shared by the Food, FoodCategory and Allergen tables: a
    create is refused when the database finds the name already present, and
    a rename is refused likewise unless the new name differs from the old
    one only in letter case. `NamesUnique` is the invariant the rule keeps. */
module Catalog {
  import opened Text
  import opened Tables
  import opened Collation

  /** `AnyAsync(r => r.Name == n)`. */
  predicate NameTaken<T>(rows: seq<T>, name: T -> string, n: string) {
    exists i | 0 <= i < |rows| :: DbEquals(name(rows[i]), n)
  }

  /** No two rows carry names the database considers equal. */
  ghost predicate NamesUnique<T>(rows: seq<T>, name: T -> string) {
    forall i, j :: 0 <= i < j < |rows| ==> !DbEquals(name(rows[i]), name(rows[j]))
  }

  /** Inserting a row whose name is not taken keeps names unique. */
  lemma AppendKeepsNamesUnique<T>(rows: seq<T>, name: T -> string, x: T)
    requires NamesUnique(rows, name) && !NameTaken(rows, name, name(x))
    ensures NamesUnique(rows + [x], name)
  {
    var r := rows + [x];
    forall i, j | 0 <= i < j < |r| ensures !DbEquals(name(r[i]), name(r[j])) {
      if j == |rows| {
        DbEqualsFacts(name(r[i]), name(x), name(x));
      }
    }
  }

  /** A rename passing the rule keeps names unique. When the new name equals
      the old one to the database, no other row can hold it: that row's name
      would also equal the old name, which uniqueness excludes. */
  lemma RenameKeepsNamesUnique<T>(rows: seq<T>, key: T -> int, name: T -> string, id: int, x: T)
    requires NamesUnique(rows, name) && KeysUnique(rows, key)
    requires key(x) == id && Find(rows, key, id).Some?
    requires DbEquals(name(Find(rows, key, id).value), name(x)) || !NameTaken(rows, name, name(x))
    ensures NamesUnique(ReplaceKey(rows, key, id, x), name)
  {
    var old_ := Find(rows, key, id).value;
    var p :| 0 <= p < |rows| && rows[p] == old_;
    var r := ReplaceKey(rows, key, id, x);
    forall k | 0 <= k < |rows| && k != p ensures !DbEquals(name(rows[k]), name(x)) && !DbEquals(name(x), name(rows[k])) && key(rows[k]) != id {
      DbEqualsFacts(name(old_), name(x), name(rows[k]));
      DbEqualsFacts(name(x), name(rows[k]), name(rows[k]));
      DbEqualsFacts(name(rows[k]), name(old_), name(x));
      if p < k {
        assert !DbEquals(name(rows[p]), name(rows[k]));
      } else {
        assert !DbEquals(name(rows[k]), name(rows[p]));
      }
    }
    forall i, j | 0 <= i < j < |r| ensures !DbEquals(name(r[i]), name(r[j])) {
      if i == p {
        assert r[i] == x && r[j] == rows[j];
      } else if j == p {
        assert r[j] == x && r[i] == rows[i];
      } else {
        assert r[i] == rows[i] && r[j] == rows[j];
      }
    }
  }

  /** Removing rows keeps names unique. */
  lemma {:induction false} FilterKeepsNamesUnique<T(!new)>(rows: seq<T>, name: T -> string, p: T -> bool)
    requires NamesUnique(rows, name)
    ensures NamesUnique(Filter(rows, p), name)
    decreases |rows|
  {
    if |rows| > 0 {
      var tail := rows[1..];
      assert forall i :: 0 <= i < |tail| ==> tail[i] == rows[i + 1];
      FilterKeepsNamesUnique(tail, name, p);
      if p(rows[0]) {
        HeadApartFromRest(rows, name, p);
        ConsKeepsNamesUnique(rows[0], Filter(tail, p), name);
      }
    }
  }

  /** The first row's name is apart from every name kept from the others. */
  lemma HeadApartFromRest<T(!new)>(rows: seq<T>, name: T -> string, p: T -> bool)
    requires NamesUnique(rows, name) && |rows| > 0
    ensures forall x :: x in Filter(rows[1..], p) ==> !DbEquals(name(rows[0]), name(x))
  {
    forall x | x in Filter(rows[1..], p) ensures !DbEquals(name(rows[0]), name(x)) {
      assert x in rows[1..];
      var b :| 0 <= b < |rows| - 1 && rows[1..][b] == x;
      assert rows[b + 1] == x;
    }
  }

  /** A row apart from every name of a unique list keeps it unique in front. */
  lemma ConsKeepsNamesUnique<T>(x: T, rest: seq<T>, name: T -> string)
    requires NamesUnique(rest, name)
    requires forall y :: y in rest ==> !DbEquals(name(x), name(y))
    ensures NamesUnique([x] + rest, name)
  {
    var r := [x] + rest;
    forall i, j | 0 <= i < j < |r| ensures !DbEquals(name(r[i]), name(r[j])) {
      assert r[j] == rest[j - 1];
      if i > 0 {
        assert r[i] == rest[i - 1];
      } else {
        assert rest[j - 1] in rest;
      }
    }
  }

  /** Removing the row of one key keeps names unique. */
  lemma RemoveKeepsNamesUnique<T(!new)>(rows: seq<T>, key: T -> int, name: T -> string, id: int)
    requires NamesUnique(rows, name)
    ensures NamesUnique(RemoveKey(rows, key, id), name)
  {
    FilterKeepsNamesUnique(rows, name, x => key(x) != id);
  }
}
