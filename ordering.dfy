/** Ordering, sorting and paging of query results: what `OrderBy`,
    `ThenBy`, `OrderByDescending`, `Skip` and `Take` do to a table. Every
    ordering the controllers use is expressed as a `SortKey` (a text part
    compared ordinally, then a number), so one sort and one set of lemmas
    serve them all. */
module Ordering {

  /** Ordinal (char-code) comparison of two strings: `a` sorts at or before `b`. */
  predicate LexLe(a: string, b: string)
    decreases |a|
  {
    if |a| == 0 then true
    else if |b| == 0 then false
    else if a[0] != b[0] then a[0] < b[0]
    else LexLe(a[1..], b[1..])
  }

  lemma {:induction false} LexLeTotal(a: string, b: string)
    ensures LexLe(a, b) || LexLe(b, a)
    decreases |a|
  {
    if |a| > 0 && |b| > 0 && a[0] == b[0] {
      LexLeTotal(a[1..], b[1..]);
    }
  }

  lemma {:induction false} LexLeTransitive(a: string, b: string, c: string)
    requires LexLe(a, b) && LexLe(b, c)
    ensures LexLe(a, c)
    decreases |a|
  {
    if |a| > 0 && |b| > 0 && |c| > 0 && a[0] == b[0] && b[0] == c[0] {
      LexLeTransitive(a[1..], b[1..], c[1..]);
    }
  }

  lemma {:induction false} LexLeAntisymmetric(a: string, b: string)
    requires LexLe(a, b) && LexLe(b, a)
    ensures a == b
    decreases |a|
  {
    if |a| > 0 && |b| > 0 {
      LexLeAntisymmetric(a[1..], b[1..]);
      assert a == [a[0]] + a[1..] && b == [b[0]] + b[1..];
    }
  }

  /** The key a query orders by: `text` first (ordinal), then `number`.
      A descending order on a number uses its negation. */
  datatype SortKey = SortKey(text: string, number: int)

  predicate KeyLe(a: SortKey, b: SortKey) {
    if a.text == b.text then a.number <= b.number else LexLe(a.text, b.text)
  }

  lemma KeyLeTotal(a: SortKey, b: SortKey)
    ensures KeyLe(a, b) || KeyLe(b, a)
  {
    LexLeTotal(a.text, b.text);
  }

  lemma KeyLeTransitive(a: SortKey, b: SortKey, c: SortKey)
    requires KeyLe(a, b) && KeyLe(b, c)
    ensures KeyLe(a, c)
  {
    if a.text != b.text && b.text != c.text {
      LexLeTransitive(a.text, b.text, c.text);
      if a.text == c.text {
        LexLeAntisymmetric(a.text, b.text);
      }
    }
  }

  /** Equal keys in both directions are the same key. */
  lemma KeyLeAntisymmetric(a: SortKey, b: SortKey)
    requires KeyLe(a, b) && KeyLe(b, a)
    ensures a == b
  {
    if a.text != b.text {
      LexLeAntisymmetric(a.text, b.text);
    }
  }

  /** Every pair of elements is in key order. */
  ghost predicate SortedByKey<T>(s: seq<T>, key: T -> SortKey) {
    forall i, j :: 0 <= i < j < |s| ==> KeyLe(key(s[i]), key(s[j]))
  }

  function InsertByKey<T>(x: T, s: seq<T>, key: T -> SortKey): (r: seq<T>)
    ensures |r| == |s| + 1
    ensures multiset(r) == multiset(s) + multiset{x}
  {
    if s == [] then [x]
    else if KeyLe(key(x), key(s[0])) then [x] + s
    else
      assert s == [s[0]] + s[1..];
      [s[0]] + InsertByKey(x, s[1..], key)
  }

  /** Insertion sort by key: the in-memory meaning of `OrderBy(key)`. */
  function SortByKey<T>(s: seq<T>, key: T -> SortKey): (r: seq<T>)
    ensures |r| == |s|
    ensures multiset(r) == multiset(s)
  {
    if s == [] then []
    else
      assert s == [s[0]] + s[1..];
      InsertByKey(s[0], SortByKey(s[1..], key), key)
  }

  lemma {:induction false} InsertByKeySorted<T>(x: T, s: seq<T>, key: T -> SortKey)
    requires SortedByKey(s, key)
    ensures SortedByKey(InsertByKey(x, s, key), key)
    decreases |s|
  {
    var r := InsertByKey(x, s, key);
    if s == [] {
    } else if KeyLe(key(x), key(s[0])) {
      forall i, j | 0 <= i < j < |r| ensures KeyLe(key(r[i]), key(r[j])) {
        if i == 0 {
          if j > 1 { KeyLeTransitive(key(x), key(s[0]), key(s[j - 1])); }
        } else {
          assert r[i] == s[i - 1] && r[j] == s[j - 1];
        }
      }
    } else {
      KeyLeTotal(key(x), key(s[0]));
      var rest := InsertByKey(x, s[1..], key);
      InsertByKeySorted(x, s[1..], key);
      assert r == [s[0]] + rest;
      forall i, j | 0 <= i < j < |r| ensures KeyLe(key(r[i]), key(r[j])) {
        if i == 0 {
          var y := rest[j - 1];
          assert y in multiset(rest);
          assert y in multiset(s[1..]) || y == x;
          if y != x {
            var k :| 0 <= k < |s[1..]| && s[1..][k] == y;
            assert s[k + 1] == y;
          }
        } else {
          assert r[i] == rest[i - 1] && r[j] == rest[j - 1];
        }
      }
    }
  }

  /** `SortByKey` puts the table in key order. */
  lemma {:induction false} SortByKeySorted<T>(s: seq<T>, key: T -> SortKey)
    ensures SortedByKey(SortByKey(s, key), key)
    decreases |s|
  {
    if s != [] {
      SortByKeySorted(s[1..], key);
      InsertByKeySorted(s[0], SortByKey(s[1..], key), key);
    }
  }

  /** No element occurs twice. */
  predicate Distinct<T(==)>(s: seq<T>) {
    forall i, j :: 0 <= i < j < |s| ==> s[i] != s[j]
  }

  lemma DistinctByMultiset<T>(s: seq<T>)
    ensures Distinct(s) <==> forall x :: multiset(s)[x] <= 1
  {
    if Distinct(s) {
      forall x ensures multiset(s)[x] <= 1 {
        DistinctCount(s, x);
      }
    }
    if !Distinct(s) {
      var i, j :| 0 <= i < j < |s| && s[i] == s[j];
      assert s == s[..j] + [s[j]] + s[j + 1..];
      assert s[i] in multiset(s[..j]);
      assert multiset(s)[s[i]] >= 2;
    }
  }

  lemma {:induction false} DistinctCount<T>(s: seq<T>, x: T)
    requires Distinct(s)
    ensures multiset(s)[x] <= 1
    decreases |s|
  {
    if s != [] {
      assert s == [s[0]] + s[1..];
      DistinctCount(s[1..], x);
      if s[0] == x {
        assert x !in s[1..];
      }
    }
  }

  /** The set of elements of a sequence. */
  ghost function Elements<T>(s: seq<T>): set<T> {
    set x | x in s
  }

  /** A sequence has at most as many distinct elements as entries, and
      exactly as many when no element repeats. */
  lemma {:induction false} DistinctCardinality<T>(s: seq<T>)
    ensures |Elements(s)| <= |s|
    ensures |Elements(s)| == |s| <==> Distinct(s)
    decreases |s|
  {
    if s != [] {
      var rest := s[1..];
      DistinctCardinality(rest);
      assert Elements(s) == {s[0]} + Elements(rest) by {
        assert s == [s[0]] + rest;
      }
      if s[0] in rest {
        assert Elements(s) == Elements(rest);
        var j :| 0 <= j < |rest| && rest[j] == s[0];
        assert s[j + 1] == s[0];
      } else {
        assert s[0] !in Elements(rest);
        assert Distinct(s) <==> Distinct(rest) by {
          if Distinct(rest) {
            forall i, j | 0 <= i < j < |s| ensures s[i] != s[j] {
              if i == 0 { assert s[j] == rest[j - 1]; } else { assert s[i] == rest[i - 1] && s[j] == rest[j - 1]; }
            }
          }
          if Distinct(s) {
            forall i, j | 0 <= i < j < |rest| ensures rest[i] != rest[j] {
              assert rest[i] == s[i + 1] && rest[j] == s[j + 1];
            }
          }
        }
      }
    }
  }

  /** A subset is no larger than its superset, and one of the same size is
      the superset itself. */
  lemma {:induction false} SubsetCardinality<T>(a: set<T>, b: set<T>)
    requires a <= b
    ensures |a| <= |b|
    ensures |a| == |b| ==> a == b
    decreases |b|
  {
    if b != {} {
      var x :| x in b;
      SubsetCardinality(a - {x}, b - {x});
      if x in a {
        assert |a - {x}| == |a| - 1;
        assert a == (a - {x}) + {x} && b == (b - {x}) + {x};
      } else {
        assert a - {x} == a;
      }
    }
  }

  /** Sorting keeps a table free of duplicates. */
  lemma SortKeepsDistinct<T>(s: seq<T>, key: T -> SortKey)
    requires Distinct(s)
    ensures Distinct(SortByKey(s, key))
  {
    DistinctByMultiset(s);
    DistinctByMultiset(SortByKey(s, key));
  }

  /** `Skip(n)`: a non-positive count skips nothing. */
  function Skip<T>(s: seq<T>, n: int): (r: seq<T>)
    ensures n <= 0 ==> r == s
    ensures 0 <= n <= |s| ==> r == s[n..]
    ensures n >= |s| ==> r == []
  {
    if n <= 0 then s else if n >= |s| then [] else s[n..]
  }

  /** `Take(n)`: a non-positive count takes nothing. */
  function Take<T>(s: seq<T>, n: int): (r: seq<T>)
    ensures n <= 0 ==> r == []
    ensures 0 <= n <= |s| ==> r == s[..n]
    ensures n >= |s| ==> r == s
  {
    if n <= 0 then [] else if n >= |s| then s else s[..n]
  }

  /** A page of at most `size` elements starting at `offset`. */
  function Slice<T>(s: seq<T>, offset: int, size: int): (r: seq<T>)
    ensures |r| <= if size < 0 then 0 else size
    ensures |r| <= |s|
    ensures 0 <= offset ==> forall k :: 0 <= k < |r| ==> offset + k < |s| && r[k] == s[offset + k]
  {
    Take(Skip(s, offset), size)
  }

  /** Two slices whose ranges do not overlap share no element of a
      duplicate-free sequence. */
  lemma SlicesDisjoint<T>(s: seq<T>, o1: int, o2: int, size: int, x: T)
    requires Distinct(s) && 0 <= o1 && o1 + size <= o2
    requires x in Slice(s, o1, size)
    ensures x !in Slice(s, o2, size)
  {
    var a := Slice(s, o1, size);
    var b := Slice(s, o2, size);
    var k :| 0 <= k < |a| && a[k] == x;
    assert s[o1 + k] == x;
  }

  lemma PageEndsBeforeNext(p: nat, q: nat, size: int)
    requires p < q && size >= 1
    ensures p * size + size <= q * size
  {
    var d := q - p - 1;
    assert q * size == p * size + size + d * size;
    assert d * size >= 0;
  }

  /** The elements before `o`, then the slice at `o`, are the elements before `o + size`. */
  lemma TakeThenSlice<T>(s: seq<T>, o: int, size: int)
    requires 0 <= o && 1 <= size
    ensures Take(s, o) + Slice(s, o, size) == Take(s, o + size)
  {
    if o >= |s| {
      assert Slice(s, o, size) == [];
    } else if o + size >= |s| {
      assert s[..o] + s[o..] == s;
    } else {
      assert s[..o] + s[o..][..size] == s[..o + size];
    }
  }

  /** Concatenating the first `n` pages gives the first `n * size` elements,
      so the pages together cover the whole sequence. */
  lemma {:induction false} PagesCover<T>(s: seq<T>, size: int, n: nat)
    requires size >= 1
    ensures Take(s, n * size) == Pages(s, size, n)
    decreases n
  {
    if n > 0 {
      PagesCover(s, size, n - 1);
      var start := (n - 1) * size;
      NextPageStart(n, size);
      TakeThenSlice(s, start, size);
      assert Take(s, n * size) == Take(s, start) + Slice(s, start, size);
    }
  }

  lemma NextPageStart(n: nat, size: int)
    requires n >= 1 && size >= 1
    ensures (n - 1) * size >= 0 && n * size == (n - 1) * size + size
  {
  }

  /** The first `n` pages, concatenated. */
  function Pages<T>(s: seq<T>, size: int, n: nat): seq<T>
    requires size >= 1
  {
    if n == 0 then [] else Pages(s, size, n - 1) + Slice(s, (n - 1) * size, size)
  }
}
