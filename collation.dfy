/** How the database compares text inside a query. An `==` or a `LIKE`
    in a LINQ query is evaluated by SQL Server under the column collation;
    the model takes SQL Server's default, case-insensitive collation, with
    case folding on ASCII letters. SQL Server's `=` pads the shorter operand
    with spaces, so trailing spaces never tell two values apart; `LIKE`
    keeps them. */
module Collation {
  import opened Text

  function Fold(s: string): (r: string)
    ensures |r| == |s| && forall i :: 0 <= i < |s| ==> r[i] == ToUpperAscii(s[i])
  {
    seq(|s|, i requires 0 <= i < |s| => ToUpperAscii(s[i]))
  }

  /** `s` without its trailing spaces (U+0020 only). */
  function Unpadded(s: string): (r: string)
    ensures r <= s && (r == [] || r[|r| - 1] != ' ')
    ensures forall i :: |r| <= i < |s| ==> s[i] == ' '
    decreases |s|
  {
    if |s| > 0 && s[|s| - 1] == ' ' then Unpadded(s[..|s| - 1]) else s
  }

  /** `a == b` inside a query. */
  predicate DbEquals(a: string, b: string) {
    Fold(Unpadded(a)) == Fold(Unpadded(b))
  }

  /** `EF.Functions.Like(s, "%" + pattern + "%")`; '%', '_' and '[' inside
      the pattern are taken literally. */
  predicate DbContains(s: string, pattern: string) {
    Contains(Fold(s), Fold(pattern))
  }

  /** Two values that agree up to letter case end in the same number of
      spaces, since folding maps only letters. */
  lemma {:induction false} UnpaddedIgnoresCase(a: string, b: string)
    requires EqualsIgnoreCase(a, b)
    ensures EqualsIgnoreCase(Unpadded(a), Unpadded(b))
    decreases |a|
  {
    if |a| > 0 {
      var n := |a| - 1;
      assert ToUpperAscii(a[n]) == ToUpperAscii(b[n]);
      if a[n] == ' ' {
        assert b[n] == ' ';
        assert EqualsIgnoreCase(a[..n], b[..n]);
        UnpaddedIgnoresCase(a[..n], b[..n]);
      } else {
        assert b[n] != ' ';
      }
    }
  }

  /** The query comparison is the in-memory `OrdinalIgnoreCase` comparison
      once trailing spaces are dropped; it is an equivalence and is implied
      by ordinal and by case-insensitive equality. */
  lemma DbEqualsFacts(a: string, b: string, c: string)
    ensures DbEquals(a, b) <==> EqualsIgnoreCase(Unpadded(a), Unpadded(b))
    ensures EqualsIgnoreCase(a, b) ==> DbEquals(a, b)
    ensures a == b ==> DbEquals(a, b)
    ensures DbEquals(a, b) ==> DbEquals(b, a)
    ensures DbEquals(a, b) && DbEquals(b, c) ==> DbEquals(a, c)
  {
    var x, y := Unpadded(a), Unpadded(b);
    if EqualsIgnoreCase(x, y) {
      assert forall i :: 0 <= i < |x| ==> Fold(x)[i] == Fold(y)[i];
    }
    if EqualsIgnoreCase(a, b) {
      UnpaddedIgnoresCase(a, b);
      assert forall i :: 0 <= i < |x| ==> Fold(x)[i] == Fold(y)[i];
    }
  }

  /** "pizza", "PIZZA" and "Pizza " are one name to the database. */
  lemma DbEqualsIgnoresCase()
    ensures DbEquals("pizza", "PIZZA") && DbEquals("Pizza ", "pizza") && !DbEquals("pizza", "pasta")
  {
    assert Unpadded("pizza") == "pizza" && Unpadded("PIZZA") == "PIZZA" && Unpadded("pasta") == "pasta";
    assert Unpadded("Pizza ") == Unpadded("Pizza") == "Pizza";
    assert Fold("pizza") == "PIZZA" && Fold("PIZZA") == "PIZZA" && Fold("Pizza") == "PIZZA";
    assert Fold("pasta")[1] == 'A' && Fold("pizza")[1] == 'I';
  }
}
