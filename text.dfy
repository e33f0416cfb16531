/** The few .NET string operations the core relies on: integer formatting and
    `int.TryParse`, ordinal case-insensitive comparison, white-space trimming
    (with the Unicode white-space set of `char.IsWhiteSpace`),
    substring search and character replacement. Case mapping covers ASCII
    letters only. */
module Text {
  import opened Wrappers
  import opened Int32

  predicate IsDigit(c: char) {
    '0' <= c <= '9'
  }

  predicate AllDigits(s: string) {
    forall i :: 0 <= i < |s| ==> IsDigit(s[i])
  }

  function DigitChar(d: int): (c: char)
    requires 0 <= d < 10
    ensures IsDigit(c) && c as int - '0' as int == d
  {
    ('0' as int + d) as char
  }

  /** Decimal rendering of a natural number, without leading zeros (`n.ToString()`). */
  function NatToString(n: nat): (s: string)
    ensures |s| >= 1 && AllDigits(s)
    ensures n < 10 <==> |s| == 1
    decreases n
  {
    if n < 10 then [DigitChar(n)] else NatToString(n / 10) + [DigitChar(n % 10)]
  }

  /** Invariant-culture rendering of an integer: a '-' sign, then the digits. */
  function IntToString(n: int): (s: string)
    ensures |s| >= 1
    ensures n >= 0 <==> AllDigits(s)
    ensures n < 0 <==> s[0] == '-'
  {
    if n >= 0 then NatToString(n)
    else
      var s := "-" + NatToString(-n);
      assert !IsDigit(s[0]);
      s
  }

  /** The value of a string of decimal digits. */
  function DigitsValue(s: string): nat
    requires AllDigits(s)
  {
    if |s| == 0 then 0 else DigitsValue(s[..|s| - 1]) * 10 + (s[|s| - 1] as int - '0' as int)
  }

  lemma {:induction false} DigitsValueOfNatToString(n: nat)
    ensures DigitsValue(NatToString(n)) == n
    decreases n
  {
    if n >= 10 {
      var s := NatToString(n);
      assert s[..|s| - 1] == NatToString(n / 10);
      DigitsValueOfNatToString(n / 10);
    }
  }

  /** `char.IsWhiteSpace(c)`: the Unicode white-space characters that
      `String.Trim` drops and `string.IsNullOrWhiteSpace` looks for. */
  predicate IsWhiteSpace(c: char) {
    c == ' ' || '\t' <= c <= '\r' || c == '\U{0085}' || c == '\U{00A0}' || c == '\U{1680}' ||
    '\U{2000}' <= c <= '\U{200A}' || c == '\U{2028}' || c == '\U{2029}' || c == '\U{202F}' ||
    c == '\U{205F}' || c == '\U{3000}'
  }

  /** The characters `NumberStyles.Integer` skips around a number: only the
      ASCII space and the controls tab to carriage return. */
  predicate IsNumberWhite(c: char) {
    c == ' ' || '\t' <= c <= '\r'
  }

  /** Which white-space set a trim uses. */
  datatype WhiteSet = UnicodeWhite | NumberWhite

  predicate InSet(white: WhiteSet, c: char) {
    if white == UnicodeWhite then IsWhiteSpace(c) else IsNumberWhite(c)
  }

  /** Drops the leading characters of the white set. */
  function TrimStartWhite(s: string, white: WhiteSet): (r: string)
    ensures |r| <= |s| && r == s[|s| - |r|..]
    ensures forall i :: 0 <= i < |s| - |r| ==> InSet(white, s[i])
    ensures |r| > 0 ==> !InSet(white, r[0])
  {
    if |s| > 0 && InSet(white, s[0]) then TrimStartWhite(s[1..], white) else s
  }

  /** Drops the trailing characters of the white set. */
  function TrimEndWhite(s: string, white: WhiteSet): (r: string)
    ensures |r| <= |s| && r == s[..|r|]
    ensures forall i :: |r| <= i < |s| ==> InSet(white, s[i])
    ensures |r| > 0 ==> !InSet(white, r[|r| - 1])
  {
    if |s| > 0 && InSet(white, s[|s| - 1]) then TrimEndWhite(s[..|s| - 1], white) else s
  }

  /** `s.Trim()`: drops leading and trailing Unicode white space. */
  function Trim(s: string): (r: string)
    ensures |r| <= |s|
    ensures |r| > 0 ==> !IsWhiteSpace(r[0]) && !IsWhiteSpace(r[|r| - 1])
  {
    TrimEndWhite(TrimStartWhite(s, UnicodeWhite), UnicodeWhite)
  }

  /** `string.IsNullOrWhiteSpace(s)`. */
  predicate IsNullOrWhiteSpace(s: Option<string>) {
    s.None? || forall i :: 0 <= i < |s.value| ==> IsWhiteSpace(s.value[i])
  }

  /** A text trims to nothing exactly when it is all white space, so the
      search's blank test and its trimmed pattern agree. */
  lemma {:induction false} TrimEmptyIffWhite(s: string)
    ensures Trim(s) == [] <==> IsNullOrWhiteSpace(Some(s))
    decreases |s|
  {
    var front := TrimStartWhite(s, UnicodeWhite);
    if |front| > 0 {
      TrimEndKeepsNonWhite(front, 0, UnicodeWhite);
      assert !IsWhiteSpace(s[|s| - |front|]);
    }
  }

  lemma {:induction false} TrimEndKeepsNonWhite(s: string, k: nat, white: WhiteSet)
    requires k < |s| && !InSet(white, s[k])
    ensures |TrimEndWhite(s, white)| > k
    decreases |s|
  {
    if InSet(white, s[|s| - 1]) {
      TrimEndKeepsNonWhite(s[..|s| - 1], k, white);
    }
  }

  /** The non-breaking space is white space to `Trim` and to the blank
      test, but not to `int.TryParse`. */
  lemma NoBreakSpaceIsBlank()
    ensures IsNullOrWhiteSpace(Some("\U{00A0}")) && Trim("\U{00A0}") == ""
    ensures ParseInt32("\U{00A0}1") == None
  {
    var s := "\U{00A0}1";
    assert s[0] == '\U{00A0}' && s[1] == '1';
    UntrimmedEnds(s);
    assert !IsDigit(s[0]);
  }

  /** `int.TryParse(s, out v)` with the invariant culture: optional white space,
      an optional sign, at least one digit, optional white space, and a value
      inside the 32-bit range. */
  function ParseInt32(s: string): (r: Option<int>)
    ensures r.Some? ==> Int32Min <= r.value <= Int32Max
  {
    ParseSigned(NumberTrim(s))
  }

  /** The white space `int.TryParse` skips at either end. */
  function NumberTrim(s: string): string {
    TrimEndWhite(TrimStartWhite(s, NumberWhite), NumberWhite)
  }

  /** The trimmed text: an optional sign, at least one digit, and a value
      inside the 32-bit range. */
  function ParseSigned(t: string): (r: Option<int>)
    ensures r.Some? ==> Int32Min <= r.value <= Int32Max
  {
    if |t| == 0 then None
    else
      var negative := t[0] == '-';
      var digits := if t[0] == '-' || t[0] == '+' then t[1..] else t;
      if |digits| == 0 || !AllDigits(digits) then None
      else
        var v: int := if negative then -(DigitsValue(digits) as int) else DigitsValue(digits);
        if Int32Min <= v <= Int32Max then Some(v) else None
  }

  /** Rendering an in-range integer and parsing it back yields the integer:
      a user id written into a claim is read back unchanged. */
  lemma ParseIntToString(n: int)
    requires Int32Min <= n <= Int32Max
    ensures ParseInt32(IntToString(n)) == Some(n)
  {
    var s := IntToString(n);
    if n >= 0 {
      var d := NatToString(n);
      DigitsValueOfNatToString(n);
      NumberTextUntrimmed(d);
      UnsignedDigits(d);
    } else {
      var d := NatToString(-n);
      DigitsValueOfNatToString(-n);
      assert s == "-" + d && s[|s| - 1] == d[|d| - 1];
      NumberTextUntrimmed(s);
      NegatedDigits(d);
    }
  }

  /** A run of digits parses to its value when that fits 32 bits. */
  lemma UnsignedDigits(d: string)
    requires |d| >= 1 && AllDigits(d) && DigitsValue(d) <= Int32Max
    ensures ParseSigned(d) == Some(DigitsValue(d) as int)
  {
    assert IsDigit(d[0]);
  }

  /** A '-' and a run of digits parse to the negated value when that fits 32 bits. */
  lemma NegatedDigits(d: string)
    requires |d| >= 1 && AllDigits(d) && Int32Min <= -(DigitsValue(d) as int)
    ensures ParseSigned("-" + d) == Some(-(DigitsValue(d) as int))
  {
    var t := "-" + d;
    assert t[0] == '-';
    assert t[1..] == d;
  }

  /** A rendered integer has no white space to trim. */
  lemma NumberTextUntrimmed(s: string)
    requires |s| >= 1 && (s[0] == '-' || IsDigit(s[0])) && IsDigit(s[|s| - 1])
    ensures NumberTrim(s) == s
  {
    UntrimmedEnds(s);
  }

  /** A text that neither starts nor ends with number white space is left as it is. */
  lemma UntrimmedEnds(s: string)
    requires |s| >= 1 && !IsNumberWhite(s[0]) && !IsNumberWhite(s[|s| - 1])
    ensures NumberTrim(s) == s
  {
    assert !InSet(NumberWhite, s[0]);
    assert TrimStartWhite(s, NumberWhite) == s;
    assert !InSet(NumberWhite, s[|s| - 1]);
  }

  /** A string that is not a number yields no id. */
  lemma ParseRejectsNonNumbers()
    ensures ParseInt32("") == None
    ensures ParseInt32("abc") == None
    ensures ParseInt32("-") == None
  {
    var abc := "abc";
    assert abc[0] == 'a' && abc[2] == 'c';
    UntrimmedEnds(abc);
    assert !IsDigit(abc[0]);
    var minus := "-";
    assert minus[0] == '-';
    UntrimmedEnds(minus);
  }

  function ToUpperAscii(c: char): char {
    if 'a' <= c <= 'z' then (c as int - 32) as char else c
  }

  function ToLowerAscii(c: char): char {
    if 'A' <= c <= 'Z' then (c as int + 32) as char else c
  }

  /** `s.ToLowerInvariant()`, on ASCII letters. */
  function ToLower(s: string): (r: string)
    ensures |r| == |s| && forall i :: 0 <= i < |s| ==> r[i] == ToLowerAscii(s[i])
  {
    seq(|s|, i requires 0 <= i < |s| => ToLowerAscii(s[i]))
  }

  /** `string.Equals(a, b, StringComparison.OrdinalIgnoreCase)`, folding
      ASCII letters only (.NET also folds letters such as 'é' and 'É'). */
  predicate EqualsIgnoreCase(a: string, b: string) {
    |a| == |b| && forall i :: 0 <= i < |a| ==> ToUpperAscii(a[i]) == ToUpperAscii(b[i])
  }

  /** Ordinal equality implies case-insensitive equality, so an unchanged
      name, or one that differs only in letter case, never counts as a rename. */
  lemma EqualsIgnoreCaseFacts(a: string, b: string)
    ensures a == b ==> EqualsIgnoreCase(a, b)
    ensures EqualsIgnoreCase(a, b) <==> EqualsIgnoreCase(b, a)
    ensures EqualsIgnoreCase("Pizza", "PIZZA") && !EqualsIgnoreCase("Pizza", "Pasta")
  {
    assert ToUpperAscii("Pizza"[1]) != ToUpperAscii("Pasta"[1]);
  }

  /** `s.Contains(sub)`: `sub` occurs in `s` as a contiguous run. */
  predicate Contains(s: string, sub: string) {
    exists i | 0 <= i <= |s| - |sub| :: OccursAt(s, sub, i)
  }

  predicate OccursAt(s: string, sub: string, i: int) {
    0 <= i <= |s| - |sub| && s[i..i + |sub|] == sub
  }

  /** `s.TrimStart(c)`: drops every leading `c`. */
  function TrimStart(s: string, c: char): (r: string)
    ensures |r| <= |s| && r == s[|s| - |r|..]
    ensures forall i :: 0 <= i < |s| - |r| ==> s[i] == c
    ensures |r| > 0 ==> r[0] != c
  {
    if |s| > 0 && s[0] == c then TrimStart(s[1..], c) else s
  }

  /** `s.Replace(a, b)` for single characters. */
  function Replace(s: string, a: char, b: char): (r: string)
    ensures |r| == |s|
    ensures forall i :: 0 <= i < |s| ==> r[i] == (if s[i] == a then b else s[i])
  {
    seq(|s|, i requires 0 <= i < |s| => if s[i] == a then b else s[i])
  }
}
