/** The `[DecimalRange(precision, scale)]` validation attribute
    (ModelConstants/DecimalRangeAttribute.cs). It renders a decimal as text,
    splits the text at '.', and rejects the value when the two parts
    together are longer than `precision` or the fractional part is longer
    than `scale`. Values that are not decimals, null included, pass. */
module DecimalRange {
  import opened Wrappers
  import opened Text

  /** A .NET decimal: the value `unscaled / 10^scale`. The scale is part of
      the value, so 9.5m and 9.50m are different decimals that render
      differently. */
  datatype Decimal = Decimal(unscaled: int, scale: nat)

  /** The `object value` handed to the attribute. */
  datatype BoxedValue = DecimalValue(d: Decimal) | OtherValue | NullValue

  datatype ValidationResult = Success | Failure(message: string)

  function Pow10(n: nat): (r: nat)
    ensures r >= 1
  {
    if n == 0 then 1 else 10 * Pow10(n - 1)
  }

  function Zeros(n: nat): (r: string)
    ensures |r| == n && AllDigits(r)
  {
    if n == 0 then "" else "0" + Zeros(n - 1)
  }

  /** `s.PadLeft(width, '0')`. */
  function PadLeftZeros(s: string, width: nat): (r: string)
    ensures |r| == if |s| >= width then |s| else width
    ensures AllDigits(s) ==> AllDigits(r)
  {
    if |s| >= width then s else Zeros(width - |s|) + s
  }

  function Magnitude(d: Decimal): nat {
    if d.unscaled < 0 then -d.unscaled else d.unscaled
  }

  /** The value of the integer part: the magnitude without its fraction. */
  function WholeValue(d: Decimal): nat {
    Quotient(Magnitude(d), Pow10(d.scale))
  }

  function Quotient(a: nat, b: nat): nat
    requires b >= 1
  {
    assert a / b >= 0 by { DivisionOfNaturals(a, b); }
    a / b
  }

  lemma DivisionOfNaturals(a: nat, b: nat)
    requires b >= 1
    ensures a / b >= 0 && a % b < b
  {
  }

  /** The sign and the digits of the integer part. */
  function IntegerText(d: Decimal): (s: string)
    ensures |s| == (if d.unscaled < 0 then 1 else 0) + DigitCount(WholeValue(d))
    ensures '.' !in s
  {
    NatToStringLength(WholeValue(d));
    var digits := NatToString(WholeValue(d));
    assert forall i :: 0 <= i < |digits| ==> IsDigit(digits[i]);
    (if d.unscaled < 0 then "-" else "") + digits
  }

  /** Exactly `scale` fractional digits, zero-padded on the left. */
  function FractionText(d: Decimal): (s: string)
    ensures |s| == d.scale
    ensures '.' !in s
  {
    if d.scale == 0 then ""
    else
      var rest := Magnitude(d) % Pow10(d.scale);
      NatToStringLength(rest);
      DigitCountBelow(rest, d.scale);
      var r := PadLeftZeros(NatToString(rest), d.scale);
      assert forall i :: 0 <= i < |r| ==> IsDigit(r[i]);
      r
  }

  /** `decimalValue.ToString()` with a '.' decimal separator: an optional
      '-', the integer part, then '.' and exactly `scale` fractional digits
      when the scale is positive. */
  function Render(d: Decimal): string {
    if d.scale > 0 then IntegerText(d) + "." + FractionText(d) else IntegerText(d)
  }

  /** Position of the first `c` in `s`. */
  function IndexOf(s: string, c: char): (i: nat)
    requires c in s
    ensures i < |s| && s[i] == c && c !in s[..i]
    ensures forall k :: 0 <= k < i ==> s[k] != c
  {
    if s[0] == c then 0
    else
      assert c in s[1..] by {
        var k :| 0 <= k < |s| && s[k] == c;
        assert s[1..][k - 1] == c;
      }
      var j := IndexOf(s[1..], c);
      assert s[..j + 1] == [s[0]] + s[1..][..j];
      j + 1
  }

  /** `s.Split(c)`: the maximal runs of `s` between occurrences of `c`. */
  function Split(s: string, c: char): (parts: seq<string>)
    ensures |parts| >= 1
    ensures forall i :: 0 <= i < |parts| ==> c !in parts[i]
    decreases |s|
  {
    if c !in s then [s]
    else
      var i := IndexOf(s, c);
      [s[..i]] + Split(s[i + 1..], c)
  }

  /** `string.Join(c, parts)`. */
  function Join(parts: seq<string>, c: char): string
    requires |parts| >= 1
  {
    if |parts| == 1 then parts[0] else parts[0] + [c] + Join(parts[1..], c)
  }

  /** Splitting and joining back gives the original text. */
  lemma {:induction false} SplitJoin(s: string, c: char)
    ensures Join(Split(s, c), c) == s
    decreases |s|
  {
    if c in s {
      var i := IndexOf(s, c);
      SplitJoin(s[i + 1..], c);
      assert Split(s, c)[1..] == Split(s[i + 1..], c);
      assert s == s[..i] + [c] + s[i + 1..];
    }
  }

  /** Text with one separator splits into the two sides. */
  lemma SplitAtOnlySeparator(a: string, b: string, c: char)
    requires c !in a && c !in b
    ensures Split(a + [c] + b, c) == [a, b]
  {
    var s := a + [c] + b;
    assert s[|a|] == c;
    assert forall k :: 0 <= k < |a| ==> s[k] == a[k];
    var i := IndexOf(s, c);
    assert i == |a|;
    assert s[..i] == a && s[i + 1..] == b;
  }

  function IntegerDigits(text: string): nat {
    |Split(text, '.')[0]|
  }

  function DecimalDigits(text: string): nat {
    var parts := Split(text, '.');
    if |parts| > 1 then |parts[1]| else 0
  }

  /** `IsValid(value, context)` of `DecimalRange(precision, scale)`. */
  function IsValid(value: BoxedValue, precision: int, scale: int): (r: ValidationResult)
    ensures !value.DecimalValue? ==> r == Success
    ensures r.Failure? ==> r.message == "Value exceeds allowed precision (" + IntToString(precision) + ") or scale (" + IntToString(scale) + ")."
  {
    match value
    case DecimalValue(d) =>
      var text := Render(d);
      var integerDigits := IntegerDigits(text);
      var decimalDigits := DecimalDigits(text);
      if integerDigits + decimalDigits > precision || decimalDigits > scale then
        Failure("Value exceeds allowed precision (" + IntToString(precision) + ") or scale (" + IntToString(scale) + ").")
      else Success
    case _ => Success
  }

  /** Number of decimal digits of `n`. */
  function DigitCount(n: nat): (k: nat)
    ensures k >= 1
  {
    if n < 10 then 1 else 1 + DigitCount(n / 10)
  }

  lemma {:induction false} NatToStringLength(n: nat)
    ensures |NatToString(n)| == DigitCount(n)
    decreases n
  {
    if n >= 10 { NatToStringLength(n / 10); }
  }

  lemma {:induction false} DigitCountBelow(n: nat, k: nat)
    requires k >= 1 && n < Pow10(k)
    ensures DigitCount(n) <= k
    decreases k
  {
    if n >= 10 {
      assert k >= 2;
      DigitCountBelow(n / 10, k - 1);
    }
  }

  /** Splitting the text of a decimal at '.' gives its sign and integer
      digits, then exactly `scale` fractional digits. */
  lemma RenderedDigits(d: Decimal)
    ensures IntegerDigits(Render(d)) == (if d.unscaled < 0 then 1 else 0) + DigitCount(WholeValue(d))
    ensures DecimalDigits(Render(d)) == d.scale
  {
    if d.scale > 0 {
      SplitAtOnlySeparator(IntegerText(d), FractionText(d), '.');
    }
  }

  /** A decimal passes exactly when its sign and integer digits plus its
      scale fit the precision and its scale fits the allowed scale: the
      leading '-' of a negative value counts as an integer digit. */
  lemma IsValidIff(d: Decimal, precision: int, scale: int)
    ensures IsValid(DecimalValue(d), precision, scale).Success? <==>
      (if d.unscaled < 0 then 1 else 0) + DigitCount(WholeValue(d)) + d.scale <= precision
      && d.scale <= scale
  {
    RenderedDigits(d);
  }

  /** The price column's (10, 2): 9.50 passes and a value with three
      fractional digits fails. */
  lemma PriceScaleExamples()
    ensures IsValid(DecimalValue(Decimal(950, 2)), 10, 2) == Success
    ensures IsValid(DecimalValue(Decimal(9505, 3)), 10, 2).Failure?
  {
    assert Pow10(2) == 100 && Pow10(3) == 1000;
    assert Quotient(950, 100) == 9 && Quotient(9505, 1000) == 9;
    IsValidIff(Decimal(950, 2), 10, 2);
    IsValidIff(Decimal(9505, 3), 10, 2);
  }

  /** 12345678.90 fills the precision exactly; -12345678.90 exceeds it
      because of its sign. */
  lemma PriceSignExample()
    ensures IsValid(DecimalValue(Decimal(1234567890, 2)), 10, 2) == Success
    ensures IsValid(DecimalValue(Decimal(-1234567890, 2)), 10, 2).Failure?
  {
    assert Pow10(2) == 100;
    assert Quotient(1234567890, 100) == 12345678;
    assert DigitCount(12345678) == 8;
    IsValidIff(Decimal(1234567890, 2), 10, 2);
    IsValidIff(Decimal(-1234567890, 2), 10, 2);
  }
}
