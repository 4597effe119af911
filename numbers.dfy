/** The TypeChecker of the location server: which field texts Python's `float()`
    and `int()` accept, and the value they denote. Only plain decimal notation is
    modelled: an optional sign, digits, and for a float at most one decimal point. */
module Numbers {

  predicate IsDigit(c: char) {
    '0' <= c <= '9'
  }

  predicate AllDigits(s: string) {
    forall i :: 0 <= i < |s| ==> IsDigit(s[i])
  }

  /** The natural number written in decimal by `s` (0 for the empty text). */
  function DigitsValue(s: string): nat
    requires AllDigits(s)
  {
    if s == [] then 0 else 10 * DigitsValue(s[..|s| - 1]) + (s[|s| - 1] as int - '0' as int)
  }

  function Pow10(k: nat): (r: nat)
    ensures r >= 1
  {
    if k == 0 then 1 else 10 * Pow10(k - 1)
  }

  /** The text after an optional leading sign. */
  function Magnitude(s: string): (m: string)
    ensures |m| <= |s|
  {
    if |s| > 0 && (s[0] == '+' || s[0] == '-') then s[1..] else s
  }

  predicate IsNegative(s: string) {
    |s| > 0 && s[0] == '-'
  }

  /** Index of the first decimal point of `u`, or `|u|` when there is none. */
  function DotIndex(u: string): (d: nat)
    ensures d <= |u|
    ensures d < |u| ==> u[d] == '.'
    ensures forall i :: 0 <= i < d ==> u[i] != '.'
  {
    if u == [] || u[0] == '.' then 0 else 1 + DotIndex(u[1..])
  }

  /** `int(s)` succeeds. */
  predicate IsInt(s: string) {
    var m := Magnitude(s);
    |m| > 0 && AllDigits(m)
  }

  /** `int(s)`. */
  function IntValue(s: string): int
    requires IsInt(s)
  {
    var v: int := DigitsValue(Magnitude(s));
    if IsNegative(s) then -v else v
  }

  /** `float(s)` succeeds: digits with at most one decimal point, and at least one digit. */
  predicate IsFloat(s: string) {
    var m := Magnitude(s);
    var d := DotIndex(m);
    && AllDigits(m[..d])
    && (d < |m| ==> AllDigits(m[d + 1..]))
    && |m| > (if d < |m| then 1 else 0)
  }

  /** `float(s)`, exactly (no rounding to binary floating point). */
  function FloatValue(s: string): real
    requires IsFloat(s)
  {
    var m := Magnitude(s);
    var d := DotIndex(m);
    var whole := DigitsValue(m[..d]) as real;
    var fraction := if d < |m| then DigitsValue(m[d + 1..]) as real / Pow10(|m| - d - 1) as real else 0.0;
    if IsNegative(s) then -(whole + fraction) else whole + fraction
  }

  /** Every text `int()` accepts is accepted by `float()`, with the same value. */
  lemma IntIsFloat(s: string)
    requires IsInt(s)
    ensures IsFloat(s) && FloatValue(s) == IntValue(s) as real
  {
    var m := Magnitude(s);
    assert m[..DotIndex(m)] == m;
  }

  /** A lone sign is not a number: `float("+")` and `float("-")` fail. */
  lemma SignIsNotFloat(s: string)
    requires s == "+" || s == "-"
    ensures !IsFloat(s)
  {
    assert Magnitude(s) == "";
  }
}
