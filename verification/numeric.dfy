/** The numeric primitives the evaluator borrows from Go's standard library, over exact reals:
    `strconv.ParseFloat` on plain decimal numerals, powers of ten for `math.Pow(10, d)`, and
    `math.Round`. */
module Numeric {
  import opened Text

  /** The tolerance the evaluator uses for "is zero" tests (`1e-12`). */
  const Epsilon: real := 0.000000000001

  function Abs(x: real): (r: real)
    ensures r >= 0.0 && (r == x || r == -x)
  {
    if x < 0.0 then -x else x
  }

  function Pow10Nat(n: nat): (r: nat)
    ensures r >= 1
  {
    if n == 0 then 1 else 10 * Pow10Nat(n - 1)
  }

  /** Ten to an integer power, exactly. */
  function Pow10(e: int): (r: real)
    ensures r > 0.0
    ensures e >= 0 ==> r == Pow10Nat(e) as real
    ensures e < 0 ==> r * (Pow10Nat(-e) as real) == 1.0
  {
    if e >= 0 then Pow10Nat(e) as real else 1.0 / (Pow10Nat(-e) as real)
  }

  /** Index just past the run of decimal digits that starts at `i`. */
  function DigitRun(s: string, i: nat): (j: nat)
    requires i <= |s|
    ensures i <= j <= |s|
    ensures AllDigits(s[i..j])
    ensures j < |s| ==> !IsDigit(s[j])
    decreases |s| - i
  {
    if i < |s| && IsDigit(s[i]) then DigitRun(s, i + 1) else i
  }

  /** Index just past an optional `+` or `-` at `i`. */
  function SignEnd(s: string, i: nat): (j: nat)
    requires i <= |s|
    ensures j == i || (j == i + 1 && i < |s| && (s[i] == '+' || s[i] == '-'))
  {
    if i < |s| && (s[i] == '+' || s[i] == '-') then i + 1 else i
  }

  /** The value of the numeral `intPart.fracPart` scaled by ten to `exp`. */
  function DecimalValue(intPart: string, fracPart: string, exp: int): real
    requires AllDigits(intPart) && AllDigits(fracPart)
  {
    (DigitsValue(intPart) as real + (DigitsValue(fracPart) as real) / (Pow10Nat(|fracPart|) as real))
      * Pow10(exp)
  }

  /** The exponent suffix `[eE][+-]digits` starting at `i`, read to the end of `s`. */
  function ExponentOf(s: string, i: nat): (r: Option<int>)
    requires i <= |s|
    ensures i == |s| ==> r == Some(0)
  {
    if i == |s| then Some(0)
    else if s[i] != 'e' && s[i] != 'E' then None
    else
      var j := SignEnd(s, i + 1);
      var k := DigitRun(s, j);
      if k == j || k != |s| then None
      else
        var m: int := DigitsValue(s[j..k]);
        Some(if j > i + 1 && s[i + 1] == '-' then -m else m)
  }

  /** `strconv.ParseFloat(s, 64)` on the decimal syntax: an optional sign, digits with at most
      one `.` and at least one digit, then an optional exponent.  Any other text is rejected. */
  function ParseFloat(s: string): (r: Option<real>)
    ensures |s| == 0 ==> r.None?
  {
    var i0 := SignEnd(s, 0);
    var i1 := DigitRun(s, i0);
    var hasDot := i1 < |s| && s[i1] == '.';
    var i2 := if hasDot then DigitRun(s, i1 + 1) else i1;
    var fracStart := if hasDot then i1 + 1 else i1;
    if i1 == i0 && i2 == fracStart then None
    else
      match ExponentOf(s, i2)
      case None => None
      case Some(exp) =>
        var v := DecimalValue(s[i0..i1], s[fracStart..i2], exp);
        Some(if i0 > 0 && s[0] == '-' then -v else v)
  }

  /** A plain decimal integer reads back as itself. */
  lemma ParseFloatOfDecimal(n: nat)
    ensures ParseFloat(NatToDecimal(n)) == Some(n as real)
  {
    var s := NatToDecimal(n);
    assert SignEnd(s, 0) == 0 by { assert IsDigit(s[0]); }
    DigitRunAll(s, 0);
    assert DigitRun(s, 0) == |s|;
    assert s[0..|s|] == s;
    DigitsValueOfDecimal(n);
    assert s[|s|..|s|] == "";
    assert DecimalValue(s, "", 0) == n as real;
  }

  lemma {:induction false} DigitRunAll(s: string, i: nat)
    requires i <= |s| && AllDigits(s)
    ensures DigitRun(s, i) == |s|
    decreases |s| - i
  {
    if i < |s| {
      DigitRunAll(s, i + 1);
    }
  }

  /** `math.Round`: the nearest integer, halves rounded away from zero. */
  function RoundHalfAway(x: real): (r: int)
    ensures Abs(x - r as real) <= 0.5
    ensures Abs(x - r as real) == 0.5 ==> Abs(r as real) > Abs(x)
  {
    if x >= 0.0 then (x + 0.5).Floor else -((-x + 0.5).Floor)
  }

  /** `n` is within one half of `x`, and on the far side of zero at a tie. */
  predicate Nearest(n: int, x: real) {
    Abs(x - n as real) <= 0.5 && (Abs(x - n as real) == 0.5 ==> Abs(n as real) > Abs(x))
  }

  /** Any integer within one half of `x`, on the far side of zero at a tie, is the rounded value. */
  lemma RoundHalfAwayUnique(x: real, n: int)
    requires Nearest(n, x)
    ensures RoundHalfAway(x) == n
  {
    var r := RoundHalfAway(x);
    if r != n {
      assert false;
    }
  }

  /** `r` is a whole number of steps `1 / m`: the number `math.Round` gives for `x` scaled by `m`. */
  predicate OnGrid(r: real, x: real, m: real) {
    r * m == RoundHalfAway(x * m) as real
  }

  /** `ROUND(value, places)`: scale by ten to the places, round, scale back.  The result lies on
      the grid of steps `10^-places`, at the step `math.Round` picks, so it is within half a step
      of `value`. */
  function RoundTo(value: real, places: real): (r: real)
    ensures OnGrid(r, value, Pow10(places.Floor))
    ensures Abs(r - value) <= 0.5 / Pow10(places.Floor)
  {
    RoundScaled(value, Pow10(places.Floor))
  }

  /** `value` rounded to a whole number of steps `1 / m`. */
  function RoundScaled(value: real, m: real): (r: real)
    requires m > 0.0
    ensures OnGrid(r, value, m)
    ensures Abs(r - value) <= 0.5 / m
  {
    var n := RoundHalfAway(value * m);
    RoundError(value, m, n as real);
    ScaleBack(n as real, m);
    (n as real) / m
  }

  /** Any multiple of `10^-places` within half a step of `value`, on the far side of zero at a
      tie, is the rounded value. */
  lemma RoundToUnique(value: real, places: real, n: int)
    requires Nearest(n, value * Pow10(places.Floor))
    ensures RoundTo(value, places) == (n as real) / Pow10(places.Floor)
  {
    assert NearestScaled(n, value, Pow10(places.Floor));
    OnGridUnique(RoundTo(value, places), value, Pow10(places.Floor), n);
    assert Unscaled(n, Pow10(places.Floor)) == (n as real) / Pow10(places.Floor);
  }

  predicate NearestScaled(n: int, x: real, m: real) {
    Nearest(n, x * m)
  }

  function Unscaled(n: int, m: real): real
    requires m > 0.0
  {
    (n as real) / m
  }

  /** The grid point near `x` is the one `n` names. */
  lemma OnGridUnique(r: real, x: real, m: real, n: int)
    requires m > 0.0 && OnGrid(r, x, m) && NearestScaled(n, x, m)
    ensures r == Unscaled(n, m)
  {
    RoundHalfAwayUnique(x * m, n);
    Unscale(r, m, n as real);
  }

  lemma ScaleBack(n: real, m: real)
    requires m > 0.0
    ensures (n / m) * m == n
  {
  }

  lemma Unscale(r: real, m: real, n: real)
    requires m > 0.0 && r * m == n
    ensures r == n / m
  {
  }

  /** Scaling an integer `n` near `value * m` back down by `m` lands near `value`. */
  lemma RoundError(value: real, m: real, n: real)
    requires m > 0.0 && Abs(value * m - n) <= 0.5
    ensures Abs(n / m - value) <= 0.5 / m
  {
    assert n / m - value == (n - value * m) / m;
  }
}
