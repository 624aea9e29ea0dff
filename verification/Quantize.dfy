/** Rounding and quantisation of command fields, over exact reals. The driver rounds halves away
    from zero, the dashboard rounds them to even. */
module Quantize {
  import opened Options
  import opened Reals

  datatype Error = OutOfRange | ZeroDivision

  function Ceil(x: real): int { -((-x).Floor) }

  function RoundHalfAway(x: real): int {
    if x >= 0.0 then (x + 0.5).Floor else Ceil(x - 0.5)
  }

  /** Python's `round`: the nearest integer, and of two equally near ones the even one. */
  function RoundHalfEven(x: real): int {
    var f := x.Floor;
    var rest := x - f as real;
    if rest < 0.5 then f else if rest > 0.5 then f + 1 else if f % 2 == 0 then f else f + 1
  }

  /** `x` lies exactly between two integers, the lower of which is even. */
  predicate TieAboveEven(x: real) {
    x - x.Floor as real == 0.5 && x.Floor % 2 == 0
  }

  /** The driver rounds to a nearest integer, and from a tie away from zero. */
  lemma RoundHalfAwayExactly(x: real, n: int)
    ensures RoundHalfAway(x) == n <==>
              var e := n as real - x; -0.5 <= e <= 0.5 && (e == 0.5 ==> x > 0.0) && (e == -0.5 ==> x < 0.0)
  {
    var r := RoundHalfAway(x);
    RoundErrorAtMostHalf(x);
    assert r != n ==> r <= n - 1 || r >= n + 1;
  }

  /** The dashboard rounds to a nearest integer, and from a tie to the even one. */
  lemma RoundHalfEvenExactly(x: real, n: int)
    ensures RoundHalfEven(x) == n <==>
              var e := n as real - x; -0.5 <= e <= 0.5 && (e == 0.5 || e == -0.5 ==> n % 2 == 0)
  {
    var r := RoundHalfEven(x);
    assert r != n ==> r <= n - 1 || r >= n + 1;
  }

  /** Any value within one half of an integer rounds to that integer. */
  lemma RoundsToNearest(x: real, n: int)
    requires n as real - 0.5 < x < n as real + 0.5
    ensures RoundHalfAway(x) == n
  {
  }

  lemma RoundErrorAtMostHalf(x: real)
    ensures -0.5 <= RoundHalfAway(x) as real - x <= 0.5
  {
  }

  lemma EvenErrorAtMostHalf(x: real)
    ensures -0.5 <= RoundHalfEven(x) as real - x <= 0.5
  {
  }

  lemma EvenMonotone(x: real, y: real)
    requires x <= y
    ensures RoundHalfEven(x) <= RoundHalfEven(y)
  {
  }

  lemma RoundMonotone(x: real, y: real)
    requires x <= y
    ensures RoundHalfAway(x) <= RoundHalfAway(y)
  {
  }

  lemma RoundingsCompared(x: real)
    requires x >= 0.0
    ensures RoundHalfAway(x) == RoundHalfEven(x) + (if TieAboveEven(x) then 1 else 0)
  {
    var f := x.Floor;
    var rest := x - f as real;
    if rest < 0.5 {
      assert f as real <= x + 0.5 < (f + 1) as real;
    } else {
      assert (f + 1) as real <= x + 0.5 < (f + 2) as real;
    }
  }

  // ----- float_to_uint -----

  function Pow2(bits: nat): (p: nat)
    ensures p > 0
  {
    if bits == 0 then 1 else 2 * Pow2(bits - 1)
  }

  function Ratio(a: real, b: real, c: real): real
    requires c != 0.0
  {
    a * b / c
  }

  /** The field on the integer scale, before rounding. */
  function Scaled(x: real, lo: real, hi: real, bits: nat): real
    requires lo < hi
  {
    Ratio(x - lo, (Pow2(bits) - 1) as real, hi - lo)
  }

  /** The driver's quantiser, `dongilc_protocol.float_to_uint`. */
  function FloatToUint(x: real, lo: real, hi: real, bits: nat): Result<int, Error> {
    if x < lo || x > hi then Err(OutOfRange)
    else if hi - lo == 0.0 then Err(ZeroDivision)
    else
      var uintMax := Pow2(bits) - 1;
      var raw := RoundHalfAway(Scaled(x, lo, hi, bits));
      var capped := if raw < uintMax then raw else uintMax;
      Ok(if capped > 0 then capped else 0)
  }

  /** The dashboard's quantiser, `command_api.float_to_uint`. */
  function DashboardFloatToUint(x: real, lo: real, hi: real, bits: nat): Result<int, Error> {
    if x < lo || x > hi then Err(OutOfRange)
    else if hi - lo == 0.0 then Err(ZeroDivision)
    else Ok(RoundHalfEven(Scaled(x, lo, hi, bits)))
  }

  lemma MulLeft(a: real, b: real, c: real)
    requires a <= b && c >= 0.0
    ensures a * c <= b * c
  {
  }

  lemma DivLeft(a: real, b: real, c: real)
    requires a <= b && c > 0.0
    ensures a / c <= b / c
  {
    var d := b - a;
    assert b / c - a / c == d / c;
    assert d / c >= 0.0;
  }

  lemma ScaledMonotone(x: real, y: real, lo: real, hi: real, bits: nat)
    requires lo < hi && x <= y
    ensures Scaled(x, lo, hi, bits) <= Scaled(y, lo, hi, bits)
  {
    QuotientMonotone(x - lo, y - lo, (Pow2(bits) - 1) as real, hi - lo);
  }

  lemma QuotientMonotone(a: real, b: real, m: real, c: real)
    requires a <= b && m >= 0.0 && c > 0.0
    ensures a * m / c <= b * m / c
  {
    MulLeft(a, b, m);
    DivLeft(a * m, b * m, c);
  }

  lemma ScaledEnds(lo: real, hi: real, bits: nat)
    requires lo < hi
    ensures Scaled(lo, lo, hi, bits) == 0.0
    ensures Scaled(hi, lo, hi, bits) == (Pow2(bits) - 1) as real
  {
  }

  lemma ScaledRange(x: real, lo: real, hi: real, bits: nat)
    requires lo < hi && lo <= x <= hi
    ensures 0.0 <= Scaled(x, lo, hi, bits) <= (Pow2(bits) - 1) as real
  {
    ScaledEnds(lo, hi, bits);
    ScaledMonotone(lo, x, lo, hi, bits);
    ScaledMonotone(x, hi, lo, hi, bits);
  }

  /** On every value in range the quantiser succeeds, and its final clamp changes nothing: the
      result is the rounded value, and it fits in `bits` bits. Out of range, or on an empty
      span, it fails. */
  lemma ClampIsIdle(x: real, lo: real, hi: real, bits: nat)
    ensures FloatToUint(x, lo, hi, bits).Ok? <==> lo <= x <= hi && lo < hi
    ensures FloatToUint(x, lo, hi, bits).Ok? ==>
              && FloatToUint(x, lo, hi, bits).value == RoundHalfAway(Scaled(x, lo, hi, bits))
              && 0 <= FloatToUint(x, lo, hi, bits).value < Pow2(bits)
  {
    if lo <= x <= hi && lo < hi {
      ScaledRange(x, lo, hi, bits);
      RoundMonotone(0.0, Scaled(x, lo, hi, bits));
      RoundMonotone(Scaled(x, lo, hi, bits), (Pow2(bits) - 1) as real);
      RoundsToNearest((Pow2(bits) - 1) as real, Pow2(bits) - 1);
    }
  }

  lemma QuantiserMonotone(x: real, y: real, lo: real, hi: real, bits: nat)
    requires FloatToUint(x, lo, hi, bits).Ok? && FloatToUint(y, lo, hi, bits).Ok? && x <= y
    ensures FloatToUint(x, lo, hi, bits).value <= FloatToUint(y, lo, hi, bits).value
  {
    ClampIsIdle(x, lo, hi, bits);
    ClampIsIdle(y, lo, hi, bits);
    ScaledMonotone(x, y, lo, hi, bits);
    RoundMonotone(Scaled(x, lo, hi, bits), Scaled(y, lo, hi, bits));
  }

  /** The value that a quantised field stands for. */
  function Reconstruct(n: int, lo: real, hi: real, bits: nat): real
    requires bits > 0
  {
    var m := Pow2(bits) - 1;
    assert m > 0;
    lo + Ratio(n as real, hi - lo, m as real)
  }

  /** Half a quantisation step. */
  function HalfStep(lo: real, hi: real, bits: nat): real
    requires bits > 0
  {
    var m := Pow2(bits) - 1;
    assert m > 0;
    (hi - lo) / (2.0 * m as real)
  }

  predicate WithinHalfStep(y: real, x: real, lo: real, hi: real, bits: nat)
    requires bits > 0
  {
    -HalfStep(lo, hi, bits) <= y - x <= HalfStep(lo, hi, bits)
  }

  /** Quantising and reconstructing moves a value by at most half a step. */
  lemma ReconstructionError(x: real, lo: real, hi: real, bits: nat)
    requires bits > 0 && FloatToUint(x, lo, hi, bits).Ok?
    ensures WithinHalfStep(Reconstruct(FloatToUint(x, lo, hi, bits).value, lo, hi, bits), x, lo, hi, bits)
  {
    ClampIsIdle(x, lo, hi, bits);
    NearestReconstructs(x, lo, hi, bits, FloatToUint(x, lo, hi, bits).value);
  }

  lemma NearestReconstructs(x: real, lo: real, hi: real, bits: nat, n: int)
    requires bits > 0 && lo < hi && n == RoundHalfAway(Scaled(x, lo, hi, bits))
    ensures WithinHalfStep(Reconstruct(n, lo, hi, bits), x, lo, hi, bits)
  {
    RoundErrorAtMostHalf(Scaled(x, lo, hi, bits));
    NearReconstructs(x, lo, hi, bits, n, n as real - Scaled(x, lo, hi, bits));
  }

  lemma NearReconstructs(x: real, lo: real, hi: real, bits: nat, n: int, e: real)
    requires bits > 0 && lo < hi && e == n as real - Scaled(x, lo, hi, bits) && -0.5 <= e <= 0.5
    ensures WithinHalfStep(Reconstruct(n, lo, hi, bits), x, lo, hi, bits)
  {
    Quotients(x - lo, n as real, (Pow2(bits) - 1) as real, hi - lo, HalfStep(lo, hi, bits));
  }

  lemma Quotients(d: real, n: real, m: real, span: real, half: real)
    requires m > 0.0 && span > 0.0 && half == span / (2.0 * m)
    requires -0.5 <= n - Ratio(d, m, span) <= 0.5
    ensures -half <= Ratio(n, span, m) - d <= half
  {
    DivideBack(d * m, span, Ratio(d, m, span));
    DivideBack(n * span, m, Ratio(n, span, m));
    DivideBack(span, 2.0 * m, half);
    StepBack(d, n, m, span, Ratio(d, m, span), Ratio(n, span, m), half);
  }

  /** If `n` is within one half of `s` = d * m / span, then `q` = n * span / m is within
      `half` = span / (2 * m) of `d`. */
  lemma StepBack(d: real, n: real, m: real, span: real, s: real, q: real, half: real)
    requires m > 0.0 && span > 0.0 && -0.5 <= n - s <= 0.5
    requires s * span == d * m && q * m == n * span && half * (2.0 * m) == span
    ensures -half <= q - d <= half
  {
    var e, t := n - s, q - d;
    Difference(n, s, span);
    Difference(q, d, m);
    assert half * m == 0.5 * span;
    Difference(half, t, m);
    Difference(0.5, e, span);
    Difference(t, -half, m);
    Difference(e, -0.5, span);
    SameSign(half - t, m, 0.5 - e, span);
    SameSign(t + half, m, e + 0.5, span);
  }

  lemma Difference(a: real, b: real, c: real)
    ensures (a - b) * c == a * c - b * c
  {
  }

  lemma SameSign(a: real, m: real, b: real, n: real)
    requires m > 0.0 && n > 0.0 && a * m == b * n && b >= 0.0
    ensures a >= 0.0
  {
    NonNegative(b, n, b * n);
    Sign(a, m, a * m);
  }

  lemma NonNegative(a: real, b: real, p: real)
    requires a >= 0.0 && b > 0.0 && p == a * b
    ensures p >= 0.0
  {
  }

  lemma Sign(a: real, m: real, p: real)
    requires m > 0.0 && p == a * m && p >= 0.0
    ensures a >= 0.0
  {
  }

  /** The middle of a symmetric range maps to the middle of the integer scale. */
  lemma CentreMapsToCentre(max: real, bits: nat)
    requires max > 0.0 && bits > 0
    ensures FloatToUint(0.0, -max, max, bits) == Ok(Pow2(bits - 1))
  {
    var m, n := (Pow2(bits) - 1) as real, Pow2(bits - 1);
    ClampIsIdle(0.0, -max, max, bits);
    Halve(max, m);
    assert m / 2.0 == n as real - 0.5;
    RoundHalfAwayExactly(m / 2.0, n);
  }

  lemma Halve(max: real, m: real)
    requires max > 0.0
    ensures Ratio(0.0 - -max, m, max - -max) == m / 2.0
  {
    var q := Ratio(0.0 - -max, m, max - -max);
    DivideBack(max * m, 2.0 * max, q);
    Cancel(q, max, m);
  }

  lemma Cancel(q: real, max: real, m: real)
    requires max > 0.0 && q * (2.0 * max) == max * m
    ensures q == m / 2.0
  {
    assert (2.0 * q - m) * max == 0.0;
  }

  /** The two quantisers fail on the same inputs, and differ, by one, exactly on the exact ties
      above an even integer. */
  lemma QuantisersCompared(x: real, lo: real, hi: real, bits: nat)
    ensures FloatToUint(x, lo, hi, bits).Err? <==> DashboardFloatToUint(x, lo, hi, bits).Err?
    ensures FloatToUint(x, lo, hi, bits).Err? ==> FloatToUint(x, lo, hi, bits) == DashboardFloatToUint(x, lo, hi, bits)
    ensures FloatToUint(x, lo, hi, bits).Ok? ==>
              && lo < hi
              && FloatToUint(x, lo, hi, bits).value ==
                 DashboardFloatToUint(x, lo, hi, bits).value + (if TieAboveEven(Scaled(x, lo, hi, bits)) then 1 else 0)
  {
    ClampIsIdle(x, lo, hi, bits);
    if lo <= x <= hi && lo < hi {
      ScaledRange(x, lo, hi, bits);
      RoundingsCompared(Scaled(x, lo, hi, bits));
    }
  }

  lemma DashboardInRange(x: real, lo: real, hi: real, bits: nat)
    requires DashboardFloatToUint(x, lo, hi, bits).Ok?
    ensures 0 <= DashboardFloatToUint(x, lo, hi, bits).value < Pow2(bits)
  {
    ClampIsIdle(x, lo, hi, bits);
    QuantisersCompared(x, lo, hi, bits);
    ScaledRange(x, lo, hi, bits);
  }

  lemma DashboardMonotone(x: real, y: real, lo: real, hi: real, bits: nat)
    requires DashboardFloatToUint(x, lo, hi, bits).Ok? && DashboardFloatToUint(y, lo, hi, bits).Ok? && x <= y
    ensures DashboardFloatToUint(x, lo, hi, bits).value <= DashboardFloatToUint(y, lo, hi, bits).value
  {
    ScaledMonotone(x, y, lo, hi, bits);
    EvenMonotone(Scaled(x, lo, hi, bits), Scaled(y, lo, hi, bits));
  }

  /** The dashboard's quantiser, too, moves a value by at most half a step. */
  lemma DashboardReconstructionError(x: real, lo: real, hi: real, bits: nat)
    requires bits > 0 && DashboardFloatToUint(x, lo, hi, bits).Ok?
    ensures WithinHalfStep(Reconstruct(DashboardFloatToUint(x, lo, hi, bits).value, lo, hi, bits), x, lo, hi, bits)
  {
    var n := DashboardFloatToUint(x, lo, hi, bits).value;
    EvenErrorAtMostHalf(Scaled(x, lo, hi, bits));
    NearReconstructs(x, lo, hi, bits, n, n as real - Scaled(x, lo, hi, bits));
  }
}
