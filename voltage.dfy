/** Conversion of a raw output code to millivolts (`calculate_voltage`). */
module Voltage {
  import opened Ints
  import opened Errors
  import opened Registers

  /** ADC reference voltage: the input range is -2048 mV to +2048 mV. */
  const REF_MILLIVOLTS: I16 := 2048

  /** `q` is `a / d` rounded toward zero. */
  ghost predicate IsTruncatedQuotient(q: int, a: int, d: int)
    requires d > 0
  {
    && Abs(q) * d <= Abs(a) < Abs(q) * d + d
    && (a >= 0 ==> q >= 0)
    && (a <= 0 ==> q <= 0)
  }

  lemma MulMonotone(x: int, y: int, d: int)
    requires d > 0 && x <= y
    ensures x * d <= y * d
  {
    assert y * d - x * d == (y - x) * d;
  }

  lemma MulCancel(x: int, y: int, d: int)
    requires d > 0 && x * d < y * d + d
    ensures x <= y
  {
    if x > y {
      MulMonotone(y + 1, x, d);
    }
  }

  /** Euclidean division of a natural number, in the form used below. */
  lemma NatDiv(n: nat, d: int)
    requires d > 0
    ensures 0 <= n / d <= n
    ensures (n / d) * d <= n < (n / d) * d + d
  {
    var q, r := n / d, n % d;
    assert n == d * q + r && 0 <= r < d;
    assert d * q == q * d;
    if q < 0 {
      MulMonotone(q, -1, d);
    }
    if q > 0 {
      MulMonotone(1, d, q);
    }
  }

  /** Rust's `/` on `i32`, which truncates toward zero (Dafny's `/` does not
      for a negative dividend). */
  function TruncDiv(a: int, d: int): (q: int)
    requires d > 0
    ensures IsTruncatedQuotient(q, a, d)
    ensures Abs(q) <= Abs(a)
  {
    NatDiv(Abs(a), d);
    if a >= 0 then Abs(a) / d else -(Abs(a) / d)
  }

  /** The truncated quotient is unique. */
  lemma TruncatedQuotientUnique(q1: int, q2: int, a: int, d: int)
    requires d > 0
    requires IsTruncatedQuotient(q1, a, d) && IsTruncatedQuotient(q2, a, d)
    ensures q1 == q2
  {
    MulCancel(Abs(q1), Abs(q2), d);
    MulCancel(Abs(q2), Abs(q1), d);
  }

  /** Truncating division commutes with negation. */
  lemma TruncDivOdd(a: int, d: int)
    requires d > 0
    ensures TruncDiv(-a, d) == -TruncDiv(a, d)
  {
  }

  /** Truncating division is monotone in the dividend. */
  lemma TruncDivMonotone(a: int, b: int, d: int)
    requires d > 0 && a <= b
    ensures TruncDiv(a, d) <= TruncDiv(b, d)
  {
    var qa, qb := TruncDiv(a, d), TruncDiv(b, d);
    if 0 <= a {
      MulCancel(qa, qb, d);
    } else if b <= 0 {
      var na, nb := TruncDiv(-a, d), TruncDiv(-b, d);
      MulCancel(nb, na, d);
      TruncDivOdd(a, d);
      TruncDivOdd(b, d);
    }
  }

  /** `calculate_voltage`: the resolution's two extreme codes are saturation
      errors; every other code becomes `code * 4096 / 2^ResBits` mV, truncated
      toward zero, computed in `i32` without overflow. */
  function CalculateVoltage(resolution: Resolution, measurement: I16): (r: Result<I32>)
    ensures r == Err(VoltageTooHigh) <==> measurement == resolution.Max()
    ensures r == Err(VoltageTooLow) <==> measurement == resolution.Min()
    ensures r.Ok? <==> measurement != resolution.Max() && measurement != resolution.Min()
    ensures r.Ok? ==> IsTruncatedQuotient(r.value, measurement * 2 * REF_MILLIVOLTS,
                                          Pow2(resolution.ResBits()))
  {
    if measurement == resolution.Max() then
      Err(VoltageTooHigh)
    else if measurement == resolution.Min() then
      Err(VoltageTooLow)
    else
      var scale: I16 := REF_MILLIVOLTS * 2;
      var product: I32 := measurement * scale;
      Ok(TruncDiv(product, Pow2(resolution.ResBits())))
  }

  /** At 12 bits one code step is one millivolt: the voltage is the code. */
  lemma VoltageAt12BitsIsCode(measurement: I16)
    requires measurement != Bits12Sps240.Max() && measurement != Bits12Sps240.Min()
    ensures CalculateVoltage(Bits12Sps240, measurement) == Ok(measurement)
  {
    Pow2Table();
    var r := CalculateVoltage(Bits12Sps240, measurement);
    TruncatedQuotientUnique(r.value, measurement, measurement * 4096, 4096);
  }

  /** A code strictly between the extremes reads strictly inside the
      reference range. */
  lemma VoltageWithinReference(resolution: Resolution, measurement: I16)
    requires resolution.Min() < measurement < resolution.Max()
    ensures CalculateVoltage(resolution, measurement).Ok?
    ensures -REF_MILLIVOLTS < CalculateVoltage(resolution, measurement).value < REF_MILLIVOLTS
  {
    Pow2Table();
    var d := Pow2(resolution.ResBits());
    var v := CalculateVoltage(resolution, measurement).value;
    assert Abs(measurement) < Pow2(resolution.ResBits() - 1);
    assert Abs(v) * d <= Abs(measurement) * 4096;
    match resolution
    case Bits12Sps240 =>
      MulCancel(Abs(v), 2047, 4096);
    case Bits14Sps60 =>
      MulCancel(Abs(v), 2047, 16384);
    case Bits16Sps15 =>
      MulCancel(Abs(v), 2047, 65536);
  }

  /** The conversion is sign-symmetric away from the extremes. */
  lemma VoltageOdd(resolution: Resolution, measurement: I16)
    requires -0x8000 < measurement
    requires measurement != resolution.Max() && measurement != resolution.Min()
    requires -measurement != resolution.Max() && -measurement != resolution.Min()
    ensures CalculateVoltage(resolution, -measurement).Ok?
    ensures CalculateVoltage(resolution, -measurement).value
            == -CalculateVoltage(resolution, measurement).value
  {
    var d := Pow2(resolution.ResBits());
    assert (-measurement) * (REF_MILLIVOLTS * 2) == -(measurement * (REF_MILLIVOLTS * 2));
    TruncDivOdd(measurement * (REF_MILLIVOLTS * 2), d);
  }

  /** A larger code never reads as a lower voltage. */
  lemma VoltageMonotone(resolution: Resolution, low: I16, high: I16)
    requires low <= high
    requires low != resolution.Max() && low != resolution.Min()
    requires high != resolution.Max() && high != resolution.Min()
    ensures CalculateVoltage(resolution, low).value <= CalculateVoltage(resolution, high).value
  {
    TruncDivMonotone(low * (REF_MILLIVOLTS * 2), high * (REF_MILLIVOLTS * 2),
                     Pow2(resolution.ResBits()));
  }
}
