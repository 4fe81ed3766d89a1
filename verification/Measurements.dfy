/** Typed performance measurements and the contract under which they may be compared. */
module Measurements {
  import opened Reals
  import opened Sequences

  datatype MeasurementUnit = Cycles | Microseconds

  datatype MeasurementSource = Ncu | CudaEvents | LegacyInferred

  datatype ComparisonKey = ComparisonKey(
    unit: MeasurementUnit, source: MeasurementSource, hardware: string, protocol: string)

  datatype Reading = Reading(value: real, key: ComparisonKey, legacyInferredUnit: bool)

  /** Construction refuses a value that is not positive. */
  type Measurement = m: Reading | m.value > 0.0
    witness Reading(1.0, ComparisonKey(Cycles, Ncu, "unknown", "unspecified"), false)

  predicate Comparable(a: Measurement, b: Measurement) {
    !a.legacyInferredUnit && !b.legacyInferredUnit && a.key == b.key
  }

  /** Measurements are incomparable when a unit was only inferred, or when anything of their
      contracts differs. */
  predicate Incomparable(a: Measurement, b: Measurement) {
    || a.legacyInferredUnit || b.legacyInferredUnit
    || a.key.unit != b.key.unit || a.key.source != b.key.source
    || a.key.hardware != b.key.hardware || a.key.protocol != b.key.protocol
  }

  /** `None` stands for the MeasurementComparisonError. */
  function IsFasterThan(a: Measurement, b: Measurement): (r: Option<bool>)
    ensures r.None? <==> Incomparable(a, b)
  {
    if Comparable(a, b) then Some(a.value < b.value) else None
  }

  function SpeedupOver(a: Measurement, baseline: Measurement): (r: Option<real>)
    ensures r.None? <==> Incomparable(a, baseline)
    ensures r.Some? ==> Times(r.value, a.value) == baseline.value
  {
    if Comparable(a, baseline) then Some(baseline.value / a.value) else None
  }

  /** A faster measurement is one with a speedup above 1; comparable measurements are
      ordered totally, and speedups along a chain multiply. */
  lemma SpeedupLaws(a: Measurement, b: Measurement, c: Measurement)
    requires Comparable(a, b) && Comparable(b, c)
    ensures IsFasterThan(a, b) == Some(SpeedupOver(a, b).value > 1.0)
    ensures IsFasterThan(a, b) == Some(true) || IsFasterThan(b, a) == Some(true) || a.value == b.value
    ensures Comparable(a, c) && SpeedupOver(a, b).value > 0.0
    ensures SpeedupOver(a, c).value == Times(SpeedupOver(a, b).value, SpeedupOver(b, c).value)
  {
    var x, y, z := b.value / a.value, c.value / b.value, c.value / a.value;
    assert x * a.value == b.value && y * b.value == c.value && z * a.value == c.value;
    RatioReaches(x, a.value, b.value, 1.0);
    Sign(x, a.value);
    assert (x * y - z) * a.value == 0.0;
  }

  lemma Sign(p: real, a: real)
    requires a > 0.0
    ensures p * a > 0.0 <==> p > 0.0
  {
  }
}
