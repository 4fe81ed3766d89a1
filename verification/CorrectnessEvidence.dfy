/** The check of a correctness distribution: aggregate numbers and one record for each
    case and each required seed. */
module CorrectnessEvidence {
  import opened Sequences

  /** A number as `float` delivers it. */
  datatype Number = Finite(value: real) | NotANumber | Infinite(positive: bool)

  /** A JSON value; a text carries what `float` makes of it, and an object whether it is
      empty. */
  datatype Value =
    | Null
    | Boolean(truth: bool)
    | Integer(n: int)
    | Float(number: Number)
    | Text(text: string, parsed: Option<Number>)
    | Array
    | Object(empty: bool)

  /** `isinstance(value, int)`, which also holds of booleans. */
  predicate IsInt(v: Value) { v.Integer? || v.Boolean? }

  function IntOf(v: Value): int
    requires IsInt(v)
  {
    match v
    case Integer(n) => n
    case Boolean(truth) => if truth then 1 else 0
  }

  predicate IsNumber(v: Value) { IsInt(v) || v.Float? }

  /** `value == n`. */
  predicate EqualsInt(v: Value, n: int) {
    if IsInt(v) then IntOf(v) == n else v == Float(Finite(n as real))
  }

  /** `float(value)`; `None` is the exception. */
  function ToFloat(v: Value): Option<Number> {
    match v
    case Integer(n) => Some(Finite(n as real))
    case Boolean(truth) => Some(Finite(if truth then 1.0 else 0.0))
    case Float(number) => Some(number)
    case Text(_, parsed) => parsed
    case _ => None
  }

  /** A comparison with NaN is false. */
  predicate Exceeds(n: Number, bound: real) {
    match n
    case Finite(v) => v > bound
    case Infinite(positive) => positive
    case NotANumber => false
  }

  predicate FiniteNonnegative(n: Number) { n.Finite? && n.value >= 0.0 }

  predicate IsText(v: Value, t: string) { v.Text? && v.text == t }

  const SEEDS: set<int> := {0, 42, 20260721}
  const MAX_SAMPLES := 1048576
  const STRIDE := "deterministic_stride"
  const SEMANTICS := "max_per_case_quantile_envelope"

  datatype Metric =
    | AbsMean | AbsRmse | AbsP50 | AbsP90 | AbsP99 | AbsP999 | AbsMax
    | NormalizedP50 | NormalizedP90 | NormalizedP99 | NormalizedP999 | NormalizedMax

  const METRICS: seq<Metric> := [
    AbsMean, AbsRmse, AbsP50, AbsP90, AbsP99, AbsP999, AbsMax,
    NormalizedP50, NormalizedP90, NormalizedP99, NormalizedP999, NormalizedMax]

  /** A missing field is `Null`, except where the source gives it a default. */
  datatype CaseRecord = NotAnObject | CaseRecord(
    caseId: Value, seed: Value, shape: Value, deterministic: Value,
    mismatches: Value, nonfinites: Value, normalizedMax: Option<Value>,
    count: Value, sampleCount: Value, sampling: Value, maxSamples: Value)

  datatype Cases = Absent | NotAList | Listed(records: seq<CaseRecord>)

  datatype Distribution = Distribution(
    cases: Cases, count: Value, sampleCount: Value, sampling: Value, maxSamples: Value, semantics: Value,
    metrics: map<Metric, Value>, mismatches: Value, nonfinites: Value)

  function Get(d: Distribution, m: Metric): Value { if m in d.metrics then d.metrics[m] else Null }

  // ----- what is accepted ---------------------------------------------------------------------

  predicate SamplingSound(count: Value, sampleCount: Value, sampling: Value, maxSamples: Value)
    requires IsInt(count)
  {
    && IsInt(sampleCount) && 1 <= IntOf(sampleCount) <= IntOf(count)
    && IsText(sampling, STRIDE) && EqualsInt(maxSamples, MAX_SAMPLES)
  }

  predicate MetricSound(v: Value) { IsNumber(v) && FiniteNonnegative(ToFloat(v).value) }

  predicate Counts(v: Value) { IsInt(v) && IntOf(v) >= 0 }

  predicate AggregateSound(d: Distribution) {
    && IsInt(d.count) && IntOf(d.count) >= 1
    && SamplingSound(d.count, d.sampleCount, d.sampling, d.maxSamples) && IsText(d.semantics, SEMANTICS)
    && (forall m :: m in METRICS ==> MetricSound(Get(d, m)))
    && IsInt(d.mismatches) && IntOf(d.mismatches) == 0 && IsInt(d.nonfinites) && IntOf(d.nonfinites) == 0
    && !Exceeds(ToFloat(Get(d, NormalizedMax)).value, 1.0)
  }

  function DefaultedMax(c: CaseRecord): Value
    requires c.CaseRecord?
  {
    if c.normalizedMax.Some? then c.normalizedMax.value else Float(Infinite(true))
  }

  predicate RecordSound(c: CaseRecord) {
    && c.CaseRecord? && c.caseId.Text? && c.caseId.text != ""
    && IsInt(c.seed) && IntOf(c.seed) in SEEDS
    && c.shape == Object(false) && c.deterministic == Boolean(true)
    && EqualsInt(c.mismatches, 0) && EqualsInt(c.nonfinites, 0)
    && ToFloat(DefaultedMax(c)).Some? && !Exceeds(ToFloat(DefaultedMax(c)).value, 1.0)
    && IsInt(c.count) && IntOf(c.count) >= 1
    && SamplingSound(c.count, c.sampleCount, c.sampling, c.maxSamples)
  }

  type Evidence = c: CaseRecord | RecordSound(c) witness SOUND

  const SOUND: CaseRecord := CaseRecord(
    Text("c", None), Integer(0), Object(false), Boolean(true), Integer(0), Integer(0),
    Some(Integer(0)), Integer(1), Integer(1), Text(STRIDE, None), Integer(MAX_SAMPLES))

  function PairOf(c: Evidence): (string, int) { (c.caseId.text, IntOf(c.seed)) }

  predicate AllSound(records: seq<CaseRecord>) {
    forall i :: 0 <= i < |records| ==> RecordSound(records[i])
  }

  ghost predicate NoPairTwice(records: seq<CaseRecord>)
    requires AllSound(records)
  {
    forall i, j :: 0 <= i < j < |records| ==> PairOf(records[i]) != PairOf(records[j])
  }

  function IdsOf(records: seq<CaseRecord>): set<string>
    requires AllSound(records)
  {
    set i | 0 <= i < |records| :: records[i].caseId.text
  }

  function PairsOf(records: seq<CaseRecord>): set<(string, int)>
    requires AllSound(records)
  {
    set i | 0 <= i < |records| :: PairOf(records[i])
  }

  /** Every case id appears with every required seed. */
  ghost predicate EveryPair(records: seq<CaseRecord>)
    requires AllSound(records)
  {
    forall id, seed :: id in IdsOf(records) && seed in SEEDS ==> (id, seed) in PairsOf(records)
  }

  function CountSum(records: seq<CaseRecord>): int
    requires AllSound(records)
  {
    if records == [] then 0 else CountSum(records[..|records| - 1]) + IntOf(records[|records| - 1].count)
  }

  function SampleSum(records: seq<CaseRecord>): int
    requires AllSound(records)
  {
    if records == [] then 0 else SampleSum(records[..|records| - 1]) + IntOf(records[|records| - 1].sampleCount)
  }

  ghost predicate RecordsAccepted(records: seq<CaseRecord>, count: int, sampleCount: int) {
    && records != [] && AllSound(records) && NoPairTwice(records) && EveryPair(records)
    && CountSum(records) == count && SampleSum(records) == sampleCount
  }

  /** A distribution without case records is accepted as it is. */
  ghost predicate Accepted(d: Distribution) {
    d.cases.Absent?
    || (d.cases.Listed? && AggregateSound(d)
        && RecordsAccepted(d.cases.records, IntOf(d.count), IntOf(d.sampleCount)))
  }

  // ----- the check -----------------------------------------------------------------------------------

  datatype Fault =
    | NoCaseRecords | InvalidCount | InvalidSampling | InvalidMetric(metric: Metric) | InvalidCounter
    | Mismatches | ToleranceExceeded | BadRecord(index: nat) | DuplicatePair(index: nat)
    | SeedsNotCovered | PairsNotCovered | CountDiffers | SampleCountDiffers

  method CheckAggregate(d: Distribution) returns (fault: Option<Fault>)
    ensures fault.None? <==> AggregateSound(d)
  {
    if !IsInt(d.count) || IntOf(d.count) < 1 { return Some(InvalidCount); }
    if !SamplingSound(d.count, d.sampleCount, d.sampling, d.maxSamples) || !IsText(d.semantics, SEMANTICS) {
      return Some(InvalidSampling);
    }
    for k := 0 to |METRICS|
      invariant forall j :: 0 <= j < k ==> MetricSound(Get(d, METRICS[j]))
    {
      if !MetricSound(Get(d, METRICS[k])) {
        return Some(InvalidMetric(METRICS[k]));
      }
    }
    assert METRICS[11] == NormalizedMax;
    if !Counts(d.mismatches) || !Counts(d.nonfinites) { return Some(InvalidCounter); }
    if IntOf(d.mismatches) != 0 || IntOf(d.nonfinites) != 0 { return Some(Mismatches); }
    if Exceeds(ToFloat(Get(d, NormalizedMax)).value, 1.0) { return Some(ToleranceExceeded); }
    fault := None;
  }

  function SeedsOf(records: seq<CaseRecord>): set<int>
    requires AllSound(records)
  {
    set i | 0 <= i < |records| :: IntOf(records[i].seed)
  }

  /** One more record extends the accumulated sets and sums. */
  lemma SumsSnoc(records: seq<CaseRecord>, k: nat)
    requires k < |records| && AllSound(records[..k]) && RecordSound(records[k])
    ensures AllSound(records[..k + 1])
    ensures CountSum(records[..k + 1]) == CountSum(records[..k]) + IntOf(records[k].count)
    ensures SampleSum(records[..k + 1]) == SampleSum(records[..k]) + IntOf(records[k].sampleCount)
  {
    var before, after := records[..k], records[..k + 1];
    TakeSnoc(records, k);
    assert after[..|after| - 1] == before;
  }

  lemma IdsSnoc(records: seq<CaseRecord>, k: nat)
    requires k < |records| && AllSound(records[..k]) && RecordSound(records[k]) && AllSound(records[..k + 1])
    ensures IdsOf(records[..k + 1]) == IdsOf(records[..k]) + {records[k].caseId.text}
  {
    var before, after := records[..k], records[..k + 1];
    assert after[k] == records[k];
    forall id | id in IdsOf(before) ensures id in IdsOf(after) {
      var i :| 0 <= i < k && before[i].caseId.text == id;
      assert after[i].caseId.text == id;
    }
  }

  lemma SeedsSnoc(records: seq<CaseRecord>, k: nat)
    requires k < |records| && AllSound(records[..k]) && RecordSound(records[k]) && AllSound(records[..k + 1])
    ensures SeedsOf(records[..k + 1]) == SeedsOf(records[..k]) + {IntOf(records[k].seed)}
  {
    var before, after := records[..k], records[..k + 1];
    assert after[k] == records[k];
    forall seed | seed in SeedsOf(before) ensures seed in SeedsOf(after) {
      var i :| 0 <= i < k && IntOf(before[i].seed) == seed;
      assert IntOf(after[i].seed) == seed;
    }
  }

  lemma PairsSnoc(records: seq<CaseRecord>, k: nat)
    requires k < |records| && AllSound(records[..k]) && RecordSound(records[k]) && AllSound(records[..k + 1])
    ensures PairsOf(records[..k + 1]) == PairsOf(records[..k]) + {PairOf(records[k])}
  {
    var before, after := records[..k], records[..k + 1];
    assert after[k] == records[k];
    forall pair | pair in PairsOf(before) ensures pair in PairsOf(after) {
      var i :| 0 <= i < k && PairOf(before[i]) == pair;
      assert PairOf(after[i]) == pair;
    }
  }

  /** A pair is new exactly when the records stay free of duplicates. */
  lemma NewPair(records: seq<CaseRecord>, k: nat)
    requires k < |records| && AllSound(records[..k + 1]) && AllSound(records[..k]) && NoPairTwice(records[..k])
    ensures NoPairTwice(records[..k + 1]) <==> PairOf(records[..k + 1][k]) !in PairsOf(records[..k])
  {
    var before, after := records[..k], records[..k + 1];
    assert forall i :: 0 <= i < k ==> after[i] == before[i];
    if PairOf(after[k]) in PairsOf(before) {
      var i :| 0 <= i < k && PairOf(before[i]) == PairOf(after[k]);
      assert PairOf(after[i]) == PairOf(after[k]);
    } else {
      forall i, j | 0 <= i < j < |after| ensures PairOf(after[i]) != PairOf(after[j]) {
        assert PairOf(before[i]) in PairsOf(before);
      }
    }
  }

  lemma PrefixOfAccepted(records: seq<CaseRecord>, k: nat)
    requires k <= |records|
    ensures AllSound(records) && NoPairTwice(records) ==> AllSound(records[..k]) && NoPairTwice(records[..k])
  {
  }

  /** The comparison with the expected pairs decides, and the one with the seeds is
      implied by it. */
  lemma CoverageDecides(records: seq<CaseRecord>)
    requires AllSound(records) && records != []
    ensures EveryPair(records)
            <==> PairsOf(records) == set id, seed | id in IdsOf(records) && seed in SEEDS :: (id, seed)
    ensures EveryPair(records) ==> SeedsOf(records) == SEEDS
  {
    var expected := set id, seed | id in IdsOf(records) && seed in SEEDS :: (id, seed);
    forall pair | pair in PairsOf(records) ensures pair in expected {
      var i :| 0 <= i < |records| && PairOf(records[i]) == pair;
      assert records[i].caseId.text in IdsOf(records);
    }
    if EveryPair(records) {
      var id := records[0].caseId.text;
      assert id in IdsOf(records);
      forall seed | seed in SEEDS ensures seed in SeedsOf(records) {
        assert (id, seed) in PairsOf(records);
        var i :| 0 <= i < |records| && PairOf(records[i]) == (id, seed);
      }
    }
  }

  /** `_validate_correctness_distribution`. */
  method ValidateCorrectnessDistribution(d: Distribution) returns (fault: Option<Fault>)
    ensures fault.None? <==> Accepted(d)
  {
    if d.cases.Absent? { return None; }
    if !d.cases.Listed? || d.cases.records == [] { return Some(NoCaseRecords); }
    var aggregate := CheckAggregate(d);
    if aggregate.Some? { return aggregate; }
    fault := CheckRecords(d.cases.records, IntOf(d.count), IntOf(d.sampleCount));
  }

  method CheckRecords(records: seq<CaseRecord>, count: int, sampleCount: int) returns (fault: Option<Fault>)
    requires records != []
    ensures fault.None? <==> RecordsAccepted(records, count, sampleCount)
  {
    var seeds: set<int>, ids: set<string>, pairs: set<(string, int)> := {}, {}, {};
    var countSum, sampleSum := 0, 0;
    for k := 0 to |records|
      invariant AllSound(records[..k]) && NoPairTwice(records[..k])
      invariant ids == IdsOf(records[..k]) && seeds == SeedsOf(records[..k]) && pairs == PairsOf(records[..k])
      invariant countSum == CountSum(records[..k]) && sampleSum == SampleSum(records[..k])
    {
      var record := records[k];
      if !RecordSound(record) { return Some(BadRecord(k)); }
      SumsSnoc(records, k);
      IdsSnoc(records, k);
      SeedsSnoc(records, k);
      PairsSnoc(records, k);
      NewPair(records, k);
      PrefixOfAccepted(records, k + 1);
      var pair := PairOf(record);
      if pair in pairs {
        return Some(DuplicatePair(k));
      }
      countSum := countSum + IntOf(record.count);
      sampleSum := sampleSum + IntOf(record.sampleCount);
      pairs := pairs + {pair};
      seeds := seeds + {IntOf(record.seed)};
      ids := ids + {record.caseId.text};
    }
    assert records[..|records|] == records;
    CoverageDecides(records);
    if seeds != SEEDS {
      return Some(SeedsNotCovered);
    }
    var expected := set id, seed | id in ids && seed in SEEDS :: (id, seed);
    if pairs != expected {
      return Some(PairsNotCovered);
    }
    if countSum != count { return Some(CountDiffers); }
    if sampleSum != sampleCount { return Some(SampleCountDiffers); }
    fault := None;
  }

  // ----- what acceptance means -------------------------------------------------------------------------

  lemma {:induction false} ProductSize(ids: set<string>, pairs: set<(string, int)>)
    requires pairs == set id, seed | id in ids && seed in SEEDS :: (id, seed)
    ensures |pairs| == 3 * |ids|
    decreases ids
  {
    if ids == {} {
      assert pairs == {};
    } else {
      var id :| id in ids;
      var rest := ids - {id};
      var others := set i, seed | i in rest && seed in SEEDS :: (i, seed);
      var own := {(id, 0), (id, 42), (id, 20260721)};
      ProductSize(rest, others);
      forall pair | pair in pairs ensures pair in others + own {
        assert pair.1 in SEEDS;
      }
      forall pair | pair in others + own ensures pair in pairs {
        assert 0 in SEEDS && 42 in SEEDS && 20260721 in SEEDS;
      }
      assert pairs == others + own;
      assert |own| == 3;
      assert others !! own;
    }
  }

  lemma {:induction false} DistinctPairsCount(records: seq<CaseRecord>)
    requires AllSound(records) && NoPairTwice(records)
    ensures |PairsOf(records)| == |records|
  {
    if records == [] {
      assert PairsOf(records) == {};
    } else {
      var k := |records| - 1;
      assert records[..k + 1] == records;
      PrefixOfAccepted(records, k);
      PairsSnoc(records, k);
      NewPair(records, k);
      DistinctPairsCount(records[..k]);
    }
  }

  /** Record i is the only one for this case id and seed. */
  ghost predicate OnlyRecordOf(records: seq<CaseRecord>, i: nat, id: string, seed: int)
    requires AllSound(records)
  {
    && i < |records| && PairOf(records[i]) == (id, seed)
    && forall j :: 0 <= j < |records| && PairOf(records[j]) == (id, seed) ==> j == i
  }

  lemma OneRecordForPair(records: seq<CaseRecord>, id: string, seed: int) returns (i: nat)
    requires AllSound(records) && NoPairTwice(records) && (id, seed) in PairsOf(records)
    ensures OnlyRecordOf(records, i, id, seed)
  {
    i :| 0 <= i < |records| && PairOf(records[i]) == (id, seed);
  }

  /** The value is this whole number, or the boolean that counts as it. */
  predicate IsWhole(v: Value, n: int) {
    v == Integer(n) || (v == Boolean(true) && n == 1) || (v == Boolean(false) && n == 0)
  }

  predicate IsZero(v: Value) { IsWhole(v, 0) || v == Float(Finite(0.0)) }

  /** Not above 1; this includes what is not a number. */
  predicate NumberWithinOne(n: Number) {
    n == NotANumber || n == Infinite(false) || (n.Finite? && n.value <= 1.0)
  }

  ghost predicate WithinOne(v: Value) {
    || v.Boolean?
    || (v.Integer? && v.n <= 1)
    || (v.Float? && NumberWithinOne(v.number))
    || (v.Text? && v.parsed.Some? && NumberWithinOne(v.parsed.value))
  }

  ghost predicate SampledFrom(count: Value, sampleCount: Value) {
    exists n, m :: IsWhole(count, n) && IsWhole(sampleCount, m) && 1 <= m <= n
  }

  predicate SamplingProtocol(sampling: Value, maxSamples: Value) {
    && sampling.Text? && sampling.text == "deterministic_stride"
    && (maxSamples == Integer(1048576) || maxSamples == Float(Finite(1048576.0)))
  }

  /** What a record must say: a named case, one of the three seeds, a shape, a deterministic
      run without mismatches and without values that are not finite, a normalized error
      that is there and not above 1, and a sample of its values. */
  ghost predicate RecordSays(c: CaseRecord) {
    && c.CaseRecord?
    && c.caseId.Text? && |c.caseId.text| > 0
    && (IsWhole(c.seed, 0) || IsWhole(c.seed, 42) || IsWhole(c.seed, 20260721))
    && c.shape == Object(false) && c.deterministic == Boolean(true)
    && IsZero(c.mismatches) && IsZero(c.nonfinites)
    && c.normalizedMax.Some? && WithinOne(c.normalizedMax.value)
    && SampledFrom(c.count, c.sampleCount) && SamplingProtocol(c.sampling, c.maxSamples)
  }

  lemma SoundExactlyWhen(c: CaseRecord)
    ensures RecordSound(c) <==> RecordSays(c)
  {
    if c.CaseRecord? {
      SamplesExactlyWhen(c.count, c.sampleCount, c.sampling, c.maxSamples);
    }
  }

  /** A record whose normalized error is not a number is accepted. */
  lemma NotANumberIsSound()
    ensures RecordSound(SOUND.(normalizedMax := Some(Float(NotANumber))))
  {
    SoundExactlyWhen(SOUND.(normalizedMax := Some(Float(NotANumber))));
  }

  lemma SamplesExactlyWhen(count: Value, sampleCount: Value, sampling: Value, maxSamples: Value)
    ensures IsInt(count) && IntOf(count) >= 1 && SamplingSound(count, sampleCount, sampling, maxSamples)
            <==> SampledFrom(count, sampleCount) && SamplingProtocol(sampling, maxSamples)
  {
    if IsInt(count) && IsInt(sampleCount) {
      assert IsWhole(count, IntOf(count)) && IsWhole(sampleCount, IntOf(sampleCount));
    }
  }

  /** A number, whole or not, that is finite and not negative. */
  ghost predicate IsAmount(v: Value) {
    || v.Boolean?
    || (v.Integer? && v.n >= 0)
    || (v.Float? && v.number.Finite? && v.number.value >= 0.0)
  }

  /** What the aggregate must say: all twelve metrics are amounts, the largest normalized
      error is not above 1, and there are no mismatches. */
  ghost predicate AggregateSays(d: Distribution) {
    && (forall m: Metric :: m in d.metrics && IsAmount(d.metrics[m]))
    && WithinOne(d.metrics[NormalizedMax])
    && IsWhole(d.mismatches, 0) && IsWhole(d.nonfinites, 0)
    && SampledFrom(d.count, d.sampleCount) && SamplingProtocol(d.sampling, d.maxSamples)
    && d.semantics.Text? && d.semantics.text == "max_per_case_quantile_envelope"
  }

  lemma EveryMetricIsListed(m: Metric)
    ensures m in METRICS
  {
    match m
    case AbsMean => assert METRICS[0] == m;
    case AbsRmse => assert METRICS[1] == m;
    case AbsP50 => assert METRICS[2] == m;
    case AbsP90 => assert METRICS[3] == m;
    case AbsP99 => assert METRICS[4] == m;
    case AbsP999 => assert METRICS[5] == m;
    case AbsMax => assert METRICS[6] == m;
    case NormalizedP50 => assert METRICS[7] == m;
    case NormalizedP90 => assert METRICS[8] == m;
    case NormalizedP99 => assert METRICS[9] == m;
    case NormalizedP999 => assert METRICS[10] == m;
    case NormalizedMax => assert METRICS[11] == m;
  }

  lemma MetricExactlyWhen(d: Distribution, m: Metric)
    ensures MetricSound(Get(d, m)) <==> m in d.metrics && IsAmount(d.metrics[m])
  {
  }

  lemma AggregateExactlyWhen(d: Distribution)
    ensures AggregateSound(d) <==> AggregateSays(d)
  {
    SamplesExactlyWhen(d.count, d.sampleCount, d.sampling, d.maxSamples);
    EveryMetricIsListed(NormalizedMax);
    forall m: Metric
      ensures m in METRICS && (MetricSound(Get(d, m)) <==> m in d.metrics && IsAmount(d.metrics[m]))
    {
      EveryMetricIsListed(m);
      MetricExactlyWhen(d, m);
    }
  }

  /** What an accepted distribution with records says, field by field. */
  lemma AcceptedSays(d: Distribution)
    ensures Accepted(d) ==> d.cases.Absent? || d.cases.Listed?
    ensures d.cases.Listed? ==>
              (Accepted(d) <==>
                && AggregateSays(d) && d.cases.records != []
                && (forall i :: 0 <= i < |d.cases.records| ==> RecordSays(d.cases.records[i]))
                && AllSound(d.cases.records) && NoPairTwice(d.cases.records) && EveryPair(d.cases.records)
                && IsWhole(d.count, CountSum(d.cases.records)) && IsWhole(d.sampleCount, SampleSum(d.cases.records)))
  {
    AggregateExactlyWhen(d);
    if d.cases.Listed? {
      var records := d.cases.records;
      forall i | 0 <= i < |records| ensures RecordSound(records[i]) <==> RecordSays(records[i]) {
        SoundExactlyWhen(records[i]);
      }
    }
  }

  /** Accepted case records are exactly one for each case id and each required seed: three
      times as many records as ids, whose counts add up to the aggregate counts. */
  lemma AcceptedIsOneRecordPerPair(records: seq<CaseRecord>, count: int, sampleCount: int)
    requires RecordsAccepted(records, count, sampleCount)
    ensures |records| == 3 * |IdsOf(records)|
    ensures forall id, seed :: id in IdsOf(records) && seed in SEEDS ==>
      exists i :: OnlyRecordOf(records, i, id, seed)
    ensures count == CountSum(records) && sampleCount == SampleSum(records)
    ensures |records| <= sampleCount <= count
  {
    CoverageDecides(records);
    ProductSize(IdsOf(records), PairsOf(records));
    DistinctPairsCount(records);
    SumsAreOrdered(records);
    forall id, seed | id in IdsOf(records) && seed in SEEDS
      ensures exists i :: OnlyRecordOf(records, i, id, seed)
    {
      var i := OneRecordForPair(records, id, seed);
    }
  }

  lemma {:induction false} SumsAreOrdered(records: seq<CaseRecord>)
    requires AllSound(records)
    ensures |records| <= SampleSum(records) <= CountSum(records)
  {
    if records != [] {
      assert RecordSound(records[|records| - 1]);
      SumsAreOrdered(records[..|records| - 1]);
    }
  }

  // ----- the order of the records ---------------------------------------------------------------------

  lemma {:induction false} SumsWithout(records: seq<CaseRecord>, i: nat)
    requires AllSound(records) && i < |records|
    ensures AllSound(WithoutIndex(records, i))
    ensures CountSum(WithoutIndex(records, i)) == CountSum(records) - IntOf(records[i].count)
    ensures SampleSum(WithoutIndex(records, i)) == SampleSum(records) - IntOf(records[i].sampleCount)
  {
    var n := |records| - 1;
    assert records == records[..n] + [records[n]];
    WithoutIndexSnoc(records[..n], records[n], i);
    if i < n {
      SumsWithout(records[..n], i);
      var rest := WithoutIndex(records[..n], i);
      assert (rest + [records[n]])[..n - 1] == rest;
    }
  }

  lemma {:induction false} SumsPermute(a: seq<CaseRecord>, b: seq<CaseRecord>)
    requires AllSound(a) && AllSound(b) && multiset(a) == multiset(b)
    ensures CountSum(a) == CountSum(b) && SampleSum(a) == SampleSum(b)
    decreases |a|
  {
    PermutationSize(a, b);
    if a != [] {
      var i := PermutationHead(a, b);
      SumsWithout(a, 0);
      assert WithoutIndex(a, 0) == a[1..];
      SumsWithout(b, i);
      SumsPermute(a[1..], WithoutIndex(b, i));
    }
  }

  /** Permuting the records does not change whether they are accepted. */
  lemma AcceptanceIgnoresOrder(a: seq<CaseRecord>, b: seq<CaseRecord>, count: int, sampleCount: int)
    requires multiset(a) == multiset(b) && RecordsAccepted(a, count, sampleCount)
    ensures RecordsAccepted(b, count, sampleCount)
  {
    PermutationSize(a, b);
    forall i | 0 <= i < |b| ensures RecordSound(b[i]) { assert b[i] in multiset(a); }
    forall i, j | 0 <= i < j < |b| ensures PairOf(b[i]) != PairOf(b[j]) {
      var i', j' := PairInPermutation(b, a, i, j);
    }
    SumsPermute(a, b);
    forall id, seed | id in IdsOf(b) && seed in SEEDS ensures (id, seed) in PairsOf(b) {
      var i :| 0 <= i < |b| && b[i].caseId.text == id;
      assert b[i] in multiset(a);
      var k :| 0 <= k < |a| && a[k] == b[i];
      assert a[k].caseId.text in IdsOf(a);
      assert (id, seed) in PairsOf(a);
      var m :| 0 <= m < |a| && PairOf(a[m]) == (id, seed);
      assert a[m] in multiset(b);
      var n :| 0 <= n < |b| && b[n] == a[m];
      assert PairOf(b[n]) == (id, seed);
    }
  }

  /** The check on the records in another order gives the same verdict. */
  method ValidateInTwoOrders(d: Distribution, other: seq<CaseRecord>) returns (a: Option<Fault>, b: Option<Fault>)
    requires d.cases.Listed? && multiset(d.cases.records) == multiset(other)
    ensures a.None? <==> b.None?
  {
    a := ValidateCorrectnessDistribution(d);
    b := ValidateCorrectnessDistribution(d.(cases := Listed(other)));
    PermutationSize(d.cases.records, other);
    var swapped := d.(cases := Listed(other));
    assert AggregateSound(swapped) <==> AggregateSound(d);
    if a.None? { AcceptanceIgnoresOrder(d.cases.records, other, IntOf(d.count), IntOf(d.sampleCount)); }
    if b.None? { AcceptanceIgnoresOrder(other, d.cases.records, IntOf(d.count), IntOf(d.sampleCount)); }
  }
}
