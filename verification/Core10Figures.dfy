/** The figures of the Core 10 summary, in terms of the measured latencies. */
module Core10Figures {
  import opened Reals
  import opened Sequences
  import opened OrderStatistics
  import opened PerformanceGate
  import opened Core10

  // ----- which input rows count -------------------------------------------------------------

  ghost predicate LastOf(rows: seq<CandidateRow>, id: string, k: nat) {
    && k < |rows| && rows[k].taskId == id
    && forall j :: k < j < |rows| ==> rows[j].taskId != id
  }

  /** The candidate of a task is its last row. */
  lemma {:induction false} CandidateIsLast(rows: seq<CandidateRow>, id: string) returns (k: nat)
    ensures LastCandidate(rows, id).None? <==> forall j :: 0 <= j < |rows| ==> rows[j].taskId != id
    ensures LastCandidate(rows, id).Some? ==> LastOf(rows, id, k) && LastCandidate(rows, id) == Some(rows[k])
  {
    k := 0;
    if rows != [] {
      var n := |rows| - 1;
      if rows[n].taskId == id { k := n; } else { k := CandidateIsLast(rows[..n], id); }
    }
  }

  /** The positions of a task's rows, in order. */
  ghost predicate PositionsOf(rows: seq<TorchRow>, id: string, methods: seq<TorchRow>, at: seq<nat>) {
    && |at| == |methods|
    && (forall k :: 0 <= k < |at| ==> at[k] < |rows| && rows[at[k]] == methods[k])
    && (forall k, m :: 0 <= k < m < |at| ==> at[k] < at[m])
    && (forall i :: 0 <= i < |rows| ==> (i in at <==> rows[i].taskId == id))
  }

  /** The methods of a task are all its rows, in order. */
  lemma {:induction false} MethodsAreRows(rows: seq<TorchRow>, id: string) returns (at: seq<nat>)
    ensures PositionsOf(rows, id, MethodsFor(rows, id), at)
  {
    at := [];
    if rows != [] {
      var n := |rows| - 1;
      var before := MethodsAreRows(rows[..n], id);
      at := before + if rows[n].taskId == id then [n] else [];
      assert n !in before;
    }
  }

  // ----- counts ---------------------------------------------------------------------------------

  lemma {:induction false} CountRowsIsSize(rows: seq<Row>, p: Row -> bool)
    ensures CountRows(rows, p) == |set i | 0 <= i < |rows| && p(rows[i])|
  {
    if rows != [] {
      var n := |rows| - 1;
      CountRowsIsSize(rows[..n], p);
      CountRowsSnoc(rows[..n], rows[n], p);
      assert rows == rows[..n] + [rows[n]];
      RowIndicesSnoc(rows[..n], rows[n], p);
    }
  }

  lemma {:induction false} CountRowsSnoc(rows: seq<Row>, row: Row, p: Row -> bool)
    ensures CountRows(rows + [row], p) == CountRows(rows, p) + if p(row) then 1 else 0
  {
    if rows == [] {
      assert [row][1..] == [];
    } else {
      assert (rows + [row])[1..] == rows[1..] + [row];
      CountRowsSnoc(rows[1..], row, p);
    }
  }

  lemma RowIndicesSnoc(rows: seq<Row>, row: Row, p: Row -> bool)
    ensures var more := rows + [row];
            (set i | 0 <= i < |more| && p(more[i]))
            == (set i | 0 <= i < |rows| && p(rows[i])) + if p(row) then {|rows|} else {}
  {
  }

  predicate Beats(us: real, best: Option<TorchRow>) { best.Some? && us < best.value.medianUs }
  predicate IsBeatenBy(us: real, best: Option<TorchRow>) { best.Some? && us > best.value.medianUs }

  /** A row whose two comparisons are about its selected latency and this attempted one; the
      best method is a correct and stable one. */
  ghost predicate RowFits(row: Row, attemptUs: real) {
    && row.selectedUs > 0.0 && attemptUs > 0.0
    && BestAt(row.selectedVersus, row.selectedUs, row.torchBest)
    && BestAt(row.candidateVersus, attemptUs, row.torchBest)
    && (row.torchBest.Some? ==> Eligible(row.torchBest.value))
  }

  ghost predicate RowsFit(rows: seq<Row>, attempts: seq<real>) {
    |attempts| == |rows| && forall i :: 0 <= i < |rows| ==> RowFits(rows[i], attempts[i])
  }

  /** What the outcome figures count. */
  ghost predicate OutcomesCounted(s: Counts, rows: seq<Row>) {
    && s.denominator == |rows|
    && s.improved == |set i | 0 <= i < |rows| && rows[i].outcome == Improved|
    && s.noImprovement == |set i | 0 <= i < |rows| && rows[i].outcome == NoImprovement|
    && s.inconclusive == |set i | 0 <= i < |rows| && rows[i].outcome == Inconclusive|
    && s.correct == |set i | 0 <= i < |rows| && rows[i].correct|
    && s.stable == |set i | 0 <= i < |rows| && rows[i].stable|
  }

  /** What the figures of the comparison with PyTorch count. */
  ghost predicate ComparisonsCounted(s: Counts, rows: seq<Row>, attempts: seq<real>)
    requires |attempts| == |rows|
  {
    && s.comparable == |set i | 0 <= i < |rows| && rows[i].torchBest.Some?|
    && s.customFaster == |set i | 0 <= i < |rows| && Beats(rows[i].selectedUs, rows[i].torchBest)|
    && s.torchFaster == |set i | 0 <= i < |rows| && IsBeatenBy(rows[i].selectedUs, rows[i].torchBest)|
    && s.attemptFaster == |set i | 0 <= i < |rows| && Beats(attempts[i], rows[i].torchBest)|
    && s.torchStable == s.comparable
  }

  lemma OutcomesAreCounted(rows: seq<Row>)
    requires forall i :: 0 <= i < |rows| ==> Coherent(rows[i])
    ensures OutcomesCounted(CountsOf(rows), rows)
  {
    OutcomeSize(rows, IsVerified(), set i | 0 <= i < |rows| && rows[i].outcome == Improved);
    OutcomeSize(rows, HasOutcome(NoImprovement), set i | 0 <= i < |rows| && rows[i].outcome == NoImprovement);
    OutcomeSize(rows, HasOutcome(Inconclusive), set i | 0 <= i < |rows| && rows[i].outcome == Inconclusive);
    OutcomeSize(rows, IsCorrect(), set i | 0 <= i < |rows| && rows[i].correct);
    OutcomeSize(rows, IsStable(), set i | 0 <= i < |rows| && rows[i].stable);
  }

  lemma OutcomeSize(rows: seq<Row>, p: Row -> bool, at: set<int>)
    requires at == set i | 0 <= i < |rows| && p(rows[i])
    ensures CountRows(rows, p) == |at|
  {
    CountRowsIsSize(rows, p);
  }

  lemma QuotientsCompare(v: Comparison, us: real, best: Option<TorchRow>)
    requires us > 0.0 && BestAt(v, us, best)
    ensures Above1(v) <==> Beats(us, best)
    ensures Below1(v) <==> IsBeatenBy(us, best)
  {
    if v.best.Some? {
      assert Times(v.best.value - 1.0, us) == best.value.medianUs - us;
      TimesSign(v.best.value - 1.0, us);
    }
  }

  lemma TimesSign(x: real, y: real)
    requires y > 0.0
    ensures Times(x, y) > 0.0 <==> x > 0.0
    ensures Times(x, y) < 0.0 <==> x < 0.0
  {
  }

  lemma ComparisonsAreCounted(rows: seq<Row>, attempts: seq<real>)
    requires RowsFit(rows, attempts)
    ensures ComparisonsCounted(CountsOf(rows), rows, attempts)
  {
    hide BestAt, Beats, IsBeatenBy, Above1, Below1;
    forall i | 0 <= i < |rows|
      ensures Above1(rows[i].selectedVersus) <==> Beats(rows[i].selectedUs, rows[i].torchBest)
      ensures Below1(rows[i].selectedVersus) <==> IsBeatenBy(rows[i].selectedUs, rows[i].torchBest)
      ensures Above1(rows[i].candidateVersus) <==> Beats(attempts[i], rows[i].torchBest)
      ensures rows[i].selectedVersus.best.Some? <==> rows[i].torchBest.Some?
      ensures rows[i].torchBest.Some? ==> rows[i].torchBest.value.stable
    {
      assert RowFits(rows[i], attempts[i]);
      QuotientsCompare(rows[i].selectedVersus, rows[i].selectedUs, rows[i].torchBest);
      QuotientsCompare(rows[i].candidateVersus, attempts[i], rows[i].torchBest);
      BestIsThere(rows[i].selectedVersus, rows[i].selectedUs, rows[i].torchBest);
    }
    OutcomeSize(rows, IsComparable(), set i | 0 <= i < |rows| && rows[i].torchBest.Some?);
    OutcomeSize(rows, TorchStable(), set i | 0 <= i < |rows| && rows[i].torchBest.Some?);
    OutcomeSize(rows, CustomFaster(), set i | 0 <= i < |rows| && Beats(rows[i].selectedUs, rows[i].torchBest));
    OutcomeSize(rows, TorchFaster(), set i | 0 <= i < |rows| && IsBeatenBy(rows[i].selectedUs, rows[i].torchBest));
    OutcomeSize(rows, AttemptFaster(), set i | 0 <= i < |rows| && Beats(attempts[i], rows[i].torchBest));
  }

  lemma BestIsThere(v: Comparison, us: real, best: Option<TorchRow>)
    requires BestAt(v, us, best)
    ensures v.best.Some? <==> best.Some?
  {
  }

  // ----- means ----------------------------------------------------------------------------------

  /** Quotients, divisors and dividends. */
  ghost predicate Quotients(q: seq<real>, d: seq<real>, n: seq<real>) {
    |q| == |d| == |n| && forall i :: 0 <= i < |q| ==> Times(q[i], d[i]) == n[i]
  }

  lemma TimesExchange(a: real, b: real, c: real, d: real)
    ensures Times(Times(a, b), Times(c, d)) == Times(Times(a, c), Times(b, d))
  {
  }

  lemma {:induction false} ProductOfQuotients(q: seq<real>, d: seq<real>, n: seq<real>)
    requires Quotients(q, d, n)
    ensures Times(Product(q), Product(d)) == Product(n)
  {
    if q != [] {
      ProductOfQuotients(q[1..], d[1..], n[1..]);
      ProductStep(q);
      ProductStep(d);
      ProductStep(n);
      TimesExchange(q[0], Product(q[1..]), d[0], Product(d[1..]));
    }
  }

  lemma ProductStep(s: seq<real>)
    requires s != []
    ensures Product(s) == Times(s[0], Product(s[1..]))
  {
  }

  /** The values of the rows that have a best method. */
  function Comparable(rows: seq<Row>, values: seq<real>): seq<real>
    requires |rows| == |values|
  {
    if rows == [] then []
    else (if rows[0].torchBest.Some? then [values[0]] else []) + Comparable(rows[1..], values[1..])
  }

  function Selected(rows: seq<Row>): seq<real> {
    seq(|rows|, i requires 0 <= i < |rows| => rows[i].selectedUs)
  }

  /** The latencies of the best methods; the 0 of a row without one is never used. */
  function Torch(rows: seq<Row>): seq<real> {
    seq(|rows|, i requires 0 <= i < |rows| =>
      if rows[i].torchBest.Some? then rows[i].torchBest.value.medianUs else 0.0)
  }

  ghost predicate ComparedAt(rows: seq<Row>, versus: Row -> Comparison, latencies: seq<real>) {
    && |latencies| == |rows|
    && forall i :: 0 <= i < |rows| ==> BestAt(versus(rows[i]), latencies[i], rows[i].torchBest)
  }

  lemma QuotientsCons(x: real, y: real, z: real, q: seq<real>, d: seq<real>, n: seq<real>)
    requires Times(x, y) == z && Quotients(q, d, n)
    ensures Quotients([x] + q, [y] + d, [z] + n)
  {
  }

  lemma {:induction false} ComparisonsAreQuotients(rows: seq<Row>, versus: Row -> Comparison, latencies: seq<real>)
    requires ComparedAt(rows, versus, latencies)
    ensures |Torch(rows)| == |rows|
    ensures Quotients(Comparisons(rows, versus), Comparable(rows, latencies), Comparable(rows, Torch(rows)))
  {
    if rows != [] {
      var rest := rows[1..];
      assert ComparedAt(rest, versus, latencies[1..]);
      ComparisonsAreQuotients(rest, versus, latencies[1..]);
      assert Torch(rows)[1..] == Torch(rest);
      assert BestAt(versus(rows[0]), latencies[0], rows[0].torchBest);
      if rows[0].torchBest.Some? {
        QuotientsCons(versus(rows[0]).best.value, latencies[0], rows[0].torchBest.value.medianUs,
                      Comparisons(rest, versus), Comparable(rest, latencies[1..]), Comparable(rest, Torch(rest)));
      }
    }
  }

  /** A mean of quotients: its product times that of the divisors is that of the dividends. */
  ghost predicate MeanOf(m: Option<GeometricMean>, d: seq<real>, n: seq<real>) {
    && |d| == |n|
    && (m.None? <==> d == [])
    && (m.Some? ==> m.value.degree == |d| && Times(m.value.product, Product(d)) == Product(n))
  }

  lemma MeanOfQuotients(m: Option<GeometricMean>, q: seq<real>, d: seq<real>, n: seq<real>)
    requires Quotients(q, d, n) && m == Geomean(q) && (m.None? ==> q == [])
    ensures MeanOf(m, d, n)
  {
    ProductOfQuotients(q, d, n);
  }

  lemma LibraryMeans(rows: seq<Row>, s: Summary, attempts: seq<real>)
    requires RowsFit(rows, attempts) && Summarize(rows) == Some(s)
    ensures |Torch(rows)| == |Selected(rows)| == |rows|
    ensures MeanOf(s.library, Comparable(rows, Selected(rows)), Comparable(rows, Torch(rows)))
    ensures MeanOf(s.attemptedLibrary, Comparable(rows, attempts), Comparable(rows, Torch(rows)))
  {
    hide BestAt, MeanOf, Quotients, Geomean;
    forall i | 0 <= i < |rows|
      ensures BestAt(rows[i].selectedVersus, Selected(rows)[i], rows[i].torchBest)
      ensures BestAt(rows[i].candidateVersus, attempts[i], rows[i].torchBest)
    {
      assert RowFits(rows[i], attempts[i]);
    }
    assert ComparedAt(rows, SelectedVersus(), Selected(rows));
    assert ComparedAt(rows, CandidateVersus(), attempts);
    ComparisonsAreQuotients(rows, SelectedVersus(), Selected(rows));
    ComparisonsAreQuotients(rows, CandidateVersus(), attempts);
    MeanOfQuotients(s.library, Comparisons(rows, SelectedVersus()),
                    Comparable(rows, Selected(rows)), Comparable(rows, Torch(rows)));
    MeanOfQuotients(s.attemptedLibrary, Comparisons(rows, CandidateVersus()),
                    Comparable(rows, attempts), Comparable(rows, Torch(rows)));
  }

  // ----- the summary of a report ------------------------------------------------------------------

  /** Every task has a candidate with positive latencies; these are its latencies. */
  ghost predicate Latencies(candidates: seq<CandidateRow>, baselines: seq<real>, attempts: seq<real>) {
    && |baselines| == |attempts| == |TASK_IDS|
    && forall i :: 0 <= i < |TASK_IDS| ==> LatenciesOf(candidates, TASK_IDS[i], baselines[i], attempts[i])
  }

  ghost predicate LatenciesOf(candidates: seq<CandidateRow>, id: string, baselineUs: real, attemptUs: real) {
    && baselineUs > 0.0 && attemptUs > 0.0
    && exists k: nat ::
         LastOf(candidates, id, k) && candidates[k].baselineUs == baselineUs && candidates[k].candidateUs == attemptUs
  }

  lemma RowOfTask(candidates: seq<CandidateRow>, torch: seq<TorchRow>, rng: Generator, id: string, row: Row,
    baselineUs: real, attemptUs: real)
    requires RowAt(candidates, torch, id, rng, row) && LatenciesOf(candidates, id, baselineUs, attemptUs)
    ensures RowFits(row, attemptUs) && Coherent(row)
    ensures Times(row.portfolioSpeedup, row.selectedUs) == baselineUs
    ensures row.selectedUs == if row.outcome == Improved then attemptUs else baselineUs
    ensures Core10.Measured(candidates) ==> Times(row.attemptedSpeedup, attemptUs) == baselineUs
  {
    hide ComparesAt, BestAt, FirstFastest, BootstrapInterval, Judge, Verified;
    var k := CandidateIsLast(candidates, id);
    var l: nat :| && LastOf(candidates, id, l)
                  && candidates[l].baselineUs == baselineUs && candidates[l].candidateUs == attemptUs;
    assert k == l;
    var c, methods := candidates[k], MethodsFor(torch, id);
    var draws := rng(|c.sessionSpeedups|);
    Selection(id, c, methods, draws);
    JoinedIsCoherent(id, c, methods, draws);
    var e, b := JoinedCompares(id, c, methods, BootstrapInterval(c.sessionSpeedups, draws));
    RowComparesBest(id, c, methods, row, e, b);
  }

  lemma RowComparesBest(id: string, c: CandidateRow, methods: seq<TorchRow>, row: Row, e: nat, k: nat)
    requires ComparesWithTorch(id, c, methods, row, e, k)
    ensures BestAt(row.selectedVersus, row.selectedUs, row.torchBest)
    ensures BestAt(row.candidateVersus, c.candidateUs, row.torchBest)
    ensures row.torchBest.Some? ==> Eligible(row.torchBest.value)
  {
  }

  /** For positive latencies: every figure counts what its name says, on the latencies that
      were measured, and each mean is the one of the quotients of these latencies.  The
      portfolio takes the attempted latency of the improved tasks and the baseline of the
      others. */
  lemma SummaryFigures(
    candidates: seq<CandidateRow>, torch: seq<TorchRow>, rng: Generator, rows: seq<Row>, s: Summary,
    baselines: seq<real>, attempts: seq<real>)
    requires |rows| == |TASK_IDS| && RowsOf(candidates, torch, TASK_IDS, rng, rows) && Summarize(rows) == Some(s)
    requires Latencies(candidates, baselines, attempts)
    ensures OutcomesCounted(s.counts, rows) && ComparisonsCounted(s.counts, rows, attempts)
    ensures forall i :: 0 <= i < |rows| ==>
              rows[i].selectedUs == if rows[i].outcome == Improved then attempts[i] else baselines[i]
    ensures |Selected(rows)| == |Torch(rows)| == |rows|
    ensures MeanOf(Some(s.portfolio), Selected(rows), baselines)
    ensures Core10.Measured(candidates) ==> MeanOf(Some(s.attempted), attempts, baselines)
    ensures MeanOf(s.library, Comparable(rows, Selected(rows)), Comparable(rows, Torch(rows)))
    ensures MeanOf(s.attemptedLibrary, Comparable(rows, attempts), Comparable(rows, Torch(rows)))
  {
    hide RowAt, RowFits, OutcomesCounted, ComparisonsCounted, LatenciesOf, Coherent, MeanOf;
    forall i | 0 <= i < |rows|
      ensures RowFits(rows[i], attempts[i]) && Coherent(rows[i])
      ensures Times(Portfolio(rows)[i], Selected(rows)[i]) == baselines[i]
      ensures rows[i].selectedUs == if rows[i].outcome == Improved then attempts[i] else baselines[i]
      ensures Core10.Measured(candidates) ==> Times(Attempted(rows)[i], attempts[i]) == baselines[i]
    {
      assert RowAt(candidates, torch, TASK_IDS[i], rng, rows[i]);
      RowOfTask(candidates, torch, rng, TASK_IDS[i], rows[i], baselines[i], attempts[i]);
    }
    OutcomesAreCounted(rows);
    ComparisonsAreCounted(rows, attempts);
    LibraryMeans(rows, s, attempts);
    MeanOfQuotients(Some(s.portfolio), Portfolio(rows), Selected(rows), baselines);
    if Core10.Measured(candidates) { MeanOfQuotients(Some(s.attempted), Attempted(rows), attempts, baselines); }
  }
}
