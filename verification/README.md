# KernelBlaster: a verified model of the decision chain

KernelBlaster searches for faster CUDA kernels with the help of a language model and
decides, through a chain of statistical gates, search loops, a sandbox hand-off and text
transformations, whether a candidate counts as an improvement.  This project models that
chain in Dafny and proves what it promises.  `dafny verify dfyconfig.toml` checks all of
it.

The modules follow the program:

- **The performance gate.**  `OrderStatistics` (sorting, medians, percentiles),
  `PerformanceGate` (session ratios, bootstrap interval, pass or fail, the paired
  confirmation sessions), `BenchmarkComparison` (session spread, validity, outcome),
  `Core10` (the portfolio report) and `Core10Figures` (what its figures count).  Floats
  are reals.  The random generator is an arbitrary matrix of indices that depends on the
  sample size only, so every theorem holds for every draw; the two bootstrap routines
  draw differently and are both covered.
- **The sandbox hand-off.**  `PipeCapture` (the runner's byte-limited pipe reader),
  `PosixPaths`, `OutputEntries` and `OutputArchive` (the Supervisor's archive reader),
  `SandboxHandoff` (both processes as interleaved steps on one directory),
  `CommandFreedom` (exactly which freedom of the command the guarantees bear),
  `HandoffProgress` (what each side can always still do), `ReportCodec` (a codec that
  meets their assumptions), `RunnerPublication` (the runner's writes) and
  `SupervisorLoop` (the Supervisor's polls).  The command in the container is not
  trusted: it may write and remove outputs in every stage, while it runs and after.
- **The search state.**  `Measurements`, `Rollouts`, `BestSelection`, `RunConclusion`
  (the gate at the end of a run), `TrajectoryRecording` and `OptimizationDatabase`.
- **Text surgery.**  `Delimiters` and `SourcePatterns`, `Substitutions` (what a pass
  replaces), `StreamSynchronization` (what the last pass leaves), `LauncherPasses` (the
  four passes, once and twice), `CudaSource` (launcher search and normalization),
  `DelimiterEdits`, `LauncherEdits`, `BalancedPatterns` and `RepeatedNormalization`
  (normalizing a normalized source), `NormalizationLimits` (sources for which that
  fails), `MarkerBlocks` and `DocumentationSync` (generated Markdown blocks).
- **Bundles.**  `NameOrder`, `Bundles` and `BundleExtraction`.
- **Evidence.**  `CorrectnessEvidence`.

Some natural claims are false of the code, and the model proves exactly when they hold:

- A job that succeeds need not have had a clean run: the command shares the output
  directory with the runner, and one that writes `result.json` itself can end the job
  successfully while it is still running (`CommandFreedom.CommandReportsSuccess`).  Success
  always means an admissible accepted export whose report says none and, for events, whose
  measurement is an object (`SandboxHandoff.SuccessIsReported`).  It always means a clean
  run that the runner has published in full exactly when the command never writes
  `result.json` (`CommandFreedom.FromRunExactlyWhen`), whatever else it writes or removes.
- Even then the outputs need not be what the runner published: a child of the command that
  survives it can change a file before the export.  They always are exactly when, in
  addition, the command neither writes nor removes a log after its end and, for a success
  in the events stage, does not write the measurement then
  (`CommandFreedom.PublishedExactlyWhen`).  Both conditions hold for the runner's own
  report of a timeout, too.
- A clean run can be reported as a sandbox violation, because an export may copy
  `result.json` between its creation and its content
  (`SandboxHandoff.CleanRunSucceedsExactlyWhen`, `CommandFreedom.CleanRunCanBeReportedAsViolation`).
- A snapshot with `result.json` need not hold the final version of the other files.  It
  does when the command never writes `result.json`, does not change these files after its
  end, and the write of `result.json` does not raise, in which case the exception handler
  rewrites the logs (`SandboxHandoff.SnapshotIsFinal`, `CommandFreedom.TornSnapshotIsNotFinal`);
  the part about the command is exact (`CommandFreedom.FinalExactlyWhen`).
- The speedup that the database infers from a percentage is the measured one only at two
  points (`OptimizationDatabase.InferredIsMeasuredExactlyWhen`); a measured speedup of 2 is
  inferred as a million (`OptimizationDatabase.DoubledIsInferredAsMillion`).
- The passes can leave a stream synchronization in a launcher, and running them twice can
  differ from running them once: exactly when a kept `cudaStreamSynchronize` stands, with
  whitespace only in between, in front of a match that the last pass replaces
  (`LauncherPasses.CleanedStreamSync`, `LauncherPasses.PassesTwiceExactlyWhen`,
  `LauncherPasses.PassesTwiceDiffer`).
- Normalizing a source twice searches the launcher again.  When every text that the stream
  rule removes is balanced in parentheses and in braces, the second call finds the same
  launcher, and it changes nothing exactly when no name was glued in this way
  (`RepeatedNormalization.NormalizeTwice`).  Without that condition the second call can
  fail although nothing was glued: a removed brace or a removed parenthesis may have closed
  the launcher (`NormalizationLimits.RemovedBraceCounts`,
  `NormalizationLimits.RemovedParenthesisCounts`).  For every result, the second call
  changes nothing exactly when the result has one launcher without synchronizations.
- A documentation write is stable under a later check exactly when every generated block
  is free of the markers of its own document and of carriage returns, which the file reader
  turns into line feeds (`MarkerBlocks.UpdateLaws`, `DocumentationSync.WriteThenCheck`,
  `DocumentationSync.UncleanBodies`).
- An accepted correctness record need not have a normalized error of at most 1: one that is
  not a number is not above 1, either (`CorrectnessEvidence.NotANumberIsSound`).  What a
  record must say is exact (`CorrectnessEvidence.SoundExactlyWhen`); the aggregate excludes
  such values (`CorrectnessEvidence.AggregateExactlyWhen`).
- A bundle reads back as the mapping it was built from exactly when all names are in
  normal form (`Bundles.RoundTrip`; "a//b" is not, `Bundles.DoubleSlashIsNotReadBack`), and
  it can be extracted exactly when no file name is a directory of another one
  (`BundleExtraction.BuildAndExtract`; "a" and "a/b" cannot,
  `BundleExtraction.FileAndFolderConflict`).

## Model

| member | source | states |
|---|---|---|
| OrderStatistics.Rank | src/kernelblaster/profiling.py:132-136 | the k-th smallest value is at most x exactly when more than k sample values are |
| OrderStatistics.SortedIsTheAscendingRearrangement | src/kernelblaster/benchmarking.py:284 | `sorted` is the only ascending rearrangement of the sample |
| OrderStatistics.SortedMonotone | src/kernelblaster/profiling.py:132-136 | raising sample values never lowers an order statistic |
| OrderStatistics.Coverage | src/kernelblaster/profiling.py:132-136 | how many sample values lie between two order statistics |
| OrderStatistics.SortedHasRank | src/kernelblaster/benchmarking.py:284 | position k of the sorted sample has the value with at most k smaller values and more than k that are not larger, counted on the positions of the sample |
| OrderStatistics.MedianMonotone | src/kernelblaster/profiling.py:129 | the median grows with the sample, value by value |
| OrderStatistics.MedianBounded | src/kernelblaster/profiling.py:129 | the median stays in every range that holds the sample |
| OrderStatistics.MedianIsMiddle | src/kernelblaster/profiling.py:129 | the median is the one mean of the values of the two middle ranks |
| OrderStatistics.MedianByMajority | src/kernelblaster/profiling.py:129 | in a sample of odd size the median is above x, or reaches x, exactly when more than half of the values do |
| OrderStatistics.PercentileLaws | src/kernelblaster/benchmarking.py:283-295 | the percentile lies between minimum and maximum, grows with the fraction and is the median at one half |
| OrderStatistics.PercentileAtRank | src/kernelblaster/benchmarking.py:289-293 | for n values, the fraction k/(n-1) leads to the value of rank k |
| OrderStatistics.PercentileAtEnds | src/kernelblaster/benchmarking.py:289-293 | the fractions 0 and 1 lead to the minimum and the maximum |
| OrderStatistics.PercentileIsLinear | src/kernelblaster/benchmarking.py:294-295 | between two such fractions the percentile is linear between the values of the two ranks |
| OrderStatistics.PercentileIgnoresOrder | src/kernelblaster/benchmarking.py:283-295 | the percentile is the same for every permutation of the sample |
| OrderStatistics.PercentilesAgree | scripts/run_baselines.py:107-118 | the differently written percentile of the baseline runner gives the same value on all non-empty samples, so the laws of ranks hold for it as well |
| PerformanceGate.IntervalCoverage | src/kernelblaster/profiling.py:118-136 | for every draw the interval lies within the session range; with 10000 resamples at least 9751 medians reach the lower bound, 251 the upper one and 9501 lie inside |
| PerformanceGate.BoundsExceed | src/kernelblaster/profiling.py:128-136 | each bound exceeds x exactly when enough rows of the draw matrix select sessions whose median exceeds x: with 10000 rows 9751 for the lower bound and 251 for the upper one |
| PerformanceGate.BoundsAreUnique | src/kernelblaster/profiling.py:118-136 | the interval is the only one whose bounds exceed every x exactly by these votes of the rows |
| PerformanceGate.OddRowsVote | src/kernelblaster/profiling.py:129 | with an odd number of sessions the median of a row exceeds x exactly when more than half of the sessions that it draws do |
| PerformanceGate.ConstantDraws | src/kernelblaster/profiling.py:128-136 | when every row draws one session throughout, both bounds are the ratio of that session |
| PerformanceGate.GatePassesExactlyWhen | src/kernelblaster/profiling.py:139-218 | the exact condition for a pass, over all session lists and draws: the votes of the rows and the median ratio |
| PerformanceGate.PassMeans9751 | src/kernelblaster/profiling.py:139-218 | with the shipped constants a pass means five paired sessions, a median ratio of 1.01 and 9751 rows that draw sessions whose median ratio exceeds 1 |
| PerformanceGate.GateIsAVote | src/kernelblaster/profiling.py:139-218 | for an odd number of sessions, a pass in terms of the measured latencies alone: most sessions reach the threshold, and in enough rows most of the drawn sessions have a faster candidate |
| PerformanceGate.FiveSessionsPassExactlyWhen | src/kernelblaster/profiling.py:139-218 | five sessions pass exactly when three of them reach 1.01 and 9751 of the 10000 rows draw a session with a faster candidate three times or more |
| PerformanceGate.GateReasons | src/kernelblaster/profiling.py:161-218 | which refusal takes precedence, and a reason exactly when the gate does not pass |
| PerformanceGate.GateMeasures | src/kernelblaster/profiling.py:191-218 | a measured report has the ratios of the sessions, their median and the interval that the draws decide |
| PerformanceGate.GateMonotone | src/kernelblaster/profiling.py:191-204 | faster candidate or slower baseline sessions never turn a pass into a failure, whatever is drawn |
| PerformanceGate.MateriallyFasterSessionsPass | src/kernelblaster/profiling.py:191-204 | sessions that all reach the threshold always pass |
| PerformanceGate.ConfirmSession | src/kernelblaster/profiling.py:295-307 | one session measures both programs in its alternating order and files each value with its program |
| PerformanceGate.ConfirmPair | src/kernelblaster/profiling.py:288-312 | session i of the baseline is paired with session i of the candidate; it fails exactly when some call does not return one value |
| BenchmarkComparison.NotSlowerSessionsMeanSpeedup | scripts/benchmark_cuda.py:1366-1390 | if no paired session is slower, the reported ratio of medians is at least 1 |
| BenchmarkComparison.SpreadBoundsSessions | src/kernelblaster/benchmarking.py:317-324 | a spread of p percent keeps all session medians within a factor 1 + p/100 |
| BenchmarkComparison.SpreadExactlyWhen | src/kernelblaster/benchmarking.py:317-324 | the spread is at most p percent exactly when any two session medians differ by at most the factor 1 + p/100, and it exists exactly for positive medians |
| BenchmarkComparison.CompareMeans | scripts/benchmark_cuda.py:1366-1390 | a comparison has the ratio of the medians, the paired ratios, and whether no session is slower |
| BenchmarkComparison.ValidityMeans | src/kernelblaster/benchmarking.py:351-380 | stability is that of both spreads, and a source compared with itself is valid only for a speedup within 5 percent of 1 |
| BenchmarkComparison.StableComparisonIsTight | src/kernelblaster/benchmarking.py:351-380 | two spreads of at most p percent put every ratio, both medians and both bootstrap bounds in one interval whose ends differ by (1 + p/100) squared |
| BenchmarkComparison.ClearlyFasterAndStableIsImproved | scripts/benchmark_cuda.py:905-932 | a stable comparison with a ratio of medians of at least 1.01 (1 + p/100) squared is improved for every draw |
| BenchmarkComparison.ImprovedExactlyWhen | scripts/benchmark_cuda.py:905-932 | the exact condition for the outcome improved, in terms of sessions, spread and the votes of the rows |
| BenchmarkComparison.OutcomeExactlyWhen | scripts/benchmark_cuda.py:905-932 | the exact condition of each of the four outcomes, over all sessions, draws, phases and bounds |
| BenchmarkComparison.SingleVariantOutcome | scripts/benchmark_cuda.py:905-932 | without a comparison a run is completed exactly when it is stable |
| BenchmarkComparison.SummaryIsOrdered | src/kernelblaster/benchmarking.py:298-314 | minimum, p10, median, p90 and maximum of a latency summary are ordered |
| BenchmarkComparison.SummaryByRanks | src/kernelblaster/benchmarking.py:298-314 | every figure of a summary by ranks: p10 and p90 divide the way between the two ranks around one tenth and nine tenths of the way through the ordered sample |
| Core10.PairedBootstrapInterval | scripts/analyze_core10_comparison.py:44-60 | the resampling loop computes the two bounds that exceed every x exactly by the votes of the drawn rows |
| Core10.BestIsFirstFastest | scripts/analyze_core10_comparison.py:150-158 | the chosen PyTorch method is the first of the fastest among the correct stable ones, and there is none exactly when no method is both |
| Core10.JoinedCompares | scripts/analyze_core10_comparison.py:145-283 | both comparisons of a row are with the first eager row of the task and with the first of the fastest correct and stable methods; one is about the selected latency and the other about the candidate's |
| Core10.JoinFailsExactlyWhen | scripts/analyze_core10_comparison.py:145-158 | why a row cannot be computed, in order of precedence |
| Core10.OutcomeExactlyWhen | scripts/analyze_core10_comparison.py:160-199 | the exact condition of every outcome and of every reason of exclusion, on the fields of the candidate and the votes of the draw |
| Core10.Selection | scripts/analyze_core10_comparison.py:200-285 | which latency, name and figures a row takes from its candidate |
| Core10.PortfolioNeverLoses | scripts/analyze_core10_comparison.py:160-201 | when the speedup is the quotient of the latencies, the portfolio speedup is at least 1, material exactly for improved rows, and 1 otherwise |
| Core10.ImprovedRowsAreConfirmed | scripts/analyze_core10_comparison.py:160-201 | the exact condition for an improved row, with 9751 rows that draw sessions whose median exceeds 1 |
| Core10.MateriallyFasterIsImproved | scripts/analyze_core10_comparison.py:160-201 | a correct stable candidate with five sessions that are all materially faster is improved for every draw |
| Core10.IndexCandidates | scripts/analyze_core10_comparison.py:129-131 | the dictionary holds the last candidate row of each task |
| Core10.GroupMethods | scripts/analyze_core10_comparison.py:132-134 | the dictionary holds the PyTorch rows of each task in order |
| Core10.BuildComparisonRows | scripts/analyze_core10_comparison.py:126-285 | one row per task in order exactly when every row can be computed, otherwise the exact sets of missing inputs or the first task whose row cannot be computed |
| Core10.JoinedIsCoherent | scripts/analyze_core10_comparison.py:176-199 | improved rows are the verified ones, failed rows the incorrect ones, and conclusive rows are stable |
| Core10.OutcomesPartition | scripts/analyze_core10_comparison.py:288-327 | improved, no improvement, inconclusive and failed partition the rows; the first three add up to the correct ones |
| Core10.SummaryExists | scripts/analyze_core10_comparison.py:38-41 | the geometric means raise exactly when there are no rows or some row has a value that is not positive |
| Core10.PortfolioProduct | scripts/analyze_core10_comparison.py:288-327 | the product of the portfolio speedups is at least 1.01 to the number of improved tasks |
| Core10.AnalyzeCore10 | scripts/analyze_core10_comparison.py:126-327 | a summary exists exactly when all ten rows do and the values in its geometric means are positive; it keeps the partition and never reports a portfolio slower than the baseline |
| Core10Figures.CandidateIsLast | scripts/analyze_core10_comparison.py:129-131 | the candidate of a task is its last row |
| Core10Figures.MethodsAreRows | scripts/analyze_core10_comparison.py:132-134 | the methods of a task are all its rows, in order |
| Core10Figures.ComparisonsAreCounted | scripts/analyze_core10_comparison.py:314-326 | for positive latencies the figures count exactly the tasks whose selected, or attempted, latency is below or above that of the best PyTorch method |
| Core10Figures.SummaryFigures | scripts/analyze_core10_comparison.py:288-327 | every figure of a summary on the measured latencies: the counts by outcome and by comparison, and each geometric mean as the one of quotients of baseline, selected, attempted and PyTorch latencies |
| PipeCapture.ClipStep | src/kernelblaster/gpu_jobs/sandbox_runner.py:75-78 | appending a chunk to a clipped buffer clips the longer stream, and overflows exactly when that stream exceeds the limit |
| PipeCapture.DataStep | src/kernelblaster/gpu_jobs/sandbox_runner.py:67-79 | a data chunk on either pipe keeps both buffers and the size flag exact |
| PipeCapture.CaptureRound | src/kernelblaster/gpu_jobs/sandbox_runner.py:67-79 | a batch of ready chunks keeps buffers, size flag and open pipes exact |
| PipeCapture.Capture | src/kernelblaster/gpu_jobs/sandbox_runner.py:58-87 | for every schedule and chunking: each buffer is the clipped stream of its pipe, violations are exact, a timeout is not overwritten, and without a violation both pipes have ended |
| PipeCapture.CaptureMeaning | src/kernelblaster/gpu_jobs/sandbox_runner.py:72-78 | a buffer is a prefix within its limit; it is everything unless the pipe delivered more, and then it is exactly full |
| OutputArchive.ReadOutputArchive | src/kernelblaster/gpu_jobs/sandbox.py:239-270 | accepts exactly the archives of approved, regular, distinct, small enough files and returns exactly those; otherwise reports the first fault |
| OutputArchive.ApprovedExactlyWhen | src/kernelblaster/gpu_jobs/sandbox.py:253-260 | a member name is approved exactly for a relative path that is an output of the stage, or that output in the directory out |
| OutputArchive.InterpretExactlyWhen | src/kernelblaster/gpu_jobs/sandbox.py:253-260 | which members are ignored, and that others keep kind and content |
| OutputArchive.ReadReordered | src/kernelblaster/gpu_jobs/sandbox.py:239-270 | member order changes neither acceptance nor the result |
| OutputArchive.AcceptedIsAdmissible | src/kernelblaster/gpu_jobs/sandbox.py:243-269 | what is read has names of the stage and respects every limit |
| OutputArchive.ReadExport | src/kernelblaster/gpu_jobs/sandbox.py:239-270 | exporting a directory of outputs and reading it back returns it exactly when it is admissible |
| OutputEntries.AcceptableInAnyOrder | src/kernelblaster/gpu_jobs/sandbox.py:252-269 | acceptance is a property of the set of members |
| OutputEntries.HoldsInAnyOrder | src/kernelblaster/gpu_jobs/sandbox.py:252-269 | the outputs are determined by the members, not by their order |
| OutputEntries.AdmissibleExactlyWhen | src/kernelblaster/gpu_jobs/sandbox.py:243-250 | which outputs each stage may have, and the size limit of each |
| OutputEntries.AdmissibleSizeIsBounded | src/kernelblaster/gpu_jobs/sandbox.py:243-250 | the total size is bounded by the limits of the stage |
| PosixPaths.ComponentsOfJoin | src/kernelblaster/gpu_jobs/sandbox.py:253-258 | splitting and joining path components undo each other |
| PosixPaths.ParseOfNormalized | src/kernelblaster/gpu_jobs/bundles.py:11-15 | a safe path is recovered from its normal form |
| PosixPaths.NormalFormParses | src/kernelblaster/gpu_jobs/bundles.py:11-15 | the normal form of every path, absolute ones included, denotes that path |
| SandboxHandoff.ScriptPublishes | src/kernelblaster/gpu_jobs/sandbox_runner.py:167-184 | what the writes after a capture leave in the directory, for every stage and outcome and whatever was there before: the text of the report for every kind of run, the logs and the measurement; nothing else changes |
| SandboxHandoff.StepKeepsInvariant | src/kernelblaster/gpu_jobs/sandbox.py:457-478 | every step of either process and of a command that never writes result.json keeps the invariant that relates directory, remaining writes and snapshot, name by name |
| SandboxHandoff.ReachableInvariant | src/kernelblaster/gpu_jobs/sandbox_runner.py:157-195 | the invariant holds after every interleaving in which the command never writes result.json |
| SandboxHandoff.SnapshotIsFinal | src/kernelblaster/gpu_jobs/sandbox_runner.py:157-195 | when the command never writes result.json and its write did not raise, an accepted snapshot is final at every name that the command does not change after its end |
| CommandFreedom.TornSnapshotIsNotFinal | src/kernelblaster/gpu_jobs/sandbox_runner.py:187-194 | without any freedom of the command, the exception in SnapshotIsFinal occurs |
| SandboxHandoff.SucceededMeans | src/kernelblaster/gpu_jobs/sandbox.py:450-525 | when the command never writes result.json, a job succeeds only after a clean run published in full; when it leaves the published files alone after its end, the outputs and the measurement are exactly what the runner published |
| SandboxHandoff.SuccessIsReported | src/kernelblaster/gpu_jobs/sandbox.py:450-525 | whatever the command writes, a job succeeds exactly when an admissible export was accepted whose report says none and, for events, whose measurement is an object |
| CommandFreedom.FromRunExactlyWhen | src/kernelblaster/gpu_jobs/sandbox.py:450-525 | success and the reported timeout always stem from a run that the runner published in full exactly when the command may not write result.json |
| CommandFreedom.PublishedExactlyWhen | src/kernelblaster/gpu_jobs/sandbox.py:450-525 | the outputs then always are what the runner published exactly when the command may, after its end, neither write nor remove a log nor, for a success in the events stage, write the measurement |
| CommandFreedom.FinalExactlyWhen | src/kernelblaster/gpu_jobs/sandbox_runner.py:157-195 | accepted snapshots are always final, but for a torn report, exactly when the command may neither write result.json nor change the logs and the measurement after its end |
| CommandFreedom.CommandReportsSuccess | src/kernelblaster/gpu_jobs/sandbox_runner.py:45-53 | an interleaving in which a running command writes result.json and the job succeeds |
| CommandFreedom.ForgedReportCounts | src/kernelblaster/gpu_jobs/sandbox_runner.py:167-184 | for every stage, a forged report, written before or after the end of the command, counts |
| CommandFreedom.RewrittenFileCounts | src/kernelblaster/gpu_jobs/sandbox_runner.py:167-184 | for every stage, a published file that a surviving child rewrites, the measurement included, counts |
| ReportCodec.LawfulCodecExists | src/kernelblaster/gpu_jobs/sandbox_runner.py:181-184 | the assumptions on how reports are written and read can be met |
| SandboxHandoff.CleanRunSucceedsExactlyWhen | src/kernelblaster/gpu_jobs/sandbox.py:503-525 | when the command never writes result.json nor changes the measurement after its end, an accepted snapshot of a clean run succeeds exactly when the copied result.json was not still empty |
| CommandFreedom.CleanRunCanBeReportedAsViolation | src/kernelblaster/gpu_jobs/sandbox_runner.py:181-184 | without any freedom of the command, an interleaving in which a clean run is reported as a violation |
| SandboxHandoff.TimedOutMeans | src/kernelblaster/gpu_jobs/sandbox.py:487-493 | when the command never writes result.json, a timed-out status is the Supervisor's deadline, without outputs, or the runner's own report; when it leaves the logs alone after its end, with what the runner published |
| SandboxHandoff.FailureMeans | src/kernelblaster/gpu_jobs/sandbox_runner.py:133-184 | when the command spares result.json, the reason of a job whose finished report was accepted is that of the run: which violation, out of memory exactly for an error with that message, the failure of the stage exactly for another error or an events output that is no object, and none otherwise |
| SandboxHandoff.ReasonsComeBack | src/kernelblaster/gpu_jobs/sandbox.py:273-282 | every reason of the contract comes back from its text, and any other text is the failure of the stage |
| SandboxHandoff.FinishConcludes | src/kernelblaster/gpu_jobs/sandbox.py:503-525 | what the Supervisor concludes from a report that does not parse, is no object, has an unknown reason, or says none without a measurement |
| SandboxHandoff.PublishedIsAdmissibleWhen | src/kernelblaster/gpu_jobs/sandbox_runner.py:167-184 | the reader accepts a publication exactly when the files that may have grown and the executable respect their limits |
| HandoffProgress.EndedRunIsPublished | src/kernelblaster/gpu_jobs/sandbox_runner.py:157-184 | wherever the command ends, the runner's single steps can leave exactly what that run has to leave |
| HandoffProgress.ExceptionIsReported | src/kernelblaster/gpu_jobs/sandbox_runner.py:187-194 | wherever the runner has not finished, an exception can be reported: an empty output log, the message, the report of a violation, and nothing else |
| HandoffProgress.ExportTakesWhatIsThere | src/kernelblaster/gpu_jobs/sandbox.py:457-466 | an undisturbed export, in any order of the files, takes the whole directory, and is accepted exactly when it is admissible and has the report |
| HandoffProgress.FailedPoll | src/kernelblaster/gpu_jobs/sandbox.py:467-478 | after a failed export the loop goes on exactly while the container runs |
| HandoffProgress.DeadlineAfterRounds | src/kernelblaster/gpu_jobs/sandbox.py:450-493 | after any number of failed polls the deadline can pass, and the job ends without outputs, as a timeout or as a failed recovery |
| HandoffProgress.ExportsAreInTurn | src/kernelblaster/gpu_jobs/sandbox.py:457-478 | in every interleaving the steps of an export follow its beginning, and polling, inspecting and the deadline come between exports |
| HandoffProgress.EveryRunCanEnd | src/kernelblaster/gpu_jobs/sandbox.py:450-525 | no interleaving gets stuck: the Supervisor can always still end the job |
| SandboxHandoff.ReasonIsNoneOnlyForNone | src/kernelblaster/gpu_jobs/sandbox.py:273-282 | only the reported text "none" becomes the reason for success, and only "stage_timeout" the timeout |
| RunnerPublication.OutputDirectory.WriteFile | src/kernelblaster/gpu_jobs/sandbox_runner.py:167-168 | opening a file empties it and the content follows, which are the two steps of the model |
| RunnerPublication.Publish | src/kernelblaster/gpu_jobs/sandbox_runner.py:133-184 | the writes of the runner are the model's script and leave the logs, the measurement and the report with the reason that belongs to the run, whatever the command left there |
| SupervisorLoop.ReadExported | src/kernelblaster/gpu_jobs/sandbox.py:458-466 | an export counts exactly when it is accepted and has the report, and then respects every limit |
| SupervisorLoop.PollUntilDecided | src/kernelblaster/gpu_jobs/sandbox.py:457-478 | the loop ends with the first decisive poll, with the outputs it delivered and the container state known then |
| SupervisorLoop.ExecuteJob | src/kernelblaster/gpu_jobs/sandbox.py:453-525 | for every sequence of polls the result is the one of the hand-off model; success needs an accepted export whose report says none, running out of polls gives a timeout without outputs, and a container that stops without a report, or is known to be killed when it delivers one, is out of memory exactly by its last known state |
| Measurements.SpeedupLaws | src/kernelblaster/measurements.py:102-118 | faster means a speedup above 1, comparable measurements are totally ordered, and speedups along a chain multiply |
| Rollouts.Trajectory.AddStep | src/kernelblaster/agents/rl_agents.py:60-65 | reward total, first and last measurement stay those of the recorded steps |
| Rollouts.ImprovementAboveMinusHundred | src/kernelblaster/agents/opt_ncu_rl.py:1312-1323 | no step improvement is -100 percent or less, so the stop at -500 percent cannot fire |
| Rollouts.RewardFollowsRule | src/kernelblaster/agents/opt_ncu_rl.py:1701-1729 | the reward by rule: half a point less for a step that is not faster, a bonus of 0.2 within a fifth of a positive prediction, and otherwise a malus in proportion to the distance |
| Rollouts.RunRollout | src/kernelblaster/agents/opt_ncu_rl.py:1311-1400 | the trajectory holds one step per productive round, each measured against the step before it, with its reward |
| Rollouts.Telescoping | src/kernelblaster/agents/opt_ncu_rl.py:1312-1376 | for comparable measurements the step factors multiply to the speedup over the start |
| Rollouts.StepwiseEqualsOverall | src/kernelblaster/agents/rl_agents.py:107-113 | the factors from the second step on multiply to the improvement in the buffer statistics |
| Rollouts.ReplayBuffer.AddTrajectory | src/kernelblaster/agents/rl_agents.py:87-92 | the buffer is always the last additions, as many as its size admits |
| Rollouts.ReplayBuffer.GetRecentTrajectories | src/kernelblaster/agents/rl_agents.py:94-98 | which trajectories are returned for positive, zero, negative and missing counts |
| BestSelection.SelectFrom | src/kernelblaster/agents/opt_ncu_rl.py:590-611 | the steps of one rollout extend the selection |
| BestSelection.SelectBest | src/kernelblaster/agents/opt_ncu_rl.py:585-611 | the selected step is the earliest minimum among those comparable with the first one, and the named file holds that step |
| BestSelection.BestIsMinimum | src/kernelblaster/agents/opt_ncu_rl.py:590-602 | with one comparison key the selected value is the minimum of all steps |
| BestSelection.SelectInTwoOrders | src/kernelblaster/agents/opt_ncu_rl.py:585-611 | with one comparison key the selected value does not depend on the completion order |
| BestSelection.AllStepsPermute | src/kernelblaster/agents/opt_ncu_rl.py:585-592 | completion order only permutes the steps that are met |
| RunConclusion.Promoted | src/kernelblaster/agents/opt_ncu_rl.py:653-676 | a candidate is promoted exactly when a baseline exists and the paired sessions of the two files show an improvement: one usable value per call, a median ratio of 1.01 and enough rows that draw faster sessions |
| RunConclusion.SessionsAreInTurn | src/kernelblaster/profiling.py:288-312 | the sessions that the confirmation compares are the values of the calls in turn, the original first in even sessions and the candidate first in odd ones |
| RunConclusion.DeniedExactlyWhen | src/kernelblaster/agents/opt_ncu_rl.py:761-763 | a run without steps is blocked exactly when some error contains the permission code |
| RunConclusion.ConcludeRun | src/kernelblaster/agents/opt_ncu_rl.py:585-774 | selecting and confirming: improved exactly when the paired sessions of the original and the best step show it, and then the artifact is the file of the best step, otherwise the original |
| RunConclusion.ConcludeShippedRun | src/kernelblaster/agents/opt_ncu_rl.py:585-729 | with five sessions and 10000 resamples, improved exactly when ten calls give usable values, three sessions reach 1.01, and 9751 rows draw a session with a faster candidate three times or more |
| RunConclusion.MateriallyFasterIsShown | src/kernelblaster/profiling.py:288-312 | a best step that is materially faster in every session is promoted whatever is drawn |
| TrajectoryRecording.RecordingAgent.AddTrajectory | src/kernelblaster/agents/opt_ncu_rl.py:1405 | the first stretch of recording is the model's step |
| TrajectoryRecording.RecordingAgent.CountTrajectory | src/kernelblaster/agents/opt_ncu_rl.py:1406-1411 | the stretch under the trajectory lock is the model's step, and tells whether an update is due |
| TrajectoryRecording.RecordingAgent.EnterPolicyCycle | src/kernelblaster/agents/opt_ncu_rl.py:1413-1416 | the stretch under the policy lock is the model's step |
| TrajectoryRecording.StepKeepsInvariant | src/kernelblaster/agents/opt_ncu_rl.py:1402-1416 | every step of every task keeps the counts, the mutual exclusion and the buffer |
| TrajectoryRecording.EveryInterleaving | src/kernelblaster/agents/opt_ncu_rl.py:1402-1416 | after every interleaving, iterations plus pending updates are the multiples reached, cycles do not overlap, and the buffer holds the last additions |
| TrajectoryRecording.RunIsAccounted | src/kernelblaster/agents/opt_ncu_rl.py:1402-1416 | the buffer's additions, the counter and the iterations are exactly what the actions of the interleaving did |
| TrajectoryRecording.NothingIsDoneTwice | src/kernelblaster/agents/opt_ncu_rl.py:1402-1416 | no task appends, counts or updates twice |
| TrajectoryRecording.QuietRunCountsEveryUpdate | src/kernelblaster/agents/opt_ncu_rl.py:1402-1416 | when all tasks have finished no update was lost or counted twice |
| OptimizationDatabase.OptimizationEntry.Update | src/kernelblaster/agents/database.py:1845-1976 | the field updates are one step of the estimate and follow the update rule |
| OptimizationDatabase.UpdateFollowsRule | src/kernelblaster/agents/database.py:1845-1976 | the update rule on the fields before and after: both means are extended by one value, the speedup is stored unless it is missing, and an entry in use with a positive prediction gains confidence exactly when the improvement is within a fifth of that prediction, and loses confidence otherwise |
| OptimizationDatabase.Database.UpdateOptimizationResult | src/kernelblaster/agents/database.py:1835-1976 | only the first entry of the technique changes, and no other entry of the state |
| OptimizationDatabase.Database.AddNewOptimization | src/kernelblaster/agents/database.py:2080-2117 | a known technique gets the prediction, an unknown one is appended with the defaults, and techniques stay distinct |
| OptimizationDatabase.PredictionsAreRunningMeans | src/kernelblaster/agents/database.py:1926-1962 | after any run of updates both predictions are the means of the initial prediction, weighted by its usage, and all observations |
| OptimizationDatabase.RecoveredIsPrevious | src/kernelblaster/agents/database.py:1963-1972 | the prediction that the confidence rule recovers is the one before the update |
| OptimizationDatabase.ConfidenceStaysInRange | src/kernelblaster/agents/database.py:1966-1976 | confidence starting in [0.1, 1] stays there in every run |
| OptimizationDatabase.InferredIsMeasuredExactlyWhen | src/kernelblaster/agents/database.py:1900-1911 | the speedup inferred from a percentage is the measured one exactly at 1 and at the positive root of s*s = 2s + 1 |
| OptimizationDatabase.DoubledIsInferredAsMillion | src/kernelblaster/agents/database.py:1900-1911 | a measured speedup of 2 is inferred as 1000000 |
| Delimiters.MatchingDelimiter | src/kernelblaster/benchmarking.py:25-35 | the first position where the depth returns to zero, and failure exactly when there is none |
| Delimiters.MatchIsBalancedPosition | src/kernelblaster/benchmarking.py:25-35 | from an opening delimiter the match is the one balanced position with every shorter prefix open |
| Delimiters.BalancedCallEnd | src/kernelblaster/benchmarking.py:132-147 | agrees with the delimiter match, and requires a semicolon after it |
| SourcePatterns.ScannerMatches | src/kernelblaster/benchmarking.py:78-106 | the scanner finds exactly the match that the pattern has when its runs of whitespace may have any length |
| SourcePatterns.RulePatternsMatch | src/kernelblaster/benchmarking.py:79-98 | the three patterns without a lazy part are read by the scanner as regular expressions |
| SourcePatterns.StreamPatternMatches | src/kernelblaster/benchmarking.py:102 | the stream rule matches exactly head, text without semicolon and closing, with the text as short as possible |
| SourcePatterns.MatchCopied | src/kernelblaster/benchmarking.py:78-106 | a pattern match depends only on the text it consumes |
| SourcePatterns.NoMatchWithoutReplacement | src/kernelblaster/benchmarking.py:110-112 | a pass that reports no replacement has no match of its pattern anywhere |
| SourcePatterns.MatchOfReplacement | src/kernelblaster/benchmarking.py:110-112 | a pass that reports a replacement has a match |
| SourcePatterns.NothingReplacedIsUnchanged | src/kernelblaster/benchmarking.py:110-112 | a pass without replacements leaves the text as it was |
| Substitutions.SubnReplacesMatches | src/kernelblaster/benchmarking.py:110-112 | a pass replaces the disjoint leftmost matches of its pattern, keeps the text between them, and counts them |
| Substitutions.LeftmostMatchesAreUnique | src/kernelblaster/benchmarking.py:110-112 | a text has only one such list of matches |
| SourcePatterns.MatchWasThere | src/kernelblaster/benchmarking.py:110-112 | a match that starts in kept text and survives the replacements was there before them |
| SourcePatterns.PassLeavesNone | src/kernelblaster/benchmarking.py:110-112 | a pass leaves no match of a pattern of which its text only has replaced ones, provided that its replacement shields the pattern |
| StreamSynchronization.StreamRemainsExactlyWhen | src/kernelblaster/benchmarking.py:101-112 | the stream pass leaves a match exactly when a kept name stood, with whitespace only in between, in front of a match that it replaced |
| StreamSynchronization.ReplacingChanges | src/kernelblaster/benchmarking.py:110-112 | a stream pass that replaces something changes the text |
| LauncherPasses.CleanedHasNoDeviceSync | src/kernelblaster/benchmarking.py:78-112 | after all passes no device synchronization is left, in a macro, in a checking call or as a statement |
| LauncherPasses.CleanedStreamSync | src/kernelblaster/benchmarking.py:78-112 | after all passes a stream synchronization is left exactly when a name was glued in the last pass |
| LauncherPasses.UnlabelledIsUnchanged | src/kernelblaster/benchmarking.py:107-112 | without an applied label the launcher is unchanged |
| LauncherPasses.UnlabelledExactlyWhen | src/kernelblaster/benchmarking.py:107-112 | no label is applied exactly when the launcher has no synchronization that a rule replaces |
| LauncherPasses.LabelsCountMatches | src/kernelblaster/benchmarking.py:107-112 | there are as many labels of a rule as its pattern has matches in the text that its pass gets |
| LauncherPasses.PassesTwiceExactlyWhen | src/kernelblaster/benchmarking.py:107-112 | the passes change nothing in a launcher that they have cleaned, and apply no label, exactly when no name was glued |
| LauncherPasses.PassesTwiceDiffer | src/kernelblaster/benchmarking.py:101-112 | a launcher for which running the passes twice is not running them once |
| CudaSource.HeaderMeaning | src/kernelblaster/benchmarking.py:46-49 | the header scanner means the pattern with its optional inline, whose alternatives exclude each other |
| CudaSource.HeaderParenthesis | src/kernelblaster/benchmarking.py:46-51 | the first parenthesis after the start of a header is the header's own |
| CudaSource.InnerHeader | src/kernelblaster/benchmarking.py:46-51 | headers that overlap end at the same parenthesis, so skipping them loses nothing |
| CudaSource.FindLaunchDefinition | src/kernelblaster/benchmarking.py:38-68 | a span is returned exactly when all headers are balanced and it is the only definition; the two errors are exact |
| CudaSource.NormalizeCudaSource | src/kernelblaster/benchmarking.py:71-113 | only the launcher span is rewritten, it is free of device synchronizations and of stream synchronizations unless a name was glued, the labels count the replacements, and the errors are exact |
| DelimiterEdits.MatchingBefore | src/kernelblaster/benchmarking.py:25-35 | replacing a balanced part of a text by a balanced one keeps the match of every delimiter before it |
| BalancedPatterns.DeviceMatchIsBalanced | src/kernelblaster/benchmarking.py:78-97 | what a device rule removes is balanced in parentheses and braces |
| BalancedPatterns.ReplacementIsBalanced | src/kernelblaster/benchmarking.py:78-105 | so is what every rule inserts |
| LauncherEdits.ReplacementKeepsLauncher | src/kernelblaster/benchmarking.py:38-68 | replacing one balanced match inside the only launcher definition leaves it the only one, and all headers balanced |
| RepeatedNormalization.LauncherIsFoundAgain | src/kernelblaster/benchmarking.py:105-112 | when what the stream rule removes is balanced, the result has the launcher at the same place |
| RepeatedNormalization.NormalizeTwice | src/kernelblaster/benchmarking.py:71-113 | with balanced removals the second call rewrites the same launcher, and changes nothing exactly when no name was glued; in general it changes nothing exactly when its source has one launcher without synchronizations |
| NormalizationLimits.RemovedBraceCounts | src/kernelblaster/benchmarking.py:101-112 | a source without glued names whose second normalization fails because a removed argument had a brace |
| NormalizationLimits.RemovedParenthesisCounts | src/kernelblaster/benchmarking.py:101-112 | the same without any removed brace, because of a parenthesis removed from the parameter list |
| MarkerBlocks.ReplaceMeaning | scripts/sync_portfolio_docs.py:792-804 | replacement succeeds exactly on documents with one ordered marker pair and rewrites only what is between |
| MarkerBlocks.StripMeans | scripts/sync_portfolio_docs.py:803 | stripping leaves the part between the first and the last character that is no whitespace |
| MarkerBlocks.SplicedIsBlock | scripts/sync_portfolio_docs.py:799-804 | a marker-free block leaves exactly one marker pair, at known places |
| MarkerBlocks.SplicedWithMarkerIsNoBlock | scripts/sync_portfolio_docs.py:795-804 | a block that contains a marker leaves no single pair |
| MarkerBlocks.UpdateLaws | scripts/sync_portfolio_docs.py:792-804 | a second replacement succeeds exactly when the first block was marker-free, and then the last body wins |
| MarkerBlocks.ReplaceIsIdempotent | scripts/sync_portfolio_docs.py:792-804 | replacing twice with one marker-free body is replacing once |
| DocumentationSync.TargetsAreWellFormed | scripts/sync_portfolio_docs.py:24-47 | the shipped targets have distinct paths and proper marker names |
| DocumentationSync.ReadingMeans | scripts/sync_portfolio_docs.py:813 | reading a target drops the carriage returns before line feeds and turns the others into line feeds, one for one |
| DocumentationSync.ExpectedDocuments | scripts/sync_portfolio_docs.py:807-815 | the new text of every target, or failure exactly when one is missing or has bad markers |
| DocumentationSync.Checkout.CompareTarget | scripts/sync_portfolio_docs.py:898-906 | one target is stale exactly when its text, as it is read, differs, and only a write corrects it |
| DocumentationSync.Checkout.CompareTargets | scripts/sync_portfolio_docs.py:898-906 | collects the targets that differ, in order; a write corrects exactly those |
| DocumentationSync.Checkout.Synchronize | scripts/sync_portfolio_docs.py:888-914 | a write brings the targets to their expected text and touches nothing else; a check changes nothing |
| DocumentationSync.ExpectedAfterWrite | scripts/sync_portfolio_docs.py:807-815 | after a write the expected documents are the written ones exactly when the generated blocks have no marker and no carriage return; otherwise some target differs or cannot be rewritten |
| DocumentationSync.WriteThenCheck | scripts/sync_portfolio_docs.py:888-914 | a check after a write finds nothing stale exactly when the generated blocks have no marker and no carriage return |
| DocumentationSync.UncleanBodies | scripts/sync_portfolio_docs.py:803-804 | a block with a carriage return inside and a block that is a marker do not meet that condition |
| DocumentationSync.WriteThenCheckOne | scripts/sync_portfolio_docs.py:888-914 | for one target the write succeeds for every block, and the later check succeeds exactly when the block meets the condition |
| NameOrder.SortedItemsAscend | src/kernelblaster/gpu_jobs/bundles.py:24 | sorting the items gives an ascending rearrangement |
| NameOrder.SortedItemsAreCanonical | src/kernelblaster/gpu_jobs/bundles.py:24 | the sorted items do not depend on the enumeration of the mapping |
| Bundles.ValidatedIsNormal | src/kernelblaster/gpu_jobs/bundles.py:11-15 | a validated name is its own validated name |
| Bundles.BuildDeterministicBundle | src/kernelblaster/gpu_jobs/bundles.py:18-35 | regular members in name order with validated names, or the error for no files or an unsafe name |
| Bundles.EncodedSizeBounds | src/kernelblaster/gpu_jobs/bundles.py:23-34 | a bundle is a whole number of records that has room for its contents, its headers and its end, with less than one record to spare beyond the padding |
| Bundles.BuildInTwoOrders | src/kernelblaster/gpu_jobs/bundles.py:18-35 | two enumerations of one mapping give the same bundle |
| Bundles.ValidateBundle | src/kernelblaster/gpu_jobs/bundles.py:38-50 | accepts exactly small enough, non-empty archives of regular members with safe names and returns the names in order; otherwise reports the first fault |
| Bundles.BundleFiles | src/kernelblaster/gpu_jobs/sandbox.py:218-227 | every validated name leads to its last member, under the prefix, and there is nothing else |
| Bundles.RoundTrip | src/kernelblaster/gpu_jobs/sandbox.py:218-227 | reading a bundle returns the original mapping exactly when all names are normal |
| Bundles.DoubleSlashIsNotReadBack | src/kernelblaster/gpu_jobs/sandbox.py:218-227 | the safe name "a//b" is not read back |
| Bundles.BuildAndRead | src/kernelblaster/gpu_jobs/bundles.py:18-50 | building and reading succeeds exactly within the size limit, with the round trip |
| BundleExtraction.MakeParents | src/kernelblaster/gpu_jobs/bundles.py:61 | creates exactly the missing parents and fails exactly when one is a file |
| BundleExtraction.ExtractBundle | src/kernelblaster/gpu_jobs/bundles.py:53-68 | succeeds exactly when every name is a member's and no file is a directory of another; then the disk holds the files, their parents and nothing else |
| BundleExtraction.BuildAndExtract | src/kernelblaster/gpu_jobs/bundles.py:18-68 | for normal names, building and extracting places exactly the original files, or fails exactly when one name is a directory of another |
| BundleExtraction.FileAndFolderConflict | src/kernelblaster/gpu_jobs/bundles.py:53-68 | the normal names "a" and "a/b" are a file and a directory at one place |
| CorrectnessEvidence.CheckAggregate | scripts/benchmark_cuda.py:132-163 | the aggregate checks accept exactly the sound aggregates |
| CorrectnessEvidence.AggregateExactlyWhen | scripts/benchmark_cuda.py:132-163 | what a sound aggregate says, field by field: twelve metrics that are finite and not negative, a largest normalized error of at most 1, no mismatches, and the sampling protocol |
| CorrectnessEvidence.SoundExactlyWhen | scripts/benchmark_cuda.py:164-202 | what a sound record says, field by field: a named case, a required seed, a deterministic run without mismatches and nonfinite values, a normalized error that is not above 1, and a sample |
| CorrectnessEvidence.NotANumberIsSound | scripts/benchmark_cuda.py:186-187 | a record whose normalized error is not a number passes the comparison with 1 |
| CorrectnessEvidence.CoverageDecides | scripts/benchmark_cuda.py:210-217 | the comparison with all pairs decides, and it implies the comparison of the seeds |
| CorrectnessEvidence.ValidateCorrectnessDistribution | scripts/benchmark_cuda.py:126-222 | accepts exactly distributions without records, or with sound aggregates and sound, distinct, complete records that add up |
| CorrectnessEvidence.AcceptedSays | scripts/benchmark_cuda.py:126-222 | acceptance in terms of these fields |
| CorrectnessEvidence.AcceptedIsOneRecordPerPair | scripts/benchmark_cuda.py:203-222 | accepted records are exactly one per case id and seed, three times the number of ids, and add up to the aggregate counts |
| CorrectnessEvidence.AcceptanceIgnoresOrder | scripts/benchmark_cuda.py:164-222 | permuting the records does not change acceptance |
| CorrectnessEvidence.ValidateInTwoOrders | scripts/benchmark_cuda.py:126-222 | the check gives the same verdict for every order of the records |

## Left out

- Prompting and parsing of language-model answers, networked clients, Docker and compiler
  calls, `nvidia-smi`, NCU and telemetry: external effects, of which only the state they
  feed is kept.
- Floating-point rounding and the standard deviation and variation of latency summaries:
  reals are used, and a geometric mean is the root of a product.
- The byte encoding of tar archives and compression: an archive is a size and a list of
  members.
- Bundles.BuildDeterministicBundle: does not model the limits of a USTAR header, which
  refuses names that are too long and cuts a name at a NUL character.
- Symbolic links and other processes in the staging directory of an extraction, and files
  already there: extraction starts from an empty root.
- Files that the command leaves in the output directory under other names, links and
  directories: the hand-off's directory holds the approved names only; that the reader
  refuses everything else is `OutputArchive.ReadOutputArchive`.
- Parts of a write: a write that raises leaves the file empty, where it could leave a part of
  the content, and a file that is removed while the runner writes it reappears.
- Unicode: whitespace is the ASCII part of `str.isspace`, and decoding errors are not
  modelled.
- RepeatedNormalization.NormalizeTwice: for removals that are not balanced the condition is
  on the result of the first call, because whether the delimiters around them still match
  depends on the whole source.
- DocumentationSync.Checkout.Synchronize: the validation of links and artifact hashes is
  an arbitrary predicate of the expected documents, and the change policy, which compares
  with a base reference of the version control, is left out.
- General regular expressions: the few patterns used are explicit scanners, shown to mean
  what the patterns mean.
- The instrumentation of drivers and the splitting into compilation units.
- The retest of an unstable round and the grouping of its records by variant: the
  comparison starts from the session medians of the round that counts.
- Composite optimizations: their updates are like those of single ones without the running
  means, and would add only similar, easier members.
- The Markdown form of the database, which its parser does not read back.
- The contents of a policy update cycle, and reads and writes of candidate and result files
  that fail at the end of a run.
- CorrectnessEvidence.ValidateCorrectnessDistribution: does not model integers too large
  for a float; which number a text denotes is part of the input.
- Core10.BuildComparisonRows: does not model the pass-through fields of a row, or fields
  that are missing or not numbers.
- Uploads of job artifacts and the cancellation of an active job.
