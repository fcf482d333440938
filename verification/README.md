# Codeforces contest tracker — a Dafny model

The tracker follows one athlete's Codeforces contests inside a spreadsheet. It has three
parts:

- **Discovery.** It finds the contests the athlete took part in, either rated or virtual.
- **Sync.** It copies each contest's standings into three append-only tables: contests,
  problems and participations. It does this in batches of 20.
- **Report.** It renders one report line per participation, newest contest first. Each line
  carries a rating title, a rank verdict, per-problem indicators, two cohort percentiles, a
  solve-pace verdict and an upsolving count.

This project models that core in Dafny and proves properties of it:

- `wrappers.dfy` holds the optional value, the API result and JavaScript truthiness.
- `model.dfy` holds the entities and the solved-count rule.
- `sorting.dfy` is the insertion sort every ordering step uses; it is stable (`Sorting.SortByStable`).
- `discovery.dfy` builds the pending-task queue.
- `sync.dfy` is the batch sync and the store invariants it keeps.
- `analysis.dfy` holds the per-participation analyses and the problem grid.
- `report.dfy` is the report loop with its rank carry.

Some parts of the original run outside this model. They become plain parameters:

- the Codeforces API answers, as `ApiResult` values;
- the three sheet tables, as a `Store` of sequences;
- the configuration, as a `Config`.

Floating-point ratios, means and `Math.round` are written as exact integer
cross-multiplication. A lemma relates each one to the real-number formula it replaces.

Two behaviours of the code are easy to misread:

- The task queue is ordered by contest id, non-increasing rather than strictly decreasing: a
  CONTESTANT task and a VIRTUAL task for one contest tie. The sort is stable
  (`Sorting.SortByStable`), so the two keep their discovery order, in which the rated
  history's CONTESTANT task comes before the submissions' VIRTUAL task.
- A solve counts as slower only when its time exceeds the cohort mean plus the margin. With a
  ten-minute margin, a 600 s solve against a 100 s mean is neither faster nor slower
  (`Analysis.PaceExample`).

## Model

| member | source | states |
|---|---|---|
| Model.CountSolved | codeforces_2.js:139 | the stored solved count never exceeds the number of results; it is 0 exactly when no result has positive points, and equals the result count exactly when all do |
| Model.CountSolvedIsSolvedSlots | codeforces_2.js:139 | the solved count is the number of result slots with positive points |
| Sorting.SortBy | codeforces_2.js:84 | the queue sort returns a permutation of its input that is ordered by the comparator (also used for lines 170 and 185-189) |
| Sorting.SortByStable | codeforces_2.js:84 | the sort is stable: for any element, the elements tied with it keep their relative order, as `Array.prototype.sort` guarantees (also lines 170 and 185-189) |
| Sorting.SortByKeepsDistinct | codeforces_2.js:84 | sorting a sequence without duplicates yields one without duplicates |
| Discovery.Discover | codeforces_2.js:48-87 | the queue has no duplicate task; a task is queued exactly when the rated history or a virtual submission reveals it and the athlete's participation id for it is not stored; contest ids never increase along the queue |
| Discovery.VirtualTasksSpec | codeforces_2.js:62-69 | a VIRTUAL task is produced exactly for the contest of some submission that has a truthy contest id and was made as VIRTUAL |
| Discovery.CandidatesSpec | codeforces_2.js:51-69 | the merged keys are exactly the CONTESTANT tasks of the rating history plus the VIRTUAL tasks of the submissions; a failed feed contributes none |
| Discovery.DedupSpec | codeforces_2.js:49-66 | the map's key order has each task once and loses none |
| Discovery.UnstoredSpec | codeforces_2.js:71-81 | the filter keeps exactly the tasks whose participation id is not yet stored |
| Sync.AppendRowsSpec | codeforces_2.js:128-142 | the participation rows only grow and stay free of duplicate ids; every new row records an eligible standings row and was not stored before; every eligible row's id ends up stored |
| Sync.AppendRowsSaturated | codeforces_2.js:136-137 | standings rows whose ids are all stored append nothing |
| Sync.AddContestSpec | codeforces_2.js:117-125 | saving a contest keeps the store well formed, leaves the participations alone and ensures the contest is stored; a contest already stored leaves the store unchanged, so its problems are never written twice; a new one gets exactly one problem row per problem of the response, in the response's order |
| Sync.ProcessTaskSpec | codeforces_2.js:107-143 | one task keeps the store well formed and only appends to it; a failed fetch changes nothing; afterwards the contest and every eligible row are stored; new contest rows occur only for a contest not stored before; new problem rows come from the response and occur only when the fetch succeeded and the contest was not stored before |
| Sync.WrittenStable | codeforces_2.js:119-137 | what a task wrote stays written as the store grows |
| Sync.WrittenIsFixpoint | codeforces_2.js:119-137 | processing a task whose response is already stored changes nothing |
| Sync.SyncBatchSpec | codeforces_2.js:103-143 | a batch keeps the store well formed and growing; every task of the batch is written; every new participation and contest row comes from some successful response of the batch |
| Sync.SyncBatchOfWritten | codeforces_2.js:107-143 | a batch whose every task is already written leaves the store unchanged |
| Sync.SyncBatchIdempotent | codeforces_2.js:107-143 | re-running a batch against the same responses adds no row |
| Sync.SyncSpec | codeforces_2.js:102-143 | a run keeps the store free of repeated participation ids and only appends rows to its three tables |
| Sync.SyncParticipationsFrom | codeforces_2.js:102-142 | every participation row a run adds records an eligible standings row of a successful response to one of the first 20 tasks |
| Sync.SyncBatchProblemsFrom | codeforces_2.js:107-125 | every problem row a batch appends comes from one of its successful responses and belongs to a contest that was not stored before the batch |
| Sync.SyncProblemsFrom | codeforces_2.js:102-125 | every problem row a run appends comes from a successful response to one of the first 20 tasks, for a contest not stored before the run |
| Sync.SyncContestsFrom | codeforces_2.js:102-121 | every contest row a run adds comes from a successful response to one of the first 20 tasks |
| Sync.SyncWrites | codeforces_2.js:102-143 | after a run, every task among the first 20 is written to the store |
| Sync.AllFailedWritesNothing | codeforces_2.js:112-115 | a batch whose every fetch failed leaves the store as it was |
| Sync.SyncedTaskLeavesQueue | codeforces_2.js:77-78 | a fetched task whose standings show an eligible row of the task's type leaves the next queue of that row's handle |
| Analysis.TitleOf | codeforces_2.js:417-422 | the title returned is the one whose rating band contains the rating |
| Analysis.TitleBandIsUnique | codeforces_2.js:417-422 | the bands do not overlap, so a rating lies in a title's band exactly when that title is returned |
| Analysis.RankAnalysis | codeforces_2.js:424-434 | no verdict unless the row is CONTESTANT with a non-zero rank; on target exactly when rank is at most the good-rank threshold; the trend is improved, worsened or unchanged by comparison with a present non-zero previous rank, and absent otherwise |
| Analysis.DifficultyOf | codeforces_2.js:450-459 | hard exactly when both counts are present, tried is positive and accepted/tried < 0.25; easy exactly when that ratio > 0.75 |
| Analysis.RatioThresholds | codeforces_2.js:455-457 | the real-valued ratio tests equal the integer tests used in the model |
| Analysis.AcSub | codeforces_2.js:437-470 | one indicator per contest problem; slot i is "not attempted" exactly when the athlete has no i-th result; solved exactly when it has positive points; rejected exactly when it has no points and a rejected attempt; the hard and easy flavours apply exactly to solved and rejected slots of hard and easy problems |
| Analysis.NoStatsNoFlags | codeforces_2.js:450-458 | without stored acceptance counts no slot is flagged hard or easy |
| Analysis.CountBeaten | codeforces_2.js:481-485 | the wins never exceed the cohort size; they equal it exactly when the athlete strictly beats every member, and are 0 exactly when it beats none |
| Analysis.CountBeatenIsBeatenSlots | codeforces_2.js:481-485 | the win count equals the number of cohort positions the athlete strictly beats |
| Analysis.RoundPercent | codeforces_2.js:487 | the percentage lies in 0..100 and equals floor(k/n·100 + 0.5) over the reals |
| Analysis.Comparative | codeforces_2.js:473-489 | N/A exactly when no benchmark of the same type other than the athlete took part, or when ranking a non-CONTESTANT row; otherwise the rounded percentage of the cohort the athlete strictly beats |
| Analysis.CohortSpec | codeforces_2.js:474 | the percentile cohort is exactly the benchmark participations of the same type under another handle |
| Analysis.TiesScoreZero | codeforces_2.js:483-484 | a cohort that only ties the athlete scores 0% |
| Analysis.PercentileExample | codeforces_2.js:473-489 | benchmark ranks 10, 20 and 30 against rank 15 give "better than 67%" |
| Analysis.SlotPace | codeforces_2.js:506-511 | a slot is faster exactly when its time is below the cohort mean, and slower exactly when it is above the mean plus the margin; with a non-negative margin it is never both |
| Analysis.TallyOf | codeforces_2.js:497-513 | the compared count never exceeds the results; the faster and slower counts never exceed it, nor does their sum when the margin is non-negative |
| Analysis.PaceCohortSpec | codeforces_2.js:494 | the pace cohort is exactly the benchmark participations of the same type, the athlete's own included |
| Analysis.TallyCountsCompared | codeforces_2.js:500-507 | the compared count equals the number of solved slots with a truthy time that some cohort member also timed |
| Analysis.TallyCountsFaster | codeforces_2.js:508-509 | the faster count equals the number of compared slots whose time is below the real cohort mean |
| Analysis.TallyCountsSlower | codeforces_2.js:508-510 | the slower count equals the number of compared slots whose time exceeds the real cohort mean plus the margin |
| Analysis.PaceAnalysis | codeforces_2.js:492-519 | an empty cohort gives N/A; any other verdict needs a solved result |
| Analysis.PaceAnalysisSpec | codeforces_2.js:492-519 | N/A exactly when there is no cohort or no compared slot; otherwise slower on a strict majority of slower slots, else faster on a strict majority of faster slots, else even |
| Analysis.PaceVerdictUnambiguous | codeforces_2.js:516-517 | with a non-negative margin, slower and faster majorities never coexist, so checking slower first hides nothing |
| Analysis.PaceExample | codeforces_2.js:509-510 | with a ten-minute margin, 600 s against a 1500 s mean is faster, against a 100 s mean is neither, and 1300 s against a 600 s mean is slower |
| Analysis.ContestEnd | codeforces_2.js:222 | the end used for upsolving lies two hours after the start exactly for type "CF", five hours after it otherwise |
| Analysis.Upsolving | codeforces_2.js:521-536 | 0 when the fetch failed; otherwise the number of distinct problem indices with an accepted submission to the contest made after its end, at most the number of submissions |
| Analysis.UpsolvedIndicesSpec | codeforces_2.js:526-533 | the set the loop builds is exactly the indices of the upsolving submissions |
| Analysis.UpsolvingIgnoresRepeats | codeforces_2.js:530-533 | another accepted submission to an already-upsolved index leaves the count unchanged |
| Analysis.UpsolvingExample | codeforces_2.js:222 | in a "CF" contest, an accepted submission one second after start + 7200 counts once, however often it is repeated |
| Analysis.UpsolvedIndicesAsWritten | codeforces_2.js:527-531 | the loop as written fails exactly when some accepted submission lacks a contest id; otherwise it agrees with the corrected set |
| Analysis.UpsolvingAsWrittenThrows | codeforces_2.js:529 | an accepted submission without a contest id makes the loop as written fail |
| Analysis.ClockOf | codeforces_2.js:271-273 | the minutes and seconds shown recombine to the solve time, with seconds below 60 |
| Analysis.Grid | codeforces_2.js:256-286 | the grid has max(maxProblems, problem count) cells; a cell is blank exactly beyond the contest's problems; solved exactly when the result has positive points; tried exactly when it has no points and a rejected attempt; every problem's cell carries its rating label; a solved cell shows a clock exactly when the result has a time, and that clock's minutes and seconds (below 60) recombine to the time |
| Analysis.RatingLabel | codeforces_2.js:265 | the label is the problem's rating, and is empty exactly when the rating is missing or 0 |
| Analysis.GridAgreesWithAcSub | codeforces_2.js:264-283 | the grid and the AC/SUB indicators classify every slot alike |
| Analysis.GridSolvedCount | codeforces_2.js:267-270 | when every problem has a result, the number of solved cells equals the stored solved count |
| Report.LookupContest | codeforces_2.js:166-173 | a found contest is a stored contest with the asked id; none is found exactly when no stored contest has that id |
| Report.ProblemsOf | codeforces_2.js:170 | the filter keeps exactly the stored problems of the asked contest, each as often as it is stored, and drops every other |
| Report.ContestProblems | codeforces_2.js:170 | a contest's problem list is a permutation of its stored problems, sorted by index |
| Report.MaxProblems | codeforces_2.js:167-173 | the grid width is the largest stored contest's problem count: at least every contest's, and attained by one of them unless it is 0 |
| Report.LookupRating | codeforces_2.js:161-164 | a found rating change is the last entry of the history with the asked contest id; none is found exactly when no entry has it |
| Report.Chronological | codeforces_2.js:184-189 | the athlete's stored participations, each exactly as often as it is stored and no other, ordered by their contest's start time from the latest down |
| Report.AthleteParticipationsCount | codeforces_2.js:184 | the athlete filter keeps each of the athlete's participations as often as it is stored and drops every other handle's |
| Report.ContestParticipations | codeforces_2.js:203 | the contest filter keeps exactly the stored participations of the asked contest, every handle's, each as often as it is stored |
| Report.StepsCarry | codeforces_2.js:197-251 | each processed participation carries the rank of the latest earlier CONTESTANT participation that was processed |
| Report.StepsFrom | codeforces_2.js:199-201 | every processed participation has its contest stored |
| Report.StepsComplete | codeforces_2.js:199-201 | every participation whose contest is stored is processed |
| Report.StepsOrdered | codeforces_2.js:199-201 | processed participations keep the start-time order |
| Report.StepsParticipants | codeforces_2.js:199-201 | the processed participations are exactly those whose contest is stored, in their original order: skipping drops nothing else and reorders nothing |
| Report.StoredOnlyCount | codeforces_2.js:199-201 | a participation is processed as often as it is queued when its contest is stored, and never otherwise |
| Report.ReportRankCarry | codeforces_2.js:197-251 | each line's rank trend is measured against the latest CONTESTANT line above it, or against nothing when there is none |
| Report.ReportFromStore | codeforces_2.js:184-203 | every line shows one of the athlete's stored participations whose contest is stored |
| Report.ReportComplete | codeforces_2.js:184-203 | each of the athlete's stored participations whose contest is stored has a line |
| Report.ReportLines | codeforces_2.js:184-203 | line `i` shows the `i`-th of the athlete's participations, latest contest first, whose contest is stored: one line per such participation, in that order |
| Report.ReportOneLineEach | codeforces_2.js:175-203 | with distinct stored ids, each of the athlete's stored participations whose contest is stored occurs exactly once among the participations `Report.ReportLines` maps one-to-one onto lines, and no other participation occurs there |
| Report.ReportChronological | codeforces_2.js:185-199 | lines run from the latest contest start to the earliest |
| Report.ReportGridWidth | codeforces_2.js:167-173 | every line's grid is as wide as the widest stored contest |
| Report.ReportOfSyncedStore | codeforces_2.js:122-131 | a store kept by the sync yields no PRACTICE line and no hard or easy flags, since the sync never writes acceptance counts |

## Left out

- HTTP calls, retries, throttling and JSON parsing (`fazerRequisicaoAPI`) are left out. Each call's outcome is an `ApiResult` parameter.
- Spreadsheet I/O, sheet creation, column formatting, colours, menus, toasts and logging are left out, because they are presentation.
- Reading the configuration sheet is left out. `Config` is taken as given, so a non-numeric good-rank threshold or time margin (`parseInt` giving NaN, codeforces_2.js:384) is not modelled. A NaN threshold would make every rank miss the target, and a NaN margin would make no slot slower.
- Date and time formatting and all cell texts are left out: the title names, the rendering of rating deltas, the emoji of the rank, AC/SUB and pace columns, and "Melhor que n%". Each verdict is kept as a datatype value.
- Discovery fetches the athlete's last 2000 submissions; the report fetches the last 500 afresh for every line, inside the upsolving count. All those fetches are one `status` value here, so submissions beyond the 500 most recent still count as upsolves, and a fetch that fails for some lines but not for others is not modelled.
- `Report.Report` reads the stored participations as a sequence; the source first collects them in a map keyed by id. The two agree on a store without repeated ids, and the sync never writes a repeated id (`Sync.WellFormed`).
- Participation ids are modelled as (contest, handle, type) tuples instead of joined strings. Contest ids are natural numbers instead of numeric strings.
- The problem-index sort uses code-point order (`Report.StrLe`), which only approximates `localeCompare`.
- Analysis.RoundPercent: agrees with the source's `Math.round((k / n) * 100)` on exact reals; floating-point products that land just below a .5 boundary (57/200, say) can round differently in the source.
- Analysis.SlotPace: compares against the exact mean, not the floating-point mean the source computes.
- Analysis.DifficultyOf: takes the two stored counts as optional integers; the source's `parseInt` of arbitrary cell text is not modelled.
- Analysis.PaceAnalysis: the `!atletaData.results` guard is not modelled, because a participation always has a result list (possibly empty).
- Analysis.Grid: the `mm:ss` zero padding is not modelled; a solved cell holds the minutes and seconds as numbers.

## Findings

| source | as written | input that shows it | evidently intended | confidence | as-written member | corrected member |
|---|---|---|---|---|---|---|
| codeforces_2.js:529 | `sub.contestId.toString()` is evaluated for every accepted submission, and the API omits `contestId` for submissions outside a contest, so the call throws and aborts the whole report | one accepted submission with no contest id in the athlete's recent submissions | such a submission is simply not an upsolve of this contest | not executed | Analysis.UpsolvedIndicesAsWritten, Analysis.UpsolvingAsWrittenThrows | Analysis.Upsolving |
