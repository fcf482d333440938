/** Batch sync (`atualizarBancoDeDados`): a fold over at most the first 20 pending tasks.
    Each task's standings either failed (the task is skipped) or yield a contest with its
    problems, appended when the contest is new, and one participation per standings row of a
    tracked handle, appended when it is not PRACTICE and its id is not yet stored. */
module Sync {
  import opened Wrappers
  import opened Model
  import Discovery

  /** Tasks processed per run. */
  const BatchLimit: nat := 20

  /** A standings row that may be stored: it has a first member, that member is in the roster
      and the participation is not PRACTICE. The roster is every tracked handle, the athlete's
      and both benchmark lists'; only membership in it is consulted. */
  predicate Eligible(row: StandingsRow, roster: seq<Handle>) {
    |row.members| > 0 && row.members[0] in roster && row.participantType != Practice
  }

  function RowId(contestId: nat, row: StandingsRow): ParticipationId
    requires |row.members| > 0
  {
    ParticipationId(contestId, row.members[0], row.participantType)
  }

  /** The participation row written for a standings row. */
  function Record(contestId: nat, row: StandingsRow): Participation
    requires |row.members| > 0
  {
    Participation(contestId, row.members[0], row.participantType, row.rank, CountSolved(row.results), row.results)
  }

  /** The contest row written on first encounter; a missing start time is written as 0. */
  function ContestRow(contestId: nat, c: StandingsContest): Contest {
    Contest(contestId, c.name, c.startTime.GetOr(0), c.contestType)
  }

  /** A problem row: a rating of 0 or none is written empty, the stats columns always empty. */
  function ProblemRow(contestId: nat, p: StandingsProblem): Problem {
    Problem(contestId, p.index, if Truthy(p.rating) then p.rating else None, None, None)
  }

  function ProblemRows(contestId: nat, ps: seq<StandingsProblem>): seq<Problem> {
    seq(|ps|, i requires 0 <= i < |ps| => ProblemRow(contestId, ps[i]))
  }

  /** One standings row; the stored key column is consulted afresh for every row. */
  function AppendRow(ps: seq<Participation>, contestId: nat, row: StandingsRow, roster: seq<Handle>): seq<Participation> {
    if Eligible(row, roster) && RowId(contestId, row) !in Ids(ps) then ps + [Record(contestId, row)] else ps
  }

  function AppendRows(ps: seq<Participation>, contestId: nat, rows: seq<StandingsRow>, roster: seq<Handle>): seq<Participation>
    decreases |rows|
  {
    if rows == [] then ps
    else AppendRows(AppendRow(ps, contestId, rows[0], roster), contestId, rows[1..], roster)
  }

  /** Contest and problem rows, guarded by the presence of the contest id. */
  function AddContest(s: Store, contestId: nat, st: Standings): Store {
    if HasContest(s.contests, contestId) then s
    else s.(contests := s.contests + [ContestRow(contestId, st.contest)],
            problems := s.problems + ProblemRows(contestId, st.problems))
  }

  /** One task: a failed standings fetch writes nothing. */
  function ProcessTask(s: Store, t: Task, response: ApiResult<Standings>, roster: seq<Handle>): Store {
    match response
    case Failed(_) => s
    case Ok(st) =>
      var s1 := AddContest(s, t.contestId, st);
      s1.(participations := AppendRows(s1.participations, t.contestId, st.rows, roster))
  }

  /** `responses[j]` is what the standings call for `batch[j]` returned. */
  function SyncBatch(s: Store, batch: seq<Task>, responses: seq<ApiResult<Standings>>, roster: seq<Handle>): Store
    requires |responses| == |batch|
    decreases |batch|
  {
    if batch == [] then s
    else SyncBatch(ProcessTask(s, batch[0], responses[0], roster), batch[1..], responses[1..], roster)
  }

  /** A run: only the first `BatchLimit` tasks are fetched, one standings call each. */
  function Sync(s: Store, tasks: seq<Task>, responses: seq<ApiResult<Standings>>, roster: seq<Handle>): Store
    requires |responses| == Min(|tasks|, BatchLimit)
  {
    SyncBatch(s, tasks[..Min(|tasks|, BatchLimit)], responses, roster)
  }

  // ---------------------------------------------------------------------------------------
  // Invariants of the store
  // ---------------------------------------------------------------------------------------

  /** The store only grows by appending. */
  predicate Grows(s: Store, s': Store) {
    && s.contests <= s'.contests
    && s.problems <= s'.problems
    && s.participations <= s'.participations
  }

  /** What every run keeps true of the store. */
  ghost predicate WellFormed(s: Store) {
    && DistinctIds(s.participations)
    && DistinctContests(s.contests)
    && (forall p :: p in s.participations ==> p.kind != Practice && p.solved == CountSolved(p.results))
    && (forall q :: q in s.problems ==> q.accepted.None? && q.tried.None? && HasContest(s.contests, q.contestId))
  }

  // ---------------------------------------------------------------------------------------
  // Participation appends
  // ---------------------------------------------------------------------------------------

  /** A new participation row of one task: it comes from an eligible standings row. */
  ghost predicate FromRows(p: Participation, contestId: nat, rows: seq<StandingsRow>, roster: seq<Handle>) {
    exists j :: 0 <= j < |rows| && Eligible(rows[j], roster) && p == Record(contestId, rows[j])
  }

  lemma {:induction false} AppendRowsSpec(ps: seq<Participation>, contestId: nat, rows: seq<StandingsRow>, roster: seq<Handle>)
    requires DistinctIds(ps)
    ensures var r := AppendRows(ps, contestId, rows, roster);
      && ps <= r
      && DistinctIds(r)
      && (forall k :: |ps| <= k < |r| ==> r[k].Id() !in Ids(ps) && FromRows(r[k], contestId, rows, roster))
      && (forall j :: 0 <= j < |rows| && Eligible(rows[j], roster) ==> RowId(contestId, rows[j]) in Ids(r))
    decreases |rows|
  {
    if rows != [] {
      var ps1 := AppendRow(ps, contestId, rows[0], roster);
      var r := AppendRows(ps1, contestId, rows[1..], roster);
      assert DistinctIds(ps1) by {
        if ps1 != ps {
          forall i | 0 <= i < |ps| ensures ps[i].Id() != ps1[|ps|].Id() {
            assert ps[i] in ps;
          }
        }
      }
      AppendRowsSpec(ps1, contestId, rows[1..], roster);
      assert Ids(ps) <= Ids(ps1) <= Ids(r) by {
        forall p | p in ps ensures p in ps1 { assert ps <= ps1; }
        forall p | p in ps1 ensures p in r { assert ps1 <= r; }
      }
      forall k | |ps| <= k < |r|
        ensures r[k].Id() !in Ids(ps) && FromRows(r[k], contestId, rows, roster)
      {
        if k < |ps1| {
          assert r[k] == ps1[k] == Record(contestId, rows[0]);
        } else {
          var j :| 0 <= j < |rows[1..]| && Eligible(rows[1..][j], roster) && r[k] == Record(contestId, rows[1..][j]);
          assert rows[1..][j] == rows[j + 1];
        }
      }
      forall j | 0 <= j < |rows| && Eligible(rows[j], roster)
        ensures RowId(contestId, rows[j]) in Ids(r)
      {
        if j == 0 {
          if ps1 != ps {
            assert ps1[|ps|] in ps1;
            assert ps1[|ps|].Id() == RowId(contestId, rows[0]);
          }
        } else {
          assert rows[1..][j - 1] == rows[j];
        }
      }
    }
  }

  /** Rows whose ids are all stored append nothing. */
  lemma {:induction false} AppendRowsSaturated(ps: seq<Participation>, contestId: nat, rows: seq<StandingsRow>, roster: seq<Handle>)
    requires forall j :: 0 <= j < |rows| && Eligible(rows[j], roster) ==> RowId(contestId, rows[j]) in Ids(ps)
    ensures AppendRows(ps, contestId, rows, roster) == ps
    decreases |rows|
  {
    if rows != [] {
      assert AppendRow(ps, contestId, rows[0], roster) == ps;
      forall j | 0 <= j < |rows[1..]| && Eligible(rows[1..][j], roster)
        ensures RowId(contestId, rows[1..][j]) in Ids(ps)
      {
        assert rows[1..][j] == rows[j + 1];
      }
      AppendRowsSaturated(ps, contestId, rows[1..], roster);
    }
  }

  // ---------------------------------------------------------------------------------------
  // One task
  // ---------------------------------------------------------------------------------------

  /** Everything one successful response asks to store is stored: its contest and every
      eligible row's participation id. */
  ghost predicate Written(s: Store, t: Task, response: ApiResult<Standings>, roster: seq<Handle>) {
    response.Ok? ==>
      && HasContest(s.contests, t.contestId)
      && forall j :: 0 <= j < |response.data.rows| && Eligible(response.data.rows[j], roster) ==>
           RowId(t.contestId, response.data.rows[j]) in Ids(s.participations)
  }

  lemma GrowsTransitive(a: Store, b: Store, c: Store)
    requires Grows(a, b) && Grows(b, c)
    ensures Grows(a, c)
  {
  }

  lemma WrittenStable(s: Store, s': Store, t: Task, response: ApiResult<Standings>, roster: seq<Handle>)
    requires Written(s, t, response, roster) && Grows(s, s')
    ensures Written(s', t, response, roster)
  {
    if response.Ok? {
      var c :| c in s.contests && c.id == t.contestId;
      assert c in s'.contests;
      forall p | p in s.participations ensures p in s'.participations {
      }
    }
  }

  lemma {:induction false} ProcessTaskSpec(s: Store, t: Task, response: ApiResult<Standings>, roster: seq<Handle>)
    requires WellFormed(s)
    ensures var r := ProcessTask(s, t, response, roster);
      && WellFormed(r)
      && Grows(s, r)
      && Written(r, t, response, roster)
      && (response.Failed? ==> r == s)
      && (forall k :: |s.participations| <= k < |r.participations| ==>
            && r.participations[k].Id() !in Ids(s.participations)
            && FromRows(r.participations[k], t.contestId, response.data.rows, roster))
      && (forall k :: |s.contests| <= k < |r.contests| ==>
            !HasContest(s.contests, t.contestId) && r.contests[k] == ContestRow(t.contestId, response.data.contest))
      && (forall k :: |s.problems| <= k < |r.problems| ==> ProblemFrom(r.problems[k], t.contestId, response.data.problems))
      && (|r.problems| > |s.problems| ==> response.Ok? && !HasContest(s.contests, t.contestId))
  {
    if response.Ok? {
      var st := response.data;
      var s1 := AddContest(s, t.contestId, st);
      var r := ProcessTask(s, t, response, roster);
      AddContestSpec(s, t.contestId, st);
      AppendRowsSpec(s1.participations, t.contestId, st.rows, roster);
      forall p | p in r.participations
        ensures p.kind != Practice && p.solved == CountSolved(p.results)
      {
        var k :| 0 <= k < |r.participations| && r.participations[k] == p;
        if k >= |s1.participations| {
          assert FromRows(p, t.contestId, st.rows, roster);
        } else {
          assert p in s1.participations;
        }
      }
      assert r.problems == s1.problems;
    }
  }

  /** A problem row written for one of a response's problems. */
  ghost predicate ProblemFrom(q: Problem, contestId: nat, ps: seq<StandingsProblem>) {
    exists i :: 0 <= i < |ps| && q == ProblemRow(contestId, ps[i])
  }

  /** The contest step keeps the store well formed and stores the contest. A contest already
      stored leaves the store untouched, so its problems are never written twice; a new one
      gets one problem row per problem of the response, in the response's order. */
  lemma AddContestSpec(s: Store, contestId: nat, st: Standings)
    requires WellFormed(s)
    ensures WellFormed(AddContest(s, contestId, st))
    ensures HasContest(AddContest(s, contestId, st).contests, contestId)
    ensures AddContest(s, contestId, st).participations == s.participations
    ensures HasContest(s.contests, contestId) ==> AddContest(s, contestId, st) == s
    ensures !HasContest(s.contests, contestId) ==>
      && s.problems <= AddContest(s, contestId, st).problems
      && |AddContest(s, contestId, st).problems| == |s.problems| + |st.problems|
      && forall i :: 0 <= i < |st.problems| ==>
           AddContest(s, contestId, st).problems[|s.problems| + i] == ProblemRow(contestId, st.problems[i])
    ensures forall k :: |s.problems| <= k < |AddContest(s, contestId, st).problems| ==>
      ProblemFrom(AddContest(s, contestId, st).problems[k], contestId, st.problems)
  {
    var s1 := AddContest(s, contestId, st);
    if !HasContest(s.contests, contestId) {
      assert s1.contests[|s.contests|] in s1.contests;
      forall q | q in s1.problems ensures HasContest(s1.contests, q.contestId) {
        if q in s.problems {
          var c :| c in s.contests && c.id == q.contestId;
          assert c in s1.contests;
        }
      }
      forall i | 0 <= i < |s.contests| ensures s.contests[i].id != contestId {
        assert s.contests[i] in s.contests;
      }
      forall k | |s.problems| <= k < |s1.problems| ensures ProblemFrom(s1.problems[k], contestId, st.problems) {
        var i := k - |s.problems|;
        assert s1.problems[k] == ProblemRows(contestId, st.problems)[i];
      }
      assert WellFormed(s1);
    } else {
      assert s1 == s;
    }
  }

  // ---------------------------------------------------------------------------------------
  // A batch
  // ---------------------------------------------------------------------------------------

  /** The batch position whose successful response a new participation row came from. */
  ghost predicate FromBatch(p: Participation, batch: seq<Task>, responses: seq<ApiResult<Standings>>, roster: seq<Handle>)
    requires |responses| == |batch|
  {
    exists j :: 0 <= j < |batch| && responses[j].Ok? && FromRows(p, batch[j].contestId, responses[j].data.rows, roster)
  }

  /** The batch position whose successful response a new contest row came from. */
  ghost predicate ContestFromBatch(c: Contest, batch: seq<Task>, responses: seq<ApiResult<Standings>>)
    requires |responses| == |batch|
  {
    exists j :: 0 <= j < |batch| && responses[j].Ok? && c == ContestRow(batch[j].contestId, responses[j].data.contest)
  }

  lemma {:induction false} SyncBatchSpec(s: Store, batch: seq<Task>, responses: seq<ApiResult<Standings>>, roster: seq<Handle>)
    requires |responses| == |batch|
    requires WellFormed(s)
    ensures var r := SyncBatch(s, batch, responses, roster);
      && WellFormed(r)
      && Grows(s, r)
      && (forall j :: 0 <= j < |batch| ==> Written(r, batch[j], responses[j], roster))
      && (forall k :: |s.participations| <= k < |r.participations| ==>
            r.participations[k].Id() !in Ids(s.participations) && FromBatch(r.participations[k], batch, responses, roster))
      && (forall k :: |s.contests| <= k < |r.contests| ==> ContestFromBatch(r.contests[k], batch, responses))
    decreases |batch|
  {
    if batch != [] {
      var s1 := ProcessTask(s, batch[0], responses[0], roster);
      var r := SyncBatch(s1, batch[1..], responses[1..], roster);
      ProcessTaskSpec(s, batch[0], responses[0], roster);
      SyncBatchSpec(s1, batch[1..], responses[1..], roster);
      GrowsTransitive(s, s1, r);
      WrittenStable(s1, r, batch[0], responses[0], roster);
      forall j | 1 <= j < |batch| ensures Written(r, batch[j], responses[j], roster) {
        assert batch[1..][j - 1] == batch[j] && responses[1..][j - 1] == responses[j];
      }
      assert Ids(s.participations) <= Ids(s1.participations) by {
        forall p | p in s.participations ensures p in s1.participations { }
      }
      forall k | |s.participations| <= k < |r.participations|
        ensures r.participations[k].Id() !in Ids(s.participations) && FromBatch(r.participations[k], batch, responses, roster)
      {
        if k < |s1.participations| {
          assert r.participations[k] == s1.participations[k];
        } else {
          assert FromBatch(r.participations[k], batch[1..], responses[1..], roster);
          var j :| 0 <= j < |batch[1..]| && responses[1..][j].Ok?
            && FromRows(r.participations[k], batch[1..][j].contestId, responses[1..][j].data.rows, roster);
          assert batch[1..][j] == batch[j + 1] && responses[1..][j] == responses[j + 1];
        }
      }
      forall k | |s.contests| <= k < |r.contests|
        ensures ContestFromBatch(r.contests[k], batch, responses)
      {
        if k < |s1.contests| {
          assert r.contests[k] == s1.contests[k];
        } else {
          assert ContestFromBatch(r.contests[k], batch[1..], responses[1..]);
          var j :| 0 <= j < |batch[1..]| && responses[1..][j].Ok?
            && r.contests[k] == ContestRow(batch[1..][j].contestId, responses[1..][j].data.contest);
          assert batch[1..][j] == batch[j + 1] && responses[1..][j] == responses[j + 1];
        }
      }
    }
  }

  /** A task whose response is already stored changes nothing. */
  lemma WrittenIsFixpoint(s: Store, t: Task, response: ApiResult<Standings>, roster: seq<Handle>)
    requires Written(s, t, response, roster)
    ensures ProcessTask(s, t, response, roster) == s
  {
    if response.Ok? {
      AppendRowsSaturated(s.participations, t.contestId, response.data.rows, roster);
    }
  }

  lemma {:induction false} SyncBatchOfWritten(s: Store, batch: seq<Task>, responses: seq<ApiResult<Standings>>, roster: seq<Handle>)
    requires |responses| == |batch|
    requires forall j :: 0 <= j < |batch| ==> Written(s, batch[j], responses[j], roster)
    ensures SyncBatch(s, batch, responses, roster) == s
    decreases |batch|
  {
    if batch != [] {
      WrittenIsFixpoint(s, batch[0], responses[0], roster);
      forall j | 0 <= j < |batch[1..]| ensures Written(s, batch[1..][j], responses[1..][j], roster) {
        assert batch[1..][j] == batch[j + 1] && responses[1..][j] == responses[j + 1];
      }
      SyncBatchOfWritten(s, batch[1..], responses[1..], roster);
    }
  }

  /** Re-running a batch against the same upstream data adds no row. */
  lemma SyncBatchIdempotent(s: Store, batch: seq<Task>, responses: seq<ApiResult<Standings>>, roster: seq<Handle>)
    requires |responses| == |batch|
    requires WellFormed(s)
    ensures var r := SyncBatch(s, batch, responses, roster);
      SyncBatch(r, batch, responses, roster) == r
  {
    SyncBatchSpec(s, batch, responses, roster);
    SyncBatchOfWritten(SyncBatch(s, batch, responses, roster), batch, responses, roster);
  }

  /** A run keeps the store well formed and only appends to it. */
  lemma SyncSpec(s: Store, tasks: seq<Task>, responses: seq<ApiResult<Standings>>, roster: seq<Handle>)
    requires |responses| == Min(|tasks|, BatchLimit)
    requires WellFormed(s)
    ensures WellFormed(Sync(s, tasks, responses, roster))
    ensures Grows(s, Sync(s, tasks, responses, roster))
  {
    SyncBatchSpec(s, tasks[..Min(|tasks|, BatchLimit)], responses, roster);
  }

  /** A participation row recording an eligible standings row of a successful response to one
      of the first `BatchLimit` tasks. */
  ghost predicate FromRun(p: Participation, tasks: seq<Task>, responses: seq<ApiResult<Standings>>, roster: seq<Handle>) {
    exists j :: 0 <= j < BatchLimit && j < |tasks| && j < |responses| && responses[j].Ok?
      && FromRows(p, tasks[j].contestId, responses[j].data.rows, roster)
  }

  /** A contest row written for a successful response to one of the first `BatchLimit` tasks. */
  ghost predicate ContestFromRun(c: Contest, tasks: seq<Task>, responses: seq<ApiResult<Standings>>) {
    exists j :: 0 <= j < BatchLimit && j < |tasks| && j < |responses| && responses[j].Ok?
      && c == ContestRow(tasks[j].contestId, responses[j].data.contest)
  }

  /** Every participation row a run appends records an eligible standings row of a successful
      response to one of the first `BatchLimit` tasks. */
  lemma SyncParticipationsFrom(s: Store, tasks: seq<Task>, responses: seq<ApiResult<Standings>>, roster: seq<Handle>)
    requires |responses| == Min(|tasks|, BatchLimit)
    requires WellFormed(s)
    ensures forall k :: |s.participations| <= k < |Sync(s, tasks, responses, roster).participations| ==>
      FromRun(Sync(s, tasks, responses, roster).participations[k], tasks, responses, roster)
  {
    var batch := tasks[..Min(|tasks|, BatchLimit)];
    SyncBatchSpec(s, batch, responses, roster);
    var r := Sync(s, tasks, responses, roster);
    forall k | |s.participations| <= k < |r.participations| ensures FromRun(r.participations[k], tasks, responses, roster) {
      assert FromBatch(r.participations[k], batch, responses, roster);
      var j :| 0 <= j < |batch| && responses[j].Ok? && FromRows(r.participations[k], batch[j].contestId, responses[j].data.rows, roster);
      assert batch[j] == tasks[j];
      assert j < BatchLimit && j < |tasks|;
      assert FromRows(r.participations[k], tasks[j].contestId, responses[j].data.rows, roster);
    }
  }

  /** Every contest row a run appends comes from a successful response to one of the first
      `BatchLimit` tasks. */
  lemma SyncContestsFrom(s: Store, tasks: seq<Task>, responses: seq<ApiResult<Standings>>, roster: seq<Handle>)
    requires |responses| == Min(|tasks|, BatchLimit)
    requires WellFormed(s)
    ensures forall k :: |s.contests| <= k < |Sync(s, tasks, responses, roster).contests| ==>
      ContestFromRun(Sync(s, tasks, responses, roster).contests[k], tasks, responses)
  {
    var batch := tasks[..Min(|tasks|, BatchLimit)];
    SyncBatchSpec(s, batch, responses, roster);
    var r := Sync(s, tasks, responses, roster);
    forall k | |s.contests| <= k < |r.contests| ensures ContestFromRun(r.contests[k], tasks, responses) {
      assert ContestFromBatch(r.contests[k], batch, responses);
      var j :| 0 <= j < |batch| && responses[j].Ok? && r.contests[k] == ContestRow(batch[j].contestId, responses[j].data.contest);
      assert batch[j] == tasks[j];
      assert j < BatchLimit && j < |tasks|;
      assert r.contests[k] == ContestRow(tasks[j].contestId, responses[j].data.contest);
    }
  }

  /** A problem row written for a successful response to one of the batch's tasks. */
  ghost predicate ProblemFromBatch(q: Problem, batch: seq<Task>, responses: seq<ApiResult<Standings>>)
    requires |responses| == |batch|
  {
    exists j :: 0 <= j < |batch| && responses[j].Ok? && ProblemFrom(q, batch[j].contestId, responses[j].data.problems)
  }

  /** Every problem row a batch appends comes from one of its successful responses and belongs
      to a contest that was not stored before the batch: problems of a stored contest are
      never appended again. */
  lemma {:induction false} SyncBatchProblemsFrom(s: Store, batch: seq<Task>, responses: seq<ApiResult<Standings>>, roster: seq<Handle>)
    requires |responses| == |batch|
    requires WellFormed(s)
    ensures var r := SyncBatch(s, batch, responses, roster);
      forall k :: |s.problems| <= k < |r.problems| ==>
        && !HasContest(s.contests, r.problems[k].contestId)
        && ProblemFromBatch(r.problems[k], batch, responses)
    decreases |batch|
  {
    if batch != [] {
      var s1 := ProcessTask(s, batch[0], responses[0], roster);
      var r := SyncBatch(s1, batch[1..], responses[1..], roster);
      ProcessTaskSpec(s, batch[0], responses[0], roster);
      SyncBatchSpec(s1, batch[1..], responses[1..], roster);
      SyncBatchProblemsFrom(s1, batch[1..], responses[1..], roster);
      forall k | |s.problems| <= k < |r.problems|
        ensures !HasContest(s.contests, r.problems[k].contestId)
        ensures ProblemFromBatch(r.problems[k], batch, responses)
      {
        if k < |s1.problems| {
          assert r.problems[k] == s1.problems[k];
          var i :| 0 <= i < |responses[0].data.problems|
            && s1.problems[k] == ProblemRow(batch[0].contestId, responses[0].data.problems[i]);
        } else {
          assert !HasContest(s1.contests, r.problems[k].contestId);
          assert !HasContest(s.contests, r.problems[k].contestId) by {
            forall c | c in s.contests ensures c in s1.contests {
              var i :| 0 <= i < |s.contests| && s.contests[i] == c;
              assert s1.contests[i] == c;
            }
          }
          var j :| 0 <= j < |batch[1..]| && responses[1..][j].Ok?
            && ProblemFrom(r.problems[k], batch[1..][j].contestId, responses[1..][j].data.problems);
          assert batch[1..][j] == batch[j + 1] && responses[1..][j] == responses[j + 1];
        }
      }
    }
  }

  /** A problem row written for a successful response to one of the first `BatchLimit` tasks. */
  ghost predicate ProblemFromRun(q: Problem, tasks: seq<Task>, responses: seq<ApiResult<Standings>>) {
    exists j :: 0 <= j < BatchLimit && j < |tasks| && j < |responses| && responses[j].Ok?
      && ProblemFrom(q, tasks[j].contestId, responses[j].data.problems)
  }

  /** Every problem row a run appends comes from a successful response to one of the first
      `BatchLimit` tasks, for a contest that was not stored before the run. */
  lemma SyncProblemsFrom(s: Store, tasks: seq<Task>, responses: seq<ApiResult<Standings>>, roster: seq<Handle>)
    requires |responses| == Min(|tasks|, BatchLimit)
    requires WellFormed(s)
    ensures forall k :: |s.problems| <= k < |Sync(s, tasks, responses, roster).problems| ==>
      && !HasContest(s.contests, Sync(s, tasks, responses, roster).problems[k].contestId)
      && ProblemFromRun(Sync(s, tasks, responses, roster).problems[k], tasks, responses)
  {
    var batch := tasks[..Min(|tasks|, BatchLimit)];
    SyncBatchProblemsFrom(s, batch, responses, roster);
    var r := Sync(s, tasks, responses, roster);
    assert r == SyncBatch(s, batch, responses, roster);
    forall k | |s.problems| <= k < |r.problems|
      ensures !HasContest(s.contests, r.problems[k].contestId)
      ensures ProblemFromRun(r.problems[k], tasks, responses)
    {
      assert ProblemFromBatch(r.problems[k], batch, responses);
      var j :| 0 <= j < |batch| && responses[j].Ok? && ProblemFrom(r.problems[k], batch[j].contestId, responses[j].data.problems);
      assert batch[j] == tasks[j];
      assert j < BatchLimit && j < |tasks|;
      assert ProblemFrom(r.problems[k], tasks[j].contestId, responses[j].data.problems);
    }
  }

  /** A run whose every standings fetch failed leaves the store as it was. */
  lemma {:induction false} AllFailedWritesNothing(s: Store, batch: seq<Task>, responses: seq<ApiResult<Standings>>, roster: seq<Handle>)
    requires |responses| == |batch|
    requires forall j :: 0 <= j < |responses| ==> responses[j].Failed?
    ensures SyncBatch(s, batch, responses, roster) == s
    decreases |batch|
  {
    if batch != [] {
      assert forall j :: 0 <= j < |responses[1..]| ==> responses[1..][j] == responses[j + 1];
      AllFailedWritesNothing(s, batch[1..], responses[1..], roster);
    }
  }

  /** Every task of the run's batch is written to the store the run leaves. */
  lemma SyncWrites(s: Store, tasks: seq<Task>, responses: seq<ApiResult<Standings>>, roster: seq<Handle>)
    requires |responses| == Min(|tasks|, BatchLimit)
    requires WellFormed(s)
    ensures forall j :: 0 <= j < BatchLimit && j < |tasks| ==> Written(Sync(s, tasks, responses, roster), tasks[j], responses[j], roster)
  {
    var batch := tasks[..Min(|tasks|, BatchLimit)];
    SyncBatchSpec(s, batch, responses, roster);
    forall j | 0 <= j < BatchLimit && j < |tasks| ensures Written(Sync(s, tasks, responses, roster), tasks[j], responses[j], roster) {
      assert batch[j] == tasks[j];
    }
  }

  /** A task whose standings were fetched and show the athlete's own row of the task's type
      is not queued again: the next discovery, over any feeds, skips it. */
  lemma SyncedTaskLeavesQueue(s: Store, tasks: seq<Task>, responses: seq<ApiResult<Standings>>, roster: seq<Handle>,
                              j: nat, row: StandingsRow, rating: ApiResult<seq<RatingChange>>, status: ApiResult<seq<Submission>>)
    requires |responses| == Min(|tasks|, BatchLimit)
    requires WellFormed(s)
    requires j < BatchLimit && j < |tasks| && responses[j].Ok?
    requires row in responses[j].data.rows && Eligible(row, roster) && row.participantType == tasks[j].kind
    ensures tasks[j] !in Discovery.Discover(row.members[0], rating, status, Ids(Sync(s, tasks, responses, roster).participations))
  {
    SyncWrites(s, tasks, responses, roster);
    var i :| 0 <= i < |responses[j].data.rows| && responses[j].data.rows[i] == row;
    assert RowId(tasks[j].contestId, row) == Discovery.TaskId(tasks[j], row.members[0]);
  }
}
