/** The report loop of `renderizarPlanilhaPerformance`: the athlete's participations, newest
    contest first, each turned into one flat record of display fields and the five analyses,
    carrying the previous CONTESTANT rank from row to row.  Sheet layout, colours and date
    formatting are the renderer's and are not modelled. */
module Report {
  import opened Wrappers
  import opened Model
  import opened Analysis
  import Sorting
  import Sync

  /** One report line. */
  datatype ReportRow = ReportRow(
    contestId: nat,
    contestName: string,
    startTime: int,
    kind: ParticipantType,
    rank: int,
    rating: Option<int>,
    ratingDelta: Option<int>,
    title: Option<Title>,
    grid: seq<Cell>,
    upsolved: nat,
    rankVerdict: Option<RankVerdict>,
    acSub: seq<Indicator>,
    sameLevel: Standing,
    higherLevel: Standing,
    pace: Pace)

  // ---------------------------------------------------------------------------------------
  // Lookups over the store (the maps the source builds, last row winning)
  // ---------------------------------------------------------------------------------------

  function LookupContest(cs: seq<Contest>, id: nat): (r: Option<Contest>)
    ensures r.Some? ==> r.value in cs && r.value.id == id
    ensures r.None? <==> !HasContest(cs, id)
  {
    if cs == [] then None
    else if cs[|cs| - 1].id == id then Some(cs[|cs| - 1])
    else
      var r := LookupContest(cs[..|cs| - 1], id);
      assert cs == cs[..|cs| - 1] + [cs[|cs| - 1]];
      r
  }

  /** A participation's sort key: its contest's start time, 0 when the contest is not stored. */
  function StartOf(cs: seq<Contest>, id: nat): int {
    match LookupContest(cs, id)
    case None => 0
    case Some(c) => c.startTime
  }

  /** Position `i` holds the last rating change of contest `id`. */
  predicate LatestRatingAt(history: seq<RatingChange>, id: nat, i: int) {
    && 0 <= i < |history|
    && history[i].contestId == id
    && forall j :: i < j < |history| ==> history[j].contestId != id
  }

  /** The rating change of a contest, the later entry winning as in a map filled in order. */
  function LookupRating(history: seq<RatingChange>, id: nat): (r: Option<RatingChange>)
    ensures r.None? <==> forall i :: 0 <= i < |history| ==> history[i].contestId != id
    ensures r.Some? ==> exists i :: LatestRatingAt(history, id, i) && history[i] == r.value
  {
    if history == [] then None
    else
      var n := |history| - 1;
      if history[n].contestId == id then
        assert LatestRatingAt(history, id, n);
        Some(history[n])
      else
        var r := LookupRating(history[..n], id);
        LatestRatingExtends(history, history[..n], id, r);
        r
  }

  /** An answer for all but the last entry stays the answer when the last entry is of
      another contest. */
  lemma LatestRatingExtends(history: seq<RatingChange>, init: seq<RatingChange>, id: nat, r: Option<RatingChange>)
    requires history != [] && init == history[..|history| - 1] && history[|history| - 1].contestId != id
    requires r.None? <==> forall i :: 0 <= i < |init| ==> init[i].contestId != id
    requires r.Some? ==> exists i :: LatestRatingAt(init, id, i) && init[i] == r.value
    ensures r.None? <==> forall i :: 0 <= i < |history| ==> history[i].contestId != id
    ensures r.Some? ==> exists i :: LatestRatingAt(history, id, i) && history[i] == r.value
  {
    forall j | 0 <= j < |init| ensures init[j] == history[j] { }
    if r.Some? {
      var i :| LatestRatingAt(init, id, i) && init[i] == r.value;
      assert LatestRatingAt(history, id, i);
    }
  }

  /** Code-point lexicographic order on problem indices. */
  predicate StrLe(a: string, b: string) {
    if a == [] then true
    else if b == [] then false
    else if a[0] != b[0] then a[0] < b[0]
    else StrLe(a[1..], b[1..])
  }

  lemma StrLeTotal(a: string, b: string)
    ensures StrLe(a, b) || StrLe(b, a)
  {
  }

  lemma StrLeTransitive(a: string, b: string, c: string)
    requires StrLe(a, b) && StrLe(b, c)
    ensures StrLe(a, c)
  {
  }

  predicate IndexLe(p: Problem, q: Problem) {
    StrLe(p.index, q.index)
  }

  /** The stored problem rows of one contest, in table order. */
  function ProblemsOf(problems: seq<Problem>, id: nat): (r: seq<Problem>)
    ensures forall q :: q in r <==> q in problems && q.contestId == id
    ensures forall q :: multiset(r)[q] == if q.contestId == id then multiset(problems)[q] else 0
  {
    if problems == [] then []
    else
      var n := |problems| - 1;
      var rest := ProblemsOf(problems[..n], id);
      assert problems == problems[..n] + [problems[n]];
      if problems[n].contestId == id then rest + [problems[n]] else rest
  }

  /** A contest's problems, sorted by index. */
  function ContestProblems(problems: seq<Problem>, id: nat): (r: seq<Problem>)
    ensures Sorting.SortedBy(r, IndexLe)
    ensures multiset(r) == multiset(ProblemsOf(problems, id))
  {
    forall a, b ensures IndexLe(a, b) || IndexLe(b, a) {
      StrLeTotal(a.index, b.index);
    }
    forall a, b, c | IndexLe(a, b) && IndexLe(b, c) ensures IndexLe(a, c) {
      StrLeTransitive(a.index, b.index, c.index);
    }
    Sorting.SortBy(ProblemsOf(problems, id), IndexLe)
  }

  /** `m` is 0 or some contest's problem count. */
  ghost predicate Attained(cs: seq<Contest>, problems: seq<Problem>, m: nat) {
    m == 0 || exists c :: c in cs && |ContestProblems(problems, c.id)| == m
  }

  /** The largest of some counts, 0 when there are none. */
  function MaxOf(ws: seq<nat>): (m: nat)
    ensures forall i :: 0 <= i < |ws| ==> ws[i] <= m
    ensures m == 0 || m in ws
  {
    if ws == [] then 0
    else
      var rest := MaxOf(ws[..|ws| - 1]);
      assert ws == ws[..|ws| - 1] + [ws[|ws| - 1]];
      if rest < ws[|ws| - 1] then ws[|ws| - 1] else rest
  }

  /** The widest contest: the grid width of every row. */
  function MaxProblems(cs: seq<Contest>, problems: seq<Problem>): (m: nat)
    ensures forall c :: c in cs ==> |ContestProblems(problems, c.id)| <= m
    ensures Attained(cs, problems, m)
  {
    var ws := seq(|cs|, i requires 0 <= i < |cs| => |ContestProblems(problems, cs[i].id)|);
    var m := MaxOf(ws);
    forall c | c in cs ensures |ContestProblems(problems, c.id)| <= m {
      var i :| 0 <= i < |cs| && cs[i] == c;
      assert ws[i] <= m;
    }
    assert Attained(cs, problems, m) by {
      if m != 0 {
        var i :| 0 <= i < |ws| && ws[i] == m;
        assert cs[i] in cs;
      }
    }
    m
  }

  function AthleteParticipations(ps: seq<Participation>, athlete: Handle): seq<Participation> {
    if ps == [] then []
    else
      var rest := AthleteParticipations(ps[..|ps| - 1], athlete);
      if ps[|ps| - 1].handle == athlete then rest + [ps[|ps| - 1]] else rest
  }

  /** The stored participations of one contest, every handle's, in table order: the rows the
      cohort analyses draw from. */
  function ContestParticipations(ps: seq<Participation>, id: nat): (r: seq<Participation>)
    ensures forall p :: p in r <==> p in ps && p.contestId == id
    ensures forall p :: multiset(r)[p] == if p.contestId == id then multiset(ps)[p] else 0
  {
    if ps == [] then []
    else
      var n := |ps| - 1;
      var rest := ContestParticipations(ps[..n], id);
      assert ps == ps[..n] + [ps[n]];
      if ps[n].contestId == id then rest + [ps[n]] else rest
  }

  /** The athlete's participations, latest contest start first (the comparator
      `timeB - timeA`, stable). */
  function Chronological(s: Store, athlete: Handle): (r: seq<Participation>)
    ensures forall i, j :: 0 <= i < j < |r| ==> StartOf(s.contests, r[i].contestId) >= StartOf(s.contests, r[j].contestId)
    ensures forall p :: p in r <==> p in s.participations && p.handle == athlete
    ensures multiset(r) == multiset(AthleteParticipations(s.participations, athlete))
    ensures forall p :: multiset(r)[p] == if p.handle == athlete then multiset(s.participations)[p] else 0
  {
    var le := (a: Participation, b: Participation) => StartOf(s.contests, a.contestId) >= StartOf(s.contests, b.contestId);
    var mine := AthleteParticipations(s.participations, athlete);
    var r := Sorting.SortBy(mine, le);
    forall p ensures p in r <==> p in s.participations && p.handle == athlete {
      Sorting.SortByKeepsElements(mine, le, p);
      AthleteParticipationsSpec(s.participations, athlete, p);
    }
    forall p ensures multiset(r)[p] == if p.handle == athlete then multiset(s.participations)[p] else 0 {
      AthleteParticipationsCount(s.participations, athlete, p);
    }
    r
  }

  lemma {:induction false} AthleteParticipationsSpec(ps: seq<Participation>, athlete: Handle, p: Participation)
    ensures p in AthleteParticipations(ps, athlete) <==> p in ps && p.handle == athlete
  {
    if ps != [] {
      AthleteParticipationsSpec(ps[..|ps| - 1], athlete, p);
      assert ps == ps[..|ps| - 1] + [ps[|ps| - 1]];
    }
  }

  lemma {:induction false} AthleteParticipationsCount(ps: seq<Participation>, athlete: Handle, p: Participation)
    ensures multiset(AthleteParticipations(ps, athlete))[p] == if p.handle == athlete then multiset(ps)[p] else 0
  {
    if ps != [] {
      var n := |ps| - 1;
      AthleteParticipationsCount(ps[..n], athlete, p);
      assert ps == ps[..n] + [ps[n]];
    }
  }

  // ---------------------------------------------------------------------------------------
  // The loop
  // ---------------------------------------------------------------------------------------

  /** One pass of the loop that produces a line: the participation, its stored contest and
      the rank carried in from the lines above. */
  datatype Step = Step(p: Participation, c: Contest, prev: Option<int>)

  /** The loop's control: a participation whose contest is not stored is skipped without
      touching the carried rank; a CONTESTANT line replaces the carried rank once its own
      line is built. */
  function Steps(cs: seq<Contest>, todo: seq<Participation>, prev: Option<int>): seq<Step>
    decreases |todo|
  {
    if todo == [] then []
    else
      var p := todo[0];
      match LookupContest(cs, p.contestId)
      case None => Steps(cs, todo[1..], prev)
      case Some(c) => [Step(p, c, prev)] + Steps(cs, todo[1..], if p.kind == Contestant then Some(p.rank) else prev)
  }

  /** The line for one step. */
  function BuildRow(s: Store, cfg: Config, rating: ApiResult<seq<RatingChange>>, status: ApiResult<seq<Submission>>,
                    st: Step, width: nat): ReportRow
  {
    var p := st.p;
    var c := st.c;
    var change := LookupRating(DataOrEmpty(rating), p.contestId);
    var problems := ContestProblems(s.problems, c.id);
    var inContest := ContestParticipations(s.participations, p.contestId);
    ReportRow(
      p.contestId, c.name, c.startTime, p.kind, p.rank,
      if change.Some? then Some(change.value.newRating) else None,
      if change.Some? && p.kind == Contestant then Some(change.value.newRating - change.value.oldRating) else None,
      if change.Some? then Some(TitleOf(change.value.newRating)) else None,
      Grid(problems, p.results, width),
      Upsolving(status, c.id, ContestEnd(c)),
      RankAnalysis(p.rank, st.prev, cfg.goodRank, p.kind),
      AcSub(problems, p.results, s.problems),
      Comparative(p, inContest, cfg.sameLevel, ByRank),
      Comparative(p, inContest, cfg.higherLevel, BySolved),
      PaceAnalysis(p, inContest, cfg.sameLevel + cfg.higherLevel, cfg.marginMinutes))
  }

  function ReportSteps(s: Store, cfg: Config): seq<Step> {
    Steps(s.contests, Chronological(s, cfg.athlete), None)
  }

  function Report(s: Store, cfg: Config, rating: ApiResult<seq<RatingChange>>, status: ApiResult<seq<Submission>>): seq<ReportRow> {
    var steps := ReportSteps(s, cfg);
    var width := MaxProblems(s.contests, s.problems);
    seq(|steps|, i requires 0 <= i < |steps| => BuildRow(s, cfg, rating, status, steps[i], width))
  }

  // ---------------------------------------------------------------------------------------
  // Properties of the loop
  // ---------------------------------------------------------------------------------------

  /** Reference definition of the carried rank: the rank of the latest CONTESTANT line among
      `rows`, or `init` when there is none. */
  function LastContestantRank(rows: seq<ReportRow>, init: Option<int>): Option<int> {
    if rows == [] then init
    else if rows[|rows| - 1].kind == Contestant then Some(rows[|rows| - 1].rank)
    else LastContestantRank(rows[..|rows| - 1], init)
  }

  /** The same over steps. */
  function LastContestantStep(steps: seq<Step>, init: Option<int>): Option<int> {
    if steps == [] then init
    else if steps[|steps| - 1].p.kind == Contestant then Some(steps[|steps| - 1].p.rank)
    else LastContestantStep(steps[..|steps| - 1], init)
  }

  lemma {:induction false} LastContestantStepCons(st: Step, steps: seq<Step>, init: Option<int>)
    ensures LastContestantStep([st] + steps, init)
         == LastContestantStep(steps, if st.p.kind == Contestant then Some(st.p.rank) else init)
  {
    if steps != [] {
      var n := |steps| - 1;
      assert ([st] + steps)[..n + 1] == [st] + steps[..n];
      LastContestantStepCons(st, steps[..n], init);
    }
  }

  /** The line for one participation. */
  ghost predicate StepFrom(st: Step, p: Participation, cs: seq<Contest>) {
    st.p == p && LookupContest(cs, p.contestId) == Some(st.c)
  }

  /** Every step shows one of `todo`'s participations whose contest is stored. */
  lemma {:induction false} StepsFrom(cs: seq<Contest>, todo: seq<Participation>, prev: Option<int>)
    ensures forall i :: 0 <= i < |Steps(cs, todo, prev)| ==>
      exists j :: 0 <= j < |todo| && StepFrom(Steps(cs, todo, prev)[i], todo[j], cs)
    decreases |todo|
  {
    if todo != [] {
      var p := todo[0];
      var prev' := if p.kind == Contestant then Some(p.rank) else prev;
      match LookupContest(cs, p.contestId)
      case None =>
        StepsFrom(cs, todo[1..], prev);
        var rest := Steps(cs, todo[1..], prev);
        assert Steps(cs, todo, prev) == rest;
        forall i | 0 <= i < |rest| ensures exists j :: 0 <= j < |todo| && StepFrom(rest[i], todo[j], cs) {
          var j :| 0 <= j < |todo[1..]| && StepFrom(rest[i], todo[1..][j], cs);
          assert todo[1..][j] == todo[j + 1];
          assert StepFrom(rest[i], todo[j + 1], cs);
        }
      case Some(c) =>
        StepsFrom(cs, todo[1..], prev');
        var rest := Steps(cs, todo[1..], prev');
        var steps := [Step(p, c, prev)] + rest;
        assert Steps(cs, todo, prev) == steps;
        forall i | 0 <= i < |steps| ensures exists j :: 0 <= j < |todo| && StepFrom(steps[i], todo[j], cs) {
          if i == 0 {
            assert StepFrom(steps[0], todo[0], cs);
          } else {
            var j :| 0 <= j < |todo[1..]| && StepFrom(rest[i - 1], todo[1..][j], cs);
            assert todo[1..][j] == todo[j + 1];
            assert StepFrom(steps[i], todo[j + 1], cs);
          }
        }
    } else {
      assert Steps(cs, todo, prev) == [];
    }
  }

  /** The participations the steps show, in order. */
  function Participants(steps: seq<Step>): seq<Participation> {
    seq(|steps|, i requires 0 <= i < |steps| => steps[i].p)
  }

  lemma ParticipantsCons(st: Step, rest: seq<Step>)
    ensures Participants([st] + rest) == [st.p] + Participants(rest)
  {
    var l, r := Participants([st] + rest), [st.p] + Participants(rest);
    assert |l| == |r|;
    forall i | 0 <= i < |l| ensures l[i] == r[i] {
      if i > 0 {
        assert ([st] + rest)[i] == rest[i - 1];
      }
    }
  }

  /** Reference definition: the participations of `todo` whose contest is stored, in order. */
  function StoredOnly(cs: seq<Contest>, todo: seq<Participation>): seq<Participation>
    decreases |todo|
  {
    if todo == [] then []
    else (if HasContest(cs, todo[0].contestId) then [todo[0]] else []) + StoredOnly(cs, todo[1..])
  }

  /** The loop shows exactly the participations whose contest is stored, once each and in
      `todo`'s order; the others are skipped. */
  lemma {:induction false} StepsParticipants(cs: seq<Contest>, todo: seq<Participation>, prev: Option<int>)
    ensures Participants(Steps(cs, todo, prev)) == StoredOnly(cs, todo)
    decreases |todo|
  {
    if todo == [] {
      assert Steps(cs, todo, prev) == [];
    } else {
      var p := todo[0];
      var prev' := if p.kind == Contestant then Some(p.rank) else prev;
      match LookupContest(cs, p.contestId)
      case None =>
        StepsParticipants(cs, todo[1..], prev);
        assert Steps(cs, todo, prev) == Steps(cs, todo[1..], prev);
        assert !HasContest(cs, p.contestId);
        assert StoredOnly(cs, todo) == StoredOnly(cs, todo[1..]);
      case Some(c) =>
        StepsParticipants(cs, todo[1..], prev');
        var rest := Steps(cs, todo[1..], prev');
        assert Steps(cs, todo, prev) == [Step(p, c, prev)] + rest;
        assert HasContest(cs, p.contestId);
        assert StoredOnly(cs, todo) == [p] + StoredOnly(cs, todo[1..]);
        ParticipantsCons(Step(p, c, prev), rest);
    }
  }

  /** A participation occurs in `StoredOnly` as often as in `todo` when its contest is stored,
      and not at all otherwise. */
  lemma {:induction false} StoredOnlyCount(cs: seq<Contest>, todo: seq<Participation>, p: Participation)
    ensures multiset(StoredOnly(cs, todo))[p] == if HasContest(cs, p.contestId) then multiset(todo)[p] else 0
    decreases |todo|
  {
    if todo != [] {
      StoredOnlyCount(cs, todo[1..], p);
      assert todo == [todo[0]] + todo[1..];
    }
  }

  /** Every participation of `todo` whose contest is stored yields a step. */
  lemma {:induction false} StepsComplete(cs: seq<Contest>, todo: seq<Participation>, prev: Option<int>)
    ensures forall j :: 0 <= j < |todo| && HasContest(cs, todo[j].contestId) ==>
      exists i :: 0 <= i < |Steps(cs, todo, prev)| && StepFrom(Steps(cs, todo, prev)[i], todo[j], cs)
    decreases |todo|
  {
    if todo != [] {
      var p := todo[0];
      var prev' := if p.kind == Contestant then Some(p.rank) else prev;
      match LookupContest(cs, p.contestId)
      case None =>
        StepsComplete(cs, todo[1..], prev);
        var rest := Steps(cs, todo[1..], prev);
        assert Steps(cs, todo, prev) == rest;
        forall j | 0 <= j < |todo| && HasContest(cs, todo[j].contestId)
          ensures exists i :: 0 <= i < |rest| && StepFrom(rest[i], todo[j], cs)
        {
          assert j != 0;
          assert todo[1..][j - 1] == todo[j];
        }
      case Some(c) =>
        StepsComplete(cs, todo[1..], prev');
        var rest := Steps(cs, todo[1..], prev');
        var steps := [Step(p, c, prev)] + rest;
        assert Steps(cs, todo, prev) == steps;
        forall j | 0 <= j < |todo| && HasContest(cs, todo[j].contestId)
          ensures exists i :: 0 <= i < |steps| && StepFrom(steps[i], todo[j], cs)
        {
          if j == 0 {
            assert StepFrom(steps[0], todo[0], cs);
          } else {
            assert todo[1..][j - 1] == todo[j];
            var i :| 0 <= i < |rest| && StepFrom(rest[i], todo[1..][j - 1], cs);
            assert steps[i + 1] == rest[i];
          }
        }
    }
  }

  /** Steps keep `todo`'s order of start times, none later than `todo`'s first. */
  lemma {:induction false} StepsOrdered(cs: seq<Contest>, todo: seq<Participation>, prev: Option<int>)
    requires forall i, j :: 0 <= i < j < |todo| ==> StartOf(cs, todo[i].contestId) >= StartOf(cs, todo[j].contestId)
    ensures forall i, j :: 0 <= i < j < |Steps(cs, todo, prev)| ==>
      Steps(cs, todo, prev)[i].c.startTime >= Steps(cs, todo, prev)[j].c.startTime
    ensures todo != [] ==> forall i :: 0 <= i < |Steps(cs, todo, prev)| ==>
      Steps(cs, todo, prev)[i].c.startTime <= StartOf(cs, todo[0].contestId)
    decreases |todo|
  {
    if todo == [] {
      assert Steps(cs, todo, prev) == [];
    } else {
      var p := todo[0];
      var prev' := if p.kind == Contestant then Some(p.rank) else prev;
      var tail := todo[1..];
      forall i, j | 0 <= i < j < |tail| ensures StartOf(cs, tail[i].contestId) >= StartOf(cs, tail[j].contestId) {
        assert tail[i] == todo[i + 1] && tail[j] == todo[j + 1];
      }
      var next := if LookupContest(cs, p.contestId).Some? then prev' else prev;
      StepsOrdered(cs, tail, next);
      var rest := Steps(cs, tail, next);
      assert forall i :: 0 <= i < |rest| ==> rest[i].c.startTime <= StartOf(cs, p.contestId) by {
        if tail == [] {
          assert rest == [];
        } else {
          assert tail[0] == todo[1];
          assert StartOf(cs, todo[1].contestId) <= StartOf(cs, p.contestId);
        }
      }
      match LookupContest(cs, p.contestId)
      case None =>
        assert Steps(cs, todo, prev) == rest;
      case Some(c) =>
        assert Steps(cs, todo, prev) == [Step(p, c, prev)] + rest;
        assert c.startTime == StartOf(cs, p.contestId);
        ConsOrdered(Step(p, c, prev), rest);
    }
  }

  /** A step no earlier than every step of an ordered sequence can go in front of it. */
  lemma ConsOrdered(st: Step, rest: seq<Step>)
    requires forall i, j :: 0 <= i < j < |rest| ==> rest[i].c.startTime >= rest[j].c.startTime
    requires forall i :: 0 <= i < |rest| ==> rest[i].c.startTime <= st.c.startTime
    ensures forall i, j :: 0 <= i < j < |[st] + rest| ==> ([st] + rest)[i].c.startTime >= ([st] + rest)[j].c.startTime
    ensures forall i :: 0 <= i < |[st] + rest| ==> ([st] + rest)[i].c.startTime <= st.c.startTime
  {
    var steps := [st] + rest;
    forall i, j | 0 <= i < j < |steps| ensures steps[i].c.startTime >= steps[j].c.startTime {
      assert steps[j] == rest[j - 1];
      if i > 0 {
        assert steps[i] == rest[i - 1];
      }
    }
    forall i | 0 <= i < |steps| ensures steps[i].c.startTime <= st.c.startTime {
      if i > 0 {
        assert steps[i] == rest[i - 1];
      }
    }
  }

  /** Each step carries the rank of the latest CONTESTANT step before it. */
  lemma {:induction false} StepsCarry(cs: seq<Contest>, todo: seq<Participation>, prev: Option<int>)
    ensures forall i :: 0 <= i < |Steps(cs, todo, prev)| ==>
      Steps(cs, todo, prev)[i].prev == LastContestantStep(Steps(cs, todo, prev)[..i], prev)
    decreases |todo|
  {
    if todo != [] {
      var p := todo[0];
      var prev' := if p.kind == Contestant then Some(p.rank) else prev;
      match LookupContest(cs, p.contestId)
      case None =>
        StepsCarry(cs, todo[1..], prev);
        assert Steps(cs, todo, prev) == Steps(cs, todo[1..], prev);
      case Some(c) =>
        StepsCarry(cs, todo[1..], prev');
        var st := Step(p, c, prev);
        var rest := Steps(cs, todo[1..], prev');
        var steps := [st] + rest;
        assert Steps(cs, todo, prev) == steps;
        forall i | 0 <= i < |steps| ensures steps[i].prev == LastContestantStep(steps[..i], prev) {
          if i > 0 {
            assert steps[..i] == [st] + rest[..i - 1];
            LastContestantStepCons(st, rest[..i - 1], prev);
          }
        }
    }
  }

  /** The lines of the report are the steps' lines, one for one. */
  lemma ReportRowsShape(s: Store, cfg: Config, rating: ApiResult<seq<RatingChange>>, status: ApiResult<seq<Submission>>)
    ensures var rows := Report(s, cfg, rating, status);
      var steps := ReportSteps(s, cfg);
      && |rows| == |steps|
      && forall i :: 0 <= i < |rows| ==>
           && rows[i].contestId == steps[i].p.contestId
           && rows[i].kind == steps[i].p.kind
           && rows[i].rank == steps[i].p.rank
           && rows[i].startTime == steps[i].c.startTime
  {
  }

  /** The lines of the report are the steps' lines, one for one, with the rank trend and the
      accepted/submitted indicators worked out from each step. */
  lemma ReportRows(s: Store, cfg: Config, rating: ApiResult<seq<RatingChange>>, status: ApiResult<seq<Submission>>)
    ensures var rows := Report(s, cfg, rating, status);
      var steps := ReportSteps(s, cfg);
      && |rows| == |steps|
      && forall i :: 0 <= i < |rows| ==>
           && rows[i].contestId == steps[i].p.contestId
           && rows[i].kind == steps[i].p.kind
           && rows[i].rank == steps[i].p.rank
           && rows[i].startTime == steps[i].c.startTime
           && rows[i].rankVerdict == RankAnalysis(steps[i].p.rank, steps[i].prev, cfg.goodRank, steps[i].p.kind)
           && rows[i].acSub == AcSub(ContestProblems(s.problems, steps[i].c.id), steps[i].p.results, s.problems)
  {
  }

  lemma {:induction false} LastContestantAgrees(rows: seq<ReportRow>, steps: seq<Step>, init: Option<int>)
    requires |rows| == |steps|
    requires forall k :: 0 <= k < |rows| ==> rows[k].kind == steps[k].p.kind && rows[k].rank == steps[k].p.rank
    ensures LastContestantRank(rows, init) == LastContestantStep(steps, init)
  {
    if rows != [] {
      LastContestantAgrees(rows[..|rows| - 1], steps[..|steps| - 1], init);
    }
  }

  /** Each line's rank trend compares against the latest CONTESTANT line above it; lines of
      other kinds carry no trend and leave the carried rank alone. */
  lemma ReportRankCarry(s: Store, cfg: Config, rating: ApiResult<seq<RatingChange>>, status: ApiResult<seq<Submission>>)
    ensures var rows := Report(s, cfg, rating, status);
      forall i :: 0 <= i < |rows| ==>
        rows[i].rankVerdict == RankAnalysis(rows[i].rank, LastContestantRank(rows[..i], None), cfg.goodRank, rows[i].kind)
  {
    var rows := Report(s, cfg, rating, status);
    var steps := ReportSteps(s, cfg);
    ReportRows(s, cfg, rating, status);
    StepsCarry(s.contests, Chronological(s, cfg.athlete), None);
    forall i | 0 <= i < |rows|
      ensures rows[i].rankVerdict == RankAnalysis(rows[i].rank, LastContestantRank(rows[..i], None), cfg.goodRank, rows[i].kind)
    {
      LastContestantAgrees(rows[..i], steps[..i], None);
    }
  }

  /** The line shows participation `p` of a stored contest. */
  ghost predicate RowFrom(row: ReportRow, p: Participation, s: Store) {
    && HasContest(s.contests, p.contestId)
    && row.contestId == p.contestId
    && row.kind == p.kind
    && row.rank == p.rank
    && row.startTime == StartOf(s.contests, p.contestId)
  }

  /** The line shows one of the athlete's stored participations. */
  ghost predicate ShowsStored(row: ReportRow, s: Store, athlete: Handle) {
    exists p :: p in s.participations && p.handle == athlete && RowFrom(row, p, s)
  }

  /** Some line shows participation `p`. */
  ghost predicate HasLine(rows: seq<ReportRow>, p: Participation, s: Store) {
    exists i :: 0 <= i < |rows| && RowFrom(rows[i], p, s)
  }

  /** Line `i` shows the `i`-th of the athlete's participations, latest contest first, that
      has its contest stored: one line per such participation. */
  lemma ReportLines(s: Store, cfg: Config, rating: ApiResult<seq<RatingChange>>, status: ApiResult<seq<Submission>>)
    ensures |Report(s, cfg, rating, status)| == |StoredOnly(s.contests, Chronological(s, cfg.athlete))|
    ensures forall i :: 0 <= i < |Report(s, cfg, rating, status)| ==>
      RowFrom(Report(s, cfg, rating, status)[i], StoredOnly(s.contests, Chronological(s, cfg.athlete))[i], s)
  {
    var todo := Chronological(s, cfg.athlete);
    var rows := Report(s, cfg, rating, status);
    var steps := ReportSteps(s, cfg);
    var shown := StoredOnly(s.contests, todo);
    ReportRowsShape(s, cfg, rating, status);
    StepsParticipants(s.contests, todo, None);
    StepsFrom(s.contests, todo, None);
    assert |Participants(steps)| == |steps|;
    forall i | 0 <= i < |rows| ensures RowFrom(rows[i], shown[i], s) {
      assert shown[i] == Participants(steps)[i] == steps[i].p;
      var j :| 0 <= j < |todo| && StepFrom(steps[i], todo[j], s.contests);
    }
  }

  /** Over a store without repeated participation ids, every stored participation of the
      athlete whose contest is stored is shown exactly once, and nothing else is shown. */
  lemma ReportOneLineEach(s: Store, cfg: Config, p: Participation)
    requires DistinctIds(s.participations)
    ensures multiset(StoredOnly(s.contests, Chronological(s, cfg.athlete)))[p]
      == if p in s.participations && p.handle == cfg.athlete && HasContest(s.contests, p.contestId) then 1 else 0
  {
    var ps := s.participations;
    StoredOnlyCount(s.contests, Chronological(s, cfg.athlete), p);
    assert Sorting.NoDuplicates(ps) by {
      forall i, j | 0 <= i < j < |ps| ensures ps[i] != ps[j] {
        assert ps[i].Id() != ps[j].Id();
      }
    }
    Sorting.NoDuplicatesCount(ps, p);
  }

  /** Every line shows one of the athlete's stored participations of a stored contest. */
  lemma ReportFromStore(s: Store, cfg: Config, rating: ApiResult<seq<RatingChange>>, status: ApiResult<seq<Submission>>)
    ensures var rows := Report(s, cfg, rating, status);
      forall i :: 0 <= i < |rows| ==> ShowsStored(rows[i], s, cfg.athlete)
  {
    var todo := Chronological(s, cfg.athlete);
    var rows := Report(s, cfg, rating, status);
    var steps := ReportSteps(s, cfg);
    ReportRowsShape(s, cfg, rating, status);
    StepsFrom(s.contests, todo, None);
    forall i | 0 <= i < |rows| ensures ShowsStored(rows[i], s, cfg.athlete) {
      var j :| 0 <= j < |todo| && StepFrom(steps[i], todo[j], s.contests);
      assert todo[j] in todo;
      assert RowFrom(rows[i], todo[j], s);
    }
  }

  /** Every stored participation of the athlete whose contest is stored has a line. */
  lemma ReportComplete(s: Store, cfg: Config, rating: ApiResult<seq<RatingChange>>, status: ApiResult<seq<Submission>>)
    ensures var rows := Report(s, cfg, rating, status);
      forall p :: p in s.participations && p.handle == cfg.athlete && HasContest(s.contests, p.contestId) ==>
        HasLine(rows, p, s)
  {
    var todo := Chronological(s, cfg.athlete);
    var steps := ReportSteps(s, cfg);
    StepsComplete(s.contests, todo, None);
    forall p | p in s.participations && p.handle == cfg.athlete && HasContest(s.contests, p.contestId)
      ensures HasLine(Report(s, cfg, rating, status), p, s)
    {
      assert p in todo;
      var j :| 0 <= j < |todo| && todo[j] == p;
      var i :| 0 <= i < |steps| && StepFrom(steps[i], todo[j], s.contests);
      StepHasLine(s, cfg, rating, status, i, p);
    }
  }

  /** The line of a step shows the participation the step was made from. */
  lemma StepHasLine(s: Store, cfg: Config, rating: ApiResult<seq<RatingChange>>, status: ApiResult<seq<Submission>>,
                    i: nat, p: Participation)
    requires i < |ReportSteps(s, cfg)| && StepFrom(ReportSteps(s, cfg)[i], p, s.contests)
    ensures HasLine(Report(s, cfg, rating, status), p, s)
  {
    var rows := Report(s, cfg, rating, status);
    ReportRowsShape(s, cfg, rating, status);
    assert RowFrom(rows[i], p, s);
  }

  /** Lines run from the latest contest start to the earliest. */
  lemma ReportChronological(s: Store, cfg: Config, rating: ApiResult<seq<RatingChange>>, status: ApiResult<seq<Submission>>)
    ensures var rows := Report(s, cfg, rating, status);
      forall i, j :: 0 <= i < j < |rows| ==> rows[i].startTime >= rows[j].startTime
  {
    ReportRows(s, cfg, rating, status);
    StepsOrdered(s.contests, Chronological(s, cfg.athlete), None);
  }

  /** Every line's grid is as wide as the widest stored contest. */
  lemma ReportGridWidth(s: Store, cfg: Config, rating: ApiResult<seq<RatingChange>>, status: ApiResult<seq<Submission>>)
    ensures var rows := Report(s, cfg, rating, status);
      forall i :: 0 <= i < |rows| ==> |rows[i].grid| == MaxProblems(s.contests, s.problems)
  {
    var rows := Report(s, cfg, rating, status);
    var steps := ReportSteps(s, cfg);
    StepsFrom(s.contests, Chronological(s, cfg.athlete), None);
    forall i | 0 <= i < |rows| ensures |rows[i].grid| == MaxProblems(s.contests, s.problems) {
      var j :| 0 <= j < |Chronological(s, cfg.athlete)| && StepFrom(steps[i], Chronological(s, cfg.athlete)[j], s.contests);
      assert steps[i].c in s.contests;
    }
  }

  /** A store kept by the batch sync yields no PRACTICE line and, as the sync never fills in a
      problem's acceptance counts, no difficulty-flavoured indicator. */
  lemma ReportOfSyncedStore(s: Store, cfg: Config, rating: ApiResult<seq<RatingChange>>, status: ApiResult<seq<Submission>>)
    requires Sync.WellFormed(s)
    ensures var rows := Report(s, cfg, rating, status);
      forall i :: 0 <= i < |rows| ==>
        && rows[i].kind != Practice
        && forall ind :: ind in rows[i].acSub ==> ind != SolvedHard && ind != RejectedEasy
  {
    var rows := Report(s, cfg, rating, status);
    var steps := ReportSteps(s, cfg);
    ReportRows(s, cfg, rating, status);
    ReportFromStore(s, cfg, rating, status);
    forall i | 0 <= i < |rows|
      ensures rows[i].kind != Practice
      ensures forall ind :: ind in rows[i].acSub ==> ind != SolvedHard && ind != RejectedEasy
    {
      assert ShowsStored(rows[i], s, cfg.athlete);
      var p :| p in s.participations && p.handle == cfg.athlete && RowFrom(rows[i], p, s);
      NoStatsNoFlags(ContestProblems(s.problems, steps[i].c.id), steps[i].p.results, s.problems);
    }
  }
}
