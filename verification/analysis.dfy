/** The per-participation analytics: rating title, rank verdict, AC/SUB indicators, cohort
    percentile, solve pace, upsolving count and the problem grid.  Every ratio, mean and
    rounding of the original is stated here with exact integer arithmetic, and lemmas relate
    each integer form to the real-number formula it replaces. */
module Analysis {
  import opened Wrappers
  import opened Model

  // ---------------------------------------------------------------------------------------
  // Exact arithmetic behind the ratios
  // ---------------------------------------------------------------------------------------

  /** `a < b / n` over the reals is `a * n < b` over the integers. */
  lemma LessThanQuotient(a: int, b: int, n: int)
    requires n > 0
    ensures (a as real) < (b as real) / (n as real) <==> a * n < b
  {
    var q := (b as real) / (n as real);
    assert q * (n as real) == b as real;
    assert (a as real) * (n as real) == (a * n) as real;
    if (a as real) < q {
      assert (a as real) * (n as real) < q * (n as real);
    }
    if a * n < b {
      assert (a as real) * (n as real) < q * (n as real);
    }
  }

  /** `a > b / n` over the reals is `a * n > b` over the integers. */
  lemma GreaterThanQuotient(a: int, b: int, n: int)
    requires n > 0
    ensures (a as real) > (b as real) / (n as real) <==> a * n > b
  {
    var q := (b as real) / (n as real);
    assert q * (n as real) == b as real;
    assert (a as real) * (n as real) == (a * n) as real;
    if (a as real) > q {
      assert (a as real) * (n as real) > q * (n as real);
    }
    if a * n > b {
      assert (a as real) * (n as real) > q * (n as real);
    }
  }

  /** The floor of an exact quotient is Euclidean division (for a positive divisor). */
  lemma FloorOfQuotient(a: int, b: int)
    requires b > 0
    ensures ((a as real) / (b as real)).Floor == a / b
  {
    var q := a / b;
    var x := (a as real) / (b as real);
    assert q * b <= a < (q + 1) * b;
    LessThanQuotient(q + 1, a, b);
    assert (q as real) <= x by {
      GreaterThanQuotient(q, a, b);
      if q * b < a {
      } else {
        assert q * b == a;
        assert x == q as real;
      }
    }
    assert x < (q + 1) as real;
  }

  // ---------------------------------------------------------------------------------------
  // Rating titles (getRankFromRating)
  // ---------------------------------------------------------------------------------------

  datatype Title =
    | Newbie | Pupil | Specialist | Expert | CandidateMaster | Master
    | InternationalMaster | Grandmaster | InternationalGrandmaster | LegendaryGrandmaster
  {
    /** The lowest rating that carries this title; Newbie has no lower bound. */
    function Floor(): Option<int> {
      match this
      case Newbie => None
      case Pupil => Some(1200)
      case Specialist => Some(1400)
      case Expert => Some(1600)
      case CandidateMaster => Some(1900)
      case Master => Some(2100)
      case InternationalMaster => Some(2300)
      case Grandmaster => Some(2400)
      case InternationalGrandmaster => Some(2600)
      case LegendaryGrandmaster => Some(3000)
    }

    /** The lowest rating of the next title up; the top title has none. */
    function Ceiling(): Option<int> {
      match this
      case Newbie => Some(1200)
      case Pupil => Some(1400)
      case Specialist => Some(1600)
      case Expert => Some(1900)
      case CandidateMaster => Some(2100)
      case Master => Some(2300)
      case InternationalMaster => Some(2400)
      case Grandmaster => Some(2600)
      case InternationalGrandmaster => Some(3000)
      case LegendaryGrandmaster => None
    }

    predicate InBand(rating: int) {
      (Floor().None? || Floor().value <= rating) && (Ceiling().None? || rating < Ceiling().value)
    }
  }

  /** The threshold ladder, checked from the top down. */
  function TitleOf(rating: int): (t: Title)
    ensures t.InBand(rating)
  {
    if rating >= 3000 then LegendaryGrandmaster
    else if rating >= 2600 then InternationalGrandmaster
    else if rating >= 2400 then Grandmaster
    else if rating >= 2300 then InternationalMaster
    else if rating >= 2100 then Master
    else if rating >= 1900 then CandidateMaster
    else if rating >= 1600 then Expert
    else if rating >= 1400 then Specialist
    else if rating >= 1200 then Pupil
    else Newbie
  }

  /** The bands do not overlap: a rating's band determines its title. */
  lemma TitleBandIsUnique(t: Title, rating: int)
    ensures t.InBand(rating) <==> TitleOf(rating) == t
  {
  }

  // ---------------------------------------------------------------------------------------
  // Rank verdict (calcularAnaliseRank)
  // ---------------------------------------------------------------------------------------

  datatype Trend = NoTrend | Improved | Worsened | Unchanged

  /** Whether the rank met the good-rank threshold, and its trend against the previous
      rated rank. */
  datatype RankVerdict = RankVerdict(onTarget: bool, trend: Trend)

  /** A previous rank counts only when present and non-zero. */
  predicate HasPrevious(prev: Option<int>) {
    prev.Some? && prev.value != 0
  }

  /** No verdict (the empty cell) unless the row is CONTESTANT with a non-zero rank. */
  function RankAnalysis(rank: int, prev: Option<int>, goodRank: int, kind: ParticipantType): (r: Option<RankVerdict>)
    ensures r.None? <==> kind != Contestant || rank == 0
    ensures r.Some? ==> (r.value.onTarget <==> rank <= goodRank)
    ensures r.Some? ==> (r.value.trend == NoTrend <==> !HasPrevious(prev))
    ensures r.Some? ==> (r.value.trend == Improved <==> HasPrevious(prev) && rank < prev.value)
    ensures r.Some? ==> (r.value.trend == Worsened <==> HasPrevious(prev) && rank > prev.value)
    ensures r.Some? ==> (r.value.trend == Unchanged <==> HasPrevious(prev) && rank == prev.value)
  {
    if kind != Contestant || rank == 0 then None
    else
      var trend :=
        if !HasPrevious(prev) then NoTrend
        else if rank < prev.value then Improved
        else if rank > prev.value then Worsened
        else Unchanged;
      Some(RankVerdict(rank <= goodRank, trend))
  }

  // ---------------------------------------------------------------------------------------
  // AC/SUB indicators (calcularAnaliseAcSub)
  // ---------------------------------------------------------------------------------------

  datatype Difficulty = Hard | Medium | Easy

  /** Difficulty from the stored aggregate columns; Medium unless both are numbers and
      `tried` is positive. */
  function DifficultyOf(accepted: Option<int>, tried: Option<int>): (d: Difficulty)
    ensures d == Hard <==>
      accepted.Some? && tried.Some? && tried.value > 0 && (accepted.value as real) / (tried.value as real) < 0.25
    ensures d == Easy <==>
      accepted.Some? && tried.Some? && tried.value > 0 && (accepted.value as real) / (tried.value as real) > 0.75
  {
    if accepted.Some? && tried.Some? && tried.value > 0 then
      var a, t := accepted.value, tried.value;
      RatioThresholds(a, t);
      if 4 * a < t then Hard
      else if 4 * a > 3 * t then Easy
      else Medium
    else Medium
  }

  lemma RatioThresholds(a: int, t: int)
    requires t > 0
    ensures (a as real) / (t as real) < 0.25 <==> 4 * a < t
    ensures (a as real) / (t as real) > 0.75 <==> 4 * a > 3 * t
  {
    QuotientVersus(a, t, 0.25);
    QuotientVersus(a, t, 0.75);
  }

  lemma QuotientVersus(a: int, t: int, c: real)
    requires t > 0
    ensures (a as real) / (t as real) < c <==> (a as real) < c * (t as real)
    ensures (a as real) / (t as real) > c <==> (a as real) > c * (t as real)
  {
    var x := (a as real) / (t as real);
    assert x * (t as real) == a as real;
    if x < c {
      assert x * (t as real) < c * (t as real);
    } else {
      assert x * (t as real) >= c * (t as real);
    }
    if x > c {
      assert x * (t as real) > c * (t as real);
    } else {
      assert x * (t as real) <= c * (t as real);
    }
  }

  /** The problem-stats map is keyed by `contestId_index`; the last row with a key wins. */
  function StatsOf(problems: seq<Problem>, contestId: nat, index: string): Option<Problem> {
    if problems == [] then None
    else
      var last := problems[|problems| - 1];
      if last.contestId == contestId && last.index == index then Some(last)
      else StatsOf(problems[..|problems| - 1], contestId, index)
  }

  function SlotDifficulty(allProblems: seq<Problem>, p: Problem): Difficulty {
    match StatsOf(allProblems, p.contestId, p.index)
    case None => Medium
    case Some(stats) => DifficultyOf(stats.accepted, stats.tried)
  }

  datatype Indicator = NotAttempted | SolvedHard | Solved | RejectedEasy | Rejected | Untouched {
    predicate IsSolved() { this == SolvedHard || this == Solved }
    predicate IsRejected() { this == RejectedEasy || this == Rejected }
  }

  function SlotIndicator(results: seq<ProblemResult>, i: nat, d: Difficulty): Indicator {
    if i >= |results| then NotAttempted
    else if results[i].points > 0.0 then (if d == Hard then SolvedHard else Solved)
    else if results[i].rejected > 0 then (if d == Easy then RejectedEasy else Rejected)
    else Untouched
  }

  /** One indicator per problem of the contest, in the contest's problem order; slot `i` reads
      the athlete's `i`-th result. */
  function AcSub(contestProblems: seq<Problem>, results: seq<ProblemResult>, allProblems: seq<Problem>): (r: seq<Indicator>)
    ensures |r| == |contestProblems|
    ensures forall i :: 0 <= i < |r| ==> (r[i] == NotAttempted <==> i >= |results|)
    ensures forall i :: 0 <= i < |r| ==> (r[i].IsSolved() <==> i < |results| && results[i].points > 0.0)
    ensures forall i :: 0 <= i < |r| ==>
      (r[i].IsRejected() <==> i < |results| && results[i].points <= 0.0 && results[i].rejected > 0)
    ensures forall i :: 0 <= i < |r| ==>
      (r[i] == Untouched <==> i < |results| && results[i].points <= 0.0 && results[i].rejected == 0)
    ensures forall i :: 0 <= i < |r| ==>
      (r[i] == SolvedHard <==> r[i].IsSolved() && SlotDifficulty(allProblems, contestProblems[i]) == Hard)
    ensures forall i :: 0 <= i < |r| ==>
      (r[i] == RejectedEasy <==> r[i].IsRejected() && SlotDifficulty(allProblems, contestProblems[i]) == Easy)
  {
    seq(|contestProblems|, i requires 0 <= i < |contestProblems| =>
      SlotIndicator(results, i, SlotDifficulty(allProblems, contestProblems[i])))
  }

  /** Problem rows without stats classify as Medium, so no slot is flagged hard or easy. */
  lemma NoStatsNoFlags(contestProblems: seq<Problem>, results: seq<ProblemResult>, allProblems: seq<Problem>)
    requires forall q :: q in allProblems ==> q.accepted.None? && q.tried.None?
    ensures forall ind :: ind in AcSub(contestProblems, results, allProblems) ==> ind != SolvedHard && ind != RejectedEasy
  {
    forall i | 0 <= i < |contestProblems|
      ensures SlotDifficulty(allProblems, contestProblems[i]) == Medium
    {
      StatsOfIsRow(allProblems, contestProblems[i].contestId, contestProblems[i].index);
    }
  }

  lemma {:induction false} StatsOfIsRow(problems: seq<Problem>, contestId: nat, index: string)
    ensures StatsOf(problems, contestId, index).Some? ==> StatsOf(problems, contestId, index).value in problems
  {
    if problems != [] {
      StatsOfIsRow(problems[..|problems| - 1], contestId, index);
    }
  }

  // ---------------------------------------------------------------------------------------
  // Cohort percentile (calcularAnaliseComparativa)
  // ---------------------------------------------------------------------------------------

  datatype Metric = ByRank | BySolved

  datatype Standing = StandingNA | BetterThan(percent: int)

  /** Benchmark participations of the same contest and type, other than the athlete's own. */
  function Cohort(athlete: Participation, all: seq<Participation>, benchmarks: seq<Handle>): seq<Participation> {
    if all == [] then []
    else
      var rest := Cohort(athlete, all[..|all| - 1], benchmarks);
      var p := all[|all| - 1];
      if p.handle in benchmarks && p.handle != athlete.handle && p.kind == athlete.kind then rest + [p] else rest
  }

  /** Strict wins only: a lower rank, or more problems solved. */
  predicate Beats(a: Participation, b: Participation, m: Metric) {
    match m
    case ByRank => a.rank < b.rank
    case BySolved => a.solved > b.solved
  }

  function CountBeaten(athlete: Participation, cohort: seq<Participation>, m: Metric): (k: nat)
    ensures k <= |cohort|
    ensures k == |cohort| <==> forall b :: b in cohort ==> Beats(athlete, b, m)
    ensures k == 0 <==> forall b :: b in cohort ==> !Beats(athlete, b, m)
  {
    if cohort == [] then 0
    else
      var init := cohort[..|cohort| - 1];
      var last := cohort[|cohort| - 1];
      assert cohort == init + [last];
      CountBeaten(athlete, init, m) + (if Beats(athlete, last, m) then 1 else 0)
  }

  /** Independent definition: the cohort positions the athlete strictly beats. */
  function BeatenSlots(athlete: Participation, cohort: seq<Participation>, m: Metric): set<nat> {
    set i: nat | i < |cohort| && Beats(athlete, cohort[i], m)
  }

  lemma {:induction false} CountBeatenIsBeatenSlots(athlete: Participation, cohort: seq<Participation>, m: Metric)
    ensures CountBeaten(athlete, cohort, m) == |BeatenSlots(athlete, cohort, m)|
  {
    if cohort != [] {
      var n := |cohort| - 1;
      CountBeatenIsBeatenSlots(athlete, cohort[..n], m);
      BeatenSlotsStep(athlete, cohort, m);
      AddFresh(BeatenSlots(athlete, cohort[..n], m), n);
    }
  }

  lemma BeatenSlotsStep(athlete: Participation, cohort: seq<Participation>, m: Metric)
    requires cohort != []
    ensures var n := |cohort| - 1;
      BeatenSlots(athlete, cohort, m)
        == BeatenSlots(athlete, cohort[..n], m) + (if Beats(athlete, cohort[n], m) then {n} else {})
  {
    var n := |cohort| - 1;
    var init := cohort[..n];
    var b1 := BeatenSlots(athlete, init, m) + (if Beats(athlete, cohort[n], m) then {n} else {});
    forall i: nat ensures i in BeatenSlots(athlete, cohort, m) <==> i in b1 {
      if i < n {
        assert init[i] == cohort[i];
      }
    }
  }

  /** `Math.round(100 * k / n)`: the nearest integer, halves rounded up. */
  function RoundPercent(k: nat, n: nat): (p: int)
    requires 0 < n && k <= n
    ensures 0 <= p <= 100
    ensures p == ((k as real) / (n as real) * 100.0 + 0.5).Floor
  {
    RoundPercentIsRound(k, n);
    RoundPercentAtMost100(k, n);
    (200 * k + n) / (2 * n)
  }

  lemma RoundPercentAtMost100(k: nat, n: nat)
    requires 0 < n && k <= n
    ensures 0 <= (200 * k + n) / (2 * n) <= 100
  {
    assert 200 * k + n < 101 * (2 * n);
    DivBelow(200 * k + n, 2 * n, 101);
  }

  /** A non-negative quotient by `d` stays below `c` when the dividend stays below `c * d`. */
  lemma DivBelow(a: nat, d: int, c: int)
    requires 0 < d && a < c * d
    ensures 0 <= a / d < c
  {
    var q := a / d;
    assert q * d + a % d == a;
    if q >= c {
      MulLeMonotone(c, q, d);
    }
  }

  lemma MulLeMonotone(x: int, y: int, d: nat)
    requires x <= y
    ensures x * d <= y * d
  {
  }

  lemma RoundPercentIsRound(k: nat, n: nat)
    requires 0 < n
    ensures (200 * k + n) / (2 * n) == ((k as real) / (n as real) * 100.0 + 0.5).Floor
  {
    var x := (k as real) / (n as real);
    assert x * (n as real) == k as real;
    assert (x * 100.0 + 0.5) * ((2 * n) as real) == (200 * k + n) as real;
    QuotientOfProduct(x * 100.0 + 0.5, 200 * k + n, 2 * n);
    FloorOfQuotient(200 * k + n, 2 * n);
  }

  lemma QuotientOfProduct(y: real, a: int, d: int)
    requires d > 0 && y * (d as real) == a as real
    ensures y == (a as real) / (d as real)
  {
  }

  function Comparative(athlete: Participation, all: seq<Participation>, benchmarks: seq<Handle>, m: Metric): (r: Standing)
    ensures r == StandingNA <==> |Cohort(athlete, all, benchmarks)| == 0 || (m == ByRank && athlete.kind != Contestant)
    ensures r.BetterThan? ==> 0 <= r.percent <= 100
    ensures r.BetterThan? ==>
      var n := |Cohort(athlete, all, benchmarks)|;
      var k := CountBeaten(athlete, Cohort(athlete, all, benchmarks), m);
      r.percent == ((k as real) / (n as real) * 100.0 + 0.5).Floor
  {
    var cohort := Cohort(athlete, all, benchmarks);
    if |cohort| == 0 then StandingNA
    else if athlete.kind != Contestant && m == ByRank then StandingNA
    else BetterThan(RoundPercent(CountBeaten(athlete, cohort, m), |cohort|))
  }

  lemma {:induction false} CohortSpec(athlete: Participation, all: seq<Participation>, benchmarks: seq<Handle>, p: Participation)
    ensures p in Cohort(athlete, all, benchmarks) <==>
      p in all && p.handle in benchmarks && p.handle != athlete.handle && p.kind == athlete.kind
  {
    if all != [] {
      var init := all[..|all| - 1];
      CohortSpec(athlete, init, benchmarks, p);
      assert all == init + [all[|all| - 1]];
    }
  }

  /** Ties never count: a cohort that all matched the athlete's value scores 0%. */
  lemma TiesScoreZero(athlete: Participation, all: seq<Participation>, benchmarks: seq<Handle>, m: Metric)
    requires forall p :: p in all ==> p.rank == athlete.rank && p.solved == athlete.solved
    ensures Comparative(athlete, all, benchmarks, m).BetterThan? ==> Comparative(athlete, all, benchmarks, m).percent == 0
  {
    var cohort := Cohort(athlete, all, benchmarks);
    forall b | b in cohort ensures !Beats(athlete, b, m) {
      CohortSpec(athlete, all, benchmarks, b);
    }
    if |cohort| > 0 {
      assert CountBeaten(athlete, cohort, m) == 0;
      assert (200 * 0 + |cohort|) / (2 * |cohort|) == 0;
    }
  }

  /** Benchmark ranks 10, 20 and 30 against an athlete ranked 15: better than 67%. */
  lemma PercentileExample()
    ensures var athlete := Participation(1, "athlete", Contestant, 15, 0, []);
      var all := [athlete,
                  Participation(1, "b1", Contestant, 10, 0, []),
                  Participation(1, "b2", Contestant, 20, 0, []),
                  Participation(1, "b3", Contestant, 30, 0, [])];
      Comparative(athlete, all, ["b1", "b2", "b3"], ByRank) == BetterThan(67)
  {
    var athlete := Participation(1, "athlete", Contestant, 15, 0, []);
    var b1 := Participation(1, "b1", Contestant, 10, 0, []);
    var b2 := Participation(1, "b2", Contestant, 20, 0, []);
    var b3 := Participation(1, "b3", Contestant, 30, 0, []);
    var all := [athlete, b1, b2, b3];
    var benchmarks := ["b1", "b2", "b3"];
    assert all[..3] == [athlete, b1, b2] && all[..3][..2] == [athlete, b1] && all[..3][..2][..1] == [athlete];
    assert "athlete" !in benchmarks;
    assert Cohort(athlete, [athlete], benchmarks) == [];
    assert Cohort(athlete, [athlete, b1], benchmarks) == [b1];
    assert Cohort(athlete, [athlete, b1, b2], benchmarks) == [b1, b2];
    assert Cohort(athlete, all, benchmarks) == [b1, b2, b3];
    var cohort := [b1, b2, b3];
    assert cohort[..2] == [b1, b2] && cohort[..2][..1] == [b1];
    assert CountBeaten(athlete, cohort, ByRank) == 2;
    assert (200 * 2 + 3) / (2 * 3) == 67;
  }

  // ---------------------------------------------------------------------------------------
  // Solve pace (calcularAnaliseTempo)
  // ---------------------------------------------------------------------------------------

  datatype Pace = PaceNA | Slower | Faster | Even

  function Sum(xs: seq<nat>): nat {
    if xs == [] then 0 else Sum(xs[..|xs| - 1]) + xs[|xs| - 1]
  }

  function Mean(xs: seq<nat>): real
    requires |xs| > 0
  {
    (Sum(xs) as real) / (|xs| as real)
  }

  /** Benchmark participations of the same type; unlike the percentile cohort, the athlete's
      own handle is not excluded. */
  function PaceCohort(athlete: Participation, all: seq<Participation>, benchmarks: seq<Handle>): seq<Participation> {
    if all == [] then []
    else
      var rest := PaceCohort(athlete, all[..|all| - 1], benchmarks);
      var p := all[|all| - 1];
      if p.handle in benchmarks && p.kind == athlete.kind then rest + [p] else rest
  }

  /** The recorded (present and non-zero) solve times of slot `i` across the cohort. */
  function TimesAt(cohort: seq<Participation>, i: nat): seq<nat> {
    if cohort == [] then []
    else
      var rest := TimesAt(cohort[..|cohort| - 1], i);
      var rs := cohort[|cohort| - 1].results;
      if i < |rs| && Truthy(rs[i].bestTime) then rest + [rs[i].bestTime.value] else rest
  }

  /** One compared slot: faster when under the cohort mean, slower when over the mean plus
      the margin, both decided by cross-multiplication. */
  function SlotPace(t: nat, times: seq<nat>, marginSeconds: int): (r: (bool, bool))
    requires |times| > 0
    ensures r.0 <==> (t as real) < Mean(times)
    ensures r.1 <==> (t as real) > Mean(times) + (marginSeconds as real)
    ensures marginSeconds >= 0 ==> !(r.0 && r.1)
  {
    var n := |times|;
    LessThanQuotient(t, Sum(times), n);
    GreaterThanQuotient(t, Sum(times) + marginSeconds * n, n);
    assert ((Sum(times) + marginSeconds * n) as real) / (n as real) == Mean(times) + (marginSeconds as real);
    (t * n < Sum(times), t * n > Sum(times) + marginSeconds * n)
  }

  datatype Tally = Tally(compared: nat, faster: nat, slower: nat)

  /** Counts over the athlete's results: only solved slots with a recorded time that some
      benchmark also recorded are compared. */
  function TallyOf(results: seq<ProblemResult>, cohort: seq<Participation>, marginSeconds: int): (r: Tally)
    ensures r.compared <= |results|
    ensures r.faster <= r.compared && r.slower <= r.compared
    ensures marginSeconds >= 0 ==> r.faster + r.slower <= r.compared
  {
    if results == [] then Tally(0, 0, 0)
    else
      var i := |results| - 1;
      var prev := TallyOf(results[..i], cohort, marginSeconds);
      var res := results[i];
      var times := TimesAt(cohort, i);
      if res.points > 0.0 && Truthy(res.bestTime) && |times| > 0 then
        var (faster, slower) := SlotPace(res.bestTime.value, times, marginSeconds);
        Tally(prev.compared + 1, prev.faster + (if faster then 1 else 0), prev.slower + (if slower then 1 else 0))
      else prev
  }

  /** The verdict from a tally; the slower majority is checked first. */
  function PaceVerdict(t: Tally): Pace {
    if t.compared == 0 then PaceNA
    else if 2 * t.slower > t.compared then Slower
    else if 2 * t.faster > t.compared then Faster
    else Even
  }

  function PaceAnalysis(athlete: Participation, all: seq<Participation>, benchmarks: seq<Handle>, marginMinutes: int): (r: Pace)
    ensures |PaceCohort(athlete, all, benchmarks)| == 0 ==> r == PaceNA
    ensures r != PaceNA ==> exists i :: 0 <= i < |athlete.results| && athlete.results[i].points > 0.0
  {
    var cohort := PaceCohort(athlete, all, benchmarks);
    if |cohort| == 0 then PaceNA
    else
      var t := TallyOf(athlete.results, cohort, marginMinutes * 60);
      TallyNeedsSolved(athlete.results, cohort, marginMinutes * 60);
      PaceVerdict(t)
  }

  lemma {:induction false} TallyNeedsSolved(results: seq<ProblemResult>, cohort: seq<Participation>, marginSeconds: int)
    ensures TallyOf(results, cohort, marginSeconds).compared > 0 ==>
      exists i :: 0 <= i < |results| && results[i].points > 0.0
  {
    if results != [] {
      var i := |results| - 1;
      TallyNeedsSolved(results[..i], cohort, marginSeconds);
      if TallyOf(results[..i], cohort, marginSeconds).compared > 0 {
        var j :| 0 <= j < |results[..i]| && results[..i][j].points > 0.0;
        assert results[j] == results[..i][j];
      }
    }
  }

  /** With a non-negative margin at most one majority exists, so checking slower first never
      hides a faster majority. */
  lemma PaceVerdictUnambiguous(results: seq<ProblemResult>, cohort: seq<Participation>, marginSeconds: int)
    requires marginSeconds >= 0
    ensures var t := TallyOf(results, cohort, marginSeconds);
      !(2 * t.slower > t.compared && 2 * t.faster > t.compared)
  {
  }

  lemma {:induction false} PaceCohortSpec(athlete: Participation, all: seq<Participation>, benchmarks: seq<Handle>, p: Participation)
    ensures p in PaceCohort(athlete, all, benchmarks) <==> p in all && p.handle in benchmarks && p.kind == athlete.kind
  {
    if all != [] {
      var init := all[..|all| - 1];
      PaceCohortSpec(athlete, init, benchmarks, p);
      assert all == init + [all[|all| - 1]];
    }
  }

  /** Slot `i` is compared: the athlete solved it with a recorded time and at least one
      cohort member recorded a time for it. */
  predicate Compared(results: seq<ProblemResult>, cohort: seq<Participation>, i: nat) {
    i < |results| && results[i].points > 0.0 && Truthy(results[i].bestTime) && |TimesAt(cohort, i)| > 0
  }

  /** Reference definitions of the tally, slot by slot, with real-valued means. */
  ghost function ComparedSlots(results: seq<ProblemResult>, cohort: seq<Participation>): set<nat> {
    set i: nat | i < |results| && Compared(results, cohort, i)
  }

  ghost function FasterSlots(results: seq<ProblemResult>, cohort: seq<Participation>): set<nat> {
    set i: nat | i < |results| && Compared(results, cohort, i)
      && (results[i].bestTime.value as real) < Mean(TimesAt(cohort, i))
  }

  ghost function SlowerSlots(results: seq<ProblemResult>, cohort: seq<Participation>, marginSeconds: int): set<nat> {
    set i: nat | i < |results| && Compared(results, cohort, i)
      && (results[i].bestTime.value as real) > Mean(TimesAt(cohort, i)) + (marginSeconds as real)
  }

  lemma AddFresh(a: set<nat>, n: nat)
    requires forall i :: i in a ==> i < n
    ensures |a + {n}| == |a| + 1
  {
    assert n !in a;
  }

  /** The tally's first count is the number of compared slots. */
  lemma {:induction false} TallyCountsCompared(results: seq<ProblemResult>, cohort: seq<Participation>, marginSeconds: int)
    ensures TallyOf(results, cohort, marginSeconds).compared == |ComparedSlots(results, cohort)|
  {
    if results == [] {
      assert ComparedSlots(results, cohort) == {};
    } else {
      var n := |results| - 1;
      var init := results[..n];
      TallyCountsCompared(init, cohort, marginSeconds);
      ComparedSlotsStep(results, cohort);
      AddFresh(ComparedSlots(init, cohort), n);
    }
  }

  lemma ComparedSlotsStep(results: seq<ProblemResult>, cohort: seq<Participation>)
    requires results != []
    ensures var n := |results| - 1;
      ComparedSlots(results, cohort)
        == ComparedSlots(results[..n], cohort) + (if Compared(results, cohort, n) then {n} else {})
  {
    var n := |results| - 1;
    var init := results[..n];
    var c1 := ComparedSlots(init, cohort) + (if Compared(results, cohort, n) then {n} else {});
    forall i: nat ensures i in ComparedSlots(results, cohort) <==> i in c1 {
      if i < n {
        assert init[i] == results[i];
        assert Compared(results, cohort, i) == Compared(init, cohort, i);
      }
    }
  }

  /** The tally's second count is the number of slots faster than the cohort mean. */
  lemma {:induction false} TallyCountsFaster(results: seq<ProblemResult>, cohort: seq<Participation>, marginSeconds: int)
    ensures TallyOf(results, cohort, marginSeconds).faster == |FasterSlots(results, cohort)|
  {
    if results == [] {
      assert FasterSlots(results, cohort) == {};
    } else {
      var n := |results| - 1;
      TallyCountsFaster(results[..n], cohort, marginSeconds);
      FasterSlotsStep(results, cohort);
      AddFresh(FasterSlots(results[..n], cohort), n);
    }
  }

  lemma FasterSlotsStep(results: seq<ProblemResult>, cohort: seq<Participation>)
    requires results != []
    ensures var n := |results| - 1;
      FasterSlots(results, cohort)
        == FasterSlots(results[..n], cohort)
           + (if Compared(results, cohort, n) && (results[n].bestTime.value as real) < Mean(TimesAt(cohort, n)) then {n} else {})
  {
    var n := |results| - 1;
    var init := results[..n];
    var f1 := FasterSlots(init, cohort)
      + (if Compared(results, cohort, n) && (results[n].bestTime.value as real) < Mean(TimesAt(cohort, n)) then {n} else {});
    forall i: nat ensures i in FasterSlots(results, cohort) <==> i in f1 {
      if i < n {
        assert init[i] == results[i];
        assert Compared(results, cohort, i) == Compared(init, cohort, i);
      }
    }
  }

  /** The tally's third count is the number of slots slower than the cohort mean plus the
      margin. */
  lemma {:induction false} TallyCountsSlower(results: seq<ProblemResult>, cohort: seq<Participation>, marginSeconds: int)
    ensures TallyOf(results, cohort, marginSeconds).slower == |SlowerSlots(results, cohort, marginSeconds)|
  {
    if results == [] {
      assert SlowerSlots(results, cohort, marginSeconds) == {};
    } else {
      var n := |results| - 1;
      TallyCountsSlower(results[..n], cohort, marginSeconds);
      SlowerSlotsStep(results, cohort, marginSeconds);
      AddFresh(SlowerSlots(results[..n], cohort, marginSeconds), n);
    }
  }

  lemma SlowerSlotsStep(results: seq<ProblemResult>, cohort: seq<Participation>, marginSeconds: int)
    requires results != []
    ensures var n := |results| - 1;
      SlowerSlots(results, cohort, marginSeconds)
        == SlowerSlots(results[..n], cohort, marginSeconds)
           + (if Compared(results, cohort, n)
                 && (results[n].bestTime.value as real) > Mean(TimesAt(cohort, n)) + (marginSeconds as real)
              then {n} else {})
  {
    var n := |results| - 1;
    var init := results[..n];
    var s1 := SlowerSlots(init, cohort, marginSeconds)
      + (if Compared(results, cohort, n)
            && (results[n].bestTime.value as real) > Mean(TimesAt(cohort, n)) + (marginSeconds as real)
         then {n} else {});
    forall i: nat ensures i in SlowerSlots(results, cohort, marginSeconds) <==> i in s1 {
      if i < n {
        assert init[i] == results[i];
        assert Compared(results, cohort, i) == Compared(init, cohort, i);
      }
    }
  }

  /** The verdict in terms of the reference sets: N/A without a cohort or a compared slot,
      otherwise a strict majority of slower slots, then of faster slots, then even. */
  lemma PaceAnalysisSpec(athlete: Participation, all: seq<Participation>, benchmarks: seq<Handle>, marginMinutes: int)
    ensures var r := PaceAnalysis(athlete, all, benchmarks, marginMinutes);
      var cohort := PaceCohort(athlete, all, benchmarks);
      var c := |ComparedSlots(athlete.results, cohort)|;
      var f := |FasterSlots(athlete.results, cohort)|;
      var s := |SlowerSlots(athlete.results, cohort, marginMinutes * 60)|;
      && (r == PaceNA <==> |cohort| == 0 || c == 0)
      && (r == Slower <==> |cohort| > 0 && c > 0 && 2 * s > c)
      && (r == Faster <==> |cohort| > 0 && c > 0 && 2 * s <= c && 2 * f > c)
      && (r == Even <==> |cohort| > 0 && c > 0 && 2 * s <= c && 2 * f <= c)
  {
    var cohort := PaceCohort(athlete, all, benchmarks);
    TallyCountsCompared(athlete.results, cohort, marginMinutes * 60);
    TallyCountsFaster(athlete.results, cohort, marginMinutes * 60);
    TallyCountsSlower(athlete.results, cohort, marginMinutes * 60);
  }

  /** A ten-minute margin: 600 s against a 1500 s mean is faster; against a 100 s mean it is
      neither faster nor slower, since slower needs more than the mean plus 600 s; 1300 s
      against a 600 s mean is slower. */
  lemma PaceExample()
    ensures SlotPace(600, [1500], 10 * 60) == (true, false)
    ensures SlotPace(600, [100], 10 * 60) == (false, false)
    ensures SlotPace(1300, [600], 10 * 60) == (false, true)
    ensures SlotPace(600, [1000, 2000], 10 * 60) == (true, false)
  {
    assert Sum([1500]) == 1500 && Sum([100]) == 100 && Sum([600]) == 600;
    assert [1000, 2000][..1] == [1000];
    assert Sum([1000, 2000]) == 3000;
  }

  // ---------------------------------------------------------------------------------------
  // Upsolving (calcularUpsolving)
  // ---------------------------------------------------------------------------------------

  /** The approximate end of a contest: two hours for type "CF", five otherwise. */
  function ContestEnd(c: Contest): (e: int)
    ensures e - c.startTime == 7200 || e - c.startTime == 18000
    ensures e - c.startTime == 7200 <==> c.contestType == "CF"
  {
    c.startTime + (if c.contestType == "CF" then 7200 else 18000)
  }

  /** An accepted submission to the contest, made strictly after it ended. */
  predicate IsUpsolve(s: Submission, contestId: nat, end: int) {
    s.verdict == "OK" && s.contestId == Some(contestId) && s.creationTime > end
  }

  /** The problem indices the source's loop adds to its set, submission by submission. */
  function UpsolvedIndices(subs: seq<Submission>, contestId: nat, end: int): set<string> {
    if subs == [] then {}
    else
      var s := subs[|subs| - 1];
      UpsolvedIndices(subs[..|subs| - 1], contestId, end) + (if IsUpsolve(s, contestId, end) then {s.problemIndex} else {})
  }

  /** Distinct upsolved indices; 0 when the submission fetch failed. */
  function Upsolving(status: ApiResult<seq<Submission>>, contestId: nat, end: int): (n: nat)
    ensures status.Failed? ==> n == 0
    ensures status.Ok? ==> n == |set s | s in status.data && IsUpsolve(s, contestId, end) :: s.problemIndex|
    ensures status.Ok? ==> n <= |status.data|
  {
    match status
    case Failed(_) => 0
    case Ok(subs) =>
      UpsolvedIndicesSpec(subs, contestId, end);
      |UpsolvedIndices(subs, contestId, end)|
  }

  lemma {:induction false} UpsolvedIndicesSpec(subs: seq<Submission>, contestId: nat, end: int)
    ensures UpsolvedIndices(subs, contestId, end) == set s | s in subs && IsUpsolve(s, contestId, end) :: s.problemIndex
    ensures |UpsolvedIndices(subs, contestId, end)| <= |subs|
  {
    if subs != [] {
      var init := subs[..|subs| - 1];
      var s := subs[|subs| - 1];
      UpsolvedIndicesSpec(init, contestId, end);
      assert subs == init + [s];
      var lhs := UpsolvedIndices(subs, contestId, end);
      var prev := UpsolvedIndices(init, contestId, end);
      assert lhs <= prev + {s.problemIndex};
      assert |prev + {s.problemIndex}| <= |prev| + 1;
      assert |lhs| <= |prev + {s.problemIndex}| by {
        SubsetCardinality(lhs, prev + {s.problemIndex});
      }
    }
  }

  lemma SubsetCardinality<T>(a: set<T>, b: set<T>)
    requires a <= b
    ensures |a| <= |b|
  {
    assert b == a + (b - a);
  }

  /** Another accepted submission to an index already upsolved does not change the count. */
  lemma UpsolvingIgnoresRepeats(subs: seq<Submission>, s: Submission, contestId: nat, end: int)
    requires exists s' :: s' in subs && IsUpsolve(s', contestId, end) && s'.problemIndex == s.problemIndex
    ensures Upsolving(Ok(subs + [s]), contestId, end) == Upsolving(Ok(subs), contestId, end)
  {
    assert (subs + [s])[..|subs|] == subs;
    UpsolvedIndicesSpec(subs, contestId, end);
    var s' :| s' in subs && IsUpsolve(s', contestId, end) && s'.problemIndex == s.problemIndex;
    assert s.problemIndex in UpsolvedIndices(subs, contestId, end);
    assert UpsolvedIndices(subs + [s], contestId, end) == UpsolvedIndices(subs, contestId, end);
  }

  /** A type "CF" contest ends two hours after its start: an accepted submission one second
      later counts once, however often it is repeated. */
  lemma UpsolvingExample(start: int)
    ensures var c := Contest(7, "Round", start, "CF");
      var s := Submission(Some(7), Practice, "OK", "A", start + 7201);
      Upsolving(Ok([s, s]), 7, ContestEnd(c)) == 1
  {
    var s := Submission(Some(7), Practice, "OK", "A", start + 7201);
    assert [s, s][..1] == [s] && [s][..0] == [];
    assert IsUpsolve(s, 7, start + 7200);
    assert UpsolvedIndices([s], 7, start + 7200) == {"A"};
    assert UpsolvedIndices([s, s], 7, start + 7200) == {"A"};
  }

  /** The source's loop as written: reading the contest id of an accepted submission that has
      none throws, which `None` stands for. */
  function UpsolvedIndicesAsWritten(subs: seq<Submission>, contestId: nat, end: int): (r: Option<set<string>>)
    ensures r.None? <==> exists s :: s in subs && s.verdict == "OK" && s.contestId.None?
    ensures r.Some? ==> r.value == UpsolvedIndices(subs, contestId, end)
  {
    if subs == [] then Some({})
    else
      var init := subs[..|subs| - 1];
      var s := subs[|subs| - 1];
      assert subs == init + [s];
      match UpsolvedIndicesAsWritten(init, contestId, end)
      case None => None
      case Some(acc) =>
        if s.verdict == "OK" && s.contestId.None? then None
        else Some(acc + (if IsUpsolve(s, contestId, end) then {s.problemIndex} else {}))
  }

  /** An accepted submission without a contest id (allowed by the API) makes the as-written
      upsolving count throw instead of skipping it. */
  lemma UpsolvingAsWrittenThrows()
    ensures UpsolvedIndicesAsWritten([Submission(None, Practice, "OK", "A", 0)], 7, 0).None?
  {
    var s := Submission(None, Practice, "OK", "A", 0);
    assert s in [s];
  }

  // ---------------------------------------------------------------------------------------
  // Problem grid (getProblemGridData)
  // ---------------------------------------------------------------------------------------

  /** Minutes and seconds of a solve time, shown as `mm:ss`. */
  datatype Clock = Clock(minutes: nat, seconds: nat)

  function ClockOf(t: nat): (c: Clock)
    ensures c.seconds < 60
    ensures c.minutes * 60 + c.seconds == t
  {
    Clock(t / 60, t % 60)
  }

  /** A grid cell: its text is the problem's rating (empty when none), with the solve clock
      for a solved problem (`NaN:NaN` upstream when the time is missing); the background is
      green, red or grey for solved, tried and untried cells. */
  datatype Cell = Blank | SolvedCell(rating: Option<nat>, clock: Option<Clock>) | TriedCell(rating: Option<nat>) | UntriedCell(rating: Option<nat>)

  /** The label `p[3] || ''`: the rating, or nothing when it is missing or 0. */
  function RatingLabel(p: Problem): (r: Option<nat>)
    ensures r.Some? <==> p.rating.Some? && p.rating.value != 0
    ensures r.Some? ==> r == p.rating
  {
    if Truthy(p.rating) then p.rating else None
  }

  function GridCell(p: Problem, results: seq<ProblemResult>, i: nat): Cell {
    if i < |results| && results[i].points > 0.0 then
      SolvedCell(RatingLabel(p), if results[i].bestTime.Some? then Some(ClockOf(results[i].bestTime.value)) else None)
    else if i < |results| && results[i].rejected > 0 then TriedCell(RatingLabel(p))
    else UntriedCell(RatingLabel(p))
  }

  /** The grid starts as `maxProblems` blank cells; each of the contest's problems fills its
      slot, extending the row when there are more problems than blank cells. */
  function Grid(contestProblems: seq<Problem>, results: seq<ProblemResult>, maxProblems: nat): (g: seq<Cell>)
    ensures |g| == Max(maxProblems, |contestProblems|)
    ensures forall i :: 0 <= i < |g| ==> (g[i] == Blank <==> i >= |contestProblems|)
    ensures forall i :: 0 <= i < |g| ==> (g[i].SolvedCell? <==> i < |contestProblems| && i < |results| && results[i].points > 0.0)
    ensures forall i :: 0 <= i < |g| ==>
      (g[i].TriedCell? <==> i < |contestProblems| && i < |results| && results[i].points <= 0.0 && results[i].rejected > 0)
    ensures forall i :: 0 <= i < |contestProblems| ==> g[i].rating == RatingLabel(contestProblems[i])
    ensures forall i :: 0 <= i < |g| && g[i].SolvedCell? ==> (g[i].clock.Some? <==> results[i].bestTime.Some?)
    ensures forall i :: 0 <= i < |g| && g[i].SolvedCell? && g[i].clock.Some? ==>
      && g[i].clock.value.seconds < 60
      && g[i].clock.value.minutes * 60 + g[i].clock.value.seconds == results[i].bestTime.value
  {
    seq(Max(maxProblems, |contestProblems|), i requires 0 <= i =>
      if i < |contestProblems| then GridCell(contestProblems[i], results, i) else Blank)
  }

  /** The grid and the AC/SUB indicators classify every slot of the contest alike. */
  lemma GridAgreesWithAcSub(contestProblems: seq<Problem>, results: seq<ProblemResult>, allProblems: seq<Problem>, maxProblems: nat, i: nat)
    requires i < |contestProblems|
    ensures var g := Grid(contestProblems, results, maxProblems);
      var a := AcSub(contestProblems, results, allProblems);
      && (g[i].SolvedCell? <==> a[i].IsSolved())
      && (g[i].TriedCell? <==> a[i].IsRejected())
      && (g[i].UntriedCell? <==> a[i] == NotAttempted || a[i] == Untouched)
  {
  }

  /** When every problem has a result slot, the solved cells are exactly the stored count. */
  lemma {:induction false} GridSolvedCount(contestProblems: seq<Problem>, results: seq<ProblemResult>, maxProblems: nat)
    requires |results| == |contestProblems|
    ensures var g := Grid(contestProblems, results, maxProblems);
      |set i: nat | i < |g| && g[i].SolvedCell?| == CountSolved(results)
  {
    var g := Grid(contestProblems, results, maxProblems);
    CountSolvedIsSolvedSlots(results);
    assert (set i: nat | i < |g| && g[i].SolvedCell?) == SolvedSlots(results);
  }
}
