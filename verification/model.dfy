/** Data model of the contest tracker: what the contest API returns, what the three store
    tables hold, and the run configuration. */
module Model {
  import opened Wrappers

  type Handle = string

  /** Participation modes as the contest API names them. */
  datatype ParticipantType = Contestant | Virtual | Practice | Manager | OutOfCompetition

  /** A pending unit of sync work: one participation of the athlete in one contest.
      The discoverer keys its map by `contestId_type`, which is this pair. */
  datatype Task = Task(contestId: nat, kind: ParticipantType)

  /** Key of a stored participation; the store writes it as `contestId_handle_type`. */
  datatype ParticipationId = ParticipationId(contestId: nat, handle: Handle, kind: ParticipantType)

  // ---------------------------------------------------------------------------------------
  // API payloads
  // ---------------------------------------------------------------------------------------

  /** One entry of the athlete's rated-contest history. */
  datatype RatingChange = RatingChange(contestId: nat, oldRating: int, newRating: int)

  /** One entry of a submission history.  `contestId` may be absent upstream; `verdict` is the
      empty string while the submission is not judged. */
  datatype Submission = Submission(
    contestId: Option<nat>,
    participantType: ParticipantType,
    verdict: string,
    problemIndex: string,
    creationTime: int)

  /** Per-problem result of one standings row; also the stored form (`{p, r, t}`). */
  datatype ProblemResult = ProblemResult(points: real, rejected: nat, bestTime: Option<nat>)

  datatype StandingsContest = StandingsContest(name: string, startTime: Option<int>, contestType: string)

  datatype StandingsProblem = StandingsProblem(index: string, rating: Option<nat>)

  datatype StandingsRow = StandingsRow(
    members: seq<Handle>,
    participantType: ParticipantType,
    rank: int,
    results: seq<ProblemResult>)

  /** Payload of `contest.standings`. */
  datatype Standings = Standings(contest: StandingsContest, problems: seq<StandingsProblem>, rows: seq<StandingsRow>)

  // ---------------------------------------------------------------------------------------
  // Store tables
  // ---------------------------------------------------------------------------------------

  datatype Contest = Contest(id: nat, name: string, startTime: int, contestType: string)

  /** A problem row; its key is the pair (contestId, index).  `accepted`/`tried` are the
      aggregate difficulty columns, absent when the cell is empty. */
  datatype Problem = Problem(contestId: nat, index: string, rating: Option<nat>, accepted: Option<int>, tried: Option<int>)

  datatype Participation = Participation(
    contestId: nat,
    handle: Handle,
    kind: ParticipantType,
    rank: int,
    solved: nat,
    results: seq<ProblemResult>)
  {
    function Id(): ParticipationId {
      ParticipationId(contestId, handle, kind)
    }
  }

  /** The three append-only tables. */
  datatype Store = Store(contests: seq<Contest>, problems: seq<Problem>, participations: seq<Participation>)

  /** The run configuration: athlete, the two benchmark cohorts, the good-rank threshold and
      the time margin in minutes. */
  datatype Config = Config(
    athlete: Handle,
    sameLevel: seq<Handle>,
    higherLevel: seq<Handle>,
    goodRank: int,
    marginMinutes: int)

  // ---------------------------------------------------------------------------------------
  // Store queries
  // ---------------------------------------------------------------------------------------

  /** The key column of the participations table, as a set. */
  function Ids(ps: seq<Participation>): set<ParticipationId> {
    set p | p in ps :: p.Id()
  }

  predicate DistinctIds(ps: seq<Participation>) {
    forall i, j :: 0 <= i < j < |ps| ==> ps[i].Id() != ps[j].Id()
  }

  predicate HasContest(cs: seq<Contest>, id: nat) {
    exists c :: c in cs && c.id == id
  }

  predicate DistinctContests(cs: seq<Contest>) {
    forall i, j :: 0 <= i < j < |cs| ==> cs[i].id != cs[j].id
  }

  /** The count written to the `problemsSolved` column: results with positive points. */
  function CountSolved(rs: seq<ProblemResult>): (n: nat)
    ensures n <= |rs|
    ensures n == 0 <==> forall i :: 0 <= i < |rs| ==> rs[i].points <= 0.0
    ensures n == |rs| <==> forall i :: 0 <= i < |rs| ==> rs[i].points > 0.0
  {
    if rs == [] then 0
    else CountSolved(rs[..|rs| - 1]) + (if rs[|rs| - 1].points > 0.0 then 1 else 0)
  }

  /** Independent definition: the number of slots whose points are positive. */
  function SolvedSlots(rs: seq<ProblemResult>): set<nat> {
    set i: nat | i < |rs| && rs[i].points > 0.0
  }

  lemma {:induction false} CountSolvedIsSolvedSlots(rs: seq<ProblemResult>)
    ensures CountSolved(rs) == |SolvedSlots(rs)|
  {
    if rs != [] {
      var n := |rs| - 1;
      CountSolvedIsSolvedSlots(rs[..n]);
      var prev := SolvedSlots(rs[..n]);
      if rs[n].points > 0.0 {
        assert SolvedSlots(rs) == prev + {n};
      } else {
        assert SolvedSlots(rs) == prev;
      }
    }
  }
}
