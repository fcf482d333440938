/** Pending-task discovery (`descobrirParticipacoesPendentes`): the athlete's rated history
    and virtual submissions are merged into one task per (contest, type), tasks whose
    participation is already stored are dropped, and the rest are ordered by contest id,
    newest first. */
module Discovery {
  import opened Wrappers
  import opened Model
  import Sorting

  /** Every rated-history entry is a CONTESTANT task. */
  function RatedTasks(history: seq<RatingChange>): seq<Task> {
    seq(|history|, i requires 0 <= i < |history| => Task(history[i].contestId, Contestant))
  }

  /** A submission that reveals a virtual participation: it names a contest and its author
      took part as VIRTUAL. */
  predicate IsVirtualSubmission(s: Submission) {
    Truthy(s.contestId) && s.participantType == Virtual
  }

  /** Every virtual submission is a VIRTUAL task for its contest (repeats included). */
  function VirtualTasks(subs: seq<Submission>): seq<Task> {
    if subs == [] then []
    else
      var last := subs[|subs| - 1];
      VirtualTasks(subs[..|subs| - 1])
        + (if IsVirtualSubmission(last) then [Task(last.contestId.value, Virtual)] else [])
  }

  /** The keys inserted into the merge map, in insertion order; a failed feed adds none. */
  function Candidates(rating: ApiResult<seq<RatingChange>>, status: ApiResult<seq<Submission>>): seq<Task> {
    RatedTasks(DataOrEmpty(rating)) + VirtualTasks(DataOrEmpty(status))
  }

  /** Reference definition of the tasks the two feeds reveal. */
  ghost predicate IsCandidate(t: Task, rating: ApiResult<seq<RatingChange>>, status: ApiResult<seq<Submission>>) {
    || (rating.Ok? && exists c :: c in rating.data && t == Task(c.contestId, Contestant))
    || (status.Ok? && exists s :: s in status.data && IsVirtualSubmission(s) && t == Task(s.contestId.value, Virtual))
  }

  /** The merge map's key order: a key keeps the position of its first insertion. */
  function Dedup(ts: seq<Task>): seq<Task> {
    if ts == [] then []
    else
      var rest := Dedup(ts[..|ts| - 1]);
      if ts[|ts| - 1] in rest then rest else rest + [ts[|ts| - 1]]
  }

  /** The participation id the athlete would have for a task. */
  function TaskId(t: Task, athlete: Handle): ParticipationId {
    ParticipationId(t.contestId, athlete, t.kind)
  }

  /** Drops the tasks whose participation id is already stored. */
  function Unstored(ts: seq<Task>, athlete: Handle, stored: set<ParticipationId>): seq<Task> {
    if ts == [] then []
    else
      var rest := Unstored(ts[..|ts| - 1], athlete, stored);
      if TaskId(ts[|ts| - 1], athlete) in stored then rest else rest + [ts[|ts| - 1]]
  }

  /** Descending numeric contest id, the comparator `b.contestId - a.contestId`. */
  predicate NewerOrSame(a: Task, b: Task) {
    a.contestId >= b.contestId
  }

  /** The pending task queue. */
  function Discover(athlete: Handle, rating: ApiResult<seq<RatingChange>>, status: ApiResult<seq<Submission>>,
                    stored: set<ParticipationId>): (r: seq<Task>)
    ensures Sorting.NoDuplicates(r)
    ensures forall t :: t in r <==> IsCandidate(t, rating, status) && TaskId(t, athlete) !in stored
    ensures forall i, j :: 0 <= i < j < |r| ==> r[i].contestId >= r[j].contestId
  {
    var merged := Dedup(Candidates(rating, status));
    var pending := Unstored(merged, athlete, stored);
    DedupSpec(Candidates(rating, status));
    UnstoredSpec(merged, athlete, stored);
    CandidatesSpec(rating, status);
    var r := Sorting.SortBy(pending, NewerOrSame);
    Sorting.SortByKeepsDistinct(pending, NewerOrSame);
    assert forall t :: t in r <==> t in pending by {
      forall t { Sorting.SortByKeepsElements(pending, NewerOrSame, t); }
    }
    r
  }

  lemma {:induction false} VirtualTasksSpec(subs: seq<Submission>, t: Task)
    ensures t in VirtualTasks(subs) <==> exists s :: s in subs && IsVirtualSubmission(s) && t == Task(s.contestId.value, Virtual)
  {
    if subs != [] {
      var init := subs[..|subs| - 1];
      VirtualTasksSpec(init, t);
      assert subs == init + [subs[|subs| - 1]];
      assert forall s :: s in subs <==> s in init || s == subs[|subs| - 1];
    }
  }

  lemma CandidatesSpec(rating: ApiResult<seq<RatingChange>>, status: ApiResult<seq<Submission>>)
    ensures forall t :: t in Candidates(rating, status) <==> IsCandidate(t, rating, status)
  {
    forall t
      ensures t in Candidates(rating, status) <==> IsCandidate(t, rating, status)
    {
      VirtualTasksSpec(DataOrEmpty(status), t);
      var rated := RatedTasks(DataOrEmpty(rating));
      if rating.Ok? {
        assert t in rated <==> exists c :: c in rating.data && t == Task(c.contestId, Contestant) by {
          if t in rated {
            var i :| 0 <= i < |rated| && rated[i] == t;
            assert rating.data[i] in rating.data;
          }
          if exists c :: c in rating.data && t == Task(c.contestId, Contestant) {
            var c :| c in rating.data && t == Task(c.contestId, Contestant);
            var i :| 0 <= i < |rating.data| && rating.data[i] == c;
            assert rated[i] == t;
          }
        }
      }
    }
  }

  lemma {:induction false} DedupSpec(ts: seq<Task>)
    ensures Sorting.NoDuplicates(Dedup(ts))
    ensures forall t :: t in Dedup(ts) <==> t in ts
  {
    if ts != [] {
      var init := ts[..|ts| - 1];
      DedupSpec(init);
      assert ts == init + [ts[|ts| - 1]];
    }
  }

  lemma {:induction false} UnstoredSpec(ts: seq<Task>, athlete: Handle, stored: set<ParticipationId>)
    requires Sorting.NoDuplicates(ts)
    ensures Sorting.NoDuplicates(Unstored(ts, athlete, stored))
    ensures forall t :: t in Unstored(ts, athlete, stored) <==> t in ts && TaskId(t, athlete) !in stored
  {
    if ts != [] {
      var init := ts[..|ts| - 1];
      UnstoredSpec(init, athlete, stored);
      assert ts == init + [ts[|ts| - 1]];
    }
  }
}
