/** `match_tasks`: for every pending task, score every worker, keep the
    workers who are free over the task's window, rank them by score and
    propose the top three. It only reads the database. */
module Matcher {
  import opened Wrappers
  import opened Seqs
  import opened Store
  import opened SkillsCodec
  import opened Ranking

  const SkillWeight: real := 30.0
  const DepartmentWeight: real := 30.0
  const AvailabilityWeight: real := 40.0
  /** How many candidates a task's proposal keeps. */
  const TopCandidates: nat := 3

  lemma SubsetCardinality<T>(a: set<T>, b: set<T>)
    requires a <= b
    ensures |a| <= |b|
    ensures |a| == |b| ==> a == b
  {
    assert b == a + (b - a);
    assert a * (b - a) == {};
    if |a| == |b| {
      assert |b - a| == 0;
      assert b - a == {};
    }
  }

  /** Skill points: 30 times the fraction of the required skills the worker
      has, and nothing when no skill is required. */
  function SkillPoints(required: set<string>, has: set<string>): (p: real)
    ensures 0.0 <= p <= SkillWeight
    ensures p == 0.0 <==> required * has == {}
    ensures p == SkillWeight <==> required != {} && required <= has
  {
    if |required| == 0 then 0.0
    else
      var common := required * has;
      SubsetCardinality(common, required);
      assert |common| == 0 <==> common == {};
      assert common == required <==> required <= has;
      var a, n := |common| as real, |required| as real;
      Fraction(a, n);
      (a / n) * SkillWeight
  }

  /** A share `a` of a positive whole `n` lies between 0 and 1, and is 0 or 1
      exactly when the share is none or all of it. */
  lemma Fraction(a: real, n: real)
    requires 0.0 <= a <= n && n > 0.0
    ensures 0.0 <= a / n <= 1.0
    ensures a / n == 0.0 <==> a == 0.0
    ensures a / n == 1.0 <==> a == n
  {
    var f := a / n;
    assert f * n == a;
    if f == 1.0 {
      assert a == n;
    }
    if a == n {
      assert f == 1.0;
    }
  }

  /** A required skill the worker gains adds exactly 30/|required| points:
      the score grows linearly in the number of required skills held. */
  lemma SkillPointsGainRequired(required: set<string>, has: set<string>, s: string)
    requires s in required && s !in has
    ensures SkillPoints(required, has + {s}) == SkillPoints(required, has) + SkillWeight / (|required| as real)
  {
    var common := required * has;
    assert required * (has + {s}) == common + {s};
    assert s !in common;
    assert |common + {s}| == |common| + 1;
    var a, n := |common| as real, |required| as real;
    assert n > 0.0;
    assert ((a + 1.0) / n) * SkillWeight == (a / n) * SkillWeight + SkillWeight / n;
  }

  /** A skill that is not required changes nothing. */
  lemma SkillPointsIgnoreOther(required: set<string>, has: set<string>, s: string)
    requires s !in required
    ensures SkillPoints(required, has + {s}) == SkillPoints(required, has)
  {
    assert required * (has + {s}) == required * has;
  }

  /** More skills never lower the skill points. */
  lemma SkillPointsMonotonic(required: set<string>, has: set<string>, more: set<string>)
    requires has <= more
    ensures SkillPoints(required, has) <= SkillPoints(required, more)
  {
    if |required| > 0 {
      SubsetCardinality(required * has, required * more);
      var n := |required| as real;
      var a, b := |required * has| as real, |required * more| as real;
      assert a / n <= b / n by {
        assert a <= b && n > 0.0;
      }
    }
  }

  /** Department points: 30 when the task names a department and the worker
      belongs to it, nothing otherwise (also when the task names none). */
  function DepartmentPoints(required: string, department: string): (p: real)
    ensures p == DepartmentWeight <==> required != "" && department == required
    ensures p != DepartmentWeight ==> p == 0.0
  {
    if required != "" && department == required then DepartmentWeight else 0.0
  }

  /** A period covers a task when the whole task window lies inside it. */
  predicate Covers(p: Period, t: Task)
  {
    p.startDate <= t.startDate && t.endDate <= p.endDate
  }

  predicate InWindow(day: Day, start: Day, end: Day)
  {
    start <= day <= end
  }

  /** The server's booking test, `not (task.end < a.start or task.start > a.end)`:
      for windows that are not back to front, the two closed windows share at
      least one day, so windows that only touch at an end date still conflict.
      Sharing a day always counts as a conflict. */
  predicate Conflicts(a: Assignment, t: Task)
    ensures (exists day :: InWindow(day, a.startDate, a.endDate) && InWindow(day, t.startDate, t.endDate)) ==> Conflicts(a, t)
    ensures a.startDate <= a.endDate && t.startDate <= t.endDate && Conflicts(a, t) ==>
      exists day :: InWindow(day, a.startDate, a.endDate) && InWindow(day, t.startDate, t.endDate)
  {
    var r := !(t.endDate < a.startDate || t.startDate > a.endDate);
    var day := if a.startDate < t.startDate then t.startDate else a.startDate;
    assert r && a.startDate <= a.endDate && t.startDate <= t.endDate ==>
      InWindow(day, a.startDate, a.endDate) && InWindow(day, t.startDate, t.endDate);
    r
  }

  /** The four reads `match_tasks` starts with: pending tasks, all workers,
      all availability periods, and the assignments whose status is `assigned`. */
  datatype Snapshot = Snapshot(pending: seq<Row<Task>>, workers: seq<Row<Worker>>,
                               periods: seq<Row<Period>>, booked: seq<Row<Assignment>>)

  function TakeSnapshot(db: Db): (s: Snapshot)
    ensures forall row :: row in s.pending <==> row in db.tasks.rows && row.data.status == Pending
    ensures IsSubsequence(s.pending, db.tasks.rows)
    ensures s.workers == db.workers.rows && s.periods == db.periods.rows
    ensures forall row :: row in s.booked <==> row in db.assignments.rows && row.data.status == Assigned
  {
    FilterSpec(db.tasks.rows, (r: Row<Task>) => r.data.status == Pending);
    Snapshot(Filter(db.tasks.rows, (r: Row<Task>) => r.data.status == Pending),
             db.workers.rows, db.periods.rows,
             Filter(db.assignments.rows, (r: Row<Assignment>) => r.data.status == Assigned))
  }

  /** The independent statement of when a worker earns the availability
      points for a task: some period of theirs covers the task window, and
      none of their `assigned` assignments conflicts with it. */
  predicate Bookable(s: Snapshot, workerId: nat, t: Task)
  {
    && (exists i :: 0 <= i < |s.periods| && s.periods[i].data.workerId == workerId && Covers(s.periods[i].data, t))
    && (forall i :: 0 <= i < |s.booked| && s.booked[i].data.workerId == workerId ==> !Conflicts(s.booked[i].data, t))
  }

  /** The first of the worker's periods that covers the task, as the server's
      loop finds it before it breaks. */
  function FirstCovering(periods: seq<Row<Period>>, workerId: nat, t: Task): (r: Option<Row<Period>>)
    ensures r.None? <==> forall i :: 0 <= i < |periods| ==> !(periods[i].data.workerId == workerId && Covers(periods[i].data, t))
    ensures r.Some? ==> r.value in periods && r.value.data.workerId == workerId && Covers(r.value.data, t)
  {
    if |periods| == 0 then None
    else if periods[0].data.workerId == workerId && Covers(periods[0].data, t) then Some(periods[0])
    else
      assert forall i :: 1 <= i < |periods| ==> periods[i] == periods[1..][i - 1];
      FirstCovering(periods[1..], workerId, t)
  }

  /** The inner loop over existing assignments, which stops at the first
      conflicting one of this worker. */
  function Free(booked: seq<Row<Assignment>>, workerId: nat, t: Task): (r: bool)
    ensures r <==> forall i :: 0 <= i < |booked| && booked[i].data.workerId == workerId ==> !Conflicts(booked[i].data, t)
  {
    if |booked| == 0 then true
    else if booked[0].data.workerId == workerId && Conflicts(booked[0].data, t) then false
    else
      assert forall i :: 1 <= i < |booked| ==> booked[i] == booked[1..][i - 1];
      Free(booked[1..], workerId, t)
  }

  /** `has_availability` as the server computes it. */
  function HasAvailability(s: Snapshot, workerId: nat, t: Task): (r: bool)
    ensures r == Bookable(s, workerId, t)
  {
    match FirstCovering(s.periods, workerId, t)
    case None => false
    case Some(_) => Free(s.booked, workerId, t)
  }

  /** A worker's score for a task: skill points plus department points plus
      40 availability points when `available`. */
  function Score(t: Task, w: Worker, available: bool): (r: real)
    ensures available ==> AvailabilityWeight <= r <= 100.0
    ensures !available ==> 0.0 <= r <= SkillWeight + DepartmentWeight
  {
    SkillPoints(AsSet(Decode(t.requiredSkills)), AsSet(Decode(w.skills)))
      + DepartmentPoints(t.requiredDepartment, w.department)
      + (if available then AvailabilityWeight else 0.0)
  }

  /** One entry of a task's candidate list; `workerSkills` is the stored
      comma-joined column, passed through undecoded. */
  datatype Candidate = Candidate(taskId: nat, taskTitle: string, workerId: nat, workerName: string,
                                 workerDepartment: string, workerSkills: string, score: real,
                                 hasAvailability: bool)

  function ScoreOf(c: Candidate): real
  {
    c.score
  }

  /** The candidate entry for a worker who earned the availability points. */
  function MakeCandidate(task: Row<Task>, w: Row<Worker>): (c: Candidate)
    ensures c.taskId == task.id && c.taskTitle == task.data.title && c.workerId == w.id && c.hasAvailability
    ensures c.workerName == w.data.name && c.workerDepartment == w.data.department && c.workerSkills == w.data.skills
    ensures AvailabilityWeight <= c.score <= 100.0
  {
    Candidate(task.id, task.data.title, w.id, w.data.name, w.data.department, w.data.skills,
              Score(task.data, w.data, true), true)
  }

  /** The entry one worker contributes to a task's candidate list. */
  function CandidateOf(s: Snapshot, task: Row<Task>): (Row<Worker> -> Option<Candidate>)
  {
    (w: Row<Worker>) => if HasAvailability(s, w.id, task.data) then Some(MakeCandidate(task, w)) else None
  }

  /** The loop over workers for one task: the workers who earn the
      availability points, as candidates, in worker order. */
  function CandidatesFor(s: Snapshot, task: Row<Task>, workers: seq<Row<Worker>>): (r: seq<Candidate>)
    ensures |r| <= |workers|
  {
    FilterMap(workers, CandidateOf(s, task))
  }

  /** Every candidate comes from a worker who earns the availability points. */
  lemma CandidateSource(s: Snapshot, task: Row<Task>, workers: seq<Row<Worker>>, k: nat) returns (j: nat)
    requires k < |CandidatesFor(s, task, workers)|
    ensures j < |workers| && CandidatesFor(s, task, workers)[k] == MakeCandidate(task, workers[j])
    ensures Bookable(s, workers[j].id, task.data)
  {
    j := FilterMapSource(workers, CandidateOf(s, task), k);
  }

  /** Every worker who earns the availability points is a candidate. */
  lemma CandidateComplete(s: Snapshot, task: Row<Task>, workers: seq<Row<Worker>>, j: nat)
    requires j < |workers| && Bookable(s, workers[j].id, task.data)
    ensures MakeCandidate(task, workers[j]) in CandidatesFor(s, task, workers)
  {
    var k := FilterMapFound(workers, CandidateOf(s, task), j);
  }

  /** The candidate list follows the workers' order: a worker list split in
      two gives the first part's candidates, then the second part's, and one
      worker contributes its candidate exactly when it earns the availability
      points. */
  lemma CandidatesInWorkerOrder(s: Snapshot, task: Row<Task>, a: seq<Row<Worker>>, b: seq<Row<Worker>>)
    ensures CandidatesFor(s, task, a + b) == CandidatesFor(s, task, a) + CandidatesFor(s, task, b)
  {
    FilterMapAppend(a, b, CandidateOf(s, task));
  }

  /** One worker's contribution to the candidate list. */
  lemma CandidatesOfOne(s: Snapshot, task: Row<Task>, w: Row<Worker>)
    ensures CandidatesFor(s, task, [w]) == if HasAvailability(s, w.id, task.data) then [MakeCandidate(task, w)] else []
  {
  }

  /** The proposal for one task: its candidates sorted by score, highest
      first with ties in worker order, cut to the first three. */
  function Proposal(s: Snapshot, task: Row<Task>): (r: seq<Candidate>)
    ensures |r| <= TopCandidates
    ensures |r| == |CandidatesFor(s, task, s.workers)| || |r| == TopCandidates
  {
    var ranked := Sort(CandidatesFor(s, task, s.workers), ScoreOf);
    ranked[..if |ranked| < TopCandidates then |ranked| else TopCandidates]
  }

  datatype Match = Match(task: Row<Task>, candidates: seq<Candidate>)

  /** The response of `POST /api/match-tasks`. */
  datatype MatchReport = MatchReport(matches: seq<Match>, count: nat)

  /** The entry one pending task contributes to the response: its
      proposal, unless that is empty. */
  function MatchOf(s: Snapshot): (Row<Task> -> Option<Match>)
  {
    (t: Row<Task>) => if Proposal(s, t) != [] then Some(Match(t, Proposal(s, t))) else None
  }

  /** The loop over pending tasks: a task with at least one candidate gets
      its proposal, a task with none is left out. */
  function MatchesFor(s: Snapshot, tasks: seq<Row<Task>>): (r: seq<Match>)
    ensures |r| <= |tasks|
  {
    FilterMap(tasks, MatchOf(s))
  }

  /** Each match is a task of the input paired with its non-empty proposal. */
  lemma MatchSource(s: Snapshot, tasks: seq<Row<Task>>, i: nat)
    requires i < |MatchesFor(s, tasks)|
    ensures MatchesFor(s, tasks)[i].task in tasks
    ensures MatchesFor(s, tasks)[i].candidates == Proposal(s, MatchesFor(s, tasks)[i].task) != []
  {
    var j := FilterMapSource(tasks, MatchOf(s), i);
  }

  /** A task of the input appears among the matches exactly when its
      proposal is non-empty. */
  lemma MatchComplete(s: Snapshot, tasks: seq<Row<Task>>, t: Row<Task>)
    requires t in tasks
    ensures (exists i :: 0 <= i < |MatchesFor(s, tasks)| && MatchesFor(s, tasks)[i].task == t) <==> Proposal(s, t) != []
  {
    var r := MatchesFor(s, tasks);
    if exists i :: 0 <= i < |r| && r[i].task == t {
      var i :| 0 <= i < |r| && r[i].task == t;
      MatchSource(s, tasks, i);
    }
    if Proposal(s, t) != [] {
      var j :| 0 <= j < |tasks| && tasks[j] == t;
      var i := FilterMapFound(tasks, MatchOf(s), j);
    }
  }

  /** `match_tasks`. */
  function MatchTasks(db: Db): (r: MatchReport)
    ensures r.count == |r.matches|
  {
    var s := TakeSnapshot(db);
    var matches := MatchesFor(s, s.pending);
    MatchReport(matches, |matches|)
  }
}
