/** What a `match_tasks` response promises about the database it was computed
    from, stated directly over the tables. */
module MatchProperties {
  import opened Store
  import opened SkillsCodec
  import opened Ranking
  import opened Matcher

  /** A worker can be proposed for a task: a period of theirs covers the task
      window, and no `assigned` assignment of theirs conflicts with it. */
  predicate Eligible(db: Db, workerId: nat, t: Task)
  {
    && (exists p :: p in db.periods.rows && p.data.workerId == workerId && Covers(p.data, t))
    && (forall a :: a in db.assignments.rows && a.data.status == Assigned && a.data.workerId == workerId ==> !Conflicts(a.data, t))
  }

  lemma BookableIsEligible(db: Db, workerId: nat, t: Task)
    ensures Bookable(TakeSnapshot(db), workerId, t) <==> Eligible(db, workerId, t)
  {
    var s := TakeSnapshot(db);
    if Eligible(db, workerId, t) {
      var p :| p in db.periods.rows && p.data.workerId == workerId && Covers(p.data, t);
      var i :| 0 <= i < |s.periods| && s.periods[i] == p;
      forall i | 0 <= i < |s.booked| && s.booked[i].data.workerId == workerId ensures !Conflicts(s.booked[i].data, t) {
        assert s.booked[i] in s.booked;
      }
    }
    if Bookable(s, workerId, t) {
      var i :| 0 <= i < |s.periods| && s.periods[i].data.workerId == workerId && Covers(s.periods[i].data, t);
      assert s.periods[i] in db.periods.rows;
      forall a | a in db.assignments.rows && a.data.status == Assigned && a.data.workerId == workerId
        ensures !Conflicts(a.data, t) {
        assert a in s.booked;
        var k :| 0 <= k < |s.booked| && s.booked[k] == a;
      }
    }
  }

  /** The full candidate list of a task, before ranking. */
  function AllCandidates(db: Db, task: Row<Task>): seq<Candidate>
  {
    CandidatesFor(TakeSnapshot(db), task, db.workers.rows)
  }

  /** Only pending tasks of the database are matched, and the count is the
      number of matches. */
  lemma MatchesArePending(db: Db, i: nat)
    requires i < |MatchTasks(db).matches|
    ensures MatchTasks(db).matches[i].task in db.tasks.rows
    ensures MatchTasks(db).matches[i].task.data.status == Pending
    ensures MatchTasks(db).count == |MatchTasks(db).matches|
  {
    var s := TakeSnapshot(db);
    MatchSource(s, s.pending, i);
  }

  /** A pending task appears in the response exactly when some worker is
      eligible for it. */
  lemma MatchedIffSomeoneEligible(db: Db, row: Row<Task>)
    requires row in db.tasks.rows && row.data.status == Pending
    ensures (exists i :: 0 <= i < |MatchTasks(db).matches| && MatchTasks(db).matches[i].task == row)
        <==> exists j :: 0 <= j < |db.workers.rows| && Eligible(db, db.workers.rows[j].id, row.data)
  {
    var s := TakeSnapshot(db);
    assert row in s.pending;
    assert MatchTasks(db).matches == MatchesFor(s, s.pending);
    MatchComplete(s, s.pending, row);
    ProposalNonEmpty(db, row);
  }

  lemma ProposalNonEmpty(db: Db, row: Row<Task>)
    ensures Proposal(TakeSnapshot(db), row) != []
        <==> exists j :: 0 <= j < |db.workers.rows| && Eligible(db, db.workers.rows[j].id, row.data)
  {
    var s := TakeSnapshot(db);
    var all := CandidatesFor(s, row, s.workers);
    assert Proposal(s, row) == [] <==> all == [] by {
      assert |Proposal(s, row)| == |all| || |Proposal(s, row)| == TopCandidates;
    }
    if all != [] {
      var j := CandidateSource(s, row, s.workers, 0);
      BookableIsEligible(db, s.workers[j].id, row.data);
    }
    if exists j :: 0 <= j < |db.workers.rows| && Eligible(db, db.workers.rows[j].id, row.data) {
      var j :| 0 <= j < |db.workers.rows| && Eligible(db, db.workers.rows[j].id, row.data);
      BookableIsEligible(db, s.workers[j].id, row.data);
      CandidateComplete(s, row, s.workers, j);
    }
  }

  lemma ProposalFromAll(db: Db, task: Row<Task>, c: Candidate)
    requires c in Proposal(TakeSnapshot(db), task)
    ensures c in AllCandidates(db, task)
  {
    var all := AllCandidates(db, task);
    var ranked := Sort(all, ScoreOf);
    assert c in ranked;
    assert c in multiset(ranked);
  }

  /** Each proposed candidate is an eligible worker of the database, carries
      that worker's details, and scores skill points plus department points
      plus the 40 availability points, so between 40 and 100. */
  lemma CandidateGuarantees(db: Db, i: nat, k: nat)
    requires i < |MatchTasks(db).matches| && k < |MatchTasks(db).matches[i].candidates|
    ensures var m := MatchTasks(db).matches[i]; var c := m.candidates[k];
      && c.taskId == m.task.id && c.hasAvailability
      && (exists w :: w in db.workers.rows && w.id == c.workerId
            && c.workerName == w.data.name && c.workerDepartment == w.data.department && c.workerSkills == w.data.skills
            && c.score == SkillPoints(AsSet(Decode(m.task.data.requiredSkills)), AsSet(Decode(w.data.skills)))
                          + DepartmentPoints(m.task.data.requiredDepartment, w.data.department)
                          + AvailabilityWeight)
      && (exists p :: p in db.periods.rows && p.data.workerId == c.workerId && Covers(p.data, m.task.data))
      && (forall a :: a in db.assignments.rows && a.data.status == Assigned && a.data.workerId == c.workerId
            ==> !Conflicts(a.data, m.task.data))
      && AvailabilityWeight <= c.score <= 100.0
  {
    var s := TakeSnapshot(db);
    var m := MatchTasks(db).matches[i];
    MatchSource(s, s.pending, i);
    var c := m.candidates[k];
    ProposalFromAll(db, m.task, c);
    var all := AllCandidates(db, m.task);
    var k' :| 0 <= k' < |all| && all[k'] == c;
    var j := CandidateSource(s, m.task, s.workers, k');
    var w := s.workers[j];
    assert w in db.workers.rows;
    BookableIsEligible(db, w.id, m.task.data);
  }

  /** Each proposal holds one to three candidates, highest score first, as
      many as three allows; an eligible worker left out scores no more than
      the last one kept; and candidates with equal scores keep the order of
      the workers table (Python's sort is stable). */
  lemma ProposalRanked(db: Db, i: nat)
    requires i < |MatchTasks(db).matches|
    ensures var m := MatchTasks(db).matches[i]; var all := AllCandidates(db, m.task);
      && 1 <= |m.candidates| <= TopCandidates
      && SortedDesc(m.candidates, ScoreOf)
      && (|m.candidates| == TopCandidates || |m.candidates| == |all|)
      && (forall j :: 0 <= j < |db.workers.rows| && Eligible(db, db.workers.rows[j].id, m.task.data) ==>
            MakeCandidate(m.task, db.workers.rows[j]) in m.candidates
            || MakeCandidate(m.task, db.workers.rows[j]).score <= m.candidates[|m.candidates| - 1].score)
      && (forall v :: WithKey(m.candidates, ScoreOf, v) <= WithKey(all, ScoreOf, v))
  {
    var s := TakeSnapshot(db);
    var m := MatchTasks(db).matches[i];
    MatchSource(s, s.pending, i);
    var all := AllCandidates(db, m.task);
    var ranked := Sort(all, ScoreOf);
    var n := |m.candidates|;
    assert m.candidates == ranked[..n];
    SortIsStable(all, ScoreOf);
    assert SortedDesc(m.candidates, ScoreOf) by {
      forall a, b | 0 <= a < b < n ensures ScoreOf(m.candidates[a]) >= ScoreOf(m.candidates[b]) {
        assert m.candidates[a] == ranked[a] && m.candidates[b] == ranked[b];
      }
    }
    forall j | 0 <= j < |db.workers.rows| && Eligible(db, db.workers.rows[j].id, m.task.data)
      ensures MakeCandidate(m.task, db.workers.rows[j]) in m.candidates
            || MakeCandidate(m.task, db.workers.rows[j]).score <= m.candidates[n - 1].score {
      BookableIsEligible(db, db.workers.rows[j].id, m.task.data);
      CandidateComplete(s, m.task, s.workers, j);
      TopOfSorted(ranked, all, ScoreOf, n, MakeCandidate(m.task, db.workers.rows[j]));
    }
    forall v ensures WithKey(m.candidates, ScoreOf, v) <= WithKey(all, ScoreOf, v) {
      WithKeyPrefix(ranked, n, ScoreOf, v);
    }
  }
}
