/** How the unguarded ledger handlers combine with each other and with the
    matcher. */
module LedgerProperties {
  import opened Wrappers
  import opened Seqs
  import opened Store
  import opened Ledger
  import opened Matcher
  import opened MatchProperties
  import Api

  /** Confirming a pending, unmatched task and then cancelling the new
      assignment restores every table except the assignment id counter,
      which has moved on; the next matching run proposes exactly what it
      proposed before. */
  lemma ConfirmCancelRoundTrip(db: Db, f: AssignmentForm)
    requires WellFormed(db)
    requires match Lookup(db.tasks.rows, f.taskId)
      case None => true
      case Some(t) => t.status == Pending && t.matchedWorkerId.None?
    ensures var (db1, id) := Confirm(db, f);
      Cancel(db1, id) == db.(assignments := Table(db.assignments.rows, db.assignments.next + 1))
    ensures var (db1, id) := Confirm(db, f);
      MatchTasks(Cancel(db1, id)) == MatchTasks(db)
  {
    var (db1, id) := Confirm(db, f);
    var rec := AssignmentRecord(f);
    InsertThenDelete(db.assignments, rec);
    assert Lookup(db1.assignments.rows, id) == Some(rec);
    AssignThenRelease(db.tasks, f.taskId, f.workerId);
    var db2 := Cancel(db1, id);
    assert db2 == db1.(assignments := DeleteId(db1.assignments, id), tasks := UpdateId(db1.tasks, f.taskId, MarkPending));
  }

  /** Deleting the row an insert just added leaves the table as it was,
      except for the counter. */
  lemma InsertThenDelete<R(!new)>(t: Table<R>, d: R)
    requires Valid(t)
    ensures var (t1, id) := Insert(t, d);
      Lookup(t1.rows, id) == Some(d) && DeleteId(t1, id) == Table(t.rows, t.next + 1)
  {
    var (t1, id) := Insert(t, d);
    FilterAppend(t.rows, [Row(id, d)], NotId(id));
    FilterAll(t.rows, NotId<R>(id));
    assert Filter([Row(id, d)], NotId<R>(id)) == [];
  }

  /** Marking a pending, unmatched task assigned and then pending again
      restores the tasks table. */
  lemma AssignThenRelease(tasks: Table<Task>, taskId: nat, workerId: nat)
    requires Valid(tasks)
    requires match Lookup(tasks.rows, taskId)
      case None => true
      case Some(t) => t.status == Pending && t.matchedWorkerId.None?
    ensures UpdateId(UpdateId(tasks, taskId, (t: Task) => MarkAssigned(t, workerId)), taskId, MarkPending) == tasks
  {
    var t1 := UpdateId(tasks, taskId, (t: Task) => MarkAssigned(t, workerId));
    var t2 := UpdateId(t1, taskId, MarkPending);
    forall i | 0 <= i < |tasks.rows| ensures t2.rows[i] == tasks.rows[i] {
      if tasks.rows[i].id == taskId {
        LookupUnique(tasks, i);
      }
    }
    assert t2.rows == tasks.rows;
  }

  /** Confirmation has no guard: confirming the same task twice stores two
      `assigned` assignments for it and leaves it matched to the second
      worker; cancelling the first then puts the task back to pending while
      the second assignment still stands. */
  lemma DoubleConfirm(db: Db, f: AssignmentForm, g: AssignmentForm)
    requires WellFormed(db) && f.taskId == g.taskId
    requires Lookup(db.tasks.rows, f.taskId).Some?
    ensures var (db1, a1) := Confirm(db, f); var (db2, a2) := Confirm(db1, g);
      && a1 != a2
      && Lookup(db2.assignments.rows, a1) == Some(AssignmentRecord(f))
      && Lookup(db2.assignments.rows, a2) == Some(AssignmentRecord(g))
      && Lookup(db2.tasks.rows, f.taskId).value.status == Assigned
      && Lookup(db2.tasks.rows, f.taskId).value.matchedWorkerId == Some(g.workerId)
    ensures var (db1, a1) := Confirm(db, f); var (db2, a2) := Confirm(db1, g); var db3 := Cancel(db2, a1);
      && Lookup(db3.tasks.rows, f.taskId).value.status == Pending
      && Lookup(db3.tasks.rows, f.taskId).value.matchedWorkerId.None?
      && Lookup(db3.assignments.rows, a2) == Some(AssignmentRecord(g))
      && AssignmentRecord(g).taskId == f.taskId && AssignmentRecord(g).status == Assigned
  {
    var (db1, a1) := Confirm(db, f);
    var (db2, a2) := Confirm(db1, g);
    assert Lookup(db1.assignments.rows, a1) == Some(AssignmentRecord(f));
    assert a1 < a2;
  }

  /** Once a worker is confirmed over a window, no later matching run
      proposes that worker for a task whose window shares a day with it. */
  lemma ConfirmBlocksWorker(db: Db, f: AssignmentForm, i: nat, k: nat)
    requires var m := MatchTasks(Confirm(db, f).0).matches;
      i < |m| && k < |m[i].candidates| && m[i].candidates[k].workerId == f.workerId
    ensures !Conflicts(AssignmentRecord(f), MatchTasks(Confirm(db, f).0).matches[i].task.data)
  {
    var (db1, id) := Confirm(db, f);
    CandidateGuarantees(db1, i, k);
    assert Row(id, AssignmentRecord(f)) in db1.assignments.rows;
  }

  /** Deleting a task leaves its assignments behind. Such an assignment no
      longer shows in the assignments listing (its join finds no task), yet
      it still keeps its worker out of every proposal whose window it shares
      a day with. */
  lemma DeletedTaskLeavesOrphan(db: Db, f: AssignmentForm)
    requires WellFormed(db)
    ensures var (db1, id) := Confirm(db, f); var db2 := DeleteTask(db1, f.taskId);
      && Lookup(db2.assignments.rows, id) == Some(AssignmentRecord(f))
      && (forall v :: v in Api.JoinAssignments(db2, db2.assignments.rows) ==> v.assignment.id != id)
      && (forall i, k :: 0 <= i < |MatchTasks(db2).matches| && 0 <= k < |MatchTasks(db2).matches[i].candidates|
            && MatchTasks(db2).matches[i].candidates[k].workerId == f.workerId
            ==> !Conflicts(AssignmentRecord(f), MatchTasks(db2).matches[i].task.data))
  {
    var (db1, id) := Confirm(db, f);
    var db2 := DeleteTask(db1, f.taskId);
    OrphanStored(db, f);
    OrphanUnlisted(db, f);
    OrphanBlocks(db, f);
  }

  lemma OrphanStored(db: Db, f: AssignmentForm)
    requires WellFormed(db)
    ensures var (db1, id) := Confirm(db, f);
      Row(id, AssignmentRecord(f)) in DeleteTask(db1, f.taskId).assignments.rows
      && Lookup(DeleteTask(db1, f.taskId).assignments.rows, id) == Some(AssignmentRecord(f))
  {
    var (db1, id) := Confirm(db, f);
    var db2 := DeleteTask(db1, f.taskId);
    assert db2.assignments == db1.assignments;
    assert db1.assignments.rows[|db.assignments.rows|] == Row(id, AssignmentRecord(f));
    LookupUnique(db1.assignments, |db.assignments.rows|);
  }

  lemma OrphanUnlisted(db: Db, f: AssignmentForm)
    requires WellFormed(db)
    ensures var (db1, id) := Confirm(db, f); var db2 := DeleteTask(db1, f.taskId);
      forall v :: v in Api.JoinAssignments(db2, db2.assignments.rows) ==> v.assignment.id != id
  {
    var (db1, id) := Confirm(db, f);
    var db2 := DeleteTask(db1, f.taskId);
    OrphanStored(db, f);
    UnlistedWithoutTask(db2, Row(id, AssignmentRecord(f)));
  }

  /** An assignment whose task is gone is missing from the listing. */
  lemma UnlistedWithoutTask(db: Db, row: Row<Assignment>)
    requires Valid(db.assignments) && row in db.assignments.rows
    requires Lookup(db.tasks.rows, row.data.taskId).None?
    ensures forall v :: v in Api.JoinAssignments(db, db.assignments.rows) ==> v.assignment.id != row.id
  {
    LookupMember(db.assignments, row);
    forall v | v in Api.JoinAssignments(db, db.assignments.rows) ensures v.assignment.id != row.id {
      LookupMember(db.assignments, v.assignment);
    }
  }

  lemma OrphanBlocks(db: Db, f: AssignmentForm)
    requires WellFormed(db)
    ensures var (db1, id) := Confirm(db, f); var db2 := DeleteTask(db1, f.taskId);
      forall i, k :: 0 <= i < |MatchTasks(db2).matches| && 0 <= k < |MatchTasks(db2).matches[i].candidates|
        && MatchTasks(db2).matches[i].candidates[k].workerId == f.workerId
        ==> !Conflicts(AssignmentRecord(f), MatchTasks(db2).matches[i].task.data)
  {
    var (db1, id) := Confirm(db, f);
    var db2 := DeleteTask(db1, f.taskId);
    OrphanStored(db, f);
    var m := MatchTasks(db2).matches;
    forall i, k | 0 <= i < |m| && 0 <= k < |m[i].candidates| && m[i].candidates[k].workerId == f.workerId
      ensures !Conflicts(AssignmentRecord(f), m[i].task.data) {
      CandidateGuarantees(db2, i, k);
    }
  }
}
