/** The server's write handlers as transitions on the database. Each one runs
    its `INSERT`, `DELETE` and `UPDATE` statements exactly as written: none
    validates its input, none checks a task's status or a worker's bookings,
    and none cascades beyond the rows its statements name (SQLite's foreign
    key enforcement is never switched on, so the schema's `ON DELETE CASCADE`
    clauses do nothing). */
module Ledger {
  import opened Wrappers
  import opened Seqs
  import opened Store
  import SkillsCodec

  /** The JSON body of `POST /api/workers`; `None` is a missing key. */
  datatype WorkerForm = WorkerForm(name: string, department: Option<string>, skills: Option<seq<string>>,
                                   phoneNumber: Option<string>, email: Option<string>)

  /** The JSON body of `POST /api/chiefs`. */
  datatype ChiefForm = ChiefForm(name: string, department: Option<string>, email: Option<string>)

  /** The JSON body of `POST /api/availability`. */
  datatype PeriodForm = PeriodForm(workerId: nat, startDate: Day, endDate: Day)

  /** The JSON body of `POST /api/tasks`. */
  datatype TaskForm = TaskForm(chiefId: nat, chiefName: string, title: string, description: Option<string>,
                               requiredSkills: Option<seq<string>>, requiredDepartment: Option<string>,
                               priority: Option<string>, estimatedDays: Option<int>,
                               startDate: Day, endDate: Day)

  /** The JSON body of `POST /api/assignments/confirm` and `POST /api/assignments`. */
  datatype AssignmentForm = AssignmentForm(taskId: nat, workerId: nat, startDate: Day, endDate: Day,
                                           matchScore: Option<real>)

  /** The row `create_worker` stores: absent department and email become
      empty strings, absent skills the empty list, an absent phone number NULL. */
  function WorkerRecord(f: WorkerForm): (w: Worker)
    ensures w.name == f.name && w.phoneNumber == f.phoneNumber
    ensures w.department == (if f.department.Some? then f.department.value else "")
    ensures w.email == (if f.email.Some? then f.email.value else "")
    ensures w.skills == SkillsCodec.Encode(f.skills.GetOr([]))
    ensures f.skills.None? ==> w.skills == ""
    ensures f.skills.Some? && SkillsCodec.Storable(f.skills.value) ==> SkillsCodec.Decode(w.skills) == f.skills.value
  {
    var skills := f.skills.GetOr([]);
    SkillsCodec.DecodeEncode(skills);
    Worker(f.name, f.department.GetOr(""), SkillsCodec.Encode(skills), f.phoneNumber, f.email.GetOr(""))
  }

  /** `create_worker`: one new worker row under a fresh id; nothing else changes. */
  function CreateWorker(db: Db, f: WorkerForm): (r: (Db, nat))
    ensures r.0 == db.(workers := r.0.workers)
    ensures r.0.workers.rows == db.workers.rows + [Row(r.1, WorkerRecord(f))]
    ensures r.1 == db.workers.next && r.0.workers.next == db.workers.next + 1
    ensures WellFormed(db) ==> WellFormed(r.0) && !HasId(db.workers, r.1)
    ensures forall k :: k != r.1 ==> Lookup(r.0.workers.rows, k) == Lookup(db.workers.rows, k)
  {
    var (workers, id) := Insert(db.workers, WorkerRecord(f));
    (db.(workers := workers), id)
  }

  /** `delete_worker`: the worker's availability periods and the worker row
      go; the worker's assignments, and the tasks they hold, stay. */
  function DeleteWorker(db: Db, id: nat): (r: Db)
    ensures r == db.(workers := r.workers, periods := r.periods)
    ensures r.workers.next == db.workers.next && r.periods.next == db.periods.next
    ensures forall row :: row in r.periods.rows <==> row in db.periods.rows && row.data.workerId != id
    ensures forall row :: row in r.workers.rows <==> row in db.workers.rows && row.id != id
    ensures Lookup(r.workers.rows, id) == None
    ensures forall k :: k != id ==> Lookup(r.workers.rows, k) == Lookup(db.workers.rows, k)
    ensures WellFormed(db) ==> WellFormed(r)
  {
    var periods := DeleteWhere(db.periods, (p: Row<Period>) => p.data.workerId != id);
    db.(periods := periods, workers := DeleteId(db.workers, id))
  }

  /** `create_chief`: one new chief row under a fresh id. */
  function CreateChief(db: Db, f: ChiefForm): (r: (Db, nat))
    ensures r.0 == db.(chiefs := r.0.chiefs)
    ensures r.0.chiefs.rows == db.chiefs.rows + [Row(r.1, Chief(f.name, f.department.GetOr(""), f.email.GetOr("")))]
    ensures r.1 == db.chiefs.next && r.0.chiefs.next == db.chiefs.next + 1
    ensures WellFormed(db) ==> WellFormed(r.0) && !HasId(db.chiefs, r.1)
  {
    var (chiefs, id) := Insert(db.chiefs, Chief(f.name, f.department.GetOr(""), f.email.GetOr("")));
    (db.(chiefs := chiefs), id)
  }

  /** `delete_chief`: only the chief row goes; the chief's tasks stay. */
  function DeleteChief(db: Db, id: nat): (r: Db)
    ensures r == db.(chiefs := r.chiefs) && r.chiefs.next == db.chiefs.next
    ensures forall row :: row in r.chiefs.rows <==> row in db.chiefs.rows && row.id != id
    ensures Lookup(r.chiefs.rows, id) == None
    ensures forall k :: k != id ==> Lookup(r.chiefs.rows, k) == Lookup(db.chiefs.rows, k)
    ensures WellFormed(db) ==> WellFormed(r)
  {
    db.(chiefs := DeleteId(db.chiefs, id))
  }

  /** `create_availability`: one new period row; the worker id is not checked. */
  function CreateAvailability(db: Db, f: PeriodForm): (r: (Db, nat))
    ensures r.0 == db.(periods := r.0.periods)
    ensures r.0.periods.rows == db.periods.rows + [Row(r.1, Period(f.workerId, f.startDate, f.endDate))]
    ensures r.1 == db.periods.next && r.0.periods.next == db.periods.next + 1
    ensures WellFormed(db) ==> WellFormed(r.0) && !HasId(db.periods, r.1)
  {
    var (periods, id) := Insert(db.periods, Period(f.workerId, f.startDate, f.endDate));
    (db.(periods := periods), id)
  }

  /** `delete_availability`: only the period row goes, even when an
      assignment was made on the strength of it. */
  function DeleteAvailability(db: Db, id: nat): (r: Db)
    ensures r == db.(periods := r.periods) && r.periods.next == db.periods.next
    ensures forall row :: row in r.periods.rows <==> row in db.periods.rows && row.id != id
    ensures Lookup(r.periods.rows, id) == None
    ensures forall k :: k != id ==> Lookup(r.periods.rows, k) == Lookup(db.periods.rows, k)
    ensures WellFormed(db) ==> WellFormed(r)
  {
    db.(periods := DeleteId(db.periods, id))
  }

  /** The row `create_task` stores: status `pending`, no matched worker, and
      the documented defaults for the optional keys. */
  function TaskRecord(f: TaskForm): (t: Task)
    ensures t.status == Pending && t.matchedWorkerId.None?
    ensures t.chiefId == f.chiefId && t.chiefName == f.chiefName && t.title == f.title
    ensures t.startDate == f.startDate && t.endDate == f.endDate
    ensures t.description == (if f.description.Some? then f.description.value else "")
    ensures t.requiredDepartment == (if f.requiredDepartment.Some? then f.requiredDepartment.value else "")
    ensures t.priority == (if f.priority.Some? then f.priority.value else "medium")
    ensures t.estimatedDays == (if f.estimatedDays.Some? then f.estimatedDays.value else 1)
    ensures t.requiredSkills == SkillsCodec.Encode(f.requiredSkills.GetOr([]))
    ensures f.requiredSkills.None? ==> t.requiredSkills == ""
    ensures f.requiredSkills.Some? && SkillsCodec.Storable(f.requiredSkills.value) ==> SkillsCodec.Decode(t.requiredSkills) == f.requiredSkills.value
  {
    var skills := f.requiredSkills.GetOr([]);
    SkillsCodec.DecodeEncode(skills);
    Task(f.chiefId, f.chiefName, f.title, f.description.GetOr(""), SkillsCodec.Encode(skills),
         f.requiredDepartment.GetOr(""), f.priority.GetOr("medium"), f.estimatedDays.GetOr(1),
         f.startDate, f.endDate, Pending, None)
  }

  /** `create_task`: one new pending task row under a fresh id. */
  function CreateTask(db: Db, f: TaskForm): (r: (Db, nat))
    ensures r.0 == db.(tasks := r.0.tasks)
    ensures r.0.tasks.rows == db.tasks.rows + [Row(r.1, TaskRecord(f))]
    ensures r.1 == db.tasks.next && r.0.tasks.next == db.tasks.next + 1
    ensures WellFormed(db) ==> WellFormed(r.0) && !HasId(db.tasks, r.1)
  {
    var (tasks, id) := Insert(db.tasks, TaskRecord(f));
    (db.(tasks := tasks), id)
  }

  /** `delete_task`: only the task row goes; its assignments stay behind. */
  function DeleteTask(db: Db, id: nat): (r: Db)
    ensures r == db.(tasks := r.tasks) && r.tasks.next == db.tasks.next
    ensures forall row :: row in r.tasks.rows <==> row in db.tasks.rows && row.id != id
    ensures Lookup(r.tasks.rows, id) == None
    ensures forall k :: k != id ==> Lookup(r.tasks.rows, k) == Lookup(db.tasks.rows, k)
    ensures WellFormed(db) ==> WellFormed(r)
  {
    db.(tasks := DeleteId(db.tasks, id))
  }

  /** `update_task`: a `status` key sets the status; a `matched_worker_id` key
      (possibly null) sets the matched worker and then forces the status to
      `matched`, overriding any `status` in the same request. */
  function UpdateTask(db: Db, id: nat, status: Option<string>, matchedWorkerId: Option<Option<nat>>): (r: Db)
    ensures r == db.(tasks := r.tasks) && r.tasks.next == db.tasks.next
    ensures forall k :: k != id ==> Lookup(r.tasks.rows, k) == Lookup(db.tasks.rows, k)
    ensures Lookup(db.tasks.rows, id).None? ==> Lookup(r.tasks.rows, id).None?
    ensures Lookup(db.tasks.rows, id).Some? ==>
      var t := Lookup(db.tasks.rows, id).value;
      Lookup(r.tasks.rows, id) == Some(t.(status := if matchedWorkerId.Some? then Matched else status.GetOr(t.status),
                                         matchedWorkerId := matchedWorkerId.GetOr(t.matchedWorkerId)))
    ensures WellFormed(db) ==> WellFormed(r)
  {
    var step := if status.Some? then UpdateId(db.tasks, id, (t: Task) => t.(status := status.value)) else db.tasks;
    var tasks := if matchedWorkerId.Some?
      then UpdateId(step, id, (t: Task) => t.(matchedWorkerId := matchedWorkerId.value, status := Matched))
      else step;
    db.(tasks := tasks)
  }

  /** The assignment row a confirmation stores: status `assigned` and the
      given score, or 0 when the request carries none. */
  function AssignmentRecord(f: AssignmentForm): (a: Assignment)
    ensures a.status == Assigned && a.taskId == f.taskId && a.workerId == f.workerId
    ensures a.startDate == f.startDate && a.endDate == f.endDate
    ensures a.matchScore == (if f.matchScore.Some? then f.matchScore.value else 0.0)
  {
    Assignment(f.taskId, f.workerId, f.startDate, f.endDate, f.matchScore.GetOr(0.0), Assigned)
  }

  /** The task as a confirmation leaves it: assigned to the given worker. */
  function MarkAssigned(t: Task, workerId: nat): (u: Task)
    ensures u.status == Assigned && u.matchedWorkerId == Some(workerId)
    ensures u.(status := t.status, matchedWorkerId := t.matchedWorkerId) == t
  {
    t.(status := Assigned, matchedWorkerId := Some(workerId))
  }

  /** The task as a cancellation leaves it: pending with no matched worker. */
  function MarkPending(t: Task): (u: Task)
    ensures u.status == Pending && u.matchedWorkerId.None?
    ensures u.(status := t.status, matchedWorkerId := t.matchedWorkerId) == t
  {
    t.(status := Pending, matchedWorkerId := None)
  }

  /** `confirm_assignment` (and `create_assignment`, kept for compatibility,
      which runs the same statements): append one `assigned` assignment and
      mark the task assigned to the worker. Whatever the task's status, and
      whatever the worker's other bookings, the effect is the same; an
      unknown task id still gets its assignment row. */
  function Confirm(db: Db, f: AssignmentForm): (r: (Db, nat))
    ensures r.0 == db.(assignments := r.0.assignments, tasks := r.0.tasks)
    ensures r.1 == db.assignments.next && r.0.assignments.next == db.assignments.next + 1
    ensures r.0.tasks.next == db.tasks.next
    ensures r.0.assignments.rows == db.assignments.rows + [Row(r.1, AssignmentRecord(f))]
    ensures WellFormed(db) ==> WellFormed(r.0) && !HasId(db.assignments, r.1)
    ensures Lookup(r.0.tasks.rows, f.taskId) ==
      (match Lookup(db.tasks.rows, f.taskId) case None => None case Some(t) => Some(MarkAssigned(t, f.workerId)))
    ensures forall k :: k != f.taskId ==> Lookup(r.0.tasks.rows, k) == Lookup(db.tasks.rows, k)
  {
    var (assignments, id) := Insert(db.assignments, AssignmentRecord(f));
    var tasks := UpdateId(db.tasks, f.taskId, (t: Task) => MarkAssigned(t, f.workerId));
    (db.(assignments := assignments, tasks := tasks), id)
  }

  /** `delete_assignment`: when the assignment exists, delete it and put its
      task back to pending with no matched worker; when it does not, change
      nothing (the handler reports success either way). */
  function Cancel(db: Db, id: nat): (r: Db)
    ensures Lookup(db.assignments.rows, id).None? ==> r == db
    ensures Lookup(db.assignments.rows, id).Some? ==>
      var taskId := Lookup(db.assignments.rows, id).value.taskId;
      && r == db.(assignments := r.assignments, tasks := r.tasks)
      && (forall row :: row in r.assignments.rows <==> row in db.assignments.rows && row.id != id)
      && Lookup(r.tasks.rows, taskId) ==
           (match Lookup(db.tasks.rows, taskId) case None => None case Some(t) => Some(MarkPending(t)))
      && (forall k :: k != taskId ==> Lookup(r.tasks.rows, k) == Lookup(db.tasks.rows, k))
    ensures r.assignments.next == db.assignments.next && r.tasks.next == db.tasks.next
    ensures Lookup(r.assignments.rows, id).None?
    ensures forall k :: k != id ==> Lookup(r.assignments.rows, k) == Lookup(db.assignments.rows, k)
    ensures WellFormed(db) ==> WellFormed(r)
  {
    match Lookup(db.assignments.rows, id)
    case None => db
    case Some(a) =>
      db.(assignments := DeleteId(db.assignments, id),
          tasks := UpdateId(db.tasks, a.taskId, MarkPending))
  }

  /** A second cancellation of the same id changes nothing. */
  lemma CancelIdempotent(db: Db, id: nat)
    ensures Cancel(Cancel(db, id), id) == Cancel(db, id)
  {
  }
}
