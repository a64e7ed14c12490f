/** The server's HTTP endpoints as one request/response step on the
    database. Transport, JSON and connection handling are not modelled: a
    request is its decoded body and path parameter, a response is its JSON
    payload (`Created` stands for the 201 replies). */
module Api {
  import opened Wrappers
  import opened Seqs
  import opened Store
  import opened Ledger
  import opened Matcher
  import SkillsCodec

  /** A worker as `GET /api/workers` returns it, skills read back into a list. */
  datatype WorkerView = WorkerView(id: nat, name: string, department: string, skills: seq<string>,
                                   phoneNumber: Option<string>, email: string)

  /** A task as `GET /api/tasks` returns it, required skills read back into a list. */
  datatype TaskView = TaskView(id: nat, task: Task, requiredSkills: seq<string>)

  /** A row of `GET /api/assignments`: the assignment joined with its task
      and its worker. */
  datatype AssignmentView = AssignmentView(assignment: Row<Assignment>, title: string, description: string,
                                           priority: string, workerName: string)

  datatype Request =
    | Health
    | ListWorkers | CreateWorkerReq(worker: WorkerForm) | DeleteWorkerReq(workerId: nat)
    | ListChiefs | CreateChiefReq(chief: ChiefForm) | DeleteChiefReq(chiefId: nat)
    | ListAvailability | CreateAvailabilityReq(period: PeriodForm) | DeleteAvailabilityReq(periodId: nat)
    | ListTasks | CreateTaskReq(task: TaskForm) | DeleteTaskReq(taskId: nat)
    | UpdateTaskReq(updateId: nat, status: Option<string>, matchedWorkerId: Option<Option<nat>>)
    | ListAssignments | ConfirmReq(confirm: AssignmentForm) | CancelReq(assignmentId: nat)
    | CreateAssignmentReq(assign: AssignmentForm)
    | MatchTasksReq

  datatype Response =
    | Created(id: nat, message: string)
    | Done(message: string)
    | Status(status: string, message: string)
    | Workers(workers: seq<WorkerView>)
    | Chiefs(chiefs: seq<Row<Chief>>)
    | Periods(periods: seq<Row<Period>>)
    | Tasks(tasks: seq<TaskView>)
    | Assignments(assignments: seq<AssignmentView>)
    | Matches(report: MatchReport)

  function ViewWorker(w: Row<Worker>): (v: WorkerView)
    ensures v.id == w.id && v.skills == SkillsCodec.Decode(w.data.skills)
    ensures v.name == w.data.name && v.department == w.data.department
    ensures v.phoneNumber == w.data.phoneNumber && v.email == w.data.email
  {
    WorkerView(w.id, w.data.name, w.data.department, SkillsCodec.Decode(w.data.skills), w.data.phoneNumber, w.data.email)
  }

  function ViewTask(t: Row<Task>): (v: TaskView)
    ensures v.id == t.id && v.task == t.data && v.requiredSkills == SkillsCodec.Decode(t.data.requiredSkills)
  {
    TaskView(t.id, t.data, SkillsCodec.Decode(t.data.requiredSkills))
  }

  /** A listed assignment carries its task's title, description and
      priority and its worker's name. */
  predicate JoinedFields(db: Db, v: AssignmentView)
  {
    match (Lookup(db.tasks.rows, v.assignment.data.taskId), Lookup(db.workers.rows, v.assignment.data.workerId))
    case (Some(t), Some(w)) =>
      v.title == t.title && v.description == t.description && v.priority == t.priority && v.workerName == w.name
    case _ => false
  }

  /** The inner join of `get_assignments`: an assignment is listed only
      while both its task and its worker exist. */
  function JoinAssignments(db: Db, rows: seq<Row<Assignment>>): (r: seq<AssignmentView>)
    ensures forall v :: v in r ==>
              (v.assignment in rows
               && Lookup(db.tasks.rows, v.assignment.data.taskId).Some?
               && Lookup(db.workers.rows, v.assignment.data.workerId).Some?)
    ensures forall v :: v in r ==> JoinedFields(db, v)
    ensures forall a ::
              (a in rows && Lookup(db.tasks.rows, a.data.taskId).Some? && Lookup(db.workers.rows, a.data.workerId).Some?)
              ==> exists v :: v in r && v.assignment == a
  {
    if |rows| == 0 then []
    else
      var a := rows[0];
      var rest := JoinAssignments(db, rows[1..]);
      assert forall x :: x in rows <==> x == a || x in rows[1..];
      match (Lookup(db.tasks.rows, a.data.taskId), Lookup(db.workers.rows, a.data.workerId))
      case (Some(t), Some(w)) =>
        var v := AssignmentView(a, t.title, t.description, t.priority, w.name);
        assert v in [v] + rest;
        [v] + rest
      case _ => rest
  }

  /** The reply of a creating endpoint: the new database and a 201 with the new id. */
  function Creation(r: (Db, nat), message: string): (Db, Response)
  {
    (r.0, Created(r.1, message))
  }

  /** One request against the database: the database afterwards and the
      reply. Reads, the matching run among them, leave the database as it
      was, and no request breaks the uniqueness, order or freshness of ids. */
  function Apply(db: Db, req: Request): (r: (Db, Response))
    ensures IsRead(req) ==> r.0 == db
    ensures WellFormed(db) ==> WellFormed(r.0)
    ensures CountersKept(db, r.0)
  {
    if IsRead(req) then (db, Read(db, req)) else Write(db, req)
  }

  /** Requests that only `SELECT`. */
  predicate IsRead(req: Request)
  {
    req.Health? || req.ListWorkers? || req.ListChiefs? || req.ListAvailability? || req.ListTasks?
      || req.ListAssignments? || req.MatchTasksReq?
  }

  /** The reply to a reading request. */
  function Read(db: Db, req: Request): Response
    requires IsRead(req)
  {
    match req
    case Health => Status("ok", "Server is running")
    case ListWorkers => Workers(Map(db.workers.rows, ViewWorker))
    case ListChiefs => Chiefs(db.chiefs.rows)
    case ListAvailability => Periods(db.periods.rows)
    case ListTasks => Tasks(Map(db.tasks.rows, ViewTask))
    case ListAssignments => Assignments(JoinAssignments(db, db.assignments.rows))
    case MatchTasksReq => Matches(MatchTasks(db))
  }

  /** A writing request: the handler's database and reply. */
  function Write(db: Db, req: Request): (r: (Db, Response))
    requires !IsRead(req)
    ensures WellFormed(db) ==> WellFormed(r.0)
    ensures CountersKept(db, r.0)
  {
    if IsCreate(req) then Create(db, req) else Change(db, req)
  }

  /** Requests that `INSERT` a row. */
  predicate IsCreate(req: Request)
  {
    req.CreateWorkerReq? || req.CreateChiefReq? || req.CreateAvailabilityReq? || req.CreateTaskReq?
      || req.ConfirmReq? || req.CreateAssignmentReq?
  }

  /** A creating request: one new row under the table's next id, and a 201. */
  function Create(db: Db, req: Request): (r: (Db, Response))
    requires IsCreate(req)
    ensures WellFormed(db) ==> WellFormed(r.0)
    ensures CountersKept(db, r.0)
  {
    match req
    case CreateWorkerReq(f) =>
      Creation(CreateWorker(db, f), "Worker created successfully")
    case CreateChiefReq(f) =>
      Creation(CreateChief(db, f), "Chief created successfully")
    case CreateAvailabilityReq(f) =>
      Creation(CreateAvailability(db, f), "Availability period created")
    case CreateTaskReq(f) =>
      Creation(CreateTask(db, f), "Task proposed successfully")
    case ConfirmReq(f) =>
      Creation(Confirm(db, f), "Assignment confirmed successfully")
    case CreateAssignmentReq(f) =>
      Creation(Confirm(db, f), "Task assigned successfully")
  }

  /** A deleting or updating request. */
  function Change(db: Db, req: Request): (r: (Db, Response))
    requires !IsRead(req) && !IsCreate(req)
    ensures WellFormed(db) ==> WellFormed(r.0)
    ensures CountersKept(db, r.0)
  {
    match req
    case DeleteWorkerReq(id) => (DeleteWorker(db, id), Done("Worker deleted successfully"))
    case DeleteChiefReq(id) => (DeleteChief(db, id), Done("Chief deleted successfully"))
    case DeleteAvailabilityReq(id) => (DeleteAvailability(db, id), Done("Availability period deleted successfully"))
    case DeleteTaskReq(id) => (DeleteTask(db, id), Done("Task deleted successfully"))
    case UpdateTaskReq(id, status, matched) => (UpdateTask(db, id, status, matched), Done("Task updated successfully"))
    case CancelReq(id) => (Cancel(db, id), Done("Assignment cancelled successfully"))
  }

  /** The database after the requests of `reqs`, one after another. */
  function Run(db: Db, reqs: seq<Request>): (r: Db)
    ensures WellFormed(db) ==> WellFormed(r)
    ensures CountersKept(db, r)
    decreases |reqs|
  {
    if |reqs| == 0 then db else Run(Apply(db, reqs[0]).0, reqs[1..])
  }

  /** `AUTOINCREMENT` never reuses an id: whatever requests ran since, a new
      worker gets the workers table's next id, and that id differs from the
      id of every worker the earlier database held, deleted or not. */
  lemma NoWorkerIdReused(db: Db, reqs: seq<Request>, f: WorkerForm, w: Row<Worker>)
    requires WellFormed(db) && w in db.workers.rows
    ensures var db2 := Run(db, reqs);
      && Apply(db2, CreateWorkerReq(f)).1 == Created(db2.workers.next, "Worker created successfully")
      && db2.workers.next != w.id
  {
    var db2 := Run(db, reqs);
    var i :| 0 <= i < |db.workers.rows| && db.workers.rows[i] == w;
    assert w.id < db.workers.next <= db2.workers.next;
    WorkerCreatedAtNext(db2, f);
  }

  lemma WorkerCreatedAtNext(db: Db, f: WorkerForm)
    ensures Apply(db, CreateWorkerReq(f)).1 == Created(db.workers.next, "Worker created successfully")
  {
  }

  /** Listing reads every stored skill column back with the codec: the
      skills a worker or task was created with come back unchanged whenever
      the codec keeps them. */
  lemma CreatedSkillsListBack(db: Db, f: WorkerForm, i: nat)
    requires f.skills.Some? && SkillsCodec.Storable(f.skills.value)
    requires i == |db.workers.rows|
    ensures var db' := CreateWorker(db, f).0;
      i < |db'.workers.rows| && ViewWorker(db'.workers.rows[i]).skills == f.skills.value
  {
  }
}
