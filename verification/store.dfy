/** The server's SQLite database as an immutable value: five tables of rows,
    each row an auto-increment id and a record. A table keeps its rows in
    rowid order, which is the order the server's unordered `SELECT`
    statements return them in, and a counter that issues fresh ids the way
    `AUTOINCREMENT` does: starting at 1, never reusing an id. */
module Store {
  import opened Wrappers
  import opened Seqs

  /** A calendar date as a day number. The server keeps ISO `YYYY-MM-DD`
      strings and compares them as strings, which orders them as the days
      they name. */
  type Day = int

  datatype Row<R> = Row(id: nat, data: R)

  datatype Table<R> = Table(rows: seq<Row<R>>, next: nat)

  /** An empty table: the first id it hands out is 1. */
  function NewTable<R>(): Table<R>
  {
    Table([], 1)
  }

  /** Ids are strictly increasing in row order and all below the counter. */
  predicate Valid<R>(t: Table<R>)
  {
    && (forall i, j :: 0 <= i < j < |t.rows| ==> t.rows[i].id < t.rows[j].id)
    && (forall i :: 0 <= i < |t.rows| ==> t.rows[i].id < t.next)
  }

  /** Whether some row carries `id`. */
  predicate HasId<R>(t: Table<R>, id: nat)
  {
    exists i :: 0 <= i < |t.rows| && t.rows[i].id == id
  }

  /** The record of the first row with `id`, as `SELECT ... WHERE id = ?`
      followed by `fetchone()` finds it. */
  function Lookup<R>(rows: seq<Row<R>>, id: nat): (r: Option<R>)
    ensures r.Some? ==> Row(id, r.value) in rows
    ensures r.None? <==> forall i :: 0 <= i < |rows| ==> rows[i].id != id
  {
    if |rows| == 0 then None
    else if rows[0].id == id then Some(rows[0].data)
    else
      var r := Lookup(rows[1..], id);
      assert forall i :: 1 <= i < |rows| ==> rows[i] == rows[1..][i - 1];
      r
  }

  /** In a valid table the row carrying an id is the one `Lookup` finds. */
  lemma {:induction false} LookupUnique<R>(t: Table<R>, i: nat)
    requires Valid(t) && i < |t.rows|
    ensures Lookup(t.rows, t.rows[i].id) == Some(t.rows[i].data)
    decreases i
  {
    if i > 0 {
      assert t.rows[0].id < t.rows[i].id;
      assert Valid(Table(t.rows[1..], t.next));
      assert t.rows[1..][i - 1] == t.rows[i];
      LookupUnique(Table(t.rows[1..], t.next), i - 1);
    }
  }

  /** In a valid table every row is the one `Lookup` finds for its id. */
  lemma LookupMember<R>(t: Table<R>, row: Row<R>)
    requires Valid(t) && row in t.rows
    ensures Lookup(t.rows, row.id) == Some(row.data)
  {
    var i :| 0 <= i < |t.rows| && t.rows[i] == row;
    LookupUnique(t, i);
  }

  /** `INSERT`: the record is appended under the next id, which no row of a
      valid table carries yet. */
  function Insert<R>(t: Table<R>, d: R): (r: (Table<R>, nat))
    ensures r.1 == t.next && r.0.next == t.next + 1
    ensures r.0.rows == t.rows + [Row(r.1, d)]
    ensures Valid(t) ==> Valid(r.0) && !HasId(t, r.1)
    ensures Lookup(r.0.rows, r.1) == Some(d) || HasId(t, r.1)
    ensures forall k :: k != r.1 ==> Lookup(r.0.rows, k) == Lookup(t.rows, k)
  {
    var rows := t.rows + [Row(t.next, d)];
    LookupAppend(t.rows, Row(t.next, d));
    (Table(rows, t.next + 1), t.next)
  }

  lemma {:induction false} LookupAppend<R>(rows: seq<Row<R>>, row: Row<R>)
    ensures forall k :: k != row.id ==> Lookup(rows + [row], k) == Lookup(rows, k)
    ensures Lookup(rows + [row], row.id) == (if Lookup(rows, row.id).Some? then Lookup(rows, row.id) else Some(row.data))
  {
    if |rows| > 0 {
      assert (rows + [row])[1..] == rows[1..] + [row];
      LookupAppend(rows[1..], row);
    }
  }

  /** `DELETE ... WHERE`: the rows that fail `keep` go, the others stay in order. */
  function DeleteWhere<R(==,!new)>(t: Table<R>, keep: Row<R> -> bool): (r: Table<R>)
    ensures r.next == t.next
    ensures forall row :: row in r.rows <==> row in t.rows && keep(row)
    ensures IsSubsequence(r.rows, t.rows)
    ensures Valid(t) ==> Valid(r)
  {
    FilterSpec(t.rows, keep);
    var r := Table(Filter(t.rows, keep), t.next);
    FilterValid(t.rows, keep, t.next);
    r
  }

  lemma {:induction false} FilterValid<R(!new)>(rows: seq<Row<R>>, keep: Row<R> -> bool, n: nat)
    ensures Valid(Table(rows, n)) ==> Valid(Table(Filter(rows, keep), n))
  {
    if |rows| > 0 && Valid(Table(rows, n)) {
      var tail := rows[1..];
      TailValid(rows, n);
      FilterValid(tail, keep, n);
      var rest := Filter(tail, keep);
      forall x | x in rest ensures rows[0].id < x.id {
        var j :| 0 <= j < |tail| && tail[j] == x;
        assert x == rows[j + 1];
      }
      if keep(rows[0]) {
        ConsValid(rows[0], rest, n);
      }
    }
  }

  lemma TailValid<R>(rows: seq<Row<R>>, n: nat)
    requires |rows| > 0 && Valid(Table(rows, n))
    ensures Valid(Table(rows[1..], n))
  {
    var tail := rows[1..];
    forall i, j | 0 <= i < j < |tail| ensures tail[i].id < tail[j].id {
      assert tail[i] == rows[i + 1] && tail[j] == rows[j + 1];
    }
  }

  lemma ConsValid<R>(x: Row<R>, rest: seq<Row<R>>, n: nat)
    requires Valid(Table(rest, n)) && x.id < n
    requires forall y :: y in rest ==> x.id < y.id
    ensures Valid(Table([x] + rest, n))
  {
    var r := [x] + rest;
    forall i, j | 0 <= i < j < |r| ensures r[i].id < r[j].id {
      assert r[j] == rest[j - 1];
      if i > 0 {
        assert r[i] == rest[i - 1];
      }
    }
  }

  /** `DELETE ... WHERE id = ?`: the row with that id goes and every other id
      still finds the record it found before. */
  function DeleteId<R(==,!new)>(t: Table<R>, id: nat): (r: Table<R>)
    ensures r.next == t.next
    ensures forall row :: row in r.rows <==> row in t.rows && row.id != id
    ensures Lookup(r.rows, id) == None
    ensures forall k :: k != id ==> Lookup(r.rows, k) == Lookup(t.rows, k)
    ensures Valid(t) ==> Valid(r)
  {
    var r := DeleteWhere(t, NotId(id));
    LookupDelete(t.rows, id);
    r
  }

  /** The `WHERE id <> ?` condition that keeps every row but those with `id`. */
  function NotId<R>(id: nat): Row<R> -> bool
  {
    (row: Row<R>) => row.id != id
  }

  lemma {:induction false} LookupDelete<R(!new)>(rows: seq<Row<R>>, id: nat)
    ensures forall k :: k != id ==> Lookup(Filter(rows, NotId(id)), k) == Lookup(rows, k)
  {
    if |rows| > 0 {
      LookupDelete(rows[1..], id);
    }
  }

  /** `UPDATE ... WHERE id = ?`: every row with that id has its record
      rewritten by `f`; ids, order and all other rows stay as they were. */
  function UpdateId<R>(t: Table<R>, id: nat, f: R -> R): (r: Table<R>)
    ensures r.next == t.next && |r.rows| == |t.rows|
    ensures forall i :: 0 <= i < |t.rows| ==> r.rows[i].id == t.rows[i].id
    ensures forall i :: 0 <= i < |t.rows| && t.rows[i].id != id ==> r.rows[i] == t.rows[i]
    ensures Lookup(r.rows, id) == (match Lookup(t.rows, id) case None => None case Some(d) => Some(f(d)))
    ensures forall k :: k != id ==> Lookup(r.rows, k) == Lookup(t.rows, k)
    ensures Valid(t) ==> Valid(r)
  {
    var rows := UpdateRows(t.rows, id, f);
    LookupUpdate(t.rows, id, f);
    Table(rows, t.next)
  }

  function UpdateRows<R>(rows: seq<Row<R>>, id: nat, f: R -> R): (r: seq<Row<R>>)
    ensures |r| == |rows|
    ensures forall i :: 0 <= i < |rows| ==> r[i] == (if rows[i].id == id then Row(id, f(rows[i].data)) else rows[i])
  {
    seq(|rows|, i requires 0 <= i < |rows| => if rows[i].id == id then Row(id, f(rows[i].data)) else rows[i])
  }

  lemma {:induction false} LookupUpdate<R>(rows: seq<Row<R>>, id: nat, f: R -> R)
    ensures Lookup(UpdateRows(rows, id, f), id) == (match Lookup(rows, id) case None => None case Some(d) => Some(f(d)))
    ensures forall k :: k != id ==> Lookup(UpdateRows(rows, id, f), k) == Lookup(rows, k)
  {
    if |rows| > 0 {
      LookupUpdate(rows[1..], id, f);
      assert UpdateRows(rows, id, f)[1..] == UpdateRows(rows[1..], id, f);
    }
  }

  const Pending: string := "pending"
  const Assigned: string := "assigned"
  const Matched: string := "matched"

  /** A worker ("intern"); `skills` is the stored comma-joined column. */
  datatype Worker = Worker(name: string, department: string, skills: string,
                           phoneNumber: Option<string>, email: string)

  /** A department supervisor who proposes tasks. */
  datatype Chief = Chief(name: string, department: string, email: string)

  /** A window in which a worker may be assigned; nothing checks that it is
      non-empty or that the worker exists. */
  datatype Period = Period(workerId: nat, startDate: Day, endDate: Day)

  /** A proposed task; `requiredSkills` is the stored comma-joined column and
      `status` is free text (`pending`, `assigned`, or whatever an update writes). */
  datatype Task = Task(chiefId: nat, chiefName: string, title: string, description: string,
                       requiredSkills: string, requiredDepartment: string, priority: string,
                       estimatedDays: int, startDate: Day, endDate: Day,
                       status: string, matchedWorkerId: Option<nat>)

  /** A binding of a worker to a task over a window. */
  datatype Assignment = Assignment(taskId: nat, workerId: nat, startDate: Day, endDate: Day,
                                   matchScore: real, status: string)

  datatype Db = Db(workers: Table<Worker>, chiefs: Table<Chief>, periods: Table<Period>,
                   tasks: Table<Task>, assignments: Table<Assignment>)

  /** The freshly initialised database: five empty tables. */
  function EmptyDb(): (db: Db)
    ensures WellFormed(db)
  {
    Db(NewTable(), NewTable(), NewTable(), NewTable(), NewTable())
  }

  /** Every table has unique, increasing ids below its counter. */
  predicate WellFormed(db: Db)
  {
    Valid(db.workers) && Valid(db.chiefs) && Valid(db.periods) && Valid(db.tasks) && Valid(db.assignments)
  }

  /** No table's counter moved back from `db` to `db2`, so `db2` hands out
      none of the ids `db` already handed out. */
  predicate CountersKept(db: Db, db2: Db)
  {
    && db.workers.next <= db2.workers.next && db.chiefs.next <= db2.chiefs.next
    && db.periods.next <= db2.periods.next && db.tasks.next <= db2.tasks.next
    && db.assignments.next <= db2.assignments.next
  }
}
