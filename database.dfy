/**
 * The relational store: the three record shapes, their tables keyed by primary
 * key, and a session that collects added rows and commits them as one unit.
 *
 * Every column is declared NOT NULL, so a stored row always has all of its
 * fields; here that is simply what the datatypes say (no field can be absent).
 * `department_id` and `job_id` are plain integers with no foreign key.
 */
module Database {
  import opened Wrappers

  datatype Department = Department(id: int, department: string)

  datatype Job = Job(id: int, job: string)

  /** `datetime` is a text column, stored as given. */
  datatype Employee = Employee(id: int, name: string, datetime: string, departmentId: int, jobId: int)

  datatype TableName = Departments | Jobs | Employees

  /** A primary key: which table, and the id within it. */
  datatype Key = Key(table: TableName, id: int)

  /** A row added to a session, in whichever of the three tables it belongs. */
  datatype Row = DepartmentRow(department: Department) | JobRow(job: Job) | EmployeeRow(employee: Employee) {
    function PrimaryKey(): Key {
      match this
      case DepartmentRow(d) => Key(Departments, d.id)
      case JobRow(j) => Key(Jobs, j.id)
      case EmployeeRow(e) => Key(Employees, e.id)
    }
  }

  /** The committed contents of the three tables, each a map from primary key to row. */
  datatype Tables = Tables(departments: map<int, Department>, jobs: map<int, Job>, employees: map<int, Employee>) {

    /** Primary-key integrity: every stored row is filed under its own id. */
    predicate Valid() {
      && (forall id :: id in departments ==> departments[id].id == id)
      && (forall id :: id in jobs ==> jobs[id].id == id)
      && (forall id :: id in employees ==> employees[id].id == id)
    }

    /** Whether a row with this primary key is stored. */
    predicate Has(k: Key) {
      match k.table
      case Departments => k.id in departments
      case Jobs => k.id in jobs
      case Employees => k.id in employees
    }

    /** The row stored under a primary key, if any. */
    function Lookup(k: Key): (r: Option<Row>)
      ensures r.Some? <==> Has(k)
    {
      match k.table
      case Departments => if k.id in departments then Some(DepartmentRow(departments[k.id])) else None
      case Jobs => if k.id in jobs then Some(JobRow(jobs[k.id])) else None
      case Employees => if k.id in employees then Some(EmployeeRow(employees[k.id])) else None
    }

    /** The number of stored rows over the three tables. */
    function Size(): nat {
      |departments| + |jobs| + |employees|
    }

    /** The tables with one more row, filed under its primary key. */
    function Insert(r: Row): (t: Tables)
      ensures t.Lookup(r.PrimaryKey()) == Some(r)
      ensures forall k :: k != r.PrimaryKey() ==> t.Lookup(k) == Lookup(k)
      ensures Valid() ==> t.Valid()
      ensures !Has(r.PrimaryKey()) ==> t.Size() == Size() + 1
    {
      match r
      case DepartmentRow(d) => this.(departments := departments[d.id := d])
      case JobRow(j) => this.(jobs := jobs[j.id := j])
      case EmployeeRow(e) => this.(employees := employees[e.id := e])
    }
  }

  const Empty := Tables(map[], map[], map[])

  /** The primary keys of a sequence of rows. */
  function KeysOf(rows: seq<Row>): set<Key> {
    set i | 0 <= i < |rows| :: rows[i].PrimaryKey()
  }

  /**
   * The rows can be committed on top of `t`: none collides with a stored row,
   * and no two of them share a primary key.
   */
  predicate FreshKeys(t: Tables, rows: seq<Row>) {
    && (forall i :: 0 <= i < |rows| ==> !t.Has(rows[i].PrimaryKey()))
    && (forall i, j :: 0 <= i < j < |rows| ==> rows[i].PrimaryKey() != rows[j].PrimaryKey())
  }

  /** The tables after inserting the rows in order. */
  function InsertAll(t: Tables, rows: seq<Row>): (r: Tables)
    ensures t.Valid() ==> r.Valid()
  {
    if rows == [] then t else InsertAll(t, rows[..|rows| - 1]).Insert(rows[|rows| - 1])
  }

  lemma KeysOfSnoc(rows: seq<Row>, r: Row)
    ensures KeysOf(rows + [r]) == KeysOf(rows) + {r.PrimaryKey()}
  {
    var all := rows + [r];
    assert all[|rows|] == r;
    forall key | key in KeysOf(all) ensures key in KeysOf(rows) + {r.PrimaryKey()} {
      var i :| 0 <= i < |all| && all[i].PrimaryKey() == key;
      if i < |rows| { assert all[i] == rows[i]; }
    }
    forall key | key in KeysOf(rows) ensures key in KeysOf(all) {
      var i :| 0 <= i < |rows| && rows[i].PrimaryKey() == key;
      assert all[i] == rows[i];
    }
  }

  /** After the inserts, exactly the stored keys and the inserted keys are present. */
  lemma {:induction false} InsertAllHas(t: Tables, rows: seq<Row>, k: Key)
    ensures InsertAll(t, rows).Has(k) <==> t.Has(k) || k in KeysOf(rows)
  {
    if rows != [] {
      var init, last := rows[..|rows| - 1], rows[|rows| - 1];
      InsertAllHas(t, init, k);
      assert init + [last] == rows;
      KeysOfSnoc(init, last);
      assert InsertAll(t, init).Insert(last).Has(k) == InsertAll(t, init).Lookup(k).Some? || k == last.PrimaryKey();
    }
  }

  /** One more row keeps the keys fresh exactly when its key is not yet taken. */
  lemma FreshKeysSnoc(t: Tables, rows: seq<Row>, r: Row)
    ensures FreshKeys(t, rows + [r]) <==> FreshKeys(t, rows) && !InsertAll(t, rows).Has(r.PrimaryKey())
  {
    var all := rows + [r];
    InsertAllHas(t, rows, r.PrimaryKey());
    assert forall i :: 0 <= i < |rows| ==> all[i] == rows[i];
    if FreshKeys(t, all) {
      assert all[|rows|] == r;
      assert forall i :: 0 <= i < |rows| ==> rows[i].PrimaryKey() != r.PrimaryKey();
    }
    if FreshKeys(t, rows) && !InsertAll(t, rows).Has(r.PrimaryKey()) {
      assert forall i :: 0 <= i < |rows| ==> rows[i].PrimaryKey() in KeysOf(rows);
    }
  }

  /**
   * Committing fresh rows files each of them under its key and leaves every
   * other key as it was.
   */
  lemma {:induction false} InsertAllContents(t: Tables, rows: seq<Row>)
    requires FreshKeys(t, rows)
    ensures forall i :: 0 <= i < |rows| ==> InsertAll(t, rows).Lookup(rows[i].PrimaryKey()) == Some(rows[i])
    ensures forall k :: k !in KeysOf(rows) ==> InsertAll(t, rows).Lookup(k) == t.Lookup(k)
  {
    if rows != [] {
      var init, last := rows[..|rows| - 1], rows[|rows| - 1];
      assert init + [last] == rows;
      FreshKeysSnoc(t, init, last);
      KeysOfSnoc(init, last);
      InsertAllContents(t, init);
      forall i | 0 <= i < |rows|
        ensures InsertAll(t, rows).Lookup(rows[i].PrimaryKey()) == Some(rows[i])
      {
        if i < |rows| - 1 {
          assert init[i] == rows[i];
          assert rows[i].PrimaryKey() != last.PrimaryKey();
        }
      }
    }
  }

  /** Committing fresh rows adds exactly one stored row per committed row. */
  lemma {:induction false} InsertAllSize(t: Tables, rows: seq<Row>)
    requires FreshKeys(t, rows)
    ensures InsertAll(t, rows).Size() == t.Size() + |rows|
  {
    if rows != [] {
      var init, last := rows[..|rows| - 1], rows[|rows| - 1];
      assert init + [last] == rows;
      FreshKeysSnoc(t, init, last);
      InsertAllSize(t, init);
    }
  }

  /** Fresh rows stay fresh when only a prefix of them is committed. */
  lemma FreshKeysPrefix(t: Tables, rows: seq<Row>, n: nat)
    requires n <= |rows|
    ensures FreshKeys(t, rows) ==> FreshKeys(t, rows[..n])
  {
  }

  /**
   * No foreign keys: an employee whose department and job are not stored can
   * still be committed, as long as its own id is free.
   */
  lemma OrphanEmployeeStorable(t: Tables, e: Employee)
    requires e.departmentId !in t.departments && e.jobId !in t.jobs
    requires e.id !in t.employees
    ensures FreshKeys(t, [EmployeeRow(e)])
    ensures InsertAll(t, [EmployeeRow(e)]).employees[e.id] == e
  {
    assert [EmployeeRow(e)][..0] == [];
  }

  /**
   * The INSERTs a commit issues, one row at a time, stopping at the first
   * primary-key clash. Succeeds exactly when the rows' keys are fresh, and then
   * yields the tables with all of them inserted.
   */
  method Flush(stored: Tables, rows: seq<Row>) returns (ok: bool, t: Tables)
    ensures ok == FreshKeys(stored, rows)
    ensures ok ==> t == InsertAll(stored, rows)
  {
    t := stored;
    ok := true;
    var i := 0;
    while i < |rows|
      invariant 0 <= i <= |rows|
      invariant FreshKeys(stored, rows[..i])
      invariant t == InsertAll(stored, rows[..i])
    {
      var r := rows[i];
      assert rows[..i] + [r] == rows[..i + 1];
      FreshKeysSnoc(stored, rows[..i], r);
      if t.Has(r.PrimaryKey()) {
        FreshKeysPrefix(stored, rows, i + 1);
        return false, t;
      }
      t := t.Insert(r);
      i := i + 1;
    }
    assert rows[..i] == rows;
  }

  /**
   * A unit of work: rows added with `Add` stay pending until `Commit` flushes
   * them into the committed tables, all of them or none.
   */
  class Session {
    var departments: map<int, Department>
    var jobs: map<int, Job>
    var employees: map<int, Employee>
    var pending: seq<Row>

    function Stored(): Tables
      reads this
    {
      Tables(departments, jobs, employees)
    }

    ghost predicate Valid()
      reads this
    {
      Stored().Valid()
    }

    /** A fresh session over already committed tables. */
    constructor (stored: Tables)
      requires stored.Valid()
      ensures Valid() && Stored() == stored && pending == []
    {
      departments, jobs, employees := stored.departments, stored.jobs, stored.employees;
      pending := [];
    }

    /** `db.add(row)`: the row becomes pending; nothing is committed. */
    method Add(r: Row)
      modifies this
      ensures Stored() == old(Stored())
      ensures pending == old(pending) + [r]
    {
      pending := pending + [r];
    }

    /**
     * `db.commit()`: insert the pending rows one by one inside a transaction;
     * the first primary-key clash rolls the whole transaction back. Either way
     * nothing stays pending.
     */
    method Commit() returns (ok: bool)
      requires Valid()
      modifies this
      ensures Valid()
      ensures ok == FreshKeys(old(Stored()), old(pending))
      ensures Stored() == if ok then InsertAll(old(Stored()), old(pending)) else old(Stored())
      ensures pending == []
    {
      var t;
      ok, t := Flush(Stored(), pending);
      if ok {
        departments, jobs, employees := t.departments, t.jobs, t.employees;
      }
      pending := [];
    }
  }
}
