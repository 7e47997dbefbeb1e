/**
 * The ingestion service. A CSV upload decodes the bytes, splits them into a
 * header-less table, checks its row count (1 to 1000) and then its column
 * count, maps every row by position onto a record, adds each record to the
 * session while counting, and commits once. A structured batch checks the
 * same size bound, adds every record and commits once. Every check fails
 * before the commit, so a failed call never changes the committed tables.
 */
module CsvService {
  import opened Wrappers
  import opened Text
  import opened Database
  import Schemas

  datatype ParseFailure = NotUtf8 | NoData | RaggedLines

  /** The errors the service raises; all but DuplicateKey are its ValueErrors. */
  datatype Error =
    | ParseError(reason: ParseFailure)  // "Error parsing CSV file: ..."
    | BatchSize(received: nat)          // "Batch size must be between 1 and 1000 rows. Received: n"
    | ColumnCount(expected: nat)        // "... CSV must have n columns: ..."
    | NotAnInteger(text: string)        // int() of a field that is no integer
    | DuplicateKey                      // the commit hit a primary-key clash and rolled back

  type Fields = seq<string>

  /** A parsed file: its rows, each the list of its fields. */
  type Table = seq<Fields>

  const MaxRows: nat := 1000

  const DepartmentColumns: nat := 2
  const JobColumns: nat := 2
  const EmployeeColumns: nat := 5

  /** A non-empty table whose rows all have as many fields as the first. */
  predicate Rectangular(table: Table) {
    |table| >= 1 && forall i :: 0 <= i < |table| ==> |table[i]| == |table[0]|
  }

  // ---------------------------------------------------------------------------
  // parse_csv

  /** A line the reader skips: nothing but spaces and tabs (the empty line included). */
  predicate Blank(line: string) {
    forall i :: 0 <= i < |line| ==> line[i] == ' ' || line[i] == '\t'
  }

  /** The lines that hold something: blank lines are skipped. */
  function NonBlank(lines: seq<string>): (r: seq<string>)
    ensures forall i :: 0 <= i < |r| ==> !Blank(r[i])
    ensures (forall i :: 0 <= i < |lines| ==> !Blank(lines[i])) ==> r == lines
  {
    if lines == [] then []
    else if Blank(lines[0]) then NonBlank(lines[1..])
    else [lines[0]] + NonBlank(lines[1..])
  }

  /** One line is kept exactly when it is not blank. */
  lemma NonBlankOne(line: string)
    ensures NonBlank([line]) == if Blank(line) then [] else [line]
  {
    assert [line][1..] == [];
  }

  /** Skipping blank lines keeps the other lines, in their order. */
  lemma {:induction false} NonBlankAppend(a: seq<string>, b: seq<string>)
    ensures NonBlank(a + b) == NonBlank(a) + NonBlank(b)
  {
    if a == [] {
      assert a + b == b;
    } else {
      assert (a + b)[0] == a[0];
      assert (a + b)[1..] == a[1..] + b;
      NonBlankAppend(a[1..], b);
    }
  }

  /**
   * Each line cut into its fields at the commas: one row per line, no field
   * holds a comma, and joining a row's fields with commas gives back its line.
   */
  function FieldsOf(lines: seq<string>): (table: Table)
    ensures |table| == |lines|
    ensures forall i :: 0 <= i < |lines| ==> |table[i]| >= 1 && Join(table[i], ',') == lines[i]
    ensures forall i, j :: 0 <= i < |table| && 0 <= j < |table[i]| ==> ',' !in table[i][j]
  {
    assert forall i :: 0 <= i < |lines| ==> Join(Split(lines[i], ','), ',') == lines[i] by {
      forall i | 0 <= i < |lines| ensures Join(Split(lines[i], ','), ',') == lines[i] {
        JoinSplit(lines[i], ',');
      }
    }
    seq(|lines|, i requires 0 <= i < |lines| => Split(lines[i], ','))
  }

  /** The byte-order mark U+FEFF, which the reader drops from the start of the text. */
  const Bom: char := '\U{FEFF}'

  function DropBom(text: string): string {
    if |text| > 0 && text[0] == Bom then text[1..] else text
  }

  /** The decoded text the reader splits into lines: the file's text without a leading byte-order mark. */
  function TextOf(content: seq<Byte>): Option<string> {
    match DecodeUtf8(content)
    case None => None
    case Some(text) => Some(DropBom(text))
  }

  /**
   * `parse_csv`: decode the bytes as UTF-8 and read them as a header-less
   * table; any failure becomes a parse error.
   */
  function ParseCsv(content: seq<Byte>): (r: Result<Table, Error>)
    ensures r.Ok? ==> Rectangular(r.value)
    ensures r.Err? ==> r.error.ParseError?
    ensures DecodeUtf8(content).None? ==> r == Err(ParseError(NotUtf8))
  {
    match TextOf(content)
    case None => Err(ParseError(NotUtf8))
    case Some(text) =>
      var lines := NonBlank(Split(text, '\n'));
      if lines == [] then Err(ParseError(NoData))
      else
        var table := FieldsOf(lines);
        if Rectangular(table) then Ok(table) else Err(ParseError(RaggedLines))
  }

  /**
   * A parsed table writes back to the file: joining each row's fields with
   * commas gives, in order, exactly the lines of the text that are not blank.
   */
  lemma ParseCsvWritesBack(content: seq<Byte>)
    requires ParseCsv(content).Ok?
    ensures TextOf(content).Some?
    ensures var t := ParseCsv(content).value;
            seq(|t|, i requires 0 <= i < |t| => Join(t[i], ',')) == NonBlank(Split(TextOf(content).value, '\n'))
    ensures var t := ParseCsv(content).value;
            forall i, j :: 0 <= i < |t| && 0 <= j < |t[i]| ==> ',' !in t[i][j]
  {
    var t := ParseCsv(content).value;
    var lines := NonBlank(Split(TextOf(content).value, '\n'));
    assert t == FieldsOf(lines);
    forall i | 0 <= i < |t|
      ensures Join(t[i], ',') == lines[i]
    {
      JoinSplit(lines[i], ',');
    }
  }

  /**
   * The converse: a file whose non-blank lines are the comma-joins of a
   * rectangular table of comma-free fields parses to exactly that table,
   * so files with blank or trailing empty lines are accepted.
   */
  lemma ParseCsvReads(content: seq<Byte>, t: Table)
    requires TextOf(content).Some?
    requires Rectangular(t) && |t[0]| >= 1
    requires forall i, j :: 0 <= i < |t| && 0 <= j < |t[i]| ==> ',' !in t[i][j]
    requires seq(|t|, i requires 0 <= i < |t| => Join(t[i], ',')) == NonBlank(Split(TextOf(content).value, '\n'))
    ensures ParseCsv(content) == Ok(t)
  {
    var lines := NonBlank(Split(TextOf(content).value, '\n'));
    forall i | 0 <= i < |t|
      ensures Split(lines[i], ',') == t[i]
    {
      assert lines[i] == Join(t[i], ',');
      SplitJoin(t[i], ',');
    }
    assert FieldsOf(lines) == t;
  }

  /** A leading byte-order mark, as spreadsheet exports write it, does not change the table. */
  lemma ParseCsvIgnoresBom(text: string)
    requires text == [] || text[0] != Bom
    ensures ParseCsv(EncodeUtf8([Bom] + text)) == ParseCsv(EncodeUtf8(text))
  {
    DecodeEncodeUtf8([Bom] + text);
    DecodeEncodeUtf8(text);
    assert ([Bom] + text)[1..] == text;
  }

  /** The three bytes 80 81 82 are no UTF-8, so they are a parse error. */
  lemma InvalidUtf8IsParseError()
    ensures ParseCsv([0x80, 0x81, 0x82]) == Err(ParseError(NotUtf8))
  {
    StrayContinuationRejected([0x80, 0x81, 0x82]);
  }

  /** An empty upload has no data to parse. */
  lemma EmptyContentIsParseError()
    ensures ParseCsv([]) == Err(ParseError(NoData))
  {
    assert Split([], '\n') == [[]];
  }

  // ---------------------------------------------------------------------------
  // validate_batch_size

  /** `validate_batch_size`: raises exactly when the row count is below 1 or above 1000. */
  function ValidateBatchSize(rows: nat): (r: Outcome<Error>)
    ensures r.Pass? <==> 1 <= rows <= MaxRows
    ensures r.Fail? ==> r.error == BatchSize(rows)
  {
    if rows < 1 || rows > MaxRows then Fail(BatchSize(rows)) else Pass
  }

  /** The service's own size check agrees with the request-shape validator. */
  lemma SizeChecksAgree<T>(v: seq<T>)
    ensures ValidateBatchSize(|v|).Pass? <==> Schemas.ValidateBatchSize(v).Ok?
  {
  }

  // ---------------------------------------------------------------------------
  // Mapping a row onto a record

  /** `Department(id=int(row[0]), department=str(row[1]))`. */
  function DepartmentOf(fields: Fields): (r: Result<Department, Error>)
    requires |fields| == DepartmentColumns
    ensures r.Ok? <==> IsIntegerLiteral(fields[0])
    ensures r.Err? ==> r.error == NotAnInteger(fields[0])
    ensures r.Ok? ==> ParseInt(fields[0]) == Some(r.value.id) && r.value.department == fields[1]
  {
    match ParseInt(fields[0])
    case None => Err(NotAnInteger(fields[0]))
    case Some(id) => Ok(Department(id, fields[1]))
  }

  /** `Job(id=int(row[0]), job=str(row[1]))`. */
  function JobOf(fields: Fields): (r: Result<Job, Error>)
    requires |fields| == JobColumns
    ensures r.Ok? <==> IsIntegerLiteral(fields[0])
    ensures r.Err? ==> r.error == NotAnInteger(fields[0])
    ensures r.Ok? ==> ParseInt(fields[0]) == Some(r.value.id) && r.value.job == fields[1]
  {
    match ParseInt(fields[0])
    case None => Err(NotAnInteger(fields[0]))
    case Some(id) => Ok(Job(id, fields[1]))
  }

  /**
   * `Employee(id=int(row[0]), name=str(row[1]), datetime=str(row[2]),
   * department_id=int(row[3]), job_id=int(row[4]))`: the integer fields are
   * converted in that order; name and datetime are taken as they are, with no
   * check of the date format.
   */
  function EmployeeOf(fields: Fields): (r: Result<Employee, Error>)
    requires |fields| == EmployeeColumns
    ensures r.Ok? <==> IsIntegerLiteral(fields[0]) && IsIntegerLiteral(fields[3]) && IsIntegerLiteral(fields[4])
    ensures r.Err? ==> r.error == NotAnInteger(
              if !IsIntegerLiteral(fields[0]) then fields[0]
              else if !IsIntegerLiteral(fields[3]) then fields[3]
              else fields[4])
    ensures r.Ok? ==>
              && ParseInt(fields[0]) == Some(r.value.id)
              && r.value.name == fields[1]
              && r.value.datetime == fields[2]
              && ParseInt(fields[3]) == Some(r.value.departmentId)
              && ParseInt(fields[4]) == Some(r.value.jobId)
  {
    match (ParseInt(fields[0]), ParseInt(fields[3]), ParseInt(fields[4]))
    case (None, _, _) => Err(NotAnInteger(fields[0]))
    case (Some(_), None, _) => Err(NotAnInteger(fields[3]))
    case (Some(_), Some(_), None) => Err(NotAnInteger(fields[4]))
    case (Some(id), Some(departmentId), Some(jobId)) =>
      Ok(Employee(id, fields[1], fields[2], departmentId, jobId))
  }

  /**
   * The records of the longest prefix of rows that all convert: the rows the
   * upload loop gets through before a conversion raises.
   */
  function Coerced<R>(rows: Table, coerce: Fields --> Result<R, Error>): (done: seq<R>)
    requires forall i :: 0 <= i < |rows| ==> coerce.requires(rows[i])
    ensures |done| <= |rows|
    ensures forall i :: 0 <= i < |done| ==> coerce(rows[i]) == Ok(done[i])
    ensures |done| < |rows| ==> coerce(rows[|done|]).Err?
    decreases |rows|
  {
    if rows == [] then []
    else
      match coerce(rows[0])
      case Err(_) => []
      case Ok(x) => [x] + Coerced(rows[1..], coerce)
  }

  /** The longest converting prefix is determined by the rows. */
  lemma CoercedUnique<R>(rows: Table, coerce: Fields --> Result<R, Error>, done: seq<R>)
    requires forall i :: 0 <= i < |rows| ==> coerce.requires(rows[i])
    requires |done| <= |rows|
    requires forall i :: 0 <= i < |done| ==> coerce(rows[i]) == Ok(done[i])
    requires |done| < |rows| ==> coerce(rows[|done|]).Err?
    ensures Coerced(rows, coerce) == done
  {
  }

  /** Every row converted, or the error of the first row that did not. */
  function CoerceAll<R>(rows: Table, coerce: Fields --> Result<R, Error>): (r: Result<seq<R>, Error>)
    requires forall i :: 0 <= i < |rows| ==> coerce.requires(rows[i])
    ensures r.Ok? <==> forall i :: 0 <= i < |rows| ==> coerce(rows[i]).Ok?
    ensures r.Ok? ==> |r.value| == |rows| && forall i :: 0 <= i < |rows| ==> coerce(rows[i]) == Ok(r.value[i])
    ensures r.Err? ==>
              exists i :: 0 <= i < |rows| && coerce(rows[i]) == Err(r.error)
                          && forall j :: 0 <= j < i ==> coerce(rows[j]).Ok?
  {
    var done := Coerced(rows, coerce);
    if |done| == |rows| then Ok(done)
    else
      assert forall j :: 0 <= j < |done| ==> coerce(rows[j]).Ok?;
      Err(coerce(rows[|done|]).error)
  }

  // ---------------------------------------------------------------------------
  // What an upload or a batch adds and commits

  function DepartmentRows(ds: seq<Department>): (rows: seq<Row>)
    ensures |rows| == |ds| && forall i :: 0 <= i < |ds| ==> rows[i] == DepartmentRow(ds[i])
  {
    seq(|ds|, i requires 0 <= i < |ds| => DepartmentRow(ds[i]))
  }

  function JobRows(js: seq<Job>): (rows: seq<Row>)
    ensures |rows| == |js| && forall i :: 0 <= i < |js| ==> rows[i] == JobRow(js[i])
  {
    seq(|js|, i requires 0 <= i < |js| => JobRow(js[i]))
  }

  function EmployeeRows(es: seq<Employee>): (rows: seq<Row>)
    ensures |rows| == |es| && forall i :: 0 <= i < |es| ==> rows[i] == EmployeeRow(es[i])
  {
    seq(|es|, i requires 0 <= i < |es| => EmployeeRow(es[i]))
  }

  /**
   * The outcome of the single commit at the end of a call: the count and the
   * tables with the batch inserted, or a rollback that leaves them as they were.
   */
  predicate CommitOutcome(before: Tables, batch: seq<Row>, count: nat, r: Result<nat, Error>, after: Tables) {
    if FreshKeys(before, batch) then r == Ok(count) && after == InsertAll(before, batch)
    else r == Err(DuplicateKey) && after == before
  }

  /** The table an upload reaches its column check with, if it gets that far. */
  function CheckedTable(content: seq<Byte>): (r: Result<Table, Error>)
    ensures r.Ok? ==> ParseCsv(content) == r && Rectangular(r.value) && 1 <= |r.value| <= MaxRows
  {
    match ParseCsv(content)
    case Err(e) => Err(e)
    case Ok(table) =>
      match ValidateBatchSize(|table|)
      case Fail(e) => Err(e)
      case Pass => Ok(table)
  }

  /** The departments a CSV upload commits, or the error it raises before committing. */
  function DepartmentsFromCsv(content: seq<Byte>): (r: Result<seq<Department>, Error>)
    ensures r.Ok? ==> 1 <= |r.value| <= MaxRows
    ensures r.Err? ==> !r.error.DuplicateKey?
  {
    match CheckedTable(content)
    case Err(e) => Err(e)
    case Ok(table) =>
      if |table[0]| != DepartmentColumns then Err(ColumnCount(DepartmentColumns))
      else CoerceAll(table, DepartmentOf)
  }

  /** The departments an upload adds to the session before it commits or raises. */
  function DepartmentsAdded(content: seq<Byte>): (added: seq<Department>)
    ensures |added| <= MaxRows
    ensures DepartmentsFromCsv(content).Ok? ==> added == DepartmentsFromCsv(content).value
  {
    match CheckedTable(content)
    case Err(_) => []
    case Ok(table) => if |table[0]| != DepartmentColumns then [] else Coerced(table, DepartmentOf)
  }

  /** The jobs a CSV upload commits, or the error it raises before committing. */
  function JobsFromCsv(content: seq<Byte>): (r: Result<seq<Job>, Error>)
    ensures r.Ok? ==> 1 <= |r.value| <= MaxRows
    ensures r.Err? ==> !r.error.DuplicateKey?
  {
    match CheckedTable(content)
    case Err(e) => Err(e)
    case Ok(table) =>
      if |table[0]| != JobColumns then Err(ColumnCount(JobColumns))
      else CoerceAll(table, JobOf)
  }

  /** The jobs an upload adds to the session before it commits or raises. */
  function JobsAdded(content: seq<Byte>): (added: seq<Job>)
    ensures |added| <= MaxRows
    ensures JobsFromCsv(content).Ok? ==> added == JobsFromCsv(content).value
  {
    match CheckedTable(content)
    case Err(_) => []
    case Ok(table) => if |table[0]| != JobColumns then [] else Coerced(table, JobOf)
  }

  /** The employees a CSV upload commits, or the error it raises before committing. */
  function EmployeesFromCsv(content: seq<Byte>): (r: Result<seq<Employee>, Error>)
    ensures r.Ok? ==> 1 <= |r.value| <= MaxRows
    ensures r.Err? ==> !r.error.DuplicateKey?
  {
    match CheckedTable(content)
    case Err(e) => Err(e)
    case Ok(table) =>
      if |table[0]| != EmployeeColumns then Err(ColumnCount(EmployeeColumns))
      else CoerceAll(table, EmployeeOf)
  }

  /** The employees an upload adds to the session before it commits or raises. */
  function EmployeesAdded(content: seq<Byte>): (added: seq<Employee>)
    ensures |added| <= MaxRows
    ensures EmployeesFromCsv(content).Ok? ==> added == EmployeesFromCsv(content).value
  {
    match CheckedTable(content)
    case Err(_) => []
    case Ok(table) => if |table[0]| != EmployeeColumns then [] else Coerced(table, EmployeeOf)
  }

  /**
   * The size check comes before the column check: a file with more than 1000
   * rows is refused for its size whatever its column count.
   */
  lemma SizeCheckedBeforeColumns(content: seq<Byte>)
    requires ParseCsv(content).Ok? && |ParseCsv(content).value| > MaxRows
    ensures DepartmentsFromCsv(content) == Err(BatchSize(|ParseCsv(content).value|))
    ensures JobsFromCsv(content) == Err(BatchSize(|ParseCsv(content).value|))
    ensures EmployeesFromCsv(content) == Err(BatchSize(|ParseCsv(content).value|))
  {
  }

  /** A well-formed table with the wrong number of columns is refused for that. */
  lemma WrongColumnCountRefused(content: seq<Byte>)
    requires ParseCsv(content).Ok? && 1 <= |ParseCsv(content).value| <= MaxRows
    ensures |ParseCsv(content).value[0]| != DepartmentColumns ==> DepartmentsFromCsv(content) == Err(ColumnCount(2))
    ensures |ParseCsv(content).value[0]| != JobColumns ==> JobsFromCsv(content) == Err(ColumnCount(2))
    ensures |ParseCsv(content).value[0]| != EmployeeColumns ==> EmployeesFromCsv(content) == Err(ColumnCount(5))
  {
  }

  /**
   * A department upload gets to its commit exactly when the file parses, holds
   * 1 to 1000 rows of 2 columns, and every first column is an integer; it then
   * commits one department per row, mapped by position.
   */
  lemma DepartmentsFromCsvSpec(content: seq<Byte>)
    ensures DepartmentsFromCsv(content).Ok? <==>
              && ParseCsv(content).Ok?
              && var table := ParseCsv(content).value;
                 && 1 <= |table| <= MaxRows && |table[0]| == DepartmentColumns
                 && forall i :: 0 <= i < |table| ==> IsIntegerLiteral(table[i][0])
    ensures DepartmentsFromCsv(content).Ok? ==>
              var table, ds := ParseCsv(content).value, DepartmentsFromCsv(content).value;
              && |ds| == |table|
              && forall i :: 0 <= i < |table| ==>
                   ParseInt(table[i][0]) == Some(ds[i].id) && ds[i].department == table[i][1]
    ensures DepartmentsFromCsv(content).Err? ==>
              var e := DepartmentsFromCsv(content).error;
              e.ParseError? || e.BatchSize? || e == ColumnCount(DepartmentColumns) || e.NotAnInteger?
  {
    if ParseCsv(content).Ok? {
      var table := ParseCsv(content).value;
      if 1 <= |table| <= MaxRows && |table[0]| == DepartmentColumns {
        assert DepartmentsFromCsv(content) == CoerceAll(table, DepartmentOf);
      }
    }
  }

  /**
   * A job upload gets to its commit exactly when the file parses, holds 1 to
   * 1000 rows of 2 columns, and every first column is an integer; it then
   * commits one job per row, mapped by position.
   */
  lemma JobsFromCsvSpec(content: seq<Byte>)
    ensures JobsFromCsv(content).Ok? <==>
              && ParseCsv(content).Ok?
              && var table := ParseCsv(content).value;
                 && 1 <= |table| <= MaxRows && |table[0]| == JobColumns
                 && forall i :: 0 <= i < |table| ==> IsIntegerLiteral(table[i][0])
    ensures JobsFromCsv(content).Ok? ==>
              var table, js := ParseCsv(content).value, JobsFromCsv(content).value;
              && |js| == |table|
              && forall i :: 0 <= i < |table| ==>
                   ParseInt(table[i][0]) == Some(js[i].id) && js[i].job == table[i][1]
    ensures JobsFromCsv(content).Err? ==>
              var e := JobsFromCsv(content).error;
              e.ParseError? || e.BatchSize? || e == ColumnCount(JobColumns) || e.NotAnInteger?
  {
    if ParseCsv(content).Ok? {
      var table := ParseCsv(content).value;
      if 1 <= |table| <= MaxRows && |table[0]| == JobColumns {
        assert JobsFromCsv(content) == CoerceAll(table, JobOf);
      }
    }
  }

  /**
   * An employee upload gets to its commit exactly when the file parses, holds
   * 1 to 1000 rows of 5 columns, and the id, department_id and job_id columns
   * are integers in every row; it then commits one employee per row, mapped by
   * position, with name and datetime taken verbatim.
   */
  lemma EmployeesFromCsvSpec(content: seq<Byte>)
    ensures EmployeesFromCsv(content).Ok? <==>
              && ParseCsv(content).Ok?
              && var table := ParseCsv(content).value;
                 && 1 <= |table| <= MaxRows && |table[0]| == EmployeeColumns
                 && forall i :: 0 <= i < |table| ==>
                      IsIntegerLiteral(table[i][0]) && IsIntegerLiteral(table[i][3]) && IsIntegerLiteral(table[i][4])
    ensures EmployeesFromCsv(content).Ok? ==>
              var table, es := ParseCsv(content).value, EmployeesFromCsv(content).value;
              && |es| == |table|
              && forall i :: 0 <= i < |table| ==>
                   && ParseInt(table[i][0]) == Some(es[i].id)
                   && es[i].name == table[i][1]
                   && es[i].datetime == table[i][2]
                   && ParseInt(table[i][3]) == Some(es[i].departmentId)
                   && ParseInt(table[i][4]) == Some(es[i].jobId)
    ensures EmployeesFromCsv(content).Err? ==>
              var e := EmployeesFromCsv(content).error;
              e.ParseError? || e.BatchSize? || e == ColumnCount(EmployeeColumns) || e.NotAnInteger?
  {
    if ParseCsv(content).Ok? {
      var table := ParseCsv(content).value;
      if 1 <= |table| <= MaxRows && |table[0]| == EmployeeColumns {
        assert EmployeesFromCsv(content) == CoerceAll(table, EmployeeOf);
      }
    }
  }

  /** The record a structured department entry becomes: `Department(**dept)`. */
  function AsDepartment(s: Schemas.DepartmentSchema): Department {
    Department(s.id, s.department)
  }

  function AsJob(s: Schemas.JobSchema): Job {
    Job(s.id, s.job)
  }

  function AsEmployee(s: Schemas.EmployeeSchema): Employee {
    Employee(s.id, s.name, s.datetime, s.departmentId, s.jobId)
  }

  /** The departments a structured batch commits, or its size error. */
  function DepartmentsFromBatch(batch: seq<Schemas.DepartmentSchema>): (r: Result<seq<Department>, Error>)
    ensures r.Ok? <==> 1 <= |batch| <= MaxRows
    ensures r.Err? ==> r.error == BatchSize(|batch|)
    ensures r.Ok? ==> |r.value| == |batch| && forall i :: 0 <= i < |batch| ==> r.value[i] == AsDepartment(batch[i])
  {
    if !(1 <= |batch| <= MaxRows) then Err(BatchSize(|batch|))
    else Ok(seq(|batch|, i requires 0 <= i < |batch| => AsDepartment(batch[i])))
  }

  /** The jobs a structured batch commits, or its size error. */
  function JobsFromBatch(batch: seq<Schemas.JobSchema>): (r: Result<seq<Job>, Error>)
    ensures r.Ok? <==> 1 <= |batch| <= MaxRows
    ensures r.Err? ==> r.error == BatchSize(|batch|)
    ensures r.Ok? ==> |r.value| == |batch| && forall i :: 0 <= i < |batch| ==> r.value[i] == AsJob(batch[i])
  {
    if !(1 <= |batch| <= MaxRows) then Err(BatchSize(|batch|))
    else Ok(seq(|batch|, i requires 0 <= i < |batch| => AsJob(batch[i])))
  }

  /** The employees a structured batch commits, or its size error. */
  function EmployeesFromBatch(batch: seq<Schemas.EmployeeSchema>): (r: Result<seq<Employee>, Error>)
    ensures r.Ok? <==> 1 <= |batch| <= MaxRows
    ensures r.Err? ==> r.error == BatchSize(|batch|)
    ensures r.Ok? ==> |r.value| == |batch| && forall i :: 0 <= i < |batch| ==> r.value[i] == AsEmployee(batch[i])
  {
    if !(1 <= |batch| <= MaxRows) then Err(BatchSize(|batch|))
    else Ok(seq(|batch|, i requires 0 <= i < |batch| => AsEmployee(batch[i])))
  }

  // ---------------------------------------------------------------------------
  // The service operations

  /**
   * The loop of `upload_departments_csv`: map each row onto a department, add it to the
   * session and count it. A row whose conversion raises stops the loop, with
   * the rows before it already added.
   */
  method AddDepartmentRows(table: Table, db: Session) returns (r: Result<nat, Error>)
    requires forall i :: 0 <= i < |table| ==> |table[i]| == DepartmentColumns
    modifies db
    ensures db.Stored() == old(db.Stored())
    ensures db.pending == old(db.pending) + DepartmentRows(Coerced(table, DepartmentOf))
    ensures r == if CoerceAll(table, DepartmentOf).Ok? then Ok(|table|) else Err(CoerceAll(table, DepartmentOf).error)
  {
    var rowsInserted: nat := 0;
    ghost var added: seq<Department> := [];
    while rowsInserted < |table|
      invariant rowsInserted <= |table| && |added| == rowsInserted
      invariant forall j :: 0 <= j < rowsInserted ==> DepartmentOf(table[j]) == Ok(added[j])
      invariant db.Stored() == old(db.Stored())
      invariant db.pending == old(db.pending) + DepartmentRows(added)
    {
      var department := DepartmentOf(table[rowsInserted]);
      if department.Err? {
        CoercedUnique(table, DepartmentOf, added);
        return Err(department.error);
      }
      db.Add(DepartmentRow(department.value));
      assert DepartmentRows(added + [department.value]) == DepartmentRows(added) + [DepartmentRow(department.value)];
      added := added + [department.value];
      rowsInserted := rowsInserted + 1;
    }
    CoercedUnique(table, DepartmentOf, added);
    return Ok(rowsInserted);
  }

  /** `upload_departments_csv`. */
  method UploadDepartmentsCsv(content: seq<Byte>, db: Session) returns (r: Result<nat, Error>)
    requires db.Valid()
    modifies db
    ensures db.Valid()
    ensures match DepartmentsFromCsv(content)
            case Err(e) =>
              && r == Err(e) && db.Stored() == old(db.Stored())
              && db.pending == old(db.pending) + DepartmentRows(DepartmentsAdded(content))
            case Ok(ds) =>
              && CommitOutcome(old(db.Stored()), old(db.pending) + DepartmentRows(ds), |ds|, r, db.Stored())
              && db.pending == []
  {
    var parsed := ParseCsv(content);
    if parsed.Err? {
      return Err(parsed.error);
    }
    var table := parsed.value;
    var sizeCheck := ValidateBatchSize(|table|);
    if sizeCheck.Fail? {
      return Err(sizeCheck.error);
    }
    if |table[0]| != DepartmentColumns {
      return Err(ColumnCount(DepartmentColumns));
    }
    var added := AddDepartmentRows(table, db);
    if added.Err? {
      return Err(added.error);
    }
    var ok := db.Commit();
    r := if ok then Ok(added.value) else Err(DuplicateKey);
  }

  /**
   * The loop of `upload_jobs_csv`: map each row onto a job, add it to the
   * session and count it. A row whose conversion raises stops the loop, with
   * the rows before it already added.
   */
  method AddJobRows(table: Table, db: Session) returns (r: Result<nat, Error>)
    requires forall i :: 0 <= i < |table| ==> |table[i]| == JobColumns
    modifies db
    ensures db.Stored() == old(db.Stored())
    ensures db.pending == old(db.pending) + JobRows(Coerced(table, JobOf))
    ensures r == if CoerceAll(table, JobOf).Ok? then Ok(|table|) else Err(CoerceAll(table, JobOf).error)
  {
    var rowsInserted: nat := 0;
    ghost var added: seq<Job> := [];
    while rowsInserted < |table|
      invariant rowsInserted <= |table| && |added| == rowsInserted
      invariant forall j :: 0 <= j < rowsInserted ==> JobOf(table[j]) == Ok(added[j])
      invariant db.Stored() == old(db.Stored())
      invariant db.pending == old(db.pending) + JobRows(added)
    {
      var job := JobOf(table[rowsInserted]);
      if job.Err? {
        CoercedUnique(table, JobOf, added);
        return Err(job.error);
      }
      db.Add(JobRow(job.value));
      assert JobRows(added + [job.value]) == JobRows(added) + [JobRow(job.value)];
      added := added + [job.value];
      rowsInserted := rowsInserted + 1;
    }
    CoercedUnique(table, JobOf, added);
    return Ok(rowsInserted);
  }

  /** `upload_jobs_csv`. */
  method UploadJobsCsv(content: seq<Byte>, db: Session) returns (r: Result<nat, Error>)
    requires db.Valid()
    modifies db
    ensures db.Valid()
    ensures match JobsFromCsv(content)
            case Err(e) =>
              && r == Err(e) && db.Stored() == old(db.Stored())
              && db.pending == old(db.pending) + JobRows(JobsAdded(content))
            case Ok(js) =>
              && CommitOutcome(old(db.Stored()), old(db.pending) + JobRows(js), |js|, r, db.Stored())
              && db.pending == []
  {
    var parsed := ParseCsv(content);
    if parsed.Err? {
      return Err(parsed.error);
    }
    var table := parsed.value;
    var sizeCheck := ValidateBatchSize(|table|);
    if sizeCheck.Fail? {
      return Err(sizeCheck.error);
    }
    if |table[0]| != JobColumns {
      return Err(ColumnCount(JobColumns));
    }
    var added := AddJobRows(table, db);
    if added.Err? {
      return Err(added.error);
    }
    var ok := db.Commit();
    r := if ok then Ok(added.value) else Err(DuplicateKey);
  }

  /**
   * The loop of `upload_employees_csv`: map each row onto an employee, add it to the
   * session and count it. A row whose conversion raises stops the loop, with
   * the rows before it already added.
   */
  method AddEmployeeRows(table: Table, db: Session) returns (r: Result<nat, Error>)
    requires forall i :: 0 <= i < |table| ==> |table[i]| == EmployeeColumns
    modifies db
    ensures db.Stored() == old(db.Stored())
    ensures db.pending == old(db.pending) + EmployeeRows(Coerced(table, EmployeeOf))
    ensures r == if CoerceAll(table, EmployeeOf).Ok? then Ok(|table|) else Err(CoerceAll(table, EmployeeOf).error)
  {
    var rowsInserted: nat := 0;
    ghost var added: seq<Employee> := [];
    while rowsInserted < |table|
      invariant rowsInserted <= |table| && |added| == rowsInserted
      invariant forall j :: 0 <= j < rowsInserted ==> EmployeeOf(table[j]) == Ok(added[j])
      invariant db.Stored() == old(db.Stored())
      invariant db.pending == old(db.pending) + EmployeeRows(added)
    {
      var employee := EmployeeOf(table[rowsInserted]);
      if employee.Err? {
        CoercedUnique(table, EmployeeOf, added);
        return Err(employee.error);
      }
      db.Add(EmployeeRow(employee.value));
      assert EmployeeRows(added + [employee.value]) == EmployeeRows(added) + [EmployeeRow(employee.value)];
      added := added + [employee.value];
      rowsInserted := rowsInserted + 1;
    }
    CoercedUnique(table, EmployeeOf, added);
    return Ok(rowsInserted);
  }

  /** `upload_employees_csv`. */
  method UploadEmployeesCsv(content: seq<Byte>, db: Session) returns (r: Result<nat, Error>)
    requires db.Valid()
    modifies db
    ensures db.Valid()
    ensures match EmployeesFromCsv(content)
            case Err(e) =>
              && r == Err(e) && db.Stored() == old(db.Stored())
              && db.pending == old(db.pending) + EmployeeRows(EmployeesAdded(content))
            case Ok(es) =>
              && CommitOutcome(old(db.Stored()), old(db.pending) + EmployeeRows(es), |es|, r, db.Stored())
              && db.pending == []
  {
    var parsed := ParseCsv(content);
    if parsed.Err? {
      return Err(parsed.error);
    }
    var table := parsed.value;
    var sizeCheck := ValidateBatchSize(|table|);
    if sizeCheck.Fail? {
      return Err(sizeCheck.error);
    }
    if |table[0]| != EmployeeColumns {
      return Err(ColumnCount(EmployeeColumns));
    }
    var added := AddEmployeeRows(table, db);
    if added.Err? {
      return Err(added.error);
    }
    var ok := db.Commit();
    r := if ok then Ok(added.value) else Err(DuplicateKey);
  }

  /** `batch_insert_departments`. */
  method BatchInsertDepartments(departments: seq<Schemas.DepartmentSchema>, db: Session) returns (r: Result<nat, Error>)
    requires db.Valid()
    modifies db
    ensures db.Valid()
    ensures match DepartmentsFromBatch(departments)
            case Err(e) => r == Err(e) && db.Stored() == old(db.Stored()) && db.pending == old(db.pending)
            case Ok(ds) =>
              && CommitOutcome(old(db.Stored()), old(db.pending) + DepartmentRows(ds), |departments|, r, db.Stored())
              && db.pending == []
  {
    if !(1 <= |departments| <= MaxRows) {
      return Err(BatchSize(|departments|));
    }
    ghost var added: seq<Department> := [];
    for i := 0 to |departments|
      invariant |added| == i && forall j :: 0 <= j < i ==> added[j] == AsDepartment(departments[j])
      invariant db.Valid() && db.Stored() == old(db.Stored())
      invariant db.pending == old(db.pending) + DepartmentRows(added)
    {
      var department := AsDepartment(departments[i]);
      db.Add(DepartmentRow(department));
      assert DepartmentRows(added + [department]) == DepartmentRows(added) + [DepartmentRow(department)];
      added := added + [department];
    }
    assert added == DepartmentsFromBatch(departments).value;
    var ok := db.Commit();
    r := if ok then Ok(|departments|) else Err(DuplicateKey);
  }

  /** `batch_insert_jobs`. */
  method BatchInsertJobs(jobs: seq<Schemas.JobSchema>, db: Session) returns (r: Result<nat, Error>)
    requires db.Valid()
    modifies db
    ensures db.Valid()
    ensures match JobsFromBatch(jobs)
            case Err(e) => r == Err(e) && db.Stored() == old(db.Stored()) && db.pending == old(db.pending)
            case Ok(js) =>
              && CommitOutcome(old(db.Stored()), old(db.pending) + JobRows(js), |jobs|, r, db.Stored())
              && db.pending == []
  {
    if !(1 <= |jobs| <= MaxRows) {
      return Err(BatchSize(|jobs|));
    }
    ghost var added: seq<Job> := [];
    for i := 0 to |jobs|
      invariant |added| == i && forall j :: 0 <= j < i ==> added[j] == AsJob(jobs[j])
      invariant db.Valid() && db.Stored() == old(db.Stored())
      invariant db.pending == old(db.pending) + JobRows(added)
    {
      var job := AsJob(jobs[i]);
      db.Add(JobRow(job));
      assert JobRows(added + [job]) == JobRows(added) + [JobRow(job)];
      added := added + [job];
    }
    assert added == JobsFromBatch(jobs).value;
    var ok := db.Commit();
    r := if ok then Ok(|jobs|) else Err(DuplicateKey);
  }

  /** `batch_insert_employees`. */
  method BatchInsertEmployees(employees: seq<Schemas.EmployeeSchema>, db: Session) returns (r: Result<nat, Error>)
    requires db.Valid()
    modifies db
    ensures db.Valid()
    ensures match EmployeesFromBatch(employees)
            case Err(e) => r == Err(e) && db.Stored() == old(db.Stored()) && db.pending == old(db.pending)
            case Ok(es) =>
              && CommitOutcome(old(db.Stored()), old(db.pending) + EmployeeRows(es), |employees|, r, db.Stored())
              && db.pending == []
  {
    if !(1 <= |employees| <= MaxRows) {
      return Err(BatchSize(|employees|));
    }
    ghost var added: seq<Employee> := [];
    for i := 0 to |employees|
      invariant |added| == i && forall j :: 0 <= j < i ==> added[j] == AsEmployee(employees[j])
      invariant db.Valid() && db.Stored() == old(db.Stored())
      invariant db.pending == old(db.pending) + EmployeeRows(added)
    {
      var employee := AsEmployee(employees[i]);
      db.Add(EmployeeRow(employee));
      assert EmployeeRows(added + [employee]) == EmployeeRows(added) + [EmployeeRow(employee)];
      added := added + [employee];
    }
    assert added == EmployeesFromBatch(employees).value;
    var ok := db.Commit();
    r := if ok then Ok(|employees|) else Err(DuplicateKey);
  }
}
