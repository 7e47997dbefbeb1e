/**
 * Uploading a CSV file and posting a structured batch with the same values
 * lead to the same records, as far as the upload reads every field as the text
 * written in the file: the file that writes each record as one line of
 * comma-separated fields is parsed back into exactly those fields, and int()
 * reads back every integer that str() wrote. The one size on which the two
 * paths part is the empty batch: its file has no data to parse.
 */
module CsvRoundTrip {
  import opened Wrappers
  import opened Text
  import opened Database
  import opened CsvService
  import Schemas

  /** The text of a header-less CSV file: fields joined by commas, rows by newlines. */
  function CsvText(table: Table): string
    requires |table| >= 1 && forall i :: 0 <= i < |table| ==> |table[i]| >= 1
  {
    Join(seq(|table|, i requires 0 <= i < |table| => Join(table[i], ',')), '\n')
  }

  /** No field holds a comma or a line break. */
  predicate PlainFields(table: Table) {
    forall i, j :: 0 <= i < |table| && 0 <= j < |table[i]| ==> ',' !in table[i][j] && '\n' !in table[i][j]
  }

  /** A table of plain fields, at least two per row, parses back from its CSV text. */
  lemma ParseCsvText(table: Table)
    requires Rectangular(table) && |table[0]| >= 2 && PlainFields(table)
    requires table[0][0] == [] || table[0][0][0] != Bom
    ensures ParseCsv(EncodeUtf8(CsvText(table))) == Ok(table)
  {
    var lines := seq(|table|, i requires 0 <= i < |table| => Join(table[i], ','));
    var text := CsvText(table);
    assert text == Join(lines, '\n');
    DecodeEncodeUtf8(text);
    forall i | 0 <= i < |lines|
      ensures '\n' !in lines[i] && !Blank(lines[i]) && Split(lines[i], ',') == table[i]
    {
      assert forall j :: 0 <= j < |table[i]| ==> '\n' !in table[i][j];
      JoinLacks(table[i], ',', '\n');
      assert forall j :: 0 <= j < |table[i]| ==> ',' !in table[i][j];
      SplitJoin(table[i], ',');
      assert lines[i][|table[i][0]|] == ',';
    }
    assert lines[0] == table[0][0] + [','] + Join(table[0][1..], ',');
    if |lines| > 1 {
      assert text == lines[0] + ['\n'] + Join(lines[1..], '\n');
    }
    assert text[0] == lines[0][0];
    assert TextOf(EncodeUtf8(text)) == Some(text);
    SplitJoin(lines, '\n');
    assert NonBlank(Split(text, '\n')) == lines;
    assert FieldsOf(lines) == table;
  }

  /** str(n) never holds a comma or a line break. */
  lemma FormatIntPlain(n: int)
    ensures ',' !in FormatInt(n) && '\n' !in FormatInt(n)
  {
    var s := FormatInt(n);
    assert forall i :: 0 <= i < |s| ==> s[i] != ',' && s[i] != '\n';
  }

  /** The CSV line a structured department entry corresponds to: `id,department`. */
  function DepartmentLine(s: Schemas.DepartmentSchema): Fields {
    [FormatInt(s.id), s.department]
  }

  function JobLine(s: Schemas.JobSchema): Fields {
    [FormatInt(s.id), s.job]
  }

  function EmployeeLine(s: Schemas.EmployeeSchema): Fields {
    [FormatInt(s.id), s.name, s.datetime, FormatInt(s.departmentId), FormatInt(s.jobId)]
  }

  /** The CSV table of a structured department batch, one line per entry. */
  function DepartmentTable(batch: seq<Schemas.DepartmentSchema>): Table {
    seq(|batch|, i requires 0 <= i < |batch| => DepartmentLine(batch[i]))
  }

  /** Every line of that table has plain fields and converts back to the entry's department. */
  lemma DepartmentTableConverts(batch: seq<Schemas.DepartmentSchema>)
    requires forall i :: 0 <= i < |batch| ==> ',' !in batch[i].department && '\n' !in batch[i].department
    ensures PlainFields(DepartmentTable(batch))
    ensures forall i :: 0 <= i < |batch| ==> DepartmentOf(DepartmentTable(batch)[i]) == Ok(AsDepartment(batch[i]))
  {
    var table := DepartmentTable(batch);
    forall i | 0 <= i < |batch|
      ensures forall j :: 0 <= j < |table[i]| ==> ',' !in table[i][j] && '\n' !in table[i][j]
      ensures DepartmentOf(table[i]) == Ok(AsDepartment(batch[i]))
    {
      FormatIntPlain(batch[i].id);
      ParseFormatInt(batch[i].id);
    }
  }

  /**
   * A department upload of the lines `id,department` commits the same departments as a
   * structured batch of the same entries, and refuses the same sizes, as long
   * as no name holds a comma or a line break, reading every field as the
   * text written.
   */
  lemma DepartmentUploadMatchesBatch(batch: seq<Schemas.DepartmentSchema>)
    requires |batch| >= 1
    requires forall i :: 0 <= i < |batch| ==> ',' !in batch[i].department && '\n' !in batch[i].department
    ensures DepartmentsFromCsv(EncodeUtf8(CsvText(DepartmentTable(batch)))) == DepartmentsFromBatch(batch)
  {
    var table := DepartmentTable(batch);
    DepartmentTableConverts(batch);
    ParseCsvText(table);
    var content := EncodeUtf8(CsvText(table));
    if |batch| <= MaxRows {
      assert CheckedTable(content) == Ok(table);
      var r := CoerceAll(table, DepartmentOf);
      assert DepartmentsFromCsv(content) == r;
      assert r.value == DepartmentsFromBatch(batch).value;
    }
  }

  /** The CSV table of a structured job batch, one line per entry. */
  function JobTable(batch: seq<Schemas.JobSchema>): Table {
    seq(|batch|, i requires 0 <= i < |batch| => JobLine(batch[i]))
  }

  /** Every line of that table has plain fields and converts back to the entry's job. */
  lemma JobTableConverts(batch: seq<Schemas.JobSchema>)
    requires forall i :: 0 <= i < |batch| ==> ',' !in batch[i].job && '\n' !in batch[i].job
    ensures PlainFields(JobTable(batch))
    ensures forall i :: 0 <= i < |batch| ==> JobOf(JobTable(batch)[i]) == Ok(AsJob(batch[i]))
  {
    var table := JobTable(batch);
    forall i | 0 <= i < |batch|
      ensures forall j :: 0 <= j < |table[i]| ==> ',' !in table[i][j] && '\n' !in table[i][j]
      ensures JobOf(table[i]) == Ok(AsJob(batch[i]))
    {
      FormatIntPlain(batch[i].id);
      ParseFormatInt(batch[i].id);
    }
  }

  /**
   * A job upload of the lines `id,job` commits the same jobs as a
   * structured batch of the same entries, and refuses the same sizes, as long
   * as no title holds a comma or a line break, reading every field as the
   * text written.
   */
  lemma JobUploadMatchesBatch(batch: seq<Schemas.JobSchema>)
    requires |batch| >= 1
    requires forall i :: 0 <= i < |batch| ==> ',' !in batch[i].job && '\n' !in batch[i].job
    ensures JobsFromCsv(EncodeUtf8(CsvText(JobTable(batch)))) == JobsFromBatch(batch)
  {
    var table := JobTable(batch);
    JobTableConverts(batch);
    ParseCsvText(table);
    var content := EncodeUtf8(CsvText(table));
    if |batch| <= MaxRows {
      assert CheckedTable(content) == Ok(table);
      var r := CoerceAll(table, JobOf);
      assert JobsFromCsv(content) == r;
      assert r.value == JobsFromBatch(batch).value;
    }
  }

  /** The CSV table of a structured employee batch, one line per entry. */
  function EmployeeTable(batch: seq<Schemas.EmployeeSchema>): Table {
    seq(|batch|, i requires 0 <= i < |batch| => EmployeeLine(batch[i]))
  }

  /** Every line of that table has plain fields and converts back to the entry's employee. */
  lemma EmployeeTableConverts(batch: seq<Schemas.EmployeeSchema>)
    requires forall i :: 0 <= i < |batch| ==>
               && ',' !in batch[i].name && '\n' !in batch[i].name
               && ',' !in batch[i].datetime && '\n' !in batch[i].datetime
    ensures PlainFields(EmployeeTable(batch))
    ensures forall i :: 0 <= i < |batch| ==> EmployeeOf(EmployeeTable(batch)[i]) == Ok(AsEmployee(batch[i]))
  {
    var table := EmployeeTable(batch);
    forall i | 0 <= i < |batch|
      ensures forall j :: 0 <= j < |table[i]| ==> ',' !in table[i][j] && '\n' !in table[i][j]
      ensures EmployeeOf(table[i]) == Ok(AsEmployee(batch[i]))
    {
      FormatIntPlain(batch[i].id);
      FormatIntPlain(batch[i].departmentId);
      FormatIntPlain(batch[i].jobId);
      ParseFormatInt(batch[i].id);
      ParseFormatInt(batch[i].departmentId);
      ParseFormatInt(batch[i].jobId);
    }
  }

  /**
   * An employee upload of the lines `id,name,datetime,department_id,job_id`
   * commits the same employees as a structured batch of the same entries, and
   * refuses the same sizes, as long as no name or datetime holds a comma or a
   * line break, reading every field as the text written.
   */
  lemma EmployeeUploadMatchesBatch(batch: seq<Schemas.EmployeeSchema>)
    requires |batch| >= 1
    requires forall i :: 0 <= i < |batch| ==>
               && ',' !in batch[i].name && '\n' !in batch[i].name
               && ',' !in batch[i].datetime && '\n' !in batch[i].datetime
    ensures EmployeesFromCsv(EncodeUtf8(CsvText(EmployeeTable(batch)))) == EmployeesFromBatch(batch)
  {
    var table := EmployeeTable(batch);
    EmployeeTableConverts(batch);
    ParseCsvText(table);
    var content := EncodeUtf8(CsvText(table));
    if |batch| <= MaxRows {
      assert CheckedTable(content) == Ok(table);
      var r := CoerceAll(table, EmployeeOf);
      assert EmployeesFromCsv(content) == r;
      assert r.value == EmployeesFromBatch(batch).value;
    }
  }

  /**
   * The empty batch is where the two paths differ: the empty file is refused
   * as a parse error, the empty list for its size.
   */
  lemma EmptyUploadAndBatchDiffer()
    ensures DepartmentsFromCsv(EncodeUtf8([])) == Err(ParseError(NoData))
    ensures DepartmentsFromBatch([]) == Err(BatchSize(0))
    ensures JobsFromCsv(EncodeUtf8([])) == Err(ParseError(NoData))
    ensures JobsFromBatch([]) == Err(BatchSize(0))
    ensures EmployeesFromCsv(EncodeUtf8([])) == Err(ParseError(NoData))
    ensures EmployeesFromBatch([]) == Err(BatchSize(0))
  {
    EmptyContentIsParseError();
  }
}
