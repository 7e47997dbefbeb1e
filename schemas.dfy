/**
 * The request shapes of the structured batch endpoints: one closed record per
 * entity, every field required, and a batch wrapper per entity whose field
 * validator admits 1 to 1000 records and hands the list on unchanged.
 */
module Schemas {
  import opened Wrappers

  datatype DepartmentSchema = DepartmentSchema(id: int, department: string)

  datatype JobSchema = JobSchema(id: int, job: string)

  datatype EmployeeSchema = EmployeeSchema(id: int, name: string, datetime: string, departmentId: int, jobId: int)

  const MinBatch: nat := 1
  const MaxBatch: nat := 1000

  const BatchSizeMessage := "Batch size must be between 1 and 1000 rows"

  /** The `validate_batch_size` field validator: the list itself, or the size error. */
  function ValidateBatchSize<T>(v: seq<T>): (r: Result<seq<T>, string>)
    ensures r.Ok? <==> MinBatch <= |v| <= MaxBatch
    ensures r.Ok? ==> r.value == v
    ensures r.Err? ==> r.error == BatchSizeMessage
  {
    if !(MinBatch <= |v| <= MaxBatch) then Err(BatchSizeMessage) else Ok(v)
  }

  /** `DepartmentBatch.departments`: accepted exactly when it holds 1 to 1000 departments. */
  function ValidateDepartmentBatch(departments: seq<DepartmentSchema>): (r: Result<seq<DepartmentSchema>, string>)
    ensures r.Ok? <==> 1 <= |departments| <= 1000
    ensures r.Ok? ==> r.value == departments
  {
    ValidateBatchSize(departments)
  }

  /** `JobBatch.jobs`: accepted exactly when it holds 1 to 1000 jobs. */
  function ValidateJobBatch(jobs: seq<JobSchema>): (r: Result<seq<JobSchema>, string>)
    ensures r.Ok? <==> 1 <= |jobs| <= 1000
    ensures r.Ok? ==> r.value == jobs
  {
    ValidateBatchSize(jobs)
  }

  /** `EmployeeBatch.employees`: accepted exactly when it holds 1 to 1000 employees. */
  function ValidateEmployeeBatch(employees: seq<EmployeeSchema>): (r: Result<seq<EmployeeSchema>, string>)
    ensures r.Ok? <==> 1 <= |employees| <= 1000
    ensures r.Ok? ==> r.value == employees
  {
    ValidateBatchSize(employees)
  }
}
