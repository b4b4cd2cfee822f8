/** The values the employee store works with: the record, the outcome codes of the
    mutating operations, and the results of the lookups. */
module EmployeeData {

  /** A calendar date. Its arithmetic is not modelled: ages come from a function
      supplied to the store (see EmployeesService). */
  datatype Date = Date(year: int, month: int, day: int)

  /** One employee. `id` is the primary key and never changes; `salary` and
      `department` are the two fields the update operations change. */
  datatype Employee = Employee(id: int, name: string, birthDate: Date, salary: int, department: string)

  /** Outcome codes returned by the mutating operations. */
  datatype ReturnCode =
    | Ok
    | EmployeeAlreadyExists
    | EmployeeNotFound
    | SalaryNotUpdated
    | DepartmentNotUpdated

  /** A record or nothing (the Java returns null for an unknown id). */
  datatype Option<T> = None | Some(value: T)

  /** Result of a range scan: the matching records, or the failure TreeMap.subMap
      raises (IllegalArgumentException) when the lower bound exceeds the upper one. */
  datatype Query = Rows(rows: seq<Employee>) | FromKeyAboveToKey

  /** No two records of `rows` share an id. */
  predicate DistinctIds(rows: seq<Employee>)
  {
    forall i, j :: 0 <= i < j < |rows| ==> rows[i].id != rows[j].id
  }

  /** The records of `rows` whose salary lies in [lo, hi], in their order: the
      reference definition of the department-and-salary query. */
  function SalaryBetween(rows: seq<Employee>, lo: int, hi: int): (r: seq<Employee>)
    ensures forall e :: e in r <==> e in rows && lo <= e.salary <= hi
    ensures |r| <= |rows|
  {
    if rows == [] then []
    else (if lo <= rows[0].salary <= hi then [rows[0]] else []) + SalaryBetween(rows[1..], lo, hi)
  }

  /** The records of `rows` whose id is in `known`, in their order: the Java's
      `filter(employeesBySalary::contains)`, with record equality taken by id. */
  function KeepKnown(rows: seq<Employee>, known: set<int>): (r: seq<Employee>)
    ensures forall e :: e in r <==> e in rows && e.id in known
    ensures |r| <= |rows|
  {
    if rows == [] then []
    else (if rows[0].id in known then [rows[0]] else []) + KeepKnown(rows[1..], known)
  }

  /** Filtering by a set of ids that holds exactly the in-range records' ids is
      filtering by the salary range itself. */
  lemma {:induction false} KeepKnownIsSalaryBetween(rows: seq<Employee>, known: set<int>, lo: int, hi: int)
    requires forall e :: e in rows ==> (e.id in known <==> lo <= e.salary <= hi)
    ensures KeepKnown(rows, known) == SalaryBetween(rows, lo, hi)
  {
    if rows != [] {
      assert rows[0] in rows;
      forall e | e in rows[1..] ensures e in rows { }
      KeepKnownIsSalaryBetween(rows[1..], known, lo, hi);
    }
  }
}
