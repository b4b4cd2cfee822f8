/** The in-memory employee store: a primary table id -> record and three indices
    (age, salary, department) from a key to the bucket of ids having that key.
    Every operation is one atomic step; the lock protocol of the Java is not modelled. */
module EmployeesService {
  import opened EmployeeData
  import opened Buckets

  /** The record of every id in `table` carries that id. */
  ghost predicate Keyed(table: map<int, Employee>)
  {
    forall id :: id in table ==> table[id].id == id
  }

  /** `copyEmployees` over the records the ids name: the records of `ids`, in order. */
  function Records(table: map<int, Employee>, ids: seq<int>): (r: seq<Employee>)
    requires forall i :: 0 <= i < |ids| ==> ids[i] in table
    ensures |r| == |ids|
    ensures forall i :: 0 <= i < |ids| ==> r[i] == table[ids[i]]
  {
    if ids == [] then []
    else
      [table[ids[0]]] + Records(table, ids[1..])
  }

  /** A record is among the records of `ids` exactly when it is the stored record
      of one of the ids. */
  lemma RecordsMembers(table: map<int, Employee>, ids: seq<int>)
    requires Keyed(table)
    requires forall i :: 0 <= i < |ids| ==> ids[i] in table
    ensures forall e :: e in Records(table, ids) <==> e.id in ids && e.id in table && table[e.id] == e
  {
    var r := Records(table, ids);
    forall e | e in r ensures e.id in ids && e.id in table && table[e.id] == e {
      var i :| 0 <= i < |r| && r[i] == e;
      assert e == table[ids[i]] && e.id == ids[i];
      assert ids[i] in ids;
    }
    forall e: Employee | e.id in ids && e.id in table && table[e.id] == e ensures e in r {
      var i :| 0 <= i < |ids| && ids[i] == e.id;
      assert r[i] == e;
    }
  }

  /** Distinct ids give records with distinct ids. */
  lemma RecordsDistinct(table: map<int, Employee>, ids: seq<int>)
    requires Keyed(table)
    requires forall i :: 0 <= i < |ids| ==> ids[i] in table
    requires NoDuplicates(ids)
    ensures DistinctIds(Records(table, ids))
  {
    var r := Records(table, ids);
    forall i, j | 0 <= i < j < |r| ensures r[i].id != r[j].id {
      assert r[i] == table[ids[i]] && r[j] == table[ids[j]];
    }
  }

  /** The records of a list of ids that holds exactly the stored ids whose key lies in
      [lo, hi], each once, in ascending key order: exactly the stored records of that
      key range, each once, in ascending key order. */
  lemma RecordsInKeyRange(table: map<int, Employee>, ids: seq<int>, keys: map<int, int>, lo: int, hi: int)
    requires Keyed(table)
    requires forall id :: id in keys <==> id in table
    requires forall id :: id in ids <==> id in keys && lo <= keys[id] <= hi
    requires NoDuplicates(ids) && AscendingBy(ids, keys)
    ensures forall i :: 0 <= i < |ids| ==> ids[i] in table
    ensures forall e :: e in Records(table, ids) <==> e.id in table && table[e.id] == e && lo <= keys[e.id] <= hi
    ensures DistinctIds(Records(table, ids))
    ensures forall i, j :: 0 <= i < j < |Records(table, ids)| ==>
      keys[Records(table, ids)[i].id] <= keys[Records(table, ids)[j].id]
  {
    forall i | 0 <= i < |ids| ensures ids[i] in table {
      assert ids[i] in ids;
      assert ids[i] in keys;
    }
    RecordsMembers(table, ids);
    RecordsDistinct(table, ids);
    var rs := Records(table, ids);
    assert forall i :: 0 <= i < |rs| ==> rs[i].id == ids[i];
  }

  /** The records of a range scan over an index of the table against the key map
      `keys`: exactly the stored records whose key lies in [lo, hi], each once, in
      ascending key order. */
  lemma ScanRecords(table: map<int, Employee>, idx: map<int, seq<int>>, keys: map<int, int>, lo: int, hi: int)
    requires Keyed(table) && IsIndex(idx, keys)
    requires forall id :: id in keys <==> id in table
    ensures forall i :: 0 <= i < |Range(idx, lo, hi)| ==> Range(idx, lo, hi)[i] in table
    ensures forall e :: e in Records(table, Range(idx, lo, hi)) <==>
      e.id in table && table[e.id] == e && lo <= keys[e.id] <= hi
    ensures DistinctIds(Records(table, Range(idx, lo, hi)))
    ensures forall i, j :: 0 <= i < j < |Records(table, Range(idx, lo, hi))| ==>
      keys[Records(table, Range(idx, lo, hi))[i].id] <= keys[Records(table, Range(idx, lo, hi))[j].id]
  {
    RangeMembers(idx, keys, lo, hi);
    RangeNoDuplicates(idx, keys, lo, hi);
    RangeAscending(idx, keys, lo, hi);
    RecordsInKeyRange(table, Range(idx, lo, hi), keys, lo, hi);
  }

  /** Some order of the elements of a finite set, each once. The Java returns the
      table's values in HashMap iteration order, which it leaves unspecified. */
  ghost function Linearize(s: set<int>): (r: seq<int>)
    ensures |r| == |s| && NoDuplicates(r)
    ensures forall x :: x in r <==> x in s
  {
    if exists x :: x in s then
      var x :| x in s;
      var rest := Linearize(s - {x});
      NoDuplicatesConcat([x], rest);
      [x] + rest
    else
      assert s == {};
      []
  }

  /** `getAge`: whole years from the birth date to `today`, as `yearsBetween` counts them. */
  function AgeOf(yearsBetween: (Date, Date) -> int, today: Date, e: Employee): int
  {
    yearsBetween(e.birthDate, today)
  }

  /** The key each stored id has in the age, salary and department index. */
  ghost function AgeKeys(yearsBetween: (Date, Date) -> int, today: Date, table: map<int, Employee>): map<int, int>
  {
    map id | id in table :: AgeOf(yearsBetween, today, table[id])
  }

  ghost function SalaryKeys(table: map<int, Employee>): map<int, int>
  {
    map id | id in table :: table[id].salary
  }

  ghost function DepartmentKeys(table: map<int, Employee>): map<int, string>
  {
    map id | id in table :: table[id].department
  }

  /** The cross-structure invariant of the store: each record is filed under its own
      id, and each index files exactly the stored ids, each once, under its current key. */
  ghost predicate StoreValid(yearsBetween: (Date, Date) -> int, today: Date, table: map<int, Employee>,
                             ageIdx: map<int, seq<int>>, salaryIdx: map<int, seq<int>>,
                             departmentIdx: map<string, seq<int>>)
  {
    && Keyed(table)
    && IsIndex(ageIdx, AgeKeys(yearsBetween, today, table))
    && IsIndex(salaryIdx, SalaryKeys(table))
    && IsIndex(departmentIdx, DepartmentKeys(table))
  }

  /** How the key maps follow a change of the table. */
  lemma KeysAfterPut(yearsBetween: (Date, Date) -> int, today: Date, table: map<int, Employee>, e: Employee)
    ensures AgeKeys(yearsBetween, today, table[e.id := e]) == AgeKeys(yearsBetween, today, table)[e.id := AgeOf(yearsBetween, today, e)]
    ensures SalaryKeys(table[e.id := e]) == SalaryKeys(table)[e.id := e.salary]
    ensures DepartmentKeys(table[e.id := e]) == DepartmentKeys(table)[e.id := e.department]
  {
  }

  lemma KeysAfterRemove(yearsBetween: (Date, Date) -> int, today: Date, table: map<int, Employee>, id: int)
    ensures AgeKeys(yearsBetween, today, table - {id}) == AgeKeys(yearsBetween, today, table) - {id}
    ensures SalaryKeys(table - {id}) == SalaryKeys(table) - {id}
    ensures DepartmentKeys(table - {id}) == DepartmentKeys(table) - {id}
  {
  }

  /** For each index of a valid store, the union of its buckets is the table's id set. */
  lemma IndicesCoverTable(yearsBetween: (Date, Date) -> int, today: Date, table: map<int, Employee>,
                          ageIdx: map<int, seq<int>>, salaryIdx: map<int, seq<int>>,
                          departmentIdx: map<string, seq<int>>)
    requires StoreValid(yearsBetween, today, table, ageIdx, salaryIdx, departmentIdx)
    ensures Members(ageIdx) == table.Keys
    ensures Members(salaryIdx) == table.Keys
    ensures Members(departmentIdx) == table.Keys
  {
    UnionOfBuckets(ageIdx, AgeKeys(yearsBetween, today, table));
    UnionOfBuckets(salaryIdx, SalaryKeys(table));
    UnionOfBuckets(departmentIdx, DepartmentKeys(table));
  }

  /** Storing a record with a new id and appending the id to the bucket of each of its
      keys keeps the invariant. */
  lemma AddKeepsStore(yearsBetween: (Date, Date) -> int, today: Date, table: map<int, Employee>,
                      ageIdx: map<int, seq<int>>, salaryIdx: map<int, seq<int>>,
                      departmentIdx: map<string, seq<int>>, e: Employee)
    requires StoreValid(yearsBetween, today, table, ageIdx, salaryIdx, departmentIdx)
    requires e.id !in table
    ensures StoreValid(yearsBetween, today, table[e.id := e],
                       Add(ageIdx, AgeOf(yearsBetween, today, e), e.id),
                       Add(salaryIdx, e.salary, e.id),
                       Add(departmentIdx, e.department, e.id))
  {
    KeysAfterPut(yearsBetween, today, table, e);
    AddKeepsIndex(ageIdx, AgeKeys(yearsBetween, today, table), AgeOf(yearsBetween, today, e), e.id);
    AddKeepsIndex(salaryIdx, SalaryKeys(table), e.salary, e.id);
    AddKeepsIndex(departmentIdx, DepartmentKeys(table), e.department, e.id);
  }

  /** Dropping a stored record and removing its id from the bucket of each of its keys
      keeps the invariant. */
  lemma RemoveKeepsStore(yearsBetween: (Date, Date) -> int, today: Date, table: map<int, Employee>,
                         ageIdx: map<int, seq<int>>, salaryIdx: map<int, seq<int>>,
                         departmentIdx: map<string, seq<int>>, id: int)
    requires StoreValid(yearsBetween, today, table, ageIdx, salaryIdx, departmentIdx)
    requires id in table
    ensures StoreValid(yearsBetween, today, table - {id},
                       Remove(ageIdx, AgeOf(yearsBetween, today, table[id]), id),
                       Remove(salaryIdx, table[id].salary, id),
                       Remove(departmentIdx, table[id].department, id))
  {
    KeysAfterRemove(yearsBetween, today, table, id);
    RemoveKeepsIndex(ageIdx, AgeKeys(yearsBetween, today, table), id);
    RemoveKeepsIndex(salaryIdx, SalaryKeys(table), id);
    RemoveKeepsIndex(departmentIdx, DepartmentKeys(table), id);
  }

  /** Changing a stored salary and moving the id to the bucket of the new salary keeps
      the invariant; the age and department indices need no change. */
  lemma SalaryChangeKeepsStore(yearsBetween: (Date, Date) -> int, today: Date, table: map<int, Employee>,
                               ageIdx: map<int, seq<int>>, salaryIdx: map<int, seq<int>>,
                               departmentIdx: map<string, seq<int>>, id: int, newSalary: int)
    requires StoreValid(yearsBetween, today, table, ageIdx, salaryIdx, departmentIdx)
    requires id in table
    ensures StoreValid(yearsBetween, today, table[id := table[id].(salary := newSalary)],
                       ageIdx,
                       Add(Remove(salaryIdx, table[id].salary, id), newSalary, id),
                       departmentIdx)
  {
    var e := table[id].(salary := newSalary);
    KeysAfterPut(yearsBetween, today, table, e);
    assert AgeKeys(yearsBetween, today, table)[id := AgeOf(yearsBetween, today, e)] == AgeKeys(yearsBetween, today, table);
    assert DepartmentKeys(table)[id := e.department] == DepartmentKeys(table);
    RekeyKeepsIndex(salaryIdx, SalaryKeys(table), id, newSalary);
  }

  /** Changing a stored department and moving the id to the bucket of the new
      department keeps the invariant; the age and salary indices need no change. */
  lemma DepartmentChangeKeepsStore(yearsBetween: (Date, Date) -> int, today: Date, table: map<int, Employee>,
                                   ageIdx: map<int, seq<int>>, salaryIdx: map<int, seq<int>>,
                                   departmentIdx: map<string, seq<int>>, id: int, newDepartment: string)
    requires StoreValid(yearsBetween, today, table, ageIdx, salaryIdx, departmentIdx)
    requires id in table
    ensures StoreValid(yearsBetween, today, table[id := table[id].(department := newDepartment)],
                       ageIdx,
                       salaryIdx,
                       Add(Remove(departmentIdx, table[id].department, id), newDepartment, id))
  {
    var e := table[id].(department := newDepartment);
    KeysAfterPut(yearsBetween, today, table, e);
    assert AgeKeys(yearsBetween, today, table)[id := AgeOf(yearsBetween, today, e)] == AgeKeys(yearsBetween, today, table);
    assert SalaryKeys(table)[id := e.salary] == SalaryKeys(table);
    RekeyKeepsIndex(departmentIdx, DepartmentKeys(table), id, newDepartment);
  }

  /** The store. The indices hold ids: in the Java every structure points at one
      shared Employee object, so an update of `salary` or `department` through the
      table is seen through every index. */
  class EmployeesMethodsMaps {
    /** `ChronoUnit.YEARS.between`, left uninterpreted. */
    const yearsBetween: (Date, Date) -> int
    /** The date `LocalDate.now()` reads, fixed for the life of the store. */
    const today: Date

    var table: map<int, Employee>
    var ageIdx: map<int, seq<int>>
    var salaryIdx: map<int, seq<int>>
    var departmentIdx: map<string, seq<int>>

    /** The store's invariant (see StoreValid). */
    ghost predicate Valid()
      reads this
    {
      StoreValid(yearsBetween, today, table, ageIdx, salaryIdx, departmentIdx)
    }

    /** `e` is the record the table currently holds for its id. */
    predicate Stored(e: Employee)
      reads this
    {
      e.id in table && table[e.id] == e
    }

    /** An empty store (the file name of the Java constructor is only used by
        save/restore, which are not modelled). */
    constructor (yearsBetween: (Date, Date) -> int, today: Date)
      ensures Valid()
      ensures this.yearsBetween == yearsBetween && this.today == today
      ensures table == map[] && ageIdx == map[] && salaryIdx == map[] && departmentIdx == map[]
    {
      this.yearsBetween := yearsBetween;
      this.today := today;
      table := map[];
      ageIdx := map[];
      salaryIdx := map[];
      departmentIdx := map[];
    }

    /** `addEmployee`: refuses a known id and changes nothing; otherwise stores the
        record and appends its id to its age, salary and department buckets. */
    method AddEmployee(empl: Employee) returns (rc: ReturnCode)
      requires Valid()
      modifies this
      ensures Valid()
      ensures old(empl.id in table) ==> rc == EmployeeAlreadyExists && unchanged(this)
      ensures old(empl.id !in table) ==>
        && rc == Ok
        && table == old(table)[empl.id := empl]
        && ageIdx == Add(old(ageIdx), AgeOf(yearsBetween, today, empl), empl.id)
        && salaryIdx == Add(old(salaryIdx), empl.salary, empl.id)
        && departmentIdx == Add(old(departmentIdx), empl.department, empl.id)
      ensures rc == Ok ==> GetEmployee(empl.id) == Some(empl)
    {
      if empl.id in table {
        return EmployeeAlreadyExists;
      }
      AddKeepsStore(yearsBetween, today, table, ageIdx, salaryIdx, departmentIdx, empl);
      table := table[empl.id := empl];
      ageIdx := Add(ageIdx, AgeOf(yearsBetween, today, empl), empl.id);
      salaryIdx := Add(salaryIdx, empl.salary, empl.id);
      departmentIdx := Add(departmentIdx, empl.department, empl.id);
      rc := Ok;
    }

    /** `removeEmployee`: reports an unknown id and changes nothing; otherwise drops
        the record and its id from its age, salary and department buckets. */
    method RemoveEmployee(id: int) returns (rc: ReturnCode)
      requires Valid()
      modifies this
      ensures Valid()
      ensures id !in old(table) ==> rc == EmployeeNotFound && unchanged(this)
      ensures id in old(table) ==>
        var e := old(table[id]);
        && rc == Ok
        && table == old(table) - {id}
        && ageIdx == Remove(old(ageIdx), AgeOf(yearsBetween, today, e), id)
        && salaryIdx == Remove(old(salaryIdx), e.salary, id)
        && departmentIdx == Remove(old(departmentIdx), e.department, id)
      ensures GetEmployee(id) == None
    {
      if id !in table {
        return EmployeeNotFound;
      }
      var e := table[id];
      RemoveKeepsStore(yearsBetween, today, table, ageIdx, salaryIdx, departmentIdx, id);
      table := table - {id};
      ageIdx := Remove(ageIdx, AgeOf(yearsBetween, today, e), id);
      salaryIdx := Remove(salaryIdx, e.salary, id);
      departmentIdx := Remove(departmentIdx, e.department, id);
      rc := Ok;
    }

    /** `getAllEmployees`: every stored record once, in an unspecified order. */
    ghost function GetAllEmployees(): (r: seq<Employee>)
      reads this
      requires Valid()
      ensures |r| == |table|
      ensures forall e :: e in r <==> Stored(e)
      ensures DistinctIds(r)
    {
      var ids := Linearize(table.Keys);
      assert forall i :: 0 <= i < |ids| ==> ids[i] in ids;
      RecordsMembers(table, ids);
      RecordsDistinct(table, ids);
      Records(table, ids)
    }

    /** `getEmployee`: the record stored under `id`, or nothing for an unknown id. */
    function GetEmployee(id: int): (r: Option<Employee>)
      reads this
      requires Valid()
      ensures r.Some? <==> id in table
      ensures r.Some? ==> r.value.id == id && Stored(r.value)
    {
      if id in table then Some(table[id]) else None
    }

    /** `getEmployeesByAge`: the records whose age lies in [ageFrom, ageTo], both
        bounds included, each once, in ascending order of age. */
    function GetEmployeesByAge(ageFrom: int, ageTo: int): (r: Query)
      reads this
      requires Valid()
      ensures r.FromKeyAboveToKey? <==> ageFrom > ageTo
      ensures r.Rows? ==> forall e :: e in r.rows <==> Stored(e) && ageFrom <= AgeOf(yearsBetween, today, e) <= ageTo
      ensures r.Rows? ==> DistinctIds(r.rows)
      ensures r.Rows? ==> forall i, j :: 0 <= i < j < |r.rows| ==> AgeOf(yearsBetween, today, r.rows[i]) <= AgeOf(yearsBetween, today, r.rows[j])
    {
      if ageFrom > ageTo then FromKeyAboveToKey
      else
        var keys := AgeKeys(yearsBetween, today, table);
        ScanRecords(table, ageIdx, keys, ageFrom, ageTo);
        var rows := Records(table, Range(ageIdx, ageFrom, ageTo));
        assert forall e :: e in rows ==> keys[e.id] == AgeOf(yearsBetween, today, e);
        assert forall e :: Stored(e) ==> keys[e.id] == AgeOf(yearsBetween, today, e);
        assert forall i :: 0 <= i < |rows| ==> rows[i] in rows;
        Rows(rows)
    }

    /** `getEmployeesBySalary`: the records whose salary lies in [salaryFrom, salaryTo],
        both bounds included, each once, in ascending order of salary. */
    function GetEmployeesBySalary(salaryFrom: int, salaryTo: int): (r: Query)
      reads this
      requires Valid()
      ensures r.FromKeyAboveToKey? <==> salaryFrom > salaryTo
      ensures r.Rows? ==> forall e :: e in r.rows <==> Stored(e) && salaryFrom <= e.salary <= salaryTo
      ensures r.Rows? ==> DistinctIds(r.rows)
      ensures r.Rows? ==> forall i, j :: 0 <= i < j < |r.rows| ==> r.rows[i].salary <= r.rows[j].salary
    {
      if salaryFrom > salaryTo then FromKeyAboveToKey
      else
        var keys := SalaryKeys(table);
        ScanRecords(table, salaryIdx, keys, salaryFrom, salaryTo);
        var rows := Records(table, Range(salaryIdx, salaryFrom, salaryTo));
        assert forall e :: e in rows ==> keys[e.id] == e.salary;
        assert forall e :: Stored(e) ==> keys[e.id] == e.salary;
        assert forall i :: 0 <= i < |rows| ==> rows[i] in rows;
        Rows(rows)
    }

    /** `getEmployeesByDepartment`: the records of department `department`, each once;
        an unknown department gives the empty sequence, never a failure. */
    function GetEmployeesByDepartment(department: string): (r: seq<Employee>)
      reads this
      requires Valid()
      ensures forall e :: e in r <==> Stored(e) && e.department == department
      ensures DistinctIds(r)
      ensures department !in departmentIdx ==> r == []
    {
      var ids := Bucket(departmentIdx, department);
      BucketMembers(departmentIdx, DepartmentKeys(table), department);
      assert forall i :: 0 <= i < |ids| ==> ids[i] in ids;
      RecordsMembers(table, ids);
      RecordsDistinct(table, ids);
      Records(table, ids)
    }

    /** `getEmployeesByDepartmentAndSalary`: the department's records, in department
        order, kept when their id is among the ids of the salary-range result. That
        is the department result filtered by the salary range. A reversed range fails
        as the salary scan does. */
    function GetEmployeesByDepartmentAndSalary(department: string, salaryFrom: int, salaryTo: int): (r: Query)
      reads this
      requires Valid()
      ensures r.FromKeyAboveToKey? <==> salaryFrom > salaryTo
      ensures r.Rows? ==> r.rows == SalaryBetween(GetEmployeesByDepartment(department), salaryFrom, salaryTo)
      ensures r.Rows? ==> forall e :: e in r.rows <==>
        Stored(e) && e.department == department && salaryFrom <= e.salary <= salaryTo
    {
      var byDepartment := GetEmployeesByDepartment(department);
      var bySalary := GetEmployeesBySalary(salaryFrom, salaryTo);
      if bySalary.FromKeyAboveToKey? then FromKeyAboveToKey
      else
        var known := set e | e in bySalary.rows :: e.id;
        assert forall e :: e in byDepartment ==> (e.id in known <==> salaryFrom <= e.salary <= salaryTo) by {
          forall e | e in byDepartment && e.id in known ensures salaryFrom <= e.salary <= salaryTo {
            var e' :| e' in bySalary.rows && e'.id == e.id;
          }
        }
        KeepKnownIsSalaryBetween(byDepartment, known, salaryFrom, salaryTo);
        Rows(KeepKnown(byDepartment, known))
    }

    /** `updateSalary`: reports an unknown id; a salary equal to the current one is
        reported and changes nothing; otherwise the id moves from its old salary
        bucket to the bucket of `newSalary` and the stored salary becomes `newSalary`.
        The age and department indices are not touched. */
    method UpdateSalary(id: int, newSalary: int) returns (rc: ReturnCode)
      requires Valid()
      modifies this
      ensures Valid()
      ensures id !in old(table) ==> rc == EmployeeNotFound && unchanged(this)
      ensures id in old(table) && old(table[id].salary) == newSalary ==>
        rc == SalaryNotUpdated && unchanged(this)
      ensures id in old(table) && old(table[id].salary) != newSalary ==>
        var e := old(table[id]);
        && rc == Ok
        && table == old(table)[id := e.(salary := newSalary)]
        && salaryIdx == Add(Remove(old(salaryIdx), e.salary, id), newSalary, id)
        && ageIdx == old(ageIdx)
        && departmentIdx == old(departmentIdx)
    {
      if id !in table {
        return EmployeeNotFound;
      }
      var empl := table[id];
      if empl.salary == newSalary {
        return SalaryNotUpdated;
      }
      SalaryChangeKeepsStore(yearsBetween, today, table, ageIdx, salaryIdx, departmentIdx, id, newSalary);
      salaryIdx := Add(Remove(salaryIdx, empl.salary, id), newSalary, id);
      table := table[id := empl.(salary := newSalary)];
      rc := Ok;
    }

    /** `updateDepartment`: the same as UpdateSalary for the department index. */
    method UpdateDepartment(id: int, newDepartment: string) returns (rc: ReturnCode)
      requires Valid()
      modifies this
      ensures Valid()
      ensures id !in old(table) ==> rc == EmployeeNotFound && unchanged(this)
      ensures id in old(table) && old(table[id].department) == newDepartment ==>
        rc == DepartmentNotUpdated && unchanged(this)
      ensures id in old(table) && old(table[id].department) != newDepartment ==>
        var e := old(table[id]);
        && rc == Ok
        && table == old(table)[id := e.(department := newDepartment)]
        && departmentIdx == Add(Remove(old(departmentIdx), e.department, id), newDepartment, id)
        && ageIdx == old(ageIdx)
        && salaryIdx == old(salaryIdx)
    {
      if id !in table {
        return EmployeeNotFound;
      }
      var empl := table[id];
      if empl.department == newDepartment {
        return DepartmentNotUpdated;
      }
      DepartmentChangeKeepsStore(yearsBetween, today, table, ageIdx, salaryIdx, departmentIdx, id, newDepartment);
      departmentIdx := Add(Remove(departmentIdx, empl.department, id), newDepartment, id);
      table := table[id := empl.(department := newDepartment)];
      rc := Ok;
    }
  }
}
