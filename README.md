# Employee store with age, salary and department indices

This project is a Dafny model of `EmployeesMethodsMapsImpl`, the in-memory employee
store of the employees application. The store keeps four structures:

- a primary table from an employee's id to the employee record;
- an ordered index from age to the list of employees of that age;
- an ordered index from salary to the list of employees with that salary;
- an index from department name to the list of employees of that department.

The Java puts the same `Employee` object in the table and in every index list. The model
therefore keeps the record in the table only, and each index holds the record's id.
Because of this sharing, the Java's in-place `empl.salary = …` or `empl.department = …`
is seen through every index. In the model the table entry changes and the indices look
the record up by id, which gives the same effect.

The model has three modules:

- `EmployeeData` (`employee_data.dfy`) holds the values. These are the `Employee`
  record, the `ReturnCode` outcomes, `Option`, and `Query`. A `Query` is what a range
  scan returns: the rows, or the `IllegalArgumentException` that `TreeMap.subMap` raises
  when the lower bound is above the upper one. The module also defines `SalaryBetween`,
  a reference filter.
- `Buckets` (`buckets.dfy`) holds the operations on one index, which are pure functions
  on `map<K, seq<int>>`:
  - `computeIfAbsent(..).add` is `Add`;
  - `get(..).remove` is `Remove`;
  - `getOrDefault` is `Bucket`;
  - `subMap(lo, true, hi, true).values()` is `SubMapValues`;
  - `getCombinedList` is `CombinedList`.

  It also holds the cross-structure invariant `IsIndex`. The invariant names, for each
  stored id, the key the id currently has. It states three things: no bucket holds an
  id twice; every id in bucket `k` is stored with key `k`; and every stored id is in the
  bucket of its key. The module proves that `Add`, `Remove` and a rekey preserve this
  invariant, and what a scan yields under it.
- `EmployeesService` (`employees_service.dfy`) holds the class `EmployeesMethodsMaps`,
  with the four structures as fields:
  - the mutating operations are methods with `modifies this`, and each states its whole
    new state;
  - the queries are functions of the state;
  - `Valid()` is the invariant every method keeps. It is `StoreValid` of the four fields:
    the table is keyed by id, and each of the three indices satisfies `IsIndex` against
    the key the table gives each id. For each mutating operation, a lemma over plain
    values (`AddKeepsStore`, `RemoveKeepsStore`, `SalaryChangeKeepsStore`,
    `DepartmentChangeKeepsStore`) proves that this invariant is preserved.

`getAge` is `AgeOf`. It applies `yearsBetween` to the birth date and `today`. Both are
constants of the store, fixed when it is constructed, and `yearsBetween` is left
uninterpreted. Because `today` is fixed, the age computed at removal is the age that was
used at insertion, which the Java does not guarantee (see `EmployeesService.AgeOf` under
"## Left out").

## Model

| member | source | states |
|---|---|---|
| `EmployeesService.EmployeesMethodsMaps.constructor` | src/telran/employees/services/EmployeesMethodsMapsImpl.java:24-28 | the store starts with an empty table and empty indices, and the invariant holds |
| `EmployeesService.EmployeesMethodsMaps.AddEmployee` | src/telran/employees/services/EmployeesMethodsMapsImpl.java:44-73 | a known id gives EmployeeAlreadyExists with no state change; otherwise Ok, the table gains the record, and the id is appended to its age, salary and department buckets, no other bucket changes, the invariant is kept, and getEmployee then returns the record |
| `EmployeesService.EmployeesMethodsMaps.RemoveEmployee` | src/telran/employees/services/EmployeesMethodsMapsImpl.java:81-105 | an unknown id gives EmployeeNotFound with no state change; otherwise Ok, the record leaves the table and the id leaves its age, salary and department buckets, every other entry and bucket is unchanged, the invariant is kept, and getEmployee then returns nothing |
| `EmployeesService.EmployeesMethodsMaps.GetAllEmployees` | src/telran/employees/services/EmployeesMethodsMapsImpl.java:108-126 | every stored record exactly once, and nothing else |
| `EmployeesService.EmployeesMethodsMaps.GetEmployee` | src/telran/employees/services/EmployeesMethodsMapsImpl.java:129-137 | a record exactly when the id is stored; that record carries the id and is the stored one |
| `EmployeesService.EmployeesMethodsMaps.GetEmployeesByAge` | src/telran/employees/services/EmployeesMethodsMapsImpl.java:140-152 | fails exactly when ageFrom > ageTo; otherwise yields exactly the stored records whose age is in [ageFrom, ageTo], with both bounds included, each once, in ascending age order |
| `EmployeesService.EmployeesMethodsMaps.GetEmployeesBySalary` | src/telran/employees/services/EmployeesMethodsMapsImpl.java:160-172 | fails exactly when salaryFrom > salaryTo; otherwise yields exactly the stored records whose salary is in [salaryFrom, salaryTo], with both bounds included, each once, in ascending salary order |
| `EmployeesService.EmployeesMethodsMaps.GetEmployeesByDepartment` | src/telran/employees/services/EmployeesMethodsMapsImpl.java:175-183 | exactly the stored records of the department, each once; empty, never a failure, for a department the index has never seen |
| `EmployeesService.EmployeesMethodsMaps.GetEmployeesByDepartmentAndSalary` | src/telran/employees/services/EmployeesMethodsMapsImpl.java:188-196 | fails exactly when salaryFrom > salaryTo; otherwise it is the department result filtered by the salary range, in department order, which is exactly the stored records of that department with salary in range |
| `EmployeesService.EmployeesMethodsMaps.UpdateSalary` | src/telran/employees/services/EmployeesMethodsMapsImpl.java:199-219 | an unknown id gives EmployeeNotFound, and an equal salary gives SalaryNotUpdated, both with no state change; otherwise Ok, the stored salary becomes newSalary, the id moves from the old salary bucket to the new one, the age and department indices are untouched, and the invariant is kept |
| `EmployeesService.EmployeesMethodsMaps.UpdateDepartment` | src/telran/employees/services/EmployeesMethodsMapsImpl.java:222-242 | an unknown id gives EmployeeNotFound, and an equal department gives DepartmentNotUpdated, both with no state change; otherwise Ok, the stored department changes, the id moves from the old department bucket to the new one, the age and salary indices are untouched, and the invariant is kept |
| `EmployeesService.AddKeepsStore` | src/telran/employees/services/EmployeesMethodsMapsImpl.java:51-63 | storing a record under a new id and appending the id to its age, salary and department buckets keeps the store invariant |
| `EmployeesService.RemoveKeepsStore` | src/telran/employees/services/EmployeesMethodsMapsImpl.java:84-97 | dropping a stored record and removing its id from its three buckets keeps the store invariant |
| `EmployeesService.SalaryChangeKeepsStore` | src/telran/employees/services/EmployeesMethodsMapsImpl.java:211-213 | changing a stored salary and moving the id between salary buckets, with the age and department indices unchanged, keeps the store invariant |
| `EmployeesService.DepartmentChangeKeepsStore` | src/telran/employees/services/EmployeesMethodsMapsImpl.java:234-236 | changing a stored department and moving the id between department buckets, with the age and salary indices unchanged, keeps the store invariant |
| `EmployeesService.AgeOf` | src/telran/employees/services/EmployeesMethodsMapsImpl.java:75-78 | no contract: the age is `yearsBetween(birthDate, today)`, where `yearsBetween` is an uninterpreted function and `today` a fixed date, both constants of the store |
| `EmployeesService.IndicesCoverTable` | src/telran/employees/services/EmployeesMethodsMapsImpl.java:24-28 | in a valid store, the union of the buckets of each of the three indices is exactly the table's id set |
| `EmployeesService.ScanRecords` | src/telran/employees/services/EmployeesMethodsMapsImpl.java:143-148 | under the invariant, the records of a range scan are exactly the stored records whose key is in [lo, hi], each once, in ascending key order |
| `EmployeesService.RecordsInKeyRange` | src/telran/employees/services/EmployeesMethodsMapsImpl.java:148 | copying a list that holds exactly the in-range stored ids, each once and in key order, gives exactly the in-range stored records, each once and in key order |
| `EmployeesService.Records` | src/telran/employees/services/EmployeesMethodsMapsImpl.java:117-126 | the copy step: one record per id, in order, each the record the table holds for that id |
| `EmployeesService.RecordsMembers` | src/telran/employees/services/EmployeesMethodsMapsImpl.java:117-126 | a record is in the copied list exactly when it is the stored record of one of the ids |
| `EmployeesService.RecordsDistinct` | src/telran/employees/services/EmployeesMethodsMapsImpl.java:117-126 | ids without repeats give records without repeated ids |
| `EmployeesService.Linearize` | src/telran/employees/services/EmployeesMethodsMapsImpl.java:111 | the `values()` of the table in some order: each id of the set exactly once |
| `Buckets.Add` | src/telran/employees/services/EmployeesMethodsMapsImpl.java:56 | the bucket of k becomes its old contents, or empty if it was absent, followed by id; the key set gains k; every other bucket is unchanged |
| `Buckets.Remove` | src/telran/employees/services/EmployeesMethodsMapsImpl.java:90 | the bucket of k loses the first occurrence of id; the key set and every other bucket are unchanged, so an emptied bucket stays |
| `Buckets.RemoveFirst` | src/telran/employees/services/EmployeesMethodsMapsImpl.java:90 | `List.remove(Object)`: the list without its first occurrence of x, and unchanged when x is absent |
| `Buckets.IndexOf` | src/telran/employees/services/EmployeesMethodsMapsImpl.java:90 | the position of the first occurrence of x |
| `Buckets.RemoveFirstMembers` | src/telran/employees/services/EmployeesMethodsMapsImpl.java:90 | on a list without repeats, the result is still without repeats and holds exactly the other elements |
| `Buckets.AddThenRemove` | src/telran/employees/services/EmployeesMethodsMapsImpl.java:56-96 | appending an id that a bucket lacks and then removing it gives every key its old bucket back |
| `Buckets.BucketMembers` | src/telran/employees/services/EmployeesMethodsMapsImpl.java:178 | under the invariant, bucket k holds exactly the stored ids with key k, each once, and is empty for a key no id has |
| `Buckets.UnionOfBuckets` | src/telran/employees/services/EmployeesMethodsMapsImpl.java:24-28 | under the invariant, the union of an index's buckets is the table's id set |
| `Buckets.SingleBucket` | src/telran/employees/services/EmployeesMethodsMapsImpl.java:24-28 | under the invariant, an id sits at one position of one bucket only |
| `Buckets.AddKeepsIndex` | src/telran/employees/services/EmployeesMethodsMapsImpl.java:53-62 | appending a new id to the bucket of its key keeps the invariant for the table extended by that id |
| `Buckets.RemoveKeepsIndex` | src/telran/employees/services/EmployeesMethodsMapsImpl.java:84-96 | removing a stored id from the bucket of its key keeps the invariant for the table without that id |
| `Buckets.RekeyKeepsIndex` | src/telran/employees/services/EmployeesMethodsMapsImpl.java:211-213 | moving a stored id from the bucket of its old key to the bucket of a new key keeps the invariant with the id's key changed |
| `Buckets.SubMapValues` | src/telran/employees/services/EmployeesMethodsMapsImpl.java:143-144 | every list yielded is the bucket of some present key in [lo, hi] |
| `Buckets.CombinedList` | src/telran/employees/services/EmployeesMethodsMapsImpl.java:154-157 | an element is in the flattened list exactly when it is in one of the lists |
| `Buckets.Bucket` | src/telran/employees/services/EmployeesMethodsMapsImpl.java:178 | `getOrDefault(k, emptyList)`: the stored bucket of k, and the empty list for a key the index lacks |
| `Buckets.Range` | src/telran/employees/services/EmployeesMethodsMapsImpl.java:143-145 | `getCombinedList(subMap(lo, true, hi, true).values())`: an id is in the scan exactly when it is in the bucket of some key in [lo, hi] |
| `Buckets.RangeStep` | src/telran/employees/services/EmployeesMethodsMapsImpl.java:143-145 | a scan over [lo, hi] is the bucket of lo followed by the scan over [lo + 1, hi] |
| `Buckets.RangeSameBuckets` | src/telran/employees/services/EmployeesMethodsMapsImpl.java:143-145 | a scan depends on the buckets only, so empty buckets left behind by removals do not change it |
| `Buckets.RangeMembers` | src/telran/employees/services/EmployeesMethodsMapsImpl.java:143-145 | under the invariant, a scan over [lo, hi] holds exactly the stored ids whose key lies in [lo, hi], with both bounds included |
| `Buckets.RangeNoDuplicates` | src/telran/employees/services/EmployeesMethodsMapsImpl.java:143-145 | under the invariant, a scan yields each id once |
| `Buckets.RangeAscending` | src/telran/employees/services/EmployeesMethodsMapsImpl.java:143-145 | under the invariant, a scan yields ids in ascending order of key |
| `EmployeeData.SalaryBetween` | src/telran/employees/services/EmployeesMethodsMapsImpl.java:188-196 | the reference filter: exactly the records of the list whose salary is in [lo, hi] |
| `EmployeeData.KeepKnown` | src/telran/employees/services/EmployeesMethodsMapsImpl.java:194-195 | `filter(contains)`: exactly the records of the list whose id is in the set |
| `EmployeeData.KeepKnownIsSalaryBetween` | src/telran/employees/services/EmployeesMethodsMapsImpl.java:191-195 | filtering by the ids of exactly the in-range records is the salary-range filter itself |

## Left out

- Locking. Every operation is one atomic step. The read/write locks (lines 30-35) and
  their lock and unlock calls are not modelled; neither are the races between a check
  and the later update (lines 46-52, 201-210). The `finally` blocks unlock locks the
  thread does not hold (for example lines 66-72 and 215-218). In Java that throws
  `IllegalMonitorStateException`.
  - For a thread that holds no leaked lock, this happens on every path of the four
    mutators, so no return code reaches the caller.
  - It also happens on every range scan with from <= to. Such a scan unlocks
    `readLocks[1]` twice (lines 147 and 150), or `readLocks[2]` twice (lines 167 and
    170). So it also happens on every compound query that reaches the salary scan.
  - A successful `updateSalary` or `updateDepartment` also leaves `writeLocks[2]` or
    `writeLocks[3]` held, because the throw at line 216 or 239 skips line 217 or 240.
    Once a thread has leaked that write lock, a refusal from the same operation on the
    same thread does return its code. This holds for `EMPLOYEE_NOT_FOUND` and
    `SALARY_NOT_UPDATED` at lines 204 and 207, and for `EMPLOYEE_NOT_FOUND` and
    `DEPARTMENT_NOT_UPDATED` at lines 227 and 230. The reason is that the `finally`
    block then releases the read lock the thread holds and the leaked write lock.
    `addEmployee` and `removeEmployee` throw on every path whatever the thread holds,
    because `readLocks[0]`, `writeLocks[0]` and `writeLocks[1]` never leak.

  The model does not capture any of this, because it has no locks.
- EmployeesService.AgeOf: the age is computed with one `today` fixed for the life of
  the store. The Java reads `LocalDate.now()` afresh on every call (line 77), so the
  model does not capture an employee whose birthday passes between `addEmployee`
  (line 56) and `removeEmployee` (line 90). In the Java, that removal either finds no
  bucket for the new age, or finds one without the employee. With no bucket,
  `employeesAge.get(..)` is null and the `NullPointerException` comes after line 84
  has already dropped the table entry. The employee then stays in all three indices.
  With a bucket, `remove(empl)` does nothing, and the removed employee stays in its old
  age bucket, so `getEmployeesByAge` keeps returning it. In the Java, age queries also
  answer by the age at insertion, not the current age. The age part of `Valid()`, which
  `RemoveEmployee` keeps, holds only because `today` is fixed. So does the `AgeOf`
  clause of `GetEmployeesByAge`.
- `save`, `restore` and the `fileName` field: Java serialization and file I/O cannot be
  modelled.
- Calendar arithmetic. `ChronoUnit.YEARS.between` is an uninterpreted constant function
  of the store. `LocalDate.now()` becomes a `today` fixed at construction, so no clock
  is read.
- Defensive copies and object identity. `copyOneEmployee` produces a value equal to its
  argument, so the copies are the records themselves. For the same reason, the model
  does not capture that `getEmployeesByDepartment` hands out the internal list for an
  empty bucket.
- `Employee.equals` and `hashCode`. The Java class `telran.employees.dto.Employee` is not
  part of this model, so its `equals` and `hashCode` are unknown. The
  `HashSet.contains` filter and `List.remove` are modelled by id. If Employee used
  identity equality, the compound query would compare fresh copies and always be empty.
- Missing bucket on removal. The Java dereferences `get(key)` without a check and would
  throw `NullPointerException` if the bucket were absent. Under the invariant the
  bucket of a stored id always exists, so `Buckets.Remove` simply leaves a missing
  bucket as it is.
- Integer widths. Ids (`long`), ages and salaries (`int`) are unbounded integers. The
  store does no arithmetic on them, and the `(int)` cast in `getAge` is part of the
  uninterpreted `yearsBetween`.
- EmployeesService.EmployeesMethodsMaps.GetAllEmployees: states contents only, because
  `HashMap.values()` has no specified order. It is a ghost function over an arbitrary
  enumeration of the ids.
- Emptied buckets stay in the index, as in the Java. `Buckets.RangeSameBuckets` shows
  that scans do not see them.
- The compound query. The Java makes two independent calls, each under its own lock,
  so a concurrent writer could slip between them. The model computes both from one
  state, which is what the two calls give when run sequentially.
