/** The overhead roster: staffing records upserted by id, listed per user
    in (department, employee name) order, and deleted by owner and id. */
module OverheadService {
  import opened Common
  import opened Sorting
  import opened Database

  /** `OverheadEmployee` as the API exchanges it. */
  datatype OverheadEmployee = OverheadEmployee(
    id: Option<string>,
    userId: Option<string>,
    department: string,
    employeeName: string,
    role: string,
    location: Option<string>,
    annualSalary: real,
    allocationPercent: real,
    startDate: Option<string>,
    endDate: Option<string>,
    monthlyAllocations: map<string, real>,
    createdAt: Option<string>,
    updatedAt: Option<string>,
    createdBy: Option<string>,
    updatedBy: Option<string>)

  /** The creator written on insert: the payload's, else the actor. */
  function CreatorOf(emp: OverheadEmployee, actor: Option<string>): Option<string> {
    OrOpt(emp.createdBy, actor)
  }

  /** The updater written on insert and update: the actor, else the
      payload's updater, else its creator. */
  function UpdaterOf(emp: OverheadEmployee, actor: Option<string>): Option<string> {
    OrOpt(OrOpt(actor, emp.updatedBy), emp.createdBy)
  }

  /** The actor, when there is one, is always the updater; the payload's
      own creator, when it names one, is always the creator. */
  lemma ActorPrecedence(emp: OverheadEmployee, actor: Option<string>)
    ensures !IsEmpty(actor) ==> UpdaterOf(emp, actor) == actor
    ensures IsEmpty(actor) && !IsEmpty(emp.updatedBy) ==> UpdaterOf(emp, actor) == emp.updatedBy
    ensures IsEmpty(actor) && IsEmpty(emp.updatedBy) ==> UpdaterOf(emp, actor) == emp.createdBy
    ensures !IsEmpty(emp.createdBy) ==> CreatorOf(emp, actor) == emp.createdBy
    ensures IsEmpty(emp.createdBy) ==> CreatorOf(emp, actor) == actor
    ensures !IsEmpty(actor) ==> !IsEmpty(CreatorOf(emp, actor)) && !IsEmpty(UpdaterOf(emp, actor))
  {
  }

  /** The row the `INSERT` half writes: `COALESCE(id, gen_random_uuid())`
      with `freshId` standing for the generated uuid, the caller as owner,
      and `now` as both timestamps. */
  function InsertRow(userId: string, emp: OverheadEmployee, freshId: string, actor: Option<string>, now: string): (r: OverheadRow)
    ensures r.id == (if emp.id.Some? then emp.id.value else freshId)
    ensures r.userId == userId && r.createdAt == now && r.updatedAt == now
    ensures r.createdBy == CreatorOf(emp, actor) && r.updatedBy == UpdaterOf(emp, actor)
  {
    OverheadRow(
      id := if emp.id.Some? then emp.id.value else freshId,
      userId := userId,
      department := emp.department,
      employeeName := emp.employeeName,
      role := emp.role,
      location := emp.location,
      annualSalary := emp.annualSalary,
      allocationPercent := emp.allocationPercent,
      startDate := emp.startDate,
      endDate := emp.endDate,
      monthlyAllocations := emp.monthlyAllocations,
      createdAt := now,
      updatedAt := now,
      createdBy := CreatorOf(emp, actor),
      updatedBy := UpdaterOf(emp, actor))
  }

  /** `ON CONFLICT (id) DO UPDATE`: the existing row keeps its owner, its
      creator and its creation time; every other column is overwritten. */
  function UpsertedEmployee(prev: Option<OverheadRow>, row: OverheadRow): (r: OverheadRow)
    ensures r.id == row.id
    ensures prev.None? ==> r == row
    ensures prev.Some? ==> && r.userId == prev.value.userId
                           && r.createdBy == prev.value.createdBy
                           && r.createdAt == prev.value.createdAt
    ensures && r.department == row.department && r.employeeName == row.employeeName
            && r.role == row.role && r.location == row.location
            && r.annualSalary == row.annualSalary && r.allocationPercent == row.allocationPercent
            && r.startDate == row.startDate && r.endDate == row.endDate
            && r.monthlyAllocations == row.monthlyAllocations
            && r.updatedAt == row.updatedAt && r.updatedBy == row.updatedBy
  {
    match prev
    case None => row
    case Some(p) => row.(userId := p.userId, createdBy := p.createdBy, createdAt := p.createdAt)
  }

  function LookupEmployee(rows: map<string, OverheadRow>, id: string): Option<OverheadRow> {
    if id in rows then Some(rows[id]) else None
  }

  function UpsertEmployee(rows: map<string, OverheadRow>, row: OverheadRow): map<string, OverheadRow> {
    rows[row.id := UpsertedEmployee(LookupEmployee(rows, row.id), row)]
  }

  /** One `INSERT ... ON CONFLICT (id) DO UPDATE`: the id is present
      afterwards, no other row changes, and the id holds the conflict
      resolution of the new row against the old one. */
  lemma UpsertEmployeeEffect(rows: map<string, OverheadRow>, row: OverheadRow)
    ensures UpsertEmployee(rows, row).Keys == rows.Keys + {row.id}
    ensures forall id :: id in rows && id != row.id ==> UpsertEmployee(rows, row)[id] == rows[id]
    ensures row.id !in rows ==> UpsertEmployee(rows, row)[row.id] == row
    ensures row.id in rows ==> UpsertEmployee(rows, row)[row.id] == UpsertedEmployee(Some(rows[row.id]), row)
  {
  }

  /** The rows the loop writes, one per employee, in order. */
  function InsertRows(userId: string, employees: seq<OverheadEmployee>, newIds: seq<string>, actor: Option<string>, now: string)
    : (rs: seq<OverheadRow>)
    requires |newIds| == |employees|
    ensures |rs| == |employees|
    ensures forall i :: 0 <= i < |rs| ==> rs[i] == InsertRow(userId, employees[i], newIds[i], actor, now)
  {
    seq(|employees|, i requires 0 <= i < |employees| => InsertRow(userId, employees[i], newIds[i], actor, now))
  }

  /** The table after the first `k` upserts. */
  function UpsertEmployees(rows: map<string, OverheadRow>, rs: seq<OverheadRow>): (r: map<string, OverheadRow>)
    ensures r.Keys == rows.Keys + set i | 0 <= i < |rs| :: rs[i].id
  {
    if |rs| == 0 then rows
    else
      var init := rs[..|rs| - 1];
      assert (set i | 0 <= i < |rs| :: rs[i].id) == (set i | 0 <= i < |init| :: init[i].id) + {rs[|rs| - 1].id} by {
        assert forall i :: 0 <= i < |init| ==> init[i] == rs[i];
      }
      UpsertEmployee(UpsertEmployees(rows, init), rs[|rs| - 1])
  }

  /** What `RETURNING *` gives for the `i`-th upsert. */
  function SavedAt(rows: map<string, OverheadRow>, rs: seq<OverheadRow>, i: nat): (r: OverheadRow)
    requires i < |rs|
    ensures r.id == rs[i].id
  {
    UpsertedEmployee(LookupEmployee(UpsertEmployees(rows, rs[..i]), rs[i].id), rs[i])
  }

  /** `_to_employee(row)`: the row as the API record. */
  function ToEmployee(row: OverheadRow): (e: OverheadEmployee)
    ensures e.id == Some(row.id) && e.userId == Some(row.userId)
  {
    OverheadEmployee(
      Some(row.id), Some(row.userId), row.department, row.employeeName, row.role, row.location,
      row.annualSalary, row.allocationPercent, row.startDate, row.endDate, row.monthlyAllocations,
      Some(row.createdAt), Some(row.updatedAt), row.createdBy, row.updatedBy)
  }

  /** An employee saved again by its owner, as listed, changes only in its
      update time and updater. */
  lemma ResaveListedEmployee(row: OverheadRow, freshId: string, actor: Option<string>, now: string)
    ensures var again := InsertRow(row.userId, ToEmployee(row), freshId, actor, now);
      && again.id == row.id
      && UpsertedEmployee(Some(row), again) == row.(updatedAt := now, updatedBy := OrOpt(OrOpt(actor, row.updatedBy), row.createdBy))
  {
  }

  /** An upsert under an id not yet in the table inserts the row as built;
      under an existing id it updates that row. */
  lemma SavedAtInsertsNew(rows: map<string, OverheadRow>, rs: seq<OverheadRow>, i: nat)
    requires i < |rs|
    ensures rs[i].id !in UpsertEmployees(rows, rs[..i]) ==> SavedAt(rows, rs, i) == rs[i]
    ensures rs[i].id in UpsertEmployees(rows, rs[..i]) ==>
      var prior := UpsertEmployees(rows, rs[..i])[rs[i].id];
      SavedAt(rows, rs, i).userId == prior.userId && SavedAt(rows, rs, i).createdAt == prior.createdAt
  {
  }

  /** A generated id that the table does not hold and no other employee in the
      batch uses gives a new row owned by the caller. */
  lemma FreshIdInserts(rows: map<string, OverheadRow>, userId: string, employees: seq<OverheadEmployee>, newIds: seq<string>,
                       actor: Option<string>, now: string, i: nat)
    requires |newIds| == |employees| && i < |employees|
    requires employees[i].id.None? && newIds[i] !in rows
    requires forall j :: 0 <= j < i ==> InsertRow(userId, employees[j], newIds[j], actor, now).id != newIds[i]
    ensures var rs := InsertRows(userId, employees, newIds, actor, now);
      SavedAt(rows, rs, i) == rs[i] && SavedAt(rows, rs, i).id == newIds[i] && SavedAt(rows, rs, i).userId == userId
  {
    var rs := InsertRows(userId, employees, newIds, actor, now);
    var before := UpsertEmployees(rows, rs[..i]);
    assert forall j :: 0 <= j < i ==> rs[..i][j].id != newIds[i];
    assert newIds[i] !in before;
  }

  lemma UpsertEmployeesSnoc(rows: map<string, OverheadRow>, rs: seq<OverheadRow>, i: nat)
    requires i < |rs|
    ensures UpsertEmployees(rows, rs[..i + 1]) == UpsertEmployee(UpsertEmployees(rows, rs[..i]), rs[i])
    ensures UpsertEmployees(rows, rs[..i + 1])[rs[i].id] == SavedAt(rows, rs, i)
  {
    assert rs[..i + 1][..i] == rs[..i];
  }

  lemma SavedSnoc(saved: seq<OverheadRow>, rows: map<string, OverheadRow>, rs: seq<OverheadRow>, i: nat, x: OverheadRow)
    requires i < |rs| && |saved| == i
    requires forall j :: 0 <= j < i ==> saved[j] == SavedAt(rows, rs, j)
    requires x == SavedAt(rows, rs, i)
    ensures forall j :: 0 <= j < i + 1 ==> (saved + [x])[j] == SavedAt(rows, rs, j)
  {
  }

  lemma UpsertEmployeeConsistent(rows: map<string, OverheadRow>, row: OverheadRow)
    requires OverheadKeysConsistent(rows)
    ensures OverheadKeysConsistent(UpsertEmployee(rows, row))
  {
  }

  /** The loop of `upsert_overhead_employees`: one upsert per row, in
      order, collecting what each `RETURNING *` gives. */
  method UpsertEach(db: Db, rs: seq<OverheadRow>) returns (saved: seq<OverheadRow>)
    requires db.Valid()
    modifies db`overhead
    ensures db.Valid()
    ensures db.overhead == UpsertEmployees(old(db.overhead), rs)
    ensures |saved| == |rs|
    ensures forall i :: 0 <= i < |rs| ==> saved[i] == SavedAt(old(db.overhead), rs, i)
  {
    ghost var start := db.overhead;
    saved := [];
    var i := 0;
    while i < |rs|
      invariant 0 <= i <= |rs|
      invariant db.overhead == UpsertEmployees(start, rs[..i])
      invariant |saved| == i
      invariant forall j :: 0 <= j < i ==> saved[j] == SavedAt(start, rs, j)
      invariant db.Valid()
    {
      UpsertEmployeesSnoc(start, rs, i);
      UpsertEmployeeConsistent(db.overhead, rs[i]);
      db.overhead := UpsertEmployee(db.overhead, rs[i]);
      SavedSnoc(saved, start, rs, i, db.overhead[rs[i].id]);
      saved := saved + [db.overhead[rs[i].id]];
      i := i + 1;
    }
    assert rs[..i] == rs;
  }

  /** `upsert_overhead_employees(user_id, employees, actor)`: one upsert per
      employee, in order, each returning its saved row; `newIds[i]` is the
      uuid the database would generate for the `i`-th employee. */
  method UpsertOverheadEmployees(db: Db, userId: string, employees: seq<OverheadEmployee>, actor: Option<string>,
                                 newIds: seq<string>, now: string)
    returns (results: seq<OverheadEmployee>)
    requires db.Valid()
    requires |newIds| == |employees|
    modifies db`overhead
    ensures db.Valid()
    ensures db.overhead == UpsertEmployees(old(db.overhead), InsertRows(userId, employees, newIds, actor, now))
    ensures |results| == |employees|
    ensures forall i :: 0 <= i < |results| ==>
      results[i] == ToEmployee(SavedAt(old(db.overhead), InsertRows(userId, employees, newIds, actor, now), i))
  {
    var rs := InsertRows(userId, employees, newIds, actor, now);
    var saved := UpsertEach(db, rs);
    results := seq(|saved|, i requires 0 <= i < |saved| => ToEmployee(saved[i]));
  }

  /** The sort key of the listing: `ORDER BY department, employee_name`. */
  function RosterKey(rows: map<string, OverheadRow>): string -> seq<string> {
    id => if id in rows then [rows[id].department, rows[id].employeeName] else []
  }

  lemma SortRoster(rows: map<string, OverheadRow>, ids: seq<string>)
    ensures var sorted := SortBy(ids, RosterKey(rows), false);
      && |sorted| == |ids|
      && (forall id :: id in sorted <==> id in ids)
      && SortedBy(sorted, RosterKey(rows), false)
  {
    var sorted := SortBy(ids, RosterKey(rows), false);
    SortBySpec(ids, RosterKey(rows), false);
    forall id ensures id in sorted <==> id in ids {
      assert id in sorted <==> id in multiset(sorted);
      assert id in ids <==> id in multiset(ids);
    }
  }

  /** `list_overhead_employees(user_id)`: the caller's rows and no others,
      ordered by department and then employee name (`ids` is that order;
      equal keys are listed by id). */
  method ListOverheadEmployees(db: Db, userId: string) returns (employees: seq<OverheadEmployee>, ghost ids: seq<string>)
    requires db.Valid()
    ensures forall id :: id in ids <==> id in db.overhead && db.overhead[id].userId == userId
    ensures |ids| == |set id | id in db.overhead && db.overhead[id].userId == userId|
    ensures SortedBy(ids, RosterKey(db.overhead), false)
    ensures |employees| == |ids|
    ensures forall i :: 0 <= i < |ids| ==> employees[i] == ToEmployee(db.overhead[ids[i]])
  {
    employees, ids := Roster(db.overhead, userId);
  }

  /** The listing of `ListOverheadEmployees` over a snapshot of the table. */
  method Roster(table: map<string, OverheadRow>, userId: string) returns (employees: seq<OverheadEmployee>, ghost ids: seq<string>)
    ensures forall id :: id in ids <==> id in table && table[id].userId == userId
    ensures |ids| == |set id | id in table && table[id].userId == userId|
    ensures SortedBy(ids, RosterKey(table), false)
    ensures |employees| == |ids|
    ensures forall i :: 0 <= i < |ids| ==> employees[i] == ToEmployee(table[ids[i]])
  {
    var keys := SortedKeys(OwnRows(table, userId));
    RosterIds(table, userId, keys);
    var sorted := SortBy(keys, RosterKey(table), false);
    ids := sorted;
    employees := seq(|sorted|, i requires 0 <= i < |sorted| && sorted[i] in table => ToEmployee(table[sorted[i]]));
  }

  /** The rows of one user. */
  function OwnRows(table: map<string, OverheadRow>, userId: string): (m: map<string, OverheadRow>)
    ensures m.Keys == set id | id in table && table[id].userId == userId
    ensures forall id :: id in m ==> m[id] == table[id]
  {
    map id | id in table && table[id].userId == userId :: table[id]
  }

  /** Sorting the caller's ids by department and name keeps exactly the
      caller's ids. */
  lemma RosterIds(table: map<string, OverheadRow>, userId: string, keys: seq<string>)
    requires forall id :: id in keys <==> id in table && table[id].userId == userId
    requires |keys| == |set id | id in table && table[id].userId == userId|
    ensures var sorted := SortBy(keys, RosterKey(table), false);
      && (forall id :: id in sorted <==> id in table && table[id].userId == userId)
      && |sorted| == |set id | id in table && table[id].userId == userId|
      && SortedBy(sorted, RosterKey(table), false)
      && (forall i :: 0 <= i < |sorted| ==> sorted[i] in table)
  {
    var sorted := SortBy(keys, RosterKey(table), false);
    SortRoster(table, keys);
    forall i | 0 <= i < |sorted| ensures sorted[i] in table {
      assert sorted[i] in keys;
    }
  }

  /** `DELETE ... WHERE user_id = user AND id = emp_id`. */
  function DeleteEmployee(rows: map<string, OverheadRow>, userId: string, empId: string): (r: map<string, OverheadRow>)
    ensures r.Keys <= rows.Keys
    ensures forall id :: id in r ==> r[id] == rows[id]
    ensures forall id :: id in rows && (id != empId || rows[id].userId != userId) ==> id in r
    ensures empId in rows && rows[empId].userId == userId ==> empId !in r
  {
    if empId in rows && rows[empId].userId == userId then rows - {empId} else rows
  }

  /** `delete_overhead_employee(user_id, emp_id)`. */
  method DeleteOverheadEmployee(db: Db, userId: string, empId: string)
    requires db.Valid()
    modifies db`overhead
    ensures db.Valid()
    ensures db.overhead == DeleteEmployee(old(db.overhead), userId, empId)
  {
    db.overhead := DeleteEmployee(db.overhead, userId, empId);
  }
}
