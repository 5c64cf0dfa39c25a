/**
 * The monthly roster generator (src/utils/rosterEngine.ts). For every requested
 * department and every doctor of it that has a shift assignment there, it walks
 * the days of the month with a rotation cursor: the doctor's week-off weekday
 * gives an OFF entry and moves the cursor one shift on, every other day gives a
 * WORK entry on the shift under the cursor. The cursor starts from the previous
 * month's last entry, or from the assignment's shift.
 *
 * The specification functions below describe the result; GenerateMonthlyRoster
 * computes it with the source's loops and is proved to agree with them.
 */
module RosterEngine {
  import opened Wrappers
  import opened Models
  import Calendar
  import DateText

  /**
   * The one way a run fails: on a working day the cursor names no shift, so
   * `shifts[shiftIndex].id` throws a TypeError and the whole call returns nothing.
   */
  datatype Crash = ShiftUndefined(departmentId: int, doctorId: int, day: int)

  /** The rotation cursor: an array position, or NaN once `% 0` was taken on an empty shift list. */
  datatype Cursor = At(index: int) | NotANumber

  /** The registry snapshot the generator reads; it never changes it. */
  datatype Inputs = Inputs(
    doctors: seq<Doctor>,
    shifts: seq<Shift>,
    assignments: seq<ShiftAssignment>,
    existingRosters: seq<RosterEntry>)

  /**
   * One doctor's month in one department: everything the day walk depends on. The
   * length of the month and the weekday of its first day are read from the calendar
   * once (MonthOf); the weekday of a later day counts on from the first.
   */
  datatype DoctorMonth = DoctorMonth(month: int, year: int, departmentId: int, doctor: Doctor, shifts: seq<Shift>,
                                     days: int, firstWeekday: int)
  {
    predicate Valid()
    {
      0 <= month < 12 && 28 <= days <= 31 && 0 <= firstWeekday < 7
    }

    /** The month's length and first weekday are the calendar's. */
    predicate OnCalendar()
    {
      Valid() && days == Calendar.MonthLength(year, month) && firstWeekday == Calendar.FirstWeekday(year, month)
    }

    /** `daysInMonth` (line 13). */
    function Days(): int
      requires Valid()
    {
      days
    }

    /** Line 68: the day's weekday is the doctor's week-off day. */
    predicate IsOffDay(day: int)
      requires Valid()
    {
      doctor.weekOffDay == (firstWeekday + day - 1) % 7
    }

    function OffEntry(day: int): RosterEntry
      requires Valid() && 1 <= day <= Days()
    {
      RosterEntry(DateText.FormatDate(year, month, day), month, year, departmentId, None, doctor.id, Off)
    }

    function WorkEntry(day: int, shiftId: int): RosterEntry
      requires Valid() && 1 <= day <= Days()
    {
      RosterEntry(DateText.FormatDate(year, month, day), month, year, departmentId, Some(shiftId), doctor.id, Work)
    }
  }

  /** The month of `doctor` in `departmentId` as the calendar lays it out (lines 13 and 64-65). */
  function MonthOf(month: int, year: int, departmentId: int, doctor: Doctor, shifts: seq<Shift>): (m: DoctorMonth)
    requires 0 <= month < 12
    ensures m.OnCalendar()
    ensures m.month == month && m.year == year && m.departmentId == departmentId && m.doctor == doctor && m.shifts == shifts
  {
    DoctorMonth(month, year, departmentId, doctor, shifts, Calendar.MonthLength(year, month), Calendar.FirstWeekday(year, month))
  }

  /** JavaScript's `%`: the remainder takes the sign of the dividend. */
  function JsRem(a: int, n: int): int
    requires n > 0
  {
    if a >= 0 then a % n else -((-a) % n)
  }

  /** Line 81: `shiftIndex = (shiftIndex + 1) % shifts.length`. */
  function Advance(c: Cursor, n: nat): Cursor
  {
    match c
    case NotANumber => NotANumber
    case At(i) => if n == 0 then NotANumber else At(JsRem(i + 1, n))
  }

  /** Line 87: `shifts[shiftIndex]` is a shift only for a position inside the array. */
  predicate Names(c: Cursor, shifts: seq<Shift>)
  {
    c.At? && 0 <= c.index < |shifts|
  }

  /** `shifts.findIndex((s) => s.id === id)`: the first position holding that id, or -1. */
  function FindIndex(shifts: seq<Shift>, id: int): (r: int)
    ensures -1 <= r < |shifts|
    ensures r >= 0 ==> shifts[r].id == id && forall j :: 0 <= j < r ==> shifts[j].id != id
    ensures r == -1 <==> forall j :: 0 <= j < |shifts| ==> shifts[j].id != id
  {
    if shifts == [] then -1
    else if shifts[0].id == id then 0
    else
      var k := FindIndex(shifts[1..], id);
      if k == -1 then -1 else k + 1
  }

  predicate AssignmentOf(a: ShiftAssignment, departmentId: int, doctorId: int)
  {
    a.departmentId == departmentId && a.doctorId == doctorId
  }

  /** Lines 21-25: `assignments.find(...)`, the first assignment of the doctor in the department. */
  function FindAssignment(assignments: seq<ShiftAssignment>, departmentId: int, doctorId: int): (r: Option<ShiftAssignment>)
    ensures r.None? <==> forall a :: a in assignments ==> !AssignmentOf(a, departmentId, doctorId)
    ensures r.Some? ==> exists i :: 0 <= i < |assignments| && assignments[i] == r.value
                          && AssignmentOf(r.value, departmentId, doctorId)
                          && forall j :: 0 <= j < i ==> !AssignmentOf(assignments[j], departmentId, doctorId)
  {
    if assignments == [] then None
    else if AssignmentOf(assignments[0], departmentId, doctorId) then Some(assignments[0])
    else
      var r := FindAssignment(assignments[1..], departmentId, doctorId);
      assert r.Some? ==> r.value in assignments;
      r
  }

  /** Lines 30-31: the month before `month` of `year`, as (month, year). */
  function PreviousMonth(month: int, year: int): (r: (int, int))
    requires 0 <= month < 12
    ensures 0 <= r.0 < 12
    ensures r.1 * 12 + r.0 == year * 12 + month - 1
  {
    if month == 0 then (11, year - 1) else (month - 1, year)
  }

  /** Lines 33-40: the stored entries of this doctor and department for the previous month. */
  function PriorMonthEntries(existing: seq<RosterEntry>, doctorId: int, departmentId: int, month: int, year: int): seq<RosterEntry>
    requires 0 <= month < 12
  {
    var (pm, py) := PreviousMonth(month, year);
    Filter(existing, (r: RosterEntry) => r.doctorId == doctorId && r.departmentId == departmentId && r.month == pm && r.year == py)
  }

  function Key(e: RosterEntry): Option<int>
  {
    DateText.DateKey(e.date)
  }

  /**
   * Lines 41-49: the last element after a stable ascending sort by date, that is the
   * latest-dated entry and, among entries of that date, the one stored last.
   */
  function Latest(entries: seq<RosterEntry>): (r: RosterEntry)
    requires |entries| > 0
    ensures r in entries
    ensures forall e :: e in entries ==> DateText.KeyLe(Key(e), Key(r))
    ensures exists i :: 0 <= i < |entries| && entries[i] == r
                        && forall j :: i < j < |entries| ==> !DateText.KeyLe(Key(r), Key(entries[j]))
  {
    if |entries| == 1 then entries[0]
    else
      var prefix := entries[..|entries| - 1];
      var p := Latest(prefix);
      var e := entries[|entries| - 1];
      assert entries == prefix + [e];
      if DateText.KeyLe(Key(p), Key(e)) then e else p
  }

  /** `if (lastDay.shiftId)`: null and 0 are both falsy. */
  predicate Truthy(shiftId: Option<int>)
  {
    shiftId.Some? && shiftId.value != 0
  }

  /**
   * Lines 45-61: the starting cursor. The latest prior-month entry decides when its
   * shift id is truthy, even when that id is not in `shifts` (then -1); only
   * otherwise does the assignment's shift decide.
   */
  function ResolveStart(month: int, year: int, departmentId: int, doctor: Doctor, shifts: seq<Shift>,
                        assignment: ShiftAssignment, existing: seq<RosterEntry>): (r: int)
    requires 0 <= month < 12
    ensures -1 <= r < |shifts|
  {
    var prior := PriorMonthEntries(existing, doctor.id, departmentId, month, year);
    if |prior| > 0 && Truthy(Latest(prior).shiftId) then FindIndex(shifts, Latest(prior).shiftId.value)
    else FindIndex(shifts, assignment.shiftId)
  }

  /** Runs one after the other: the first failure wins, otherwise the entries concatenate. */
  function Chain(a: Result<seq<RosterEntry>, Crash>, b: Result<seq<RosterEntry>, Crash>): Result<seq<RosterEntry>, Crash>
  {
    match a
    case Failure(e) => Failure(e)
    case Ok(x) =>
      match b
      case Failure(e) => Failure(e)
      case Ok(y) => Ok(x + y)
  }

  /** Lines 63-99: the entries of days `day..Days()` when the cursor stands at `c` on `day`. */
  function WalkFrom(m: DoctorMonth, day: int, c: Cursor): Result<seq<RosterEntry>, Crash>
    requires m.Valid() && 1 <= day <= m.Days() + 1
    decreases m.Days() + 1 - day
  {
    if day > m.Days() then Ok([])
    else if m.IsOffDay(day) then Chain(Ok([m.OffEntry(day)]), WalkFrom(m, day + 1, Advance(c, |m.shifts|)))
    else if Names(c, m.shifts) then Chain(Ok([m.WorkEntry(day, m.shifts[c.index].id)]), WalkFrom(m, day + 1, c))
    else Failure(ShiftUndefined(m.departmentId, m.doctor.id, day))
  }

  /** Lines 20-99 for one doctor: nothing without an assignment, else the walk of the whole month. */
  function DoctorRoster(month: int, year: int, departmentId: int, doctor: Doctor, input: Inputs): Result<seq<RosterEntry>, Crash>
    requires 0 <= month < 12
  {
    match FindAssignment(input.assignments, departmentId, doctor.id)
    case None => Ok([])
    case Some(a) =>
      var start := ResolveStart(month, year, departmentId, doctor, input.shifts, a, input.existingRosters);
      WalkFrom(MonthOf(month, year, departmentId, doctor, input.shifts), 1, At(start))
  }

  /** The doctors `docs` of one department, one after another. */
  function DoctorsRoster(month: int, year: int, departmentId: int, docs: seq<Doctor>, input: Inputs): Result<seq<RosterEntry>, Crash>
    requires 0 <= month < 12
  {
    if docs == [] then Ok([])
    else Chain(DoctorRoster(month, year, departmentId, docs[0], input), DoctorsRoster(month, year, departmentId, docs[1..], input))
  }

  /** What generateMonthlyRoster returns for the departments `departments`, in that order. */
  function Roster(month: int, year: int, departments: seq<int>, input: Inputs): Result<seq<RosterEntry>, Crash>
    requires 0 <= month < 12
  {
    if departments == [] then Ok([])
    else Chain(DoctorsRoster(month, year, departments[0], DepartmentDoctors(input.doctors, departments[0]), input),
               Roster(month, year, departments[1..], input))
  }

  /**
   * Lines 63-99: the day loop of one doctor, with the mutable cursor `shiftIndex`.
   * An OFF day moves the cursor on; a WORK day reads `shifts[shiftIndex]`, which
   * throws when the cursor names no shift.
   */
  method WalkMonth(m: DoctorMonth, shiftIndex: int) returns (out: Result<seq<RosterEntry>, Crash>)
    requires m.Valid()
    ensures out == WalkFrom(m, 1, At(shiftIndex))
  {
    var entries: seq<RosterEntry> := [];
    var cursor := At(shiftIndex);
    var daysInMonth := m.days;
    ChainOkEmpty(WalkFrom(m, 1, cursor));
    var day := 1;
    while day <= daysInMonth
      invariant 1 <= day <= daysInMonth + 1
      invariant WalkFrom(m, 1, At(shiftIndex)) == Chain(Ok(entries), WalkFrom(m, day, cursor))
    {
      // getDay() of the date, counted on from the first of the month
      var dayOfWeek := (m.firstWeekday + day - 1) % 7;
      if m.doctor.weekOffDay == dayOfWeek {
        ChainAssoc(Ok(entries), Ok([m.OffEntry(day)]), WalkFrom(m, day + 1, Advance(cursor, |m.shifts|)));
        entries := entries + [m.OffEntry(day)];
        cursor := Advance(cursor, |m.shifts|);
      } else {
        if !(cursor.At? && 0 <= cursor.index < |m.shifts|) {
          // shifts[shiftIndex] is undefined and reading its id throws
          return Failure(ShiftUndefined(m.departmentId, m.doctor.id, day));
        }
        var shift := m.shifts[cursor.index];
        ChainAssoc(Ok(entries), Ok([m.WorkEntry(day, shift.id)]), WalkFrom(m, day + 1, cursor));
        entries := entries + [m.WorkEntry(day, shift.id)];
      }
      day := day + 1;
    }
    assert entries + [] == entries;
    return Ok(entries);
  }

  /**
   * generateMonthlyRoster (lines 3-104): loops over the departments and their
   * doctors appending to `result`; the day loop of each scheduled doctor is
   * WalkMonth. The ghost sequences `deptStart` and `doctorStart` mark where the
   * current department's and doctor's entries begin.
   */
  method GenerateMonthlyRoster(month: int, year: int, departments: seq<int>, doctors: seq<Doctor>,
                               shifts: seq<Shift>, assignments: seq<ShiftAssignment>, existingRosters: seq<RosterEntry>)
    returns (out: Result<seq<RosterEntry>, Crash>)
    requires 0 <= month < 12
    ensures out == Roster(month, year, departments, Inputs(doctors, shifts, assignments, existingRosters))
  {
    var input := Inputs(doctors, shifts, assignments, existingRosters);
    var result: seq<RosterEntry> := [];
    var i := 0;
    assert departments[i..] == departments;
    ChainOkEmpty(Roster(month, year, departments, input));
    while i < |departments|
      invariant 0 <= i <= |departments|
      invariant Roster(month, year, departments, input) == Chain(Ok(result), Roster(month, year, departments[i..], input))
    {
      var departmentId := departments[i];
      var deptDoctors := DepartmentDoctors(doctors, departmentId);
      ghost var deptStart := result;
      ghost var deptRoster := DoctorsRoster(month, year, departmentId, deptDoctors, input);
      RosterUnfold(month, year, departments, i, input);
      assert deptDoctors[0..] == deptDoctors;
      ChainOkEmpty(deptRoster);
      assert result[|deptStart|..] == [];
      var j := 0;
      while j < |deptDoctors|
        invariant 0 <= j <= |deptDoctors|
        invariant deptStart <= result
        invariant deptRoster == Chain(Ok(result[|deptStart|..]), DoctorsRoster(month, year, departmentId, deptDoctors[j..], input))
      {
        var doctor := deptDoctors[j];
        ghost var doctorStart := result;
        ghost var doctorRoster := DoctorRoster(month, year, departmentId, doctor, input);
        DoctorsUnfold(month, year, departmentId, deptDoctors, j, input);
        var assignedShift := FindAssignment(assignments, departmentId, doctor.id);
        if assignedShift.Some? {
          var shiftIndex := ResolveStart(month, year, departmentId, doctor, shifts, assignedShift.value, existingRosters);
          var entries := WalkMonth(MonthOf(month, year, departmentId, doctor, shifts), shiftIndex);
          if entries.Failure? {
            CrashPropagates(month, year, departments, i, deptDoctors, j, input, result[|deptStart|..], entries.error);
            return Failure(entries.error);
          }
          result := result + entries.value;
        }
        assert result[|doctorStart|..] == if assignedShift.Some? then doctorRoster.value else [];
        DoctorDone(deptRoster, doctorRoster, DoctorsRoster(month, year, departmentId, deptDoctors[j + 1..], input),
                   deptStart, doctorStart, result);
        j := j + 1;
      }
      DepartmentDone(Roster(month, year, departments, input), deptRoster, Roster(month, year, departments[i + 1..], input),
                     deptStart, result, DoctorsRoster(month, year, departmentId, deptDoctors[j..], input));
      i := i + 1;
    }
    assert departments[i..] == [];
    assert result + [] == result;
    return Ok(result);
  }

  lemma {:induction false} RosterUnfold(month: int, year: int, departments: seq<int>, i: int, input: Inputs)
    requires 0 <= month < 12 && 0 <= i < |departments|
    ensures Roster(month, year, departments[i..], input)
         == Chain(DoctorsRoster(month, year, departments[i], DepartmentDoctors(input.doctors, departments[i]), input),
                  Roster(month, year, departments[i + 1..], input))
  {
    assert departments[i..][1..] == departments[i + 1..];
  }

  lemma {:induction false} DoctorsUnfold(month: int, year: int, departmentId: int, docs: seq<Doctor>, j: int, input: Inputs)
    requires 0 <= month < 12 && 0 <= j < |docs|
    ensures DoctorsRoster(month, year, departmentId, docs[j..], input)
         == Chain(DoctorRoster(month, year, departmentId, docs[j], input), DoctorsRoster(month, year, departmentId, docs[j + 1..], input))
  {
    assert docs[j..][1..] == docs[j + 1..];
  }

  /** A doctor's finished entries move from the doctor's part of `result` into the department's. */
  lemma {:induction false} DoctorDone(dept: Result<seq<RosterEntry>, Crash>, doctor: Result<seq<RosterEntry>, Crash>, later: Result<seq<RosterEntry>, Crash>,
                   deptStart: seq<RosterEntry>, doctorStart: seq<RosterEntry>, result: seq<RosterEntry>)
    requires deptStart <= doctorStart <= result
    requires dept == Chain(Ok(doctorStart[|deptStart|..]), Chain(doctor, later))
    requires doctor == Ok(result[|doctorStart|..])
    ensures dept == Chain(Ok(result[|deptStart|..]), later)
  {
    assert result[|deptStart|..] == doctorStart[|deptStart|..] + result[|doctorStart|..];
    ChainAssoc(Ok(doctorStart[|deptStart|..]), doctor, later);
  }

  /** A department's finished entries move into the part of `result` already accounted for. */
  lemma {:induction false} DepartmentDone(all: Result<seq<RosterEntry>, Crash>, dept: Result<seq<RosterEntry>, Crash>, later: Result<seq<RosterEntry>, Crash>,
                       deptStart: seq<RosterEntry>, result: seq<RosterEntry>, remaining: Result<seq<RosterEntry>, Crash>)
    requires deptStart <= result
    requires all == Chain(Ok(deptStart), Chain(dept, later))
    requires dept == Chain(Ok(result[|deptStart|..]), remaining)
    requires remaining == Ok([])
    ensures all == Chain(Ok(result), later)
  {
    assert result == deptStart + result[|deptStart|..];
    assert result[|deptStart|..] + [] == result[|deptStart|..];
    ChainAssoc(Ok(deptStart), dept, later);
  }

  /** A crash on one doctor's working day is the outcome of the whole run. */
  lemma {:induction false} CrashPropagates(month: int, year: int, departments: seq<int>, i: int, docs: seq<Doctor>, j: int, input: Inputs,
                        deptPart: seq<RosterEntry>, e: Crash)
    requires 0 <= month < 12 && 0 <= i < |departments| && 0 <= j < |docs|
    requires DoctorRoster(month, year, departments[i], docs[j], input) == Failure(e)
    requires DoctorsRoster(month, year, departments[i], docs, input)
          == Chain(Ok(deptPart), DoctorsRoster(month, year, departments[i], docs[j..], input))
    requires docs == DepartmentDoctors(input.doctors, departments[i])
    ensures Chain(Ok([]), Roster(month, year, departments[i..], input)) == Failure(e)
  {
    DoctorsUnfold(month, year, departments[i], docs, j, input);
    RosterUnfold(month, year, departments, i, input);
  }

  lemma {:induction false} ChainOkEmpty(r: Result<seq<RosterEntry>, Crash>)
    ensures Chain(Ok([]), r) == r
  {
    if r.Ok? {
      assert [] + r.value == r.value;
    }
  }

  lemma {:induction false} ChainAssoc(a: Result<seq<RosterEntry>, Crash>, b: Result<seq<RosterEntry>, Crash>, c: Result<seq<RosterEntry>, Crash>)
    ensures Chain(Chain(a, b), c) == Chain(a, Chain(b, c))
  {
    if a.Ok? && b.Ok? && c.Ok? {
      assert a.value + b.value + c.value == a.value + (b.value + c.value);
    }
  }
}
