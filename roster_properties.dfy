/**
 * What the monthly roster generator guarantees, proved about the specification
 * functions of RosterEngine (which GenerateMonthlyRoster is proved to compute):
 * the rotation law of one doctor's month, coverage of every day, the conditions
 * under which a run throws, where every output entry comes from, and continuity
 * of the rotation from one month into the next.
 */
module RosterProperties {
  import opened Wrappers
  import opened Models
  import opened RosterEngine
  import Calendar
  import DateText

  /** Number of OFF days among the days `lo .. hi - 1` of the month. */
  function OffDaysBetween(m: DoctorMonth, lo: int, hi: int): nat
    requires m.Valid()
    decreases hi - lo
  {
    if hi <= lo then 0 else (if m.IsOffDay(lo) then 1 else 0) + OffDaysBetween(m, lo + 1, hi)
  }

  /**
   * The shift position the rotation law assigns to `day` when the month starts at
   * position `start`: one step further for every OFF day before it.
   */
  function ShiftPosition(m: DoctorMonth, start: int, day: int): int
    requires m.Valid() && |m.shifts| > 0
  {
    (start + OffDaysBetween(m, 1, day)) % |m.shifts|
  }

  /** The entry the rotation law prescribes for `day`, independently of the day loop. */
  function RotationEntry(m: DoctorMonth, start: int, day: int): RosterEntry
    requires m.Valid() && |m.shifts| > 0 && 1 <= day <= m.Days()
  {
    if m.IsOffDay(day) then m.OffEntry(day)
    else m.WorkEntry(day, m.shifts[ShiftPosition(m, start, day)].id)
  }

  lemma {:induction false} OffDaysExtend(m: DoctorMonth, lo: int, hi: int)
    requires m.Valid() && lo <= hi
    ensures OffDaysBetween(m, lo, hi + 1) == OffDaysBetween(m, lo, hi) + (if m.IsOffDay(hi) then 1 else 0)
    decreases hi - lo
  {
    if lo < hi {
      OffDaysExtend(m, lo + 1, hi);
    }
  }

  lemma {:induction false} ModSucc(a: int, n: int)
    requires a >= 0 && n > 0
    ensures (a % n + 1) % n == (a + 1) % n
  {
    var q, r := a / n, a % n;
    if r + 1 < n {
      Calendar.ModUnique(a + 1, n, q, r + 1);
    } else {
      Calendar.ModUnique(a + 1, n, q + 1, 0);
      Calendar.ModUnique(r + 1, n, 1, 0);
    }
  }

  /**
   * The rotation law as a transition: from one day to the next the position is
   * unchanged after a WORK day and moves one shift on, cyclically, after an OFF day.
   */
  lemma {:induction false} RotationStep(m: DoctorMonth, start: int, day: int)
    requires m.Valid() && |m.shifts| > 0 && start >= 0 && 1 <= day
    ensures ShiftPosition(m, start, day + 1)
            == if m.IsOffDay(day) then (ShiftPosition(m, start, day) + 1) % |m.shifts| else ShiftPosition(m, start, day)
  {
    OffDaysExtend(m, 1, day);
    ModSucc(start + OffDaysBetween(m, 1, day), |m.shifts|);
  }

  /** One day of the walk: the prescribed entry, then the rest of the month from the next position. */
  lemma {:induction false} WalkStep(m: DoctorMonth, start: int, day: int)
    requires m.Valid() && |m.shifts| > 0 && start >= 0 && 1 <= day <= m.Days()
    ensures WalkFrom(m, day, At(ShiftPosition(m, start, day)))
            == Chain(Ok([RotationEntry(m, start, day)]), WalkFrom(m, day + 1, At(ShiftPosition(m, start, day + 1))))
  {
    RotationStep(m, start, day);
  }

  /** The entries the rotation law prescribes for days `day .. Days()`. */
  function RotationEntries(m: DoctorMonth, start: int, day: int): seq<RosterEntry>
    requires m.Valid() && |m.shifts| > 0 && 1 <= day
  {
    Tabulate(day, m.Days() + 1, d requires m.Valid() && |m.shifts| > 0 && 1 <= d <= m.Days() => RotationEntry(m, start, d))
  }

  /**
   * The day loop follows the rotation law: walking from `day` with the cursor at the
   * position the law gives for `day` produces exactly the prescribed entries.
   */
  lemma {:induction false} WalkFollowsRotation(m: DoctorMonth, start: int, day: int)
    requires m.Valid() && |m.shifts| > 0 && start >= 0 && 1 <= day <= m.Days() + 1
    ensures WalkFrom(m, day, At(ShiftPosition(m, start, day))) == Ok(RotationEntries(m, start, day))
    decreases m.Days() + 1 - day
  {
    if day <= m.Days() {
      WalkStep(m, start, day);
      WalkFollowsRotation(m, start, day + 1);
    }
  }

  /**
   * One doctor's month from a valid start position: one entry per day 1..Days() in
   * order, each carrying the month, year, department, doctor and date of that day;
   * OFF with no shift exactly on the week-off weekday; otherwise WORK on the shift at
   * the start position moved on once per earlier OFF day.
   */
  lemma {:induction false} DoctorMonthShape(m: DoctorMonth, start: int)
    requires m.Valid() && 0 <= start < |m.shifts|
    ensures WalkFrom(m, 1, At(start)).Ok?
    ensures var es := WalkFrom(m, 1, At(start)).value;
            && |es| == m.Days()
            && (forall k :: 0 <= k < |es| ==>
                  && es[k].date == DateText.FormatDate(m.year, m.month, k + 1)
                  && es[k].month == m.month && es[k].year == m.year
                  && es[k].departmentId == m.departmentId && es[k].doctorId == m.doctor.id)
            && (forall k :: 0 <= k < |es| ==>
                  && (es[k].status == Off <==> m.IsOffDay(k + 1))
                  && (es[k].status == Off <==> es[k].shiftId.None?))
            && (forall k :: 0 <= k < |es| && es[k].status == Work ==>
                  es[k].shiftId == Some(m.shifts[ShiftPosition(m, start, k + 1)].id))
  {
    assert ShiftPosition(m, start, 1) == start;
    WalkFollowsRotation(m, start, 1);
  }

  /** The entries of a month carry strictly increasing dates: of two entries, the later one has the later date. */
  lemma {:induction false} DatesAscending(m: DoctorMonth, start: int, i: int, j: int)
    requires m.Valid() && 0 <= start < |m.shifts|
    requires 0 <= i < j < m.Days()
    ensures WalkFrom(m, 1, At(start)).Ok? && |WalkFrom(m, 1, At(start)).value| == m.Days()
    ensures var es := WalkFrom(m, 1, At(start)).value;
            Key(es[i]).Some? && Key(es[j]).Some? && Key(es[i]).value < Key(es[j]).value
  {
    EntryDates(m, start);
    var es := WalkFrom(m, 1, At(start)).value;
    KeysAscending(es[i], es[j], m.year, m.month, i + 1, j + 1);
  }

  lemma {:induction false} EntryDates(m: DoctorMonth, start: int)
    requires m.Valid() && 0 <= start < |m.shifts|
    ensures WalkFrom(m, 1, At(start)).Ok?
    ensures var es := WalkFrom(m, 1, At(start)).value;
            |es| == m.Days() && forall k :: 0 <= k < |es| ==> es[k].date == DateText.FormatDate(m.year, m.month, k + 1)
  {
    DoctorMonthShape(m, start);
  }

  lemma {:induction false} KeysAscending(e1: RosterEntry, e2: RosterEntry, year: int, month: int, d1: int, d2: int)
    requires 0 <= month < 12 && 1 <= d1 < d2 <= 31
    requires e1.date == DateText.FormatDate(year, month, d1) && e2.date == DateText.FormatDate(year, month, d2)
    ensures Key(e1).Some? && Key(e2).Some? && Key(e1).value < Key(e2).value
    ensures DateText.KeyLe(Key(e1), Key(e2)) && !DateText.KeyLe(Key(e2), Key(e1))
  {
    DateText.DateKeyIncreasing(year, month, d1, d2);
  }

  /**
   * A cursor of -1 (the shift was not found) throws on day 1 unless day 1 is an OFF
   * day; in that case the run goes on as if the cursor had stood at the last shift,
   * so the first working run silently uses the first shift.
   */
  lemma {:induction false} MissingShiftStart(m: DoctorMonth)
    requires m.Valid() && |m.shifts| > 0
    ensures WalkFrom(m, 1, At(-1)).Ok? <==> m.IsOffDay(1)
    ensures m.IsOffDay(1) ==> WalkFrom(m, 1, At(-1)) == WalkFrom(m, 1, At(|m.shifts| - 1))
  {
    if m.IsOffDay(1) {
      Calendar.ModUnique(|m.shifts|, |m.shifts|, 1, 0);
      assert Advance(At(-1), |m.shifts|) == Advance(At(|m.shifts| - 1), |m.shifts|);
      ValidStartSucceeds(m, |m.shifts| - 1);
    }
  }

  /** With no shifts at all, every scheduled doctor's month throws, whatever the cursor. */
  lemma {:induction false} NoShiftsThrows(m: DoctorMonth, c: Cursor)
    requires m.Valid() && |m.shifts| == 0
    ensures WalkFrom(m, 1, c).Failure?
  {
    if m.IsOffDay(1) {
      NoShiftsWorkDayThrows(m, 2, Advance(c, 0));
    } else {
      NoShiftsWorkDayThrows(m, 1, c);
    }
  }

  lemma {:induction false} NoShiftsWorkDayThrows(m: DoctorMonth, day: int, c: Cursor)
    requires m.Valid() && |m.shifts| == 0 && 1 <= day <= m.Days() && !m.IsOffDay(day)
    ensures WalkFrom(m, day, c).Failure?
  {
    assert !Names(c, m.shifts);
  }

  /** A doctor's month succeeds from every start position inside the shift list. */
  lemma {:induction false} ValidStartSucceeds(m: DoctorMonth, start: int)
    requires m.Valid() && 0 <= start < |m.shifts|
    ensures WalkFrom(m, 1, At(start)).Ok?
  {
    DoctorMonthShape(m, start);
  }

  // ---------------------------------------------------------------------------
  // The whole run

  predicate UniqueDoctorIds(docs: seq<Doctor>)
  {
    forall i, j :: 0 <= i < j < |docs| ==> docs[i].id != docs[j].id
  }

  predicate DistinctDepartments(departments: seq<int>)
  {
    forall i, j :: 0 <= i < j < |departments| ==> departments[i] != departments[j]
  }

  predicate UniqueShiftIds(shifts: seq<Shift>)
  {
    forall i, j :: 0 <= i < j < |shifts| ==> shifts[i].id != shifts[j].id
  }

  predicate EntryOf(e: RosterEntry, doctorId: int, departmentId: int)
  {
    e.doctorId == doctorId && e.departmentId == departmentId
  }

  /** The entries of one doctor in one department, in output order. */
  function EntriesOf(out: seq<RosterEntry>, doctorId: int, departmentId: int): seq<RosterEntry>
  {
    Filter(out, (e: RosterEntry) => EntryOf(e, doctorId, departmentId))
  }

  lemma {:induction false} WalkEntriesBelong(m: DoctorMonth, day: int, c: Cursor)
    requires m.Valid() && 1 <= day <= m.Days() + 1
    ensures WalkFrom(m, day, c).Ok? ==>
              forall e :: e in WalkFrom(m, day, c).value ==>
                e.month == m.month && e.year == m.year && EntryOf(e, m.doctor.id, m.departmentId)
    decreases m.Days() + 1 - day
  {
    if day <= m.Days() {
      WalkEntriesBelong(m, day + 1, Advance(c, |m.shifts|));
      WalkEntriesBelong(m, day + 1, c);
    }
  }

  /** Every entry of a doctor's part names that doctor, the department and the target month; only assigned doctors have any. */
  lemma {:induction false} DoctorEntriesBelong(month: int, year: int, departmentId: int, doctor: Doctor, input: Inputs)
    requires 0 <= month < 12
    ensures var r := DoctorRoster(month, year, departmentId, doctor, input);
            r.Ok? ==> forall e :: e in r.value ==>
              && e.month == month && e.year == year && EntryOf(e, doctor.id, departmentId)
              && FindAssignment(input.assignments, departmentId, doctor.id).Some?
  {
    match FindAssignment(input.assignments, departmentId, doctor.id)
    case None =>
    case Some(a) =>
      var start := ResolveStart(month, year, departmentId, doctor, input.shifts, a, input.existingRosters);
      WalkEntriesBelong(MonthOf(month, year, departmentId, doctor, input.shifts), 1, At(start));
  }

  lemma {:induction false} DoctorsEntriesBelong(month: int, year: int, departmentId: int, docs: seq<Doctor>, input: Inputs)
    requires 0 <= month < 12
    ensures var r := DoctorsRoster(month, year, departmentId, docs, input);
            r.Ok? ==> forall e :: e in r.value ==>
              && e.month == month && e.year == year && e.departmentId == departmentId
              && FindAssignment(input.assignments, departmentId, e.doctorId).Some?
              && exists d :: d in docs && d.id == e.doctorId
  {
    if docs != [] {
      DoctorEntriesBelong(month, year, departmentId, docs[0], input);
      DoctorsEntriesBelong(month, year, departmentId, docs[1..], input);
      var r := DoctorsRoster(month, year, departmentId, docs, input);
      if r.Ok? {
        forall e | e in r.value
          ensures exists d :: d in docs && d.id == e.doctorId
        {
          if e !in DoctorRoster(month, year, departmentId, docs[0], input).value {
            var d :| d in docs[1..] && d.id == e.doctorId;
            assert d in docs;
          }
        }
      }
    }
  }

  /**
   * Provenance of the output: every entry is in the target month and year, belongs
   * to a requested department, names a doctor of that department, and that doctor
   * has an assignment there.
   */
  lemma {:induction false} RosterEntriesBelong(month: int, year: int, departments: seq<int>, input: Inputs)
    requires 0 <= month < 12
    ensures var r := Roster(month, year, departments, input);
            r.Ok? ==> forall e :: e in r.value ==>
              && e.month == month && e.year == year && e.departmentId in departments
              && FindAssignment(input.assignments, e.departmentId, e.doctorId).Some?
              && exists d :: d in input.doctors && d.id == e.doctorId && d.departmentId == e.departmentId
  {
    if departments != [] {
      var dep := departments[0];
      DoctorsEntriesBelong(month, year, dep, DepartmentDoctors(input.doctors, dep), input);
      RosterEntriesBelong(month, year, departments[1..], input);
      var r := Roster(month, year, departments, input);
      if r.Ok? {
        var head := DoctorsRoster(month, year, dep, DepartmentDoctors(input.doctors, dep), input);
        forall e | e in r.value
          ensures e.departmentId in departments
          ensures exists d :: d in input.doctors && d.id == e.doctorId && d.departmentId == e.departmentId
        {
          if e in head.value {
            var d :| d in DepartmentDoctors(input.doctors, dep) && d.id == e.doctorId;
            assert d in input.doctors && d.departmentId == e.departmentId;
          } else {
            assert e in Roster(month, year, departments[1..], input).value;
          }
        }
      }
    }
  }

  /** A doctor with no assignment in a department gets no entry there. */
  lemma {:induction false} UnassignedDoctorHasNoEntries(month: int, year: int, departments: seq<int>, input: Inputs, doctorId: int, departmentId: int)
    requires 0 <= month < 12
    requires FindAssignment(input.assignments, departmentId, doctorId).None?
    requires Roster(month, year, departments, input).Ok?
    ensures EntriesOf(Roster(month, year, departments, input).value, doctorId, departmentId) == []
  {
    RosterEntriesBelong(month, year, departments, input);
    FilterNone(Roster(month, year, departments, input).value, (e: RosterEntry) => EntryOf(e, doctorId, departmentId));
  }

  lemma {:induction false} DoctorsRosterOk(month: int, year: int, departmentId: int, docs: seq<Doctor>, input: Inputs)
    requires 0 <= month < 12
    ensures DoctorsRoster(month, year, departmentId, docs, input).Ok?
            <==> forall d :: d in docs ==> DoctorRoster(month, year, departmentId, d, input).Ok?
  {
    if docs != [] {
      DoctorsRosterOk(month, year, departmentId, docs[1..], input);
      assert forall d :: d in docs <==> d == docs[0] || d in docs[1..];
    }
  }

  /**
   * The run returns a roster exactly when no scheduled doctor's month throws; one
   * doctor whose cursor names no shift on a working day loses the whole result.
   */
  lemma {:induction false} RosterOkIff(month: int, year: int, departments: seq<int>, input: Inputs)
    requires 0 <= month < 12
    ensures Roster(month, year, departments, input).Ok?
            <==> forall dep, d :: dep in departments && d in DepartmentDoctors(input.doctors, dep)
                   ==> DoctorRoster(month, year, dep, d, input).Ok?
  {
    if departments != [] {
      DoctorsRosterOk(month, year, departments[0], DepartmentDoctors(input.doctors, departments[0]), input);
      RosterOkIff(month, year, departments[1..], input);
      assert forall dep :: dep in departments <==> dep == departments[0] || dep in departments[1..];
    }
  }

  lemma {:induction false} FilterKeepsUniqueIds(docs: seq<Doctor>, departmentId: int)
    requires UniqueDoctorIds(docs)
    ensures UniqueDoctorIds(DepartmentDoctors(docs, departmentId))
  {
    if docs != [] {
      FilterKeepsUniqueIds(docs[1..], departmentId);
      var rest := DepartmentDoctors(docs[1..], departmentId);
      assert forall d :: d in rest ==> d in docs[1..];
      assert forall d :: d in docs[1..] ==> d.id != docs[0].id;
    }
  }

  lemma {:induction false} DoctorsEntriesOf(month: int, year: int, departmentId: int, docs: seq<Doctor>, input: Inputs, doctor: Doctor)
    requires 0 <= month < 12
    requires UniqueDoctorIds(docs) && doctor in docs
    requires DoctorsRoster(month, year, departmentId, docs, input).Ok?
    ensures DoctorRoster(month, year, departmentId, doctor, input).Ok?
    ensures EntriesOf(DoctorsRoster(month, year, departmentId, docs, input).value, doctor.id, departmentId)
            == DoctorRoster(month, year, departmentId, doctor, input).value
  {
    var p := (e: RosterEntry) => EntryOf(e, doctor.id, departmentId);
    var head := DoctorRoster(month, year, departmentId, docs[0], input);
    var tail := DoctorsRoster(month, year, departmentId, docs[1..], input);
    FilterAppend(head.value, tail.value, p);
    DoctorEntriesBelong(month, year, departmentId, docs[0], input);
    if docs[0] == doctor {
      FilterAll(head.value, p);
      DoctorsEntriesBelong(month, year, departmentId, docs[1..], input);
      assert forall d :: d in docs[1..] ==> d.id != doctor.id;
      FilterNone(tail.value, p);
    } else {
      assert doctor in docs[1..];
      assert docs[0].id != doctor.id;
      FilterNone(head.value, p);
      DoctorsEntriesOf(month, year, departmentId, docs[1..], input, doctor);
    }
  }

  /**
   * The output holds exactly one doctor's own month for each scheduled doctor: the
   * entries naming a doctor and its department, taken in output order, are that
   * doctor's month as computed on its own (given distinct requested departments and
   * distinct doctor ids).
   */
  lemma {:induction false} RosterEntriesOf(month: int, year: int, departments: seq<int>, input: Inputs, doctor: Doctor)
    requires 0 <= month < 12
    requires DistinctDepartments(departments) && UniqueDoctorIds(input.doctors)
    requires doctor in input.doctors && doctor.departmentId in departments
    requires Roster(month, year, departments, input).Ok?
    ensures DoctorRoster(month, year, doctor.departmentId, doctor, input).Ok?
    ensures EntriesOf(Roster(month, year, departments, input).value, doctor.id, doctor.departmentId)
            == DoctorRoster(month, year, doctor.departmentId, doctor, input).value
  {
    var dep := departments[0];
    var p := (e: RosterEntry) => EntryOf(e, doctor.id, doctor.departmentId);
    var docs := DepartmentDoctors(input.doctors, dep);
    var head := DoctorsRoster(month, year, dep, docs, input);
    var tail := Roster(month, year, departments[1..], input);
    FilterAppend(head.value, tail.value, p);
    DoctorsEntriesBelong(month, year, dep, docs, input);
    if dep == doctor.departmentId {
      FilterKeepsUniqueIds(input.doctors, dep);
      DoctorsEntriesOf(month, year, dep, docs, input, doctor);
      RosterEntriesBelong(month, year, departments[1..], input);
      assert doctor.departmentId !in departments[1..];
      FilterNone(tail.value, p);
    } else {
      FilterNone(head.value, p);
      RosterEntriesOf(month, year, departments[1..], input, doctor);
    }
  }

  /**
   * A doctor's month read against the calendar: from a start position inside the
   * shift list, one entry per day of the month, in day order, each OFF exactly on
   * the week-off weekday.
   */
  lemma {:induction false} CalendarMonth(month: int, year: int, doctor: Doctor, shifts: seq<Shift>, start: int)
    requires 0 <= month < 12 && 0 <= start < |shifts|
    ensures WalkFrom(MonthOf(month, year, doctor.departmentId, doctor, shifts), 1, At(start)).Ok?
    ensures var es := WalkFrom(MonthOf(month, year, doctor.departmentId, doctor, shifts), 1, At(start)).value;
            && |es| == Calendar.MonthLength(year, month)
            && forall k :: 0 <= k < |es| ==>
                 && es[k].date == DateText.FormatDate(year, month, k + 1)
                 && (es[k].status == Off <==> doctor.weekOffDay == Calendar.Weekday(year, month, k + 1))
  {
    var m := MonthOf(month, year, doctor.departmentId, doctor, shifts);
    DoctorMonthShape(m, start);
    var es := WalkFrom(m, 1, At(start)).value;
    forall k | 0 <= k < |es|
      ensures es[k].status == Off <==> doctor.weekOffDay == Calendar.Weekday(year, month, k + 1)
    {
      OffDayIsWeekday(month, year, doctor, shifts, k + 1);
    }
  }

  /** A day of a month laid out by the calendar is OFF exactly when its weekday is the week-off day. */
  lemma {:induction false} OffDayOnCalendar(month: int, year: int, doctor: Doctor, shifts: seq<Shift>, day: int)
    requires 0 <= month < 12
    ensures MonthOf(month, year, doctor.departmentId, doctor, shifts).IsOffDay(day)
            <==> doctor.weekOffDay == Calendar.DayOfWeek(Calendar.JsFullYear(year), month, day)
  {
    OffDayIsWeekday(month, year, doctor, shifts, day);
    Calendar.WeekdayIsDayOfWeek(year, month, day);
  }

  /** The loop's off-day test, counted on from the weekday of the 1st. */
  lemma {:induction false} OffDayIsWeekday(month: int, year: int, doctor: Doctor, shifts: seq<Shift>, day: int)
    requires 0 <= month < 12
    ensures MonthOf(month, year, doctor.departmentId, doctor, shifts).IsOffDay(day)
            <==> doctor.weekOffDay == Calendar.Weekday(year, month, day)
  {
  }

  /**
   * Coverage in the output: whenever the call returns, a doctor of a requested
   * department with an assignment there has exactly one entry per day of the month,
   * in day order, each OFF exactly on the week-off weekday. This includes a doctor
   * whose start shift is not in the list but whose first day is OFF.
   */
  lemma {:induction false} Coverage(month: int, year: int, departments: seq<int>, input: Inputs, doctor: Doctor, a: ShiftAssignment)
    requires 0 <= month < 12
    requires DistinctDepartments(departments) && UniqueDoctorIds(input.doctors)
    requires doctor in input.doctors && doctor.departmentId in departments
    requires FindAssignment(input.assignments, doctor.departmentId, doctor.id) == Some(a)
    requires Roster(month, year, departments, input).Ok?
    ensures var es := EntriesOf(Roster(month, year, departments, input).value, doctor.id, doctor.departmentId);
            && |es| == Calendar.MonthLength(year, month)
            && forall k :: 0 <= k < |es| ==>
                 && es[k].date == DateText.FormatDate(year, month, k + 1)
                 && (es[k].status == Off <==> doctor.weekOffDay == Calendar.Weekday(year, month, k + 1))
  {
    RosterEntriesOf(month, year, departments, input, doctor);
    var start := ResolveStart(month, year, doctor.departmentId, doctor, input.shifts, a, input.existingRosters);
    ReturnedMonth(month, year, doctor, input.shifts, start);
  }

  /**
   * A doctor's month that returns, from any start the lookup can give (-1 included),
   * has one entry per day of the month, in day order, each OFF exactly on the week-off weekday.
   */
  lemma {:induction false} ReturnedMonth(month: int, year: int, doctor: Doctor, shifts: seq<Shift>, start: int)
    requires 0 <= month < 12 && -1 <= start < |shifts|
    requires WalkFrom(MonthOf(month, year, doctor.departmentId, doctor, shifts), 1, At(start)).Ok?
    ensures var es := WalkFrom(MonthOf(month, year, doctor.departmentId, doctor, shifts), 1, At(start)).value;
            && |es| == Calendar.MonthLength(year, month)
            && forall k :: 0 <= k < |es| ==>
                 && es[k].date == DateText.FormatDate(year, month, k + 1)
                 && (es[k].status == Off <==> doctor.weekOffDay == Calendar.Weekday(year, month, k + 1))
  {
    var m := MonthOf(month, year, doctor.departmentId, doctor, shifts);
    if 0 <= start {
      CalendarMonth(month, year, doctor, shifts, start);
    } else if |shifts| == 0 {
      NoShiftsThrows(m, At(start));
      assert false;
    } else {
      MissingShiftStart(m);
      CalendarMonth(month, year, doctor, shifts, |shifts| - 1);
    }
  }

  // ---------------------------------------------------------------------------
  // The start position

  lemma {:induction false} FindIndexOfUnique(shifts: seq<Shift>, p: int)
    requires UniqueShiftIds(shifts) && 0 <= p < |shifts|
    ensures FindIndex(shifts, shifts[p].id) == p
  {
    var r := FindIndex(shifts, shifts[p].id);
    assert r != -1;
  }

  /** When no entry is dated after the last one, the latest entry is the last one. */
  lemma {:induction false} LatestIsLast(es: seq<RosterEntry>)
    requires |es| > 0
    requires forall i :: 0 <= i < |es| - 1 ==> DateText.KeyLe(Key(es[i]), Key(es[|es| - 1]))
    ensures Latest(es) == es[|es| - 1]
  {
    if |es| > 1 {
      var prefix := es[..|es| - 1];
      var p := Latest(prefix);
      var i :| 0 <= i < |prefix| && prefix[i] == p;
      assert es[i] == p;
    }
  }

  /** The latest-dated entry of a generated month is its last day. */
  lemma {:induction false} LatestOfMonth(m: DoctorMonth, start: int)
    requires m.Valid() && 0 <= start < |m.shifts|
    ensures WalkFrom(m, 1, At(start)).Ok?
    ensures var es := WalkFrom(m, 1, At(start)).value;
            |es| == m.Days() && Latest(es) == es[|es| - 1]
  {
    EntryDates(m, start);
    var es := WalkFrom(m, 1, At(start)).value;
    forall i | 0 <= i < |es| - 1
      ensures DateText.KeyLe(Key(es[i]), Key(es[|es| - 1]))
    {
      KeysAscending(es[i], es[|es| - 1], m.year, m.month, i + 1, |es|);
    }
    LatestIsLast(es);
  }

  /** The status and shift of the entry of day `k + 1`, without its date. */
  lemma {:induction false} EntryAt(m: DoctorMonth, start: int, k: int)
    requires m.Valid() && 0 <= start < |m.shifts| && 0 <= k < m.Days()
    ensures WalkFrom(m, 1, At(start)).Ok? && |WalkFrom(m, 1, At(start)).value| == m.Days()
    ensures var e := WalkFrom(m, 1, At(start)).value[k];
            && (e.status == Off <==> m.IsOffDay(k + 1))
            && e.shiftId == if m.IsOffDay(k + 1) then None else Some(m.shifts[ShiftPosition(m, start, k + 1)].id)
  {
    assert ShiftPosition(m, start, 1) == start;
    WalkFollowsRotation(m, start, 1);
  }

  /**
   * The start position is read off the latest prior entry when its shift id is truthy:
   * the entry at `i` that no prior entry's date exceeds and that no later-stored entry
   * of the same or a later date follows.
   */
  lemma {:induction false} StartFromLatest(month: int, year: int, departmentId: int, doctor: Doctor, shifts: seq<Shift>,
                        a: ShiftAssignment, existing: seq<RosterEntry>, i: int)
    requires 0 <= month < 12
    requires var prior := PriorMonthEntries(existing, doctor.id, departmentId, month, year);
             && 0 <= i < |prior|
             && (forall e :: e in prior ==> DateText.KeyLe(Key(e), Key(prior[i])))
             && (forall j :: i < j < |prior| ==> !DateText.KeyLe(Key(prior[i]), Key(prior[j])))
    ensures var e := PriorMonthEntries(existing, doctor.id, departmentId, month, year)[i];
            ResolveStart(month, year, departmentId, doctor, shifts, a, existing)
            == if Truthy(e.shiftId) then FindIndex(shifts, e.shiftId.value) else FindIndex(shifts, a.shiftId)
  {
    LatestAt(PriorMonthEntries(existing, doctor.id, departmentId, month, year), i);
  }

  /** The entry no other outdates and no later-stored entry ties or follows is the one the sort leaves last. */
  lemma {:induction false} LatestAt(es: seq<RosterEntry>, i: int)
    requires 0 <= i < |es|
    requires forall e :: e in es ==> DateText.KeyLe(Key(e), Key(es[i]))
    requires forall j :: i < j < |es| ==> !DateText.KeyLe(Key(es[i]), Key(es[j]))
    ensures Latest(es) == es[i]
  {
    var r := Latest(es);
    var k :| 0 <= k < |es| && es[k] == r
             && forall j :: k < j < |es| ==> !DateText.KeyLe(Key(r), Key(es[j]));
    assert es[k] in es && es[i] in es;
  }

  /**
   * Baseline fallback: with no stored entry of the previous month for this doctor and
   * department, the month starts at the position of the assignment's shift.
   */
  lemma {:induction false} BaselineFallback(month: int, year: int, departmentId: int, doctor: Doctor, shifts: seq<Shift>,
                         a: ShiftAssignment, existing: seq<RosterEntry>, p: int)
    requires 0 <= month < 12
    requires PriorMonthEntries(existing, doctor.id, departmentId, month, year) == []
    requires UniqueShiftIds(shifts) && 0 <= p < |shifts| && shifts[p].id == a.shiftId
    ensures ResolveStart(month, year, departmentId, doctor, shifts, a, existing) == p
  {
    FindIndexOfUnique(shifts, p);
  }

  /** Until the first OFF day, a month started at position `p` works the shift at `p`. */
  lemma {:induction false} FirstRunOnStartShift(m: DoctorMonth, p: int)
    requires m.Valid() && 0 <= p < |m.shifts|
    ensures WalkFrom(m, 1, At(p)).Ok?
    ensures var es := WalkFrom(m, 1, At(p)).value;
            forall k :: 0 <= k < |es| && es[k].status == Work && OffDaysBetween(m, 1, k + 1) == 0
              ==> es[k].shiftId == Some(m.shifts[p].id)
  {
    Calendar.ModUnique(p, |m.shifts|, 0, p);
    EntryAt(m, p, 0);
    var es := WalkFrom(m, 1, At(p)).value;
    forall k | 0 <= k < |es| && es[k].status == Work && OffDaysBetween(m, 1, k + 1) == 0
      ensures es[k].shiftId == Some(m.shifts[p].id)
    {
      EntryAt(m, p, k);
    }
  }

  /**
   * How a month resumes from the stored entries of the month before, when those are
   * exactly the doctor's walk of that month from `prevStart`: after a working last
   * day the rotation continues where it stopped; after an OFF last day the start
   * falls back to the assignment's shift, because the stored OFF entry has no shift
   * id (the position the previous month had moved on to is lost).
   */
  lemma {:induction false} ResumeAfterMonth(month: int, year: int, departmentId: int, doctor: Doctor, shifts: seq<Shift>,
                         a: ShiftAssignment, existing: seq<RosterEntry>, prevStart: int)
    requires 0 <= month < 12
    requires UniqueShiftIds(shifts) && forall s :: s in shifts ==> s.id != 0
    requires 0 <= prevStart < |shifts|
    requires var (pm, py) := PreviousMonth(month, year);
             WalkFrom(MonthOf(pm, py, departmentId, doctor, shifts), 1, At(prevStart))
             == Ok(PriorMonthEntries(existing, doctor.id, departmentId, month, year))
    ensures var (pm, py) := PreviousMonth(month, year);
            var prev := MonthOf(pm, py, departmentId, doctor, shifts);
            var start := ResolveStart(month, year, departmentId, doctor, shifts, a, existing);
            && (!prev.IsOffDay(prev.Days()) ==> start == ShiftPosition(prev, prevStart, prev.Days()))
            && (!prev.IsOffDay(prev.Days()) ==> start == ShiftPosition(prev, prevStart, prev.Days() + 1))
            && (prev.IsOffDay(prev.Days()) ==> start == FindIndex(shifts, a.shiftId))
  {
    var (pm, py) := PreviousMonth(month, year);
    var prev := MonthOf(pm, py, departmentId, doctor, shifts);
    var es := PriorMonthEntries(existing, doctor.id, departmentId, month, year);
    LatestOfMonth(prev, prevStart);
    EntryAt(prev, prevStart, prev.Days() - 1);
    if !prev.IsOffDay(prev.Days()) {
      var q := ShiftPosition(prev, prevStart, prev.Days());
      assert shifts[q] in shifts;
      FindIndexOfUnique(shifts, q);
      RotationStep(prev, prevStart, prev.Days());
    }
  }

  /** The stored entries a run reads back from a previous run's output are that doctor's month there. */
  lemma {:induction false} PriorEntriesOfOutput(month: int, year: int, departments: seq<int>, input: Inputs,
                             doctor: Doctor, prevOut: seq<RosterEntry>)
    requires 0 <= month < 12
    requires DistinctDepartments(departments) && UniqueDoctorIds(input.doctors)
    requires doctor in input.doctors && doctor.departmentId in departments
    requires var (pm, py) := PreviousMonth(month, year);
             Roster(pm, py, departments, input) == Ok(prevOut)
    ensures var (pm, py) := PreviousMonth(month, year);
            DoctorRoster(pm, py, doctor.departmentId, doctor, input)
            == Ok(PriorMonthEntries(prevOut, doctor.id, doctor.departmentId, month, year))
  {
    var (pm, py) := PreviousMonth(month, year);
    var dep := doctor.departmentId;
    RosterEntriesOf(pm, py, departments, input, doctor);
    RosterEntriesBelong(pm, py, departments, input);
    FilterAgree(prevOut,
                (r: RosterEntry) => r.doctorId == doctor.id && r.departmentId == dep && r.month == pm && r.year == py,
                (e: RosterEntry) => EntryOf(e, doctor.id, dep));
  }

  /**
   * Continuity from one month to the next. Feed a run's output for the previous
   * month back in as the stored roster: when the doctor's last day of that month was
   * a working day, the new month starts at the shift position where the previous
   * month's walk ended; when it was the week-off day, the start falls back to the
   * assignment's shift.
   */
  lemma {:induction false} MonthToMonthContinuity(month: int, year: int, departments: seq<int>, input: Inputs,
                               doctor: Doctor, a: ShiftAssignment, prevOut: seq<RosterEntry>)
    requires 0 <= month < 12
    requires DistinctDepartments(departments) && UniqueDoctorIds(input.doctors)
    requires UniqueShiftIds(input.shifts) && forall s :: s in input.shifts ==> s.id != 0
    requires doctor in input.doctors && doctor.departmentId in departments
    requires FindAssignment(input.assignments, doctor.departmentId, doctor.id) == Some(a)
    requires var (pm, py) := PreviousMonth(month, year);
             Roster(pm, py, departments, input) == Ok(prevOut)
    ensures |input.shifts| > 0
    ensures var (pm, py) := PreviousMonth(month, year);
            var prev := MonthOf(pm, py, doctor.departmentId, doctor, input.shifts);
            var rs := ResolveStart(pm, py, doctor.departmentId, doctor, input.shifts, a, input.existingRosters);
            var prevStart := if rs == -1 then |input.shifts| - 1 else rs;
            var start := ResolveStart(month, year, doctor.departmentId, doctor, input.shifts, a, prevOut);
            && (!prev.IsOffDay(prev.Days()) ==> start == ShiftPosition(prev, prevStart, prev.Days()))
            && (!prev.IsOffDay(prev.Days()) ==> start == ShiftPosition(prev, prevStart, prev.Days() + 1))
            && (prev.IsOffDay(prev.Days()) ==> start == FindIndex(input.shifts, a.shiftId))
  {
    var (pm, py) := PreviousMonth(month, year);
    var rs := ResolveStart(pm, py, doctor.departmentId, doctor, input.shifts, a, input.existingRosters);
    var prev := MonthOf(pm, py, doctor.departmentId, doctor, input.shifts);
    PriorEntriesOfOutput(month, year, departments, input, doctor, prevOut);
    ReturnedFrom(prev, rs);
    ResumeAfterMonth(month, year, doctor.departmentId, doctor, input.shifts, a, prevOut,
                     if rs == -1 then |input.shifts| - 1 else rs);
  }

  /**
   * A month that returned did so from a position in the shift list: a start of -1
   * (a missing shift, with an OFF first day) ran as if from the last position.
   */
  lemma {:induction false} ReturnedFrom(m: DoctorMonth, rs: int)
    requires m.Valid() && -1 <= rs < |m.shifts|
    requires WalkFrom(m, 1, At(rs)).Ok?
    ensures |m.shifts| > 0
    ensures WalkFrom(m, 1, At(rs)) == WalkFrom(m, 1, At(if rs == -1 then |m.shifts| - 1 else rs))
  {
    if |m.shifts| == 0 {
      NoShiftsThrows(m, At(rs));
      assert false;
    } else if rs == -1 {
      MissingShiftStart(m);
    }
  }
}
