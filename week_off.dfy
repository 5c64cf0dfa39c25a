/**
 * The week-off allocator (src/utils/weekOffManager.ts): a new doctor is offered
 * the next weekday of a fixed round-robin cycle, indexed by how many doctors the
 * department already has; and the table of weekday names.
 */
module WeekOff {
  import opened Wrappers
  import opened Models

  /** Monday, Wednesday, Friday, Sunday, Tuesday, Thursday, Saturday (0 = Sunday). */
  const WeekOffCycle: seq<int> := [1, 3, 5, 0, 2, 4, 6]

  /** The week-off day suggested for the next doctor registered in `departmentId`. */
  function GetNextWeekOff(existingDoctors: seq<Doctor>, departmentId: int): (day: int)
    ensures 0 <= day < 7
    ensures day == (1 + 2 * |DepartmentDoctors(existingDoctors, departmentId)|) % 7
  {
    CycleStepsByTwo(|DepartmentDoctors(existingDoctors, departmentId)|);
    WeekOffCycle[|DepartmentDoctors(existingDoctors, departmentId)| % |WeekOffCycle|]
  }

  /** The cycle steps two weekdays forward each time: entry `n mod 7` is `1 + 2n` mod 7. */
  lemma {:induction false} CycleStepsByTwo(n: nat)
    ensures WeekOffCycle[n % 7] == (1 + 2 * n) % 7
  {
    var q := n / 7;
    var r := n % 7;
    assert n == 7 * q + r;
    assert 1 + 2 * n == 7 * (2 * q) + (1 + 2 * r);
    if r == 0 {
      assert (1 + 2 * n) % 7 == 1;
    } else if r == 1 {
      assert (1 + 2 * n) % 7 == 3;
    } else if r == 2 {
      assert (1 + 2 * n) % 7 == 5;
    } else if r == 3 {
      assert 1 + 2 * n == 7 * (2 * q + 1) + 0;
    } else if r == 4 {
      assert 1 + 2 * n == 7 * (2 * q + 1) + 2;
    } else if r == 5 {
      assert 1 + 2 * n == 7 * (2 * q + 1) + 4;
    } else {
      assert 1 + 2 * n == 7 * (2 * q + 1) + 6;
    }
  }

  /** The cycle is a permutation of the seven weekdays. */
  lemma {:induction false} CycleIsPermutation()
    ensures |WeekOffCycle| == 7
    ensures forall i, j :: 0 <= i < j < 7 ==> WeekOffCycle[i] != WeekOffCycle[j]
    ensures forall d :: 0 <= d < 7 <==> d in WeekOffCycle
  {
  }

  /** Registering a doctor of another department leaves the suggestion unchanged. */
  lemma {:induction false} OtherDepartmentIgnored(existingDoctors: seq<Doctor>, other: Doctor, departmentId: int)
    requires other.departmentId != departmentId
    ensures GetNextWeekOff(existingDoctors + [other], departmentId) == GetNextWeekOff(existingDoctors, departmentId)
  {
    FilterAppend(existingDoctors, [other], (d: Doctor) => d.departmentId == departmentId);
  }

  /** Registering a doctor of the department moves the suggestion two weekdays on. */
  lemma {:induction false} SameDepartmentAdvances(existingDoctors: seq<Doctor>, added: Doctor, departmentId: int)
    requires added.departmentId == departmentId
    ensures GetNextWeekOff(existingDoctors + [added], departmentId)
            == (GetNextWeekOff(existingDoctors, departmentId) + 2) % 7
  {
    var p := (d: Doctor) => d.departmentId == departmentId;
    FilterAppend(existingDoctors, [added], p);
    assert Filter([added], p) == [added];
    var n := |DepartmentDoctors(existingDoctors, departmentId)|;
    assert |DepartmentDoctors(existingDoctors + [added], departmentId)| == n + 1;
    AddTwo(1 + 2 * n);
  }

  lemma {:induction false} AddTwo(x: nat)
    ensures (x % 7 + 2) % 7 == (x + 2) % 7
  {
  }

  /** The suggestion depends on the headcount modulo 7 only. */
  lemma {:induction false} Periodic(a: seq<Doctor>, b: seq<Doctor>, departmentId: int)
    requires |DepartmentDoctors(b, departmentId)| == |DepartmentDoctors(a, departmentId)| + 7
    ensures GetNextWeekOff(b, departmentId) == GetNextWeekOff(a, departmentId)
  {
  }

  /**
   * Headcounts less than seven apart get different suggestions: seven doctors
   * registered one after another in a department get seven different week-off days,
   * whatever the department held before.
   */
  lemma {:induction false} CloseHeadcountsDistinct(a: seq<Doctor>, b: seq<Doctor>, departmentId: int)
    requires |DepartmentDoctors(a, departmentId)| < |DepartmentDoctors(b, departmentId)| < |DepartmentDoctors(a, departmentId)| + 7
    ensures GetNextWeekOff(a, departmentId) != GetNextWeekOff(b, departmentId)
  {
    var na, nb := |DepartmentDoctors(a, departmentId)|, |DepartmentDoctors(b, departmentId)|;
    TwiceStepNotZero(na, nb - na);
  }

  lemma {:induction false} TwiceStepNotZero(a: int, k: int)
    requires a >= 0 && 0 < k < 7
    ensures (1 + 2 * a) % 7 != (1 + 2 * (a + k)) % 7
  {
  }

  /** The first doctor of an empty department gets Monday. */
  lemma {:induction false} EmptyDepartmentGetsMonday(existingDoctors: seq<Doctor>, departmentId: int)
    requires forall d :: d in existingDoctors ==> d.departmentId != departmentId
    ensures GetNextWeekOff(existingDoctors, departmentId) == 1
  {
    FilterNone(existingDoctors, (d: Doctor) => d.departmentId == departmentId);
  }

  const WeekDayNames: seq<string> := ["Sunday", "Monday", "Tuesday", "Wednesday", "Thursday", "Friday", "Saturday"]

  /** The weekday's name; `undefined` (None) outside 0..6. */
  function GetWeekDayName(day: int): (name: Option<string>)
    ensures name.Some? <==> 0 <= day < 7
    ensures name.Some? ==> name.value in WeekDayNames
  {
    if 0 <= day < |WeekDayNames| then Some(WeekDayNames[day]) else None
  }

  /** Days 0..6 are named Sunday through Saturday, in that order. */
  lemma {:induction false} WeekDayNamesInOrder()
    ensures GetWeekDayName(0) == Some("Sunday") && GetWeekDayName(1) == Some("Monday")
    ensures GetWeekDayName(2) == Some("Tuesday") && GetWeekDayName(3) == Some("Wednesday")
    ensures GetWeekDayName(4) == Some("Thursday") && GetWeekDayName(5) == Some("Friday")
    ensures GetWeekDayName(6) == Some("Saturday")
  {
  }

  /** Different weekdays have different names, so the name identifies the day. */
  lemma {:induction false} WeekDayNamesDistinct(a: int, b: int)
    requires 0 <= a < 7 && 0 <= b < 7 && a != b
    ensures GetWeekDayName(a) != GetWeekDayName(b)
  {
  }

  /** Every suggested week-off day has a name. */
  lemma {:induction false} SuggestionHasName(existingDoctors: seq<Doctor>, departmentId: int)
    ensures GetWeekDayName(GetNextWeekOff(existingDoctors, departmentId)).Some?
  {
  }
}
