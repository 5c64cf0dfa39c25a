/**
 * The records the roster engine and the forms exchange. Identifiers are opaque
 * integers: the application mints them from the clock, which is outside this model.
 */
module Models {
  import opened Wrappers

  datatype Gender = Male | Female

  /** A doctor of one department, with the weekday (0 = Sunday) that is always off. */
  datatype Doctor = Doctor(
    id: int,
    name: string,
    age: int,
    email: string,
    phone: string,
    gender: Gender,
    country: string,
    departmentId: int,
    weekOffDay: int,
    currentShiftIndex: int)

  /** A shift; its position in the shift list, not `order`, is its place in the rotation. */
  datatype Shift = Shift(id: int, name: string, order: int, startTime: string, endTime: string)

  /** The baseline shift of a doctor in a department. */
  datatype ShiftAssignment = ShiftAssignment(id: int, departmentId: int, shiftId: int, doctorId: int)

  datatype Status = Work | Off

  /**
   * One day of one doctor's roster (src/models/Roster.ts). `month` is 0-based;
   * `shiftId` is None (null) on an OFF day. The entry's own id is not modelled.
   */
  datatype RosterEntry = RosterEntry(
    date: string,
    month: int,
    year: int,
    departmentId: int,
    shiftId: Option<int>,
    doctorId: int,
    status: Status)

  /**
   * The doctors of a department, in registry order: the filter the roster engine,
   * the week-off allocator and the assignment form all apply.
   */
  function DepartmentDoctors(doctors: seq<Doctor>, departmentId: int): seq<Doctor>
  {
    Filter(doctors, (d: Doctor) => d.departmentId == departmentId)
  }
}
