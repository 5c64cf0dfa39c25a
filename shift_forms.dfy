/**
 * The two forms under src/components/shift: assigning an available doctor of a
 * department to a shift (AssignDoctorForm.tsx), and defining a shift whose name
 * and time window follow from the chosen order (ShiftForm.tsx).
 */
module ShiftForms {
  import opened Wrappers
  import opened Models

  // ---------------------------------------------------------------------------
  // AssignDoctorForm.tsx

  /** Some assignment already places the doctor in the department, on any shift. */
  predicate AssignedIn(assignments: seq<ShiftAssignment>, doctorId: int, departmentId: int)
  {
    exists a :: a in assignments && a.departmentId == departmentId && a.doctorId == doctorId
  }

  /** Lines 66-68: the ids of the doctors assigned in the department, in assignment order. */
  function AssignedDoctorIds(assignments: seq<ShiftAssignment>, departmentId: int): (ids: seq<int>)
    ensures forall id :: id in ids <==> AssignedIn(assignments, id, departmentId)
  {
    var inDepartment := Filter(assignments, (a: ShiftAssignment) => a.departmentId == departmentId);
    var ids := seq(|inDepartment|, i requires 0 <= i < |inDepartment| => inDepartment[i].doctorId);
    assert forall i :: 0 <= i < |ids| ==> AssignedIn(assignments, ids[i], departmentId) by {
      forall i | 0 <= i < |ids|
        ensures AssignedIn(assignments, ids[i], departmentId)
      {
        assert inDepartment[i] in inDepartment;
      }
    }
    assert forall id :: AssignedIn(assignments, id, departmentId) ==> id in ids by {
      forall id | AssignedIn(assignments, id, departmentId)
        ensures id in ids
      {
        var a :| a in assignments && a.departmentId == departmentId && a.doctorId == id;
        var i :| 0 <= i < |inDepartment| && inDepartment[i] == a;
        assert ids[i] == id;
      }
    }
    ids
  }

  /**
   * Lines 56-76: the doctors of the department that no assignment of the
   * department names yet, in registry order.
   */
  function FilterAvailableDoctors(doctors: seq<Doctor>, assignments: seq<ShiftAssignment>, departmentId: int): (available: seq<Doctor>)
    ensures forall d :: d in available <==>
              d in doctors && d.departmentId == departmentId && !AssignedIn(assignments, d.id, departmentId)
    ensures SubsequenceOf(available, DepartmentDoctors(doctors, departmentId))
  {
    var assignedDoctorIds := AssignedDoctorIds(assignments, departmentId);
    Filter(DepartmentDoctors(doctors, departmentId), (d: Doctor) => d.id !in assignedDoctorIds)
  }

  /** An assignment in another department does not change who is available here. */
  lemma {:induction false} OtherDepartmentAssignmentIgnored(doctors: seq<Doctor>, assignments: seq<ShiftAssignment>, a: ShiftAssignment, departmentId: int)
    requires a.departmentId != departmentId
    ensures FilterAvailableDoctors(doctors, assignments + [a], departmentId)
            == FilterAvailableDoctors(doctors, assignments, departmentId)
  {
    var before := AssignedDoctorIds(assignments, departmentId);
    var after := AssignedDoctorIds(assignments + [a], departmentId);
    assert forall id :: id in after <==> id in before;
    FilterAgree(DepartmentDoctors(doctors, departmentId), (d: Doctor) => d.id !in after, (d: Doctor) => d.id !in before);
  }

  /** Lines 96-98: the assignments of this department to this shift. */
  function CurrentAssignments(assignments: seq<ShiftAssignment>, departmentId: int, shiftId: int): (current: seq<ShiftAssignment>)
    ensures forall a :: a in current <==> a in assignments && a.departmentId == departmentId && a.shiftId == shiftId
    ensures SubsequenceOf(current, assignments)
  {
    Filter(assignments, (a: ShiftAssignment) => a.departmentId == departmentId && a.shiftId == shiftId)
  }

  /** At most one assignment per (doctor, department) pair. */
  predicate OnePerDoctorAndDepartment(assignments: seq<ShiftAssignment>)
  {
    forall i, j :: 0 <= i < j < |assignments| ==>
      assignments[i].doctorId != assignments[j].doctorId || assignments[i].departmentId != assignments[j].departmentId
  }

  /**
   * Assigning a doctor picked from the available list never gives the doctor a
   * second assignment in the department.
   */
  lemma {:induction false} AssignAvailableKeepsOnePerPair(doctors: seq<Doctor>, assignments: seq<ShiftAssignment>, departmentId: int,
                                       d: Doctor, id: int, shiftId: int)
    requires OnePerDoctorAndDepartment(assignments)
    requires d in FilterAvailableDoctors(doctors, assignments, departmentId)
    ensures OnePerDoctorAndDepartment(assignments + [ShiftAssignment(id, departmentId, shiftId, d.id)])
  {
    var all := assignments + [ShiftAssignment(id, departmentId, shiftId, d.id)];
    forall i, j | 0 <= i < j < |all|
      ensures all[i].doctorId != all[j].doctorId || all[i].departmentId != all[j].departmentId
    {
      if j == |assignments| {
        assert all[i] in assignments;
      }
    }
  }

  class AssignDoctorForm {
    const departmentId: int
    const shiftId: int
    var allDoctors: seq<Doctor>
    var assignments: seq<ShiftAssignment>
    var availableDoctors: seq<Doctor>
    var selectedDoctor: Option<Doctor>

    /** The list offered is the availability filter applied to what was loaded. */
    predicate Valid()
      reads this
    {
      availableDoctors == FilterAvailableDoctors(allDoctors, assignments, departmentId)
    }

    constructor (departmentId: int, shiftId: int)
      ensures Valid()
      ensures this.departmentId == departmentId && this.shiftId == shiftId
      ensures allDoctors == [] && assignments == [] && availableDoctors == [] && selectedDoctor.None?
    {
      this.departmentId := departmentId;
      this.shiftId := shiftId;
      allDoctors := [];
      assignments := [];
      availableDoctors := [];
      selectedDoctor := None;
    }

    /** Lines 42-54, with the fetched doctors and assignments passed in. */
    method Load(doctors: seq<Doctor>, allAssignments: seq<ShiftAssignment>)
      modifies this
      ensures Valid()
      ensures allDoctors == doctors && assignments == allAssignments
      ensures availableDoctors == FilterAvailableDoctors(doctors, allAssignments, departmentId)
      ensures selectedDoctor == old(selectedDoctor)
    {
      allDoctors := doctors;
      assignments := allAssignments;
      availableDoctors := FilterAvailableDoctors(doctors, allAssignments, departmentId);
    }

    /** Line 117: the picker offers only the available doctors, or clears the choice. */
    method Select(choice: Option<Doctor>)
      requires choice.Some? ==> choice.value in availableDoctors
      modifies this
      ensures selectedDoctor == choice
      ensures allDoctors == old(allDoctors) && assignments == old(assignments) && availableDoctors == old(availableDoctors)
    {
      selectedDoctor := choice;
    }

    /**
     * Lines 82-94: with no doctor selected nothing happens; otherwise one assignment
     * of the selected doctor to this department and shift is created, the choice is
     * cleared and the lists are reloaded. The store is taken to return what it held
     * plus the new record; `id` stands for the clock reading.
     */
    method HandleAssign(id: int) returns (created: Option<ShiftAssignment>)
      requires Valid()
      modifies this
      ensures Valid() && selectedDoctor.None? && allDoctors == old(allDoctors)
      ensures old(selectedDoctor).None? ==> created.None? && assignments == old(assignments)
      ensures old(selectedDoctor).Some? ==>
                && created == Some(ShiftAssignment(id, departmentId, shiftId, old(selectedDoctor).value.id))
                && assignments == old(assignments) + [created.value]
                && old(selectedDoctor).value !in availableDoctors
    {
      if selectedDoctor.None? {
        return None;
      }
      var record := ShiftAssignment(id, departmentId, shiftId, selectedDoctor.value.id);
      created := Some(record);
      selectedDoctor := None;
      Load(allDoctors, assignments + [record]);
      assert record in assignments;
    }

    /** The assignments listed under "Current Schedule". */
    function Current(): (current: seq<ShiftAssignment>)
      reads this
      ensures forall a :: a in current <==> a in assignments && a.departmentId == departmentId && a.shiftId == shiftId
    {
      CurrentAssignments(assignments, departmentId, shiftId)
    }
  }

  // ---------------------------------------------------------------------------
  // ShiftForm.tsx

  datatype ShiftFields = ShiftFields(name: string, order: int, startTime: string, endTime: string)

  const EmptyShiftFields := ShiftFields("", 0, "", "")

  /** The orders the order picker offers (line 33). */
  const ShiftOrders: seq<int> := [0, 1, 2]

  datatype Preset = Preset(name: string, start: string, end: string)

  /** Lines 39-59: the name and time window an order selects; the switch has no default. */
  function OrderPreset(order: int): (p: Preset)
    ensures p.name != "" <==> order in ShiftOrders
    ensures p.name == "" <==> p == Preset("", "", "")
  {
    match order
    case 0 => Preset("Morning", "08:00", "16:00")
    case 1 => Preset("Evening", "16:00", "00:00")
    case 2 => Preset("Night", "00:00", "08:00")
    case _ => Preset("", "", "")
  }

  /** Each window ends where the window of the next order, cyclically, starts. */
  lemma {:induction false} PresetsChain(order: int)
    requires order in ShiftOrders
    ensures OrderPreset(order).end == OrderPreset((order + 1) % 3).start
  {
  }

  /** "HH:MM" as minutes after midnight. */
  function Minutes(t: string): int
    requires |t| == 5
  {
    ((t[0] as int - '0' as int) * 10 + (t[1] as int - '0' as int)) * 60
    + (t[3] as int - '0' as int) * 10 + (t[4] as int - '0' as int)
  }

  /** The three windows are eight hours each (mod 24 hours), so they tile the day. */
  lemma {:induction false} PresetsTileTheDay(order: int)
    requires order in ShiftOrders
    ensures |OrderPreset(order).start| == 5 && |OrderPreset(order).end| == 5
    ensures (Minutes(OrderPreset(order).end) - Minutes(OrderPreset(order).start) + 1440) % 1440 == 480
    ensures Minutes(OrderPreset(order).start) == 480 * ((order + 1) % 3)
  {
  }

  class ShiftForm {
    var open: bool
    var form: ShiftFields

    constructor ()
      ensures !open && form == EmptyShiftFields
    {
      open := false;
      form := EmptyShiftFields;
    }

    /** Lines 36-68: a cleared picker changes nothing; an order sets the order and its preset. */
    method HandleOrderChange(value: Option<int>)
      modifies this
      ensures value.None? ==> form == old(form)
      ensures value.Some? ==>
                form == ShiftFields(OrderPreset(value.value).name, value.value,
                                    OrderPreset(value.value).start, OrderPreset(value.value).end)
      ensures open == old(open)
    {
      if value.None? {
        return;
      }
      var preset := OrderPreset(value.value);
      form := ShiftFields(preset.name, value.value, preset.start, preset.end);
    }

    method HandleOpen()
      modifies this
      ensures open && form == old(form)
    {
      open := true;
    }

    method HandleClose()
      modifies this
      ensures !open && form == old(form)
    {
      open := false;
    }

    /**
     * Lines 73-79: the shift built from the form (`id` stands for the clock reading),
     * then the dialog closes and the form is reset.
     */
    method HandleSubmit(id: int) returns (shift: Shift)
      modifies this
      ensures shift == Shift(id, old(form).name, old(form).order, old(form).startTime, old(form).endTime)
      ensures !open && form == EmptyShiftFields
    {
      shift := Shift(id, form.name, form.order, form.startTime, form.endTime);
      HandleClose();
      form := EmptyShiftFields;
    }
  }
}
