# shift-roster: verified model of the roster core

This project models the scheduling core of shift-roster, a hospital roster tool.
Departments have doctors. Each doctor has a fixed week-off weekday and a baseline
shift assignment.

- **Monthly roster generator** (`RosterEngine`, with its properties in `RosterProperties`).
  For one month it walks the days of every scheduled doctor. Each day is an OFF entry
  on the doctor's week-off weekday and a WORK entry otherwise. WORK entries name the
  shift under a rotation cursor. The cursor moves one shift on after each OFF day.
  It starts from the latest entry of the previous month, or else from the
  assignment's shift.
- **Calendar and date strings** (`Calendar`, `DateText`): month lengths by the Gregorian
  leap rule, the weekday, and the `YYYY-MM-DD` date written into each entry.
- **Week-off allocator** (`WeekOff`): a new doctor gets the next weekday of the cycle
  Monday, Wednesday, Friday, Sunday, Tuesday, Thursday, Saturday. The cycle is indexed
  by the department's headcount. This module also holds the weekday-name table.
- **Doctor registration form** (`DepartmentForms`): the five field rules, the error map,
  and the doctor record built on submit.
- **Shift forms** (`ShiftForms`): the available-doctor filter, the guarded assignment,
  the current-schedule filter, and the order → name/time-window table with the form reset.

`GenerateMonthlyRoster` keeps the source's nested loops, which append to `result`, and the
mutable cursor. It is proved equal to the recursive specification `Roster`. All properties
of the output are proved about that specification.

The source's failure modes are modelled as results, not excluded by preconditions:

- When the cursor names no shift on a working day, `shifts[shiftIndex].id` throws, and the
  whole call returns nothing. The model returns `Failure(ShiftUndefined(..))`.
- A start index of `-1` comes from `findIndex` when the stored or assigned shift id is
  missing. It throws on a first working day. When an OFF day comes first, `(-1 + 1) % n`
  silently turns it into 0.
- With an empty shift list, `% 0` yields NaN. The model's cursor is then `NotANumber`.

One consequence proved here (`ResumeAfterMonth`, `MonthToMonthContinuity`) concerns the
previous month's last day. When that day was an OFF day, its stored entry has a null shift
id. The next month then restarts at the assignment's shift, not where the rotation had moved.

A shift id missing from the shift list is not reported as an error of its own. The code
throws or wraps around as above, and the model follows the code.

## Model

| member | source | states |
|---|---|---|
| Calendar.DaysInMonth | src/utils/rosterEngine.ts:13 | a month has 28 to 31 days, and 29 exactly for February of a leap year |
| Calendar.MonthLength | src/utils/rosterEngine.ts:13 | `new Date(year, month + 1, 0).getDate()` (years 0..99 read as 1900+) lies in 28..31 |
| Calendar.Weekday | src/utils/rosterEngine.ts:64-65 | `getDay()` of a date is a weekday 0..6 |
| Calendar.YearLength | src/utils/rosterEngine.ts:13 | the day count behind the leap rule gives a year 366 days exactly when it is a leap year |
| Calendar.DaysInMonthSpansMonth | src/utils/rosterEngine.ts:13 | the first of the next month lies exactly `DaysInMonth` days after the first of this one |
| Calendar.WeekdayIsDayOfWeek | src/utils/rosterEngine.ts:64-65 | counting on from the weekday of the 1st gives the weekday of the date itself, for every day of the month |
| Calendar.NextDayWeekday | src/utils/rosterEngine.ts:65 | the weekday advances by one, mod 7, from each day to the next |
| Calendar.February2026 | src/utils/rosterEngine.ts:13 | February 2026 has 28 days and starts on a Sunday |
| DateText.NatToStringDigits | src/utils/rosterEngine.ts:71 | `String(n)` of a natural number is a non-empty run of digits: one digit exactly below 10, two from 10 to 99 |
| DateText.PadStart2Pads | src/utils/rosterEngine.ts:71 | `padStart(2, "0")` keeps the text as a suffix, left-filled with zeros to length 2 |
| DateText.IntToStringRoundTrip | src/utils/rosterEngine.ts:71 | the unpadded year written into the date reads back as the year |
| DateText.PaddedRoundTrip | src/utils/rosterEngine.ts:71 | a month or day below 100, padded, is two digits that read back as the number |
| DateText.DateRoundTrip | src/utils/rosterEngine.ts:71 | the date string reads back as (year, month + 1, day) |
| DateText.DateKeyIncreasing | src/utils/rosterEngine.ts:42 | within a month a later day has a strictly larger sort key |
| DateText.FormatDateInjective | src/utils/rosterEngine.ts:91 | distinct dates give distinct date strings |
| RosterEngine.FindIndex | src/utils/rosterEngine.ts:52 | `findIndex` by id: the first position holding the id, or -1 exactly when none does |
| RosterEngine.FindAssignment | src/utils/rosterEngine.ts:21-25 | `find`: the first assignment of the doctor in the department, or none exactly when there is none |
| RosterEngine.PreviousMonth | src/utils/rosterEngine.ts:30-31 | the previous month is a month 0..11 exactly one month earlier, so January gives December of the year before |
| RosterEngine.Latest | src/utils/rosterEngine.ts:41-49 | the last element after the stable date sort is an entry with the maximal date, and no later-stored entry has the same or a later date |
| RosterEngine.ResolveStart | src/utils/rosterEngine.ts:45-61 | the start index lies in -1..\|shifts\|-1 |
| RosterEngine.WalkMonth | src/utils/rosterEngine.ts:63-99 | the day loop with its mutable cursor returns the walk of the month from the start index, failing as the source throws |
| RosterEngine.GenerateMonthlyRoster | src/utils/rosterEngine.ts:3-104 | the nested loops return the specification `Roster`: departments in order, then their doctors, then days; the first throw loses the whole result |
| RosterProperties.RotationStep | src/utils/rosterEngine.ts:81 | the cursor moves on by one, mod the number of shifts, after an OFF day and stays put after a WORK day |
| RosterProperties.WalkFollowsRotation | src/utils/rosterEngine.ts:63-99 | the walk from any day equals the rotation table: position = start + OFF days so far, mod the number of shifts |
| RosterProperties.DoctorMonthShape | src/utils/rosterEngine.ts:68-98 | from a valid start, one entry per day in day order with the target month, year, department, doctor and date; OFF with no shift iff the week-off weekday; otherwise WORK on `shifts[(start + OFF days before) mod n]` |
| RosterProperties.DatesAscending | src/utils/rosterEngine.ts:63 | a doctor's entries carry strictly increasing dates |
| RosterProperties.KeysAscending | src/utils/rosterEngine.ts:41-43 | entries of two days of a month compare by day under the sort's key |
| RosterProperties.MissingShiftStart | src/utils/rosterEngine.ts:81-95 | a start of -1 succeeds iff day 1 is an OFF day, and then behaves as a start on the last shift |
| RosterProperties.NoShiftsThrows | src/utils/rosterEngine.ts:81-95 | with no shifts, the month of a scheduled doctor always throws |
| RosterProperties.ValidStartSucceeds | src/utils/rosterEngine.ts:87-95 | a start inside the shift list never throws |
| RosterProperties.WalkEntriesBelong | src/utils/rosterEngine.ts:69-97 | every entry of a walk carries the doctor, the department and the target month and year |
| RosterProperties.DoctorEntriesBelong | src/utils/rosterEngine.ts:20-27 | a doctor's entries name that doctor and department, and exist only when the doctor has an assignment there |
| RosterProperties.DoctorsEntriesBelong | src/utils/rosterEngine.ts:20-100 | a department's entries name one of its doctors, each assigned in the department |
| RosterProperties.RosterEntriesBelong | src/utils/rosterEngine.ts:15-101 | every output entry is in the target month, in a requested department, and names an assigned doctor of that department |
| RosterProperties.UnassignedDoctorHasNoEntries | src/utils/rosterEngine.ts:21-27 | a doctor without an assignment in a department has no entry there |
| RosterProperties.DoctorsRosterOk | src/utils/rosterEngine.ts:20-100 | a department's run succeeds iff every one of its doctors' months succeeds |
| RosterProperties.RosterOkIff | src/utils/rosterEngine.ts:15-101 | the run returns a roster iff no doctor of a requested department throws |
| RosterProperties.FilterKeepsUniqueIds | src/utils/rosterEngine.ts:16-18 | the department filter keeps doctor ids unique |
| RosterProperties.DoctorsEntriesOf | src/utils/rosterEngine.ts:20-100 | within a department's output, a doctor's entries are exactly that doctor's month |
| RosterProperties.RosterEntriesOf | src/utils/rosterEngine.ts:15-101 | within the whole output, a doctor's entries in its department are exactly that doctor's month |
| RosterProperties.CalendarMonth | src/utils/rosterEngine.ts:63-99 | from any start position in the shift list the day loop succeeds with one entry per day of the month, dated in day order, OFF exactly when the date's weekday is the week-off day |
| RosterProperties.OffDayOnCalendar | src/utils/rosterEngine.ts:64-68 | a day of the month is a week-off day exactly when the weekday of its own date (`getDay()` of `new Date(year, month, day)`, years 0..99 read as 1900+) equals `weekOffDay` |
| RosterProperties.ReturnedMonth | src/utils/rosterEngine.ts:52-99 | a doctor's month that returns, from any start the lookup gives (a missing shift's -1 with an OFF first day included), has one entry per day in order, OFF iff on the week-off weekday |
| RosterProperties.Coverage | src/utils/rosterEngine.ts:13-99 | whenever the call returns, every assigned doctor of a requested department gets exactly `daysInMonth` entries, one per day in order, OFF iff on the week-off weekday |
| RosterProperties.FindIndexOfUnique | src/utils/rosterEngine.ts:58-60 | with unique shift ids, looking up the id at position p gives p |
| RosterProperties.LatestIsLast | src/utils/rosterEngine.ts:41-49 | when the last entry has the greatest date, it is the one picked |
| RosterProperties.LatestOfMonth | src/utils/rosterEngine.ts:41-49 | the entry picked from a doctor's month is its last day |
| RosterProperties.EntryAt | src/utils/rosterEngine.ts:68-98 | entry k of a month is the entry of day k + 1 in the rotation table |
| RosterProperties.LatestAt | src/utils/rosterEngine.ts:41-49 | the entry with the greatest date, stored after every other entry of that date, is the one the sort leaves last |
| RosterProperties.StartFromLatest | src/utils/rosterEngine.ts:41-61 | the start is read off the prior entry that no other prior entry outdates and no later-stored one ties or follows: its shift id's position when truthy, the assignment shift's position otherwise |
| RosterProperties.BaselineFallback | src/utils/rosterEngine.ts:57-61 | with no prior-month entries, the start is the position of the assignment's shift |
| RosterProperties.FirstRunOnStartShift | src/utils/rosterEngine.ts:63-98 | working days before the first OFF day take the start shift |
| RosterProperties.ResumeAfterMonth | src/utils/rosterEngine.ts:33-61 | given the stored previous month, a working last day makes the new month start on that day's shift position; an OFF last day falls back to the assignment's shift |
| RosterProperties.PriorEntriesOfOutput | src/utils/rosterEngine.ts:33-40 | the prior entries read from a previous run's output are exactly that doctor's month there |
| RosterProperties.ReturnedFrom | src/utils/rosterEngine.ts:52-99 | a month that returned had shifts, and a start of -1 ran exactly as the walk from the last shift position |
| RosterProperties.MonthToMonthContinuity | src/utils/rosterEngine.ts:29-61 | feeding a run's output back in (the previous month had shifts, from any start, -1 read as the last position), the next month continues the rotation from the last working day, or falls back after an OFF last day |
| WeekOff.GetNextWeekOff | src/utils/weekOffManager.ts:5-18 | the suggestion is a weekday 0..6, equal to `1 + 2n` mod 7 for a department headcount n, i.e. the cycle entry n mod 7 |
| WeekOff.CycleStepsByTwo | src/utils/weekOffManager.ts:9 | entry n mod 7 of the cycle is `1 + 2n` mod 7 |
| WeekOff.CycleIsPermutation | src/utils/weekOffManager.ts:9 | the cycle holds each weekday 0..6 exactly once |
| WeekOff.OtherDepartmentIgnored | src/utils/weekOffManager.ts:11-13 | a doctor of another department does not change the suggestion |
| WeekOff.SameDepartmentAdvances | src/utils/weekOffManager.ts:11-17 | each new doctor of the department moves the suggestion two weekdays on |
| WeekOff.Periodic | src/utils/weekOffManager.ts:15 | headcounts n and n + 7 get the same suggestion |
| WeekOff.CloseHeadcountsDistinct | src/utils/weekOffManager.ts:9-17 | headcounts fewer than 7 apart get different weekdays |
| WeekOff.EmptyDepartmentGetsMonday | src/utils/weekOffManager.ts:9-17 | the first doctor of an empty department gets Monday |
| WeekOff.GetWeekDayName | src/utils/weekOffManager.ts:19-31 | a name exists exactly for 0..6 and is one of the seven weekday names |
| WeekOff.WeekDayNamesInOrder | src/utils/weekOffManager.ts:20-28 | 0..6 are named Sunday through Saturday in order |
| WeekOff.WeekDayNamesDistinct | src/utils/weekOffManager.ts:20-30 | different weekdays have different names |
| WeekOff.SuggestionHasName | src/utils/weekOffManager.ts:5-31 | every suggested week-off day has a name |
| DepartmentForms.TrimEmptyIffBlank | src/components/department/DoctorForm.tsx:64 | a trimmed string is empty iff every character is whitespace |
| DepartmentForms.NameRule | src/components/department/DoctorForm.tsx:64-66 | a name error iff the name is blank |
| DepartmentForms.EmailRule | src/components/department/DoctorForm.tsx:68-72 | an email error iff the email fails `^\S+@\S+\.\S+$`; "required" when blank, "invalid format" otherwise |
| DepartmentForms.AgeRule | src/components/department/DoctorForm.tsx:74-76 | an age error iff the age is below 23 (0 included) |
| DepartmentForms.PhoneRule | src/components/department/DoctorForm.tsx:78-82 | a phone error iff the untrimmed phone is not ten digits; "required" when blank, "must be 10 digits" otherwise |
| DepartmentForms.CountryRule | src/components/department/DoctorForm.tsx:84-86 | a country error iff the country is blank |
| DepartmentForms.BlankFailsPatterns | src/components/department/DoctorForm.tsx:68-82 | a blank field matches neither pattern, so it only ever gets "required" |
| DepartmentForms.TrimStartDrops | src/components/department/DoctorForm.tsx:64 | the front half of `trim` removes exactly the leading JavaScript white space (WhiteSpace and LineTerminator): only such characters are dropped and the rest is a suffix not starting with one |
| DepartmentForms.TrimEndDrops | src/components/department/DoctorForm.tsx:64 | the back half of `trim` removes exactly the trailing JavaScript white space: only such characters are dropped and the rest is a prefix not ending with one |
| DepartmentForms.FieldErrorsExact | src/components/department/DoctorForm.tsx:61-87 | the error map filled field by field holds exactly the failing fields, each with its own message |
| DepartmentForms.AcceptedFields | src/components/department/DoctorForm.tsx:61-90 | once validation passes: name and country not blank, age at least 23, phone ten digits, email with an inner `@` |
| DepartmentForms.DoctorForm.constructor | src/components/department/DoctorForm.tsx:31-44 | no doctors, suggestion Monday, empty fields, no errors |
| DepartmentForms.DoctorForm.LoadDoctors | src/components/department/DoctorForm.tsx:46-54 | the loaded doctors and the suggestion for them replace the old ones |
| DepartmentForms.DoctorForm.SetForm | src/components/department/DoctorForm.tsx:143-213 | the fields take the typed values and nothing else changes |
| DepartmentForms.DoctorForm.Validate | src/components/department/DoctorForm.tsx:61-90 | the stored errors are the error map of the fields, and the result is true iff it is empty |
| DepartmentForms.DoctorForm.HandleSubmit | src/components/department/DoctorForm.tsx:92-105 | a doctor is created iff validation passes, with the fields, the department, the suggested week-off day (0..6) and shift index 0 |
| ShiftForms.AssignedDoctorIds | src/components/shift/AssignDoctorForm.tsx:66-68 | the ids listed are exactly those of doctors with an assignment in the department |
| ShiftForms.FilterAvailableDoctors | src/components/shift/AssignDoctorForm.tsx:56-76 | available iff a doctor of the department with no assignment in it on any shift; an order-preserving sub-list of the department's doctors |
| ShiftForms.OtherDepartmentAssignmentIgnored | src/components/shift/AssignDoctorForm.tsx:66-68 | an assignment in another department leaves the available list unchanged |
| ShiftForms.CurrentAssignments | src/components/shift/AssignDoctorForm.tsx:96-98 | exactly the assignments of this department and this shift, in stored order |
| ShiftForms.AssignAvailableKeepsOnePerPair | src/components/shift/AssignDoctorForm.tsx:66-90 | assigning an available doctor keeps at most one assignment per (doctor, department) |
| ShiftForms.AssignDoctorForm.constructor | src/components/shift/AssignDoctorForm.tsx:35-40 | all lists empty, nothing selected |
| ShiftForms.AssignDoctorForm.Load | src/components/shift/AssignDoctorForm.tsx:42-54 | the loaded doctors and assignments replace the old ones and the available list is recomputed from them |
| ShiftForms.AssignDoctorForm.Select | src/components/shift/AssignDoctorForm.tsx:112-117 | only an available doctor, or nothing, can be selected |
| ShiftForms.AssignDoctorForm.HandleAssign | src/components/shift/AssignDoctorForm.tsx:82-94 | with nothing selected nothing is created; otherwise one assignment of the selected doctor to this department and shift, the selection is cleared, and the doctor is no longer available |
| ShiftForms.AssignDoctorForm.Current | src/components/shift/AssignDoctorForm.tsx:96-98 | the current schedule is the assignments of this department and shift |
| ShiftForms.OrderPreset | src/components/shift/ShiftForm.tsx:39-59 | a name is set exactly for the orders 0, 1, 2; any other order gives empty name and times |
| ShiftForms.PresetsChain | src/components/shift/ShiftForm.tsx:44-58 | the window of order i ends where the window of order (i + 1) mod 3 starts |
| ShiftForms.PresetsTileTheDay | src/components/shift/ShiftForm.tsx:43-59 | each window is eight hours, mod 24 hours, starting at 08:00, 16:00 and 00:00 for orders 0, 1, 2 |
| ShiftForms.ShiftForm.constructor | src/components/shift/ShiftForm.tsx:24-31 | closed dialog, empty form with order 0 |
| ShiftForms.ShiftForm.HandleOrderChange | src/components/shift/ShiftForm.tsx:36-68 | a cleared order leaves the form unchanged; an order sets the order and its preset name and window |
| ShiftForms.ShiftForm.HandleOpen | src/components/shift/ShiftForm.tsx:70 | the dialog opens and the form is kept |
| ShiftForms.ShiftForm.HandleClose | src/components/shift/ShiftForm.tsx:71 | the dialog closes and the form is kept |
| ShiftForms.ShiftForm.HandleSubmit | src/components/shift/ShiftForm.tsx:73-79 | the shift is the form's fields, then the dialog closes and the form resets to empty with order 0 |

## Left out

- Ids from `Date.now()` and `Math.random()` are not modelled. Created doctors, shifts and assignments take the id as a parameter. Roster entries carry no id.
- Persistence (`fetchAll`, `createItem`), the async loaders and React state plumbing are not modelled. Fetched data is passed to `Load`/`LoadDoctors`. `HandleAssign` takes the store to hold its previous contents plus the new record, since the source reloads it.
- Rendering, calendar views, navigation, theme helpers and the spreadsheet export are presentation or foreign calls, so they are not modelled.
- The unused `rotateShift` import is not modelled: `shiftRotationHelper` is not part of this model.
- Time zones and `getTime()` are not modelled. Dates are pure Gregorian day numbers.
- Calendar.MonthLength: years outside JavaScript's Date range (beyond about 275760 either way of year 0) are not modelled. There `new Date(year, month + 1, 0).getDate()` is NaN, the day loop does not run, and a doctor gets no entries and does not throw, even with an empty shift list. The model gives every year a full month, so `NoShiftsThrows` and `Coverage` speak only of years inside that range.
- `Number(...)` coercions are not modelled. Ids and ages are integers, so a NaN or fractional id does not arise.
- Month numbers outside 0..11 are excluded by a precondition, because the source never passes them.
- The departments and shift lists that AssignDoctorForm loads only for display are not modelled.
- Replacing a month's stored entries when that month is generated again is not modelled. It is the job of the caller that persists the output.
- RosterEngine.Latest: the model keys only the `Y-MM-DD` strings the engine writes, and treats any other stored date as earlier than every keyed one. The source orders every string JavaScript can parse by its time value, including date-times such as `2026-02-05T10:00`, expanded years such as `+002026-02-05` and engine-specific forms such as `2026-2-5`. For a string it cannot parse, the comparator returns NaN, which counts as a tie, and the order is then up to the engine.
- DepartmentForms.AgeRule: the age is an integer, so a NaN or fractional age typed into the field is not modelled.
- ShiftForms.AssignDoctorForm.HandleAssign: the source does not clear a selection when a reload removes the doctor from the available list. The model does not check the selection on `Load`, so the guarantee that a new assignment is not a duplicate (`AssignAvailableKeepsOnePerPair`) is stated for a doctor taken from the current available list.
