/**
 * Registration of a doctor in a department (src/components/department/DoctorForm.tsx):
 * the field rules `validate` applies, the record `handleSubmit` builds once they
 * pass, and the week-off suggestion the form shows, kept in step with the doctors
 * it has loaded.
 */
module DepartmentForms {
  import opened Wrappers
  import opened Models
  import WeekOff

  /** The characters JavaScript's `trim` removes and `\s` matches (white space and line terminators). */
  predicate IsJsWhitespace(c: char)
  {
    var n := c as int;
    (9 <= n <= 13) || n == 32 || n == 0xA0 || n == 0x1680 || (0x2000 <= n <= 0x200A)
    || n == 0x2028 || n == 0x2029 || n == 0x202F || n == 0x205F || n == 0x3000 || n == 0xFEFF
  }

  /** `String.prototype.trimStart`: drops the white space at the front. */
  function TrimStart(s: string): string
  {
    if s != [] && IsJsWhitespace(s[0]) then TrimStart(s[1..]) else s
  }

  /** What trimStart leaves is a suffix that does not begin with white space, and only white space was dropped. */
  lemma {:induction false} TrimStartDrops(s: string)
    ensures var r := TrimStart(s);
            && |r| <= |s| && r == s[|s| - |r|..]
            && (forall i :: 0 <= i < |s| - |r| ==> IsJsWhitespace(s[i]))
            && (r == [] || !IsJsWhitespace(r[0]))
  {
    if s != [] && IsJsWhitespace(s[0]) {
      var t := s[1..];
      TrimStartDrops(t);
      var r := TrimStart(t);
      assert t[|t| - |r|..] == s[|s| - |r|..];
      forall i | 0 <= i < |s| - |r|
        ensures IsJsWhitespace(s[i])
      {
        if i > 0 { assert s[i] == t[i - 1]; }
      }
    }
  }

  /** `String.prototype.trimEnd`: drops the white space at the back. */
  function TrimEnd(s: string): string
  {
    if s != [] && IsJsWhitespace(s[|s| - 1]) then TrimEnd(s[..|s| - 1]) else s
  }

  /** What trimEnd leaves is a prefix that does not end with white space, and only white space was dropped. */
  lemma {:induction false} TrimEndDrops(s: string)
    ensures var r := TrimEnd(s);
            && |r| <= |s| && r == s[..|r|]
            && (forall i :: |r| <= i < |s| ==> IsJsWhitespace(s[i]))
            && (r == [] || !IsJsWhitespace(r[|r| - 1]))
  {
    if s != [] && IsJsWhitespace(s[|s| - 1]) {
      var t := s[..|s| - 1];
      TrimEndDrops(t);
      var r := TrimEnd(t);
      assert t[..|r|] == s[..|r|];
      forall i | |r| <= i < |s|
        ensures IsJsWhitespace(s[i])
      {
        if i < |s| - 1 { assert s[i] == t[i]; }
      }
    }
  }

  /** `String.prototype.trim`. */
  function Trim(s: string): string
  {
    TrimEnd(TrimStart(s))
  }

  predicate IsBlank(s: string)
  {
    forall i :: 0 <= i < |s| ==> IsJsWhitespace(s[i])
  }

  /** A string trims to nothing exactly when it is all white space. */
  lemma {:induction false} TrimEmptyIffBlank(s: string)
    ensures Trim(s) == [] <==> IsBlank(s)
  {
    var t := TrimStart(s);
    TrimStartDrops(s);
    TrimEndDrops(t);
    if Trim(s) == [] && t != [] {
      assert false;
    }
  }

  /**
   * `^\S+@\S+\.\S+$`: no white space anywhere, an `@` with at least one character
   * before it, and a later `.` with at least one character between them and one after.
   */
  predicate MatchesEmailPattern(s: string)
  {
    && (forall i :: 0 <= i < |s| ==> !IsJsWhitespace(s[i]))
    && exists i, j :: 1 <= i && i + 2 <= j && j + 2 <= |s| && s[i] == '@' && s[j] == '.'
  }

  /** `^[0-9]{10}$`: exactly ten ASCII digits. */
  predicate MatchesPhonePattern(s: string)
  {
    |s| == 10 && forall i :: 0 <= i < |s| ==> '0' <= s[i] <= '9'
  }

  datatype Field = Name | Email | Age | Phone | Country

  /** What the form holds; `age` is the number typed into the age field. */
  datatype DoctorFields = DoctorFields(name: string, age: int, email: string, phone: string, gender: Gender, country: string)

  const EmptyFields := DoctorFields("", 0, "", "", Male, "")

  /** The message `validate` records for one field, if any (lines 64-86). */
  function FieldError(f: DoctorFields, field: Field): Option<string>
  {
    match field
    case Name => if Trim(f.name) == [] then Some("Full name is required") else None
    case Email =>
      if Trim(f.email) == [] then Some("Email is required")
      else if !MatchesEmailPattern(f.email) then Some("Invalid email format")
      else None
    case Age => if f.age == 0 || f.age < 23 then Some("Doctor must be at least 23 years old") else None
    case Phone =>
      if Trim(f.phone) == [] then Some("Phone number is required")
      else if !MatchesPhonePattern(f.phone) then Some("Phone must be 10 digits")
      else None
    case Country => if Trim(f.country) == [] then Some("Country is required") else None
  }

  /** A name is rejected exactly when it is blank. */
  lemma {:induction false} NameRule(f: DoctorFields)
    ensures FieldError(f, Name).Some? <==> IsBlank(f.name)
  {
    TrimEmptyIffBlank(f.name);
  }

  /** A country is rejected exactly when it is blank. */
  lemma {:induction false} CountryRule(f: DoctorFields)
    ensures FieldError(f, Country).Some? <==> IsBlank(f.country)
  {
    TrimEmptyIffBlank(f.country);
  }

  /** An age is rejected exactly when it is below 23 (0, the unset age, included). */
  lemma {:induction false} AgeRule(f: DoctorFields)
    ensures FieldError(f, Age).Some? <==> f.age < 23
  {
  }

  /**
   * An email is rejected exactly when it does not match the pattern: "required" when
   * blank, "invalid format" otherwise.
   */
  lemma {:induction false} EmailRule(f: DoctorFields)
    ensures FieldError(f, Email).Some? <==> !MatchesEmailPattern(f.email)
    ensures FieldError(f, Email).Some? ==>
              FieldError(f, Email).value == if IsBlank(f.email) then "Email is required" else "Invalid email format"
  {
    TrimEmptyIffBlank(f.email);
    if IsBlank(f.email) {
      BlankFailsPatterns(f.email);
    }
  }

  /**
   * A phone number is rejected exactly when it is not ten digits: "required" when
   * blank, "must be 10 digits" otherwise. The digit check sees the untrimmed text.
   */
  lemma {:induction false} PhoneRule(f: DoctorFields)
    ensures FieldError(f, Phone).Some? <==> !MatchesPhonePattern(f.phone)
    ensures FieldError(f, Phone).Some? ==>
              FieldError(f, Phone).value == if IsBlank(f.phone) then "Phone number is required" else "Phone must be 10 digits"
  {
    TrimEmptyIffBlank(f.phone);
    if IsBlank(f.phone) {
      BlankFailsPatterns(f.phone);
    }
  }

  /** A blank string matches neither pattern, so "required" is the only message blank fields get. */
  lemma {:induction false} BlankFailsPatterns(s: string)
    requires IsBlank(s)
    ensures !MatchesEmailPattern(s) && !MatchesPhonePattern(s)
  {
    if |s| > 0 {
      assert IsJsWhitespace(s[0]);
    }
  }

  /** `errors` with `msg`, if there is one, recorded under `field`. */
  function Record(errors: map<Field, string>, field: Field, msg: Option<string>): map<Field, string>
  {
    if msg.Some? then errors[field := msg.value] else errors
  }

  /** The errors `validate` records, field by field in the order of the source. */
  function FieldErrors(f: DoctorFields): map<Field, string>
  {
    Record(Record(Record(Record(Record(map[], Name, FieldError(f, Name)), Email, FieldError(f, Email)),
                         Age, FieldError(f, Age)), Phone, FieldError(f, Phone)), Country, FieldError(f, Country))
  }

  /** Recording five messages in turn keeps exactly the fields that have one, each with its own. */
  lemma {:induction false} RecordFive(n: Option<string>, e: Option<string>, a: Option<string>, p: Option<string>, c: Option<string>)
    ensures var m := Record(Record(Record(Record(Record(map[], Name, n), Email, e), Age, a), Phone, p), Country, c);
            && (Name in m <==> n.Some?) && (n.Some? ==> m[Name] == n.value)
            && (Email in m <==> e.Some?) && (e.Some? ==> m[Email] == e.value)
            && (Age in m <==> a.Some?) && (a.Some? ==> m[Age] == a.value)
            && (Phone in m <==> p.Some?) && (p.Some? ==> m[Phone] == p.value)
            && (Country in m <==> c.Some?) && (c.Some? ==> m[Country] == c.value)
            && (forall field :: field in m ==> field in {Name, Email, Age, Phone, Country})
  {
  }

  /** Every failing field, and no other, ends up in the map with its message. */
  lemma {:induction false} FieldErrorsExact(f: DoctorFields)
    ensures forall field :: field in FieldErrors(f) <==> FieldError(f, field).Some?
    ensures forall field :: field in FieldErrors(f) ==> FieldErrors(f)[field] == FieldError(f, field).value
  {
    RecordFive(FieldError(f, Name), FieldError(f, Email), FieldError(f, Age), FieldError(f, Phone), FieldError(f, Country));
    forall field
      ensures field in FieldErrors(f) <==> FieldError(f, field).Some?
      ensures field in FieldErrors(f) ==> FieldErrors(f)[field] == FieldError(f, field).value
    {
      match field
      case Name =>
      case Email =>
      case Age =>
      case Phone =>
      case Country =>
    }
  }

  /** The rules a registered doctor's fields satisfy once `validate` passes. */
  lemma {:induction false} AcceptedFields(f: DoctorFields)
    requires FieldErrors(f) == map[]
    ensures !IsBlank(f.name) && !IsBlank(f.country)
    ensures f.age >= 23
    ensures |f.phone| == 10 && forall i :: 0 <= i < 10 ==> '0' <= f.phone[i] <= '9'
    ensures exists i :: 0 < i < |f.email| - 3 && f.email[i] == '@'
  {
    FieldErrorsExact(f);
    assert Name !in FieldErrors(f) && Country !in FieldErrors(f) && Age !in FieldErrors(f);
    assert Phone !in FieldErrors(f) && Email !in FieldErrors(f);
    NameRule(f);
    CountryRule(f);
    AgeRule(f);
    PhoneRule(f);
    EmailRule(f);
  }

  /** The doctor record of lines 95-101; `id` is the clock reading the source takes. */
  function NewDoctor(id: int, f: DoctorFields, departmentId: int, weekOff: int): Doctor
  {
    Doctor(id, f.name, f.age, f.email, f.phone, f.gender, f.country, departmentId, weekOff, 0)
  }

  class DoctorForm {
    const departmentId: int
    var doctors: seq<Doctor>
    var weekOff: int
    var form: DoctorFields
    var errors: map<Field, string>

    /** The suggestion shown is the allocator's answer for the doctors loaded. */
    predicate Valid()
      reads this
    {
      weekOff == WeekOff.GetNextWeekOff(doctors, departmentId)
    }

    /** Lines 32-44: no doctors, week-off 1, empty fields, no errors. */
    constructor (departmentId: int)
      ensures Valid()
      ensures this.departmentId == departmentId && doctors == [] && weekOff == 1
      ensures form == EmptyFields && errors == map[]
    {
      this.departmentId := departmentId;
      doctors := [];
      weekOff := 1;
      form := EmptyFields;
      errors := map[];
      WeekOff.EmptyDepartmentGetsMonday([], departmentId);
    }

    /** Lines 46-54, with the fetched doctor list passed in. */
    method LoadDoctors(data: seq<Doctor>)
      modifies this
      ensures Valid()
      ensures doctors == data && weekOff == WeekOff.GetNextWeekOff(data, departmentId)
      ensures form == old(form) && errors == old(errors)
    {
      doctors := data;
      weekOff := WeekOff.GetNextWeekOff(data, departmentId);
    }

    /** The fields' change handlers: the form takes the typed values. */
    method SetForm(f: DoctorFields)
      modifies this
      ensures form == f
      ensures doctors == old(doctors) && weekOff == old(weekOff) && errors == old(errors)
    {
      form := f;
    }

    /** Lines 61-90: record a message per failing field; true when there is none. */
    method Validate() returns (ok: bool)
      modifies this
      ensures errors == FieldErrors(form)
      ensures ok <==> errors == map[]
      ensures form == old(form) && doctors == old(doctors) && weekOff == old(weekOff)
    {
      var newErrors := FieldErrors(form);
      errors := newErrors;
      ok := newErrors == map[];
    }

    /**
     * Lines 92-105: validate, then build the new doctor from the fields, the form's
     * department, the suggested week-off day and shift index 0. `id` stands for the
     * clock reading; storing the record is left to the caller.
     */
    method HandleSubmit(id: int) returns (created: Option<Doctor>)
      requires Valid()
      modifies this
      ensures errors == FieldErrors(form)
      ensures created.Some? <==> FieldErrors(form) == map[]
      ensures created.Some? ==> created.value == NewDoctor(id, form, departmentId, WeekOff.GetNextWeekOff(doctors, departmentId))
      ensures created.Some? ==> 0 <= created.value.weekOffDay < 7 && created.value.currentShiftIndex == 0
      ensures form == old(form) && doctors == old(doctors) && weekOff == old(weekOff) && Valid()
    {
      var ok := Validate();
      if !ok {
        return None;
      }
      created := Some(NewDoctor(id, form, departmentId, weekOff));
    }
  }
}
