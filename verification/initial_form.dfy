/** The schedule set-up form of `InitialForm.tsx`: which fields are
    required, the ranges the numeric ones are checked against, and when the
    form is handed on. Form fields are strings; what `Number()` reads from
    each is given alongside it. */
module InitialForm {
  import opened Wrappers

  /** A JavaScript number as far as the checks see it: finite, or NaN (which
      compares false with everything). */
  datatype Num = Finite(x: real) | NaN

  /** A text field with its `Number()` reading. */
  datatype Field = Field(text: string, num: Num)

  datatype FormData = FormData(departmentId: Field, batchYear: Field, academicYear: Field,
                               semester: Field, totalWeeks: Field, sectionId: Field)

  /** `Number(v) < lo || Number(v) > hi`. */
  predicate OutOfRange(n: Num, lo: real, hi: real) {
    n.Finite? && (n.x < lo || n.x > hi)
  }

  /** The message for a required numeric field: missing, or out of range. */
  function RangeError(f: Field, required: string, range: string, lo: real, hi: real): Option<string> {
    if |f.text| == 0 then Some(required)
    else if OutOfRange(f.num, lo, hi) then Some(range)
    else None
  }

  const YearRange := "Please enter a valid year between 2000 and 2100"

  /** The properties of `newErrors`, one per form field. */
  datatype Key = DepartmentId | SectionId | BatchYear | AcademicYear | Semester | TotalWeeks

  /** The error `validateForm` records under `key`, if any. */
  function FieldError(form: FormData, key: Key): Option<string> {
    match key
    case DepartmentId => if |form.departmentId.text| == 0 then Some("Department is required") else None
    case SectionId => if |form.sectionId.text| == 0 then Some("Section is required") else None
    case BatchYear => RangeError(form.batchYear, "Batch year is required", YearRange, 2000.0, 2100.0)
    case AcademicYear => RangeError(form.academicYear, "Academic year is required", YearRange, 2000.0, 2100.0)
    case Semester => RangeError(form.semester, "Semester is required", "Semester must be between 1 and 8", 1.0, 8.0)
    case TotalWeeks => RangeError(form.totalWeeks, "Total weeks is required", "Total weeks must be between 1 and 52", 1.0, 52.0)
  }

  /** `validateForm()`: the errors recorded, field by field, and whether there
      were none. Each field is reported with its own message exactly when
      its check fails (`RequiredReported`, `YearsReported` and `CountsReported`
      spell the checks out). */
  function ValidateForm(form: FormData): (r: (map<Key, string>, bool))
    ensures r.1 <==> forall k :: FieldError(form, k).None?
    ensures forall k :: k in r.0 <==> FieldError(form, k).Some?
    ensures forall k :: k in r.0 ==> Some(r.0[k]) == FieldError(form, k)
  {
    var errors := map k | k in AllKeys && FieldError(form, k).Some? :: FieldError(form, k).value;
    assert forall k: Key :: k.DepartmentId? || k.SectionId? || k.BatchYear? || k.AcademicYear? || k.Semester? || k.TotalWeeks?;
    assert |errors| == 0 <==> errors == map[] by {
      if |errors| == 0 {
        assert errors.Keys == {};
      }
    }
    assert errors == map[] <==> forall k :: FieldError(form, k).None? by {
      if forall k :: FieldError(form, k).None? {
        assert errors.Keys == {};
      } else {
        var k :| FieldError(form, k).Some?;
        assert k in errors;
      }
    }
    (errors, |errors| == 0)
  }

  /** The department and the section are reported exactly when empty. */
  lemma RequiredReported(form: FormData)
    ensures DepartmentId in ValidateForm(form).0 <==> |form.departmentId.text| == 0
    ensures SectionId in ValidateForm(form).0 <==> |form.sectionId.text| == 0
  {
    assert FieldError(form, DepartmentId).Some? <==> |form.departmentId.text| == 0;
    assert FieldError(form, SectionId).Some? <==> |form.sectionId.text| == 0;
  }

  /** The years are reported when empty or outside 2000 to 2100. */
  lemma YearsReported(form: FormData)
    ensures BatchYear in ValidateForm(form).0 <==>
              |form.batchYear.text| == 0 || OutOfRange(form.batchYear.num, 2000.0, 2100.0)
    ensures AcademicYear in ValidateForm(form).0 <==>
              |form.academicYear.text| == 0 || OutOfRange(form.academicYear.num, 2000.0, 2100.0)
  {
    assert FieldError(form, BatchYear).Some? <==> |form.batchYear.text| == 0 || OutOfRange(form.batchYear.num, 2000.0, 2100.0);
    assert FieldError(form, AcademicYear).Some? <==> |form.academicYear.text| == 0 || OutOfRange(form.academicYear.num, 2000.0, 2100.0);
  }

  /** The semester is reported outside 1 to 8, the weeks outside 1 to 52,
      and either when empty. */
  lemma CountsReported(form: FormData)
    ensures Semester in ValidateForm(form).0 <==>
              |form.semester.text| == 0 || OutOfRange(form.semester.num, 1.0, 8.0)
    ensures TotalWeeks in ValidateForm(form).0 <==>
              |form.totalWeeks.text| == 0 || OutOfRange(form.totalWeeks.num, 1.0, 52.0)
  {
    assert FieldError(form, Semester).Some? <==> |form.semester.text| == 0 || OutOfRange(form.semester.num, 1.0, 8.0);
    assert FieldError(form, TotalWeeks).Some? <==> |form.totalWeeks.text| == 0 || OutOfRange(form.totalWeeks.num, 1.0, 52.0);
  }

  const AllKeys: set<Key> := {DepartmentId, SectionId, BatchYear, AcademicYear, Semester, TotalWeeks}

  /** What `onSubmit` receives. */
  datatype Submission = Submission(departmentId: Num, batchYear: Num, academicYear: Num, semester: Num,
                                   totalWeeks: Num, userId: int, sectionId: Option<Num>)

  /** `handleSubmit`: the form is handed on only when it validates and the
      user id is truthy (not 0). */
  function HandleSubmit(form: FormData, userId: int): (r: Option<Submission>)
    ensures r.Some? <==> ValidateForm(form).1 && userId != 0
    ensures r.Some? ==> r.value.userId == userId
    ensures r.Some? ==> r.value.sectionId == Some(form.sectionId.num)
  {
    if ValidateForm(form).1 && userId != 0 then
      assert FieldError(form, SectionId).None?;
      Some(Submission(form.departmentId.num, form.batchYear.num, form.academicYear.num, form.semester.num,
                      form.totalWeeks.num, userId,
                      if |form.sectionId.text| > 0 then Some(form.sectionId.num) else None))
    else None
  }

  /** A submitted form had every field filled in, and each numeric field
      is either in its range or not a number at all: `Number()` of a
      non-numeric text is NaN, which neither bound rejects. */
  lemma SubmittedInRange(form: FormData, userId: int)
    requires HandleSubmit(form, userId).Some?
    ensures var s := HandleSubmit(form, userId).value;
            && |form.departmentId.text| > 0 && |form.sectionId.text| > 0
            && |form.batchYear.text| > 0 && |form.academicYear.text| > 0
            && |form.semester.text| > 0 && |form.totalWeeks.text| > 0
            && (s.batchYear.NaN? || 2000.0 <= s.batchYear.x <= 2100.0)
            && (s.academicYear.NaN? || 2000.0 <= s.academicYear.x <= 2100.0)
            && (s.semester.NaN? || 1.0 <= s.semester.x <= 8.0)
            && (s.totalWeeks.NaN? || 1.0 <= s.totalWeeks.x <= 52.0)
  {
    RequiredReported(form);
    YearsReported(form);
    CountsReported(form);
  }

  /** Text that is no number passes the range checks. */
  lemma NaNPasses(form: FormData)
    requires |form.departmentId.text| > 0 && |form.sectionId.text| > 0
    requires |form.batchYear.text| > 0 && form.batchYear.num == NaN
    requires |form.academicYear.text| > 0 && form.academicYear.num == NaN
    requires |form.semester.text| > 0 && form.semester.num == NaN
    requires |form.totalWeeks.text| > 0 && form.totalWeeks.num == NaN
    ensures ValidateForm(form).1
  {
    forall k ensures FieldError(form, k).None? {
    }
  }
}
