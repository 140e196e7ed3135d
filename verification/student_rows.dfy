/** The per-row conversions of the bulk student upload
    (`StudentDataValidator` in `studentRouter.py`): each spreadsheet row
    becomes a `users` row and a `students` row, with strings cut to the
    column widths and numbers converted with Python's `int`. */
module StudentRows {
  import opened Wrappers
  import opened Text
  import Seqs

  /** A spreadsheet cell: empty (pandas' NaN), text, or a whole number. */
  datatype Cell = Empty | Text(s: string) | Whole(n: int)

  /** Python's `str(v)`; an empty cell prints as `nan`. */
  function Str(c: Cell): string {
    match c
    case Empty => "nan"
    case Text(s) => s
    case Whole(n) => IntToString(n)
  }

  /** Python's `int(v)`; `None` is the ValueError for NaN or a non-numeral. */
  function Int(c: Cell): (r: Option<int>)
    ensures c.Whole? ==> r == Some(c.n)
    ensures c.Empty? ==> r.None?
  {
    match c
    case Empty => None
    case Text(s) => PyParseInt(s)
    case Whole(n) => Some(n)
  }

  /** Python's slice `s[:n]`. */
  function Cut(s: string, n: nat): (r: string)
    ensures Seqs.IsPrefix(r, s)
    ensures |r| == if |s| < n then |s| else n
  {
    if |s| <= n then s else s[..n]
  }

  /** A cell that is not NaN is converted, an empty one becomes `None`. */
  function CutOrNone(c: Cell, n: nat): (r: Option<string>)
    ensures r.None? <==> c.Empty?
    ensures r.Some? ==> Seqs.IsPrefix(r.value, Str(c)) && |r.value| <= n
  {
    if c.Empty? then None else Some(Cut(Str(c), n))
  }

  /** The columns the upload checks for before reading any row. */
  datatype Row = Row(firstName: Cell, lastName: Cell, email: Cell, phoneNumber: Cell,
                     departmentId: Cell, enrollmentNumber: Cell, batchYear: Cell,
                     currentSemester: Cell, guardianName: Cell, guardianContact: Cell,
                     collegeUid: Cell)

  datatype UserRow = UserRow(uuid: string, email: string, firstName: string, lastName: string,
                             phoneNumber: Option<string>, collegeUid: string, role: string)

  /** `validate_and_convert_users_table(row)`; the random UUID is a
      parameter. Every text column is the start of the cell's text, as
      much of it as the column holds. */
  function UsersTable(row: Row, uuid: string): (u: UserRow)
    ensures u.uuid == uuid && u.role == "student"
    ensures Seqs.IsPrefix(u.email, Str(row.email)) && |u.email| == Min(|Str(row.email)|, 255)
    ensures Seqs.IsPrefix(u.firstName, Str(row.firstName)) && |u.firstName| == Min(|Str(row.firstName)|, 100)
    ensures Seqs.IsPrefix(u.lastName, Str(row.lastName)) && |u.lastName| == Min(|Str(row.lastName)|, 100)
    ensures u.phoneNumber.None? <==> row.phoneNumber.Empty?
    ensures u.phoneNumber.Some? ==>
              Seqs.IsPrefix(u.phoneNumber.value, Str(row.phoneNumber)) && |u.phoneNumber.value| == Min(|Str(row.phoneNumber)|, 20)
    ensures Seqs.IsPrefix(u.collegeUid, Str(row.collegeUid)) && |u.collegeUid| == Min(|Str(row.collegeUid)|, 255)
  {
    UserRow(uuid, Cut(Str(row.email), 255), Cut(Str(row.firstName), 100), Cut(Str(row.lastName), 100),
            CutOrNone(row.phoneNumber, 20), Cut(Str(row.collegeUid), 255), "student")
  }

  function Min(a: nat, b: nat): nat { if a < b then a else b }

  datatype StudentRow = StudentRow(userId: int, enrollmentNumber: string, departmentId: Option<int>,
                                   batchYear: int, currentSemester: int,
                                   guardianName: Option<string>, guardianContact: Option<string>)

  /** The ValueError `int()` raises, by column. */
  datatype RowError = BadDepartmentId | BadBatchYear | BadCurrentSemester

  /** `validate_and_convert_students_table(row, user_id)`: the user id is
      passed through, the enrollment number is kept whole, the department
      is `None` for an empty cell and otherwise must be an integer, as must
      the batch year and the semester; the guardian fields are cut to 100
      and 20 characters or `None` when empty. */
  function StudentsTable(row: Row, userId: int): (r: Result<StudentRow, RowError>)
    ensures r.Ok? <==> (row.departmentId.Empty? || Int(row.departmentId).Some?)
                       && Int(row.batchYear).Some? && Int(row.currentSemester).Some?
    ensures r.Ok? ==> r.value.userId == userId && r.value.enrollmentNumber == Str(row.enrollmentNumber)
    ensures r.Ok? ==> (r.value.departmentId.None? <==> row.departmentId.Empty?)
    ensures r.Ok? && r.value.departmentId.Some? ==> r.value.departmentId == Int(row.departmentId)
    ensures r.Ok? ==> Some(r.value.batchYear) == Int(row.batchYear) && Some(r.value.currentSemester) == Int(row.currentSemester)
    ensures r.Ok? ==> r.value.guardianName == CutOrNone(row.guardianName, 100)
                      && r.value.guardianContact == CutOrNone(row.guardianContact, 20)
  {
    var dept := if row.departmentId.Empty? then Some(None) else
                  (match Int(row.departmentId) case Some(d) => Some(Some(d)) case None => None);
    if dept.None? then Err(BadDepartmentId)
    else match (Int(row.batchYear), Int(row.currentSemester))
      case (None, _) => Err(BadBatchYear)
      case (_, None) => Err(BadCurrentSemester)
      case (Some(year), Some(sem)) =>
        Ok(StudentRow(userId, Str(row.enrollmentNumber), dept.value, year, sem,
                      CutOrNone(row.guardianName, 100), CutOrNone(row.guardianContact, 20)))
  }

  // ---------------------------------------------------------------------
  // Round trips
  // ---------------------------------------------------------------------

  /** The spreadsheet row a converted `users` row would come from. */
  function UserCells(u: UserRow, row: Row): Row {
    row.(email := Text(u.email), firstName := Text(u.firstName), lastName := Text(u.lastName),
         phoneNumber := if u.phoneNumber.Some? then Text(u.phoneNumber.value) else Empty,
         collegeUid := Text(u.collegeUid))
  }

  /** Converting is idempotent: a converted row fits its columns, so
      converting it again changes nothing. */
  lemma UsersTableIdempotent(row: Row, uuid: string)
    ensures var u := UsersTable(row, uuid); UsersTable(UserCells(u, row), uuid) == u
  {
  }

  /** Values that already fit their columns pass through unchanged. */
  lemma UsersTableKeepsShort(row: Row, uuid: string)
    requires |Str(row.email)| <= 255 && |Str(row.collegeUid)| <= 255
    requires |Str(row.firstName)| <= 100 && |Str(row.lastName)| <= 100
    requires !row.phoneNumber.Empty? ==> |Str(row.phoneNumber)| <= 20
    ensures var u := UsersTable(row, uuid);
            && u.email == Str(row.email) && u.firstName == Str(row.firstName) && u.lastName == Str(row.lastName)
            && u.collegeUid == Str(row.collegeUid)
            && (row.phoneNumber.Empty? ==> u.phoneNumber.None?)
            && (!row.phoneNumber.Empty? ==> u.phoneNumber == Some(Str(row.phoneNumber)))
  {
  }

  /** A number written out as text converts back to itself, so a
      department id, batch year and semester survive being stored as text. */
  lemma StudentsTableNumerals(row: Row, userId: int, dept: int, year: int, sem: int)
    requires row.departmentId == Text(IntToString(dept))
    requires row.batchYear == Text(IntToString(year)) && row.currentSemester == Text(IntToString(sem))
    ensures var r := StudentsTable(row, userId);
            r.Ok? && r.value.departmentId == Some(dept) && r.value.batchYear == year && r.value.currentSemester == sem
  {
    IntStringRoundTrip(dept);
    IntStringRoundTrip(year);
    IntStringRoundTrip(sem);
  }
}
