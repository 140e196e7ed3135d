/** The spreadsheet helpers of the student import service (`main.py`):
    splitting a full name, matching spreadsheet headers against the
    accepted spellings of each field, and the required-field check run on
    every imported row. */
module StudentImport {
  import opened Wrappers
  import opened Text
  import Seqs

  // ---------------------------------------------------------------------
  // parse_name
  // ---------------------------------------------------------------------

  datatype FullName = FullName(firstName: string, middleName: Option<string>, lastName: Option<string>)

  /** The words a parsed name is made of, in order; the middle name is
      split back at its single spaces. */
  function Pieces(n: FullName): seq<string> {
    [n.firstName]
    + (if n.middleName.Some? then Split(n.middleName.value, ' ') else [])
    + (if n.lastName.Some? then [n.lastName.value] else [])
  }

  /** `parse_name(full_name)`; `None` is the IndexError raised for a name
      with no words. `split()` with no argument already drops the
      whitespace that `strip()` removes first. One word is a first name,
      two are first and last, and from three on the inner words, joined by
      single spaces, form the middle name. */
  function ParseName(full: string): (r: Option<FullName>)
    ensures r.None? <==> AllSpace(full, IsPySpace)
    ensures r.Some? ==> (r.value.lastName.Some? <==> |Words(full)| >= 2)
    ensures r.Some? ==> (r.value.middleName.Some? <==> |Words(full)| >= 3)
  {
    var w := Words(full);
    if |w| == 1 then Some(FullName(w[0], None, None))
    else if |w| == 2 then Some(FullName(w[0], None, Some(w[1])))
    else if |w| == 0 then None
    else Some(FullName(w[0], Some(Join(w[1..|w| - 1], ' ')), Some(w[|w| - 1])))
  }

  /** No word is lost or reordered: the pieces of a parsed name are the
      words of the input. */
  lemma ParseNamePieces(full: string)
    ensures ParseName(full).Some? ==> Pieces(ParseName(full).value) == Words(full)
  {
    var w := Words(full);
    if |w| >= 3 {
      assert IsPySpace(' ');
      InnerPieces(w);
    }
  }

  /** Inner words contain no space, so joining them at single spaces and
      splitting again gives them back, and with the outer words around
      them the pieces are the words. */
  lemma InnerPieces(w: seq<string>)
    requires |w| >= 3
    requires forall i, j :: 0 <= i < |w| && 0 <= j < |w[i]| ==> w[i][j] != ' '
    ensures Pieces(FullName(w[0], Some(Join(w[1..|w| - 1], ' ')), Some(w[|w| - 1]))) == w
  {
    var inner := w[1..|w| - 1];
    forall i | 0 <= i < |inner| ensures ' ' !in inner[i] {
      assert inner[i] == w[i + 1];
    }
    SplitJoin(inner, ' ');
    assert w == [w[0]] + inner + [w[|w| - 1]];
  }

  // ---------------------------------------------------------------------
  // find_matching_column / map_columns
  // ---------------------------------------------------------------------

  /** A header as it is compared: stripped and lower-cased. */
  function Norm(col: string): string {
    Lower(Strip(col))
  }

  /** Header `j` is a spelling of candidate `c` (the candidate is lower-cased
      but not stripped). */
  predicate MatchesAt(columns: seq<string>, j: int, c: string)
    requires 0 <= j < |columns|
  {
    Norm(columns[j]) == Lower(c)
  }

  predicate NoHeaderMatches(columns: seq<string>, c: string) {
    forall j :: 0 <= j < |columns| ==> !MatchesAt(columns, j, c)
  }

  /** `df_columns_lower.index(name.lower())`: the first header that spells
      `c`, or `|columns|`. */
  function FirstHeader(columns: seq<string>, c: string): (j: nat)
    ensures j <= |columns|
    ensures j < |columns| ==> MatchesAt(columns, j, c)
    ensures forall j' :: 0 <= j' < j ==> !MatchesAt(columns, j', c)
  {
    if |columns| == 0 then 0
    else if Norm(columns[0]) == Lower(c) then 0
    else
      var j := FirstHeader(columns[1..], c);
      assert !MatchesAt(columns, 0, c);
      assert forall j' :: 1 <= j' < |columns| ==> MatchesAt(columns, j', c) == MatchesAt(columns[1..], j' - 1, c);
      j + 1
  }

  /** The first candidate that some header spells, or `|cands|`. */
  function FirstCandidate(columns: seq<string>, cands: seq<string>): (i: nat)
    ensures i <= |cands|
    ensures i < |cands| ==> !NoHeaderMatches(columns, cands[i])
    ensures forall k :: 0 <= k < i ==> NoHeaderMatches(columns, cands[k])
  {
    if |cands| == 0 then 0
    else if FirstHeader(columns, cands[0]) < |columns| then 0
    else
      var i := FirstCandidate(columns, cands[1..]);
      assert forall k :: 1 <= k < |cands| ==> cands[k] == cands[1..][k - 1];
      i + 1
  }

  /** `find_matching_column(df, possible_names)`: candidates are tried in
      order, and the first one some header spells picks the first such
      header, returned as written. `None` when no header spells any
      candidate. */
  function FindMatchingColumn(columns: seq<string>, cands: seq<string>): (r: Option<string>)
    ensures r.None? <==> forall k :: 0 <= k < |cands| ==> NoHeaderMatches(columns, cands[k])
    ensures r.Some? ==> r.value in columns
  {
    var i := FirstCandidate(columns, cands);
    if i == |cands| then None
    else
      Some(columns[FirstHeader(columns, cands[i])])
  }

  /** The header returned spells the first candidate that any header
      spells, and no header before it spells that candidate. */
  lemma FindMatchingColumnFirst(columns: seq<string>, cands: seq<string>) returns (k: nat, j: nat)
    requires FindMatchingColumn(columns, cands).Some?
    ensures k < |cands| && j < |columns|
    ensures FindMatchingColumn(columns, cands).value == columns[j] && MatchesAt(columns, j, cands[k])
    ensures forall k' :: 0 <= k' < k ==> NoHeaderMatches(columns, cands[k'])
    ensures forall j' :: 0 <= j' < j ==> !MatchesAt(columns, j', cands[k])
  {
    k := FirstCandidate(columns, cands);
    j := FirstHeader(columns, cands[k]);
  }

  /** The accepted spellings of each field, in the order they are tried. */
  const ColumnMappings: seq<(string, seq<string>)> := [
    ("name", ["name", "full name", "student name"]),
    ("dateOfBirth", ["dob", "date of birth", "birth date", "birthdate", "DOB"]),
    ("gender", ["gender", "sex", "Gender"]),
    ("bloodGroup", ["blood group", "bloodgroup", "blood type"]),
    ("email", ["email", "email address", "mail"]),
    ("phoneNumber", ["phone number", "phone", "contact number", "mobile"]),
    ("studentId", ["student id", "studentid", "id", "student number"]),
    ("enrollmentDate", ["enrollment date", "admission date", "joining date"]),
    ("grade", ["grade", "class", "standard"]),
    ("section", ["section", "division"]),
    ("previousSchool", ["previous school", "privious school", "last school"]),
    ("guardianName", ["guardian name", "gurdian name", "parent name"]),
    ("guardianRelation", ["guardian relation", "gurdian relation", "relation"]),
    ("guardianContact", ["guardian contact", "gurdian contact", "parent contact"]),
    ("emergencyContactPhone", ["emergency contact phone", "emergency contact phone number", "emergency phone"]),
    ("emergencyContactName", ["emergency contact name", "emergency name"]),
    ("emergencyContactRelation", ["emergency contact relation", "emergency relation"])
  ]

  function Fields(table: seq<(string, seq<string>)>): (fs: seq<string>)
    ensures |fs| == |table|
    ensures forall k :: 0 <= k < |table| ==> fs[k] == table[k].0
  {
    if |table| == 0 then [] else [table[0].0] + Fields(table[1..])
  }

  /** The header a field is mapped to, when `if matched_column:` lets it
      through (an empty header is falsy). */
  function Matched(columns: seq<string>, cands: seq<string>): Option<string> {
    var m := FindMatchingColumn(columns, cands);
    if m.Some? && |m.value| > 0 then m else None
  }

  /** `map_columns(df)` over a table of fields and spellings, in order. */
  function MapColumns(columns: seq<string>, table: seq<(string, seq<string>)>): (r: map<string, string>)
    ensures forall f :: f in r ==> r[f] in columns && |r[f]| > 0
    ensures forall f :: f in r ==> f in Fields(table)
  {
    if |table| == 0 then map[]
    else
      var prev := MapColumns(columns, table[..|table| - 1]);
      var last := table[|table| - 1];
      assert forall f :: f in Fields(table[..|table| - 1]) ==> f in Fields(table) by {
        forall f | f in Fields(table[..|table| - 1]) ensures f in Fields(table) {
          var k :| 0 <= k < |table| - 1 && Fields(table[..|table| - 1])[k] == f;
          assert Fields(table)[k] == f;
        }
      }
      assert last.0 == Fields(table)[|table| - 1];
      match Matched(columns, last.1)
      case Some(c) => prev[last.0 := c]
      case None => prev
  }

  /** With distinct field names (as in a dict literal), a field is mapped
      exactly when one of its spellings finds a non-empty header, and then
      to the header `find_matching_column` returns. */
  lemma {:induction false} MapColumnsSpec(columns: seq<string>, table: seq<(string, seq<string>)>, k: nat)
    requires Seqs.Distinct(Fields(table)) && k < |table|
    ensures table[k].0 in MapColumns(columns, table) <==> Matched(columns, table[k].1).Some?
    ensures table[k].0 in MapColumns(columns, table) ==>
              MapColumns(columns, table)[table[k].0] == Matched(columns, table[k].1).value
  {
    var init := table[..|table| - 1];
    assert Fields(init) == Fields(table)[..|table| - 1];
    if k < |table| - 1 {
      assert Seqs.Distinct(Fields(init));
      MapColumnsSpec(columns, init, k);
      assert table[k].0 != table[|table| - 1].0 by {
        assert Fields(table)[k] == table[k].0;
        assert Fields(table)[|table| - 1] == table[|table| - 1].0;
      }
    } else {
      assert table[k] == table[|table| - 1];
    }
  }

  // ---------------------------------------------------------------------
  // validate_student_data
  // ---------------------------------------------------------------------

  /** A row value after the NaN clean-up: `None`, a string, a number, or
      another (truthy) object such as a timestamp. */
  datatype PyVal = PyNone | PyStr(s: string) | PyNum(x: real) | PyObject

  predicate PyTruthy(v: PyVal) {
    match v
    case PyNone => false
    case PyStr(s) => |s| > 0
    case PyNum(x) => x != 0.0
    case PyObject => true
  }

  const RequiredFields: seq<string> := [
    "firstName", "lastName", "dateOfBirth", "gender", "email",
    "phoneNumber", "studentId", "enrollmentDate", "grade",
    "guardianName", "guardianRelation", "guardianContact"
  ]

  predicate Present(data: map<string, PyVal>, f: string) {
    f in data && PyTruthy(data[f])
  }

  /** The first field of `fields` that is missing or falsy, or `|fields|`. */
  function FirstMissing(data: map<string, PyVal>, fields: seq<string>): (i: nat)
    ensures i <= |fields|
    ensures i < |fields| ==> !Present(data, fields[i])
    ensures forall k :: 0 <= k < i ==> Present(data, fields[k])
  {
    if |fields| == 0 then 0
    else if !Present(data, fields[0]) then 0
    else
      var i := FirstMissing(data, fields[1..]);
      assert forall k :: 1 <= k < |fields| ==> fields[k] == fields[1..][k - 1];
      i + 1
  }

  /** `MissingField` and `InvalidEmail` are the two ValueErrors;
      `EmailNotText` is the TypeError of `"@" in` a number or object. */
  datatype ValidationError = MissingField(field: string) | InvalidEmail | EmailNotText

  /** `validate_student_data(data)`: the first required field that is
      missing or falsy is reported; with all present, a string email must
      contain `@`. */
  function ValidateStudentData(data: map<string, PyVal>): (r: Result<bool, ValidationError>)
    ensures r.Ok? <==> (forall k :: 0 <= k < |RequiredFields| ==> Present(data, RequiredFields[k]))
                       && data["email"].PyStr? && '@' in data["email"].s
    ensures r.Ok? ==> r.value
    ensures r.Err? && r.error.MissingField? ==>
              exists k :: 0 <= k < |RequiredFields| && r.error.field == RequiredFields[k]
                          && !Present(data, RequiredFields[k])
                          && forall k' :: 0 <= k' < k ==> Present(data, RequiredFields[k'])
  {
    var i := FirstMissing(data, RequiredFields);
    if i < |RequiredFields| then Err(MissingField(RequiredFields[i]))
    else
      assert RequiredFields[4] == "email";
      var email := data["email"];
      if !email.PyStr? then Err(EmailNotText)
      else if '@' !in email.s then Err(InvalidEmail)
      else Ok(true)
  }
}
