/** The second allocator revision (`scheduler.py`): courses are read from a
    departments document, each course is given `max(1, round(h / 16))`
    classes a week, and each class goes to the first free (day, time, room)
    in a fixed day-major scan.  Occupancy is tracked per faculty id and per
    room id.  The slot search does not look at the section's own timetable,
    so two courses of one section can land in the same slot and the later
    one overwrites the earlier cell; `guardSection` selects between that
    behaviour (`false`) and a search that also skips the section's taken
    slots (`true`). */
module SlotScanScheduler {
  import opened Wrappers
  import Seqs
  import Dicts
  import Rounding
  import opened TimeSlots

  // ---------------------------------------------------------------------
  // Input document
  // ---------------------------------------------------------------------

  datatype Subject = Subject(code: string, name: string, semester: int, credits: int, requiresLab: bool,
                             preferredFaculty: seq<string>, totalHours: int, courseId: string)
  datatype Faculty = Faculty(id: string, maxHoursPerDay: int, specializations: seq<string>)
  /** `batch` is the value as `str()` renders it inside the section key. */
  datatype SectionData = SectionData(batch: string, sectionId: string, academicYear: string)
  datatype Department = Department(faculty: seq<Faculty>, subjects: seq<Subject>,
                                   sections: Dicts.Dict<string, SectionData>)
  datatype Room = Room(id: string, name: string, capacity: int, roomType: string)
  datatype Input = Input(rooms: seq<Room>, departments: Dicts.Dict<string, Department>, times: seq<string>)

  datatype Course = Course(code: string, name: string, department: string, semester: int, credits: int,
                           requiresLab: bool, facultyId: string, totalHours: int, courseId: string)

  /** The faculty teaching a subject: the first preferred id, else the first
      faculty member of the department; none means the subject is dropped. */
  function ResolveFaculty(s: Subject, deptFaculty: seq<Faculty>): (f: Option<string>)
    ensures f.None? <==> |s.preferredFaculty| == 0 && |deptFaculty| == 0
    ensures f.Some? ==> (|s.preferredFaculty| > 0 && f.value == s.preferredFaculty[0]) ||
                        (|s.preferredFaculty| == 0 && f.value == deptFaculty[0].id)
  {
    if |s.preferredFaculty| > 0 then Some(s.preferredFaculty[0])
    else if |deptFaculty| > 0 then Some(deptFaculty[0].id)
    else None
  }

  function CourseOf(deptCode: string, s: Subject, facultyId: string): Course {
    Course(s.code, s.name, deptCode, s.semester, s.credits, s.requiresLab, facultyId, s.totalHours, s.courseId)
  }

  /** The courses one department contributes, in subject order. */
  function DepartmentCourses(deptCode: string, faculty: seq<Faculty>, subjects: seq<Subject>): (cs: seq<Course>)
    ensures |cs| <= |subjects|
    ensures |faculty| > 0 ==> |cs| == |subjects|
    ensures forall c :: c in cs ==>
              && c.department == deptCode
              && exists s :: s in subjects && ResolveFaculty(s, faculty).Some? &&
                             c == CourseOf(deptCode, s, ResolveFaculty(s, faculty).value)
  {
    if |subjects| == 0 then []
    else
      var rest := DepartmentCourses(deptCode, faculty, subjects[1..]);
      assert forall s :: s in subjects[1..] ==> s in subjects;
      match ResolveFaculty(subjects[0], faculty)
      case None => rest
      case Some(f) => [CourseOf(deptCode, subjects[0], f)] + rest
  }

  /** `process_input_data`: every department's courses, in document order. */
  function ProcessInput(departments: Dicts.Dict<string, Department>): (cs: seq<Course>)
    ensures forall c :: c in cs ==> exists i :: 0 <= i < |departments| && c.department == departments[i].0
  {
    if |departments| == 0 then []
    else
      var n := |departments| - 1;
      var (code, d) := departments[n];
      var prev := ProcessInput(departments[..n]);
      assert forall i :: 0 <= i < n ==> departments[..n][i] == departments[i];
      prev + DepartmentCourses(code, d.faculty, d.subjects)
  }

  /** A subject is dropped exactly when it has no preferred faculty and its
      department lists none. */
  lemma {:induction false} DroppedSubjects(deptCode: string, faculty: seq<Faculty>, subjects: seq<Subject>)
    ensures |DepartmentCourses(deptCode, faculty, subjects)| == |subjects| <==>
              (|faculty| > 0 || forall i :: 0 <= i < |subjects| ==> |subjects[i].preferredFaculty| > 0)
  {
    if |subjects| > 0 {
      DroppedSubjects(deptCode, faculty, subjects[1..]);
      assert forall i :: 1 <= i < |subjects| ==> subjects[i] == subjects[1..][i - 1];
    }
  }

  // ---------------------------------------------------------------------
  // Demand
  // ---------------------------------------------------------------------

  /** `calculate_weekly_classes`: `round(h / 16)` (half to even), at least one. */
  function WeeklyClasses(totalHours: int): (n: int)
    ensures n >= 1
    ensures n >= 2 ==> Rounding.IsRoundHalfEven(totalHours, 16, n)
  {
    var r := Rounding.RoundHalfEven(totalHours, 16);
    if r < 1 then 1 else r
  }

  /** One class a week for everything under 24 hours (24 / 16 = 1.5 rounds to 2). */
  lemma WeeklyClassesFloor(h: int)
    ensures WeeklyClasses(h) == 1 <==> h < 24
  {
    var r := Rounding.RoundHalfEven(h, 16);
    if h >= 24 {
      assert 2 * h - 32 * r <= 16;
    }
  }

  // ---------------------------------------------------------------------
  // Slot search
  // ---------------------------------------------------------------------

  /** The scanned days, `[str(d) for d in range(1, 6)]`. */
  const Weekdays: seq<string> := ["1", "2", "3", "4", "5"]

  /** `defaultdict(set)` read. */
  function Busy(m: map<string, set<string>>, id: string): set<string> {
    if id in m then m[id] else {}
  }

  predicate TypeMatches(room: Room, requiresLab: bool) {
    if requiresLab then room.roomType == "lab" else room.roomType == "classroom"
  }

  /** A (slot, room) pair the search accepts: the slot is not blocked for
      the class, the room is not busy then, and the room type matches. */
  predicate Available(t: TimeSlot, room: Room, requiresLab: bool, blocked: set<string>,
                      roomBusy: map<string, set<string>>) {
    && SlotName(t) !in blocked
    && SlotName(t) !in Busy(roomBusy, room.id)
    && TypeMatches(room, requiresLab)
  }

  /** The room loop for one slot. */
  function FirstRoom(t: TimeSlot, rooms: seq<Room>, requiresLab: bool, blocked: set<string>,
                     roomBusy: map<string, set<string>>): (r: Option<Room>)
    ensures r.None? <==> forall j :: 0 <= j < |rooms| ==> !Available(t, rooms[j], requiresLab, blocked, roomBusy)
    ensures r.Some? ==> r.value in rooms && Available(t, r.value, requiresLab, blocked, roomBusy)
  {
    if |rooms| == 0 || SlotName(t) in blocked then None
    else if Available(t, rooms[0], requiresLab, blocked, roomBusy) then Some(rooms[0])
    else
      var r := FirstRoom(t, rooms[1..], requiresLab, blocked, roomBusy);
      assert forall j :: 1 <= j < |rooms| ==> rooms[j] == rooms[1..][j - 1];
      r
  }

  /** The room found is the first available one: `j` is its index. */
  lemma {:induction false} FirstRoomIsFirst(t: TimeSlot, rooms: seq<Room>, requiresLab: bool, blocked: set<string>,
                                            roomBusy: map<string, set<string>>) returns (j: nat)
    requires FirstRoom(t, rooms, requiresLab, blocked, roomBusy).Some?
    ensures j < |rooms| && rooms[j] == FirstRoom(t, rooms, requiresLab, blocked, roomBusy).value
    ensures Available(t, rooms[j], requiresLab, blocked, roomBusy)
    ensures forall j' :: 0 <= j' < j ==> !Available(t, rooms[j'], requiresLab, blocked, roomBusy)
  {
    if Available(t, rooms[0], requiresLab, blocked, roomBusy) {
      j := 0;
    } else {
      var i := FirstRoomIsFirst(t, rooms[1..], requiresLab, blocked, roomBusy);
      j := i + 1;
      forall j' | 0 <= j' < j ensures !Available(t, rooms[j'], requiresLab, blocked, roomBusy) {
        if j' > 0 {
          assert rooms[j'] == rooms[1..][j' - 1];
        }
      }
    }
  }

  /** The slot loop: the first slot, in scan order, with an available room. */
  function ScanSlots(slots: seq<TimeSlot>, rooms: seq<Room>, requiresLab: bool, blocked: set<string>,
                     roomBusy: map<string, set<string>>): (r: Option<(TimeSlot, Room)>)
    ensures r.None? <==> forall k, j :: 0 <= k < |slots| && 0 <= j < |rooms| ==>
                           !Available(slots[k], rooms[j], requiresLab, blocked, roomBusy)
    ensures r.Some? ==> r.value.0 in slots && r.value.1 in rooms
    ensures r.Some? ==> Available(r.value.0, r.value.1, requiresLab, blocked, roomBusy)
  {
    if |slots| == 0 then None
    else match FirstRoom(slots[0], rooms, requiresLab, blocked, roomBusy)
      case Some(room) => Some((slots[0], room))
      case None =>
        var r := ScanSlots(slots[1..], rooms, requiresLab, blocked, roomBusy);
        assert forall k :: 1 <= k < |slots| ==> slots[k] == slots[1..][k - 1];
        r
  }

  /** The slot found is the first with an available room, and its room is
      the one the room loop picks there: `k` is its index. */
  lemma {:induction false} ScanSlotsIsFirst(slots: seq<TimeSlot>, rooms: seq<Room>, requiresLab: bool,
                                            blocked: set<string>, roomBusy: map<string, set<string>>) returns (k: nat)
    requires ScanSlots(slots, rooms, requiresLab, blocked, roomBusy).Some?
    ensures k < |slots| && slots[k] == ScanSlots(slots, rooms, requiresLab, blocked, roomBusy).value.0
    ensures FirstRoom(slots[k], rooms, requiresLab, blocked, roomBusy)
              == Some(ScanSlots(slots, rooms, requiresLab, blocked, roomBusy).value.1)
    ensures forall k', j :: 0 <= k' < k && 0 <= j < |rooms| ==> !Available(slots[k'], rooms[j], requiresLab, blocked, roomBusy)
  {
    if FirstRoom(slots[0], rooms, requiresLab, blocked, roomBusy).Some? {
      k := 0;
    } else {
      var i := ScanSlotsIsFirst(slots[1..], rooms, requiresLab, blocked, roomBusy);
      k := i + 1;
      forall k', j | 0 <= k' < k && 0 <= j < |rooms|
        ensures !Available(slots[k'], rooms[j], requiresLab, blocked, roomBusy)
      {
        if k' > 0 {
          assert slots[k'] == slots[1..][k' - 1];
        }
      }
    }
  }

  /** `find_available_slot`: none when no times are configured, otherwise
      the first (day, time, room) of the day-major scan that is available. */
  function FindAvailableSlot(times: seq<string>, rooms: seq<Room>, requiresLab: bool, blocked: set<string>,
                             roomBusy: map<string, set<string>>): (r: Option<(TimeSlot, Room)>)
    ensures r.Some? ==> r.value.0.day in Weekdays && r.value.0.time in times && r.value.1 in rooms
    ensures r.Some? ==> Available(r.value.0, r.value.1, requiresLab, blocked, roomBusy)
  {
    ScanSlots(Product(Weekdays, times), rooms, requiresLab, blocked, roomBusy)
  }

  /** The search fails exactly when no scanned (slot, room) pair is available. */
  lemma SearchFails(times: seq<string>, rooms: seq<Room>, requiresLab: bool, blocked: set<string>,
                    roomBusy: map<string, set<string>>)
    ensures FindAvailableSlot(times, rooms, requiresLab, blocked, roomBusy).None? <==>
              forall t: TimeSlot, j :: t.day in Weekdays && t.time in times && 0 <= j < |rooms| ==>
                !Available(t, rooms[j], requiresLab, blocked, roomBusy)
  {
    var slots := Product(Weekdays, times);
    var found := FindAvailableSlot(times, rooms, requiresLab, blocked, roomBusy);
    if found.None? {
      forall t: TimeSlot, j | t.day in Weekdays && t.time in times && 0 <= j < |rooms|
        ensures !Available(t, rooms[j], requiresLab, blocked, roomBusy)
      {
        var k :| 0 <= k < |slots| && slots[k] == t;
      }
    } else {
      var j :| 0 <= j < |rooms| && rooms[j] == found.value.1;
      assert Available(found.value.0, rooms[j], requiresLab, blocked, roomBusy);
    }
  }

  /** The search takes the earliest slot of the scan that has an available
      room (`k` is its index in the scan), and within that slot the first
      such room (`j` is its index in `rooms`). */
  lemma SearchIsFirstFit(times: seq<string>, rooms: seq<Room>, requiresLab: bool, blocked: set<string>,
                         roomBusy: map<string, set<string>>) returns (k: nat, j: nat)
    requires FindAvailableSlot(times, rooms, requiresLab, blocked, roomBusy).Some?
    ensures k < |Product(Weekdays, times)| && j < |rooms|
    ensures FindAvailableSlot(times, rooms, requiresLab, blocked, roomBusy) == Some((Product(Weekdays, times)[k], rooms[j]))
    ensures forall k', j' :: 0 <= k' < k && 0 <= j' < |rooms| ==>
              !Available(Product(Weekdays, times)[k'], rooms[j'], requiresLab, blocked, roomBusy)
    ensures forall j' :: 0 <= j' < j ==> !Available(Product(Weekdays, times)[k], rooms[j'], requiresLab, blocked, roomBusy)
  {
    var slots := Product(Weekdays, times);
    k := ScanSlotsIsFirst(slots, rooms, requiresLab, blocked, roomBusy);
    j := FirstRoomIsFirst(slots[k], rooms, requiresLab, blocked, roomBusy);
  }

  // ---------------------------------------------------------------------
  // Run state
  // ---------------------------------------------------------------------

  /** A schedule cell. */
  datatype Cell = Cell(course: string, facultyId: string, roomId: string, semester: int,
                       academicYear: string, sectionId: string, courseId: string)

  /** One class handed out by the search, with the section key it went under. */
  datatype Placement = Placement(key: string, course: Course, slot: TimeSlot, room: Room, cell: Cell)

  datatype State = State(
    schedule: map<string, map<string, Cell>>,
    facultyBusy: map<string, set<string>>,
    roomBusy: map<string, set<string>>,
    placements: seq<Placement>)

  const Start := State(map[], map[], map[], [])

  /** `defaultdict(dict)` read. */
  function SectionSlots(schedule: map<string, map<string, Cell>>, key: string): map<string, Cell> {
    if key in schedule then schedule[key] else map[]
  }

  /** `f"{dept_code}_{batch}_{section_id}"`. */
  function SectionKey(deptCode: string, sd: SectionData): string {
    deptCode + "_" + sd.batch + "_" + sd.sectionId
  }

  function CellFor(course: Course, room: Room, sd: SectionData): Cell {
    Cell(course.name, course.facultyId, room.id, course.semester, sd.academicYear, sd.sectionId, course.courseId)
  }

  /** Slot names the search must avoid for this class: the faculty's busy
      slots and, when guarding the section, the section's taken slots. */
  function Blocked(st: State, course: Course, key: string, guardSection: bool): (b: set<string>)
    ensures Busy(st.facultyBusy, course.facultyId) <= b
    ensures guardSection ==> SectionSlots(st.schedule, key).Keys <= b
  {
    Busy(st.facultyBusy, course.facultyId) + (if guardSection then SectionSlots(st.schedule, key).Keys else {})
  }

  /** Writing one class: the cell (overwriting whatever the section had in
      that slot), the faculty's and the room's busy sets, and the log. */
  function Commit(st: State, p: Placement): (r: State)
    ensures SectionSlots(r.schedule, p.key) == SectionSlots(st.schedule, p.key)[SlotName(p.slot) := p.cell]
    ensures forall key :: key != p.key ==> SectionSlots(r.schedule, key) == SectionSlots(st.schedule, key)
    ensures Busy(r.facultyBusy, p.course.facultyId) == Busy(st.facultyBusy, p.course.facultyId) + {SlotName(p.slot)}
    ensures forall f :: f != p.course.facultyId ==> Busy(r.facultyBusy, f) == Busy(st.facultyBusy, f)
    ensures Busy(r.roomBusy, p.room.id) == Busy(st.roomBusy, p.room.id) + {SlotName(p.slot)}
    ensures forall id :: id != p.room.id ==> Busy(r.roomBusy, id) == Busy(st.roomBusy, id)
    ensures r.placements == st.placements + [p]
  {
    var name := SlotName(p.slot);
    State(st.schedule[p.key := SectionSlots(st.schedule, p.key)[name := p.cell]],
          st.facultyBusy[p.course.facultyId := Busy(st.facultyBusy, p.course.facultyId) + {name}],
          st.roomBusy[p.room.id := Busy(st.roomBusy, p.room.id) + {name}],
          st.placements + [p])
  }

  // ---------------------------------------------------------------------
  // Invariants
  // ---------------------------------------------------------------------

  /** A faculty member teaches at most one class per slot. */
  predicate NoFacultyClash(ps: seq<Placement>) {
    forall i, j :: 0 <= i < j < |ps| ==>
      !(ps[i].course.facultyId == ps[j].course.facultyId && SlotName(ps[i].slot) == SlotName(ps[j].slot))
  }

  /** A room (by id) hosts at most one class per slot. */
  predicate NoRoomClash(ps: seq<Placement>) {
    forall i, j :: 0 <= i < j < |ps| ==>
      !(ps[i].room.id == ps[j].room.id && SlotName(ps[i].slot) == SlotName(ps[j].slot))
  }

  /** A section key receives at most one class per slot. */
  predicate NoSectionClash(ps: seq<Placement>) {
    forall i, j :: 0 <= i < j < |ps| ==>
      !(ps[i].key == ps[j].key && SlotName(ps[i].slot) == SlotName(ps[j].slot))
  }

  /** Every class is in a declared room of the right type, on a scanned day and time. */
  predicate WellPlaced(ps: seq<Placement>, rooms: seq<Room>, times: seq<string>) {
    forall i :: 0 <= i < |ps| ==>
      && ps[i].room in rooms
      && TypeMatches(ps[i].room, ps[i].course.requiresLab)
      && ps[i].slot.day in Weekdays
      && ps[i].slot.time in times
  }

  /** The busy sets record every logged class. */
  predicate Recorded(st: State) {
    forall i :: 0 <= i < |st.placements| ==>
      && SlotName(st.placements[i].slot) in Busy(st.facultyBusy, st.placements[i].course.facultyId)
      && SlotName(st.placements[i].slot) in Busy(st.roomBusy, st.placements[i].room.id)
  }

  /** Every logged class is still visible in its section's timetable. */
  predicate CellsKept(st: State) {
    forall i :: 0 <= i < |st.placements| ==>
      && SlotName(st.placements[i].slot) in SectionSlots(st.schedule, st.placements[i].key)
      && SectionSlots(st.schedule, st.placements[i].key)[SlotName(st.placements[i].slot)] == st.placements[i].cell
  }

  /** Entry `i` is the last class logged for section `key` at slot `name`. */
  predicate LastAt(ps: seq<Placement>, i: int, key: string, name: string) {
    && 0 <= i < |ps|
    && ps[i].key == key && SlotName(ps[i].slot) == name
    && forall j :: i < j < |ps| ==> !(ps[j].key == key && SlotName(ps[j].slot) == name)
  }

  /** The timetable holds exactly what the log wrote: every logged class's
      slot is filled in its section, and every filled cell is the cell of the
      last class logged there (later writes overwrite earlier ones). */
  ghost predicate CellsLogged(st: State) {
    && (forall i :: 0 <= i < |st.placements| ==>
          SlotName(st.placements[i].slot) in SectionSlots(st.schedule, st.placements[i].key))
    && (forall key, name | name in SectionSlots(st.schedule, key) ::
          exists i :: LastAt(st.placements, i, key, name) && SectionSlots(st.schedule, key)[name] == st.placements[i].cell)
  }

  /** The cell a write does not touch keeps its last writer. */
  lemma CommitKeepsLastWrite(st: State, p: Placement, key: string, name: string)
    requires name in SectionSlots(st.schedule, key)
    requires exists i :: LastAt(st.placements, i, key, name) && SectionSlots(st.schedule, key)[name] == st.placements[i].cell
    requires key != p.key || name != SlotName(p.slot)
    ensures exists i :: LastAt(st.placements + [p], i, key, name) && SectionSlots(st.schedule, key)[name] == (st.placements + [p])[i].cell
  {
    var ps := st.placements + [p];
    var i :| LastAt(st.placements, i, key, name) && SectionSlots(st.schedule, key)[name] == st.placements[i].cell;
    assert ps[i] == st.placements[i];
    assert LastAt(ps, i, key, name);
  }

  lemma CommitLogged(st: State, p: Placement)
    requires CellsLogged(st)
    ensures CellsLogged(Commit(st, p))
  {
    var r := Commit(st, p);
    var ps := r.placements;
    forall i | 0 <= i < |ps| ensures SlotName(ps[i].slot) in SectionSlots(r.schedule, ps[i].key) {
      if i < |st.placements| {
        assert ps[i] == st.placements[i];
      }
    }
    forall key, name | name in SectionSlots(r.schedule, key)
      ensures exists i :: LastAt(ps, i, key, name) && SectionSlots(r.schedule, key)[name] == ps[i].cell
    {
      if key == p.key && name == SlotName(p.slot) {
        assert LastAt(ps, |st.placements|, key, name);
      } else {
        CommitKeepsLastWrite(st, p, key, name);
      }
    }
  }

  ghost predicate Valid(st: State, rooms: seq<Room>, times: seq<string>, guardSection: bool) {
    && Recorded(st)
    && CellsLogged(st)
    && NoFacultyClash(st.placements)
    && NoRoomClash(st.placements)
    && WellPlaced(st.placements, rooms, times)
    && (guardSection ==> NoSectionClash(st.placements) && CellsKept(st))
  }

  lemma CommitRecorded(st: State, p: Placement)
    requires Recorded(st)
    ensures Recorded(Commit(st, p))
  {
    var r := Commit(st, p);
    forall i | 0 <= i < |r.placements|
      ensures SlotName(r.placements[i].slot) in Busy(r.facultyBusy, r.placements[i].course.facultyId)
      ensures SlotName(r.placements[i].slot) in Busy(r.roomBusy, r.placements[i].room.id)
    {
      if i < |st.placements| {
        assert r.placements[i] == st.placements[i];
      }
    }
  }

  lemma CommitClashFree(st: State, p: Placement)
    requires Recorded(st) && NoFacultyClash(st.placements) && NoRoomClash(st.placements)
    requires SlotName(p.slot) !in Busy(st.facultyBusy, p.course.facultyId)
    requires SlotName(p.slot) !in Busy(st.roomBusy, p.room.id)
    ensures NoFacultyClash(st.placements + [p]) && NoRoomClash(st.placements + [p])
  {
    var qs := st.placements + [p];
    forall i, j | 0 <= i < j < |qs|
      ensures !(qs[i].course.facultyId == qs[j].course.facultyId && SlotName(qs[i].slot) == SlotName(qs[j].slot))
      ensures !(qs[i].room.id == qs[j].room.id && SlotName(qs[i].slot) == SlotName(qs[j].slot))
    {
      assert qs[i] == st.placements[i];
      if j < |st.placements| {
        assert qs[j] == st.placements[j];
      }
    }
  }

  lemma CommitWellPlaced(ps: seq<Placement>, p: Placement, rooms: seq<Room>, times: seq<string>)
    requires WellPlaced(ps, rooms, times)
    requires p.room in rooms && TypeMatches(p.room, p.course.requiresLab) && p.slot.day in Weekdays && p.slot.time in times
    ensures WellPlaced(ps + [p], rooms, times)
  {
    var qs := ps + [p];
    forall i | 0 <= i < |qs|
      ensures qs[i].room in rooms && TypeMatches(qs[i].room, qs[i].course.requiresLab)
      ensures qs[i].slot.day in Weekdays && qs[i].slot.time in times
    {
      if i < |ps| {
        assert qs[i] == ps[i];
      }
    }
  }

  lemma CommitGuarded(st: State, p: Placement)
    requires NoSectionClash(st.placements) && CellsKept(st)
    requires SlotName(p.slot) !in SectionSlots(st.schedule, p.key)
    ensures NoSectionClash(Commit(st, p).placements) && CellsKept(Commit(st, p))
  {
    var r := Commit(st, p);
    var qs := r.placements;
    forall i, j | 0 <= i < j < |qs|
      ensures !(qs[i].key == qs[j].key && SlotName(qs[i].slot) == SlotName(qs[j].slot))
    {
      assert qs[i] == st.placements[i];
      if j < |st.placements| {
        assert qs[j] == st.placements[j];
      }
    }
    forall i | 0 <= i < |qs|
      ensures SlotName(qs[i].slot) in SectionSlots(r.schedule, qs[i].key)
      ensures SectionSlots(r.schedule, qs[i].key)[SlotName(qs[i].slot)] == qs[i].cell
    {
      if i < |st.placements| {
        assert qs[i] == st.placements[i];
      }
    }
  }

  lemma CommitValid(st: State, p: Placement, rooms: seq<Room>, times: seq<string>, guardSection: bool)
    requires Valid(st, rooms, times, guardSection)
    requires SlotName(p.slot) !in Blocked(st, p.course, p.key, guardSection)
    requires Available(p.slot, p.room, p.course.requiresLab, Blocked(st, p.course, p.key, guardSection), st.roomBusy)
    requires p.room in rooms && p.slot.day in Weekdays && p.slot.time in times
    ensures Valid(Commit(st, p), rooms, times, guardSection)
  {
    CommitRecorded(st, p);
    CommitLogged(st, p);
    CommitClashFree(st, p);
    CommitWellPlaced(st.placements, p, rooms, times);
    if guardSection {
      CommitGuarded(st, p);
    }
  }

  // ---------------------------------------------------------------------
  // The loops
  // ---------------------------------------------------------------------

  /** One iteration's search: the class the loop would write next, if any. */
  function NextClass(st: State, input: Input, course: Course, key: string, sd: SectionData,
                     guardSection: bool): (r: Option<Placement>)
    ensures r.Some? ==> r.value.course == course && r.value.key == key
  {
    match FindAvailableSlot(input.times, input.rooms, course.requiresLab, Blocked(st, course, key, guardSection), st.roomBusy)
    case None => None
    case Some((t, room)) => Some(Placement(key, course, t, room, CellFor(course, room, sd)))
  }

  /** The class found is in a declared room of the right type, on a
      scanned day and time, and clear of everything blocked for it. */
  lemma NextClassFits(st: State, input: Input, course: Course, key: string, sd: SectionData, guardSection: bool)
    requires NextClass(st, input, course, key, sd, guardSection).Some?
    ensures var p := NextClass(st, input, course, key, sd, guardSection).value;
      && p.room in input.rooms && p.slot.day in Weekdays && p.slot.time in input.times
      && Available(p.slot, p.room, course.requiresLab, Blocked(st, course, key, guardSection), st.roomBusy)
  {
  }

  /** The `while scheduled_count < classes_per_week` loop for one course:
      search, stop at the first failure, otherwise write the class. Only
      classes of this course under this section key are added, at most one
      per remaining iteration. */
  function RepeatCourse(st: State, input: Input, course: Course, key: string, sd: SectionData,
                        count: nat, target: nat, guardSection: bool): (r: State)
    ensures |st.placements| <= |r.placements| <= |st.placements| + (if count < target then target - count else 0)
    ensures r.placements[..|st.placements|] == st.placements
    ensures AllFor(r.placements, |st.placements|, course, key)
    decreases target - count
  {
    if count >= target then st
    else match NextClass(st, input, course, key, sd, guardSection)
      case None => st
      case Some(p) =>
        var next := Commit(st, p);
        var r := RepeatCourse(next, input, course, key, sd, count + 1, target, guardSection);
        ExtendTagged(st.placements, p, r.placements, course, key);
        r
  }

  lemma {:induction false} RepeatCourseValid(st: State, input: Input, course: Course, key: string, sd: SectionData,
                                             count: nat, target: nat, guardSection: bool)
    requires Valid(st, input.rooms, input.times, guardSection)
    ensures Valid(RepeatCourse(st, input, course, key, sd, count, target, guardSection), input.rooms, input.times, guardSection)
    decreases target - count
  {
    if count < target {
      match NextClass(st, input, course, key, sd, guardSection)
      case None =>
      case Some(p) =>
        NextClassFits(st, input, course, key, sd, guardSection);
        CommitValid(st, p, input.rooms, input.times, guardSection);
        RepeatCourseValid(Commit(st, p), input, course, key, sd, count + 1, target, guardSection);
    }
  }

  /** When the loop for `course`, started from `st` with `count` classes,
      ends below `target` at `r`, the search fails on the state it leaves. */
  predicate StoppedShort(st: State, r: State, input: Input, course: Course, key: string, sd: SectionData,
                         count: nat, target: nat, guardSection: bool) {
    count + |r.placements| - |st.placements| < target ==> NextClass(r, input, course, key, sd, guardSection).None?
  }

  lemma {:induction false} RepeatCourseStopsShort(st: State, input: Input, course: Course, key: string, sd: SectionData,
                                                  count: nat, target: nat, guardSection: bool)
    ensures StoppedShort(st, RepeatCourse(st, input, course, key, sd, count, target, guardSection),
                         input, course, key, sd, count, target, guardSection)
    decreases target - count
  {
    if count < target {
      match NextClass(st, input, course, key, sd, guardSection)
      case None =>
      case Some(p) =>
        RepeatCourseStopsShort(Commit(st, p), input, course, key, sd, count + 1, target, guardSection);
    }
  }

  /** `ps` is what the search finds, one class after another, starting from
      `st` and writing each class before looking for the next. */
  predicate Searched(st: State, ps: seq<Placement>, input: Input, course: Course, key: string, sd: SectionData,
                     guardSection: bool)
    decreases |ps|
  {
    |ps| == 0 ||
      (NextClass(st, input, course, key, sd, guardSection) == Some(ps[0]) &&
       Searched(Commit(st, ps[0]), ps[1..], input, course, key, sd, guardSection))
  }

  /** The state after writing the classes of `ps` in order. */
  function CommitAll(st: State, ps: seq<Placement>): (r: State)
    ensures r.placements == st.placements + ps
    decreases |ps|
  {
    if |ps| == 0 then st else CommitAll(Commit(st, ps[0]), ps[1..])
  }

  lemma ReplayCons(st: State, p: Placement, rest: seq<Placement>, input: Input, course: Course, key: string,
                   sd: SectionData, guardSection: bool)
    requires NextClass(st, input, course, key, sd, guardSection) == Some(p)
    requires Searched(Commit(st, p), rest, input, course, key, sd, guardSection)
    ensures Searched(st, [p] + rest, input, course, key, sd, guardSection)
    ensures CommitAll(st, [p] + rest) == CommitAll(Commit(st, p), rest)
  {
    assert ([p] + rest)[0] == p && ([p] + rest)[1..] == rest;
  }

  /** Every class the loop adds is the search's answer on the state the
      classes before it left, and the loop's result is that state after the
      last of them. */
  lemma {:induction false} RepeatCourseReplays(st: State, input: Input, course: Course, key: string, sd: SectionData,
                                               count: nat, target: nat, guardSection: bool)
    ensures var r := RepeatCourse(st, input, course, key, sd, count, target, guardSection);
            && Searched(st, r.placements[|st.placements|..], input, course, key, sd, guardSection)
            && r == CommitAll(st, r.placements[|st.placements|..])
    decreases target - count
  {
    var r := RepeatCourse(st, input, course, key, sd, count, target, guardSection);
    if count < target {
      match NextClass(st, input, course, key, sd, guardSection)
      case None =>
        assert r.placements[|st.placements|..] == [];
      case Some(p) =>
        var next := Commit(st, p);
        RepeatCourseReplays(next, input, course, key, sd, count + 1, target, guardSection);
        Seqs.SuffixAfterPrefix(st.placements, p, r.placements);
        ReplayCons(st, p, r.placements[|next.placements|..], input, course, key, sd, guardSection);
    } else {
      assert r.placements[|st.placements|..] == [];
    }
  }

  /** Every class of `ps` from index `from` on is for `course` under `key`. */
  predicate AllFor(ps: seq<Placement>, from: nat, course: Course, key: string) {
    forall i :: from <= i < |ps| ==> ps[i].course == course && ps[i].key == key
  }

  /** Extending a run of `course`/`key` classes backwards by one more. */
  lemma ExtendTagged(a: seq<Placement>, p: Placement, b: seq<Placement>, course: Course, key: string)
    requires |a| + 1 <= |b| && b[..|a| + 1] == a + [p]
    requires p.course == course && p.key == key
    requires AllFor(b, |a| + 1, course, key)
    ensures b[..|a|] == a
    ensures AllFor(b, |a|, course, key)
  {
    assert b[..|a|] == b[..|a| + 1][..|a|];
    assert b[|a|] == b[..|a| + 1][|a|];
  }

  /** The loop over a section's department courses. */
  function RunCourses(st: State, input: Input, courses: seq<Course>, key: string, sd: SectionData,
                      guardSection: bool): (r: State)
    ensures |st.placements| <= |r.placements|
    ensures r.placements[..|st.placements|] == st.placements
    decreases |courses|
  {
    if |courses| == 0 then st
    else
      var next := RepeatCourse(st, input, courses[0], key, sd, 0, WeeklyClasses(courses[0].totalHours), guardSection);
      var r := RunCourses(next, input, courses[1..], key, sd, guardSection);
      Seqs.PrefixTrans(st.placements, next.placements, r.placements);
      r
  }

  lemma {:induction false} RunCoursesValid(st: State, input: Input, courses: seq<Course>, key: string, sd: SectionData,
                                           guardSection: bool)
    requires Valid(st, input.rooms, input.times, guardSection)
    ensures Valid(RunCourses(st, input, courses, key, sd, guardSection), input.rooms, input.times, guardSection)
    decreases |courses|
  {
    if |courses| > 0 {
      var next := RepeatCourse(st, input, courses[0], key, sd, 0, WeeklyClasses(courses[0].totalHours), guardSection);
      RepeatCourseValid(st, input, courses[0], key, sd, 0, WeeklyClasses(courses[0].totalHours), guardSection);
      RunCoursesValid(next, input, courses[1..], key, sd, guardSection);
    }
  }

  /** `[c for c in courses if c.department == dept_code]`. */
  function CoursesIn(courses: seq<Course>, deptCode: string): (r: seq<Course>)
    ensures forall c :: c in r <==> c in courses && c.department == deptCode
  {
    if |courses| == 0 then []
    else
      var rest := CoursesIn(courses[1..], deptCode);
      assert forall c :: c in courses <==> c == courses[0] || c in courses[1..] by {
        assert courses == [courses[0]] + courses[1..];
      }
      if courses[0].department == deptCode then [courses[0]] + rest else rest
  }

  /** The loop over one department's sections. */
  function RunSections(st: State, input: Input, courses: seq<Course>, deptCode: string,
                       sections: Dicts.Dict<string, SectionData>, guardSection: bool): (r: State)
    ensures |st.placements| <= |r.placements|
    ensures r.placements[..|st.placements|] == st.placements
    decreases |sections|
  {
    if |sections| == 0 then st
    else
      var sd := sections[0].1;
      var next := RunCourses(st, input, CoursesIn(courses, deptCode), SectionKey(deptCode, sd), sd, guardSection);
      var r := RunSections(next, input, courses, deptCode, sections[1..], guardSection);
      Seqs.PrefixTrans(st.placements, next.placements, r.placements);
      r
  }

  lemma {:induction false} RunSectionsValid(st: State, input: Input, courses: seq<Course>, deptCode: string,
                                            sections: Dicts.Dict<string, SectionData>, guardSection: bool)
    requires Valid(st, input.rooms, input.times, guardSection)
    ensures Valid(RunSections(st, input, courses, deptCode, sections, guardSection), input.rooms, input.times, guardSection)
    decreases |sections|
  {
    if |sections| > 0 {
      var sd := sections[0].1;
      var next := RunCourses(st, input, CoursesIn(courses, deptCode), SectionKey(deptCode, sd), sd, guardSection);
      RunCoursesValid(st, input, CoursesIn(courses, deptCode), SectionKey(deptCode, sd), sd, guardSection);
      RunSectionsValid(next, input, courses, deptCode, sections[1..], guardSection);
    }
  }

  /** The loop over departments. */
  function RunDepartments(st: State, input: Input, courses: seq<Course>,
                          departments: Dicts.Dict<string, Department>, guardSection: bool): (r: State)
    ensures |st.placements| <= |r.placements|
    ensures r.placements[..|st.placements|] == st.placements
    decreases |departments|
  {
    if |departments| == 0 then st
    else
      var next := RunSections(st, input, courses, departments[0].0, departments[0].1.sections, guardSection);
      var r := RunDepartments(next, input, courses, departments[1..], guardSection);
      Seqs.PrefixTrans(st.placements, next.placements, r.placements);
      r
  }

  lemma {:induction false} RunDepartmentsValid(st: State, input: Input, courses: seq<Course>,
                                               departments: Dicts.Dict<string, Department>, guardSection: bool)
    requires Valid(st, input.rooms, input.times, guardSection)
    ensures Valid(RunDepartments(st, input, courses, departments, guardSection), input.rooms, input.times, guardSection)
    decreases |departments|
  {
    if |departments| > 0 {
      var next := RunSections(st, input, courses, departments[0].0, departments[0].1.sections, guardSection);
      RunSectionsValid(st, input, courses, departments[0].0, departments[0].1.sections, guardSection);
      RunDepartmentsValid(next, input, courses, departments[1..], guardSection);
    }
  }

  /** `generate_schedule`: nothing at all without courses or rooms;
      otherwise no faculty member or room is double-booked, every class
      sits in a room of the right type on a scanned day and time, and,
      when the section's own slots are guarded, no section is double-booked
      and every written cell survives. */
  function GenerateSchedule(input: Input, guardSection: bool): (r: State)
    ensures Valid(r, input.rooms, input.times, guardSection)
    ensures |ProcessInput(input.departments)| == 0 || |input.rooms| == 0 ==> r == Start
  {
    var courses := ProcessInput(input.departments);
    if |courses| == 0 || |input.rooms| == 0 then Start
    else
      RunDepartmentsValid(Start, input, courses, input.departments, guardSection);
      RunDepartments(Start, input, courses, input.departments, guardSection)
  }

  // ---------------------------------------------------------------------
  // Faculty load
  // ---------------------------------------------------------------------

  /** The classes faculty member `f` teaches, in log order. */
  function ClassesOf(ps: seq<Placement>, f: string): (r: seq<Placement>)
    ensures |r| <= |ps|
    ensures forall q :: q in r <==> q in ps && q.course.facultyId == f
  {
    if |ps| == 0 then []
    else
      var rest := ClassesOf(ps[..|ps| - 1], f);
      var last := ps[|ps| - 1];
      assert forall q :: q in ps <==> q in ps[..|ps| - 1] || q == last by {
        assert ps == ps[..|ps| - 1] + [last];
      }
      if last.course.facultyId == f then rest + [last] else rest
  }

  /** The slot names of a run of classes. */
  function SlotNamesOf(ps: seq<Placement>): (names: seq<string>)
    ensures |names| == |ps|
    ensures forall k :: 0 <= k < |ps| ==> names[k] == SlotName(ps[k].slot)
  {
    if |ps| == 0 then [] else SlotNamesOf(ps[..|ps| - 1]) + [SlotName(ps[|ps| - 1].slot)]
  }

  /** A faculty member's classes sit in pairwise different slots. */
  lemma {:induction false} FacultySlotsDistinct(ps: seq<Placement>, f: string)
    requires NoFacultyClash(ps)
    ensures Seqs.Distinct(SlotNamesOf(ClassesOf(ps, f)))
  {
    if |ps| > 0 {
      var init := ps[..|ps| - 1];
      var last := ps[|ps| - 1];
      NoFacultyClashPrefix(ps);
      FacultySlotsDistinct(init, f);
      if last.course.facultyId == f {
        LastSlotFresh(ps, f);
        assert ClassesOf(ps, f) == ClassesOf(init, f) + [last];
        DistinctSnoc(SlotNamesOf(ClassesOf(init, f)), SlotNamesOf(ClassesOf(ps, f)), SlotName(last.slot));
      }
    }
  }

  lemma NoFacultyClashPrefix(ps: seq<Placement>)
    requires |ps| > 0 && NoFacultyClash(ps)
    ensures NoFacultyClash(ps[..|ps| - 1])
  {
    var init := ps[..|ps| - 1];
    forall i, j | 0 <= i < j < |init|
      ensures !(init[i].course.facultyId == init[j].course.facultyId && SlotName(init[i].slot) == SlotName(init[j].slot))
    {
      assert init[i] == ps[i] && init[j] == ps[j];
    }
  }

  /** The last class's slot is taken by none of the faculty member's
      earlier classes. */
  lemma LastSlotFresh(ps: seq<Placement>, f: string)
    requires |ps| > 0 && NoFacultyClash(ps) && ps[|ps| - 1].course.facultyId == f
    ensures SlotName(ps[|ps| - 1].slot) !in SlotNamesOf(ClassesOf(ps[..|ps| - 1], f))
  {
    var init := ps[..|ps| - 1];
    var names := SlotNamesOf(ClassesOf(init, f));
    forall k | 0 <= k < |names| ensures names[k] != SlotName(ps[|ps| - 1].slot) {
      var q := ClassesOf(init, f)[k];
      assert q in init;
      var i :| 0 <= i < |init| && init[i] == q;
      assert ps[i] == q;
    }
  }

  lemma DistinctSnoc(names: seq<string>, all: seq<string>, x: string)
    requires Seqs.Distinct(names) && x !in names
    requires all == names + [x]
    ensures Seqs.Distinct(all)
  {
    forall i, j | 0 <= i < j < |all| ensures all[i] != all[j] {
      if j < |all| - 1 {
        assert all[i] == names[i] && all[j] == names[j];
      } else {
        assert all[i] == names[i];
      }
    }
  }

  /** Each of those slots is one of the scanned (day, time) pairs. */
  lemma FacultySlotsScanned(ps: seq<Placement>, f: string, rooms: seq<Room>, times: seq<string>)
    requires WellPlaced(ps, rooms, times)
    ensures forall x :: x in SlotNamesOf(ClassesOf(ps, f)) ==> x in Names(Product(Weekdays, times))
  {
    var cs := ClassesOf(ps, f);
    var names := SlotNamesOf(cs);
    var scan := Product(Weekdays, times);
    forall x | x in names ensures x in Names(scan) {
      var k :| 0 <= k < |names| && names[k] == x;
      assert cs[k] in ps;
      var i :| 0 <= i < |ps| && ps[i] == cs[k];
      assert cs[k].slot in scan;
      var m :| 0 <= m < |scan| && scan[m] == cs[k].slot;
      assert Names(scan)[m] == x;
    }
  }

  /** The `while` loop cannot run away: a faculty member is given at most
      one class per scanned slot, so at most `5 * |times|` in the whole run. */
  lemma FacultyLoadBound(st: State, rooms: seq<Room>, times: seq<string>, guardSection: bool, f: string)
    requires Valid(st, rooms, times, guardSection)
    ensures |ClassesOf(st.placements, f)| <= 5 * |times|
  {
    FacultySlotsDistinct(st.placements, f);
    FacultySlotsScanned(st.placements, f, rooms, times);
    Seqs.DistinctWithinBound(SlotNamesOf(ClassesOf(st.placements, f)), Names(Product(Weekdays, times)));
  }

  /** The same bound for a finished run. */
  lemma GeneratedLoadBound(input: Input, guardSection: bool, f: string)
    ensures |ClassesOf(GenerateSchedule(input, guardSection).placements, f)| <= 5 * |input.times|
  {
    FacultyLoadBound(GenerateSchedule(input, guardSection), input.rooms, input.times, guardSection, f);
  }
}
