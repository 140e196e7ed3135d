/** The first allocator revision (`your_scheduler.py`): sections x department
    courses x a shuffled slot list, with faculty/room/section conflict sets and
    per-(course, section) weekly and daily counters.  Each (course, section)
    iteration commits at most one class because the slot loop stops after the
    first commit.  The shuffles are an input: `order(si, ci)` is the slot list
    as it stands when course `ci` of section `si` is scheduled. */
module GreedyScheduler {
  import opened Wrappers
  import opened Text
  import Seqs
  import Dicts
  import Rounding
  import opened TimeSlots

  // ---------------------------------------------------------------------
  // Slot catalog
  // ---------------------------------------------------------------------

  const Days: seq<string> := ["Monday", "Tuesday", "Wednesday", "Thursday", "Friday"]
  const Times: seq<string> := ["9:00", "10:00", "11:00", "12:00", "2:00", "3:00", "4:00"]

  /** The week: every day of `Days` paired with every time of `Times`. */
  function Catalog(): seq<TimeSlot> {
    Product(Days, Times)
  }

  /** The catalog renders as 35 pairwise-distinct "Day Time" strings
      (stated for `Product(Days, Times)`, the body of `Catalog`, with the two
      lists passed in: a contract that names `Catalog()` itself lets the
      solver unroll the list literals). */
  lemma CatalogNamesDistinct(days: seq<string>, times: seq<string>)
    requires days == Days && times == Times
    ensures |Names(Product(days, times))| == 35
    ensures Seqs.Distinct(Names(Product(days, times)))
  {
    DaysDistinct();
    TimesDistinct();
    ProductNamesDistinct(days, times);
  }

  lemma DaysDistinct()
    ensures Seqs.Distinct(Days)
    ensures forall d :: d in Days ==> ' ' !in d
  {
    forall i, j | 0 <= i < j < |Days| ensures Days[i] != Days[j] {
      assert Days[i][0] != Days[j][0] || |Days[i]| != |Days[j]|;
    }
  }

  lemma TimesDistinct()
    ensures Seqs.Distinct(Times)
  {
    forall i, j | 0 <= i < j < |Times| ensures Times[i] != Times[j] {
      assert Times[i][0] != Times[j][0] || Times[i][1] != Times[j][1];
    }
  }

  // ---------------------------------------------------------------------
  // Entities
  // ---------------------------------------------------------------------

  datatype Course = Course(code: string, name: string, department: string, semester: int,
                           credits: int, requiresLab: bool, faculty: string, totalHours: int)
  datatype Room = Room(id: string, name: string, capacity: int, roomType: string,
                       facilities: seq<string>, building: string)
  datatype Section = Section(department: string, batch: int, sectionName: string, strength: int)

  /** The schedule's key for a section: `(department, batch, section)`. */
  datatype SectionKey = SectionKey(department: string, batch: int, sectionName: string)

  /** What a schedule cell holds: course name, faculty and room name. */
  datatype Entry = Entry(course: string, faculty: string, room: string)

  /** One committed class, with the hour count its limits were computed from. */
  datatype Placement = Placement(section: Section, course: Course, slot: TimeSlot, room: Room, limitHours: int)

  /** The warning printed for a course that found no slot. */
  datatype Warning = CouldNotSchedule(course: string, section: Section)

  function KeyOf(s: Section): SectionKey {
    SectionKey(s.department, s.batch, s.sectionName)
  }

  /** The section half of the counters' key, `f"{department}_{batch}_{section}"`. */
  function CounterKey(s: Section): string {
    s.department + "_" + IntToString(s.batch) + "_" + s.sectionName
  }

  // ---------------------------------------------------------------------
  // Demand
  // ---------------------------------------------------------------------

  datatype Limits = Limits(weekly: int, daily: int)

  /** `calculate_class_limits`: `round(h / 12)` sessions a week and
      `round(weekly / 5)` a day, both rounded half to even, with no floor. */
  function ClassLimits(totalHours: int): (l: Limits)
    ensures Rounding.IsRoundHalfEven(totalHours, 12, l.weekly)
    ensures Rounding.IsRoundHalfEven(l.weekly, 5, l.daily)
  {
    var weekly := Rounding.RoundHalfEven(totalHours, 12);
    Limits(weekly, Rounding.RoundHalfEven(weekly, 5))
  }

  /** A tie in the weekly rounding happens only for hour counts that are 6 mod 12. */
  lemma WeeklyTieOnlyAtSix(h: int)
    ensures var w := ClassLimits(h).weekly;
      (2 * h - 24 * w == 12 || 2 * h - 24 * w == -12) <==> h % 12 == 6
  {
    var w := ClassLimits(h).weekly;
    if h % 12 == 6 {
      var q := h / 12;
      assert h == 12 * q + 6;
      assert -12 <= 2 * h - 24 * w <= 12;
      assert 24 * q + 12 - 24 * w == 2 * h - 24 * w;
    }
  }

  /** A course can be placed only if its daily limit is positive, which
      needs a weekly limit of at least 3, i.e. at least 31 total hours. */
  lemma DailyLimitThreshold(h: int)
    ensures ClassLimits(h).daily >= 1 <==> ClassLimits(h).weekly >= 3
    ensures ClassLimits(h).weekly >= 3 <==> h >= 31
    ensures ClassLimits(h).weekly >= 1 <==> h >= 7
  {
    var l := ClassLimits(h);
    if l.weekly >= 3 {
      assert l.daily >= 1;
    }
    if h >= 31 {
      assert 2 * h - 24 * l.weekly <= 12;
    }
    if l.weekly >= 3 {
      assert 24 * l.weekly >= 72;
    }
    if h >= 7 {
      assert 2 * h - 24 * l.weekly <= 12;
    }
    if l.weekly >= 1 {
      assert 24 * l.weekly >= 24;
    }
  }

  /** The hours from which a section's limits for `code` come: the last
      department course with that code wins in the limits dictionary. */
  function LimitHours(deptCourses: seq<Course>, code: string): (h: Option<int>)
    ensures h.Some? <==> exists c :: c in deptCourses && c.code == code
    ensures h.Some? ==> exists i :: LastWithCode(deptCourses, code, i) && h.value == deptCourses[i].totalHours
  {
    if |deptCourses| == 0 then None
    else if deptCourses[|deptCourses| - 1].code == code then
      assert LastWithCode(deptCourses, code, |deptCourses| - 1);
      Some(deptCourses[|deptCourses| - 1].totalHours)
    else
      var init := deptCourses[..|deptCourses| - 1];
      var h := LimitHours(init, code);
      assert forall c :: c in deptCourses <==> c in init || c == deptCourses[|deptCourses| - 1] by {
        assert deptCourses == init + [deptCourses[|deptCourses| - 1]];
      }
      if h.Some? then
        LastWithCodeExtend(init, deptCourses, code, h.value);
        h
      else h
  }

  /** Entry `i` is the last course of `deptCourses` with this code. */
  predicate LastWithCode(deptCourses: seq<Course>, code: string, i: int) {
    && 0 <= i < |deptCourses|
    && deptCourses[i].code == code
    && forall j :: i < j < |deptCourses| ==> deptCourses[j].code != code
  }

  lemma LastWithCodeExtend(init: seq<Course>, deptCourses: seq<Course>, code: string, hours: int)
    requires |deptCourses| > 0 && init == deptCourses[..|deptCourses| - 1]
    requires deptCourses[|deptCourses| - 1].code != code
    requires exists i :: LastWithCode(init, code, i) && hours == init[i].totalHours
    ensures exists i :: LastWithCode(deptCourses, code, i) && hours == deptCourses[i].totalHours
  {
    var i :| LastWithCode(init, code, i) && hours == init[i].totalHours;
    forall j | i < j < |deptCourses| ensures deptCourses[j].code != code {
      if j < |init| {
        assert deptCourses[j] == init[j];
      }
    }
    assert deptCourses[i] == init[i];
    assert LastWithCode(deptCourses, code, i);
  }

  /** `[c for c in courses if c.department == dept]`. */
  function DeptCourses(courses: seq<Course>, dept: string): (r: seq<Course>)
    ensures forall c :: c in r <==> c in courses && c.department == dept
    ensures |r| <= |courses|
  {
    if |courses| == 0 then []
    else
      var rest := DeptCourses(courses[1..], dept);
      assert forall c :: c in courses <==> c == courses[0] || c in courses[1..] by {
        assert courses == [courses[0]] + courses[1..];
      }
      if courses[0].department == dept then [courses[0]] + rest else rest
  }

  /** The filter keeps the courses' order: filtering a concatenation is
      the concatenation of the filtered parts. */
  lemma {:induction false} DeptCoursesAppend(a: seq<Course>, b: seq<Course>, dept: string)
    ensures DeptCourses(a + b, dept) == DeptCourses(a, dept) + DeptCourses(b, dept)
  {
    if |a| > 0 {
      assert (a + b)[0] == a[0];
      assert (a + b)[1..] == a[1..] + b;
      DeptCoursesAppend(a[1..], b, dept);
    } else {
      assert a + b == b;
    }
  }

  // ---------------------------------------------------------------------
  // Rooms
  // ---------------------------------------------------------------------

  /** Capacity and type constraint: labs for lab courses, classrooms otherwise. */
  predicate RoomFits(room: Room, strength: int, requiresLab: bool) {
    && room.capacity >= strength
    && (if requiresLab then room.roomType == "lab" else room.roomType == "classroom")
  }

  predicate Usable(room: Room, name: string, strength: int, requiresLab: bool, roomBusy: set<(string, string)>) {
    (room.name, name) !in roomBusy && RoomFits(room, strength, requiresLab)
  }

  /** The first room, in declaration order, free at the slot and fitting the class. */
  function FirstRoom(rooms: seq<Room>, name: string, strength: int, requiresLab: bool,
                     roomBusy: set<(string, string)>): (r: Option<Room>)
    ensures r.Some? ==> r.value in rooms && Usable(r.value, name, strength, requiresLab, roomBusy)
    ensures r.Some? ==> exists i :: 0 <= i < |rooms| && rooms[i] == r.value &&
                          (forall j :: 0 <= j < i ==> !Usable(rooms[j], name, strength, requiresLab, roomBusy))
    ensures r.None? <==> forall i :: 0 <= i < |rooms| ==> !Usable(rooms[i], name, strength, requiresLab, roomBusy)
  {
    if |rooms| == 0 then None
    else if Usable(rooms[0], name, strength, requiresLab, roomBusy) then Some(rooms[0])
    else
      var r := FirstRoom(rooms[1..], name, strength, requiresLab, roomBusy);
      assert forall i :: 1 <= i < |rooms| ==> rooms[i] == rooms[1..][i - 1];
      if r.Some? then
        var i :| 0 <= i < |rooms| - 1 && rooms[1..][i] == r.value &&
                 forall j :: 0 <= j < i ==> !Usable(rooms[1..][j], name, strength, requiresLab, roomBusy);
        assert rooms[i + 1] == r.value;
        r
      else r
  }

  // ---------------------------------------------------------------------
  // Conflict tracker
  // ---------------------------------------------------------------------

  /** Everything the run mutates: the schedule, the faculty and room
      occupancy sets, the weekly and daily counters, and two output logs
      (every committed class, every printed warning). */
  datatype Tracker = Tracker(
    schedule: Dicts.Dict<SectionKey, map<string, Entry>>,
    facultyBusy: set<(string, string)>,
    roomBusy: set<(string, string)>,
    weekly: map<(string, string), int>,
    daily: map<(string, string, string), int>,
    placements: seq<Placement>,
    warnings: seq<Warning>)

  const EmptyTracker := Tracker([], {}, {}, map[], map[], [], [])

  /** `defaultdict(int)` read. */
  function Get<K>(m: map<K, int>, k: K): int {
    if k in m then m[k] else 0
  }

  /** `schedule[key]` read of the `defaultdict(dict)`. */
  function SectionSlots(schedule: Dicts.Dict<SectionKey, map<string, Entry>>, key: SectionKey): map<string, Entry> {
    match Dicts.Lookup(schedule, key)
    case Some(m) => m
    case None => map[]
  }

  function WeeklyKey(p: Placement): (string, string) {
    (p.course.code, CounterKey(p.section))
  }

  function DailyKey(p: Placement): (string, string, string) {
    (p.course.code, CounterKey(p.section), p.slot.day)
  }

  /** Number of committed classes counted under a weekly counter key. */
  function WeeklyCount(ps: seq<Placement>, k: (string, string)): nat {
    if |ps| == 0 then 0
    else WeeklyCount(ps[..|ps| - 1], k) + (if WeeklyKey(ps[|ps| - 1]) == k then 1 else 0)
  }

  /** Number of committed classes counted under a daily counter key. */
  function DailyCount(ps: seq<Placement>, k: (string, string, string)): nat {
    if |ps| == 0 then 0
    else DailyCount(ps[..|ps| - 1], k) + (if DailyKey(ps[|ps| - 1]) == k then 1 else 0)
  }

  /** Invariant 1: a faculty member teaches at most one class per slot. */
  predicate NoFacultyClash(ps: seq<Placement>) {
    forall i, j :: 0 <= i < j < |ps| ==>
      !(ps[i].course.faculty == ps[j].course.faculty && SlotName(ps[i].slot) == SlotName(ps[j].slot))
  }

  /** Invariant 2: a room (by name) hosts at most one class per slot. */
  predicate NoRoomClash(ps: seq<Placement>) {
    forall i, j :: 0 <= i < j < |ps| ==>
      !(ps[i].room.name == ps[j].room.name && SlotName(ps[i].slot) == SlotName(ps[j].slot))
  }

  /** Invariant 3: a section key has at most one class per slot. */
  predicate NoSectionClash(ps: seq<Placement>) {
    forall i, j :: 0 <= i < j < |ps| ==>
      !(KeyOf(ps[i].section) == KeyOf(ps[j].section) && SlotName(ps[i].slot) == SlotName(ps[j].slot))
  }

  /** Invariant 4: every room is a declared room of sufficient capacity and the right type. */
  predicate RoomsComply(ps: seq<Placement>, rooms: seq<Room>) {
    forall i :: 0 <= i < |ps| ==>
      ps[i].room in rooms && RoomFits(ps[i].room, ps[i].section.strength, ps[i].course.requiresLab)
  }

  /** Invariant 5: when a class was committed, its counters stayed within the limits. */
  predicate WithinLimits(ps: seq<Placement>) {
    forall i :: 0 <= i < |ps| ==>
      && WeeklyCount(ps[..i + 1], WeeklyKey(ps[i])) <= ClassLimits(ps[i].limitHours).weekly
      && DailyCount(ps[..i + 1], DailyKey(ps[i])) <= ClassLimits(ps[i].limitHours).daily
  }

  /** The bookkeeping agrees with the log of committed classes. */
  ghost predicate Consistent(st: Tracker) {
    && (forall i :: 0 <= i < |st.placements| ==>
         (st.placements[i].course.faculty, SlotName(st.placements[i].slot)) in st.facultyBusy)
    && (forall i :: 0 <= i < |st.placements| ==>
         (st.placements[i].room.name, SlotName(st.placements[i].slot)) in st.roomBusy)
    && (forall i :: 0 <= i < |st.placements| ==>
         SlotName(st.placements[i].slot) in SectionSlots(st.schedule, KeyOf(st.placements[i].section)))
    && (forall k :: Get(st.weekly, k) == WeeklyCount(st.placements, k))
    && (forall k :: Get(st.daily, k) == DailyCount(st.placements, k))
  }

  /** Every schedule cell was written by a logged class and holds its entry. */
  ghost predicate CellsLogged(st: Tracker) {
    forall key, name | name in SectionSlots(st.schedule, key) ::
      exists i :: 0 <= i < |st.placements| && KeyOf(st.placements[i].section) == key &&
        SlotName(st.placements[i].slot) == name &&
        SectionSlots(st.schedule, key)[name] == EntryFor(st.placements[i].course, st.placements[i].room)
  }

  ghost predicate Valid(st: Tracker, rooms: seq<Room>) {
    && Consistent(st)
    && CellsLogged(st)
    && NoFacultyClash(st.placements)
    && NoRoomClash(st.placements)
    && NoSectionClash(st.placements)
    && RoomsComply(st.placements, rooms)
    && WithinLimits(st.placements)
  }

  // ---------------------------------------------------------------------
  // Counting lemmas
  // ---------------------------------------------------------------------

  lemma WeeklyCountSnoc(ps: seq<Placement>, p: Placement, k: (string, string))
    ensures WeeklyCount(ps + [p], k) == WeeklyCount(ps, k) + (if WeeklyKey(p) == k then 1 else 0)
  {
    assert (ps + [p])[..|ps|] == ps;
  }

  lemma DailyCountSnoc(ps: seq<Placement>, p: Placement, k: (string, string, string))
    ensures DailyCount(ps + [p], k) == DailyCount(ps, k) + (if DailyKey(p) == k then 1 else 0)
  {
    assert (ps + [p])[..|ps|] == ps;
  }

  // ---------------------------------------------------------------------
  // Committing one class
  // ---------------------------------------------------------------------

  function EntryFor(course: Course, room: Room): Entry {
    Entry(course.name, course.faculty, room.name)
  }

  /** The commit branch of the slot loop: write the schedule cell, mark the
      faculty and the room busy, bump both counters and log the class. */
  function Commit(st: Tracker, section: Section, course: Course, t: TimeSlot, room: Room, limitHours: int): (r: Tracker)
    ensures SectionSlots(r.schedule, KeyOf(section)) ==
              SectionSlots(st.schedule, KeyOf(section))[SlotName(t) := EntryFor(course, room)]
    ensures forall key :: key != KeyOf(section) ==> SectionSlots(r.schedule, key) == SectionSlots(st.schedule, key)
    ensures r.facultyBusy == st.facultyBusy + {(course.faculty, SlotName(t))}
    ensures r.roomBusy == st.roomBusy + {(room.name, SlotName(t))}
    ensures r.placements == st.placements + [Placement(section, course, t, room, limitHours)]
    ensures r.warnings == st.warnings
  {
    var name := SlotName(t);
    var key := KeyOf(section);
    var wk := (course.code, CounterKey(section));
    var dk := (course.code, CounterKey(section), t.day);
    var cells := SectionSlots(st.schedule, key)[name := EntryFor(course, room)];
    PutSlots(st.schedule, key, cells);
    st.(schedule := Dicts.Put(st.schedule, key, cells),
        facultyBusy := st.facultyBusy + {(course.faculty, name)},
        roomBusy := st.roomBusy + {(room.name, name)},
        weekly := st.weekly[wk := Get(st.weekly, wk) + 1],
        daily := st.daily[dk := Get(st.daily, dk) + 1],
        placements := st.placements + [Placement(section, course, t, room, limitHours)])
  }

  /** Writing a section's cells leaves every other section's cells alone. */
  lemma PutSlots(schedule: Dicts.Dict<SectionKey, map<string, Entry>>, key: SectionKey, cells: map<string, Entry>)
    ensures SectionSlots(Dicts.Put(schedule, key, cells), key) == cells
    ensures forall key' :: key' != key ==> SectionSlots(Dicts.Put(schedule, key, cells), key') == SectionSlots(schedule, key')
  {
    var d := Dicts.Put(schedule, key, cells);
    assert Dicts.Lookup(d, key) == Some(cells);
    forall key' | key' != key ensures SectionSlots(d, key') == SectionSlots(schedule, key') {
      assert Dicts.Lookup(d, key') == Dicts.Lookup(schedule, key');
    }
  }

  /** The conditions under which the slot loop commits. */
  predicate CanCommit(st: Tracker, rooms: seq<Room>, section: Section, course: Course, t: TimeSlot, room: Room, limitHours: int) {
    && Get(st.weekly, (course.code, CounterKey(section))) < ClassLimits(limitHours).weekly
    && Get(st.daily, (course.code, CounterKey(section), t.day)) < ClassLimits(limitHours).daily
    && (course.faculty, SlotName(t)) !in st.facultyBusy
    && room in rooms && Usable(room, SlotName(t), section.strength, course.requiresLab, st.roomBusy)
    && SlotName(t) !in SectionSlots(st.schedule, KeyOf(section))
  }

  lemma CommitKeepsCells(st: Tracker, section: Section, course: Course, t: TimeSlot, room: Room, limitHours: int)
    requires Consistent(st)
    ensures var r := Commit(st, section, course, t, room, limitHours);
      forall i :: 0 <= i < |r.placements| ==>
        SlotName(r.placements[i].slot) in SectionSlots(r.schedule, KeyOf(r.placements[i].section))
  {
    var r := Commit(st, section, course, t, room, limitHours);
    forall i | 0 <= i < |r.placements|
      ensures SlotName(r.placements[i].slot) in SectionSlots(r.schedule, KeyOf(r.placements[i].section))
    {
      if i < |st.placements| {
        var q := st.placements[i];
        assert r.placements[i] == q;
        assert SlotName(q.slot) in SectionSlots(st.schedule, KeyOf(q.section));
        if KeyOf(q.section) != KeyOf(section) {
          assert SectionSlots(r.schedule, KeyOf(q.section)) == SectionSlots(st.schedule, KeyOf(q.section));
        }
      }
    }
  }

  lemma CommitKeepsCounters(st: Tracker, section: Section, course: Course, t: TimeSlot, room: Room, limitHours: int)
    requires forall k :: Get(st.weekly, k) == WeeklyCount(st.placements, k)
    requires forall k :: Get(st.daily, k) == DailyCount(st.placements, k)
    ensures var r := Commit(st, section, course, t, room, limitHours);
      && (forall k :: Get(r.weekly, k) == WeeklyCount(r.placements, k))
      && (forall k :: Get(r.daily, k) == DailyCount(r.placements, k))
  {
    var r := Commit(st, section, course, t, room, limitHours);
    var p := Placement(section, course, t, room, limitHours);
    forall k ensures Get(r.weekly, k) == WeeklyCount(r.placements, k) {
      WeeklyCountSnoc(st.placements, p, k);
    }
    forall k ensures Get(r.daily, k) == DailyCount(r.placements, k) {
      DailyCountSnoc(st.placements, p, k);
    }
  }

  lemma CommitLogsCells(st: Tracker, section: Section, course: Course, t: TimeSlot, room: Room, limitHours: int)
    requires CellsLogged(st)
    ensures CellsLogged(Commit(st, section, course, t, room, limitHours))
  {
    var r := Commit(st, section, course, t, room, limitHours);
    var n := |st.placements|;
    forall key, name | name in SectionSlots(r.schedule, key)
      ensures exists i :: 0 <= i < |r.placements| && KeyOf(r.placements[i].section) == key &&
                SlotName(r.placements[i].slot) == name &&
                SectionSlots(r.schedule, key)[name] == EntryFor(r.placements[i].course, r.placements[i].room)
    {
      var cells := SectionSlots(r.schedule, key);
      if key == KeyOf(section) && name == SlotName(t) {
        assert cells[name] == EntryFor(course, room);
        assert r.placements[n] == Placement(section, course, t, room, limitHours);
      } else {
        var before := SectionSlots(st.schedule, key);
        if key == KeyOf(section) {
          assert cells == before[SlotName(t) := EntryFor(course, room)];
        } else {
          assert cells == before;
        }
        assert name in before && cells[name] == before[name];
        var i := LoggedAt(st, key, name);
        assert r.placements[i] == st.placements[i];
      }
    }
  }

  /** The class a schedule cell was logged as. */
  lemma LoggedAt(st: Tracker, key: SectionKey, name: string) returns (i: nat)
    requires CellsLogged(st) && name in SectionSlots(st.schedule, key)
    ensures i < |st.placements| && KeyOf(st.placements[i].section) == key && SlotName(st.placements[i].slot) == name
    ensures SectionSlots(st.schedule, key)[name] == EntryFor(st.placements[i].course, st.placements[i].room)
  {
    i :| 0 <= i < |st.placements| && KeyOf(st.placements[i].section) == key &&
      SlotName(st.placements[i].slot) == name &&
      SectionSlots(st.schedule, key)[name] == EntryFor(st.placements[i].course, st.placements[i].room);
  }

  lemma CommitConsistent(st: Tracker, section: Section, course: Course, t: TimeSlot, room: Room, limitHours: int)
    requires Consistent(st)
    ensures Consistent(Commit(st, section, course, t, room, limitHours))
  {
    var r := Commit(st, section, course, t, room, limitHours);
    CommitKeepsCells(st, section, course, t, room, limitHours);
    CommitKeepsCounters(st, section, course, t, room, limitHours);
    forall i | 0 <= i < |r.placements|
      ensures (r.placements[i].course.faculty, SlotName(r.placements[i].slot)) in r.facultyBusy
      ensures (r.placements[i].room.name, SlotName(r.placements[i].slot)) in r.roomBusy
    {
      if i < |st.placements| {
        assert r.placements[i] == st.placements[i];
      }
    }
  }

  lemma SnocFacultyClashFree(ps: seq<Placement>, p: Placement, busy: set<(string, string)>)
    requires NoFacultyClash(ps)
    requires forall i :: 0 <= i < |ps| ==> (ps[i].course.faculty, SlotName(ps[i].slot)) in busy
    requires (p.course.faculty, SlotName(p.slot)) !in busy
    ensures NoFacultyClash(ps + [p])
  {
    var qs := ps + [p];
    forall i, j | 0 <= i < j < |qs|
      ensures !(qs[i].course.faculty == qs[j].course.faculty && SlotName(qs[i].slot) == SlotName(qs[j].slot))
    {
      assert qs[i] == ps[i];
      if j < |ps| {
        assert qs[j] == ps[j];
      }
    }
  }

  lemma SnocRoomClashFree(ps: seq<Placement>, p: Placement, busy: set<(string, string)>)
    requires NoRoomClash(ps)
    requires forall i :: 0 <= i < |ps| ==> (ps[i].room.name, SlotName(ps[i].slot)) in busy
    requires (p.room.name, SlotName(p.slot)) !in busy
    ensures NoRoomClash(ps + [p])
  {
    var qs := ps + [p];
    forall i, j | 0 <= i < j < |qs|
      ensures !(qs[i].room.name == qs[j].room.name && SlotName(qs[i].slot) == SlotName(qs[j].slot))
    {
      assert qs[i] == ps[i];
      if j < |ps| {
        assert qs[j] == ps[j];
      }
    }
  }

  lemma SnocSectionClashFree(st: Tracker, p: Placement)
    requires NoSectionClash(st.placements)
    requires forall i :: 0 <= i < |st.placements| ==>
      SlotName(st.placements[i].slot) in SectionSlots(st.schedule, KeyOf(st.placements[i].section))
    requires SlotName(p.slot) !in SectionSlots(st.schedule, KeyOf(p.section))
    ensures NoSectionClash(st.placements + [p])
  {
    var ps := st.placements;
    var qs := ps + [p];
    forall i, j | 0 <= i < j < |qs|
      ensures !(KeyOf(qs[i].section) == KeyOf(qs[j].section) && SlotName(qs[i].slot) == SlotName(qs[j].slot))
    {
      assert qs[i] == ps[i];
      if j < |ps| {
        assert qs[j] == ps[j];
      }
    }
  }

  lemma SnocRoomsComply(ps: seq<Placement>, p: Placement, rooms: seq<Room>)
    requires RoomsComply(ps, rooms)
    requires p.room in rooms && RoomFits(p.room, p.section.strength, p.course.requiresLab)
    ensures RoomsComply(ps + [p], rooms)
  {
    var qs := ps + [p];
    forall i | 0 <= i < |qs| ensures qs[i].room in rooms && RoomFits(qs[i].room, qs[i].section.strength, qs[i].course.requiresLab) {
      if i < |ps| {
        assert qs[i] == ps[i];
      }
    }
  }

  lemma CommitClashFree(st: Tracker, rooms: seq<Room>, section: Section, course: Course, t: TimeSlot, room: Room, limitHours: int)
    requires Consistent(st)
    requires NoFacultyClash(st.placements) && NoRoomClash(st.placements) && NoSectionClash(st.placements)
    requires RoomsComply(st.placements, rooms)
    requires CanCommit(st, rooms, section, course, t, room, limitHours)
    ensures var ps := Commit(st, section, course, t, room, limitHours).placements;
      NoFacultyClash(ps) && NoRoomClash(ps) && NoSectionClash(ps) && RoomsComply(ps, rooms)
  {
    var p := Placement(section, course, t, room, limitHours);
    SnocFacultyClashFree(st.placements, p, st.facultyBusy);
    SnocRoomClashFree(st.placements, p, st.roomBusy);
    SnocSectionClashFree(st, p);
    SnocRoomsComply(st.placements, p, rooms);
  }

  lemma WithinLimitsSnoc(ps: seq<Placement>, p: Placement)
    requires WithinLimits(ps)
    requires WeeklyCount(ps, WeeklyKey(p)) < ClassLimits(p.limitHours).weekly
    requires DailyCount(ps, DailyKey(p)) < ClassLimits(p.limitHours).daily
    ensures WithinLimits(ps + [p])
  {
    var qs := ps + [p];
    forall i | 0 <= i < |qs|
      ensures WeeklyCount(qs[..i + 1], WeeklyKey(qs[i])) <= ClassLimits(qs[i].limitHours).weekly
      ensures DailyCount(qs[..i + 1], DailyKey(qs[i])) <= ClassLimits(qs[i].limitHours).daily
    {
      if i < |ps| {
        assert qs[..i + 1] == ps[..i + 1];
        assert qs[i] == ps[i];
      } else {
        assert qs[..i + 1] == qs;
        WeeklyCountSnoc(ps, p, WeeklyKey(p));
        DailyCountSnoc(ps, p, DailyKey(p));
      }
    }
  }

  lemma CommitWithinLimits(st: Tracker, section: Section, course: Course, t: TimeSlot, room: Room, limitHours: int)
    requires forall k :: Get(st.weekly, k) == WeeklyCount(st.placements, k)
    requires forall k :: Get(st.daily, k) == DailyCount(st.placements, k)
    requires WithinLimits(st.placements)
    requires Get(st.weekly, (course.code, CounterKey(section))) < ClassLimits(limitHours).weekly
    requires Get(st.daily, (course.code, CounterKey(section), t.day)) < ClassLimits(limitHours).daily
    ensures WithinLimits(Commit(st, section, course, t, room, limitHours).placements)
  {
    var p := Placement(section, course, t, room, limitHours);
    assert WeeklyKey(p) == (course.code, CounterKey(section));
    assert DailyKey(p) == (course.code, CounterKey(section), t.day);
    WithinLimitsSnoc(st.placements, p);
  }

  lemma CommitValid(st: Tracker, rooms: seq<Room>, section: Section, course: Course, t: TimeSlot, room: Room, limitHours: int)
    requires Valid(st, rooms)
    requires CanCommit(st, rooms, section, course, t, room, limitHours)
    ensures Valid(Commit(st, section, course, t, room, limitHours), rooms)
  {
    CommitConsistent(st, section, course, t, room, limitHours);
    CommitLogsCells(st, section, course, t, room, limitHours);
    CommitClashFree(st, rooms, section, course, t, room, limitHours);
    CommitWithinLimits(st, section, course, t, room, limitHours);
  }

  // ---------------------------------------------------------------------
  // The loops
  // ---------------------------------------------------------------------

  /** The inner slot loop: the first slot, in the given order, that passes the
      daily limit, the faculty check, the room search and the section check
      gets the class; `false` when the list runs out. */
  function TrySlots(st: Tracker, rooms: seq<Room>, section: Section, course: Course, limitHours: int,
                    slots: seq<TimeSlot>): (res: (Tracker, bool))
    requires Valid(st, rooms)
    requires Get(st.weekly, (course.code, CounterKey(section))) < ClassLimits(limitHours).weekly
    ensures Valid(res.0, rooms)
    ensures !res.1 ==> res.0 == st
    ensures res.1 <==> exists k, room :: 0 <= k < |slots| && CanCommit(st, rooms, section, course, slots[k], room, limitHours)
    ensures res.1 ==> exists k, room :: 0 <= k < |slots| && CanCommit(st, rooms, section, course, slots[k], room, limitHours) &&
                        res.0 == Commit(st, section, course, slots[k], room, limitHours)
    ensures res.1 ==> exists k :: FirstFit(st, rooms, section, course, limitHours, slots, k, res.0)
  {
    if |slots| == 0 then (st, false)
    else
      var t := slots[0];
      var rest := TrySlots(st, rooms, section, course, limitHours, slots[1..]);
      var room := SlotRoom(st, rooms, section, course, limitHours, t);
      SomeSlotShift(st, rooms, section, course, limitHours, slots);
      if room.Some? then
        CommitValid(st, rooms, section, course, t, room.value, limitHours);
        assert FirstFit(st, rooms, section, course, limitHours, slots, 0, Commit(st, section, course, t, room.value, limitHours));
        (Commit(st, section, course, t, room.value, limitHours), true)
      else
        if rest.1 then
          CommitShift(st, rooms, section, course, limitHours, slots, rest.0);
          FirstFitShift(st, rooms, section, course, limitHours, slots, rest.0);
          rest
        else rest
  }

  /** Slot `k` is the first in `slots` at which the loop body finds a room,
      and `r` is the tracker after committing the class there, in the room
      the first-fit search returned. */
  predicate FirstFit(st: Tracker, rooms: seq<Room>, section: Section, course: Course, limitHours: int,
                     slots: seq<TimeSlot>, k: int, r: Tracker)
    requires Get(st.weekly, (course.code, CounterKey(section))) < ClassLimits(limitHours).weekly
  {
    && 0 <= k < |slots|
    && (forall j :: 0 <= j < k ==> SlotRoom(st, rooms, section, course, limitHours, slots[j]).None?)
    && SlotRoom(st, rooms, section, course, limitHours, slots[k]).Some?
    && r == Commit(st, section, course, slots[k], SlotRoom(st, rooms, section, course, limitHours, slots[k]).value, limitHours)
  }

  lemma FirstFitShift(st: Tracker, rooms: seq<Room>, section: Section, course: Course, limitHours: int,
                      slots: seq<TimeSlot>, r: Tracker)
    requires Get(st.weekly, (course.code, CounterKey(section))) < ClassLimits(limitHours).weekly
    requires |slots| > 0 && SlotRoom(st, rooms, section, course, limitHours, slots[0]).None?
    requires exists k :: FirstFit(st, rooms, section, course, limitHours, slots[1..], k, r)
    ensures exists k :: FirstFit(st, rooms, section, course, limitHours, slots, k, r)
  {
    var k :| FirstFit(st, rooms, section, course, limitHours, slots[1..], k, r);
    forall j | 0 <= j < k + 1 ensures SlotRoom(st, rooms, section, course, limitHours, slots[j]).None? {
      if j > 0 {
        assert slots[j] == slots[1..][j - 1];
      }
    }
    assert slots[k + 1] == slots[1..][k];
    assert FirstFit(st, rooms, section, course, limitHours, slots, k + 1, r);
  }

  /** One pass of the slot loop's body: the daily limit, the faculty check,
      the room search and the section check, in that order; the room the
      class would get at `t`, if any. */
  function SlotRoom(st: Tracker, rooms: seq<Room>, section: Section, course: Course, limitHours: int,
                    t: TimeSlot): (r: Option<Room>)
    requires Get(st.weekly, (course.code, CounterKey(section))) < ClassLimits(limitHours).weekly
    ensures r.Some? ==> CanCommit(st, rooms, section, course, t, r.value, limitHours)
    ensures r.None? ==> forall room :: !CanCommit(st, rooms, section, course, t, room, limitHours)
  {
    var name := SlotName(t);
    if Get(st.daily, (course.code, CounterKey(section), t.day)) >= ClassLimits(limitHours).daily then None
    else if (course.faculty, name) in st.facultyBusy then None
    else match FirstRoom(rooms, name, section.strength, course.requiresLab, st.roomBusy)
      case None =>
        assert forall room :: room in rooms ==> exists i :: 0 <= i < |rooms| && rooms[i] == room;
        None
      case Some(room) => if name in SectionSlots(st.schedule, KeyOf(section)) then None else Some(room)
  }

  lemma SomeSlotShift(st: Tracker, rooms: seq<Room>, section: Section, course: Course, limitHours: int,
                      slots: seq<TimeSlot>)
    requires |slots| > 0
    ensures (exists k, room :: 0 <= k < |slots| && CanCommit(st, rooms, section, course, slots[k], room, limitHours))
        <==> (exists room :: CanCommit(st, rooms, section, course, slots[0], room, limitHours))
             || (exists k, room :: 0 <= k < |slots[1..]| && CanCommit(st, rooms, section, course, slots[1..][k], room, limitHours))
  {
    if exists k, room :: 0 <= k < |slots| && CanCommit(st, rooms, section, course, slots[k], room, limitHours) {
      var k, room :| 0 <= k < |slots| && CanCommit(st, rooms, section, course, slots[k], room, limitHours);
      if k > 0 {
        assert slots[1..][k - 1] == slots[k];
      }
    }
    if exists k, room :: 0 <= k < |slots[1..]| && CanCommit(st, rooms, section, course, slots[1..][k], room, limitHours) {
      var k, room :| 0 <= k < |slots[1..]| && CanCommit(st, rooms, section, course, slots[1..][k], room, limitHours);
      assert slots[k + 1] == slots[1..][k];
    }
  }

  lemma CommitShift(st: Tracker, rooms: seq<Room>, section: Section, course: Course, limitHours: int,
                    slots: seq<TimeSlot>, r: Tracker)
    requires |slots| > 0
    requires exists k, room :: 0 <= k < |slots[1..]| && CanCommit(st, rooms, section, course, slots[1..][k], room, limitHours) &&
                               r == Commit(st, section, course, slots[1..][k], room, limitHours)
    ensures exists k, room :: 0 <= k < |slots| && CanCommit(st, rooms, section, course, slots[k], room, limitHours) &&
                              r == Commit(st, section, course, slots[k], room, limitHours)
  {
    var k, room :| 0 <= k < |slots[1..]| && CanCommit(st, rooms, section, course, slots[1..][k], room, limitHours) &&
                   r == Commit(st, section, course, slots[1..][k], room, limitHours);
    assert slots[k + 1] == slots[1..][k];
  }

  /** The warning printed for a class the slot loop could not place; the
      invariant does not mention warnings. */
  function Warn(st: Tracker, rooms: seq<Room>, w: Warning): (r: Tracker)
    requires Valid(st, rooms)
    ensures Valid(r, rooms)
    ensures r.placements == st.placements && r.warnings == st.warnings + [w]
    ensures r.warnings[..|st.warnings|] == st.warnings
  {
    var r := st.(warnings := st.warnings + [w]);
    assert r.warnings[..|st.warnings|] == st.warnings;
    r
  }

  /** A successful slot loop logs exactly one class, of this course and
      section, at one of the offered slots, and warns of nothing. */
  lemma TrySlotsLogsOne(st: Tracker, rooms: seq<Room>, section: Section, course: Course, limitHours: int,
                        slots: seq<TimeSlot>)
    requires Valid(st, rooms)
    requires Get(st.weekly, (course.code, CounterKey(section))) < ClassLimits(limitHours).weekly
    requires TrySlots(st, rooms, section, course, limitHours, slots).1
    ensures var r := TrySlots(st, rooms, section, course, limitHours, slots).0;
            && |r.placements| == |st.placements| + 1
            && r.placements[..|st.placements|] == st.placements
            && r.placements[|st.placements|].section == section
            && r.placements[|st.placements|].course == course
            && r.placements[|st.placements|].slot in slots
            && r.placements[|st.placements|].limitHours == limitHours
            && r.warnings == st.warnings
  {
    var k, room :| 0 <= k < |slots| && CanCommit(st, rooms, section, course, slots[k], room, limitHours) &&
                   TrySlots(st, rooms, section, course, limitHours, slots).0 == Commit(st, section, course, slots[k], room, limitHours);
    var r := Commit(st, section, course, slots[k], room, limitHours);
    assert r.placements[..|st.placements|] == st.placements;
  }

  /** One course of one section: skip silently once the weekly counter has
      reached the limit, otherwise run the slot loop and warn if it fails. */
  function PlaceCourse(st: Tracker, rooms: seq<Room>, section: Section, deptCourses: seq<Course>,
                       course: Course, slots: seq<TimeSlot>): (r: Tracker)
    requires Valid(st, rooms)
    requires course in deptCourses
    ensures Valid(r, rooms)
    ensures |st.placements| <= |r.placements| <= |st.placements| + 1
    ensures r.placements[..|st.placements|] == st.placements
    ensures |st.warnings| <= |r.warnings| <= |st.warnings| + 1 && r.warnings[..|st.warnings|] == st.warnings
    ensures (|r.placements| - |st.placements|) + (|r.warnings| - |st.warnings|) <= 1
    ensures |r.placements| > |st.placements| ==>
              var p := r.placements[|st.placements|];
              p.section == section && p.course == course && p.slot in slots &&
              Some(p.limitHours) == LimitHours(deptCourses, course.code)
    ensures |r.warnings| > |st.warnings| ==> r.warnings[|st.warnings|] == CouldNotSchedule(course.name, section)
    ensures var h := LimitHours(deptCourses, course.code).value;
      Get(st.weekly, (course.code, CounterKey(section))) >= ClassLimits(h).weekly ==> r == st
    ensures var h := LimitHours(deptCourses, course.code).value;
      Get(st.weekly, (course.code, CounterKey(section))) < ClassLimits(h).weekly ==>
        (|r.placements| - |st.placements|) + (|r.warnings| - |st.warnings|) == 1
  {
    var h := LimitHours(deptCourses, course.code).value;
    if Get(st.weekly, (course.code, CounterKey(section))) >= ClassLimits(h).weekly then st
    else
      var res := TrySlots(st, rooms, section, course, h, slots);
      if res.1 then
        TrySlotsLogsOne(st, rooms, section, course, h, slots);
        res.0
      else Warn(st, rooms, CouldNotSchedule(course.name, section))
  }

  /** A logged class comes from the inputs, with the limits of its course code. */
  predicate DrawnFrom(p: Placement, sections: seq<Section>, courses: seq<Course>) {
    && p.section in sections
    && p.course in courses
    && p.course.department == p.section.department
    && LimitHours(DeptCourses(courses, p.section.department), p.course.code) == Some(p.limitHours)
  }

  predicate Drawn(ps: seq<Placement>, sections: seq<Section>, courses: seq<Course>) {
    forall i :: 0 <= i < |ps| ==> DrawnFrom(ps[i], sections, courses)
  }

  lemma DrawnExtend(a: seq<Placement>, b: seq<Placement>, sections: seq<Section>, courses: seq<Course>)
    requires Drawn(a, sections, courses)
    requires |a| <= |b| <= |a| + 1 && b[..|a|] == a
    requires |b| > |a| ==> DrawnFrom(b[|a|], sections, courses)
    ensures Drawn(b, sections, courses)
  {
    forall i | 0 <= i < |a| ensures b[i] == a[i] {
      assert b[i] == b[..|a|][i];
    }
  }

  /** The classes one course and the rest of the course loop add are all
      for `section` and for a course from index `ci` on. */
  lemma AddedFromRemaining(a: seq<Placement>, b: seq<Placement>, c: seq<Placement>, section: Section,
                           deptCourses: seq<Course>, ci: nat)
    requires ci < |deptCourses|
    requires |a| <= |b| <= |a| + 1 && b[..|a|] == a
    requires |b| > |a| ==> b[|a|].section == section && b[|a|].course == deptCourses[ci]
    requires |b| <= |c| && c[..|b|] == b
    requires forall i :: |b| <= i < |c| ==> c[i].section == section && c[i].course in deptCourses[ci + 1..]
    ensures forall i :: |a| <= i < |c| ==> c[i].section == section && c[i].course in deptCourses[ci..]
  {
    assert deptCourses[ci..][0] == deptCourses[ci];
    assert deptCourses[ci + 1..] == deptCourses[ci..][1..];
    if |b| > |a| {
      assert c[|a|] == c[..|b|][|a|];
    }
  }

  /** The course loop of one section, from course index `ci` on. */
  function RunCourses(st: Tracker, rooms: seq<Room>, sections: seq<Section>, si: nat, courses: seq<Course>,
                      ci: nat, order: (nat, nat) -> seq<TimeSlot>): (r: Tracker)
    requires si < |sections|
    requires ci <= |DeptCourses(courses, sections[si].department)|
    requires Valid(st, rooms) && Drawn(st.placements, sections, courses)
    ensures Valid(r, rooms) && Drawn(r.placements, sections, courses)
    ensures |st.placements| <= |r.placements| <= |st.placements| + (|DeptCourses(courses, sections[si].department)| - ci)
    ensures r.placements[..|st.placements|] == st.placements
    ensures |st.warnings| <= |r.warnings| && r.warnings[..|st.warnings|] == st.warnings
    ensures forall i :: |st.placements| <= i < |r.placements| ==>
              r.placements[i].section == sections[si] &&
              r.placements[i].course in DeptCourses(courses, sections[si].department)[ci..]
    decreases |DeptCourses(courses, sections[si].department)| - ci
  {
    var deptCourses := DeptCourses(courses, sections[si].department);
    if ci == |deptCourses| then st
    else
      assert deptCourses[ci] in deptCourses;
      var next := PlaceCourse(st, rooms, sections[si], deptCourses, deptCourses[ci], order(si, ci));
      DrawnExtend(st.placements, next.placements, sections, courses);
      var r := RunCourses(next, rooms, sections, si, courses, ci + 1, order);
      Seqs.PrefixTrans(st.placements, next.placements, r.placements);
      Seqs.PrefixTrans(st.warnings, next.warnings, r.warnings);
      AddedFromRemaining(st.placements, next.placements, r.placements, sections[si], deptCourses, ci);
      r
  }

  /** The section loop, from section index `si` on. */
  function RunSections(st: Tracker, rooms: seq<Room>, sections: seq<Section>, si: nat, courses: seq<Course>,
                       order: (nat, nat) -> seq<TimeSlot>): (r: Tracker)
    requires si <= |sections|
    requires Valid(st, rooms) && Drawn(st.placements, sections, courses)
    ensures Valid(r, rooms) && Drawn(r.placements, sections, courses)
    ensures |st.placements| <= |r.placements| <= |st.placements| + (|sections| - si) * |courses|
    ensures r.placements[..|st.placements|] == st.placements
    decreases |sections| - si
  {
    if si == |sections| then st
    else
      var next := RunCourses(st, rooms, sections, si, courses, 0, order);
      var r := RunSections(next, rooms, sections, si + 1, courses, order);
      assert (|sections| - si) * |courses| == |courses| + (|sections| - (si + 1)) * |courses|;
      Seqs.PrefixTrans(st.placements, next.placements, r.placements);
      r
  }

  /** `generate_schedule` on given sections, courses and rooms. The source
      calls `random.shuffle` on the catalog of slots (`Catalog()`) before each
      course, in place, so every order it tries is a permutation of the
      catalog; `order(si, ci)` stands for the slots in the order they have for
      section `si` and course `ci`. The model accepts any sequence there, so
      what it proves holds for every outcome of the shuffles. */
  function GenerateSchedule(sections: seq<Section>, courses: seq<Course>, rooms: seq<Room>,
                            order: (nat, nat) -> seq<TimeSlot>): (st: Tracker)
    ensures Valid(st, rooms)
    ensures Drawn(st.placements, sections, courses)
    ensures |st.placements| <= |sections| * |courses|
  {
    RunSections(EmptyTracker, rooms, sections, 0, courses, order)
  }

  // ---------------------------------------------------------------------
  // What a finished run guarantees
  // ---------------------------------------------------------------------

  /** No section is given the same course twice. */
  predicate OncePerPair(ps: seq<Placement>) {
    forall i, j :: 0 <= i < j < |ps| ==> ps[i].section != ps[j].section || ps[i].course != ps[j].course
  }

  lemma {:induction false} DeptCoursesDistinct(courses: seq<Course>, dept: string)
    requires Seqs.Distinct(courses)
    ensures Seqs.Distinct(DeptCourses(courses, dept))
  {
    if |courses| > 0 {
      var tail := courses[1..];
      assert Seqs.Distinct(tail) by {
        forall i, j | 0 <= i < j < |tail| ensures tail[i] != tail[j] {
          assert tail[i] == courses[i + 1] && tail[j] == courses[j + 1];
        }
      }
      DeptCoursesDistinct(tail, dept);
      var rest := DeptCourses(tail, dept);
      assert courses[0] !in tail by {
        forall i | 0 <= i < |tail| ensures tail[i] != courses[0] {
          assert tail[i] == courses[i + 1];
        }
      }
      if courses[0].department == dept {
        var d := [courses[0]] + rest;
        forall i, j | 0 <= i < j < |d| ensures d[i] != d[j] {
          assert d[j] == rest[j - 1];
          if i > 0 {
            assert d[i] == rest[i - 1];
          }
        }
      }
    }
  }

  /** One step of the course loop keeps each (section, course) pair at most
      once and uses up course `c` for `section`. */
  lemma OnceStep(ps: seq<Placement>, qs: seq<Placement>, section: Section, c: Course, later: seq<Course>)
    requires OncePerPair(ps)
    requires |ps| <= |qs| <= |ps| + 1 && qs[..|ps|] == ps
    requires |qs| > |ps| ==> qs[|ps|].section == section && qs[|ps|].course == c
    requires forall i :: 0 <= i < |ps| && ps[i].section == section ==> ps[i].course !in [c] + later
    requires c !in later
    ensures OncePerPair(qs)
    ensures forall i :: 0 <= i < |qs| && qs[i].section == section ==> qs[i].course !in later
  {
    forall i | 0 <= i < |ps| ensures qs[i] == ps[i] {
      assert qs[i] == qs[..|ps|][i];
    }
    assert c in [c] + later;
  }

  /** After a section's course loop, no class belongs to a later section. */
  lemma SectionStep(ps: seq<Placement>, qs: seq<Placement>, section: Section, later: seq<Section>)
    requires |ps| <= |qs| && qs[..|ps|] == ps
    requires forall i :: 0 <= i < |ps| ==> ps[i].section !in [section] + later
    requires forall i :: |ps| <= i < |qs| ==> qs[i].section == section
    requires section !in later
    ensures forall i :: 0 <= i < |qs| ==> qs[i].section !in later
  {
    forall i | 0 <= i < |ps| ensures qs[i] == ps[i] {
      assert qs[i] == qs[..|ps|][i];
    }
  }

  lemma {:induction false} RunCoursesOnce(st: Tracker, rooms: seq<Room>, sections: seq<Section>, si: nat,
                                          courses: seq<Course>, ci: nat, order: (nat, nat) -> seq<TimeSlot>)
    requires si < |sections|
    requires ci <= |DeptCourses(courses, sections[si].department)|
    requires Valid(st, rooms) && Drawn(st.placements, sections, courses)
    requires Seqs.Distinct(DeptCourses(courses, sections[si].department))
    requires OncePerPair(st.placements)
    requires forall i :: 0 <= i < |st.placements| && st.placements[i].section == sections[si] ==>
               st.placements[i].course !in DeptCourses(courses, sections[si].department)[ci..]
    ensures OncePerPair(RunCourses(st, rooms, sections, si, courses, ci, order).placements)
    decreases |DeptCourses(courses, sections[si].department)| - ci
  {
    var deptCourses := DeptCourses(courses, sections[si].department);
    if ci < |deptCourses| {
      assert deptCourses[ci] in deptCourses;
      var next := PlaceCourse(st, rooms, sections[si], deptCourses, deptCourses[ci], order(si, ci));
      DrawnExtend(st.placements, next.placements, sections, courses);
      Seqs.DistinctSplit(deptCourses, ci);
      OnceStep(st.placements, next.placements, sections[si], deptCourses[ci], deptCourses[ci + 1..]);
      RunCoursesOnce(next, rooms, sections, si, courses, ci + 1, order);
    }
  }

  lemma {:induction false} RunSectionsOnce(st: Tracker, rooms: seq<Room>, sections: seq<Section>, si: nat,
                                           courses: seq<Course>, order: (nat, nat) -> seq<TimeSlot>)
    requires si <= |sections|
    requires Valid(st, rooms) && Drawn(st.placements, sections, courses)
    requires Seqs.Distinct(sections) && Seqs.Distinct(courses)
    requires OncePerPair(st.placements)
    requires forall i :: 0 <= i < |st.placements| ==> st.placements[i].section !in sections[si..]
    ensures OncePerPair(RunSections(st, rooms, sections, si, courses, order).placements)
    decreases |sections| - si
  {
    if si < |sections| {
      DeptCoursesDistinct(courses, sections[si].department);
      Seqs.DistinctSplit(sections, si);
      RunCoursesOnce(st, rooms, sections, si, courses, 0, order);
      var next := RunCourses(st, rooms, sections, si, courses, 0, order);
      SectionStep(st.placements, next.placements, sections[si], sections[si + 1..]);
      RunSectionsOnce(next, rooms, sections, si + 1, courses, order);
    }
  }

  /** With distinct sections and distinct courses, the course loop gives
      each section at most one class of each course. */
  lemma OncePerSectionAndCourse(sections: seq<Section>, courses: seq<Course>, rooms: seq<Room>,
                                order: (nat, nat) -> seq<TimeSlot>)
    requires Seqs.Distinct(sections) && Seqs.Distinct(courses)
    ensures OncePerPair(GenerateSchedule(sections, courses, rooms, order).placements)
  {
    RunSectionsOnce(EmptyTracker, rooms, sections, 0, courses, order);
  }

  lemma LastDailyCountPositive(ps: seq<Placement>, i: nat)
    requires i < |ps|
    ensures DailyCount(ps[..i + 1], DailyKey(ps[i])) >= 1
  {
    var pre := ps[..i + 1];
    assert pre[..|pre| - 1] == ps[..i];
    assert pre[|pre| - 1] == ps[i];
  }

  /** A finished run never double-books a faculty member, a room or a
      section, puts every class in a declared room of sufficient capacity
      and the right type, and places a class only when the hours its limits
      come from are at least 31 (the smallest total whose rounded daily
      limit is positive). Those are the hours of the last department course
      sharing its code, which need not be the placed course itself. */
  lemma ScheduleIsConflictFree(sections: seq<Section>, courses: seq<Course>, rooms: seq<Room>,
                               order: (nat, nat) -> seq<TimeSlot>)
    ensures var ps := GenerateSchedule(sections, courses, rooms, order).placements;
      && NoFacultyClash(ps) && NoRoomClash(ps) && NoSectionClash(ps)
      && RoomsComply(ps, rooms)
      && (forall i :: 0 <= i < |ps| ==> ps[i].limitHours >= 31)
  {
    var ps := GenerateSchedule(sections, courses, rooms, order).placements;
    forall i | 0 <= i < |ps| ensures ps[i].limitHours >= 31 {
      LastDailyCountPositive(ps, i);
      DailyLimitThreshold(ps[i].limitHours);
    }
  }

  /** When a code names one course per department, the hours the limits come
      from are the placed course's own, so no course under 31 hours is
      placed. A repeated code lets a short course borrow a longer one's
      limits. */
  lemma PlacedCoursesAtLeast31(sections: seq<Section>, courses: seq<Course>, rooms: seq<Room>,
                               order: (nat, nat) -> seq<TimeSlot>)
    requires forall c, d :: c in courses && d in courses && c.department == d.department && c.code == d.code ==> c == d
    ensures var ps := GenerateSchedule(sections, courses, rooms, order).placements;
      forall i :: 0 <= i < |ps| ==> ps[i].course.totalHours >= 31
  {
    var ps := GenerateSchedule(sections, courses, rooms, order).placements;
    ScheduleIsConflictFree(sections, courses, rooms, order);
    forall i | 0 <= i < |ps| ensures ps[i].course.totalHours >= 31 {
      OwnLimitHours(ps[i], sections, courses);
    }
  }

  /** A drawn class whose code names one course in its department takes
      its limits from its own hours. */
  lemma OwnLimitHours(p: Placement, sections: seq<Section>, courses: seq<Course>)
    requires DrawnFrom(p, sections, courses)
    requires forall c, d :: c in courses && d in courses && c.department == d.department && c.code == d.code ==> c == d
    ensures p.limitHours == p.course.totalHours
  {
    var dc := DeptCourses(courses, p.section.department);
    var k :| LastWithCode(dc, p.course.code, k) && p.limitHours == dc[k].totalHours;
    assert dc[k] in dc;
  }

  /** Two courses of one department sharing a code: the short one is placed
      under the long one's limits. */
  lemma BorrowedLimits()
    ensures var short := Course("X", "Short", "CS", 1, 3, false, "F1", 10);
            var long := Course("X", "Long", "CS", 1, 3, false, "F2", 40);
            && LimitHours([short, long], "X") == Some(40)
            && ClassLimits(40).daily >= 1 && ClassLimits(short.totalHours).daily == 0
  {
    var short := Course("X", "Short", "CS", 1, 3, false, "F1", 10);
    var long := Course("X", "Long", "CS", 1, 3, false, "F2", 40);
    assert [short, long][..1] == [short];
  }
}
