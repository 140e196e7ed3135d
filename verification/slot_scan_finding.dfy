/** The section overwrite in the slot-scan allocator.  Its search never
    looks at the section's own timetable, so a second course of the same
    section, taught by someone else, is given the slot the first course
    already holds whenever another room of the right type is free then;
    writing it replaces the first course's cell.  With `guardSection` the
    search skips the section's taken slots and no cell is lost. */
module SlotScanOverwrite {
  import opened Wrappers
  import opened TimeSlots
  import opened SlotScanScheduler
  import Rounding

  /** The scan starts at day "1", first time: if some room is available
      there, the search returns that slot with the first such room. */
  lemma FirstSlotWins(times: seq<string>, rooms: seq<Room>, requiresLab: bool, blocked: set<string>,
                      roomBusy: map<string, set<string>>, j: nat)
    requires |times| > 0 && j < |rooms|
    requires Available(TimeSlot("1", times[0]), rooms[j], requiresLab, blocked, roomBusy)
    requires forall j' :: 0 <= j' < j ==> !Available(TimeSlot("1", times[0]), rooms[j'], requiresLab, blocked, roomBusy)
    ensures FindAvailableSlot(times, rooms, requiresLab, blocked, roomBusy) == Some((TimeSlot("1", times[0]), rooms[j]))
  {
    var t0 := TimeSlot("1", times[0]);
    SearchFails(times, rooms, requiresLab, blocked, roomBusy);
    ProductSplit(Weekdays, times);
    var k, j1 := SearchIsFirstFit(times, rooms, requiresLab, blocked, roomBusy);
  }

  const Sd := SectionData("2024", "A", "2024-25")
  const Key := SectionKey("CS", Sd)
  const R1 := Room("R1", "Room 1", 60, "classroom")
  const R2 := Room("R2", "Room 2", 60, "classroom")
  const Algebra := Course("MA1", "Algebra", "CS", 1, 3, false, "F1", 16, "c1")
  const Physics := Course("PH1", "Physics", "CS", 1, 3, false, "F2", 16, "c2")
  const AlgebraSubject := Subject("MA1", "Algebra", 1, 3, false, ["F1"], 16, "c1")
  const PhysicsSubject := Subject("PH1", "Physics", 1, 3, false, ["F2"], 16, "c2")
  const CS := Department([], [AlgebraSubject, PhysicsSubject], [("A", Sd)])
  /** One department, one section, two courses, two classrooms, one time. */
  const Demo := Input([R1, R2], [("CS", CS)], ["9:00"])
  const T0 := TimeSlot("1", "9:00")

  const PA := Placement(Key, Algebra, T0, R1, CellFor(Algebra, R1, Sd))
  const PB := Placement(Key, Physics, T0, R2, CellFor(Physics, R2, Sd))

  /** Algebra, the section's first course, takes ("1", "9:00") in R1. */
  lemma FirstClass()
    ensures NextClass(Start, Demo, Algebra, Key, Sd, false) == Some(PA)
  {
    assert Blocked(Start, Algebra, Key, false) == {};
    FirstSlotWins(Demo.times, Demo.rooms, false, {}, map[], 0);
  }

  /** As written, Physics is then given the same slot in R2. */
  lemma SecondClassSameSlot()
    ensures NextClass(Commit(Start, PA), Demo, Physics, Key, Sd, false) == Some(PB)
  {
    var first := Commit(Start, PA);
    assert Busy(first.roomBusy, "R1") == {SlotName(T0)};
    assert Busy(first.roomBusy, "R2") == {};
    assert Blocked(first, Physics, Key, false) == {};
    FirstSlotWins(Demo.times, Demo.rooms, false, {}, first.roomBusy, 1);
  }

  /** Writing it double-books the section and replaces Algebra's cell. */
  lemma UnguardedOverwrite()
    ensures var second := Commit(Commit(Start, PA), PB);
      !NoSectionClash(second.placements) && !CellsKept(second)
  {
    var second := Commit(Commit(Start, PA), PB);
    assert second.placements == [PA, PB];
    assert second.placements[0].key == second.placements[1].key;
    assert SlotName(second.placements[0].slot) == SlotName(second.placements[1].slot);
    assert SectionSlots(second.schedule, Key)[SlotName(T0)] == PB.cell;
    assert PB.cell.course[0] != PA.cell.course[0];
  }

  /** The two steps above are what the course loop of the section does:
      sixteen hours make one class a week for each course. */
  lemma UnguardedCourseLoop()
    ensures RunCourses(Start, Demo, [Algebra, Physics], Key, Sd, false) == Commit(Commit(Start, PA), PB)
  {
    Rounding.RoundHalfEvenUnique(16, 16, Rounding.RoundHalfEven(16, 16), 1);
    assert WeeklyClasses(16) == 1;
    FirstClass();
    var first := Commit(Start, PA);
    assert RepeatCourse(Start, Demo, Algebra, Key, Sd, 0, 1, false) == RepeatCourse(first, Demo, Algebra, Key, Sd, 1, 1, false);
    SecondClassSameSlot();
    var second := Commit(first, PB);
    assert RepeatCourse(first, Demo, Physics, Key, Sd, 0, 1, false) == RepeatCourse(second, Demo, Physics, Key, Sd, 1, 1, false);
    assert [Algebra, Physics][1..] == [Physics];
    assert RunCourses(first, Demo, [Physics], Key, Sd, false) == RunCourses(second, Demo, [], Key, Sd, false);
  }

  /** Both subjects name a preferred teacher, so both become courses of CS. */
  lemma DemoCourses()
    ensures ProcessInput(Demo.departments) == [Algebra, Physics]
    ensures CoursesIn([Algebra, Physics], "CS") == [Algebra, Physics]
  {
    assert DepartmentCourses("CS", [], CS.subjects) == [Algebra, Physics];
    assert Demo.departments[..0] == [];
    assert ProcessInput(Demo.departments) == ProcessInput([]) + DepartmentCourses("CS", [], CS.subjects);
    assert [Algebra, Physics][1..] == [Physics];
    assert CoursesIn([Physics], "CS") == [Physics];
  }

  /** The whole run, as written, ends with the section double-booked and
      Algebra's class gone from its timetable. */
  lemma UnguardedRun()
    ensures GenerateSchedule(Demo, false) == Commit(Commit(Start, PA), PB)
    ensures !NoSectionClash(GenerateSchedule(Demo, false).placements) && !CellsKept(GenerateSchedule(Demo, false))
  {
    DemoCourses();
    UnguardedCourseLoop();
    UnguardedOverwrite();
    var end := Commit(Commit(Start, PA), PB);
    assert RunSections(Start, Demo, [Algebra, Physics], "CS", CS.sections, false) == RunSections(end, Demo, [Algebra, Physics], "CS", [], false);
    assert RunDepartments(Start, Demo, [Algebra, Physics], Demo.departments, false) == RunDepartments(end, Demo, [Algebra, Physics], [], false);
  }

  /** Guarded, the same second search skips the section's taken slot. */
  lemma GuardedSecondClass()
    ensures var found := NextClass(Commit(Start, PA), Demo, Physics, Key, Sd, true);
      found.Some? && found.value.slot != T0
  {
    var first := Commit(Start, PA);
    var blocked := Blocked(first, Physics, Key, true);
    assert SlotName(T0) in blocked;
    var t1 := TimeSlot("2", "9:00");
    assert Busy(first.facultyBusy, "F2") == {};
    assert SectionSlots(first.schedule, Key).Keys == {SlotName(T0)};
    assert SlotName(t1)[0] != SlotName(T0)[0];
    assert SlotName(t1) !in blocked;
    SearchFails(Demo.times, Demo.rooms, false, blocked, first.roomBusy);
    assert Available(t1, Demo.rooms[0], false, blocked, first.roomBusy);
  }

  /** Guarded, every run keeps one class per section and slot, and every
      class written stays in its section's timetable. */
  lemma GuardedRunKeepsSections(input: Input)
    ensures NoSectionClash(GenerateSchedule(input, true).placements)
    ensures CellsKept(GenerateSchedule(input, true))
  {
  }
}
