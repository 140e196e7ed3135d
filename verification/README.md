# Timetable allocation in ClassEdgee, modelled in Dafny

ClassEdgee is a college management system. At its centre is a greedy
timetable allocator, which exists in three revisions.

- **Greedy allocator** (`main-backend/src/controllers/schedule/your_scheduler.py`).
  It walks sections and then courses. Each course is placed in the first slot
  that passes all of these checks:
  - the course is under its daily limit on that day;
  - the faculty member is free;
  - a room is free, large enough and of the right type;
  - the section does not already hold that slot.

  Weekly and daily limits come from Python's round-half-even of the course's
  hours. The allocator also converts section keys to JSON strings and restores
  them from JSON.
- **Slot-scan allocator** (`python-backend/app/schedule/scheduler.py`).
  It repeats each course up to its weekly count. Each time it takes the first
  day-1-to-5 slot and first room that are free. Its results are persisted by
  `schedule.controller2.js`, which turns each weekday into four weekly
  dates.
- **Per-section allocator** (`main-backend/src/controllers/schedule.controller.js`).
  It plans `ceil(hours / (4 · duration))` classes a week per subject. It
  fills one section at a time, with trackers that start empty for every
  section.

Around these the model covers:
- the time-slot API's checks;
- the quiz and quiz-submission validators;
- the attendance summary;
- the push-message queues (`postmaster.js`) and the service worker's key decoding;
- the spreadsheet import helpers (`main.py`, `studentRouter.py`);
- the keyword chatbot;
- the schedule set-up form;
- the resource allocation page.

Each source file is one module. Python and JavaScript built-ins get small
shared modules:
- `Text`: `split`, `join`, `strip`, `trim`, `toLowerCase`, `includes`, `int()`, `parseInt`;
- `Seqs`: sequences;
- `Dicts`: insertion-ordered dictionaries, as association lists;
- `Rounding`: `round()` and `Math.ceil` of a quotient;
- `TimeSlots`: slots and their `"day time"` names.

Randomness (`random.shuffle`, `uuid4`), the clock (`new Date()`) and the
database are parameters of the model, not part of it.

## Model

| member | source | states |
|---|---|---|
| GreedyScheduler.CatalogNamesDistinct | main-backend/src/controllers/schedule/your_scheduler.py:45-47 | The five days times seven times give 35 slots whose `"day time"` names are pairwise distinct. |
| GreedyScheduler.ClassLimits | main-backend/src/controllers/schedule/your_scheduler.py:99-104 | The weekly limit is `round(hours / 12)`. The daily limit is `round(weekly / 5)`. Both use Python's round-half-even. |
| GreedyScheduler.WeeklyTieOnlyAtSix | main-backend/src/controllers/schedule/your_scheduler.py:102 | Rounding `hours / 12` meets a tie exactly when `hours % 12 == 6`. |
| GreedyScheduler.DailyLimitThreshold | main-backend/src/controllers/schedule/your_scheduler.py:99-104 | The daily limit is at least 1 iff the weekly limit is at least 3. That holds iff hours ≥ 31. The weekly limit is at least 1 iff hours ≥ 7. |
| GreedyScheduler.DeptCourses | main-backend/src/controllers/schedule/your_scheduler.py:119 | The result holds exactly the courses of the section's department. |
| GreedyScheduler.DeptCoursesAppend | main-backend/src/controllers/schedule/your_scheduler.py:119 | The filter keeps the courses' order: filtering a concatenation gives the filtered parts, concatenated. |
| GreedyScheduler.LimitHours | main-backend/src/controllers/schedule/your_scheduler.py:122-125 | A code has limits iff some department course carries it. The limits come from the hours of the last department course with that code, as the dictionary comprehension overwrites earlier entries. |
| GreedyScheduler.FirstRoom | main-backend/src/controllers/schedule/your_scheduler.py:149-156 | Returns the first room that is free in the slot, large enough and of the right type. Returns none iff no room qualifies. |
| GreedyScheduler.Commit | main-backend/src/controllers/schedule/your_scheduler.py:160-172 | Writes the section's cell for the slot and marks the faculty member and the room busy. Records the placement. Nothing else changes. |
| GreedyScheduler.CommitKeepsCounters | main-backend/src/controllers/schedule/your_scheduler.py:170-172 | After a commit, the weekly and daily counters still equal the number of placements for each key. |
| GreedyScheduler.CommitClashFree | main-backend/src/controllers/schedule/your_scheduler.py:139-168 | A slot that passes the checks keeps every faculty member, room and section to one class per slot. Every room used still fits its class. |
| GreedyScheduler.CommitWithinLimits | main-backend/src/controllers/schedule/your_scheduler.py:136-142 | Committing below both limits keeps every course within its weekly and daily limits. |
| GreedyScheduler.TrySlots | main-backend/src/controllers/schedule/your_scheduler.py:139-175 | Succeeds iff some slot in the order has an acceptable room. It then commits the class at the first slot in the order where the loop body finds a room, in the room the first-fit room search returns; every earlier slot fails the body. On failure the state is unchanged. |
| GreedyScheduler.SlotRoom | main-backend/src/controllers/schedule/your_scheduler.py:141-156 | Returns a room iff the slot passes the daily, faculty, room and section checks with it. |
| GreedyScheduler.RunCourses | main-backend/src/controllers/schedule/your_scheduler.py:128-178 | The course loop of one section keeps the invariant and earlier classes and warnings, adds at most one class per remaining course, and every class it adds is for this section and one of the remaining department courses. |
| GreedyScheduler.PlaceCourse | main-backend/src/controllers/schedule/your_scheduler.py:128-178 | One course adds at most one class or one warning. It adds nothing once its weekly limit is reached. Below the weekly limit it adds exactly one of the two. A new class is for this section and course, in a listed slot. A warning names the course and section. |
| GreedyScheduler.RunSections | main-backend/src/controllers/schedule/your_scheduler.py:117-178 | Sections are processed in order and earlier classes are kept. The invariant holds, every class comes from the given sections and courses with its course's limits, and at most `|courses|` classes are added per remaining section. |
| GreedyScheduler.GenerateSchedule | main-backend/src/controllers/schedule/your_scheduler.py:106-180 | The result satisfies every invariant: counters match, cells and busy sets agree with the classes, no clash, limits respected. Every class comes from the given sections and courses, and there are at most `|sections|·|courses|` classes. |
| GreedyScheduler.OncePerSectionAndCourse | main-backend/src/controllers/schedule/your_scheduler.py:128-178 | With distinct sections and distinct courses, no section is given two classes of the same course: the slot loop stops at the first placed class, and each section meets each of its courses once. |
| GreedyScheduler.ScheduleIsConflictFree | main-backend/src/controllers/schedule/your_scheduler.py:106-180 | No faculty member, room or section has two classes in one slot. Every room fits its class. A class is placed only when the hours its limits come from are at least 31. Those are the hours of the last department course sharing its code. |
| GreedyScheduler.PlacedCoursesAtLeast31 | main-backend/src/controllers/schedule/your_scheduler.py:122-141 | When a code names one course per department, every placed course has at least 31 hours of its own. |
| GreedyScheduler.BorrowedLimits | main-backend/src/controllers/schedule/your_scheduler.py:122-125 | With two department courses sharing a code, the 10-hour one gets the 40-hour one's limits, whose daily limit is positive, while its own would be 0. |
| GreedyJson.ParseKey | main-backend/src/controllers/schedule/your_scheduler.py:212-213 | A key that does not split into exactly three parts is an error. The batch of a parsed key is `int()` of the middle part. |
| GreedyJson.RestoreSucceeds | main-backend/src/controllers/schedule/your_scheduler.py:206-216 | Restoring succeeds iff every stored key parses. |
| GreedyJson.ParseJsonKey | main-backend/src/controllers/schedule/your_scheduler.py:201 | A key whose department and section contain no `_` parses back from its JSON string. |
| GreedyJson.JsonKeyInjective | main-backend/src/controllers/schedule/your_scheduler.py:201 | For such keys, equal JSON strings mean equal keys. |
| GreedyJson.SeparatorCollision | main-backend/src/controllers/schedule/your_scheduler.py:201 | A `_` inside a department or section name makes two keys render alike. |
| GreedyJson.ConvertIsMap | main-backend/src/controllers/schedule/your_scheduler.py:195-204 | For distinct `_`-free keys, conversion renames every key in place and keeps order and values. |
| GreedyJson.RebuildEntries | main-backend/src/controllers/schedule/your_scheduler.py:208-216 | Re-inserting a dictionary's keys with its values rebuilds that dictionary. |
| GreedyJson.JsonRoundTrip | main-backend/src/controllers/schedule/your_scheduler.py:195-216 | Restoring a converted schedule gives the original schedule back. |
| SlotScanScheduler.ResolveFaculty | python-backend/app/schedule/scheduler.py:67-75 | Uses the first preferred faculty member, else the department's first. Returns none iff both lists are empty. |
| SlotScanScheduler.DepartmentCourses | python-backend/app/schedule/scheduler.py:66-86 | Every course is in the department and built from a subject with its resolved faculty. With any faculty member, no subject is dropped. |
| SlotScanScheduler.DroppedSubjects | python-backend/app/schedule/scheduler.py:66-86 | No subject is skipped iff the department has faculty or every subject names a preferred faculty member. |
| SlotScanScheduler.ProcessInput | python-backend/app/schedule/scheduler.py:55-86 | Every course belongs to one of the listed departments. |
| SlotScanScheduler.WeeklyClasses | python-backend/app/schedule/scheduler.py:144-146 | At least one class a week. Above one, the count is `round(hours / 16)` with round-half-even. |
| SlotScanScheduler.WeeklyClassesFloor | python-backend/app/schedule/scheduler.py:144-146 | A single weekly class is planned exactly when hours < 24. |
| SlotScanScheduler.FirstRoom | python-backend/app/schedule/scheduler.py:159-168 | Returns a listed room that is available in the slot. Returns none iff no room is. |
| SlotScanScheduler.FirstRoomIsFirst | python-backend/app/schedule/scheduler.py:162-168 | The room found is the first available one in list order. |
| SlotScanScheduler.ScanSlots | python-backend/app/schedule/scheduler.py:155-170 | Returns a slot and room from the lists that are available together. Returns none iff no pair is. |
| SlotScanScheduler.ScanSlotsIsFirst | python-backend/app/schedule/scheduler.py:155-168 | The slot found is the first with any available room, and its room is that slot's first. |
| SlotScanScheduler.FindAvailableSlot | python-backend/app/schedule/scheduler.py:148-170 | A result is a day 1 to 5 and a listed time, with a listed room, that the faculty member and the room are free for. |
| SlotScanScheduler.SearchFails | python-backend/app/schedule/scheduler.py:148-170 | The search fails iff no weekday, time and room are available together. An empty time list always fails. |
| SlotScanScheduler.SearchIsFirstFit | python-backend/app/schedule/scheduler.py:155-168 | The result is the first available slot in day-then-time order, with that slot's first available room. |
| SlotScanScheduler.Blocked | python-backend/app/schedule/scheduler.py:115-120 | The slots a search must avoid include the faculty member's. With the section guard they also include the section's own. |
| SlotScanScheduler.Commit | python-backend/app/schedule/scheduler.py:125-139 | Writes the cell under the section key and adds the slot to the faculty member's and the room's busy sets. Nothing else changes. |
| SlotScanScheduler.CommitClashFree | python-backend/app/schedule/scheduler.py:138-139 | A slot free for the faculty member and the room keeps both to one class per slot. |
| SlotScanScheduler.CommitGuarded | python-backend/app/schedule/scheduler.py:128 | Writing into a slot the section does not hold keeps one class per section and slot. Every written cell survives. |
| SlotScanScheduler.CommitValid | python-backend/app/schedule/scheduler.py:115-140 | A commit of a found slot keeps every invariant of the run. |
| SlotScanScheduler.RepeatCourse | python-backend/app/schedule/scheduler.py:110-140 | A course adds at most its remaining weekly count of classes, all for that course and section. Earlier classes are kept. |
| SlotScanScheduler.RepeatCourseStopsShort | python-backend/app/schedule/scheduler.py:114-123 | When the loop ends with fewer classes than the weekly count, the slot search fails on the state it leaves behind. |
| SlotScanScheduler.RepeatCourseReplays | python-backend/app/schedule/scheduler.py:114-140 | Each added class is the search's answer on the state the classes before it left, and the result is the start state with those classes written in order. |
| SlotScanScheduler.CommitLogged | python-backend/app/schedule/scheduler.py:128-140 | After a write, every logged class's slot is filled in its section, and every filled cell is the cell of the last class logged there. |
| SlotScanScheduler.RepeatCourseValid | python-backend/app/schedule/scheduler.py:114-140 | Repeating a course keeps the invariant. |
| SlotScanScheduler.CoursesIn | python-backend/app/schedule/scheduler.py:106 | Exactly the department's courses. |
| SlotScanScheduler.RunDepartmentsValid | python-backend/app/schedule/scheduler.py:101-140 | All departments and sections together keep the invariant. |
| SlotScanScheduler.GenerateSchedule | python-backend/app/schedule/scheduler.py:93-142 | The result keeps the invariant: no faculty or room clash, rooms of the right type, slots on weekdays. The returned timetable holds exactly what the log wrote: every logged class's slot is filled in its section, and every filled cell is the cell of the last class logged there. With the section guard on there is also no section clash and no logged cell is lost. With no courses or no rooms it is empty. |
| SlotScanScheduler.ClassesOf | python-backend/app/schedule/scheduler.py:117 | Exactly the classes taught by one faculty member. |
| SlotScanScheduler.FacultySlotsDistinct | python-backend/app/schedule/scheduler.py:138 | Without faculty clashes, one faculty member's classes sit in distinct slots. |
| SlotScanScheduler.FacultyLoadBound | python-backend/app/schedule/scheduler.py:152-160 | No faculty member teaches more than five times the number of times of day. |
| SlotScanScheduler.GeneratedLoadBound | python-backend/app/schedule/scheduler.py:93-160 | A generated schedule respects that load bound. |
| SlotScanOverwrite.FirstSlotWins | python-backend/app/schedule/scheduler.py:155-168 | When a room is available at day 1's first time, the search returns that slot and the first such room. |
| SlotScanOverwrite.UnguardedOverwrite | python-backend/app/schedule/scheduler.py:128 | Two courses of one section committed to the same slot break one class per slot and lose the first cell. |
| SlotScanOverwrite.UnguardedRun | python-backend/app/schedule/scheduler.py:93-142 | For a two-course, two-room input the allocator writes both courses into one slot of one section. |
| SlotScanOverwrite.GuardedSecondClass | python-backend/app/schedule/scheduler.py:148-170 | With the section guard, the second course of that input gets a different slot. |
| ScheduleTransport.JsRem | main-backend/src/controllers/schedule/schedule.controller2.js:226 | JavaScript `%` truncates: a result with the sign of the dividend, of smaller size than the divisor. |
| ScheduleTransport.IsoDay | main-backend/src/controllers/schedule/schedule.controller2.js:225 | `getDay() \|\| 7` lies in 1 to 7 and agrees with the weekday modulo 7. |
| ScheduleTransport.FirstOccurrence | main-backend/src/controllers/schedule/schedule.controller2.js:223-229 | For a non-negative offset the date is within the next six days and on the target weekday. The start itself is kept when it is already on that weekday. |
| ScheduleTransport.FirstOccurrenceIsFirst | main-backend/src/controllers/schedule/schedule.controller2.js:223-229 | For a target of 1 to 7, the date has that ISO weekday and no earlier date since the start has it. |
| ScheduleTransport.WeeklyDates | main-backend/src/controllers/schedule/schedule.controller2.js:232-243 | Four dates a week apart, starting at the first occurrence. |
| ScheduleTransport.WeeklyDatesSameDay | main-backend/src/controllers/schedule/schedule.controller2.js:232-243 | All four dates fall on the target weekday. |
| ScheduleTransport.DashKeyRoundTrip | main-backend/src/controllers/schedule/schedule.controller2.js:257-264 | Splitting the `day-time` key of a slot name on `-` gives the day and the time back. |
| ScheduleTransport.DashKeyInjective | main-backend/src/controllers/schedule/schedule.controller2.js:257-258 | Distinct plain slots get distinct `day-time` keys. |
| ScheduleTransport.SplitSectionKeyInverts | main-backend/src/controllers/schedule/schedule.controller2.js:282 | Splitting a section key on `_` gives back its department, batch and section. |
| ScheduleTransport.SectionKeyNumbers | main-backend/src/controllers/schedule/schedule.controller2.js:282-305 | `parseInt` of the batch and section parts of a generated key gives the numbers back. |
| ScheduleTransport.RowsFor | main-backend/src/controllers/schedule/schedule.controller2.js:327-335 | Each kept entry gives four rows carrying its cell and slot id, dated on the four weekly dates of its day. |
| ScheduleTransport.SectionClasses | main-backend/src/controllers/schedule/schedule.controller2.js:323-335 | Four rows per entry whose slot is known. Entries without a slot id are skipped. Every row carries a known, non-zero slot id. |
| ScheduleTransport.EntryRows | main-backend/src/controllers/schedule/schedule.controller2.js:323-335 | An entry without a slot id gives no rows. Otherwise it gives the four `RowsFor` rows of its cell and slot id, dated by its day. |
| ScheduleTransport.SectionClassesBlock | main-backend/src/controllers/schedule/schedule.controller2.js:323-335 | The `j`-th entry, if it has a slot id, owns rows `4k` to `4k+3`, where `k` counts the kept entries before it. Those rows are its cell, its slot id and the four weekly dates of its day. |
| ScheduleTransport.KeptStep | main-backend/src/controllers/schedule/schedule.controller2.js:323-335 | An entry with a slot id adds one to the count of kept entries, so the next block starts four rows later. An entry without one adds none. So the blocks tile the rows in entry order. |
| ScheduleTransport.SlotEntryDates | main-backend/src/controllers/schedule/schedule.controller2.js:327-335 | A slot named with day `n` yields four classes on ISO weekday `n`. |
| SectionScheduler.CeilQuotient | main-backend/src/controllers/schedule.controller.js:63 | `Math.ceil(a / b)`: the least integer not below the quotient. When `b` is 0 the result is +∞, −∞ or NaN by the sign of `a`. |
| SectionScheduler.PlanOf | main-backend/src/controllers/schedule.controller.js:57-73 | Hours and classes are the sum of the unit hours. The weekly target is their ceiling over four weeks per duration. With duration 0 there is no finite target. |
| SectionScheduler.WeeklyWithinHours | main-backend/src/controllers/schedule.controller.js:62-63 | With positive hours and duration, the weekly target lies between 1 and the total number of classes. |
| SectionScheduler.Scan | main-backend/src/controllers/schedule.controller.js:160-162 | The scan visits every (day 1 to 5, slot) key, day by day. |
| SectionScheduler.FirstFree | main-backend/src/controllers/schedule.controller.js:168-179 | Returns the first listed id not busy at the key. Returns none iff all are busy. |
| SectionScheduler.FindAvailableSlot | main-backend/src/controllers/schedule.controller.js:152-195 | An assignment is on a weekday and a listed slot the section has not taken. Its faculty member is one of the subject's, its room is listed, and both are free. |
| SectionScheduler.SearchFails | main-backend/src/controllers/schedule.controller.js:152-195 | The search fails iff no weekday slot is open. It always fails with no faculty member or no room. |
| SectionScheduler.SearchIsFirstFit | main-backend/src/controllers/schedule.controller.js:160-190 | The assignment is at the first open key in scan order. |
| SectionScheduler.SearchTakesFirst | main-backend/src/controllers/schedule.controller.js:168-179 | Within one section the first faculty member and the first room are always chosen. The trackers only mark taken slots. |
| SectionScheduler.SearchFailsFresh | main-backend/src/controllers/schedule.controller.js:152-195 | Within one section the search fails iff there is no faculty member, no room, or every weekday slot is taken. |
| SectionScheduler.RepeatPlan | main-backend/src/controllers/schedule.controller.js:114-143 | A subject adds at most its remaining weekly target of classes. Earlier classes are kept. |
| SectionScheduler.RepeatPlanStopsShort | main-backend/src/controllers/schedule.controller.js:118-142 | A subject stops short of its target only when no slot is open. |
| SectionScheduler.RunPlansInv | main-backend/src/controllers/schedule.controller.js:114-144 | All subjects together keep the section's slots distinct and placed. Each class comes from a plan. |
| SectionScheduler.GenerateSchedule | main-backend/src/controllers/schedule.controller.js:76-85 | One result per section, in order, carrying the section's id. |
| SectionScheduler.SectionScheduleSound | main-backend/src/controllers/schedule.controller.js:104-150 | A section's classes sit in distinct weekday slots, use listed slots and rooms, and come from the plans. There are at most `5 · slots` of them. |
| SectionScheduler.SectionsAlike | main-backend/src/controllers/schedule.controller.js:76-85 | Every section gets the same list of classes, because each starts from empty trackers. |
| SectionScheduler.SectionsCollide | main-backend/src/controllers/schedule.controller.js:104-112 | Any two sections get the same first class, with the same faculty member and room. |
| TimeSlotApi.Pad2 | main-backend/src/controllers/timeslot.controller.js:180 | Two digits whose value is the number. |
| TimeSlotApi.ClockIsValid | main-backend/src/controllers/timeslot.controller.js:6-9 | Every time of day written `HH:MM:SS` passes the format check. |
| TimeSlotApi.ValidIsClock | main-backend/src/controllers/timeslot.controller.js:6-9 | Every string that passes the check is such a time, with hours below 24 and minutes and seconds below 60. |
| TimeSlotApi.ValidTimePieces | main-backend/src/controllers/timeslot.controller.js:17-18 | A valid time splits on `:` into its three fields. |
| TimeSlotApi.TimeOfDay | main-backend/src/controllers/timeslot.controller.js:17-22 | A valid time is a second of the day, from 0 to 86399. |
| TimeSlotApi.TimeOfDayRoundTrip | main-backend/src/controllers/timeslot.controller.js:17-22 | Formatting the second of the day gives the time string back. |
| TimeSlotApi.TimeOfDayOrder | main-backend/src/controllers/timeslot.controller.js:17-22 | Two valid times map to the same second iff they are equal. |
| TimeSlotApi.CreateTimeSlot | main-backend/src/controllers/timeslot.controller.js:40-74 | Missing fields are reported iff a time is falsy or the day is absent. An accepted slot has a day of 1 to 6 and a start before its end. The slot type defaults to `regular`. |
| TimeSlotApi.CreateAcceptsIff | main-backend/src/controllers/timeslot.controller.js:40-74 | A slot is accepted iff both times are valid, the day is an integer from 1 to 6, and the start is before the end. The stored times format back to the request. |
| TimeSlotApi.FormatStored | main-backend/src/controllers/timeslot.controller.js:180-181 | Formatting yields a value iff the ISO string has a `T`. |
| TimeSlotApi.FormatStoredRoundTrip | main-backend/src/controllers/timeslot.controller.js:180-181 | A stored time read back through the ISO string is the time that was stored. |
| TimeSlotApi.DayParam | main-backend/src/controllers/timeslot.controller.js:208 | A day is accepted iff it is non-empty text whose `parseInt` is a number from 0 to 6. The day queried is that number. |
| TimeSlotApi.DayParamNumerals | main-backend/src/controllers/timeslot.controller.js:208 | A numeral is accepted iff it is at most 6, even when followed by other text. |
| QuizValidation.BlankCheck | main-backend/src/middlewares/validateQuiz.js:5 | A value is accepted iff it is non-blank text. A truthy non-string is the TypeError of `.trim()`. |
| QuizValidation.ValidateQuiz | main-backend/src/middlewares/validateQuiz.js:5-10 | The title is reported iff it is falsy or blank text. |
| QuizValidation.CheckQuestionsFirstFailure | main-backend/src/middlewares/validateQuiz.js:19-42 | The questions pass iff each has non-blank text, exactly four options and a numeric answer from 0 to 3. Otherwise the error is that of the first bad question. |
| QuizValidation.ValidateQuizNextIff | main-backend/src/middlewares/validateQuiz.js:2-45 | A quiz passes iff it has a non-blank title and a non-empty array of good questions. |
| QuizValidation.ValidateQuizSubmission | main-backend/src/middlewares/validateQuizSubmission.js:4-9 | Responses are reported missing iff they are not a non-empty array. |
| QuizValidation.CheckResponsesFirstFailure | main-backend/src/middlewares/validateQuizSubmission.js:11-27 | Responses pass iff each has a non-zero integer question id and a numeric option from 0 to 3. Otherwise the error is that of the first bad response. |
| QuizValidation.ValidateSubmissionNextIff | main-backend/src/middlewares/validateQuizSubmission.js:1-30 | A submission passes iff its responses are a non-empty array of good responses. |
| QuizValidation.SubmissionEdges | main-backend/src/middlewares/validateQuizSubmission.js:12-21 | Question id 0 is rejected as falsy. A fractional option within 0 to 3 is accepted. |
| AttendanceHistory.UniqueDates | main-backend/src/controllers/attendance.controller.js:77 | The distinct dates, exactly those of the records. |
| AttendanceHistory.UniqueDatesFirstSeen | main-backend/src/controllers/attendance.controller.js:77 | The dates come in order of first appearance: a date listed before another occurs in the history before every record of that other date. |
| AttendanceHistory.TotalClasses | main-backend/src/controllers/attendance.controller.js:78 | At most the number of records, and zero only without records. |
| AttendanceHistory.GroupSpec | main-backend/src/controllers/attendance.controller.js:81-118 | A student is listed iff they have records. Their entry lists their records in order and counts them present or absent, with present plus absent equal to the number of records. The total is the number of class days. Each detailed record keeps the full timestamp, not just the day. |
| AttendanceHistory.StudentsAreLinked | main-backend/src/controllers/attendance.controller.js:82-85 | A student is listed iff some record links to them. |
| AttendanceHistory.ByDate | main-backend/src/controllers/attendance.controller.js:127-138 | One count per date: records present that day and records that day, the first never above the second. |
| AttendanceHistory.SumTotalsByDate | main-backend/src/controllers/attendance.controller.js:127-138 | The per-date totals add up to the records on those dates. |
| AttendanceHistory.ByDateAccountsForAll | main-backend/src/controllers/attendance.controller.js:77-78 | There are as many per-date counts as class days, and every record is counted once. |
| Postmaster.Clamp | main-backend/src/utils/postmaster.js:39 | The clamped priority lies in 0 to 2 and keeps one already there. NaN stays NaN. |
| Postmaster.Post | main-backend/src/utils/postmaster.js:12-53 | A falsy list is the first error. An incomplete request reports the first missing field in source order: title, then message for a notification; data, updateId, then updateName for an update. Priority 2 or more is sent at once, priority 0 or 1 joins the end of its queue, and any other priority fails on a missing queue. |
| Postmaster.PostReportsFirstMissing | main-backend/src/utils/postmaster.js:35-44 | A request is complete iff every field checked for its kind is truthy. An incomplete one is refused with the error of the first falsy field in checking order, every earlier field being truthy. |
| Postmaster.DrainTail | main-backend/src/utils/postmaster.js:65-86 | Pops up to the limit from the tail, most recent first. The rest is the untouched front of the queue. |
| Postmaster.Drain | main-backend/src/utils/postmaster.js:65-86 | Drains one priority's notifications, then its updates. The other priority is untouched. |
| Postmaster.ExecuteLowPriority | main-backend/src/utils/postmaster.js:65-87 | Sends at most 10 notifications and 10 updates of priority 0, from the tail. Priority 1 is untouched. |
| Postmaster.ExecuteMediumPriority | main-backend/src/utils/postmaster.js:89-111 | Sends at most 21 notifications and 21 updates of priority 1, from the tail. Priority 0 is untouched. |
| PushKey.UrlBase64ToBytes | frontend/sw.js:9-23 | Decoding only succeeds for text whose length is not one more than a multiple of four. |
| PushKey.PaddedThreeFails | frontend/sw.js:10-15 | Such text gets three `=` and `atob` rejects it. |
| PushKey.DecodeRejectsEquals | frontend/sw.js:15 | Text still ending in `=` after padding is stripped does not decode. |
| PushKey.EncodeUrl | frontend/sw.js:9-23 | Unpadded URL-safe base64 has no `=`, never has a length one more than a multiple of four, and has four characters per three bytes. |
| PushKey.GroupRoundTrip | frontend/sw.js:11-15 | Each encoded group decodes to its bytes after the alphabet mapping. |
| PushKey.DecodeEncode | frontend/sw.js:11-15 | The standard decoder inverts the URL-safe encoder once characters are mapped. |
| PushKey.PadThenStrip | frontend/sw.js:10-15 | The `=` added for padding are exactly those `atob` strips. |
| PushKey.UrlBase64RoundTrip | frontend/sw.js:9-23 | Decoding an encoded key gives back its bytes. |
| StudentImport.ParseName | python-backend/app/main.py:73-94 | Blank text has no name. Otherwise there is a last name iff there are two or more words, and a middle name iff there are three or more. |
| StudentImport.ParseNamePieces | python-backend/app/main.py:73-94 | The first, middle and last names, split again, are the words of the input. |
| StudentImport.FirstHeader | python-backend/app/main.py:98-101 | The first column whose lower-cased, stripped header equals the lower-cased candidate. |
| StudentImport.FindMatchingColumn | python-backend/app/main.py:96-102 | None iff no candidate matches a header. A match is an actual column name. |
| StudentImport.FindMatchingColumnFirst | python-backend/app/main.py:99-101 | The match is the first column for the first candidate that matches. |
| StudentImport.MapColumns | python-backend/app/main.py:104-113 | Every mapped field is a listed field, mapped to a non-empty actual column. |
| StudentImport.MapColumnsSpec | python-backend/app/main.py:108-111 | A field is mapped iff its candidates match. It is then mapped to that match. |
| StudentImport.ValidateStudentData | python-backend/app/main.py:115-129 | Accepts iff every required field is present and truthy and the email contains `@`. A missing field is the first missing one in the listed order. |
| StudentRows.Cut | python-backend/app/student/studentRouter.py:38 | Slicing `s[:n]` gives the prefix of length `min(\|s\|, n)`. |
| StudentRows.CutOrNone | python-backend/app/student/studentRouter.py:51-54 | None iff the cell is empty. Otherwise a prefix of the cell's text within the limit. |
| StudentRows.UsersTable | python-backend/app/student/studentRouter.py:26-64 | Every text column is the longest prefix of the cell's text that fits its width. The phone is none iff the cell is empty. The role is `student` and the uuid is the one given. |
| StudentRows.StudentsTable | python-backend/app/student/studentRouter.py:67-101 | Succeeds iff the department is empty or an integer, and the batch year and semester are integers. Then it passes the user id and the enrollment text through and converts each column as the source does. |
| StudentRows.StudentsTableNumerals | python-backend/app/student/studentRouter.py:81-87 | Numbers stored as text convert back to themselves. |
| Chatbot.FirstFiring | frontend/src/components/Chatbot.tsx:66-70 | Returns the index of the first rule with a keyword inside the message, or the number of rules. |
| Chatbot.GenerateResponse | frontend/src/components/Chatbot.tsx:64-72 | The fallback iff no rule fires on the lower-cased message. Otherwise the reply of the first rule that fires. |
| Chatbot.ResponseIgnoresCase | frontend/src/components/Chatbot.tsx:65 | A message and its lower-cased form get the same reply. |
| Chatbot.SubstringMatches | frontend/src/components/Chatbot.tsx:67 | A keyword inside a longer word fires: "this" gets the greeting. |
| Chatbot.SendMessage | frontend/src/components/Chatbot.tsx:51-62 | A blank input changes nothing. Otherwise the message and then its reply are appended and the input is cleared. |
| Chatbot.SendKeepsDialogue | frontend/src/components/Chatbot.tsx:51-62 | A send keeps the conversation alternating user and bot, never rewrites it, and records no blank message. |
| InitialForm.ValidateForm | frontend/src/components/schedule/InitialForm.tsx:79-102 | Each field is reported, with its own message, exactly when its check fails. The form is valid iff no field fails. |
| InitialForm.RequiredReported | frontend/src/components/schedule/InitialForm.tsx:82-83 | The department and the section are reported iff empty. |
| InitialForm.YearsReported | frontend/src/components/schedule/InitialForm.tsx:84-90 | A year is reported iff it is empty or outside 2000 to 2100. |
| InitialForm.CountsReported | frontend/src/components/schedule/InitialForm.tsx:92-98 | The semester is reported iff it is empty or outside 1 to 8. The weeks are reported iff empty or outside 1 to 52. |
| InitialForm.HandleSubmit | frontend/src/components/schedule/InitialForm.tsx:104-121 | Submits iff the form is valid and the user id is truthy. The user id and the section number are passed on. |
| InitialForm.SubmittedInRange | frontend/src/components/schedule/InitialForm.tsx:104-121 | A submitted form has every field filled. Each number is in its range or NaN. |
| InitialForm.NaNPasses | frontend/src/components/schedule/InitialForm.tsx:84-98 | Filled-in text that is no number passes every range check. |
| ResourceManagement.Allocate | frontend/src/pages/Protected/coordinator/resource/ResourceManagement.tsx:46-76 | Without an item or a location nothing happens. An unknown item is the TypeError. Too few available leaves the page alone. Otherwise exactly `amount` moves from available to allocated for that item only, a record is put in front of the history, the form resets, and a balanced page stays balanced. |
| ResourceManagement.AllocateAccounts | frontend/src/pages/Protected/coordinator/resource/ResourceManagement.tsx:52-69 | The growth of each item's allocated count equals the amounts the new history records add. |
| ResourceManagement.Decrement | frontend/src/pages/Protected/coordinator/resource/ResourceManagement.tsx:127 | The minus button never goes below 1 and otherwise lowers the amount by one. |
| ResourceManagement.Typed | frontend/src/pages/Protected/coordinator/resource/ResourceManagement.tsx:137 | A typed amount is at least 1. A positive parsed number is kept. Text that is no number gives 1, and so does a parsed number below 1. |
| ResourceManagement.TypedNumeral | frontend/src/pages/Protected/coordinator/resource/ResourceManagement.tsx:137 | Typing a positive count shows that count. |
| ResourceManagement.RunKeepsGood | frontend/src/pages/Protected/coordinator/resource/ResourceManagement.tsx:25-141 | Any run of page events from a good state keeps every item balanced and the amount at least 1. |

## Left out

- Database access (Prisma, psycopg2), HTTP responses, JSON file loading and spreadsheet reading are left out. Their inputs become parameters and their failures become `Result` or `Option` values.
- The random parts are parameters:
  - `random.shuffle` of the slot list in the greedy allocator, as an order function;
  - `generate_sample_data`, as the sections, courses and rooms passed in;
  - `uuid4`, as a given string.
- The clock is a parameter: `new Date()` and `toLocaleString()`. Dates are day numbers from the Unix epoch, in UTC. Time zones and `Date` overflow are not modelled.
- Web-push sending and the `setInterval` timers that call the drains are left out. A drain returns what it would send.
- Averages and percentages of the attendance summary (`averageAttendance`) are left out, because they are floating-point arithmetic.
- Floating-point numbers are not modelled. JavaScript numbers are finite reals or NaN, and only comparisons are taken.
- `Number()` of a form field is given with the field rather than computed. This is because the JavaScript number grammar is not modelled.
- `toLowerCase` and `lower()` change only ASCII letters. Whitespace is an explicit list of characters rather than the full Unicode sets.
- `parseInt` reads decimal digits only. The `0x` prefix is not modelled.
- `atob` does not skip whitespace inside its input.
- pandas column names are strings. Non-string headers and NaN cells other than empty cells are not modelled.
- The face-recognition and LLM chatbot endpoints of the Python backend are not part of this model. They are outside the allocator core.
- `print_schedule`, `save_schedule` and the module-level driver code of the allocators are left out, because they are output only.
- StudentImport.MapColumnsSpec: assumes the field names of the column table are distinct, as the dictionary literal guarantees.
- GreedyJson.ConvertForJson: states only `|r| <= |schedule|` for arbitrary keys. The full statement, a key renaming that keeps order and values, is GreedyJson.ConvertIsMap for distinct `_`-free keys. Colliding keys are shown by GreedyJson.SeparatorCollision.
- GreedyScheduler.RunSections: does not state how many warnings are added. GreedyScheduler.PlaceCourse states it per course.
- SlotScanScheduler.FindAvailableSlot: its own contract does not state first-fit order. That is SlotScanScheduler.SearchIsFirstFit.
- Postmaster.ExecuteLowPriority: states the notification queue exactly but bounds the updates sent only by count. Postmaster.Drain states both queues.
- Postmaster.ExecuteMediumPriority: likewise, with Postmaster.Drain giving the exact update queue.
- StudentRows.StudentsTable: Python's `int()` is modelled by Text.PyParseInt. It reads ASCII decimal digits with an optional sign and surrounding whitespace. Underscores between digits and non-ASCII decimal digits, which `int()` accepts, make the model report an error.
- A section's timetable in the slot-scan allocator is a map from slot names to cells. The insertion order of the Python dictionary is not kept, and the JSON output and the `Object.entries` loop that stores classes both follow that order. So the model does not fix the order in which a section's classes are created.
- ResourceManagement.Increment: states only that the amount grows.
- PushKey.UrlBase64ToBytes: its own contract states only the length condition. The bytes it decodes to are stated by PushKey.UrlBase64RoundTrip.

## Findings

| source | as written | input that shows it | evidently intended | confidence | as-written member | corrected member |
|---|---|---|---|---|---|---|
| python-backend/app/schedule/scheduler.py:148-170 | `find_available_slot` receives `section_id` but never checks the section's own timetable, so line 128 can overwrite a cell the section already holds | one department "CS" with a section, two courses taught by different faculty members, two classrooms, one time: both courses get day "1" at that time, and the second cell replaces the first | a section is never given a slot it already holds | not executed | SlotScanOverwrite.UnguardedRun | SlotScanScheduler.GenerateSchedule |

In the model, `SlotScanScheduler.GenerateSchedule` takes a flag, `guardSection`.
- With the flag off, the search behaves as the source is written. `SlotScanOverwrite.UnguardedRun` exhibits the overwrite for the input above.
- With the flag on, the search also skips the section's taken slots. `GenerateSchedule`'s contract then proves that every section holds at most one class per slot and that no written cell is lost (`SlotScanOverwrite.GuardedRunKeepsSections`). `SlotScanOverwrite.GuardedSecondClass` shows the second course moving to another slot.
