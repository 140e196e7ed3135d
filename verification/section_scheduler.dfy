/** The third allocator revision (`schedule.controller.js`): each subject of
    the syllabus asks for `Math.ceil(hours / (duration * 4))` classes a week,
    and each section is filled on its own, with trackers created afresh for
    it, by scanning days 1..5 and the time slots in order for a slot the
    section has not used yet, then the first mapped faculty member and the
    first room that are not busy in that slot. */
module SectionScheduler {
  import opened Wrappers
  import Seqs
  import Rounding

  // ---------------------------------------------------------------------
  // Demand
  // ---------------------------------------------------------------------

  /** The JavaScript numbers `Math.ceil(a / b)` yields on integers. */
  datatype Target = Finite(n: int) | PosInfinity | NegInfinity | NotANumber

  /** `Math.ceil(a / b)`: a quotient rounded up, or an infinity or NaN when
      the divisor is zero. */
  function CeilQuotient(a: int, b: int): (t: Target)
    ensures b != 0 <==> t.Finite?
    ensures b > 0 && t.Finite? ==> b * (t.n - 1) < a <= b * t.n
    ensures b < 0 && t.Finite? ==> b * t.n <= a < b * (t.n - 1)
    ensures b == 0 ==> (t == PosInfinity <==> a > 0) && (t == NegInfinity <==> a < 0) && (t == NotANumber <==> a == 0)
  {
    if b != 0 then Finite(Rounding.CeilDiv(a, b))
    else if a > 0 then PosInfinity
    else if a < 0 then NegInfinity
    else NotANumber
  }

  /** `count < target` with JavaScript's comparison: NaN and negative
      infinity are never above a count, positive infinity always is. */
  predicate Below(count: int, t: Target) {
    match t
    case Finite(n) => count < n
    case PosInfinity => true
    case _ => false
  }

  /** A subject with the hours of its units and its faculty mappings (ids). */
  datatype Subject = Subject(subjectId: int, name: string, unitHours: seq<int>, facultyIds: seq<int>)

  /** One entry of `schedulingData`. */
  datatype Plan = Plan(subjectId: int, name: string, totalHours: int, totalClasses: int, weekly: Target,
                       facultyIds: seq<int>)

  /** Step 3 of `generateSchedule`: one class per required hour, spread over
      `duration * 4` weeks and rounded up. */
  function PlanOf(s: Subject, duration: int): (p: Plan)
    ensures p.subjectId == s.subjectId && p.facultyIds == s.facultyIds
    ensures p.totalClasses == p.totalHours == Seqs.Sum(s.unitHours)
    ensures duration > 0 ==> p.weekly.Finite? && 4 * duration * (p.weekly.n - 1) < p.totalClasses <= 4 * duration * p.weekly.n
    ensures duration == 0 ==> !p.weekly.Finite?
  {
    var hours := Seqs.Sum(s.unitHours);
    var classes := Rounding.CeilDiv(hours, 1);
    Plan(s.subjectId, s.name, hours, classes, CeilQuotient(classes, duration * 4), s.facultyIds)
  }

  function Plans(subjects: seq<Subject>, duration: int): (ps: seq<Plan>)
    ensures |ps| == |subjects|
    ensures forall i :: 0 <= i < |ps| ==> ps[i] == PlanOf(subjects[i], duration)
  {
    if |subjects| == 0 then [] else [PlanOf(subjects[0], duration)] + Plans(subjects[1..], duration)
  }

  /** With positive duration every subject with work asks for at least one
      class a week, and for no more classes a week than it has hours. */
  lemma WeeklyWithinHours(s: Subject, duration: int)
    requires duration > 0 && Seqs.Sum(s.unitHours) > 0
    ensures var p := PlanOf(s, duration); 1 <= p.weekly.n <= p.totalClasses
  {
    var p := PlanOf(s, duration);
    var w := p.weekly.n;
    if w < 1 {
      Rounding.MulMonotone(4 * duration, 0, w);
    }
    if w > p.totalClasses {
      Rounding.MulMonotone(4 * duration, w - 1, p.totalClasses);
      Rounding.MulMonotone(p.totalClasses, 4 * duration, 1);
    }
  }

  // ---------------------------------------------------------------------
  // Slot search
  // ---------------------------------------------------------------------

  /** A `${day}_${slot_id}` key.  Ids are integers, so the string renders
      of two different pairs differ, and the pair stands for the string;
      the faculty and room keys append `_${id}` the same way. */
  datatype Key = Key(day: int, slotId: int)

  datatype Assignment = Assignment(day: int, slotId: int, subjectId: int, facultyId: int, roomId: int)

  function KeyOf(a: Assignment): Key {
    Key(a.day, a.slotId)
  }

  /** The three `Map`s of `generateSectionSchedule`; a key maps to `true`
      exactly when it is in the set. */
  datatype Tracker = Tracker(taken: set<Key>, facultyBusy: set<(Key, int)>, roomBusy: set<(Key, int)>)

  const Fresh := Tracker({}, {}, {})

  /** The slot keys of one day, in time-slot order. */
  function DayKeys(day: int, slotIds: seq<int>): (ks: seq<Key>)
    ensures |ks| == |slotIds|
    ensures forall i :: 0 <= i < |slotIds| ==> ks[i] == Key(day, slotIds[i])
  {
    if |slotIds| == 0 then [] else [Key(day, slotIds[0])] + DayKeys(day, slotIds[1..])
  }

  /** The scan order of `findAvailableSlot`: days `from`..5, each over all slots. */
  function ScanFrom(from: nat, slotIds: seq<int>): (ks: seq<Key>)
    requires 1 <= from <= 6
    ensures |ks| == (6 - from) * |slotIds|
    ensures forall k: Key :: k in ks <==> from <= k.day <= 5 && k.slotId in slotIds
    decreases 6 - from
  {
    if from == 6 then []
    else
      var rest := ScanFrom(from + 1, slotIds);
      var row := DayKeys(from, slotIds);
      assert forall k :: k in row <==> k.day == from && k.slotId in slotIds by {
        forall k | k in row ensures k.day == from && k.slotId in slotIds {
          var i :| 0 <= i < |row| && row[i] == k;
        }
        forall k: Key | k.day == from && k.slotId in slotIds ensures k in row {
          var i :| 0 <= i < |slotIds| && slotIds[i] == k.slotId;
          assert row[i] == k;
        }
      }
      row + rest
  }

  function Scan(slotIds: seq<int>): (ks: seq<Key>)
    ensures |ks| == 5 * |slotIds|
    ensures forall k: Key :: k in ks <==> 1 <= k.day <= 5 && k.slotId in slotIds
  {
    ScanFrom(1, slotIds)
  }

  /** `ids.find(id => !busy.get(`${key}_${id}`))`. */
  function FirstFree(ids: seq<int>, k: Key, busy: set<(Key, int)>): (r: Option<int>)
    ensures r.None? <==> forall i :: 0 <= i < |ids| ==> (k, ids[i]) in busy
    ensures r.Some? ==> r.value in ids && (k, r.value) !in busy
    ensures r.Some? ==> exists i :: 0 <= i < |ids| && ids[i] == r.value && (k, r.value) !in busy &&
                          forall i' :: 0 <= i' < i ==> (k, ids[i']) in busy
  {
    if |ids| == 0 then None
    else if (k, ids[0]) !in busy then Some(ids[0])
    else
      var r := FirstFree(ids[1..], k, busy);
      assert forall i :: 1 <= i < |ids| ==> ids[i] == ids[1..][i - 1];
      if r.Some? then
        var i :| 0 <= i < |ids| - 1 && ids[1..][i] == r.value && (k, r.value) !in busy &&
                 forall i' :: 0 <= i' < i ==> (k, ids[1..][i']) in busy;
        assert ids[i + 1] == r.value;
        r
      else r
  }

  /** A slot key the search accepts for a plan: unused by the section, with
      a free mapped faculty member and a free room. */
  predicate Open(k: Key, p: Plan, rooms: seq<int>, tr: Tracker) {
    && k !in tr.taken
    && FirstFree(p.facultyIds, k, tr.facultyBusy).Some?
    && FirstFree(rooms, k, tr.roomBusy).Some?
  }

  /** The assignment made at an open key. */
  function AssignAt(k: Key, p: Plan, rooms: seq<int>, tr: Tracker): Assignment
    requires Open(k, p, rooms, tr)
  {
    Assignment(k.day, k.slotId, p.subjectId, FirstFree(p.facultyIds, k, tr.facultyBusy).value,
               FirstFree(rooms, k, tr.roomBusy).value)
  }

  /** The loops of `findAvailableSlot` over a scan order: the index of the
      first open key, or `|ks|` when there is none. */
  function FirstOpen(ks: seq<Key>, p: Plan, rooms: seq<int>, tr: Tracker): (i: nat)
    ensures i <= |ks|
    ensures i < |ks| ==> Open(ks[i], p, rooms, tr)
    ensures forall j :: 0 <= j < i ==> !Open(ks[j], p, rooms, tr)
  {
    if |ks| == 0 then 0
    else if Open(ks[0], p, rooms, tr) then 0
    else
      var i := FirstOpen(ks[1..], p, rooms, tr);
      assert forall j :: 1 <= j < |ks| ==> ks[j] == ks[1..][j - 1];
      1 + i
  }

  /** `findAvailableSlot`: the first open key of the scan, with the first
      free mapped faculty member and the first free room there. */
  function FindAvailableSlot(p: Plan, slotIds: seq<int>, rooms: seq<int>, tr: Tracker): (r: Option<Assignment>)
    ensures r.Some? ==> 1 <= r.value.day <= 5 && r.value.slotId in slotIds && KeyOf(r.value) !in tr.taken
    ensures r.Some? ==> r.value.subjectId == p.subjectId && r.value.facultyId in p.facultyIds && r.value.roomId in rooms
    ensures r.Some? ==> (KeyOf(r.value), r.value.facultyId) !in tr.facultyBusy && (KeyOf(r.value), r.value.roomId) !in tr.roomBusy
  {
    var ks := Scan(slotIds);
    var i := FirstOpen(ks, p, rooms, tr);
    if i < |ks| then
      assert ks[i] in ks;
      Some(AssignAt(ks[i], p, rooms, tr))
    else None
  }

  /** The search fails exactly when no key of the scan is open; in
      particular it always fails without mappings or without rooms. */
  lemma SearchFails(p: Plan, slotIds: seq<int>, rooms: seq<int>, tr: Tracker)
    ensures FindAvailableSlot(p, slotIds, rooms, tr).None? <==>
              forall k: Key :: 1 <= k.day <= 5 && k.slotId in slotIds ==> !Open(k, p, rooms, tr)
    ensures |p.facultyIds| == 0 || |rooms| == 0 ==> FindAvailableSlot(p, slotIds, rooms, tr).None?
  {
    var ks := Scan(slotIds);
    var i := FirstOpen(ks, p, rooms, tr);
    if i == |ks| {
      forall k: Key | 1 <= k.day <= 5 && k.slotId in slotIds ensures !Open(k, p, rooms, tr) {
        var j :| 0 <= j < |ks| && ks[j] == k;
      }
    } else {
      assert ks[i] in ks;
    }
  }

  /** The search returns the first open key of the day-major scan. */
  lemma SearchIsFirstFit(p: Plan, slotIds: seq<int>, rooms: seq<int>, tr: Tracker) returns (i: nat)
    requires FindAvailableSlot(p, slotIds, rooms, tr).Some?
    ensures i < |Scan(slotIds)| && Open(Scan(slotIds)[i], p, rooms, tr)
    ensures FindAvailableSlot(p, slotIds, rooms, tr).value == AssignAt(Scan(slotIds)[i], p, rooms, tr)
    ensures forall i' :: 0 <= i' < i ==> !Open(Scan(slotIds)[i'], p, rooms, tr)
  {
    i := FirstOpen(Scan(slotIds), p, rooms, tr);
  }

  // ---------------------------------------------------------------------
  // One section
  // ---------------------------------------------------------------------

  /** Marking an assignment in the three trackers. */
  function Record(tr: Tracker, a: Assignment): Tracker {
    var k := KeyOf(a);
    Tracker(tr.taken + {k}, tr.facultyBusy + {(k, a.facultyId)}, tr.roomBusy + {(k, a.roomId)})
  }

  /** The trackers and the `schedule` array of one `generateSectionSchedule` call. */
  datatype Run = Run(tr: Tracker, schedule: seq<Assignment>)

  /** The keys of the scan, as a set. */
  function ScanSet(slotIds: seq<int>): set<Key> {
    set d, s | 1 <= d <= 5 && s in slotIds :: Key(d, s)
  }

  /** Taking a fresh key of the scan shrinks what is left of it. */
  lemma TakeOne(slotIds: seq<int>, taken: set<Key>, k: Key)
    requires 1 <= k.day <= 5 && k.slotId in slotIds && k !in taken
    ensures |ScanSet(slotIds) - (taken + {k})| < |ScanSet(slotIds) - taken|
  {
    var all := ScanSet(slotIds);
    assert k in all;
    assert all - (taken + {k}) == (all - taken) - {k};
  }

  /** The `while (classesScheduled < weeklyTarget)` loop for one subject.
      It adds at most the remaining target, stops at the first failed
      search, and, when it stops short of the target, no key is open. */
  function RepeatPlan(run: Run, p: Plan, slotIds: seq<int>, rooms: seq<int>, count: nat): (r: Run)
    ensures Seqs.IsPrefix(run.schedule, r.schedule)
    ensures p.weekly.Finite? ==> |r.schedule| - |run.schedule| <= if count < p.weekly.n then p.weekly.n - count else 0
    decreases |ScanSet(slotIds) - run.tr.taken|
  {
    if !Below(count, p.weekly) then run
    else match FindAvailableSlot(p, slotIds, rooms, run.tr)
      case None => run
      case Some(a) =>
        TakeOne(slotIds, run.tr.taken, KeyOf(a));
        var next := Run(Record(run.tr, a), run.schedule + [a]);
        var r := RepeatPlan(next, p, slotIds, rooms, count + 1);
        Seqs.PrefixTrans(run.schedule, next.schedule, r.schedule);
        r
  }

  /** The `for (const subject of schedulingData)` loop. */
  function RunPlans(run: Run, plans: seq<Plan>, slotIds: seq<int>, rooms: seq<int>): (r: Run)
    ensures Seqs.IsPrefix(run.schedule, r.schedule)
    decreases |plans|
  {
    if |plans| == 0 then run
    else
      var next := RepeatPlan(run, plans[0], slotIds, rooms, 0);
      var r := RunPlans(next, plans[1..], slotIds, rooms);
      Seqs.PrefixTrans(run.schedule, next.schedule, r.schedule);
      r
  }

  // ---------------------------------------------------------------------
  // What one section's run keeps
  // ---------------------------------------------------------------------

  /** Every faculty and room mark sits on a key the section has taken: the
      trackers are fresh per section and marked together. */
  predicate BusyWithinTaken(tr: Tracker) {
    && (forall e :: e in tr.facultyBusy ==> e.0 in tr.taken)
    && (forall e :: e in tr.roomBusy ==> e.0 in tr.taken)
  }

  /** With such trackers the faculty and room lookups never skip anyone: a
      found class goes to the first mapped faculty member and the first room. */
  lemma SearchTakesFirst(p: Plan, slotIds: seq<int>, rooms: seq<int>, tr: Tracker)
    requires BusyWithinTaken(tr)
    requires FindAvailableSlot(p, slotIds, rooms, tr).Some?
    ensures FindAvailableSlot(p, slotIds, rooms, tr).value.facultyId == p.facultyIds[0]
    ensures FindAvailableSlot(p, slotIds, rooms, tr).value.roomId == rooms[0]
  {
    var i := SearchIsFirstFit(p, slotIds, rooms, tr);
    var k := Scan(slotIds)[i];
    assert (k, p.facultyIds[0]) !in tr.facultyBusy;
    assert (k, rooms[0]) !in tr.roomBusy;
  }

  /** With such trackers the search fails exactly when the subject has no
      faculty mapping, there is no room, or the section has used every key. */
  lemma SearchFailsFresh(p: Plan, slotIds: seq<int>, rooms: seq<int>, tr: Tracker)
    requires BusyWithinTaken(tr)
    ensures FindAvailableSlot(p, slotIds, rooms, tr).None? <==>
              |p.facultyIds| == 0 || |rooms| == 0 || ScanSet(slotIds) <= tr.taken
  {
    SearchFails(p, slotIds, rooms, tr);
    if |p.facultyIds| > 0 && |rooms| > 0 {
      if FindAvailableSlot(p, slotIds, rooms, tr).None? {
        forall k | k in ScanSet(slotIds) ensures k in tr.taken {
          assert (k, p.facultyIds[0]) in tr.facultyBusy || (k, rooms[0]) in tr.roomBusy || k in tr.taken;
        }
      } else {
        var a := FindAvailableSlot(p, slotIds, rooms, tr).value;
        assert KeyOf(a) in ScanSet(slotIds);
      }
    }
  }

  /** The slot keys of a schedule, in order. */
  function KeysOf(sched: seq<Assignment>): (ks: seq<Key>)
    ensures |ks| == |sched|
    ensures forall i :: 0 <= i < |sched| ==> ks[i] == KeyOf(sched[i])
  {
    if |sched| == 0 then [] else KeysOf(sched[..|sched| - 1]) + [KeyOf(sched[|sched| - 1])]
  }

  /** An entry placed by the search: a scanned day and slot, and a listed room. */
  predicate Placed(a: Assignment, slotIds: seq<int>, rooms: seq<int>) {
    1 <= a.day <= 5 && a.slotId in slotIds && a.roomId in rooms
  }

  /** What a section's run keeps after every step. */
  predicate SectionInv(run: Run, slotIds: seq<int>, rooms: seq<int>) {
    && BusyWithinTaken(run.tr)
    && Seqs.Distinct(KeysOf(run.schedule))
    && (forall i :: 0 <= i < |run.schedule| ==> KeyOf(run.schedule[i]) in run.tr.taken)
    && (forall i :: 0 <= i < |run.schedule| ==> Placed(run.schedule[i], slotIds, rooms))
  }

  lemma KeysAppend(sched: seq<Assignment>, a: Assignment)
    ensures KeysOf(sched + [a]) == KeysOf(sched) + [KeyOf(a)]
  {
    assert (sched + [a])[..|sched|] == sched;
  }

  lemma StepInv(run: Run, slotIds: seq<int>, rooms: seq<int>, a: Assignment)
    requires SectionInv(run, slotIds, rooms)
    requires Placed(a, slotIds, rooms) && KeyOf(a) !in run.tr.taken
    ensures SectionInv(Run(Record(run.tr, a), run.schedule + [a]), slotIds, rooms)
  {
    var k := KeyOf(a);
    var sched := run.schedule + [a];
    var tr := Record(run.tr, a);
    assert BusyWithinTaken(tr);
    assert forall i :: 0 <= i < |sched| ==> KeyOf(sched[i]) in tr.taken && Placed(sched[i], slotIds, rooms) by {
      forall i | 0 <= i < |sched| ensures KeyOf(sched[i]) in tr.taken && Placed(sched[i], slotIds, rooms) {
        if i < |run.schedule| {
          assert sched[i] == run.schedule[i];
        }
      }
    }
    var old_ks := KeysOf(run.schedule);
    KeysAppend(run.schedule, a);
    var ks := old_ks + [k];
    assert k !in old_ks by {
      forall i | 0 <= i < |old_ks| ensures old_ks[i] != k {
        assert old_ks[i] == KeyOf(run.schedule[i]);
      }
    }
    assert Seqs.Distinct(ks) by {
      forall i, j | 0 <= i < j < |ks| ensures ks[i] != ks[j] {
        if j < |old_ks| {
          assert ks[i] == old_ks[i] && ks[j] == old_ks[j];
        } else {
          assert ks[i] == old_ks[i];
        }
      }
    }
  }

  /** The loop for one subject keeps the section's invariant. */
  lemma {:induction false} RepeatPlanInv(run: Run, p: Plan, slotIds: seq<int>, rooms: seq<int>, count: nat)
    requires SectionInv(run, slotIds, rooms)
    ensures SectionInv(RepeatPlan(run, p, slotIds, rooms, count), slotIds, rooms)
    decreases |ScanSet(slotIds) - run.tr.taken|
  {
    if Below(count, p.weekly) {
      match FindAvailableSlot(p, slotIds, rooms, run.tr)
      case None =>
      case Some(a) =>
        TakeOne(slotIds, run.tr.taken, KeyOf(a));
        StepInv(run, slotIds, rooms, a);
        var next := Run(Record(run.tr, a), run.schedule + [a]);
        assert RepeatPlan(run, p, slotIds, rooms, count) == RepeatPlan(next, p, slotIds, rooms, count + 1);
        RepeatPlanInv(next, p, slotIds, rooms, count + 1);
    }
  }

  /** An entry for `p` with its first mapped faculty member, in the first room. */
  predicate TaggedFor(a: Assignment, p: Plan, rooms: seq<int>) {
    a.subjectId == p.subjectId && |p.facultyIds| > 0 && a.facultyId == p.facultyIds[0] &&
    |rooms| > 0 && a.roomId == rooms[0]
  }

  /** Every entry from index `from` on is tagged for `p`. */
  predicate TaggedFrom(sched: seq<Assignment>, from: nat, p: Plan, rooms: seq<int>) {
    forall i :: from <= i < |sched| ==> TaggedFor(sched[i], p, rooms)
  }

  lemma ExtendTaggedFor(s: seq<Assignment>, a: Assignment, t: seq<Assignment>, p: Plan, rooms: seq<int>)
    requires Seqs.IsPrefix(s + [a], t) && TaggedFor(a, p, rooms) && TaggedFrom(t, |s| + 1, p, rooms)
    ensures TaggedFrom(t, |s|, p, rooms)
  {
    assert t[|s|] == (s + [a])[|s|];
  }

  /** Every entry `p`'s loop adds is for `p`, with its first mapped faculty
      member, in the first room. */
  lemma {:induction false} RepeatPlanTagged(run: Run, p: Plan, slotIds: seq<int>, rooms: seq<int>, count: nat)
    requires SectionInv(run, slotIds, rooms)
    ensures TaggedFrom(RepeatPlan(run, p, slotIds, rooms, count).schedule, |run.schedule|, p, rooms)
    decreases |ScanSet(slotIds) - run.tr.taken|
  {
    if Below(count, p.weekly) {
      var found := FindAvailableSlot(p, slotIds, rooms, run.tr);
      if found.Some? {
        var a := found.value;
        TakeOne(slotIds, run.tr.taken, KeyOf(a));
        SearchTakesFirst(p, slotIds, rooms, run.tr);
        StepInv(run, slotIds, rooms, a);
        var next := Run(Record(run.tr, a), run.schedule + [a]);
        var r := RepeatPlan(next, p, slotIds, rooms, count + 1);
        assert RepeatPlan(run, p, slotIds, rooms, count) == r;
        RepeatPlanTagged(next, p, slotIds, rooms, count + 1);
        ExtendTaggedFor(run.schedule, a, r.schedule, p, rooms);
      }
    }
  }

  /** When the loop for `p`, started from `run` with `count` classes, ends
      below its weekly target at `r`, the search for `p` fails on the
      trackers it leaves behind. */
  predicate StoppedShort(run: Run, r: Run, p: Plan, slotIds: seq<int>, rooms: seq<int>, count: nat) {
    Below(count + |r.schedule| - |run.schedule|, p.weekly) ==> FindAvailableSlot(p, slotIds, rooms, r.tr).None?
  }

  lemma {:induction false} RepeatPlanStopsShort(run: Run, p: Plan, slotIds: seq<int>, rooms: seq<int>, count: nat)
    ensures StoppedShort(run, RepeatPlan(run, p, slotIds, rooms, count), p, slotIds, rooms, count)
    decreases |ScanSet(slotIds) - run.tr.taken|
  {
    var found := FindAvailableSlot(p, slotIds, rooms, run.tr);
    if Below(count, p.weekly) && found.Some? {
      var a := found.value;
      TakeOne(slotIds, run.tr.taken, KeyOf(a));
      var next := Run(Record(run.tr, a), run.schedule + [a]);
      var r := RepeatPlan(next, p, slotIds, rooms, count + 1);
      assert RepeatPlan(run, p, slotIds, rooms, count) == r;
      RepeatPlanStopsShort(next, p, slotIds, rooms, count + 1);
      assert count + 1 + |r.schedule| - |next.schedule| == count + |r.schedule| - |run.schedule|;
    } else {
      assert RepeatPlan(run, p, slotIds, rooms, count) == run;
    }
  }

  /** Every entry from index `from` on belongs to one of `plans`, with that
      subject's first mapped faculty member, in the first room. */
  predicate FromPlans(sched: seq<Assignment>, from: nat, plans: seq<Plan>, rooms: seq<int>) {
    forall i :: from <= i < |sched| ==> exists q :: q in plans && TaggedFor(sched[i], q, rooms)
  }

  lemma {:induction false} RunPlansInv(run: Run, plans: seq<Plan>, slotIds: seq<int>, rooms: seq<int>)
    requires SectionInv(run, slotIds, rooms)
    ensures SectionInv(RunPlans(run, plans, slotIds, rooms), slotIds, rooms)
    ensures FromPlans(RunPlans(run, plans, slotIds, rooms).schedule, |run.schedule|, plans, rooms)
    decreases |plans|
  {
    if |plans| > 0 {
      var next := RepeatPlan(run, plans[0], slotIds, rooms, 0);
      RepeatPlanInv(run, plans[0], slotIds, rooms, 0);
      RepeatPlanTagged(run, plans[0], slotIds, rooms, 0);
      var r := RunPlans(next, plans[1..], slotIds, rooms);
      assert RunPlans(run, plans, slotIds, rooms) == r;
      RunPlansInv(next, plans[1..], slotIds, rooms);
      forall i | |run.schedule| <= i < |r.schedule| ensures exists q :: q in plans && TaggedFor(r.schedule[i], q, rooms) {
        if i < |next.schedule| {
          assert r.schedule[i] == next.schedule[i];
          assert TaggedFor(r.schedule[i], plans[0], rooms);
        } else {
          var q :| q in plans[1..] && TaggedFor(r.schedule[i], q, rooms);
          assert q in plans;
        }
      }
    }
  }

  datatype SectionResult = SectionResult(sectionId: int, schedule: seq<Assignment>)

  /** `generateSectionSchedule`: the trackers start empty for every section. */
  function GenerateSectionSchedule(sectionId: int, plans: seq<Plan>, slotIds: seq<int>, rooms: seq<int>): (r: SectionResult)
    ensures r.sectionId == sectionId
  {
    SectionResult(sectionId, RunPlans(Run(Fresh, []), plans, slotIds, rooms).schedule)
  }

  /** Steps 3 and 4 of `generateSchedule`: one result per section, in order. */
  function GenerateSchedule(sectionIds: seq<int>, subjects: seq<Subject>, duration: int,
                            slotIds: seq<int>, rooms: seq<int>): (rs: seq<SectionResult>)
    ensures |rs| == |sectionIds|
    ensures forall i :: 0 <= i < |rs| ==> rs[i].sectionId == sectionIds[i]
  {
    if |sectionIds| == 0 then []
    else [GenerateSectionSchedule(sectionIds[0], Plans(subjects, duration), slotIds, rooms)] +
         GenerateSchedule(sectionIds[1..], subjects, duration, slotIds, rooms)
  }

  /** What one section's schedule guarantees: no (day, slot) is used twice,
      every entry lies in the scanned week with a listed room, belongs to one
      of the subjects with its first mapped faculty member and the first
      room, and so there are at most five entries per time slot. */
  lemma SectionScheduleSound(sectionId: int, plans: seq<Plan>, slotIds: seq<int>, rooms: seq<int>)
    ensures var sched := GenerateSectionSchedule(sectionId, plans, slotIds, rooms).schedule;
            && Seqs.Distinct(KeysOf(sched))
            && (forall i :: 0 <= i < |sched| ==> Placed(sched[i], slotIds, rooms))
            && FromPlans(sched, 0, plans, rooms)
            && |sched| <= 5 * |slotIds|
  {
    var start := Run(Fresh, []);
    RunPlansInv(start, plans, slotIds, rooms);
    var sched := GenerateSectionSchedule(sectionId, plans, slotIds, rooms).schedule;
    var ks := KeysOf(sched);
    forall k | k in ks ensures k in Scan(slotIds) {
      var i :| 0 <= i < |ks| && ks[i] == k;
      assert Placed(sched[i], slotIds, rooms);
    }
    Seqs.DistinctWithinBound(ks, Scan(slotIds));
  }

  /** Every result holds exactly `sched`. */
  predicate AllHold(rs: seq<SectionResult>, sched: seq<Assignment>) {
    forall i :: 0 <= i < |rs| ==> rs[i].schedule == sched
  }

  /** The trackers start empty for every section, so every section receives
      the same entries: nothing keeps two sections apart. */
  lemma {:induction false} SectionsAlike(sectionIds: seq<int>, subjects: seq<Subject>, duration: int,
                                         slotIds: seq<int>, rooms: seq<int>)
    ensures AllHold(GenerateSchedule(sectionIds, subjects, duration, slotIds, rooms),
                    RunPlans(Run(Fresh, []), Plans(subjects, duration), slotIds, rooms).schedule)
  {
    if |sectionIds| > 0 {
      var whole := RunPlans(Run(Fresh, []), Plans(subjects, duration), slotIds, rooms).schedule;
      var rs := GenerateSchedule(sectionIds, subjects, duration, slotIds, rooms);
      var rest := GenerateSchedule(sectionIds[1..], subjects, duration, slotIds, rooms);
      assert rs == [GenerateSectionSchedule(sectionIds[0], Plans(subjects, duration), slotIds, rooms)] + rest;
      SectionsAlike(sectionIds[1..], subjects, duration, slotIds, rooms);
      assert rs[0].schedule == whole;
      forall i | 1 <= i < |rs| ensures rs[i].schedule == whole {
        assert rs[i] == rest[i - 1];
      }
    }
  }

  /** Two sections with work therefore share their first slot, faculty
      member and room. */
  lemma SectionsCollide(sectionIds: seq<int>, subjects: seq<Subject>, duration: int,
                        slotIds: seq<int>, rooms: seq<int>, i: nat, j: nat)
    requires var rs := GenerateSchedule(sectionIds, subjects, duration, slotIds, rooms);
             i < |rs| && j < |rs| && |rs[i].schedule| > 0
    ensures var rs := GenerateSchedule(sectionIds, subjects, duration, slotIds, rooms);
            |rs[j].schedule| > 0 && rs[j].schedule[0] == rs[i].schedule[0]
  {
    SectionsAlike(sectionIds, subjects, duration, slotIds, rooms);
  }
}
