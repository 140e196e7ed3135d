/** Handing a slot-scan schedule to storage (`schedule.controller2.js`): the
    section key and the slot names are taken apart again, each weekly entry
    becomes four dated classes starting at the first matching weekday on or
    after the start date, and entries whose slot has no id are skipped.
    Dates are day numbers counted from 1970-01-01 (a Thursday); the local
    time zone is not modelled. */
module ScheduleTransport {
  import opened Wrappers
  import opened Text
  import opened TimeSlots
  import SlotScanScheduler

  // ---------------------------------------------------------------------
  // JavaScript arithmetic
  // ---------------------------------------------------------------------

  /** JavaScript's `a % b` for a positive divisor: the remainder takes the
      sign of the dividend. */
  function JsRem(a: int, b: int): (r: int)
    requires b > 0
    ensures a >= 0 ==> 0 <= r < b && r == a % b
    ensures a < 0 ==> -b < r <= 0 && r == -((-a) % b)
  {
    if a >= 0 then a % b else -((-a) % b)
  }

  // ---------------------------------------------------------------------
  // Weekly dates
  // ---------------------------------------------------------------------

  /** `Date.prototype.getDay()` of a day number: 0 is Sunday, 1970-01-01 a Thursday. */
  function WeekDay(d: int): (w: nat)
    ensures w < 7
  {
    (d + 4) % 7
  }

  /** `getDay() || 7`: the weekday numbered 1 (Monday) to 7 (Sunday). */
  function IsoDay(d: int): (w: nat)
    ensures 1 <= w <= 7 && w % 7 == WeekDay(d)
  {
    if WeekDay(d) == 0 then 7 else WeekDay(d)
  }

  /** Going `j` days forward moves the weekday `j` places round the week. */
  lemma WeekDayAfter(d: int, j: int)
    ensures WeekDay(d + j) == (WeekDay(d) + j) % 7
  {
    var q := (d + 4) / 7;
    assert d + 4 == 7 * q + WeekDay(d);
    assert d + j + 4 == 7 * q + (WeekDay(d) + j);
    ModShift(q, WeekDay(d) + j);
  }

  lemma ModShift(q: int, x: int)
    ensures (7 * q + x) % 7 == x % 7
  {
    var y := 7 * q + x;
    assert y - y % 7 == 7 * (y / 7);
    assert x - x % 7 == 7 * (x / 7);
    assert y % 7 - x % 7 == 7 * (q + x / 7 - y / 7);
  }

  /** `getFirstOccurrence(startDate, targetDay)`: moves forward by
      `(targetDay - currentDay + 7) % 7` days, with Sunday counted as 7. */
  function FirstOccurrence(start: int, target: int): (d: int)
    ensures target - IsoDay(start) + 7 >= 0 ==> start <= d <= start + 6 && WeekDay(d) == target % 7
    ensures target - IsoDay(start) + 7 < 0 ==> start - 6 <= d <= start
    ensures IsoDay(start) == target ==> d == start
  {
    var off := JsRem(target - IsoDay(start) + 7, 7);
    OffsetLandsOnTarget(start, target);
    start + off
  }

  lemma OffsetLandsOnTarget(start: int, target: int)
    ensures var off := JsRem(target - IsoDay(start) + 7, 7);
            target - IsoDay(start) + 7 >= 0 ==> WeekDay(start + off) == target % 7
  {
    var cur := IsoDay(start);
    var off := JsRem(target - cur + 7, 7);
    WeekDayAfter(start, off);
    if target - cur + 7 >= 0 {
      assert (cur + off) % 7 == target % 7 by {
        assert target - cur + 7 - off == 7 * ((target - cur + 7) / 7);
        ModShift((target - cur + 7) / 7, cur + off);
        ModShift(1, target);
      }
      assert (WeekDay(start) + off) % 7 == (cur + off) % 7 by {
        if cur == 7 {
          ModShift(1, off);
        }
      }
    }
  }

  /** For a weekday 1..7 the result is the first day on or after the start
      with that weekday: no earlier day in between has it. */
  lemma FirstOccurrenceIsFirst(start: int, target: int)
    requires 1 <= target <= 7
    ensures IsoDay(FirstOccurrence(start, target)) == target
    ensures forall e :: start <= e < FirstOccurrence(start, target) ==> IsoDay(e) != target
  {
    var d := FirstOccurrence(start, target);
    assert WeekDay(d) == target % 7;
    forall e | start <= e < d ensures IsoDay(e) != target {
      WeekDayAfter(e, d - e);
      WeekShiftMoves(WeekDay(e), d - e);
    }
  }

  /** Moving 1 to 6 places round the week never lands where it started. */
  lemma WeekShiftMoves(w: int, k: int)
    requires 0 <= w < 7 && 0 < k < 7
    ensures (w + k) % 7 != w
  {
    if w + k >= 7 {
      ModShift(1, w + k - 7);
    }
  }

  /** `n` dates a week apart, from `first` on. */
  function Weeks(first: int, n: nat): (dates: seq<int>)
    ensures |dates| == n
    ensures forall i :: 0 <= i < n ==> dates[i] == first + 7 * i
  {
    if n == 0 then [] else Weeks(first, n - 1) + [first + 7 * (n - 1)]
  }

  /** `generateWeeklyDates(startDate, dayOfWeek)`: four dates. */
  function WeeklyDates(start: int, target: int): (dates: seq<int>)
    ensures |dates| == 4
    ensures dates[0] == FirstOccurrence(start, target)
    ensures forall i :: 0 <= i < 3 ==> dates[i + 1] == dates[i] + 7
  {
    Weeks(FirstOccurrence(start, target), 4)
  }

  /** The four dates share one weekday, which is the requested one. */
  lemma WeeklyDatesSameDay(start: int, target: int)
    requires 1 <= target <= 7
    ensures forall i :: 0 <= i < 4 ==> IsoDay(WeeklyDates(start, target)[i]) == target
  {
    var dates := WeeklyDates(start, target);
    FirstOccurrenceIsFirst(start, target);
    forall i | 0 <= i < 4 ensures IsoDay(dates[i]) == target {
      WeekDayAfter(dates[0], 7 * i);
      ModShift(i, WeekDay(dates[0]));
      assert dates[i] == dates[0] + 7 * i;
    }
  }

  // ---------------------------------------------------------------------
  // Keys taken apart
  // ---------------------------------------------------------------------

  /** `const [a, b] = parts`: a missing second part is `undefined`. */
  function Second(parts: seq<string>): Option<string> {
    if |parts| >= 2 then Some(parts[1]) else None
  }

  /** `${x}` for a value that may be `undefined`. */
  function Render(x: Option<string>): string {
    match x
    case Some(v) => v
    case None => "undefined"
  }

  /** `${day}-${time}` after `[day, time] = timeSlot.split(" ")`. */
  function DashKey(slotName: string): (k: string)
    ensures Split(slotName, ' ')[0] <= k
  {
    var parts := Split(slotName, ' ');
    parts[0] + "-" + Render(Second(parts))
  }

  /** A slot whose day and time hold neither a space nor a dash. */
  predicate Plain(t: TimeSlot) {
    ' ' !in t.day && ' ' !in t.time && '-' !in t.day && '-' !in t.time
  }

  /** The slot name `"day time"` is re-keyed as `"day-time"`. */
  lemma DashKeyOfSlot(t: TimeSlot)
    requires ' ' !in t.day && ' ' !in t.time
    ensures DashKey(SlotName(t)) == t.day + "-" + t.time
  {
    assert SlotName(t) == Join([t.day, t.time], ' ') by {
      assert [t.day, t.time][1..] == [t.time];
    }
    SplitJoin([t.day, t.time], ' ');
  }

  /** `[day, time] = timeSlotKey.split("-")` recovers the slot's day and
      time, so the time-slot lookup asks for exactly this slot. */
  lemma DashKeyRoundTrip(t: TimeSlot)
    requires Plain(t)
    ensures Split(DashKey(SlotName(t)), '-') == [t.day, t.time]
  {
    DashKeyOfSlot(t);
    assert t.day + "-" + t.time == Join([t.day, t.time], '-') by {
      assert [t.day, t.time][1..] == [t.time];
    }
    SplitJoin([t.day, t.time], '-');
  }

  /** Different plain slots get different dash keys. */
  lemma DashKeyInjective(a: TimeSlot, b: TimeSlot)
    requires Plain(a) && Plain(b)
    ensures DashKey(SlotName(a)) == DashKey(SlotName(b)) <==> a == b
  {
    DashKeyRoundTrip(a);
    DashKeyRoundTrip(b);
  }

  /** `const [dept, batch, section] = sectionKey.split("_")`. */
  function SplitSectionKey(key: string): (r: (string, Option<string>, Option<string>))
    ensures r.0 == Split(key, '_')[0]
  {
    var parts := Split(key, '_');
    (parts[0], Second(parts), if |parts| >= 3 then Some(parts[2]) else None)
  }

  /** The key `"{dept}_{batch}_{section}"` of the slot-scan allocator splits
      back into its three parts when none of them holds `_`. */
  lemma SplitSectionKeyInverts(dept: string, sd: SlotScanScheduler.SectionData)
    requires '_' !in dept && '_' !in sd.batch && '_' !in sd.sectionId
    ensures SplitSectionKey(SlotScanScheduler.SectionKey(dept, sd)) == (dept, Some(sd.batch), Some(sd.sectionId))
  {
    var parts := [dept, sd.batch, sd.sectionId];
    assert SlotScanScheduler.SectionKey(dept, sd) == Join(parts, '_') by {
      assert parts[1..][1..] == [sd.sectionId];
      assert Join(parts[1..], '_') == sd.batch + ['_'] + sd.sectionId;
      assert dept + "_" + sd.batch + "_" + sd.sectionId == dept + ['_'] + (sd.batch + ['_'] + sd.sectionId);
    }
    SplitJoin(parts, '_');
  }

  /** With numeric batch and section, `parseInt` reads both back. */
  lemma SectionKeyNumbers(dept: string, batch: nat, section: nat, year: string)
    requires '_' !in dept
    ensures var sd := SlotScanScheduler.SectionData(NatToString(batch), NatToString(section), year);
            var parts := SplitSectionKey(SlotScanScheduler.SectionKey(dept, sd));
            parts.1.Some? && parts.2.Some? &&
            JsParseInt(parts.1.value) == Some(batch) && JsParseInt(parts.2.value) == Some(section)
  {
    var sd := SlotScanScheduler.SectionData(NatToString(batch), NatToString(section), year);
    NumeralNoUnderscore(batch);
    NumeralNoUnderscore(section);
    SplitSectionKeyInverts(dept, sd);
    JsParseIntNumeral(batch);
    JsParseIntNumeral(section);
  }

  lemma NumeralNoUnderscore(n: nat)
    ensures '_' !in NatToString(n)
  {
    var s := NatToString(n);
    forall i | 0 <= i < |s| ensures s[i] != '_' {
      assert IsDigit(s[i]);
    }
  }

  // ---------------------------------------------------------------------
  // Classes created for one section
  // ---------------------------------------------------------------------

  /** One `classes` row; a `None` date is an Invalid Date (a `NaN` weekday). */
  datatype ClassRow = ClassRow(cell: SlotScanScheduler.Cell, slotId: int, date: Option<int>)

  /** The four rows of one weekly entry. */
  function RowsFor(cell: SlotScanScheduler.Cell, slotId: int, start: int, day: Option<int>): (rows: seq<ClassRow>)
    ensures |rows| == 4
    ensures forall i :: 0 <= i < 4 ==> rows[i].cell == cell && rows[i].slotId == slotId
    ensures day.Some? ==> forall i :: 0 <= i < 4 ==> rows[i].date == Some(WeeklyDates(start, day.value)[i])
    ensures day.None? ==> forall i :: 0 <= i < 4 ==> rows[i].date.None?
  {
    match day
    case None =>
      var invalid := ClassRow(cell, slotId, None);
      [invalid, invalid, invalid, invalid]
    case Some(d) =>
      var dates := WeeklyDates(start, d);
      [ClassRow(cell, slotId, Some(dates[0])), ClassRow(cell, slotId, Some(dates[1])),
       ClassRow(cell, slotId, Some(dates[2])), ClassRow(cell, slotId, Some(dates[3]))]
  }

  /** The slot id stored for an entry's dash key; `!slotId` skips both a
      missing id and the id 0. */
  function SlotIdFor(slotName: string, slotIds: map<string, int>): Option<int> {
    var k := DashKey(slotName);
    if k in slotIds && slotIds[k] != 0 then Some(slotIds[k]) else None
  }

  /** Entries of one section that have a slot id. */
  function Kept(entries: seq<(string, SlotScanScheduler.Cell)>, slotIds: map<string, int>): (n: nat)
    ensures n <= |entries|
  {
    if |entries| == 0 then 0
    else Kept(entries[..|entries| - 1], slotIds) + (if SlotIdFor(entries[|entries| - 1].0, slotIds).Some? then 1 else 0)
  }

  /** The loop over a section's time slots: four rows per entry with a slot
      id, dated by the entry's weekday; other entries are skipped. */
  function SectionClasses(entries: seq<(string, SlotScanScheduler.Cell)>, slotIds: map<string, int>,
                          start: int): (rows: seq<ClassRow>)
    ensures |rows| == 4 * Kept(entries, slotIds)
    ensures forall i :: 0 <= i < |rows| ==> rows[i].slotId != 0 && rows[i].slotId in slotIds.Values
  {
    if |entries| == 0 then []
    else SectionClasses(entries[..|entries| - 1], slotIds, start) + EntryRows(entries[|entries| - 1], slotIds, start)
  }

  /** The rows of one entry: its four weekly rows when its slot has an id,
      none otherwise. */
  function EntryRows(entry: (string, SlotScanScheduler.Cell), slotIds: map<string, int>, start: int): (rows: seq<ClassRow>)
    ensures SlotIdFor(entry.0, slotIds).None? ==> rows == []
    ensures SlotIdFor(entry.0, slotIds).Some? ==>
              rows == RowsFor(entry.1, SlotIdFor(entry.0, slotIds).value, start, EntryDay(entry.0))
    ensures forall i :: 0 <= i < |rows| ==> rows[i].slotId != 0 && rows[i].slotId in slotIds.Values
  {
    match SlotIdFor(entry.0, slotIds)
    case None => []
    case Some(id) =>
      assert DashKey(entry.0) in slotIds;
      RowsFor(entry.1, id, start, EntryDay(entry.0))
  }

  /** The weekday an entry is dated by: `parseInt` of the slot name's first
      word, `None` when that is not a number. */
  function EntryDay(slotName: string): Option<int> {
    JsParseInt(Split(slotName, ' ')[0])
  }

  /** Where each entry's rows go: an entry with a slot id owns the four rows
      after those of the kept entries before it, and they are its
      `RowsFor`. With the row count, every row belongs to exactly one kept
      entry. */
  lemma {:induction false} SectionClassesBlock(entries: seq<(string, SlotScanScheduler.Cell)>, slotIds: map<string, int>,
                                               start: int, j: nat)
    requires j < |entries| && SlotIdFor(entries[j].0, slotIds).Some?
    ensures var rows := SectionClasses(entries, slotIds, start);
            var b := 4 * Kept(entries[..j], slotIds);
            && b + 4 <= |rows|
            && rows[b..b + 4] == RowsFor(entries[j].1, SlotIdFor(entries[j].0, slotIds).value, start, EntryDay(entries[j].0))
    decreases |entries|, 1
  {
    if j == |entries| - 1 {
      var init := entries[..|entries| - 1];
      assert entries[..j] == init;
      SliceAppended(SectionClasses(init, slotIds, start), EntryRows(entries[j], slotIds, start));
    } else {
      EarlierBlock(entries, slotIds, start, j);
    }
  }

  /** The block of an entry before the last is untouched by the last. */
  lemma {:induction false} EarlierBlock(entries: seq<(string, SlotScanScheduler.Cell)>, slotIds: map<string, int>,
                                        start: int, j: nat)
    requires j < |entries| - 1 && SlotIdFor(entries[j].0, slotIds).Some?
    ensures var rows := SectionClasses(entries, slotIds, start);
            var b := 4 * Kept(entries[..j], slotIds);
            && b + 4 <= |rows|
            && rows[b..b + 4] == RowsFor(entries[j].1, SlotIdFor(entries[j].0, slotIds).value, start, EntryDay(entries[j].0))
    decreases |entries|, 0
  {
    var init := entries[..|entries| - 1];
    assert entries[..j] == init[..j];
    assert init[j] == entries[j];
    SectionClassesBlock(init, slotIds, start, j);
    SliceOfPrefix(SectionClasses(init, slotIds, start), EntryRows(entries[|entries| - 1], slotIds, start), 4 * Kept(entries[..j], slotIds));
  }

  lemma SliceAppended<T>(a: seq<T>, b: seq<T>)
    ensures (a + b)[|a|..|a| + |b|] == b
  {
  }

  lemma SliceOfPrefix<T>(a: seq<T>, b: seq<T>, k: nat)
    requires k + 4 <= |a|
    ensures (a + b)[k..k + 4] == a[k..k + 4]
  {
  }

  /** The blocks tile the rows: each entry with a slot id moves the next
      block on by four rows, and an entry without one adds no rows. */
  lemma KeptStep(entries: seq<(string, SlotScanScheduler.Cell)>, slotIds: map<string, int>, j: nat)
    requires j < |entries|
    ensures Kept(entries[..j + 1], slotIds) == Kept(entries[..j], slotIds) + (if SlotIdFor(entries[j].0, slotIds).Some? then 1 else 0)
  {
    assert entries[..j + 1][..j] == entries[..j];
  }

  /** An entry of a plain slot is stored on the slot's weekday: four
      classes, a week apart, on the first such weekday on or after the
      start date. */
  lemma SlotEntryDates(t: TimeSlot, day: nat, cell: SlotScanScheduler.Cell, slotIds: map<string, int>, start: int)
    requires Plain(t) && t.day == NatToString(day) && 1 <= day <= 7
    requires t.day + "-" + t.time in slotIds && slotIds[t.day + "-" + t.time] != 0
    ensures var rows := SectionClasses([(SlotName(t), cell)], slotIds, start);
            |rows| == 4 &&
            forall i :: 0 <= i < 4 ==> rows[i].cell == cell && rows[i].slotId == slotIds[t.day + "-" + t.time] &&
                                       rows[i].date.Some? && IsoDay(rows[i].date.value) == day
  {
    DashKeyOfSlot(t);
    SlotNameDay(t);
    JsParseIntNumeral(day);
    WeeklyDatesSameDay(start, day);
    var entries := [(SlotName(t), cell)];
    assert entries[..0] == [];
  }
}
