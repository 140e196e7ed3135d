/** The checks and conversions of `timeslot.controller.js`: the `HH:MM:SS`
    format, the validation order of `createTimeSlot`, the time of day a
    slot's times are stored at, their formatting on the way out, and the day
    check of `getTimeSlotsByDay`. */
module TimeSlotApi {
  import opened Wrappers
  import opened Text

  // ---------------------------------------------------------------------
  // The HH:MM:SS format
  // ---------------------------------------------------------------------

  predicate InRange(c: char, lo: char, hi: char) { lo <= c <= hi }

  /** `/^([01]\d|2[0-3]):([0-5]\d):([0-5]\d)$/.test(time)`. */
  predicate IsValidTimeFormat(s: string) {
    && |s| == 8 && s[2] == ':' && s[5] == ':'
    && ((InRange(s[0], '0', '1') && IsDigit(s[1])) || (s[0] == '2' && InRange(s[1], '0', '3')))
    && InRange(s[3], '0', '5') && IsDigit(s[4])
    && InRange(s[6], '0', '5') && IsDigit(s[7])
  }

  function DigitValue(c: char): int { c as int - '0' as int }

  /** A number below 100 as two digits, with a leading zero. */
  function Pad2(n: int): (s: string)
    requires 0 <= n < 100
    ensures |s| == 2 && IsDigit(s[0]) && IsDigit(s[1])
    ensures DigitValue(s[0]) * 10 + DigitValue(s[1]) == n
  {
    [DigitChar(n / 10), DigitChar(n % 10)]
  }

  /** A time of day as `HH:MM:SS`. */
  function Clock(h: int, m: int, sec: int): (s: string)
    requires 0 <= h < 24 && 0 <= m < 60 && 0 <= sec < 60
    ensures |s| == 8
  {
    Pad2(h) + ":" + Pad2(m) + ":" + Pad2(sec)
  }

  /** Every time of day written as `HH:MM:SS` passes the format check. */
  lemma ClockIsValid(h: int, m: int, sec: int)
    requires 0 <= h < 24 && 0 <= m < 60 && 0 <= sec < 60
    ensures IsValidTimeFormat(Clock(h, m, sec))
  {
    var s := Clock(h, m, sec);
    assert s[0] == DigitChar(h / 10) && s[1] == DigitChar(h % 10);
    assert s[3] == DigitChar(m / 10) && s[6] == DigitChar(sec / 10);
  }

  /** The numbers `timeStr.split(':').map(Number)` yields for a valid time. */
  function Hours(s: string): int requires IsValidTimeFormat(s) { DigitValue(s[0]) * 10 + DigitValue(s[1]) }
  function Minutes(s: string): int requires IsValidTimeFormat(s) { DigitValue(s[3]) * 10 + DigitValue(s[4]) }
  function Seconds(s: string): int requires IsValidTimeFormat(s) { DigitValue(s[6]) * 10 + DigitValue(s[7]) }

  /** Every string that passes the check is a time of day written as `HH:MM:SS`. */
  lemma ValidIsClock(s: string)
    requires IsValidTimeFormat(s)
    ensures 0 <= Hours(s) < 24 && 0 <= Minutes(s) < 60 && 0 <= Seconds(s) < 60
    ensures s == Clock(Hours(s), Minutes(s), Seconds(s))
  {
    var c := Clock(Hours(s), Minutes(s), Seconds(s));
    assert c[0] == s[0] && c[1] == s[1] && c[3] == s[3] && c[4] == s[4] && c[6] == s[6] && c[7] == s[7];
  }

  /** The pieces between the colons of a valid time are its two-digit fields. */
  lemma ValidTimePieces(s: string)
    requires IsValidTimeFormat(s)
    ensures Split(s, ':') == [s[..2], s[3..5], s[6..]]
  {
    var parts := [s[..2], s[3..5], s[6..]];
    assert s == Join(parts, ':') by {
      assert parts[1..][1..] == [s[6..]];
      assert Join(parts[1..], ':') == s[3..5] + [':'] + s[6..];
    }
    assert forall i :: 0 <= i < 3 ==> ':' !in parts[i];
    SplitJoin(parts, ':');
  }

  /** `timeStringToDateTime`: `setUTCHours(h, m, s, 0)` on the current day,
      so two results compare as their seconds since midnight. */
  function TimeOfDay(s: string): (t: int)
    requires IsValidTimeFormat(s)
    ensures 0 <= t < 86400
  {
    ValidIsClock(s);
    Hours(s) * 3600 + Minutes(s) * 60 + Seconds(s)
  }

  /** The seconds since midnight written out as `HH:MM:SS`. */
  function ClockOf(t: int): string
    requires 0 <= t < 86400
  {
    Clock(t / 3600, (t % 3600) / 60, t % 60)
  }

  /** A valid time keeps its text through storage: the stored time of day,
      written out again, is the string it came from. */
  lemma TimeOfDayRoundTrip(s: string)
    requires IsValidTimeFormat(s)
    ensures ClockOf(TimeOfDay(s)) == s
  {
    ValidIsClock(s);
    var h, m, sec := Hours(s), Minutes(s), Seconds(s);
    var t := TimeOfDay(s);
    assert t == 3600 * h + (60 * m + sec);
    assert t / 3600 == h && t % 3600 == 60 * m + sec;
    assert (t % 3600) / 60 == m && t % 60 == sec;
  }

  /** Later in the day is a larger number: comparing the stored times is
      comparing the strings as times of day. */
  lemma TimeOfDayOrder(a: string, b: string)
    requires IsValidTimeFormat(a) && IsValidTimeFormat(b)
    ensures TimeOfDay(a) == TimeOfDay(b) <==> a == b
  {
    if TimeOfDay(a) == TimeOfDay(b) {
      TimeOfDayRoundTrip(a);
      TimeOfDayRoundTrip(b);
    }
  }

  // ---------------------------------------------------------------------
  // createTimeSlot
  // ---------------------------------------------------------------------

  /** `Number(day_of_week)`: an integer, a number with a fraction, or `NaN`.
      A `null` day arrives as `Int(0)`. */
  datatype DayNumber = Int(n: int) | Fraction | NotANumber

  datatype CreateRequest = CreateRequest(startTime: Option<string>, endTime: Option<string>,
                                         dayOfWeek: Option<DayNumber>, slotType: Option<string>)

  /** The 400 responses, in the order they are checked. */
  datatype CreateError = MissingFields | BadTimeFormat | BadDay | EndNotAfterStart

  /** The row handed to the database. */
  datatype SlotRow = SlotRow(start: int, end: int, day: int, slotType: string)

  /** A string field that is present and not empty (JavaScript truthiness). */
  predicate Truthy(x: Option<string>) { x.Some? && |x.value| > 0 }

  /** `createTimeSlot` up to the insert. */
  function CreateTimeSlot(req: CreateRequest): (r: Result<SlotRow, CreateError>)
    ensures r == Err(MissingFields) <==> !Truthy(req.startTime) || !Truthy(req.endTime) || req.dayOfWeek.None?
    ensures r.Ok? ==> 1 <= r.value.day <= 6 && 0 <= r.value.start < r.value.end < 86400
    ensures r.Ok? ==> r.value.slotType == if Truthy(req.slotType) then req.slotType.value else "regular"
  {
    if !Truthy(req.startTime) || !Truthy(req.endTime) || req.dayOfWeek.None? then Err(MissingFields)
    else if !IsValidTimeFormat(req.startTime.value) || !IsValidTimeFormat(req.endTime.value) then Err(BadTimeFormat)
    else if !req.dayOfWeek.value.Int? || req.dayOfWeek.value.n < 1 || req.dayOfWeek.value.n > 6 then Err(BadDay)
    else
      var start := TimeOfDay(req.startTime.value);
      var end := TimeOfDay(req.endTime.value);
      if end <= start then Err(EndNotAfterStart)
      else Ok(SlotRow(start, end, req.dayOfWeek.value.n, if Truthy(req.slotType) then req.slotType.value else "regular"))
  }

  /** A request is accepted exactly when both times are well formed, the day
      is an integer 1..6 and the end is strictly later than the start; the
      row then holds the two times of day and the day. */
  lemma CreateAcceptsIff(req: CreateRequest)
    ensures CreateTimeSlot(req).Ok? <==>
              && req.startTime.Some? && IsValidTimeFormat(req.startTime.value)
              && req.endTime.Some? && IsValidTimeFormat(req.endTime.value)
              && req.dayOfWeek.Some? && req.dayOfWeek.value.Int? && 1 <= req.dayOfWeek.value.n <= 6
              && TimeOfDay(req.startTime.value) < TimeOfDay(req.endTime.value)
    ensures CreateTimeSlot(req).Ok? ==>
              var row := CreateTimeSlot(req).value;
              ClockOf(row.start) == req.startTime.value && ClockOf(row.end) == req.endTime.value &&
              row.day == req.dayOfWeek.value.n
  {
    if CreateTimeSlot(req).Ok? {
      TimeOfDayRoundTrip(req.startTime.value);
      TimeOfDayRoundTrip(req.endTime.value);
    }
  }

  /** Sunday (0) is rejected, although the message offers 0 to 6. */
  lemma SundayRejected(start: string, end: string)
    requires |start| > 0 && |end| > 0 && IsValidTimeFormat(start) && IsValidTimeFormat(end)
    ensures CreateTimeSlot(CreateRequest(Some(start), Some(end), Some(Int(0)), None)) == Err(BadDay)
  {
  }

  /** A slot that ends when it starts is rejected. */
  lemma EqualTimesRejected(t: string, day: int)
    requires IsValidTimeFormat(t) && 1 <= day <= 6
    ensures CreateTimeSlot(CreateRequest(Some(t), Some(t), Some(Int(day)), None)) == Err(EndNotAfterStart)
  {
  }

  // ---------------------------------------------------------------------
  // Reading slots back
  // ---------------------------------------------------------------------

  /** `toISOString()` of a stored time: the date, `T`, the time of day and
      zero milliseconds. */
  function IsoString(datePart: string, t: int): string
    requires 0 <= t < 86400
  {
    datePart + "T" + ClockOf(t) + ".000Z"
  }

  /** `iso.split('T')[1].split('.')[0]`; reading `[1]` of a one-piece split
      gives `undefined`, and calling `split` on it throws. */
  function FormatStored(iso: string): (r: Option<string>)
    ensures r.Some? <==> |Split(iso, 'T')| >= 2
  {
    var parts := Split(iso, 'T');
    if |parts| < 2 then None else Some(Split(parts[1], '.')[0])
  }

  /** `getTimeSlots` gives back the `HH:MM:SS` the slot was created with. */
  lemma FormatStoredRoundTrip(datePart: string, s: string)
    requires 'T' !in datePart && IsValidTimeFormat(s)
    ensures FormatStored(IsoString(datePart, TimeOfDay(s))) == Some(s)
  {
    TimeOfDayRoundTrip(s);
    var tail := s + ".000Z";
    assert 'T' !in tail by {
      assert forall i :: 0 <= i < 8 ==> tail[i] == s[i];
      assert forall i :: 0 <= i < |s| ==> s[i] == ':' || IsDigit(s[i]);
    }
    assert '.' !in s by {
      assert forall i :: 0 <= i < |s| ==> s[i] == ':' || IsDigit(s[i]);
    }
    var iso := IsoString(datePart, TimeOfDay(s));
    assert iso == Join([datePart, tail], 'T') by {
      assert [datePart, tail][1..] == [tail];
    }
    SplitJoin([datePart, tail], 'T');
    assert tail == Join([s, "000Z"], '.') by {
      assert [s, "000Z"][1..] == ["000Z"];
    }
    SplitJoin([s, "000Z"], '.');
  }

  // ---------------------------------------------------------------------
  // getTimeSlotsByDay
  // ---------------------------------------------------------------------

  /** The day check of `getTimeSlotsByDay`: the route parameter must be non-empty
      and `parseInt` of it a number 0..6; the day queried is that number. */
  function DayParam(dayOfWeek: string): (r: Option<int>)
    ensures r.Some? <==> |dayOfWeek| > 0 && JsParseInt(dayOfWeek).Some? && 0 <= JsParseInt(dayOfWeek).value <= 6
    ensures r.Some? ==> r == JsParseInt(dayOfWeek)
  {
    if |dayOfWeek| == 0 then None
    else match JsParseInt(dayOfWeek)
      case None => None
      case Some(n) => if n < 0 || n > 6 then None else Some(n)
  }

  /** The decimal days 0..6 are accepted, and so is anything `parseInt`
      reads as one of them ("3rd" reads as 3); 7 and above are refused. */
  lemma DayParamNumerals(n: nat, tail: string)
    requires |tail| > 0 && !IsDigit(tail[0])
    ensures DayParam(NatToString(n)) == (if n <= 6 then Some(n) else None)
    ensures DayParam(NatToString(n) + tail) == (if n <= 6 then Some(n) else None)
  {
    JsParseIntNumeral(n);
    JsParseIntStops(n, tail);
  }
}
