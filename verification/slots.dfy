/** Weekly time slots shared by the three allocators: a slot is a (day,
    time) pair rendered as "day time", and a week is every day paired with
    every time, day-major. */
module TimeSlots {
  import opened Text
  import Seqs

  datatype TimeSlot = TimeSlot(day: string, time: string)

  /** `str(TimeSlot)`: the day and the time separated by one space. */
  function SlotName(t: TimeSlot): string {
    t.day + " " + t.time
  }

  lemma SlotNameDay(t: TimeSlot)
    requires ' ' !in t.day
    ensures Split(SlotName(t), ' ')[0] == t.day
  {
    assert SlotName(t) == t.day + (" " + t.time);
    SplitSeparatorFree(t.day, " " + t.time, ' ');
    assert (" " + t.time)[1..] == t.time;
    assert t.day + "" == t.day;
  }

  /** Slot names identify slots when day names contain no space. */
  lemma SlotNameInjective(a: TimeSlot, b: TimeSlot)
    requires ' ' !in a.day && ' ' !in b.day
    ensures SlotName(a) == SlotName(b) <==> a == b
  {
    if SlotName(a) == SlotName(b) {
      SlotNameDay(a);
      SlotNameDay(b);
      assert a.time == SlotName(a)[|a.day| + 1..];
      assert b.time == SlotName(b)[|b.day| + 1..];
    }
  }

  /** One slot per (time) for a fixed day, in time order. */
  function Row(day: string, times: seq<string>): (row: seq<TimeSlot>)
    ensures |row| == |times|
    ensures forall k :: 0 <= k < |row| ==> row[k] == TimeSlot(day, times[k])
    ensures forall t :: t in row <==> t.day == day && t.time in times
  {
    if |times| == 0 then []
    else
      assert forall x :: x in times <==> x == times[0] || x in times[1..] by {
        assert times == [times[0]] + times[1..];
      }
      [TimeSlot(day, times[0])] + Row(day, times[1..])
  }

  /** `[TimeSlot(day, time) for day in days for time in times]`. */
  function Product(days: seq<string>, times: seq<string>): (slots: seq<TimeSlot>)
    ensures |slots| == |days| * |times|
    ensures forall t :: t in slots <==> t.day in days && t.time in times
  {
    if |days| == 0 then []
    else
      var row := Row(days[0], times);
      var rest := Product(days[1..], times);
      ProductStep(days, times, row, rest);
      row + rest
  }

  /** One day's row in front of the product of the other days. */
  lemma ProductStep(days: seq<string>, times: seq<string>, row: seq<TimeSlot>, rest: seq<TimeSlot>)
    requires |days| > 0
    requires |row| == |times| && forall t :: t in row <==> t.day == days[0] && t.time in times
    requires |rest| == (|days| - 1) * |times|
    requires forall t :: t in rest <==> t.day in days[1..] && t.time in times
    ensures |row + rest| == |days| * |times|
    ensures forall t :: t in row + rest <==> t.day in days && t.time in times
  {
    assert (|days| - 1) * |times| + |times| == |days| * |times|;
    assert forall d :: d in days <==> d == days[0] || d in days[1..] by {
      assert days == [days[0]] + days[1..];
    }
  }

  /** Day-major order: the first day's row comes first, then the rest. */
  lemma ProductSplit(days: seq<string>, times: seq<string>)
    requires |days| > 0
    ensures Product(days, times)[..|times|] == Row(days[0], times)
    ensures Product(days, times)[|times|..] == Product(days[1..], times)
    ensures |times| > 0 ==> Product(days, times)[0] == TimeSlot(days[0], times[0])
  {
    var row := Row(days[0], times);
    assert Product(days, times) == row + Product(days[1..], times);
  }

  lemma {:induction false} ProductDistinct(days: seq<string>, times: seq<string>)
    requires Seqs.Distinct(days) && Seqs.Distinct(times)
    ensures Seqs.Distinct(Product(days, times))
  {
    if |days| > 0 {
      var row := Row(days[0], times);
      var rest := Product(days[1..], times);
      assert Seqs.Distinct(days[1..]) by {
        forall i, j | 0 <= i < j < |days| - 1 ensures days[1..][i] != days[1..][j] {
          assert days[1..][i] == days[i + 1] && days[1..][j] == days[j + 1];
        }
      }
      ProductDistinct(days[1..], times);
      assert days[0] !in days[1..] by {
        forall k | 0 <= k < |days| - 1 ensures days[1..][k] != days[0] {
          assert days[1..][k] == days[k + 1];
        }
      }
      var all := row + rest;
      forall i, j | 0 <= i < j < |all| ensures all[i] != all[j] {
        if j < |row| {
          assert all[i] == row[i] && all[j] == row[j];
        } else if i >= |row| {
          assert all[i] == rest[i - |row|] && all[j] == rest[j - |row|];
        } else {
          assert all[i].day == days[0];
          assert all[j] == rest[j - |row|];
          assert all[j] in rest;
        }
      }
    }
  }

  function Names(slots: seq<TimeSlot>): (names: seq<string>)
    ensures |names| == |slots|
    ensures forall k :: 0 <= k < |slots| ==> names[k] == SlotName(slots[k])
  {
    if |slots| == 0 then [] else [SlotName(slots[0])] + Names(slots[1..])
  }

  /** Slot names of a product of distinct, space-free days and distinct times are distinct. */
  lemma ProductNamesDistinct(days: seq<string>, times: seq<string>)
    requires Seqs.Distinct(days) && Seqs.Distinct(times)
    requires forall d :: d in days ==> ' ' !in d
    ensures Seqs.Distinct(Names(Product(days, times)))
  {
    ProductDistinct(days, times);
    var slots := Product(days, times);
    var names := Names(slots);
    forall i, j | 0 <= i < j < |names| ensures names[i] != names[j] {
      assert slots[i] in slots && slots[j] in slots;
      SlotNameInjective(slots[i], slots[j]);
    }
  }
}
