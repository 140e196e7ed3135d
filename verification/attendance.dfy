/** The counting part of `getAttendanceHistory` (`attendance.controller.js`):
    the class dates, the per-student grouping and the per-date counts of
    one class's attendance records. Percentages and averages are floating
    point and are not modelled. */
module AttendanceHistory {
  import opened Wrappers
  import opened Text
  import Seqs

  /** One attendance record: its full timestamp, the `YYYY-MM-DD` part of
      that timestamp's ISO string, the linked student's user id (if a
      student is linked), the status and the verification method. */
  datatype Rec = Rec(stamp: string, date: string, student: Option<int>, status: string, verification: string)

  /** The detail pushed onto a student's `records`; its `date` is the full
      timestamp, not the day. */
  datatype Detail = Detail(date: string, status: string, verification: string)

  function DetailOf(r: Rec): Detail {
    Detail(r.stamp, r.status, r.verification)
  }

  /** `status.toLowerCase() === 'present'`; the upper-case letters of other
      scripts never lower-case into these ASCII letters. */
  predicate IsPresent(status: string) {
    Lower(status) == "present"
  }

  // ---------------------------------------------------------------------
  // Class dates
  // ---------------------------------------------------------------------

  function Dates(history: seq<Rec>): (ds: seq<string>)
    ensures |ds| == |history|
    ensures forall i :: 0 <= i < |history| ==> ds[i] == history[i].date
  {
    if |history| == 0 then [] else Dates(history[..|history| - 1]) + [history[|history| - 1].date]
  }

  /** `[...new Set(history.map(date))]`: each date once, in order of first appearance. */
  function UniqueDates(history: seq<Rec>): (ds: seq<string>)
    ensures Seqs.Distinct(ds)
    ensures forall d :: d in ds <==> exists i :: 0 <= i < |history| && history[i].date == d
  {
    var all := Dates(history);
    var ds := Seqs.Dedup(all);
    assert forall d :: d in ds <==> d in all by {
      assert Seqs.Elems(ds) == Seqs.Elems(all);
      assert forall d :: d in ds <==> d in Seqs.Elems(ds);
      assert forall d :: d in all <==> d in Seqs.Elems(all);
    }
    ds
  }

  /** The dates come in order of first appearance: a date listed before
      another occurs in the history before every record of that other one. */
  lemma UniqueDatesFirstSeen(history: seq<Rec>, i: nat, j: nat, k: nat)
    requires i < j < |UniqueDates(history)| && k < |history|
    requires history[k].date == UniqueDates(history)[j]
    ensures exists m :: 0 <= m < k && history[m].date == UniqueDates(history)[i]
  {
    var all := Dates(history);
    Seqs.DedupFirstSeen(all, i, j, k);
    var m :| 0 <= m < k && all[..k][m] == UniqueDates(history)[i];
    assert history[m].date == all[m];
  }

  /** `totalClasses`. */
  function TotalClasses(history: seq<Rec>): (n: nat)
    ensures n <= |history|
    ensures n == 0 <==> |history| == 0
  {
    var ds := UniqueDates(history);
    Seqs.DistinctWithinBound(ds, Dates(history));
    assert |history| > 0 ==> history[0].date in ds;
    |ds|
  }

  // ---------------------------------------------------------------------
  // Per-student grouping
  // ---------------------------------------------------------------------

  /** The accumulator entry of one student. */
  datatype Entry = Entry(present: nat, absent: nat, total: nat, records: seq<Detail>)

  /** One step of the `reduce`: records with no student are passed over;
      otherwise the student's entry is created on first sight and then
      counted and extended. */
  function Step(acc: map<int, Entry>, r: Rec, total: nat): map<int, Entry> {
    match r.student
    case None => acc
    case Some(id) =>
      var e := if id in acc then acc[id] else Entry(0, 0, total, []);
      var e' := if IsPresent(r.status) then e.(present := e.present + 1) else e.(absent := e.absent + 1);
      acc[id := e'.(records := e'.records + [DetailOf(r)])]
  }

  /** `history.reduce(..., {})`. */
  function Group(history: seq<Rec>, total: nat): map<int, Entry> {
    if |history| == 0 then map[] else Step(Group(history[..|history| - 1], total), history[|history| - 1], total)
  }

  /** The student's records, in history order. */
  function RecordsOf(history: seq<Rec>, id: int): seq<Detail> {
    if |history| == 0 then []
    else
      var last := history[|history| - 1];
      RecordsOf(history[..|history| - 1], id) + (if last.student == Some(id) then [DetailOf(last)] else [])
  }

  /** How many of the student's records say present. */
  function PresentOf(history: seq<Rec>, id: int): (n: nat)
    ensures n <= |RecordsOf(history, id)|
  {
    if |history| == 0 then 0
    else
      var last := history[|history| - 1];
      PresentOf(history[..|history| - 1], id) + (if last.student == Some(id) && IsPresent(last.status) then 1 else 0)
  }

  /** The grouping has an entry for exactly the students that occur; each
      entry lists that student's records in order, counts the present ones
      and the others, which add up to the number of records, and carries the
      class total. */
  lemma {:induction false} GroupSpec(history: seq<Rec>, total: nat, id: int)
    ensures id in Group(history, total) <==> |RecordsOf(history, id)| > 0
    ensures id in Group(history, total) ==>
              var e := Group(history, total)[id];
              && e.records == RecordsOf(history, id)
              && e.present == PresentOf(history, id)
              && e.present + e.absent == |e.records|
              && e.total == total
  {
    if |history| > 0 {
      var init := history[..|history| - 1];
      var last := history[|history| - 1];
      GroupSpec(init, total, id);
      var before := Group(init, total);
      assert Group(history, total) == Step(before, last, total);
      if last.student == Some(id) {
        var e := if id in before then before[id] else Entry(0, 0, total, []);
        assert e.present + e.absent == |e.records| && e.total == total;
        assert e.records == RecordsOf(init, id) && e.present == PresentOf(init, id);
      }
    }
  }

  /** The students are exactly the linked user ids. */
  lemma StudentsAreLinked(history: seq<Rec>, total: nat, id: int)
    ensures id in Group(history, total) <==> exists i :: 0 <= i < |history| && history[i].student == Some(id)
  {
    GroupSpec(history, total, id);
    RecordsOfNonEmpty(history, id);
  }

  lemma {:induction false} RecordsOfNonEmpty(history: seq<Rec>, id: int)
    ensures |RecordsOf(history, id)| > 0 <==> exists i :: 0 <= i < |history| && history[i].student == Some(id)
  {
    if |history| > 0 {
      var init := history[..|history| - 1];
      RecordsOfNonEmpty(init, id);
      assert forall i :: 0 <= i < |init| ==> init[i] == history[i];
    }
  }

  // ---------------------------------------------------------------------
  // Per-date counts
  // ---------------------------------------------------------------------

  datatype DayCount = DayCount(date: string, presentCount: nat, totalCount: nat)

  /** How many records fall on `d`, and how many of those say present. */
  function OnDate(history: seq<Rec>, d: string): nat {
    if |history| == 0 then 0
    else OnDate(history[..|history| - 1], d) + (if history[|history| - 1].date == d then 1 else 0)
  }

  function PresentOnDate(history: seq<Rec>, d: string): (n: nat)
    ensures n <= OnDate(history, d)
  {
    if |history| == 0 then 0
    else
      var last := history[|history| - 1];
      PresentOnDate(history[..|history| - 1], d) + (if last.date == d && IsPresent(last.status) then 1 else 0)
  }

  /** `attendanceByDate`: one count per date of `dates`, in order. */
  function ByDate(history: seq<Rec>, dates: seq<string>): (counts: seq<DayCount>)
    ensures |counts| == |dates|
    ensures forall i :: 0 <= i < |dates| ==>
              counts[i] == DayCount(dates[i], PresentOnDate(history, dates[i]), OnDate(history, dates[i]))
    ensures forall i :: 0 <= i < |dates| ==> counts[i].presentCount <= counts[i].totalCount
  {
    if |dates| == 0 then []
    else [DayCount(dates[0], PresentOnDate(history, dates[0]), OnDate(history, dates[0]))] + ByDate(history, dates[1..])
  }

  function SumTotals(counts: seq<DayCount>): nat {
    if |counts| == 0 then 0 else counts[0].totalCount + SumTotals(counts[1..])
  }

  /** Records on the dates of `ds`, date by date. */
  function OnDates(history: seq<Rec>, ds: seq<string>): nat {
    if |ds| == 0 then 0 else OnDate(history, ds[0]) + OnDates(history, ds[1..])
  }

  lemma {:induction false} SumTotalsByDate(history: seq<Rec>, ds: seq<string>)
    ensures SumTotals(ByDate(history, ds)) == OnDates(history, ds)
  {
    if |ds| > 0 {
      SumTotalsByDate(history, ds[1..]);
      assert ByDate(history, ds)[1..] == ByDate(history, ds[1..]);
    }
  }

  /** One more record adds one to the total for each listing of its date. */
  lemma {:induction false} OnDatesAppend(history: seq<Rec>, r: Rec, ds: seq<string>)
    ensures OnDates(history + [r], ds) == OnDates(history, ds) + Seqs.Count(ds, r.date)
  {
    assert (history + [r])[..|history|] == history;
    if |ds| > 0 {
      OnDatesAppend(history, r, ds[1..]);
    }
  }

  lemma {:induction false} CountDistinctMember(ds: seq<string>, x: string)
    requires Seqs.Distinct(ds) && x in ds
    ensures Seqs.Count(ds, x) == 1
  {
    if ds[0] == x {
      assert x !in ds[1..] by {
        forall k | 0 <= k < |ds| - 1 ensures ds[1..][k] != x {
          assert ds[1..][k] == ds[k + 1];
        }
      }
    } else {
      assert Seqs.Distinct(ds[1..]) by {
        forall i, j | 0 <= i < j < |ds| - 1 ensures ds[1..][i] != ds[1..][j] {
          assert ds[1..][i] == ds[i + 1] && ds[1..][j] == ds[j + 1];
        }
      }
      assert x in ds[1..] by {
        var k :| 0 <= k < |ds| && ds[k] == x;
        assert ds[1..][k - 1] == x;
      }
      CountDistinctMember(ds[1..], x);
    }
  }

  /** Over distinct dates that include every record's date, the per-date
      totals add up to the number of records. */
  lemma {:induction false} OnDatesCoversAll(history: seq<Rec>, ds: seq<string>)
    requires Seqs.Distinct(ds)
    requires forall i :: 0 <= i < |history| ==> history[i].date in ds
    ensures OnDates(history, ds) == |history|
  {
    if |history| == 0 {
      OnDatesEmpty(ds);
    } else {
      var init := history[..|history| - 1];
      var last := history[|history| - 1];
      assert forall i :: 0 <= i < |init| ==> init[i] == history[i];
      OnDatesCoversAll(init, ds);
      assert init + [last] == history;
      OnDatesAppend(init, last, ds);
      CountDistinctMember(ds, last.date);
    }
  }

  lemma {:induction false} OnDatesEmpty(ds: seq<string>)
    ensures OnDates([], ds) == 0
  {
    if |ds| > 0 {
      OnDatesEmpty(ds[1..]);
    }
  }

  /** `attendanceByDate` accounts for every record exactly once: its total
      counts add up to the number of records, and there is one count per
      class date. */
  lemma ByDateAccountsForAll(history: seq<Rec>)
    ensures |ByDate(history, UniqueDates(history))| == TotalClasses(history)
    ensures SumTotals(ByDate(history, UniqueDates(history))) == |history|
  {
    var ds := UniqueDates(history);
    SumTotalsByDate(history, ds);
    forall i | 0 <= i < |history| ensures history[i].date in ds { }
    OnDatesCoversAll(history, ds);
  }
}
