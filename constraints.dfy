/** `generateConstraints` of src/scheduler.js: a weekly availability table
    (one list of time ranges per weekday, Monday first) is sorted and merged per
    day, then laid out on every calendar day from the search start to its end. */
module Constraints {
  import opened Intervals
  import opened Merging

  /** Each weekday's ranges, sorted and merged. */
  function DayTable(week: seq<seq<Slot>>): (t: seq<seq<Slot>>)
    ensures |t| == |week|
    ensures forall d :: 0 <= d < |week| ==> t[d] == Merged(SortSlots(week[d]))
  {
    seq(|week|, d requires 0 <= d < |week| => Merged(SortSlots(week[d])))
  }

  /** The ranges of one weekday placed on the calendar day of `date`. */
  function OnDay(date: Timestamp, ranges: seq<Slot>): (r: seq<Slot>)
    ensures |r| == |ranges|
    ensures forall k :: 0 <= k < |ranges| ==> r[k] == Place(date, ranges[k])
  {
    seq(|ranges|, k requires 0 <= k < |ranges| => Place(date, ranges[k]))
  }

  function Place(date: Timestamp, range: Slot): Slot
  {
    Slot(Combine(date, range.start), Combine(date, range.end))
  }

  /** No weekday has any range: the `flat(1) < 1` guard. */
  predicate AllEmpty(week: seq<seq<Slot>>)
  {
    forall d :: 0 <= d < |week| ==> |week[d]| == 0
  }

  /** Appending after a prefix, through a possible error. */
  function Then(res: seq<Slot>, w: Option<seq<Slot>>): Option<seq<Slot>>
  {
    match w
    case None => None
    case Some(rest) => Some(res + rest)
  }

  /** The day-by-day walk from `cur` while `cur <= end`; `None` is the TypeError
      raised when the weekday of a visited day has no entry in the table. */
  function Walk(table: seq<seq<Slot>>, cur: Timestamp, end: Timestamp): Option<seq<Slot>>
    decreases end - cur
  {
    if cur > end then Some([])
    else if Weekday(cur) >= |table| then None
    else Then(OnDay(cur, table[Weekday(cur)]), Walk(table, cur + DaySeconds, end))
  }

  /** What `generateConstraints(week, start, end)` returns, `None` standing for the TypeError. */
  function Constraints(week: seq<seq<Slot>>, start: Timestamp, end: Timestamp): Option<seq<Slot>>
  {
    if |week| < 1 || AllEmpty(week) then Some([]) else Walk(DayTable(week), start, end)
  }

  /** `generateConstraints(week, start, end)`. */
  method GenerateConstraints(week: seq<seq<Slot>>, start: Timestamp, end: Timestamp)
    returns (r: Option<seq<Slot>>)
    ensures r == Constraints(week, start, end)
  {
    if |week| < 1 || AllEmpty(week) {
      return Some([]);
    }
    var table := MergeDays(week);
    var cur := start;
    var day := Weekday(start);
    var res: seq<Slot> := [];
    assert Then(res, Walk(table, cur, end)) == Walk(table, start, end) by {
      if Walk(table, start, end).Some? {
        assert [] + Walk(table, start, end).value == Walk(table, start, end).value;
      }
    }
    while cur <= end
      invariant day == Weekday(cur)
      invariant Then(res, Walk(table, cur, end)) == Walk(table, start, end)
      decreases end - cur
    {
      WalkStep(table, cur, end);
      if day >= |table| {
        return None;
      }
      ghost var before := res;
      res := PlaceDay(res, cur, table[day]);
      ThenAssoc(before, OnDay(cur, table[day]), Walk(table, cur + DaySeconds, end));
      WeekdayNextDay(cur);
      day := (day + 1) % 7;
      cur := cur + DaySeconds;
    }
    assert res + [] == res;
    return Some(res);
  }

  /** The `forEach` over one weekday's ranges: each is placed on `date` and
      pushed onto `res0`. */
  method PlaceDay(res0: seq<Slot>, date: Timestamp, slots: seq<Slot>) returns (res: seq<Slot>)
    ensures res == res0 + OnDay(date, slots)
  {
    res := res0;
    for k := 0 to |slots|
      invariant res == res0 + OnDay(date, slots)[..k]
    {
      assert OnDay(date, slots)[..k + 1] == OnDay(date, slots)[..k] + [Place(date, slots[k])];
      res := res + [Place(date, slots[k])];
    }
    assert OnDay(date, slots)[..|slots|] == OnDay(date, slots);
  }

  /** The `weekAvailability.map(...)` step: each day sorted, then merged. */
  method MergeDays(week: seq<seq<Slot>>) returns (table: seq<seq<Slot>>)
    ensures table == DayTable(week)
  {
    table := [];
    for d := 0 to |week|
      invariant table == DayTable(week)[..d]
    {
      var merged := Merge(SortSlots(week[d]));
      assert DayTable(week)[..d + 1] == DayTable(week)[..d] + [merged];
      table := table + [merged];
    }
    assert DayTable(week)[..|week|] == DayTable(week);
  }

  lemma ThenAssoc(a: seq<Slot>, b: seq<Slot>, w: Option<seq<Slot>>)
    ensures Then(a, Then(b, w)) == Then(a + b, w)
  {
    if w.Some? {
      assert a + (b + w.value) == (a + b) + w.value;
    }
  }

  /** With an entry for every weekday the walk never fails. */
  lemma {:induction false} WalkTotal(table: seq<seq<Slot>>, cur: Timestamp, end: Timestamp)
    requires |table| >= 7
    ensures Walk(table, cur, end).Some?
    decreases end - cur
  {
    if cur <= end {
      WalkTotal(table, cur + DaySeconds, end);
    }
  }

  /** A table with all seven weekdays always yields constraints. */
  lemma ConstraintsTotal(week: seq<seq<Slot>>, start: Timestamp, end: Timestamp)
    requires |week| >= 7
    ensures Constraints(week, start, end).Some?
  {
    WalkTotal(DayTable(week), start, end);
  }

  /** A table whose every weekday is empty lays out nothing. */
  lemma {:induction false} WalkEmpty(table: seq<seq<Slot>>, cur: Timestamp, end: Timestamp)
    requires |table| >= 7
    requires forall d :: 0 <= d < |table| ==> table[d] == []
    ensures Walk(table, cur, end) == Some([])
    decreases end - cur
  {
    if cur <= end {
      WalkEmpty(table, cur + DaySeconds, end);
      WalkStep(table, cur, end);
      assert OnDay(cur, table[Weekday(cur)]) + [] == [];
    }
  }

  /** With all seven weekdays present, the empty-availability guard is only a
      shortcut: the day-by-day walk of the merged table gives the same result. */
  lemma GuardIsShortcut(week: seq<seq<Slot>>, start: Timestamp, end: Timestamp)
    requires |week| >= 7
    ensures Constraints(week, start, end) == Walk(DayTable(week), start, end)
  {
    if AllEmpty(week) {
      var t := DayTable(week);
      forall d | 0 <= d < |t| ensures t[d] == [] {
        assert week[d] == [];
        assert SortSlots([]) == [];
        assert Merged([]) == [];
      }
      WalkEmpty(t, start, end);
    }
  }

  /** One step of the walk from a day not after `end`. */
  lemma WalkStep(table: seq<seq<Slot>>, cur: Timestamp, end: Timestamp)
    requires cur <= end
    ensures Weekday(cur) >= |table| ==> Walk(table, cur, end) == None
    ensures Weekday(cur) < |table| ==>
              Walk(table, cur, end) == Then(OnDay(cur, table[Weekday(cur)]), Walk(table, cur + DaySeconds, end))
  {
  }

  /** `x` is range `k` of the weekday of `c`, placed on `c`'s calendar day. */
  predicate PlacedOn(table: seq<seq<Slot>>, c: Timestamp, k: int, x: Slot)
  {
    Weekday(c) < |table| && 0 <= k < |table[Weekday(c)]| && x == Place(c, table[Weekday(c)][k])
  }

  /** The walk visits the days `cur + n` days, `n >= 0`, up to `end`: it fails
      exactly when one of them has no table entry, and otherwise yields exactly
      the ranges of each visited day's weekday placed on that day. */
  lemma {:induction false} WalkExact(table: seq<seq<Slot>>, cur: Timestamp, end: Timestamp)
    ensures Walk(table, cur, end).None? <==>
            exists n: nat :: DayAfter(cur, n) <= end && Weekday(DayAfter(cur, n)) >= |table|
    ensures Walk(table, cur, end).Some? ==>
            forall x :: x in Walk(table, cur, end).value <==>
              exists n: nat, k :: DayAfter(cur, n) <= end && PlacedOn(table, DayAfter(cur, n), k, x)
    decreases end - cur
  {
    var next := cur + DaySeconds;
    if cur > end {
      forall n: nat ensures DayAfter(cur, n) > end {
      }
    } else {
      WalkExact(table, next, end);
      if Weekday(cur) >= |table| {
        assert DayAfter(cur, 0) == cur;
      } else {
        var w := Walk(table, cur, end);
        var row := table[Weekday(cur)];
        if Walk(table, next, end).None? {
          var n: nat :| DayAfter(next, n) <= end && Weekday(DayAfter(next, n)) >= |table|;
          assert DayAfter(next, n) == DayAfter(cur, n + 1);
        } else {
          forall n: nat | DayAfter(cur, n) <= end ensures Weekday(DayAfter(cur, n)) < |table| {
            if n > 0 {
              assert DayAfter(next, n - 1) == DayAfter(cur, n);
            } else {
              assert DayAfter(cur, n) == cur;
            }
          }
          var rest := Walk(table, next, end).value;
          assert w.value == OnDay(cur, row) + rest;
          forall x ensures x in w.value <==>
              exists n: nat, k :: DayAfter(cur, n) <= end && PlacedOn(table, DayAfter(cur, n), k, x)
          {
            if x in OnDay(cur, row) {
              var k :| 0 <= k < |row| && OnDay(cur, row)[k] == x;
              assert DayAfter(cur, 0) == cur;
              assert PlacedOn(table, DayAfter(cur, 0), k, x);
            } else if x in rest {
              var n: nat, k :| DayAfter(next, n) <= end && PlacedOn(table, DayAfter(next, n), k, x);
              assert DayAfter(next, n) == DayAfter(cur, n + 1);
              assert PlacedOn(table, DayAfter(cur, n + 1), k, x);
            }
            if exists n: nat, k :: DayAfter(cur, n) <= end && PlacedOn(table, DayAfter(cur, n), k, x) {
              var n: nat, k :| DayAfter(cur, n) <= end && PlacedOn(table, DayAfter(cur, n), k, x);
              if n == 0 {
                assert DayAfter(cur, n) == cur;
                assert OnDay(cur, row)[k] == x;
              } else {
                assert DayAfter(next, n - 1) == DayAfter(cur, n);
                assert PlacedOn(table, DayAfter(next, n - 1), k, x);
              }
            }
          }
        }
      }
    }
  }

  /** Ranges lying on the calendar day that starts at `dayStart`, each ordered. */
  predicate OnOneDay(ranges: seq<Slot>, dayStart: Timestamp)
  {
    forall k :: 0 <= k < |ranges| ==>
      dayStart <= ranges[k].start <= ranges[k].end < dayStart + DaySeconds
  }

  /** Sorting and merging keep a day's ranges on that day, and separate them. */
  lemma TableRow(ranges: seq<Slot>, dayStart: Timestamp)
    requires OnOneDay(ranges, dayStart)
    ensures OnOneDay(Merged(SortSlots(ranges)), dayStart)
    ensures Separated(Merged(SortSlots(ranges)))
  {
    var sorted := SortSlots(ranges);
    forall k | 0 <= k < |sorted|
      ensures dayStart <= sorted[k].start <= sorted[k].end < dayStart + DaySeconds
    {
      assert sorted[k] in multiset(ranges);
      var i :| 0 <= i < |ranges| && ranges[i] == sorted[k];
    }
    MergedWithin(sorted, dayStart);
    MergedSeparated(sorted);
  }

  /** Merging keeps ranges of one day on that day. */
  lemma {:induction false} MergedWithin(ranges: seq<Slot>, dayStart: Timestamp)
    requires OnOneDay(ranges, dayStart)
    ensures OnOneDay(Merged(ranges), dayStart)
    decreases |ranges|
  {
    if |ranges| > 0 {
      var n := |ranges| - 1;
      assert OnOneDay(ranges[..n], dayStart) by {
        forall k | 0 <= k < n ensures ranges[..n][k] == ranges[k] {
        }
      }
      MergedWithin(ranges[..n], dayStart);
      MergeIntoGrows(Merged(ranges[..n]), ranges[n]);
    }
  }

  /** On one day, `combine` keeps the order of times. */
  lemma CombineMonotone(c: Timestamp, a: Timestamp, b: Timestamp, dayStart: Timestamp)
    requires dayStart % DaySeconds == 0
    requires dayStart <= a <= b < dayStart + DaySeconds
    ensures Combine(c, a) <= Combine(c, b)
  {
    ModOfDayStart(dayStart / DaySeconds, a - dayStart);
    ModOfDayStart(dayStart / DaySeconds, b - dayStart);
    assert MinuteOfDay(a) == (a - dayStart) / 60;
    assert MinuteOfDay(b) == (b - dayStart) / 60;
  }

  /** A separated row of one day, placed on any date, is well formed and lies on that date. */
  lemma OnDayWellFormed(c: Timestamp, row: seq<Slot>, dayStart: Timestamp)
    requires dayStart % DaySeconds == 0
    requires OnOneDay(row, dayStart) && Separated(row)
    ensures WellFormed(OnDay(c, row))
    ensures OnOneDay(OnDay(c, row), StartOfDay(c))
  {
    var r := OnDay(c, row);
    forall k | 0 <= k < |r| ensures r[k].start <= r[k].end {
      CombineMonotone(c, row[k].start, row[k].end, dayStart);
    }
    forall k | 0 <= k < |r| - 1 ensures r[k].end <= r[k + 1].start {
      CombineMonotone(c, row[k].end, row[k + 1].start, dayStart);
    }
  }

  lemma AppendWellFormed(a: seq<Slot>, b: seq<Slot>)
    requires WellFormed(a) && WellFormed(b)
    requires |a| > 0 && |b| > 0 ==> a[|a| - 1].end <= b[0].start
    ensures WellFormed(a + b)
  {
    var r := a + b;
    forall k | 0 <= k < |r| - 1 ensures r[k].end <= r[k + 1].start {
      if k + 1 < |a| {
        assert r[k] == a[k] && r[k + 1] == a[k + 1];
      } else if k + 1 == |a| {
        assert r[k] == a[k] && r[k + 1] == b[0];
      } else {
        assert r[k] == b[k - |a|] && r[k + 1] == b[k - |a| + 1];
      }
    }
  }

  /** When every table row lies on one day, the walk yields a well-formed
      sequence, every slot on or after the first visited day. */
  lemma {:induction false} WalkWellFormed(table: seq<seq<Slot>>, cur: Timestamp, end: Timestamp, dayStart: Timestamp)
    requires dayStart % DaySeconds == 0
    requires forall d :: 0 <= d < |table| ==> OnOneDay(table[d], dayStart) && Separated(table[d])
    ensures Walk(table, cur, end).Some? ==> WellFormed(Walk(table, cur, end).value)
    ensures Walk(table, cur, end).Some? ==>
              forall x :: x in Walk(table, cur, end).value ==> StartOfDay(cur) <= x.start
    decreases end - cur
  {
    if cur <= end && Weekday(cur) < |table| && Walk(table, cur + DaySeconds, end).Some? {
      var row := table[Weekday(cur)];
      var here := OnDay(cur, row);
      var rest := Walk(table, cur + DaySeconds, end).value;
      WalkWellFormed(table, cur + DaySeconds, end, dayStart);
      OnDayWellFormed(cur, row, dayStart);
      WeekdayNextDay(cur);
      if |here| > 0 && |rest| > 0 {
        assert rest[0] in rest;
      }
      AppendWellFormed(here, rest);
      forall x | x in here + rest ensures StartOfDay(cur) <= x.start {
        if x in here {
          var k :| 0 <= k < |here| && here[k] == x;
        }
      }
    }
  }

  /** When every availability range lies ordered on one calendar day, the
      constraints form a well-formed slot list, as `_schedule` expects. */
  lemma ConstraintsWellFormed(week: seq<seq<Slot>>, start: Timestamp, end: Timestamp, today: Timestamp)
    requires forall d :: 0 <= d < |week| ==> OnOneDay(week[d], StartOfDay(today))
    ensures Constraints(week, start, end).Some? ==> WellFormed(Constraints(week, start, end).value)
  {
    var table := DayTable(week);
    forall d | 0 <= d < |table| ensures OnOneDay(table[d], StartOfDay(today)) && Separated(table[d]) {
      TableRow(week[d], StartOfDay(today));
    }
    WalkWellFormed(table, start, end, StartOfDay(today));
  }

  /** The case of test/scheduler.test.js:74-78: Monday to Friday 08:30-19:00,
      searched from the start of 2020-10-14 (a Wednesday) to the start of the
      next day, gives those hours on both days. */
  lemma WorkingHoursScenario()
    ensures var day1 := 18549 * DaySeconds;
            var r := [Slot(30600, 68400)];
            Constraints([r, r, r, r, r, [], []], day1, day1 + DaySeconds) ==
              Some([Slot(day1 + 30600, day1 + 68400), Slot(day1 + DaySeconds + 30600, day1 + DaySeconds + 68400)])
  {
    var r := [Slot(30600, 68400)];
    var week := [r, r, r, r, r, [], []];
    var day1 := 18549 * DaySeconds;
    assert SortSlots(r) == r by {
      assert SortSlots(r[1..]) == [];
    }
    assert Merged(r) == r by {
      assert r[..0] == [];
    }
    var t := DayTable(week);
    assert t[2] == r && t[3] == r by {
      assert week[2] == r && week[3] == r;
    }
    assert !AllEmpty(week) by {
      assert |week[0]| == 1;
    }
    assert Constraints(week, day1, day1 + DaySeconds) == Walk(t, day1, day1 + DaySeconds);
    ScenarioWalk(t);
  }

  lemma ScenarioWalk(table: seq<seq<Slot>>)
    requires |table| == 7 && table[2] == [Slot(30600, 68400)] && table[3] == [Slot(30600, 68400)]
    ensures var day1 := 18549 * DaySeconds;
            Walk(table, day1, day1 + DaySeconds) ==
              Some([Slot(day1 + 30600, day1 + 68400), Slot(day1 + DaySeconds + 30600, day1 + DaySeconds + 68400)])
  {
    var day1 := 18549 * DaySeconds;
    var day2 := day1 + DaySeconds;
    var r := [Slot(30600, 68400)];
    assert Weekday(day1) == 2 && Weekday(day2) == 3;
    var here1 := Slot(day1 + 30600, day1 + 68400);
    var here2 := Slot(day2 + 30600, day2 + 68400);
    assert OnDay(day1, r) == [here1] by {
      assert Place(day1, r[0]) == here1;
    }
    assert OnDay(day2, r) == [here2] by {
      assert Place(day2, r[0]) == here2;
    }
    assert Walk(table, day2 + DaySeconds, day2) == Some([]);
    WalkStep(table, day2, day2);
    assert [here2] + [] == [here2];
    WalkStep(table, day1, day2);
    assert [here1] + [here2] == [here1, here2];
  }
}
