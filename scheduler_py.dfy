/** `Scheduler.schedule` and `Scheduler.busy_to_free` of the Python port
    (src/scheduler.py).  `Scheduler.intersects` is the same computation as the
    JavaScript `intersection` and is `Intervals.Intersection`. */
module SchedulerPy {
  import opened Intervals
  import opened Sweep
  import SchedulerJs

  /** What `schedule` computes: the reduction seeded with the first list and run
      over the remaining ones only, then every window turned into its start
      range.  An empty outer list fails at `[0]` (an `IndexError`): `None`. */
  function Scheduled(lists: seq<seq<Slot>>, d: Duration): Option<seq<Slot>>
  {
    if |lists| == 0 then None else Some(ShiftEnd(Reduce(lists[0], lists[1..], d), d))
  }

  /** `schedule(everyones_free_datetimes, duration_of_event)`. */
  method Schedule(lists: seq<seq<Slot>>, d: Duration) returns (r: Option<seq<Slot>>)
    ensures r == Scheduled(lists, d)
    ensures r.None? <==> |lists| == 0
    ensures |lists| == 1 ==> r == Some(ShiftEnd(lists[0], d))
    ensures r.Some? ==> forall x :: x in r.value ==>
              (|lists| > 1 ==> x.start <= x.end) &&
              forall p :: 0 <= p < |lists| ==> InsideSome(Slot(x.start, x.end + d), lists[p])
  {
    if |lists| == 0 {
      return None;
    }
    var ans := lists[0];
    var rest := lists[1..];
    for p := 0 to |rest|
      invariant Reduce(ans, rest[p..], d) == Reduce(lists[0], rest, d)
    {
      assert rest[p..][0] == rest[p] && rest[p..][1..] == rest[p + 1..];
      ans := SweepLists(ans, rest[p], d);
    }
    assert rest[|rest|..] == [];
    r := Some(ShiftEnd(ans, d));
    ScheduledSound(lists, d);
  }

  /** Every start range leaves room for the meeting inside a free slot of every
      list, and is ordered once at least two lists were intersected. */
  lemma ScheduledSound(lists: seq<seq<Slot>>, d: Duration)
    requires |lists| > 0
    ensures forall x :: x in Scheduled(lists, d).value ==>
              (|lists| > 1 ==> x.start <= x.end) &&
              forall p :: 0 <= p < |lists| ==> InsideSome(Slot(x.start, x.end + d), lists[p])
  {
    var ans := Reduce(lists[0], lists[1..], d);
    var rs := ShiftEnd(ans, d);
    assert Scheduled(lists, d).value == rs;
    ReducedFits(lists, d);
    forall x | x in rs
      ensures |lists| > 1 ==> x.start <= x.end
      ensures forall p :: 0 <= p < |lists| ==> InsideSome(Slot(x.start, x.end + d), lists[p])
    {
      var k :| 0 <= k < |rs| && rs[k] == x;
      assert ans[k] in ans && ans[k] == Slot(x.start, x.end + d);
    }
  }

  /** Every window of the reduction lies inside a slot of every list, and is at
      least `d` long once two lists were intersected. */
  lemma ReducedFits(lists: seq<seq<Slot>>, d: Duration)
    requires |lists| > 0
    ensures forall w :: w in Reduce(lists[0], lists[1..], d) ==>
              (|lists| > 1 ==> w.start + d <= w.end) &&
              forall p :: 0 <= p < |lists| ==> InsideSome(w, lists[p])
  {
    var rest := lists[1..];
    ReduceSound(lists[0], rest, d);
    forall w, p | w in Reduce(lists[0], rest, d) && 0 <= p < |lists| ensures InsideSome(w, lists[p]) {
      if p > 0 {
        assert lists[p] == rest[p - 1];
      }
    }
  }

  /** The meaning of the result: for well-formed lists and a non-negative
      duration, a meeting may start at `t` in a returned range exactly when it
      fits in a free slot of every list. */
  lemma {:induction false} ScheduledExact(lists: seq<seq<Slot>>, d: Duration, t: Timestamp)
    requires |lists| > 0 && d >= 0
    requires SchedulerJs.AllWellFormed(lists)
    ensures Scheduled(lists, d).Some?
    ensures StartsAt(t, Scheduled(lists, d).value) <==> SchedulerJs.FitsEverywhere(t, d, lists)
  {
    var rest := lists[1..];
    var ws := Reduce(lists[0], rest, d);
    ShiftEndStarts(ws, d, t);
    if FitsIn(t, d, ws) {
      var n :| 0 <= n < |ws| && Fits(t, d, ws[n]);
      ReduceSound(lists[0], rest, d);
      assert ws[n] in ws;
      forall p | 0 <= p < |lists| ensures FitsIn(t, d, lists[p]) {
        var s := if p == 0 then lists[0] else rest[p - 1];
        assert s == lists[p];
        var k :| 0 <= k < |s| && Inside(ws[n], s[k]);
        SchedulerJs.FitsInside(t, d, ws[n], s[k]);
      }
    }
    if SchedulerJs.FitsEverywhere(t, d, lists) {
      assert FitsIn(t, d, lists[0]);
      forall p | 0 <= p < |rest| ensures WellFormed(rest[p]) && FitsIn(t, d, rest[p]) {
        assert rest[p] == lists[p + 1];
      }
      ReduceComplete(lists[0], rest, d, t);
    }
  }

  /** The two ports permit the same start times, although the JavaScript one
      also intersects the first list with itself. */
  lemma PortsAgree(lists: seq<seq<Slot>>, d: Duration, t: Timestamp)
    requires |lists| > 0 && d >= 0
    requires SchedulerJs.AllWellFormed(lists)
    ensures StartsAt(t, Scheduled(lists, d).value) <==>
            StartsAt(t, SchedulerJs.Scheduled(lists, Some(d), []).value)
  {
    assert lists + [] == lists;
    ScheduledExact(lists, d, t);
    SchedulerJs.ScheduledExact(lists, d, [], t);
  }

  /** The two ports return different lists for a single participant whose only
      slot is shorter than the meeting: Python hands the slot back with its end
      moved before its start, JavaScript drops it. */
  lemma PortsDifferOnOneList()
    ensures Scheduled([[Slot(0, 1800)]], 3600) == Some([Slot(0, -1800)])
    ensures SchedulerJs.Scheduled([[Slot(0, 1800)]], Some(3600), []) == Some([])
  {
    var a := [Slot(0, 1800)];
    assert [a][1..] == [];
    assert Reduce(a, [a][1..], 3600) == a;
    assert ShiftEnd(a, 3600)[0] == Slot(0, -1800);
    assert ShiftEnd(a, 3600) == [Slot(0, -1800)];
    assert Intersect(a, a, 3600) == [];
    assert [a] + [] == [a];
    assert Reduce(a, [a], 3600) == Reduce([], [], 3600);
  }

  /** The free periods `busy_to_free` derives for one schedule, from cursor
      `begin` on: the first busy event ending after `end` stops the walk; a gap
      before an event is emitted, and the cursor moved to the event's end, only
      when the cursor is before the event's start; the rest up to `end` closes
      the list when it is not empty. */
  function Gaps(events: seq<Slot>, begin: Timestamp, end: Timestamp): seq<Slot>
    decreases |events|
  {
    if |events| == 0 || events[0].end > end then
      if begin < end then [Slot(begin, end)] else []
    else if begin < events[0].start then
      [Slot(begin, events[0].start)] + Gaps(events[1..], events[0].end, end)
    else
      Gaps(events[1..], begin, end)
  }

  /** `busy_to_free(schedules, start_datetime, end_datetime)`. */
  method BusyToFree(schedules: seq<seq<Slot>>, start: Timestamp, end: Timestamp) returns (ans: seq<seq<Slot>>)
    ensures |ans| == |schedules|
    ensures forall k :: 0 <= k < |schedules| ==> ans[k] == Gaps(schedules[k], start, end)
  {
    ans := [];
    for p := 0 to |schedules|
      invariant |ans| == p
      invariant forall k :: 0 <= k < p ==> ans[k] == Gaps(schedules[k], start, end)
    {
      var schedule := schedules[p];
      var begin := start;
      var free := [];
      var n := 0;
      while n < |schedule|
        invariant 0 <= n <= |schedule|
        invariant free + Gaps(schedule[n..], begin, end) == Gaps(schedule, start, end)
      {
        var busy := schedule[n];
        assert schedule[n..][0] == busy && schedule[n..][1..] == schedule[n + 1..];
        if busy.end > end {
          break;
        }
        if begin < busy.start {
          free := free + [Slot(begin, busy.start)];
          begin := busy.end;
        }
        n := n + 1;
      }
      if begin < end {
        free := free + [Slot(begin, end)];
      }
      assert free == Gaps(schedule, start, end);
      ans := ans + [free];
    }
  }

  /** Every busy event is ordered. */
  predicate EventsOrdered(events: seq<Slot>)
  {
    forall k :: 0 <= k < |events| ==> events[k].start <= events[k].end
  }

  /** Given ordered events, every emitted free period is non-empty, lies within
      `[begin, end]`, and the periods are increasing. */
  lemma {:induction false} GapsShape(events: seq<Slot>, begin: Timestamp, end: Timestamp)
    requires EventsOrdered(events)
    ensures WellFormed(Gaps(events, begin, end))
    ensures forall x :: x in Gaps(events, begin, end) ==> begin <= x.start < x.end <= end
    decreases |events|
  {
    if |events| == 0 || events[0].end > end {
    } else if begin < events[0].start {
      var e := events[0];
      assert EventsOrdered(events[1..]) by {
        forall k | 0 <= k < |events[1..]| ensures events[1..][k].start <= events[1..][k].end {
          assert events[1..][k] == events[k + 1];
        }
      }
      GapsShape(events[1..], e.end, end);
      var rest := Gaps(events[1..], e.end, end);
      if |rest| > 0 {
        assert rest[0] in rest;
      }
      Sweep.PrependWellFormed(Slot(begin, e.start), rest);
    } else {
      assert EventsOrdered(events[1..]) by {
        forall k | 0 <= k < |events[1..]| ensures events[1..][k].start <= events[1..][k].end {
          assert events[1..][k] == events[k + 1];
        }
      }
      GapsShape(events[1..], begin, end);
    }
  }

  /** The scenario of test/scheduler.test.js:68-72 (in hours): busy 10-12, 13-15,
      16-18, 19-21 and 22-24 in the window 9-22 leave 9-10, 12-13, 15-16, 18-19
      and 21-22 free. */
  lemma BusyToFreeScenario()
    ensures Gaps([Slot(10, 12), Slot(13, 15), Slot(16, 18), Slot(19, 21), Slot(22, 24)], 9, 22)
            == [Slot(9, 10), Slot(12, 13), Slot(15, 16), Slot(18, 19), Slot(21, 22)]
  {
    var e := [Slot(10, 12), Slot(13, 15), Slot(16, 18), Slot(19, 21), Slot(22, 24)];
    assert Gaps(e[4..], 21, 22) == [Slot(21, 22)];
    assert Gaps(e[3..], 18, 22) == [Slot(18, 19), Slot(21, 22)];
    assert Gaps(e[2..], 15, 22) == [Slot(15, 16), Slot(18, 19), Slot(21, 22)];
    assert Gaps(e[1..], 12, 22) == [Slot(12, 13), Slot(15, 16), Slot(18, 19), Slot(21, 22)];
  }

  /** As written, back-to-back events leak: after 10-12 the cursor is 12, the
      event 12-13 does not start after it, so the cursor stays at 12 and the next
      gap 12-14 overlaps the busy event 12-13. */
  lemma BackToBackEventsLeak()
    ensures Gaps([Slot(10, 12), Slot(12, 13), Slot(14, 15)], 9, 16)
            == [Slot(9, 10), Slot(12, 14), Slot(15, 16)]
  {
    var e := [Slot(10, 12), Slot(12, 13), Slot(14, 15)];
    assert Gaps(e[3..], 15, 16) == [Slot(15, 16)];
    assert Gaps(e[2..], 12, 16) == [Slot(12, 14), Slot(15, 16)];
    assert Gaps(e[1..], 12, 16) == [Slot(12, 14), Slot(15, 16)];
  }

  /** As written, an event that straddles `end` stops the walk before it is
      considered, so the closing period 9-22 overlaps the busy event 20-23. */
  lemma StraddlingEventLeak()
    ensures Gaps([Slot(20, 23)], 9, 22) == [Slot(9, 22)]
  {
  }

  /** Free periods with the cursor always moved past each event and each event
      clipped at `end`: the complement of the events within `[begin, end)`. */
  function ComplementGaps(events: seq<Slot>, begin: Timestamp, end: Timestamp): seq<Slot>
    decreases |events|
  {
    if |events| == 0 then
      if begin < end then [Slot(begin, end)] else []
    else
      var cut := Min(events[0].start, end);
      (if begin < cut then [Slot(begin, cut)] else []) +
      ComplementGaps(events[1..], Max(begin, events[0].end), end)
  }

  /** Events sorted by start. */
  predicate SortedByStart(events: seq<Slot>)
  {
    forall i, k :: 0 <= i < k < |events| ==> events[i].start <= events[k].start
  }

  /** Every instant of `[begin, end)` is in a free period or a busy event. */
  lemma {:induction false} ComplementCovers(events: seq<Slot>, begin: Timestamp, end: Timestamp, t: Timestamp)
    requires begin <= t < end
    ensures (exists x :: x in ComplementGaps(events, begin, end) && x.start <= t < x.end) ||
            (exists k :: 0 <= k < |events| && events[k].start <= t < events[k].end)
    decreases |events|
  {
    if |events| > 0 {
      var e := events[0];
      var cut := Min(e.start, end);
      var here := if begin < cut then [Slot(begin, cut)] else [];
      var rest := ComplementGaps(events[1..], Max(begin, e.end), end);
      assert ComplementGaps(events, begin, end) == here + rest;
      if t < cut {
        var x := Slot(begin, cut);
        assert here == [x];
        assert x in here + rest && x.start <= t < x.end;
      } else if t < e.end {
        assert events[0].start <= t < events[0].end;
      } else {
        ComplementCovers(events[1..], Max(begin, e.end), end, t);
        if exists k :: 0 <= k < |events[1..]| && events[1..][k].start <= t < events[1..][k].end {
          var k :| 0 <= k < |events[1..]| && events[1..][k].start <= t < events[1..][k].end;
          assert events[k + 1] == events[1..][k];
        } else {
          var x :| x in rest && x.start <= t < x.end;
          assert x in here + rest;
        }
      }
    } else {
      assert Slot(begin, end) in ComplementGaps(events, begin, end);
    }
  }

  /** For sorted events, no free period overlaps a busy event, and every free
      period is non-empty and lies within `[begin, end]`. */
  lemma {:induction false} ComplementDisjoint(events: seq<Slot>, begin: Timestamp, end: Timestamp)
    requires SortedByStart(events)
    ensures forall x :: x in ComplementGaps(events, begin, end) ==>
              begin <= x.start < x.end <= end &&
              forall k :: 0 <= k < |events| ==> x.end <= events[k].start || events[k].end <= x.start
    decreases |events|
  {
    if |events| > 0 {
      var e := events[0];
      var cut := Min(e.start, end);
      var here := if begin < cut then [Slot(begin, cut)] else [];
      var next := Max(begin, e.end);
      var rest := ComplementGaps(events[1..], next, end);
      assert SortedByStart(events[1..]) by {
        forall i, k | 0 <= i < k < |events[1..]| ensures events[1..][i].start <= events[1..][k].start {
          assert events[1..][i] == events[i + 1] && events[1..][k] == events[k + 1];
        }
      }
      ComplementDisjoint(events[1..], next, end);
      assert ComplementGaps(events, begin, end) == here + rest;
      forall x: Slot | x in here + rest
        ensures begin <= x.start < x.end <= end
        ensures forall k :: 0 <= k < |events| ==> x.end <= events[k].start || events[k].end <= x.start
      {
        if x in here {
          forall k | 0 <= k < |events| ensures x.end <= events[k].start {
          }
        } else {
          assert x in rest;
          forall k | 0 <= k < |events| ensures x.end <= events[k].start || events[k].end <= x.start {
            if k > 0 {
              assert events[k] == events[1..][k - 1];
            }
          }
        }
      }
    }
  }

  /** The corrected walk keeps the scenario of test/scheduler.test.js:68-72 and removes both leaks. */
  lemma ComplementScenarios()
    ensures ComplementGaps([Slot(10, 12), Slot(13, 15), Slot(16, 18), Slot(19, 21), Slot(22, 24)], 9, 22)
            == [Slot(9, 10), Slot(12, 13), Slot(15, 16), Slot(18, 19), Slot(21, 22)]
    ensures ComplementGaps([Slot(10, 12), Slot(12, 13), Slot(14, 15)], 9, 16)
            == [Slot(9, 10), Slot(13, 14), Slot(15, 16)]
    ensures ComplementGaps([Slot(20, 23)], 9, 22) == [Slot(9, 20)]
  {
    var e := [Slot(10, 12), Slot(13, 15), Slot(16, 18), Slot(19, 21), Slot(22, 24)];
    assert ComplementGaps(e[4..], 21, 22) == [Slot(21, 22)];
    assert ComplementGaps(e[3..], 18, 22) == [Slot(18, 19), Slot(21, 22)];
    assert ComplementGaps(e[2..], 15, 22) == [Slot(15, 16), Slot(18, 19), Slot(21, 22)];
    assert ComplementGaps(e[1..], 12, 22) == [Slot(12, 13), Slot(15, 16), Slot(18, 19), Slot(21, 22)];
    var f := [Slot(10, 12), Slot(12, 13), Slot(14, 15)];
    assert ComplementGaps(f[3..], 15, 16) == [Slot(15, 16)];
    assert ComplementGaps(f[2..], 13, 16) == [Slot(13, 14), Slot(15, 16)];
    assert ComplementGaps(f[1..], 12, 16) == [Slot(13, 14), Slot(15, 16)];
    assert ComplementGaps([Slot(20, 23)][1..], 23, 22) == [];
  }
}
