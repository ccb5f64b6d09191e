/** `_schedule` and `_choose` of the JavaScript port (src/scheduler.js). */
module SchedulerJs {
  import opened Intervals
  import opened Sweep

  /** What `_schedule` computes: `null` for a missing list of schedules or a
      missing duration; otherwise the reduction seeded with list 0 and run over
      every list (list 0 included, so it is first intersected with itself), with
      the constraint lists appended after the participants, and every surviving
      window turned into its start range. */
  function Scheduled(schedules: seq<seq<Slot>>, duration: Option<Duration>, constraints: seq<seq<Slot>>)
    : Option<seq<Slot>>
  {
    if |schedules| == 0 || duration.None? then None
    else
      var all := schedules + constraints;
      Some(ShiftEnd(Reduce(all[0], all, duration.value), duration.value))
  }

  /** Every list is well formed (the caller's precondition on schedules). */
  predicate AllWellFormed(lists: seq<seq<Slot>>)
  {
    forall p :: 0 <= p < |lists| ==> WellFormed(lists[p])
  }

  /** A meeting of length `d` starting at `t` fits in a slot of every list. */
  predicate FitsEverywhere(t: Timestamp, d: Duration, lists: seq<seq<Slot>>)
  {
    forall p :: 0 <= p < |lists| ==> FitsIn(t, d, lists[p])
  }

  /** `_schedule(schedules, duration, constraints)`. */
  method Schedule(schedules: seq<seq<Slot>>, duration: Option<Duration>, constraints: seq<seq<Slot>>)
    returns (r: Option<seq<Slot>>)
    ensures r == Scheduled(schedules, duration, constraints)
    ensures r.None? <==> |schedules| == 0 || duration.None?
    ensures r.Some? ==> forall x :: x in r.value ==>
              x.start <= x.end &&
              forall p :: 0 <= p < |schedules + constraints| ==>
                InsideSome(Slot(x.start, x.end + duration.value), (schedules + constraints)[p])
  {
    if |schedules| == 0 || duration.None? {
      return None;
    }
    var d := duration.value;
    var all := schedules;
    if |constraints| > 0 {
      all := schedules + constraints;
    }
    assert all == schedules + constraints;
    var ans := all[0];
    for p := 0 to |all|
      invariant Reduce(ans, all[p..], d) == Reduce(all[0], all, d)
    {
      assert all[p..][0] == all[p] && all[p..][1..] == all[p + 1..];
      ans := SweepLists(ans, all[p], d);
    }
    assert all[|all|..] == [];
    r := Some(ShiftEnd(ans, d));
    ScheduledSound(schedules, d, constraints);
  }

  /** Every start range is ordered and leaves room for the meeting inside a free
      slot of every participant and every constraint. */
  lemma ScheduledSound(schedules: seq<seq<Slot>>, d: Duration, constraints: seq<seq<Slot>>)
    requires |schedules| > 0
    ensures forall x :: x in Scheduled(schedules, Some(d), constraints).value ==>
              x.start <= x.end &&
              forall p :: 0 <= p < |schedules + constraints| ==>
                InsideSome(Slot(x.start, x.end + d), (schedules + constraints)[p])
  {
    var all := schedules + constraints;
    var ans := Reduce(all[0], all, d);
    var rs := ShiftEnd(ans, d);
    assert Scheduled(schedules, Some(d), constraints).value == rs;
    ReduceSound(all[0], all, d);
    forall x | x in rs
      ensures x.start <= x.end
      ensures forall p :: 0 <= p < |all| ==> InsideSome(Slot(x.start, x.end + d), all[p])
    {
      var k :| 0 <= k < |rs| && rs[k] == x;
      assert ans[k] in ans && ans[k] == Slot(x.start, x.end + d);
    }
  }

  lemma FitsInside(t: Timestamp, d: Duration, w: Slot, s: Slot)
    requires Fits(t, d, w) && Inside(w, s)
    ensures Fits(t, d, s)
  {
  }

  /** The meaning of the result: for well-formed lists and a non-negative
      duration, a meeting may start at `t` in one of the returned ranges exactly
      when it fits in a free slot of every participant and every constraint. */
  lemma {:induction false} ScheduledExact(schedules: seq<seq<Slot>>, d: Duration, constraints: seq<seq<Slot>>,
                                          t: Timestamp)
    requires |schedules| > 0 && d >= 0
    requires AllWellFormed(schedules + constraints)
    ensures Scheduled(schedules, Some(d), constraints).Some?
    ensures StartsAt(t, Scheduled(schedules, Some(d), constraints).value) <==>
            FitsEverywhere(t, d, schedules + constraints)
  {
    var all := schedules + constraints;
    var ws := Reduce(all[0], all, d);
    ShiftEndStarts(ws, d, t);
    if FitsIn(t, d, ws) {
      var n :| 0 <= n < |ws| && Fits(t, d, ws[n]);
      ReduceSound(all[0], all, d);
      assert ws[n] in ws;
      forall p | 0 <= p < |all| ensures FitsIn(t, d, all[p]) {
        var k :| 0 <= k < |all[p]| && Inside(ws[n], all[p][k]);
        FitsInside(t, d, ws[n], all[p][k]);
      }
    }
    if FitsEverywhere(t, d, all) {
      assert FitsIn(t, d, all[0]);
      ReduceComplete(all[0], all, d, t);
    }
  }

  /** Constraints are virtual participants: passing a list as a constraint or as
      one more participant gives the same result. */
  lemma ConstraintsAreParticipants(schedules: seq<seq<Slot>>, d: Option<Duration>, constraints: seq<seq<Slot>>)
    requires |schedules| > 0
    ensures Scheduled(schedules, d, constraints) == Scheduled(schedules + constraints, d, [])
  {
    assert schedules + constraints + [] == schedules + constraints;
  }

  /** Order independence: permuting the lists does not change which start times
      are permitted. */
  lemma OrderIndependent(s1: seq<seq<Slot>>, c1: seq<seq<Slot>>, s2: seq<seq<Slot>>, c2: seq<seq<Slot>>,
                         d: Duration, t: Timestamp)
    requires |s1| > 0 && |s2| > 0 && d >= 0
    requires multiset(s1 + c1) == multiset(s2 + c2)
    requires AllWellFormed(s1 + c1)
    ensures AllWellFormed(s2 + c2)
    ensures StartsAt(t, Scheduled(s1, Some(d), c1).value) <==> StartsAt(t, Scheduled(s2, Some(d), c2).value)
  {
    var a1, a2 := s1 + c1, s2 + c2;
    forall p | 0 <= p < |a2| ensures WellFormed(a2[p]) {
      assert a2[p] in multiset(a2);
      var q :| 0 <= q < |a1| && a1[q] == a2[p];
    }
    ScheduledExact(s1, d, c1, t);
    ScheduledExact(s2, d, c2, t);
    if FitsEverywhere(t, d, a1) {
      forall p | 0 <= p < |a2| ensures FitsIn(t, d, a2[p]) {
        assert a2[p] in multiset(a1);
        var q :| 0 <= q < |a1| && a1[q] == a2[p];
      }
    }
    if FitsEverywhere(t, d, a2) {
      forall p | 0 <= p < |a1| ensures FitsIn(t, d, a1[p]) {
        assert a1[p] in multiset(a2);
        var q :| 0 <= q < |a2| && a2[q] == a1[p];
      }
    }
  }

  /** Duration monotonicity: a start time permitted for a longer meeting is
      permitted for a shorter one. */
  lemma DurationMonotone(schedules: seq<seq<Slot>>, constraints: seq<seq<Slot>>, d1: Duration, d2: Duration,
                         t: Timestamp)
    requires |schedules| > 0 && 0 <= d1 <= d2
    requires AllWellFormed(schedules + constraints)
    requires StartsAt(t, Scheduled(schedules, Some(d2), constraints).value)
    ensures StartsAt(t, Scheduled(schedules, Some(d1), constraints).value)
  {
    var all := schedules + constraints;
    ScheduledExact(schedules, d2, constraints, t);
    ScheduledExact(schedules, d1, constraints, t);
    forall p | 0 <= p < |all| ensures FitsIn(t, d1, all[p]) {
      assert FitsIn(t, d2, all[p]);
      var k :| 0 <= k < |all[p]| && Fits(t, d2, all[p][k]);
      assert Fits(t, d1, all[p][k]);
    }
  }

  /** Length of a range, `xs[1].diff(xs[0])`. */
  function Length(x: Slot): int { x.end - x.start }

  /** `k` is the first range of least length: the head of a stable sort by length. */
  predicate FirstShortest(xs: seq<Slot>, k: int)
  {
    0 <= k < |xs| &&
    (forall i :: 0 <= i < |xs| ==> Length(xs[k]) <= Length(xs[i])) &&
    (forall i :: 0 <= i < k ==> Length(xs[k]) < Length(xs[i]))
  }

  /** `_choose(freeTimes)`: `null` for no ranges, otherwise the start of the
      first range of least length. */
  method Choose(freeTimes: seq<Slot>) returns (r: Option<Timestamp>)
    ensures r.None? <==> |freeTimes| == 0
    ensures r.Some? ==> exists k :: FirstShortest(freeTimes, k) && freeTimes[k].start == r.value
  {
    if |freeTimes| == 0 {
      return None;
    }
    var best := 0;
    for i := 1 to |freeTimes|
      invariant 0 <= best < i
      invariant forall n :: 0 <= n < i ==> Length(freeTimes[best]) <= Length(freeTimes[n])
      invariant forall n :: 0 <= n < best ==> Length(freeTimes[best]) < Length(freeTimes[n])
    {
      if Length(freeTimes[i]) < Length(freeTimes[best]) {
        best := i;
      }
    }
    r := Some(freeTimes[best].start);
    assert FirstShortest(freeTimes, best);
  }

  /** The first calendar of the two-participant scenario intersected with itself. */
  lemma SelfSweep(a: seq<Slot>)
    requires a == [Slot(32400, 36000), Slot(43200, 46800), Slot(54000, 57600), Slot(64800, 68400), Slot(75600, 79200)]
    ensures Intersect(a, a, 3600) == a
  {
    assert SweepFrom(a, a, 3600, 4, 4) == [Slot(75600, 79200)];
    assert SweepFrom(a, a, 3600, 3, 3) == [Slot(64800, 68400), Slot(75600, 79200)];
    assert SweepFrom(a, a, 3600, 2, 2) == a[2..];
    assert SweepFrom(a, a, 3600, 1, 1) == a[1..];
    assert SweepFrom(a, a, 3600, 0, 0) == a;
  }

  /** The two calendars of the two-participant scenario intersected. */
  lemma CrossSweep(a: seq<Slot>, b: seq<Slot>)
    requires a == [Slot(32400, 36000), Slot(43200, 46800), Slot(54000, 57600), Slot(64800, 68400), Slot(75600, 79200)]
    requires b == [Slot(32400, 36000), Slot(46800, 50400), Slot(61200, 64800), Slot(75600, 79200)]
    ensures Intersect(a, b, 3600) == [Slot(32400, 36000), Slot(75600, 79200)]
  {
    assert SweepFrom(a, b, 3600, 4, 3) == [Slot(75600, 79200)];
    assert SweepFrom(a, b, 3600, 3, 3) == [Slot(75600, 79200)];
    assert SweepFrom(a, b, 3600, 3, 2) == [Slot(75600, 79200)];
    assert SweepFrom(a, b, 3600, 2, 2) == [Slot(75600, 79200)];
    assert SweepFrom(a, b, 3600, 2, 1) == [Slot(75600, 79200)];
    assert SweepFrom(a, b, 3600, 1, 1) == [Slot(75600, 79200)];
    assert SweepFrom(a, b, 3600, 1, 0) == [Slot(75600, 79200)];
    assert SweepFrom(a, b, 3600, 0, 0) == [Slot(32400, 36000), Slot(75600, 79200)];
  }

  /** The scenario of test/scheduler.test.js:48-52, in seconds on one day:
      two participants, a one-hour meeting, and the start ranges 9:00-9:00 and
      21:00-21:00. */
  lemma TwoParticipantsScenario()
    ensures Scheduled([[Slot(32400, 36000), Slot(43200, 46800), Slot(54000, 57600),
                        Slot(64800, 68400), Slot(75600, 79200)],
                       [Slot(32400, 36000), Slot(46800, 50400), Slot(61200, 64800),
                        Slot(75600, 79200)]], Some(3600), [])
            == Some([Slot(32400, 32400), Slot(75600, 75600)])
  {
    var a := [Slot(32400, 36000), Slot(43200, 46800), Slot(54000, 57600), Slot(64800, 68400), Slot(75600, 79200)];
    var b := [Slot(32400, 36000), Slot(46800, 50400), Slot(61200, 64800), Slot(75600, 79200)];
    SelfSweep(a);
    CrossSweep(a, b);
    assert [a, b] + [] == [a, b];
    assert Reduce(a, [a, b], 3600) == Reduce(a, [b], 3600);
    assert [b][1..] == [];
    var ws := [Slot(32400, 36000), Slot(75600, 79200)];
    assert Reduce(a, [b], 3600) == ws;
    var rs := ShiftEnd(ws, 3600);
    assert rs[0] == Slot(32400, 32400) && rs[1] == Slot(75600, 75600);
    assert rs == [Slot(32400, 32400), Slot(75600, 75600)];
  }

  /** The scenario of test/scheduler.test.js:80-85: the same two participants,
      a half-hour meeting and an 8:30-19:00 working-hours constraint on two days
      leave only the start range 9:00-9:30. */
  lemma ConstraintScenario()
    ensures Scheduled([[Slot(32400, 36000), Slot(43200, 46800), Slot(54000, 57600),
                        Slot(64800, 68400), Slot(75600, 79200)],
                       [Slot(32400, 36000), Slot(46800, 50400), Slot(61200, 64800),
                        Slot(75600, 79200)]], Some(1800),
                      [[Slot(30600, 68400), Slot(117000, 154800)]])
            == Some([Slot(32400, 34200)])
  {
    var a := [Slot(32400, 36000), Slot(43200, 46800), Slot(54000, 57600), Slot(64800, 68400), Slot(75600, 79200)];
    var b := [Slot(32400, 36000), Slot(46800, 50400), Slot(61200, 64800), Slot(75600, 79200)];
    var c := [Slot(30600, 68400), Slot(117000, 154800)];
    assert SweepFrom(a, a, 1800, 4, 4) == [Slot(75600, 79200)];
    assert SweepFrom(a, a, 1800, 3, 3) == [Slot(64800, 68400), Slot(75600, 79200)];
    assert SweepFrom(a, a, 1800, 2, 2) == a[2..];
    assert SweepFrom(a, a, 1800, 1, 1) == a[1..];
    assert Intersect(a, a, 1800) == a;
    assert SweepFrom(a, b, 1800, 4, 3) == [Slot(75600, 79200)];
    assert SweepFrom(a, b, 1800, 3, 3) == [Slot(75600, 79200)];
    assert SweepFrom(a, b, 1800, 3, 2) == [Slot(75600, 79200)];
    assert SweepFrom(a, b, 1800, 2, 2) == [Slot(75600, 79200)];
    assert SweepFrom(a, b, 1800, 2, 1) == [Slot(75600, 79200)];
    assert SweepFrom(a, b, 1800, 1, 1) == [Slot(75600, 79200)];
    assert SweepFrom(a, b, 1800, 1, 0) == [Slot(75600, 79200)];
    var ws := [Slot(32400, 36000), Slot(75600, 79200)];
    assert Intersect(a, b, 1800) == ws;
    assert SweepFrom(ws, c, 1800, 1, 1) == [];
    assert SweepFrom(ws, c, 1800, 1, 0) == [];
    assert Intersect(ws, c, 1800) == [Slot(32400, 36000)];
    var all := [a, b] + [c];
    assert all == [a, b, c];
    assert Reduce(a, all, 1800) == Reduce(a, [b, c], 1800);
    assert [b, c][1..] == [c] && [c][1..] == [];
    assert Reduce(a, [b, c], 1800) == Reduce(ws, [c], 1800);
    assert Reduce(ws, [c], 1800) == [Slot(32400, 36000)];
    var rs := ShiftEnd([Slot(32400, 36000)], 1800);
    assert rs[0] == Slot(32400, 34200);
    assert rs == [Slot(32400, 34200)];
  }
}
