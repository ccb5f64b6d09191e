/** Time values and the slot algebra shared by both ports of the scheduler.

    Instants are whole seconds since 1970-01-01T00:00 in one fixed offset
    (the engine performs no time-zone conversion).  That day was a Thursday,
    and weekday indices run from Monday = 0 to Sunday = 6, as Luxon's
    `weekday - 1` does. */
module Intervals {

  type Timestamp = int
  type Duration = int

  datatype Option<T> = None | Some(value: T)

  /** A slot `[start, end]`: the source's two-element arrays and tuples. */
  datatype Slot = Slot(start: Timestamp, end: Timestamp)

  const DaySeconds: int := 86400
  const EpochWeekday: int := 3

  function Max(a: int, b: int): int { if a < b then b else a }
  function Min(a: int, b: int): int { if a < b then a else b }

  /** Number of the calendar day holding `t` (days since the epoch, floored). */
  function DayIndex(t: Timestamp): int { t / DaySeconds }

  /** Luxon's `startOf("day")`. */
  function StartOfDay(t: Timestamp): (r: Timestamp)
    ensures r <= t < r + DaySeconds
    ensures DayIndex(r) == DayIndex(t)
  {
    DayIndex(t) * DaySeconds
  }

  /** Luxon's `endOf("day")`, at one-second resolution (23:59:59). */
  function EndOfDay(t: Timestamp): (r: Timestamp)
    ensures t <= r && DayIndex(r) == DayIndex(t)
    ensures r + 1 == StartOfDay(t) + DaySeconds
  {
    StartOfDay(t) + DaySeconds - 1
  }

  /** The instant `n` days after `t`. */
  function DayAfter(t: Timestamp, n: nat): Timestamp
  {
    t + n * DaySeconds
  }

  /** Luxon's `weekday - 1`: Monday = 0 .. Sunday = 6. */
  function Weekday(t: Timestamp): (r: int)
    ensures 0 <= r < 7
  {
    (DayIndex(t) + EpochWeekday) % 7
  }

  /** Hour and minute of `t`, as minutes after midnight. */
  function MinuteOfDay(t: Timestamp): (r: int)
    ensures 0 <= r < 1440
  {
    (t % DaySeconds) / 60
  }

  /** A timestamp lies on the day that starts at `StartOfDay(c)` exactly when its day index is `c`'s. */
  lemma SameDay(t: Timestamp, c: Timestamp)
    requires StartOfDay(c) <= t < StartOfDay(c) + DaySeconds
    ensures DayIndex(t) == DayIndex(c) && StartOfDay(t) == StartOfDay(c) && Weekday(t) == Weekday(c)
  {
    var q := DayIndex(c);
    assert q * DaySeconds <= t < q * DaySeconds + DaySeconds;
    DivBetween(t, q);
  }

  lemma DivBetween(t: int, q: int)
    requires q * DaySeconds <= t < q * DaySeconds + DaySeconds
    ensures t / DaySeconds == q
  {
  }

  /** Walking forward one day moves the weekday one step round the week. */
  lemma WeekdayNextDay(t: Timestamp)
    ensures DayIndex(t + DaySeconds) == DayIndex(t) + 1
    ensures StartOfDay(t + DaySeconds) == StartOfDay(t) + DaySeconds
    ensures Weekday(t + DaySeconds) == (Weekday(t) + 1) % 7
  {
    DivBetween(t + DaySeconds, DayIndex(t) + 1);
  }

  /** Day indices follow the order of instants. */
  lemma DayIndexMonotone(a: Timestamp, b: Timestamp)
    requires a <= b
    ensures DayIndex(a) <= DayIndex(b) && StartOfDay(a) <= StartOfDay(b)
  {
  }

  /** An instant on an earlier calendar day lies before the later day starts. */
  lemma EarlierDay(a: Timestamp, b: Timestamp)
    requires DayIndex(a) < DayIndex(b)
    ensures a < StartOfDay(a) + DaySeconds <= StartOfDay(b)
  {
  }

  /** `combine(date, time)` (src/scheduler.js): the calendar day of `date` at the hour and minute of `time`. */
  function Combine(date: Timestamp, time: Timestamp): (r: Timestamp)
    ensures DayIndex(r) == DayIndex(date) && Weekday(r) == Weekday(date)
    ensures MinuteOfDay(r) == MinuteOfDay(time) && r % 60 == 0
    ensures StartOfDay(date) <= r < StartOfDay(date) + DaySeconds
  {
    var r := StartOfDay(date) + MinuteOfDay(time) * 60;
    SameDay(r, date);
    assert r % DaySeconds == MinuteOfDay(time) * 60 by {
      ModOfDayStart(DayIndex(date), MinuteOfDay(time) * 60);
    }
    r
  }

  lemma ModOfDayStart(q: int, x: int)
    requires 0 <= x < DaySeconds
    ensures (q * DaySeconds + x) % DaySeconds == x
    ensures (q * DaySeconds + x) / DaySeconds == q
  {
    DivBetween(q * DaySeconds + x, q);
  }

  /** Combining a date with a time depends only on the date's calendar day. */
  lemma CombineSameDay(a: Timestamp, b: Timestamp, time: Timestamp)
    requires DayIndex(a) == DayIndex(b)
    ensures Combine(a, time) == Combine(b, time)
  {
  }

  /** `w` lies inside `s`. */
  predicate Inside(w: Slot, s: Slot) { s.start <= w.start && w.end <= s.end }

  /** A meeting of length `d` starting at `t` fits inside `s`. */
  predicate Fits(t: Timestamp, d: Duration, s: Slot) { s.start <= t && t + d <= s.end }

  /** A meeting of length `d` starting at `t` fits inside some slot of `xs`. */
  predicate FitsIn(t: Timestamp, d: Duration, xs: seq<Slot>)
  {
    exists k :: 0 <= k < |xs| && Fits(t, d, xs[k])
  }

  /** `w` lies inside some slot of `xs`. */
  predicate InsideSome(w: Slot, xs: seq<Slot>)
  {
    exists k :: 0 <= k < |xs| && Inside(w, xs[k])
  }

  /** The invariant of an interval sequence: every slot is ordered, and each one
      ends no later than the next one starts. */
  predicate WellFormed(xs: seq<Slot>)
  {
    (forall k :: 0 <= k < |xs| ==> xs[k].start <= xs[k].end) &&
    (forall k :: 0 <= k < |xs| - 1 ==> xs[k].end <= xs[k + 1].start)
  }

  /** In a well-formed sequence every slot ends no later than any later slot starts. */
  lemma {:induction false} WellFormedOrdered(xs: seq<Slot>, i: int, k: int)
    requires WellFormed(xs) && 0 <= i < k < |xs|
    ensures xs[i].end <= xs[k].start
    decreases k - i
  {
    if i + 1 < k {
      WellFormedOrdered(xs, i + 1, k);
    }
  }

  /** `intersection` (src/scheduler.js) and `Scheduler.intersects` (src/scheduler.py):
      the overlap of two slots, kept only when a meeting of length `d` fits in it. */
  function Intersection(a: Slot, b: Slot, d: Duration): (r: Option<Slot>)
    ensures r.Some? ==> Inside(r.value, a) && Inside(r.value, b) && r.value.start + d <= r.value.end
    ensures forall t :: Fits(t, d, a) && Fits(t, d, b) ==> r.Some? && Fits(t, d, r.value)
  {
    var w := Slot(Max(a.start, b.start), Min(a.end, b.end));
    if w.start + d <= w.end then Some(w) else None
  }

  /** The overlap is exactly the pair (latest start, earliest end), and it is kept
      if and only if it is at least `d` long. */
  lemma IntersectionExact(a: Slot, b: Slot, d: Duration)
    ensures Intersection(a, b, d).Some? <==> Max(a.start, b.start) + d <= Min(a.end, b.end)
    ensures Intersection(a, b, d).Some? ==>
              Intersection(a, b, d).value == Slot(Max(a.start, b.start), Min(a.end, b.end))
  {
  }

  /** The permissible-start range of a window: a meeting may begin anywhere in `[s, e - d]`. */
  function ShiftEnd(ws: seq<Slot>, d: Duration): (r: seq<Slot>)
    ensures |r| == |ws|
    ensures forall k :: 0 <= k < |ws| ==> r[k].start == ws[k].start && r[k].end + d == ws[k].end
  {
    seq(|ws|, k requires 0 <= k < |ws| => Slot(ws[k].start, ws[k].end - d))
  }

  /** `t` lies in one of the ranges of `rs` (both bounds included). */
  predicate StartsAt(t: Timestamp, rs: seq<Slot>)
  {
    exists k :: 0 <= k < |rs| && rs[k].start <= t <= rs[k].end
  }

  /** A meeting of length `d` may start at `t` in a start range of `ShiftEnd(ws, d)`
      exactly when it fits in the corresponding window of `ws`. */
  lemma {:induction false} ShiftEndStarts(ws: seq<Slot>, d: Duration, t: Timestamp)
    ensures StartsAt(t, ShiftEnd(ws, d)) <==> FitsIn(t, d, ws)
  {
    var rs := ShiftEnd(ws, d);
    if StartsAt(t, rs) {
      var k :| 0 <= k < |rs| && rs[k].start <= t <= rs[k].end;
      assert Fits(t, d, ws[k]);
    }
    if FitsIn(t, d, ws) {
      var k :| 0 <= k < |ws| && Fits(t, d, ws[k]);
      assert rs[k].start <= t <= rs[k].end;
    }
  }
}
