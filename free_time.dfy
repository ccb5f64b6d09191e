/** `getFreeSlots` and `freeSlotsAux` of src/scheduler.js: one person's busy
    events over a search period become the free periods inside their working
    hours.  Working hours come as seven per-weekday lists (Monday first); only
    the first range of a day counts. */
module FreeTime {
  import opened Intervals

  /** The mapped `timeConstraints`: each weekday's first range, or none. */
  function WorkingHours(tc: seq<seq<Slot>>): (hours: seq<Option<Slot>>)
    ensures |hours| == |tc|
    ensures forall d :: 0 <= d < |tc| ==> hours[d] == (if |tc[d]| > 0 then Some(tc[d][0]) else None)
  {
    seq(|tc|, d requires 0 <= d < |tc| => if |tc[d]| > 0 then Some(tc[d][0]) else None)
  }

  /** The working hours of the weekday of `t`, placed on `t`'s calendar day. */
  function DayHours(t: Timestamp, hours: seq<Option<Slot>>): Option<Slot>
    requires |hours| == 7
  {
    match hours[Weekday(t)]
    case None => None
    case Some(h) => Some(Slot(Combine(t, h.start), Combine(t, h.end)))
  }

  /** `x` starts on a working day and lies within that day's working hours. */
  predicate InWorkingDay(x: Slot, hours: seq<Option<Slot>>)
    requires |hours| == 7
  {
    match hours[Weekday(x.start)]
    case None => false
    case Some(h) => Combine(x.start, h.start) <= x.start && x.end <= Combine(x.start, h.end)
  }

  /* ---------------------------------------------------------------- freeSlotsAux */

  /** One pass of `freeSlotsAux`'s loop, on the calendar day of `cur`. */
  function AuxDay(cur: Timestamp, end: Timestamp, hours: seq<Option<Slot>>, consider: bool): seq<Slot>
    requires |hours| == 7
  {
    match DayHours(cur, hours)
    case None => []
    case Some(w) =>
      if !consider then [w]
      else if w.end > cur then [Slot(Max(w.start, cur), Min(w.end, end))]
      else []
  }

  /** The loop of `freeSlotsAux` from `cur` on: one pass per day while `cur <= end`,
      `cur` moving to the start of the next day. */
  function AuxWalk(cur: Timestamp, end: Timestamp, hours: seq<Option<Slot>>, consider: bool): seq<Slot>
    requires |hours| == 7
    decreases end - cur
  {
    if cur > end then []
    else AuxDay(cur, end, hours, consider) + AuxWalk(StartOfDay(cur) + DaySeconds, end, hours, consider)
  }

  /** What `freeSlotsAux(start, end, hours, consider)` returns: without
      `consider` the bounds widen to whole days first. */
  function AuxSlots(start: Timestamp, end: Timestamp, hours: seq<Option<Slot>>, consider: bool): seq<Slot>
    requires |hours| == 7
  {
    if consider then AuxWalk(start, end, hours, true)
    else AuxWalk(StartOfDay(start), EndOfDay(end), hours, false)
  }

  /** `freeSlotsAux(start, end, hours, consider)`. */
  method FreeSlotsAux(start: Timestamp, end: Timestamp, hours: seq<Option<Slot>>, consider: bool)
    returns (free: seq<Slot>)
    requires |hours| == 7
    ensures free == AuxSlots(start, end, hours, consider)
  {
    free := [];
    var cur, last := start, end;
    if !consider {
      cur := StartOfDay(start);
      last := EndOfDay(end);
    }
    ghost var total := AuxSlots(start, end, hours, consider);
    assert total == AuxWalk(cur, last, hours, consider);
    while cur <= last
      invariant free + AuxWalk(cur, last, hours, consider) == total
      decreases last - cur
    {
      var slot := DaySlot(cur, last, hours, consider);
      var next := StartOfDay(cur) + DaySeconds;
      ghost var rest := AuxWalk(next, last, hours, consider);
      AuxStep(cur, last, hours, consider);
      ConcatAssoc(free, slot, rest);
      free := free + slot;
      cur := next;
    }
    assert free + [] == free;
  }

  /** The body of `freeSlotsAux`'s loop: the slot it pushes for the day of `cur`, if any. */
  method DaySlot(cur: Timestamp, last: Timestamp, hours: seq<Option<Slot>>, consider: bool)
    returns (slot: seq<Slot>)
    requires |hours| == 7
    ensures slot == AuxDay(cur, last, hours, consider)
  {
    var day := Weekday(cur);
    slot := [];
    match hours[day] {
      case Some(h) =>
        var startConstraint := Combine(cur, h.start);
        var endConstraint := Combine(cur, h.end);
        if !consider {
          slot := [Slot(startConstraint, endConstraint)];
        } else if endConstraint > cur {
          slot := [Slot(Max(startConstraint, cur), Min(endConstraint, last))];
        }
      case None =>
    }
  }

  lemma ConcatAssoc(a: seq<Slot>, b: seq<Slot>, c: seq<Slot>)
    ensures a + (b + c) == (a + b) + c
  {
  }

  /** One pass of the walk from a day not after `end`. */
  lemma AuxStep(cur: Timestamp, end: Timestamp, hours: seq<Option<Slot>>, consider: bool)
    requires |hours| == 7 && cur <= end
    ensures AuxWalk(cur, end, hours, consider) ==
              AuxDay(cur, end, hours, consider) + AuxWalk(StartOfDay(cur) + DaySeconds, end, hours, consider)
  {
  }

  /** Every slot `freeSlotsAux` produces starts on a working day and lies within its hours. */
  lemma {:induction false} AuxWorking(cur: Timestamp, end: Timestamp, hours: seq<Option<Slot>>, consider: bool)
    requires |hours| == 7
    ensures forall x :: x in AuxWalk(cur, end, hours, consider) ==> InWorkingDay(x, hours)
    decreases end - cur
  {
    if cur <= end {
      AuxWorking(StartOfDay(cur) + DaySeconds, end, hours, consider);
      var w := DayHours(cur, hours);
      if w.Some? {
        DayHoursWorking(cur, hours);
        if consider && w.value.end > cur {
          var x := Slot(Max(w.value.start, cur), Min(w.value.end, end));
          SameDay(w.value.start, cur);
          Shrink(w.value, x, hours);
        }
      }
    }
  }

  /** A day's working hours lie within themselves. */
  lemma DayHoursWorking(t: Timestamp, hours: seq<Option<Slot>>)
    requires |hours| == 7 && DayHours(t, hours).Some?
    ensures InWorkingDay(DayHours(t, hours).value, hours)
    ensures StartOfDay(t) <= DayHours(t, hours).value.start
    ensures DayHours(t, hours).value.end < StartOfDay(t) + DaySeconds
  {
    var h := hours[Weekday(t)].value;
    var w := DayHours(t, hours).value;
    CombineSameDay(w.start, t, h.start);
    CombineSameDay(w.start, t, h.end);
  }

  /** A slot starting later on the same day, and ending no later, stays within the working hours. */
  lemma Shrink(w: Slot, x: Slot, hours: seq<Option<Slot>>)
    requires |hours| == 7 && InWorkingDay(w, hours)
    requires w.start <= x.start < StartOfDay(w.start) + DaySeconds && x.end <= w.end
    ensures InWorkingDay(x, hours)
  {
    assert StartOfDay(w.start) <= x.start;
    SameDay(x.start, w.start);
    var h := hours[Weekday(w.start)].value;
    CombineSameDay(x.start, w.start, h.start);
    CombineSameDay(x.start, w.start, h.end);
  }

  /** With `consider`, every produced slot starts no earlier than `cur` and ends no later than `end`. */
  lemma {:induction false} AuxWithin(cur: Timestamp, end: Timestamp, hours: seq<Option<Slot>>)
    requires |hours| == 7
    ensures forall x :: x in AuxWalk(cur, end, hours, true) ==> cur <= x.start && x.end <= end
    decreases end - cur
  {
    if cur <= end {
      AuxWithin(StartOfDay(cur) + DaySeconds, end, hours);
    }
  }

  /** Without `consider`, every produced slot lies between the start of the
      day of `cur` and the end of the day of `end`. */
  lemma {:induction false} AuxBounds(cur: Timestamp, end: Timestamp, hours: seq<Option<Slot>>)
    requires |hours| == 7
    ensures forall x :: x in AuxWalk(cur, end, hours, false) ==>
              StartOfDay(cur) <= x.start && x.end < StartOfDay(end) + DaySeconds
    decreases end - cur
  {
    if cur <= end {
      var next := StartOfDay(cur) + DaySeconds;
      AuxBounds(next, end, hours);
      DivBetween(next, DayIndex(cur) + 1);
      DayIndexMonotone(cur, end);
      if DayHours(cur, hours).Some? {
        DayHoursWorking(cur, hours);
      }
    }
  }

  /** Without `consider`, from a day start the walk offers exactly the full
      working hours of every day up to `end` that has any. */
  lemma {:induction false} AuxFullDays(cur: Timestamp, end: Timestamp, hours: seq<Option<Slot>>)
    requires |hours| == 7 && cur % DaySeconds == 0
    ensures forall x :: x in AuxWalk(cur, end, hours, false) <==>
              exists n: nat :: DayAfter(cur, n) <= end && DayHours(DayAfter(cur, n), hours) == Some(x)
    decreases end - cur
  {
    if cur > end {
      forall n: nat ensures DayAfter(cur, n) > end {
      }
    } else {
      var next := cur + DaySeconds;
      assert StartOfDay(cur) == cur;
      assert next % DaySeconds == 0;
      AuxFullDays(next, end, hours);
      var rest := AuxWalk(next, end, hours, false);
      var here := AuxDay(cur, end, hours, false);
      assert AuxWalk(cur, end, hours, false) == here + rest;
      forall x ensures x in here + rest <==>
          exists n: nat :: DayAfter(cur, n) <= end && DayHours(DayAfter(cur, n), hours) == Some(x)
      {
        if x in here {
          assert DayAfter(cur, 0) == cur;
        } else if x in rest {
          var n: nat :| DayAfter(next, n) <= end && DayHours(DayAfter(next, n), hours) == Some(x);
          assert DayAfter(next, n) == DayAfter(cur, n + 1);
        }
        if exists n: nat :: DayAfter(cur, n) <= end && DayHours(DayAfter(cur, n), hours) == Some(x) {
          var n: nat :| DayAfter(cur, n) <= end && DayHours(DayAfter(cur, n), hours) == Some(x);
          if n == 0 {
            assert DayAfter(cur, n) == cur;
          } else {
            assert DayAfter(next, n - 1) == DayAfter(cur, n);
          }
        }
      }
    }
  }

  /* ---------------------------------------------------------------- getFreeSlots */

  /** The loop state of `getFreeSlots`: the free slots so far, `prevBusySlotEnd`
      (which holds the previous busy slot's start), and the pair
      `currDayBegin`/`currDayEnd`, both null or both set. */
  datatype State = State(free: seq<Slot>, prev: Timestamp, cur: Option<Slot>)

  const FiveSeconds: int := 5

  /** The busy events moved earlier and later by the minimum break. */
  function Widen(busy: seq<Slot>, minBreak: Duration): (r: seq<Slot>)
    ensures |r| == |busy|
    ensures forall k :: 0 <= k < |busy| ==> r[k] == Slot(busy[k].start - minBreak, busy[k].end + minBreak)
  {
    seq(|busy|, k requires 0 <= k < |busy| => Slot(busy[k].start - minBreak, busy[k].end + minBreak))
  }

  /** The busy list the loop walks: widened, with the sentinel from the search
      end to the end of its day appended. */
  function Processed(busy: seq<Slot>, searchEnd: Timestamp, minBreak: Duration): seq<Slot>
  {
    Widen(busy, minBreak) + [Slot(searchEnd, EndOfDay(searchEnd))]
  }

  /** The first day's hours, clipped to the search period. */
  function Opening(searchStart: Timestamp, searchEnd: Timestamp, hours: seq<Option<Slot>>): Option<Slot>
    requires |hours| == 7
  {
    match DayHours(searchStart, hours)
    case None => None
    case Some(w) => Some(Slot(Max(w.start, searchStart), Min(w.end, searchEnd)))
  }

  /** On reaching a busy slot on a later calendar day: close the current day if
      more than five seconds are left of it, switch to the new day's hours, and
      offer whole working days for any days skipped in between. */
  function NewDay(s: State, b: Slot, hours: seq<Option<Slot>>): State
    requires |hours| == 7
  {
    var apart := DayIndex(b.start) - DayIndex(s.prev);
    if apart <= 0 then s
    else
      var closed :=
        if s.cur.Some? && s.cur.value.end - s.cur.value.start > FiveSeconds then s.free + [s.cur.value] else s.free;
      var filled :=
        if apart > 1 then closed + AuxSlots(s.prev + DaySeconds, b.start - DaySeconds, hours, false) else closed;
      State(filled, s.prev, DayHours(b.start, hours))
  }

  /** Record the busy slot; while the day still has time, offer the part of it
      before the busy slot and move the day's beginning past the busy slot. */
  function Advance(s: State, b: Slot): State
  {
    match s.cur
    case Some(c) =>
      if c.start < c.end then
        State(if c.start < b.start then s.free + [Slot(c.start, Min(b.start, c.end))] else s.free,
              b.start, Some(Slot(Max(c.start, b.end), c.end)))
      else State(s.free, b.start, s.cur)
    case None => State(s.free, b.start, None)
  }

  /** One iteration of the loop. */
  function Step(s: State, b: Slot, hours: seq<Option<Slot>>): State
    requires |hours| == 7
  {
    Advance(NewDay(s, b, hours), b)
  }

  /** The loop over the busy slots `xs` from state `s`. */
  function Run(s: State, xs: seq<Slot>, hours: seq<Option<Slot>>): State
    requires |hours| == 7
    decreases |xs|
  {
    if |xs| == 0 then s else Step(Run(s, xs[..|xs| - 1], hours), xs[|xs| - 1], hours)
  }

  /** What `getFreeSlots(busy, searchStart, searchEnd, minBreak, tc)` returns. */
  function FreeSlots(busy: seq<Slot>, searchStart: Timestamp, searchEnd: Timestamp, minBreak: Duration,
                     tc: seq<seq<Slot>>): seq<Slot>
    requires |tc| == 7
  {
    var hours := WorkingHours(tc);
    if |busy| == 0 then AuxSlots(searchStart, searchEnd, hours, true)
    else Run(State([], searchStart, Opening(searchStart, searchEnd, hours)), Processed(busy, searchEnd, minBreak), hours).free
  }

  /** `getFreeSlots(busy, searchStart, searchEnd, minBreak, tc)`. */
  method GetFreeSlots(busy: seq<Slot>, searchStart: Timestamp, searchEnd: Timestamp, minBreak: Duration,
                      tc: seq<seq<Slot>>) returns (free: seq<Slot>)
    requires |tc| == 7
    ensures free == FreeSlots(busy, searchStart, searchEnd, minBreak, tc)
  {
    var hours := WorkingHours(tc);
    if |busy| == 0 {
      free := FreeSlotsAux(searchStart, searchEnd, hours, true);
      return;
    }
    var slots := Processed(busy, searchEnd, minBreak);
    free := [];
    var prev := searchStart;
    var cur: Option<Slot> := None;
    var initialDay := Weekday(searchStart);
    match hours[initialDay] {
      case Some(h) =>
        cur := Some(Slot(Max(Combine(searchStart, h.start), searchStart), Min(Combine(searchStart, h.end), searchEnd)));
      case None =>
    }
    ghost var init := State([], searchStart, Opening(searchStart, searchEnd, hours));
    for i := 0 to |slots|
      invariant State(free, prev, cur) == Run(init, slots[..i], hours)
    {
      RunSnoc(init, slots, i, hours);
      var b := slots[i];
      free, cur := EnterDay(free, prev, cur, b, hours);
      prev := b.start;
      if cur.Some? && cur.value.start < cur.value.end {
        if cur.value.start < b.start {
          free := free + [Slot(cur.value.start, Min(b.start, cur.value.end))];
        }
        cur := Some(Slot(Max(cur.value.start, b.end), cur.value.end));
      }
    }
    assert slots[..|slots|] == slots;
  }

  /** The new-day block of `getFreeSlots`' loop for busy slot `b`. */
  method EnterDay(free0: seq<Slot>, prev0: Timestamp, cur0: Option<Slot>, b: Slot, hours: seq<Option<Slot>>)
    returns (free: seq<Slot>, cur: Option<Slot>)
    requires |hours| == 7
    ensures State(free, prev0, cur) == NewDay(State(free0, prev0, cur0), b, hours)
  {
    free, cur := free0, cur0;
    var prev := prev0;
    var day := Weekday(b.start);
    var daysApart := DayIndex(b.start) - DayIndex(prev);
    if daysApart > 0 {
      if cur.Some? && cur.value.end - cur.value.start > FiveSeconds {
        free := free + [cur.value];
      }
      match hours[day] {
        case Some(h) =>
          cur := Some(Slot(Combine(b.start, h.start), Combine(b.start, h.end)));
        case None =>
          cur := None;
      }
      if daysApart > 1 {
        var endDate := b.start - DaySeconds;
        prev := prev + DaySeconds;
        var filled := FreeSlotsAux(prev, endDate, hours, false);
        free := free + filled;
      }
    }
  }

  /** The loop state after one more busy slot. */
  lemma RunSnoc(s: State, xs: seq<Slot>, i: int, hours: seq<Option<Slot>>)
    requires |hours| == 7 && 0 <= i < |xs|
    ensures Run(s, xs[..i + 1], hours) == Step(Run(s, xs[..i], hours), xs[i], hours)
  {
    assert xs[..i + 1][..i] == xs[..i];
  }

  /* ---------------------------------------------------------------- working hours */

  /** The loop keeps every offered slot, and the rest of the current day while
      it has time, within working hours. */
  predicate WorkInv(s: State, hours: seq<Option<Slot>>)
    requires |hours| == 7
  {
    (forall f :: f in s.free ==> InWorkingDay(f, hours)) &&
    (s.cur.Some? && s.cur.value.start < s.cur.value.end ==> InWorkingDay(s.cur.value, hours))
  }

  lemma StepWorking(s: State, b: Slot, hours: seq<Option<Slot>>)
    requires |hours| == 7 && WorkInv(s, hours)
    ensures WorkInv(Step(s, b, hours), hours)
  {
    NewDayWorking(s, b, hours);
    AdvanceWorking(NewDay(s, b, hours), b, hours);
  }

  lemma NewDayWorking(s: State, b: Slot, hours: seq<Option<Slot>>)
    requires |hours| == 7 && WorkInv(s, hours)
    ensures WorkInv(NewDay(s, b, hours), hours)
    ensures var c := NewDay(s, b, hours).cur;
            c.Some? && c.value.start < c.value.end ==> c.value.end < StartOfDay(c.value.start) + DaySeconds
  {
    if DayIndex(b.start) - DayIndex(s.prev) > 0 {
      AuxWorking(StartOfDay(s.prev + DaySeconds), EndOfDay(b.start - DaySeconds), hours, false);
      if DayHours(b.start, hours).Some? {
        DayHoursWorking(b.start, hours);
      }
    } else if s.cur.Some? && s.cur.value.start < s.cur.value.end {
      var c := s.cur.value;
      var h := hours[Weekday(c.start)].value;
      assert c.end <= Combine(c.start, h.end) < StartOfDay(c.start) + DaySeconds;
    }
  }

  lemma AdvanceWorking(s1: State, b: Slot, hours: seq<Option<Slot>>)
    requires |hours| == 7 && WorkInv(s1, hours)
    requires s1.cur.Some? && s1.cur.value.start < s1.cur.value.end ==>
             s1.cur.value.end < StartOfDay(s1.cur.value.start) + DaySeconds
    ensures WorkInv(Advance(s1, b), hours)
  {
    if s1.cur.Some? && s1.cur.value.start < s1.cur.value.end {
      var c := s1.cur.value;
      if c.start < b.start {
        Shrink(c, Slot(c.start, Min(b.start, c.end)), hours);
      }
      var c2 := Slot(Max(c.start, b.end), c.end);
      if c2.start < c2.end {
        Shrink(c, c2, hours);
      }
    }
  }

  lemma {:induction false} RunWorking(s: State, xs: seq<Slot>, hours: seq<Option<Slot>>)
    requires |hours| == 7 && WorkInv(s, hours)
    ensures WorkInv(Run(s, xs, hours), hours)
    decreases |xs|
  {
    if |xs| > 0 {
      RunWorking(s, xs[..|xs| - 1], hours);
      StepWorking(Run(s, xs[..|xs| - 1], hours), xs[|xs| - 1], hours);
    }
  }

  /** Every free slot starts on a working day and lies within that day's working hours. */
  lemma FreeSlotsWorking(busy: seq<Slot>, searchStart: Timestamp, searchEnd: Timestamp, minBreak: Duration,
                         tc: seq<seq<Slot>>)
    requires |tc| == 7
    ensures forall x :: x in FreeSlots(busy, searchStart, searchEnd, minBreak, tc) ==> InWorkingDay(x, WorkingHours(tc))
  {
    var hours := WorkingHours(tc);
    if |busy| == 0 {
      AuxWorking(searchStart, searchEnd, hours, true);
    } else {
      var init := State([], searchStart, Opening(searchStart, searchEnd, hours));
      var o := Opening(searchStart, searchEnd, hours);
      if o.Some? && o.value.start < o.value.end {
        var w := DayHours(searchStart, hours).value;
        DayHoursWorking(searchStart, hours);
        var h := hours[Weekday(w.start)].value;
        assert w.end <= Combine(w.start, h.end) < StartOfDay(w.start) + DaySeconds;
        Shrink(w, o.value, hours);
      }
      RunWorking(init, Processed(busy, searchEnd, minBreak), hours);
    }
  }

  /** With no busy events the result is `freeSlotsAux` with the search bounds
      considered: working hours clipped to the search period, nothing outside it. */
  lemma NoBusyClipped(searchStart: Timestamp, searchEnd: Timestamp, minBreak: Duration, tc: seq<seq<Slot>>)
    requires |tc| == 7
    ensures FreeSlots([], searchStart, searchEnd, minBreak, tc) == AuxSlots(searchStart, searchEnd, WorkingHours(tc), true)
    ensures forall x :: x in FreeSlots([], searchStart, searchEnd, minBreak, tc) ==>
              searchStart <= x.start && x.end <= searchEnd && InWorkingDay(x, WorkingHours(tc))
  {
    AuxWithin(searchStart, searchEnd, WorkingHours(tc));
    AuxWorking(searchStart, searchEnd, WorkingHours(tc), true);
  }

  /* ---------------------------------------------------------------- no overlap with busy time */

  /** `f` and `p` share no instant beyond an endpoint. */
  predicate Apart(f: Slot, p: Slot) { f.end <= p.start || p.end <= f.start }

  /** A busy slot that starts and ends on the same calendar day. */
  predicate OneDay(p: Slot) { DayIndex(p.start) == DayIndex(p.end) }

  /** The rest of the current day lies on the day of `prev` and after every
      busy slot of that day seen so far. */
  predicate CurOk(c: Slot, prev: Timestamp, done: seq<Slot>)
  {
    StartOfDay(prev) <= c.start && c.end < StartOfDay(prev) + DaySeconds &&
    forall p :: p in done && DayIndex(p.start) == DayIndex(prev) ==> p.end <= c.start
  }

  /** The loop invariant behind disjointness, over the busy slots `done` processed so far. */
  predicate Inv(s: State, done: seq<Slot>)
  {
    (forall f :: f in s.free ==> f.end <= s.prev) &&
    (forall f, p :: f in s.free && p in done ==> Apart(f, p)) &&
    (forall p :: p in done ==> p.start <= s.prev && OneDay(p)) &&
    (s.cur.Some? && s.cur.value.start < s.cur.value.end ==> CurOk(s.cur.value, s.prev, done))
  }

  /** After the new-day step for `b`: everything offered ends by `b`'s start and
      misses the earlier busy slots, and the day's rest is ready for `b`'s day. */
  predicate Mid(s: State, b: Slot, done: seq<Slot>)
  {
    (forall f :: f in s.free ==> f.end <= b.start) &&
    (forall f, p :: f in s.free && p in done ==> Apart(f, p)) &&
    (s.cur.Some? && s.cur.value.start < s.cur.value.end ==> CurOk(s.cur.value, b.start, done))
  }

  /** Every slot of `fs` ends by `b`'s start and misses every busy slot of `done`. */
  predicate Clear(fs: seq<Slot>, b: Slot, done: seq<Slot>)
  {
    (forall f :: f in fs ==> f.end <= b.start) &&
    (forall f, p :: f in fs && p in done ==> Apart(f, p))
  }

  lemma ClearConcat(a: seq<Slot>, c: seq<Slot>, b: Slot, done: seq<Slot>)
    requires Clear(a, b, done) && Clear(c, b, done)
    ensures Clear(a + c, b, done)
  {
  }

  /** The rest of the day being closed misses the busy slots seen and ends before the next day. */
  lemma ClosedClear(s: State, b: Slot, done: seq<Slot>)
    requires Inv(s, done) && DayIndex(s.prev) < DayIndex(b.start)
    requires s.cur.Some? && s.cur.value.start < s.cur.value.end
    ensures Clear([s.cur.value], b, done)
  {
    EarlierDay(s.prev, b.start);
    forall p | p in done ensures Apart(s.cur.value, p) {
      EarlierEnds(p, s.prev);
    }
  }

  /** Whole days offered between the previous day and `b`'s day miss the busy
      slots seen and end before `b`'s day. */
  lemma FilledClear(s: State, b: Slot, done: seq<Slot>, hours: seq<Option<Slot>>)
    requires |hours| == 7 && Inv(s, done) && DayIndex(s.prev) + 1 < DayIndex(b.start)
    ensures Clear(AuxSlots(s.prev + DaySeconds, b.start - DaySeconds, hours, false), b, done)
  {
    var lo := StartOfDay(s.prev + DaySeconds);
    var hi := EndOfDay(b.start - DaySeconds);
    AuxBounds(lo, hi, hours);
    WeekdayNextDay(s.prev);
    WeekdayNextDay(b.start - DaySeconds);
    assert StartOfDay(lo) == lo by {
      SameDay(lo, s.prev + DaySeconds);
    }
    assert StartOfDay(hi) == StartOfDay(b.start - DaySeconds) by {
      SameDay(hi, b.start - DaySeconds);
    }
    var extra := AuxSlots(s.prev + DaySeconds, b.start - DaySeconds, hours, false);
    forall f, p | f in extra && p in done ensures Apart(f, p) {
      EarlierEnds(p, s.prev);
    }
  }

  lemma NewDayMid(s: State, b: Slot, done: seq<Slot>, hours: seq<Option<Slot>>)
    requires |hours| == 7 && Inv(s, done) && s.prev <= b.start
    ensures Mid(NewDay(s, b, hours), b, done)
  {
    DayIndexMonotone(s.prev, b.start);
    var apart := DayIndex(b.start) - DayIndex(s.prev);
    if apart > 0 {
      NewDayClear(s, b, done, hours);
      if DayHours(b.start, hours).Some? {
        DayHoursWorking(b.start, hours);
        forall p | p in done ensures DayIndex(p.start) != DayIndex(b.start) {
          DayIndexMonotone(p.start, s.prev);
        }
      }
    } else {
      assert StartOfDay(b.start) == StartOfDay(s.prev);
    }
  }

  /** On a new day, the slots offered so far and those of the days in between
      all end by `b`'s start and miss the earlier busy slots. */
  lemma NewDayClear(s: State, b: Slot, done: seq<Slot>, hours: seq<Option<Slot>>)
    requires |hours| == 7 && Inv(s, done) && s.prev <= b.start
    requires DayIndex(b.start) - DayIndex(s.prev) > 0
    ensures NewDay(s, b, hours).cur == DayHours(b.start, hours)
    ensures Clear(NewDay(s, b, hours).free, b, done)
  {
    var apart := DayIndex(b.start) - DayIndex(s.prev);
    EarlierDay(s.prev, b.start);
    assert Clear(s.free, b, done);
    var closed := s.free;
    if s.cur.Some? && s.cur.value.end - s.cur.value.start > FiveSeconds {
      ClosedClear(s, b, done);
      ClearConcat(s.free, [s.cur.value], b, done);
      closed := s.free + [s.cur.value];
    }
    var filled := closed;
    if apart > 1 {
      FilledClear(s, b, done, hours);
      ClearConcat(closed, AuxSlots(s.prev + DaySeconds, b.start - DaySeconds, hours, false), b, done);
      filled := closed + AuxSlots(s.prev + DaySeconds, b.start - DaySeconds, hours, false);
    }
    assert NewDay(s, b, hours) == State(filled, s.prev, DayHours(b.start, hours));
  }

  /** A busy slot of the day of `prev` or earlier ends before the next day starts. */
  lemma EarlierEnds(p: Slot, prev: Timestamp)
    requires p.start <= prev && OneDay(p)
    ensures p.end < StartOfDay(prev) + DaySeconds
    ensures DayIndex(p.start) != DayIndex(prev) ==> p.end < StartOfDay(prev)
  {
    DayIndexMonotone(p.start, prev);
    if DayIndex(p.end) < DayIndex(prev) {
      EarlierDay(p.end, prev);
    }
  }

  lemma AdvanceInv(s: State, b: Slot, done: seq<Slot>)
    requires Mid(s, b, done) && OneDay(b)
    requires forall p :: p in done ==> p.start <= b.start && OneDay(p)
    ensures Inv(Advance(s, b), done + [b])
  {
    var s2 := Advance(s, b);
    forall f, p | f in s2.free && p in done + [b] ensures Apart(f, p) {
      if f !in s.free {
        var c := s.cur.value;
        if p in done && DayIndex(p.start) != DayIndex(b.start) {
          EarlierEnds(p, b.start);
        }
      }
    }
    if s.cur.Some? && s.cur.value.start < s.cur.value.end {
      var c := s.cur.value;
      var c2 := Slot(Max(c.start, b.end), c.end);
      if c2.start < c2.end {
        assert CurOk(c2, b.start, done + [b]);
      }
    }
  }

  /** One iteration keeps the invariant, the processed slot joining `done`. */
  lemma StepInv(r: State, b: Slot, done: seq<Slot>, hours: seq<Option<Slot>>)
    requires |hours| == 7 && Inv(r, done) && r.prev <= b.start && OneDay(b)
    requires forall p :: p in done ==> p.start <= b.start && OneDay(p)
    ensures Inv(Step(r, b, hours), done + [b]) && Step(r, b, hours).prev == b.start
  {
    NewDayMid(r, b, done, hours);
    AdvanceInv(NewDay(r, b, hours), b, done);
  }

  /** The busy slots `xs` start no earlier than `prev`, each lies within one
      day, and they are sorted by start. */
  predicate Ready(prev: Timestamp, xs: seq<Slot>)
  {
    (forall i :: 0 <= i < |xs| ==> prev <= xs[i].start && OneDay(xs[i])) &&
    (forall i, k :: 0 <= i < k < |xs| ==> xs[i].start <= xs[k].start)
  }

  lemma ReadyPrefix(prev: Timestamp, xs: seq<Slot>)
    requires Ready(prev, xs) && |xs| > 0
    ensures Ready(prev, xs[..|xs| - 1])
    ensures forall p :: p in xs[..|xs| - 1] ==> p.start <= xs[|xs| - 1].start && OneDay(p)
  {
    var pre := xs[..|xs| - 1];
    assert forall i :: 0 <= i < |pre| ==> pre[i] == xs[i];
  }

  lemma {:induction false} RunInv(s: State, xs: seq<Slot>, hours: seq<Option<Slot>>)
    requires |hours| == 7 && Inv(s, []) && Ready(s.prev, xs)
    ensures Inv(Run(s, xs, hours), xs)
    ensures |xs| > 0 ==> Run(s, xs, hours).prev == xs[|xs| - 1].start
    decreases |xs|
  {
    if |xs| > 0 {
      ReadyPrefix(s.prev, xs);
      RunInv(s, xs[..|xs| - 1], hours);
      RunInvStep(s, xs, hours);
    } else {
      assert xs == [] && Run(s, xs, hours) == s;
    }
  }

  /** The last iteration keeps the invariant the earlier ones established. */
  lemma RunInvStep(s: State, xs: seq<Slot>, hours: seq<Option<Slot>>)
    requires |hours| == 7 && |xs| > 0 && Ready(s.prev, xs)
    requires var pre := xs[..|xs| - 1];
             Inv(Run(s, pre, hours), pre) && (|pre| > 0 ==> Run(s, pre, hours).prev == pre[|pre| - 1].start) &&
             (|pre| == 0 ==> Run(s, pre, hours) == s) &&
             forall p :: p in pre ==> p.start <= xs[|xs| - 1].start && OneDay(p)
    ensures Inv(Run(s, xs, hours), xs) && Run(s, xs, hours).prev == xs[|xs| - 1].start
  {
    var n := |xs| - 1;
    var b := xs[n];
    var pre := xs[..n];
    var r := Run(s, pre, hours);
    assert r.prev <= b.start by {
      if n > 0 {
        assert pre[n - 1] == xs[n - 1];
      }
    }
    StepInv(r, b, pre, hours);
    assert pre + [b] == xs;
    assert Run(s, xs, hours) == Step(r, b, hours);
  }

  /** The widened busy slots followed by the sentinel stay sorted by start,
      start within the search period, and each lies within one day. */
  lemma ProcessedReady(busy: seq<Slot>, searchStart: Timestamp, searchEnd: Timestamp, minBreak: Duration)
    requires |busy| > 0
    requires forall i, k :: 0 <= i < k < |busy| ==> busy[i].start <= busy[k].start
    requires forall i :: 0 <= i < |busy| ==>
               DayIndex(searchStart) <= DayIndex(busy[i].start - minBreak) && busy[i].start - minBreak <= searchEnd
    requires forall i :: 0 <= i < |busy| ==> DayIndex(busy[i].start - minBreak) == DayIndex(busy[i].end + minBreak)
    ensures var xs := Processed(busy, searchEnd, minBreak);
            xs[0].start == busy[0].start - minBreak && Ready(Min(searchStart, xs[0].start), xs)
  {
    var w := Widen(busy, minBreak);
    var last := Slot(searchEnd, EndOfDay(searchEnd));
    var xs := Processed(busy, searchEnd, minBreak);
    assert xs == w + [last];
    assert xs[0] == w[0];
    var p := Min(searchStart, xs[0].start);
    forall i | 0 <= i < |xs| ensures p <= xs[i].start && OneDay(xs[i]) {
      if i < |busy| {
        assert xs[i] == w[i];
      } else {
        assert xs[i] == last;
      }
    }
    forall i, k | 0 <= i < k < |xs| ensures xs[i].start <= xs[k].start {
      assert xs[i] == w[i];
      if k < |busy| {
        assert xs[k] == w[k];
      } else {
        assert xs[k] == last;
      }
    }
  }

  /** One step reads the previous busy start only through its calendar day. */
  lemma StepSameDay(s: State, s2: State, b: Slot, hours: seq<Option<Slot>>)
    requires |hours| == 7 && s.free == s2.free && s.cur == s2.cur && DayIndex(s.prev) == DayIndex(s2.prev)
    ensures Step(s, b, hours) == Step(s2, b, hours)
  {
    NewDaySameDay(s, s2, b, hours);
    AdvanceIgnoresPrev(NewDay(s, b, hours), NewDay(s2, b, hours), b);
  }

  /** The new-day step reads the previous busy start only through its calendar day. */
  lemma NewDaySameDay(s: State, s2: State, b: Slot, hours: seq<Option<Slot>>)
    requires |hours| == 7 && s.free == s2.free && s.cur == s2.cur && DayIndex(s.prev) == DayIndex(s2.prev)
    ensures NewDay(s, b, hours).free == NewDay(s2, b, hours).free
    ensures NewDay(s, b, hours).cur == NewDay(s2, b, hours).cur
  {
    var apart := DayIndex(b.start) - DayIndex(s.prev);
    if apart <= 0 {
      assert NewDay(s, b, hours) == s && NewDay(s2, b, hours) == s2;
    } else if apart > 1 {
      NextDayStart(s.prev);
      NextDayStart(s2.prev);
      AuxSlotsSameDay(s.prev + DaySeconds, s2.prev + DaySeconds, b.start - DaySeconds, hours);
    }
  }

  /** Recording a busy slot overwrites the previous busy start. */
  lemma AdvanceIgnoresPrev(t: State, t2: State, b: Slot)
    requires t.free == t2.free && t.cur == t2.cur
    ensures Advance(t, b) == Advance(t2, b)
  {
  }

  /** Without clipping, the walk reads its start only through its day. */
  lemma AuxSlotsSameDay(start: Timestamp, start2: Timestamp, end: Timestamp, hours: seq<Option<Slot>>)
    requires |hours| == 7 && StartOfDay(start) == StartOfDay(start2)
    ensures AuxSlots(start, end, hours, false) == AuxSlots(start2, end, hours, false)
  {
  }

  /** The day after `t` starts one day after `t`'s day does. */
  lemma NextDayStart(t: Timestamp)
    ensures StartOfDay(t + DaySeconds) == StartOfDay(t) + DaySeconds
  {
    SameDay(t + DaySeconds, StartOfDay(t) + DaySeconds);
  }

  /** Hence the loop gives the same result from two starting instants on the
      same calendar day. */
  lemma {:induction false} RunSameDay(s: State, s2: State, xs: seq<Slot>, hours: seq<Option<Slot>>)
    requires |hours| == 7 && |xs| > 0 && s.free == s2.free && s.cur == s2.cur && DayIndex(s.prev) == DayIndex(s2.prev)
    ensures Run(s, xs, hours) == Run(s2, xs, hours)
    decreases |xs|
  {
    var n := |xs| - 1;
    if n == 0 {
      assert xs[..n] == [];
      StepSameDay(s, s2, xs[n], hours);
    } else {
      RunSameDay(s, s2, xs[..n], hours);
    }
  }

  /** When the busy events are sorted by start, and each one, widened by the
      minimum break, starts no earlier than the day the search starts and no
      later than the search ends, and ends on the day it starts, no free slot
      overlaps a widened busy event. */
  lemma FreeSlotsDisjoint(busy: seq<Slot>, searchStart: Timestamp, searchEnd: Timestamp, minBreak: Duration,
                          tc: seq<seq<Slot>>)
    requires |tc| == 7
    requires forall i, k :: 0 <= i < k < |busy| ==> busy[i].start <= busy[k].start
    requires forall i :: 0 <= i < |busy| ==>
               DayIndex(searchStart) <= DayIndex(busy[i].start - minBreak) && busy[i].start - minBreak <= searchEnd
    requires forall i :: 0 <= i < |busy| ==> DayIndex(busy[i].start - minBreak) == DayIndex(busy[i].end + minBreak)
    ensures forall x, i :: x in FreeSlots(busy, searchStart, searchEnd, minBreak, tc) && 0 <= i < |busy| ==>
              x.end <= busy[i].start - minBreak || busy[i].end + minBreak <= x.start
  {
    if |busy| > 0 {
      var hours := WorkingHours(tc);
      var opening := Opening(searchStart, searchEnd, hours);
      var xs := Processed(busy, searchEnd, minBreak);
      ProcessedReady(busy, searchStart, searchEnd, minBreak);
      var p := Min(searchStart, xs[0].start);
      assert DayIndex(p) == DayIndex(searchStart) by {
        DayIndexMonotone(p, searchStart);
      }
      var init := State([], searchStart, opening);
      var from := State([], p, opening);
      if DayHours(searchStart, hours).Some? {
        DayHoursWorking(searchStart, hours);
      }
      assert Inv(from, []);
      RunInv(from, xs, hours);
      RunSameDay(init, from, xs, hours);
      var free := Run(init, xs, hours).free;
      assert FreeSlots(busy, searchStart, searchEnd, minBreak, tc) == free;
      forall x, i | x in free && 0 <= i < |busy|
        ensures x.end <= busy[i].start - minBreak || busy[i].end + minBreak <= x.start
      {
        assert xs[i] == Slot(busy[i].start - minBreak, busy[i].end + minBreak);
        assert xs[i] in xs;
        assert Apart(x, xs[i]);
      }
    }
  }

  /* ---------------------------------------------------------------- cases */

  /** Hours 08:30-19:00 on every weekday. */
  function EveryDay(): seq<Option<Slot>>
  {
    seq(7, d => Some(Slot(30600, 68400)))
  }

  /** With `consider`, a search ending before the last day opens yields an
      inverted slot for that day: from 10:00 on one day to 07:00 on the next
      gives 10:00-19:00 and then 08:30-07:00. */
  lemma InvertedLastDay()
    ensures AuxSlots(36000, DaySeconds + 25200, EveryDay(), true) ==
              [Slot(36000, 68400), Slot(DaySeconds + 30600, DaySeconds + 25200)]
  {
    var hours := EveryDay();
    var end := DaySeconds + 25200;
    assert AuxWalk(2 * DaySeconds, end, hours, true) == [];
    assert AuxDay(DaySeconds, end, hours, true) == [Slot(DaySeconds + 30600, end)];
    assert AuxWalk(DaySeconds, end, hours, true) == [Slot(DaySeconds + 30600, end)];
    assert AuxDay(36000, end, hours, true) == [Slot(36000, 68400)];
  }

  /** An event running past midnight is not carried into the next day: busy from
      23:00 to 10:00 the next morning, searching from 20:00 to 17:00 the next day
      with hours 09:00-17:00, offers the next day from 09:00. */
  lemma OvernightEventOverlap()
    ensures var tc := seq(7, d => [Slot(32400, 61200)]);
            FreeSlots([Slot(82800, DaySeconds + 36000)], 72000, DaySeconds + 61200, 0, tc) ==
              [Slot(DaySeconds + 32400, DaySeconds + 61200)]
  {
    var tc := seq(7, d => [Slot(32400, 61200)]);
    var hours := WorkingHours(tc);
    var busy := [Slot(82800, DaySeconds + 36000)];
    var se := DaySeconds + 61200;
    var xs := Processed(busy, se, 0);
    assert xs == [Slot(82800, DaySeconds + 36000), Slot(se, EndOfDay(se))];
    var init := State([], 72000, Opening(72000, se, hours));
    assert Opening(72000, se, hours) == Some(Slot(72000, 61200));
    var s1 := Step(init, xs[0], hours);
    assert s1 == State([], 82800, Some(Slot(72000, 61200)));
    assert xs[..1] == [xs[0]];
    assert Run(init, xs[..1], hours) == s1;
    assert DayHours(se, hours) == Some(Slot(DaySeconds + 32400, DaySeconds + 61200));
    assert NewDay(s1, xs[1], hours) == State([], 82800, Some(Slot(DaySeconds + 32400, DaySeconds + 61200)));
    assert xs[..2][..1] == xs[..1];
    assert xs[..2] == xs;
  }
  /** A busy event on a day before the search starts breaks disjointness: with
      hours 09:00-17:00, busy from 23:00 to 23:30 the day before and from 13:00
      to 14:00, searching from 12:00 to 17:00 offers 12:00-17:00 whole, and then
      09:00-13:00 and 14:00-17:00 once the new day's hours are loaded. */
  lemma EarlierDayEventOverlap()
    ensures var tc := seq(7, d => [Slot(32400, 61200)]);
            FreeSlots([Slot(82800, 84600), Slot(DaySeconds + 46800, DaySeconds + 50400)],
                      DaySeconds + 43200, DaySeconds + 61200, 0, tc) ==
              [Slot(DaySeconds + 43200, DaySeconds + 61200), Slot(DaySeconds + 32400, DaySeconds + 46800),
               Slot(DaySeconds + 50400, DaySeconds + 61200)]
  {
    var tc := seq(7, d => [Slot(32400, 61200)]);
    var hours := WorkingHours(tc);
    var busy := [Slot(82800, 84600), Slot(DaySeconds + 46800, DaySeconds + 50400)];
    var ss, se := DaySeconds + 43200, DaySeconds + 61200;
    var xs := Processed(busy, se, 0);
    assert xs == [Slot(82800, 84600), Slot(DaySeconds + 46800, DaySeconds + 50400), Slot(se, EndOfDay(se))];
    var init := State([], ss, Opening(ss, se, hours));
    assert Opening(ss, se, hours) == Some(Slot(ss, se));
    var s1 := Step(init, xs[0], hours);
    assert s1 == State([], 82800, Some(Slot(ss, se)));
    assert xs[..1] == [xs[0]];
    assert Run(init, xs[..1], hours) == s1;
    assert DayHours(xs[1].start, hours) == Some(Slot(DaySeconds + 32400, se));
    var s2 := Step(s1, xs[1], hours);
    assert s2 == State([Slot(ss, se), Slot(DaySeconds + 32400, DaySeconds + 46800)], DaySeconds + 46800,
                       Some(Slot(DaySeconds + 50400, se)));
    assert xs[..2][..1] == xs[..1];
    assert Run(init, xs[..2], hours) == s2;
    assert xs[..3][..2] == xs[..2];
    assert xs[..3] == xs;
  }
}
