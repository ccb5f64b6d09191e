/** The two-pointer sweep that both ports run to intersect an accumulated window
    list with one more free-slot list (src/scheduler.js:147-167,
    src/scheduler.py:47-59), and the pairwise reduction built from it. */
module Sweep {
  import opened Intervals

  /** What the sweep emits from pointer position `(i, j)` on: the qualifying
      overlap of `a[i]` and `b[j]`, then the rest after advancing `i` when `a[i]`
      ends strictly before `b[j]`, and `j` otherwise (a tie advances `j`). */
  function SweepFrom(a: seq<Slot>, b: seq<Slot>, d: Duration, i: nat, j: nat): seq<Slot>
    requires i <= |a| && j <= |b|
    decreases |a| - i + |b| - j
  {
    if i == |a| || j == |b| then []
    else if a[i].end < b[j].end then Emit(a[i], b[j], d) + SweepFrom(a, b, d, i + 1, j)
    else Emit(a[i], b[j], d) + SweepFrom(a, b, d, i, j + 1)
  }

  /** The window one step of the sweep appends: the qualifying overlap, if any. */
  function Emit(x: Slot, y: Slot, d: Duration): (r: seq<Slot>)
    ensures |r| <= 1
    ensures |r| == 1 <==> Intersection(x, y, d).Some?
    ensures |r| == 1 ==> r[0] == Intersection(x, y, d).value
  {
    match Intersection(x, y, d)
    case Some(w) => [w]
    case None => []
  }

  /** The qualifying windows of two lists: the sweep from `(0, 0)`. */
  function Intersect(a: seq<Slot>, b: seq<Slot>, d: Duration): seq<Slot>
  {
    SweepFrom(a, b, d, 0, 0)
  }

  /** The sweep as the loop runs it: `acc` holds what was already appended. */
  function SweepAcc(a: seq<Slot>, b: seq<Slot>, d: Duration, i: nat, j: nat, acc: seq<Slot>): seq<Slot>
    requires i <= |a| && j <= |b|
    decreases |a| - i + |b| - j
  {
    if i == |a| || j == |b| then acc
    else if a[i].end < b[j].end then SweepAcc(a, b, d, i + 1, j, acc + Emit(a[i], b[j], d))
    else SweepAcc(a, b, d, i, j + 1, acc + Emit(a[i], b[j], d))
  }

  /** Running the loop from `(i, j)` appends exactly the rest of the sweep. */
  lemma {:induction false} SweepAccFrom(a: seq<Slot>, b: seq<Slot>, d: Duration, i: nat, j: nat, acc: seq<Slot>)
    requires i <= |a| && j <= |b|
    ensures SweepAcc(a, b, d, i, j, acc) == acc + SweepFrom(a, b, d, i, j)
    decreases |a| - i + |b| - j
  {
    if i == |a| || j == |b| {
      assert acc + [] == acc;
    } else {
      var here := Emit(a[i], b[j], d);
      var i2, j2 := if a[i].end < b[j].end then i + 1 else i, if a[i].end < b[j].end then j else j + 1;
      SweepAccFrom(a, b, d, i2, j2, acc + here);
      SweepStep(a, b, d, i, j);
      assert (acc + here) + SweepFrom(a, b, d, i2, j2) == acc + (here + SweepFrom(a, b, d, i2, j2));
    }
  }

  /** The inner `while` loop of both ports. */
  method SweepLists(ans: seq<Slot>, schedule: seq<Slot>, d: Duration) returns (curr: seq<Slot>)
    ensures curr == Intersect(ans, schedule, d)
    ensures forall w :: w in curr ==> w.start + d <= w.end && InsideSome(w, ans) && InsideSome(w, schedule)
  {
    curr := [];
    var i, j := 0, 0;
    while i < |ans| && j < |schedule|
      invariant 0 <= i <= |ans| && 0 <= j <= |schedule|
      invariant SweepAcc(ans, schedule, d, i, j, curr) == SweepAcc(ans, schedule, d, 0, 0, [])
      decreases |ans| - i + |schedule| - j
    {
      ghost var before := curr;
      var intersection := Intersection(ans[i], schedule[j], d);
      if intersection.Some? {
        curr := curr + [intersection.value];
      }
      assert curr == before + Emit(ans[i], schedule[j], d);
      if ans[i].end < schedule[j].end {
        i := i + 1;
      } else {
        j := j + 1;
      }
    }
    SweepAccFrom(ans, schedule, d, 0, 0, []);
    assert [] + Intersect(ans, schedule, d) == Intersect(ans, schedule, d);
    IntersectSound(ans, schedule, d);
  }

  /** Every window of the intersection is at least `d` long and lies inside a
      slot of each list. */
  lemma IntersectSound(a: seq<Slot>, b: seq<Slot>, d: Duration)
    ensures forall w :: w in Intersect(a, b, d) ==> w.start + d <= w.end && InsideSome(w, a) && InsideSome(w, b)
  {
    SweepSound(a, b, d, 0, 0);
    forall w | w in Intersect(a, b, d) ensures InsideSome(w, a) && InsideSome(w, b) {
      var k :| 0 <= k < |a| && Inside(w, a[k]);
      var m :| 0 <= m < |b| && Inside(w, b[m]);
    }
  }

  /** Soundness: every emitted window is at least `d` long and lies inside a slot
      of each list at or after the pointers it was emitted from. */
  lemma {:induction false} SweepSound(a: seq<Slot>, b: seq<Slot>, d: Duration, i: nat, j: nat)
    requires i <= |a| && j <= |b|
    ensures forall w :: w in SweepFrom(a, b, d, i, j) ==>
              w.start + d <= w.end &&
              (exists k :: i <= k < |a| && Inside(w, a[k])) &&
              (exists m :: j <= m < |b| && Inside(w, b[m]))
    decreases |a| - i + |b| - j
  {
    if i < |a| && j < |b| {
      var i2, j2 := if a[i].end < b[j].end then i + 1 else i, if a[i].end < b[j].end then j else j + 1;
      SweepSound(a, b, d, i2, j2);
      SweepStep(a, b, d, i, j);
      var here := Emit(a[i], b[j], d);
      forall w | w in here + SweepFrom(a, b, d, i2, j2)
        ensures w.start + d <= w.end
        ensures exists k :: i <= k < |a| && Inside(w, a[k])
        ensures exists m :: j <= m < |b| && Inside(w, b[m])
      {
        if w in here {
          assert Inside(w, a[i]) && Inside(w, b[j]);
        } else {
          var k :| i2 <= k < |a| && Inside(w, a[k]);
          var m :| j2 <= m < |b| && Inside(w, b[m]);
        }
      }
    }
  }

  /** One unfolding of the sweep: the overlap at `(i, j)`, then the sweep from
      the advanced pointers. */
  lemma SweepStep(a: seq<Slot>, b: seq<Slot>, d: Duration, i: nat, j: nat)
    requires i < |a| && j < |b|
    ensures SweepFrom(a, b, d, i, j) ==
            Emit(a[i], b[j], d) +
            SweepFrom(a, b, d, if a[i].end < b[j].end then i + 1 else i, if a[i].end < b[j].end then j else j + 1)
  {
  }

  /** Order: for well-formed inputs and a non-negative duration the emitted
      windows form a well-formed sequence. */
  lemma {:induction false} SweepWellFormed(a: seq<Slot>, b: seq<Slot>, d: Duration, i: nat, j: nat)
    requires WellFormed(a) && WellFormed(b) && d >= 0
    requires i <= |a| && j <= |b|
    ensures WellFormed(SweepFrom(a, b, d, i, j))
    decreases |a| - i + |b| - j
  {
    if i < |a| && j < |b| {
      if a[i].end < b[j].end {
        SweepWellFormed(a, b, d, i + 1, j);
        PrependStep(a, b, d, i, j, i + 1, j);
      } else {
        SweepWellFormed(a, b, d, i, j + 1);
        PrependStep(a, b, d, i, j, i, j + 1);
      }
    }
  }

  /** One step of the sweep keeps its output well formed. */
  lemma PrependStep(a: seq<Slot>, b: seq<Slot>, d: Duration, i: nat, j: nat, i2: nat, j2: nat)
    requires WellFormed(a) && WellFormed(b) && d >= 0
    requires i < |a| && j < |b|
    requires if a[i].end < b[j].end then i2 == i + 1 && j2 == j else i2 == i && j2 == j + 1
    requires WellFormed(SweepFrom(a, b, d, i2, j2))
    ensures WellFormed(SweepFrom(a, b, d, i, j))
  {
    var here := Emit(a[i], b[j], d);
    var rest := SweepFrom(a, b, d, i2, j2);
    assert SweepFrom(a, b, d, i, j) == here + rest;
    if |here| == 1 {
      BeforeRest(a, b, d, i, j, i2, j2);
      PrependWellFormed(here[0], rest);
      assert here == [here[0]];
    } else {
      assert here + rest == rest;
    }
  }

  /** The overlap of `a[i]` and `b[j]` ends before anything the sweep emits
      once one of the two pointers has moved past it. */
  lemma BeforeRest(a: seq<Slot>, b: seq<Slot>, d: Duration, i: nat, j: nat, i2: nat, j2: nat)
    requires WellFormed(a) && WellFormed(b)
    requires i < |a| && j < |b| && Intersection(a[i], b[j], d).Some?
    requires (i2 == i + 1 && j2 == j) || (i2 == i && j2 == j + 1)
    requires i2 <= |a| && j2 <= |b|
    ensures var rest := SweepFrom(a, b, d, i2, j2);
            |rest| > 0 ==> Intersection(a[i], b[j], d).value.end <= rest[0].start
  {
    var rest := SweepFrom(a, b, d, i2, j2);
    if |rest| > 0 {
      SweepSound(a, b, d, i2, j2);
      assert rest[0] in rest;
      if i2 == i + 1 {
        var k :| i2 <= k < |a| && Inside(rest[0], a[k]);
        WellFormedOrdered(a, i, k);
      } else {
        var m :| j2 <= m < |b| && Inside(rest[0], b[m]);
        WellFormedOrdered(b, j, m);
      }
    }
  }

  lemma PrependWellFormed(w: Slot, rest: seq<Slot>)
    requires WellFormed(rest) && w.start <= w.end
    requires |rest| > 0 ==> w.end <= rest[0].start
    ensures WellFormed([w] + rest)
  {
    var r := [w] + rest;
    forall k | 0 <= k < |r| - 1 ensures r[k].end <= r[k + 1].start {
      if k > 0 {
        assert r[k] == rest[k - 1] && r[k + 1] == rest[k];
      }
    }
  }

  /** Completeness: for well-formed inputs and a non-negative duration, a meeting
      that fits in a slot of each list at or after the pointers fits in some
      emitted window. */
  lemma {:induction false} SweepComplete(a: seq<Slot>, b: seq<Slot>, d: Duration, i: nat, j: nat,
                                         t: Timestamp, k: nat, m: nat)
    requires WellFormed(a) && WellFormed(b) && d >= 0
    requires i <= k < |a| && j <= m < |b|
    requires Fits(t, d, a[k]) && Fits(t, d, b[m])
    ensures FitsIn(t, d, SweepFrom(a, b, d, i, j))
    decreases |a| - i + |b| - j
  {
    var here := Emit(a[i], b[j], d);
    if Fits(t, d, a[i]) && Fits(t, d, b[j]) {
      assert SweepFrom(a, b, d, i, j)[0] == here[0];
    } else if a[i].end < b[j].end {
      if k == i {
        WellFormedOrdered(b, j, m);
        assert false;
      }
      var rest := SweepFrom(a, b, d, i + 1, j);
      SweepComplete(a, b, d, i + 1, j, t, k, m);
      SuffixFits(here, rest, t, d);
    } else {
      if m == j {
        WellFormedOrdered(a, i, k);
        assert false;
      }
      var rest := SweepFrom(a, b, d, i, j + 1);
      SweepComplete(a, b, d, i, j + 1, t, k, m);
      SuffixFits(here, rest, t, d);
    }
  }

  lemma SuffixFits(here: seq<Slot>, rest: seq<Slot>, t: Timestamp, d: Duration)
    requires FitsIn(t, d, rest)
    ensures FitsIn(t, d, here + rest)
  {
    var n :| 0 <= n < |rest| && Fits(t, d, rest[n]);
    assert (here + rest)[|here| + n] == rest[n];
  }

  /** The pairwise reduction: intersect the accumulator with each list in turn. */
  function Reduce(acc: seq<Slot>, lists: seq<seq<Slot>>, d: Duration): seq<Slot>
    decreases |lists|
  {
    if |lists| == 0 then acc else Reduce(Intersect(acc, lists[0], d), lists[1..], d)
  }

  /** Soundness of the reduction: each surviving window lies inside a slot of the
      seed and of every list, and it is at least `d` long once one list was swept. */
  lemma {:induction false} ReduceSound(acc: seq<Slot>, lists: seq<seq<Slot>>, d: Duration)
    ensures forall w :: w in Reduce(acc, lists, d) ==>
              InsideSome(w, acc) &&
              (forall p :: 0 <= p < |lists| ==> InsideSome(w, lists[p])) &&
              (|lists| > 0 ==> w.start + d <= w.end)
    decreases |lists|
  {
    if |lists| > 0 {
      var next := Intersect(acc, lists[0], d);
      ReduceSound(next, lists[1..], d);
      SweepSound(acc, lists[0], d, 0, 0);
      forall w | w in Reduce(acc, lists, d)
        ensures InsideSome(w, acc) && forall p :: 0 <= p < |lists| ==> InsideSome(w, lists[p])
      {
        assert InsideSome(w, next);
        var n :| 0 <= n < |next| && Inside(w, next[n]);
        assert next[n] in next;
        var k :| 0 <= k < |acc| && Inside(next[n], acc[k]);
        assert Inside(w, acc[k]);
        forall p | 0 <= p < |lists| ensures InsideSome(w, lists[p]) {
          if p == 0 {
            var m :| 0 <= m < |lists[0]| && Inside(next[n], lists[0][m]);
            assert Inside(w, lists[0][m]);
          } else {
            assert lists[p] == lists[1..][p - 1];
          }
        }
      }
      if |lists| > 1 {
        forall w | w in Reduce(acc, lists, d) ensures w.start + d <= w.end {
          var n :| 0 <= n < |next| && Inside(w, next[n]);
          assert next[n] in next;
        }
      }
    }
  }

  /** Order is kept: well-formed inputs give a well-formed result. */
  lemma {:induction false} ReduceWellFormed(acc: seq<Slot>, lists: seq<seq<Slot>>, d: Duration)
    requires d >= 0 && WellFormed(acc)
    requires forall p :: 0 <= p < |lists| ==> WellFormed(lists[p])
    ensures WellFormed(Reduce(acc, lists, d))
    decreases |lists|
  {
    if |lists| > 0 {
      SweepWellFormed(acc, lists[0], d, 0, 0);
      ReduceWellFormed(Intersect(acc, lists[0], d), lists[1..], d);
    }
  }

  /** Completeness of the reduction: a meeting that fits in the seed and in every
      list fits in a surviving window. */
  lemma {:induction false} ReduceComplete(acc: seq<Slot>, lists: seq<seq<Slot>>, d: Duration, t: Timestamp)
    requires d >= 0 && WellFormed(acc)
    requires forall p :: 0 <= p < |lists| ==> WellFormed(lists[p])
    requires FitsIn(t, d, acc)
    requires forall p :: 0 <= p < |lists| ==> FitsIn(t, d, lists[p])
    ensures FitsIn(t, d, Reduce(acc, lists, d))
    decreases |lists|
  {
    if |lists| > 0 {
      var k :| 0 <= k < |acc| && Fits(t, d, acc[k]);
      assert FitsIn(t, d, lists[0]);
      var m :| 0 <= m < |lists[0]| && Fits(t, d, lists[0][m]);
      SweepComplete(acc, lists[0], d, 0, 0, t, k, m);
      SweepWellFormed(acc, lists[0], d, 0, 0);
      forall p | 0 <= p < |lists[1..]| ensures WellFormed(lists[1..][p]) && FitsIn(t, d, lists[1..][p]) {
        assert lists[1..][p] == lists[p + 1];
      }
      ReduceComplete(Intersect(acc, lists[0], d), lists[1..], d, t);
    }
  }
}
