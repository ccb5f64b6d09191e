/** `merge` of src/scheduler.js and the sort that precedes it in
    `generateConstraints`: one weekday's availability ranges are sorted by start
    (ties by end) and overlapping or touching ranges are coalesced. */
module Merging {
  import opened Intervals

  /** The comparator `a[0] - b[0] || a[1] - b[1]`: by start, then by end. */
  predicate LexLe(a: Slot, b: Slot)
  {
    a.start < b.start || (a.start == b.start && a.end <= b.end)
  }

  predicate LexSorted(s: seq<Slot>)
  {
    forall i, k :: 0 <= i < k < |s| ==> LexLe(s[i], s[k])
  }

  predicate SortedByStart(s: seq<Slot>)
  {
    forall i, k :: 0 <= i < k < |s| ==> s[i].start <= s[k].start
  }

  /** Insert `x` into a sorted sequence at its place. */
  function Insert(x: Slot, s: seq<Slot>): (r: seq<Slot>)
    requires LexSorted(s)
    ensures LexSorted(r)
    ensures multiset(r) == multiset(s) + multiset{x}
    decreases |s|
  {
    if |s| == 0 then [x]
    else if LexLe(x, s[0]) then
      InsertFront(x, s);
      [x] + s
    else
      var rest := Insert(x, s[1..]);
      assert s == [s[0]] + s[1..];
      InsertBehind(s[0], x, s[1..], rest);
      [s[0]] + rest
  }

  lemma InsertFront(x: Slot, s: seq<Slot>)
    requires LexSorted(s) && |s| > 0 && LexLe(x, s[0])
    ensures LexSorted([x] + s)
  {
    var r := [x] + s;
    forall i, k | 0 <= i < k < |r| ensures LexLe(r[i], r[k]) {
      if i == 0 {
        assert r[k] == s[k - 1];
        if k > 1 {
          assert LexLe(s[0], s[k - 1]);
        }
      } else {
        assert r[i] == s[i - 1] && r[k] == s[k - 1];
      }
    }
  }

  lemma InsertBehind(y: Slot, x: Slot, s: seq<Slot>, rest: seq<Slot>)
    requires LexSorted([y] + s) && !LexLe(x, y)
    requires LexSorted(rest) && multiset(rest) == multiset(s) + multiset{x}
    ensures LexSorted([y] + rest)
  {
    var r := [y] + rest;
    forall i, k | 0 <= i < k < |r| ensures LexLe(r[i], r[k]) {
      if i == 0 {
        var z := rest[k - 1];
        assert z in multiset(rest);
        if z != x {
          assert z in multiset(s);
          var n :| 0 <= n < |s| && s[n] == z;
          assert ([y] + s)[0] == y && ([y] + s)[n + 1] == z;
        }
        assert r[0] == y && r[k] == z;
      } else {
        assert r[i] == rest[i - 1] && r[k] == rest[k - 1];
      }
    }
  }

  /** The in-place `.sort(...)`: an ordered permutation of the input. */
  function SortSlots(s: seq<Slot>): (r: seq<Slot>)
    ensures LexSorted(r)
    ensures multiset(r) == multiset(s)
    decreases |s|
  {
    if |s| == 0 then []
    else
      assert s == [s[0]] + s[1..];
      Insert(s[0], SortSlots(s[1..]))
  }

  /** One step of `merge`: start a new range when `r` begins strictly after the
      last one ends, otherwise extend the last one's end if `r` reaches further. */
  function MergeInto(result: seq<Slot>, r: Slot): seq<Slot>
  {
    if |result| == 0 then [r]
    else
      var last := result[|result| - 1];
      if r.start > last.end then result + [r]
      else if r.end > last.end then result[..|result| - 1] + [Slot(last.start, r.end)]
      else result
  }

  /** What `merge(ranges)` returns. */
  function Merged(ranges: seq<Slot>): seq<Slot>
    decreases |ranges|
  {
    if |ranges| == 0 then [] else MergeInto(Merged(ranges[..|ranges| - 1]), ranges[|ranges| - 1])
  }

  /** `merge(ranges)`. */
  method Merge(ranges: seq<Slot>) returns (result: seq<Slot>)
    ensures result == Merged(ranges)
  {
    result := [];
    var last: Slot;
    for i := 0 to |ranges|
      invariant result == Merged(ranges[..i])
    {
      assert ranges[..i + 1][..i] == ranges[..i];
      var r := ranges[i];
      if |result| > 0 {
        last := result[|result| - 1];
        if r.start > last.end {
          result := result + [r];
          last := r;
        } else if r.end > last.end {
          last := Slot(last.start, r.end);
          result := result[..|result| - 1] + [last];
        }
      } else {
        result := result + [r];
        last := r;
      }
    }
    assert ranges[..|ranges|] == ranges;
  }

  /** Each merged range starts strictly after the previous one ends. */
  predicate Separated(s: seq<Slot>)
  {
    forall k :: 0 <= k < |s| - 1 ==> s[k].end < s[k + 1].start
  }

  predicate PointIn(t: Timestamp, s: Slot) { s.start <= t <= s.end }

  /** Instant `t` lies in some range of `s`. */
  predicate Covered(t: Timestamp, s: seq<Slot>)
  {
    exists i :: 0 <= i < |s| && PointIn(t, s[i])
  }

  /** A merge step keeps every earlier range's start and never shortens it. */
  lemma MergeIntoGrows(result: seq<Slot>, r: Slot)
    ensures |result| <= |MergeInto(result, r)|
    ensures forall k :: 0 <= k < |result| ==>
              MergeInto(result, r)[k].start == result[k].start && result[k].end <= MergeInto(result, r)[k].end
  {
  }

  /** The output is separated, whatever the input. */
  lemma {:induction false} MergedSeparated(ranges: seq<Slot>)
    ensures Separated(Merged(ranges))
    decreases |ranges|
  {
    if |ranges| > 0 {
      var prev := Merged(ranges[..|ranges| - 1]);
      MergedSeparated(ranges[..|ranges| - 1]);
      var m := MergeInto(prev, ranges[|ranges| - 1]);
      forall k | 0 <= k < |m| - 1 ensures m[k].end < m[k + 1].start {
        if k + 1 < |prev| {
          assert m[k] == prev[k] && m[k + 1].start == prev[k + 1].start;
        }
      }
    }
  }

  /** Every merged range starts where some input range starts. */
  lemma {:induction false} MergedStarts(ranges: seq<Slot>)
    ensures forall k :: 0 <= k < |Merged(ranges)| ==>
              exists i :: 0 <= i < |ranges| && Merged(ranges)[k].start == ranges[i].start
    decreases |ranges|
  {
    if |ranges| > 0 {
      var n := |ranges| - 1;
      var prev := Merged(ranges[..n]);
      MergedStarts(ranges[..n]);
      MergeIntoGrows(prev, ranges[n]);
      var m := Merged(ranges);
      forall k | 0 <= k < |m| ensures exists i :: 0 <= i < |ranges| && m[k].start == ranges[i].start {
        if k < |prev| {
          var i :| 0 <= i < n && prev[k].start == ranges[..n][i].start;
          assert ranges[i] == ranges[..n][i];
          assert m[k].start == ranges[i].start;
        } else {
          assert m[k].start == ranges[n].start;
        }
      }
    } else {
      assert Merged(ranges) == [];
    }
  }

  /** Given input sorted by start, every input range lies inside a merged range. */
  lemma {:induction false} MergedCovers(ranges: seq<Slot>)
    requires SortedByStart(ranges)
    ensures forall i :: 0 <= i < |ranges| ==> InsideSome(ranges[i], Merged(ranges))
    decreases |ranges|
  {
    if |ranges| > 0 {
      var n := |ranges| - 1;
      var pre := ranges[..n];
      PrefixReady(ranges);
      MergedCovers(pre);
      CoversStep(pre, ranges[n]);
      assert pre + [ranges[n]] == ranges;
      assert Merged(ranges) == MergeInto(Merged(pre), ranges[n]);
    }
  }

  /** The prefix of a sorted sequence is sorted, and its merge ends with a range
      starting no later than the last element. */
  lemma PrefixReady(ranges: seq<Slot>)
    requires SortedByStart(ranges) && |ranges| > 0
    ensures SortedByStart(ranges[..|ranges| - 1])
    ensures var prev := Merged(ranges[..|ranges| - 1]);
            |prev| > 0 ==> prev[|prev| - 1].start <= ranges[|ranges| - 1].start
  {
    var n := |ranges| - 1;
    var pre := ranges[..n];
    var prev := Merged(pre);
    assert forall i :: 0 <= i < n ==> pre[i] == ranges[i];
    if |prev| > 0 {
      MergedStarts(pre);
      var j :| 0 <= j < n && prev[|prev| - 1].start == pre[j].start;
      assert pre[j].start <= ranges[n].start;
    }
  }

  /** One merge step keeps every earlier range covered and covers the new one. */
  lemma CoversStep(pre: seq<Slot>, r: Slot)
    requires forall i :: 0 <= i < |pre| ==> InsideSome(pre[i], Merged(pre))
    requires var prev := Merged(pre); |prev| > 0 ==> prev[|prev| - 1].start <= r.start
    ensures forall i :: 0 <= i < |pre| + 1 ==> InsideSome((pre + [r])[i], MergeInto(Merged(pre), r))
  {
    var prev := Merged(pre);
    forall i | 0 <= i < |pre| + 1 ensures InsideSome((pre + [r])[i], MergeInto(prev, r)) {
      if i < |pre| {
        assert (pre + [r])[i] == pre[i];
        EarlierStaysCovered(prev, r, pre[i]);
      } else {
        assert (pre + [r])[i] == r;
        LatestCovered(prev, r);
      }
    }
  }

  /** A range inside the merge so far stays inside after one more step. */
  lemma EarlierStaysCovered(result: seq<Slot>, r: Slot, x: Slot)
    requires InsideSome(x, result)
    ensures InsideSome(x, MergeInto(result, r))
  {
    MergeIntoGrows(result, r);
    var k :| 0 <= k < |result| && Inside(x, result[k]);
    assert Inside(x, MergeInto(result, r)[k]);
  }

  /** The range just merged lies inside the result, provided it does not start
      before the last merged range. */
  lemma LatestCovered(result: seq<Slot>, r: Slot)
    requires |result| > 0 ==> result[|result| - 1].start <= r.start
    ensures InsideSome(r, MergeInto(result, r))
  {
    var m := MergeInto(result, r);
    assert Inside(r, m[|m| - 1]);
  }

  /** Every instant of a merged range lies in some input range: merging adds no time. */
  lemma {:induction false} MergedSound(ranges: seq<Slot>)
    ensures forall k, t :: 0 <= k < |Merged(ranges)| && PointIn(t, Merged(ranges)[k]) ==> Covered(t, ranges)
    decreases |ranges|
  {
    if |ranges| > 0 {
      var n := |ranges| - 1;
      var r := ranges[n];
      var prev := Merged(ranges[..n]);
      var m := Merged(ranges);
      MergedSound(ranges[..n]);
      forall k, t | 0 <= k < |m| && PointIn(t, m[k]) ensures Covered(t, ranges) {
        if k < |prev| && PointIn(t, prev[k]) {
          assert Covered(t, ranges[..n]);
          var i :| 0 <= i < n && PointIn(t, ranges[..n][i]);
          assert ranges[i] == ranges[..n][i];
        } else {
          assert PointIn(t, ranges[n]);
        }
      }
    }
  }

  /** Merging ordered ranges gives ordered ranges. */
  lemma {:induction false} MergedOrdered(ranges: seq<Slot>)
    requires forall i :: 0 <= i < |ranges| ==> ranges[i].start <= ranges[i].end
    ensures forall k :: 0 <= k < |Merged(ranges)| ==> Merged(ranges)[k].start <= Merged(ranges)[k].end
    decreases |ranges|
  {
    if |ranges| > 0 {
      var n := |ranges| - 1;
      MergedOrdered(ranges[..n]);
      MergeIntoGrows(Merged(ranges[..n]), ranges[n]);
    }
  }
}
