/** The day-name, day-table and ISO-string helpers of lib/time.js. Instants are
    the integer timestamps of `Intervals`; a string Luxon cannot parse (an
    invalid DateTime, whose value is NaN) is `None`. */
module TimeLib {
  import opened Intervals

  /** `{startTime, endTime}`: two ISO strings copied verbatim. */
  datatype TimeRange = TimeRange(startTime: string, endTime: string)

  const DayNames: seq<string> :=
    ["Monday", "Tuesday", "Wednesday", "Thursday", "Friday", "Saturday", "Sunday"]

  /** The lower-case three-letter abbreviations searched for by `getDayOfWeek`. */
  const Abbreviations: seq<string> := ["mon", "tue", "wed", "thu", "fri", "sat", "sun"]

  // ---------------------------------------------------------------------------
  // getBusyDays

  /** Name `name` makes weekday `d` (Monday = 0) busy. */
  predicate Covers(name: string, d: int)
  {
    0 <= d < 7 &&
    (name == DayNames[d] || name == "Everyday" ||
     (name == "Weekend" && d >= 5) || (name == "Weekdays" && d < 5))
  }

  /** Some name of `days` makes weekday `d` busy. */
  predicate Named(days: seq<string>, d: int)
  {
    exists name :: name in days && Covers(name, d)
  }

  /** The `switch` on one day name, applied to the seven flags. */
  function Mark(flags: seq<int>, name: string): (r: seq<int>)
    requires |flags| == 7
    ensures |r| == 7
  {
    if name == "Monday" then flags[0 := 1]
    else if name == "Tuesday" then flags[1 := 1]
    else if name == "Wednesday" then flags[2 := 1]
    else if name == "Thursday" then flags[3 := 1]
    else if name == "Friday" then flags[4 := 1]
    else if name == "Saturday" then flags[5 := 1]
    else if name == "Sunday" then flags[6 := 1]
    else if name == "Everyday" then [1, 1, 1, 1, 1, 1, 1]
    else if name == "Weekend" then flags[5 := 1][6 := 1]
    else if name == "Weekdays" then [1, 1, 1, 1, 1, flags[5], flags[6]]
    else flags
  }

  /** The flags after the loop over `days`. */
  function BusyDayFlags(days: seq<string>): (r: seq<int>)
    ensures |r| == 7
    decreases |days|
  {
    if |days| == 0 then [0, 0, 0, 0, 0, 0, 0]
    else Mark(BusyDayFlags(days[..|days| - 1]), days[|days| - 1])
  }

  /** `getBusyDays(days)`, each day given by its `stringValue`. */
  method GetBusyDays(days: seq<string>) returns (busy: array<int>)
    ensures fresh(busy) && busy.Length == 7
    ensures busy[..] == BusyDayFlags(days)
  {
    busy := new int[7](_ => 0);
    assert busy[..] == [0, 0, 0, 0, 0, 0, 0];
    for n := 0 to |days|
      invariant busy[..] == BusyDayFlags(days[..n])
    {
      assert days[..n + 1][..n] == days[..n];
      ghost var before := busy[..];
      var name := days[n];
      if name == "Monday" {
        busy[0] := 1;
      } else if name == "Tuesday" {
        busy[1] := 1;
      } else if name == "Wednesday" {
        busy[2] := 1;
      } else if name == "Thursday" {
        busy[3] := 1;
      } else if name == "Friday" {
        busy[4] := 1;
      } else if name == "Saturday" {
        busy[5] := 1;
      } else if name == "Sunday" {
        busy[6] := 1;
      } else if name == "Everyday" {
        for i := 0 to 7
          invariant forall k :: 0 <= k < 7 ==> busy[k] == (if k < i then 1 else before[k])
        {
          busy[i] := 1;
        }
        assert busy[..] == [1, 1, 1, 1, 1, 1, 1];
      } else if name == "Weekend" {
        busy[5] := 1;
        busy[6] := 1;
      } else if name == "Weekdays" {
        for i := 0 to 5
          invariant forall k :: 0 <= k < 7 ==> busy[k] == (if k < i then 1 else before[k])
        {
          busy[i] := 1;
        }
        assert busy[..] == Mark(before, name);
      }
    }
    assert days[..|days|] == days;
  }

  /** One name sets exactly the weekdays it covers and leaves the rest alone;
      an unrecognised name changes nothing. */
  lemma MarkCovers(flags: seq<int>, name: string)
    requires |flags| == 7
    ensures forall d :: 0 <= d < 7 ==> Mark(flags, name)[d] == (if Covers(name, d) then 1 else flags[d])
  {
  }

  /** A flag is 1 exactly when some name covers its weekday, and 0 otherwise:
      the result is the union of the named days. */
  lemma {:induction false} BusyDaysExact(days: seq<string>)
    ensures forall d :: 0 <= d < 7 ==> BusyDayFlags(days)[d] == (if Named(days, d) then 1 else 0)
    decreases |days|
  {
    if |days| > 0 {
      var prefix := days[..|days| - 1];
      var name := days[|days| - 1];
      BusyDaysExact(prefix);
      MarkCovers(BusyDayFlags(prefix), name);
      assert days == prefix + [name];
      forall d | 0 <= d < 7 ensures Named(days, d) <==> Named(prefix, d) || Covers(name, d) {
        if Named(prefix, d) {
          var other :| other in prefix && Covers(other, d);
          assert other in days;
        }
        if Covers(name, d) {
          assert name in days;
        }
      }
    }
  }

  /** Input order and duplicates do not matter: only the set of names does. */
  lemma BusyDaysOrderFree(a: seq<string>, b: seq<string>)
    requires forall name :: name in a <==> name in b
    ensures BusyDayFlags(a) == BusyDayFlags(b)
  {
    BusyDaysExact(a);
    BusyDaysExact(b);
    forall d | 0 <= d < 7 ensures BusyDayFlags(a)[d] == BusyDayFlags(b)[d] {
      assert Named(a, d) <==> Named(b, d);
    }
  }

  // ---------------------------------------------------------------------------
  // getBusyTimes

  /** A Dialogflow struct's fields, each given by its `stringValue`, has both keys. */
  predicate HasRange(fields: map<string, string>)
  {
    "startTime" in fields && "endTime" in fields
  }

  /** `getBusyTimes(times)`: a missing `startTime` or `endTime` field is the
      `TypeError` of reading `.stringValue` of `undefined`, modelled as `None`. */
  method GetBusyTimes(times: seq<map<string, string>>) returns (r: Option<seq<TimeRange>>)
    ensures r.Some? <==> forall i :: 0 <= i < |times| ==> HasRange(times[i])
    ensures r.Some? ==>
              |r.value| == |times| &&
              forall i :: 0 <= i < |times| ==>
                HasRange(times[i]) && r.value[i] == TimeRange(times[i]["startTime"], times[i]["endTime"])
  {
    var busyTimes: seq<TimeRange> := [];
    for n := 0 to |times|
      invariant |busyTimes| == n
      invariant forall i :: 0 <= i < n ==>
                  HasRange(times[i]) && busyTimes[i] == TimeRange(times[i]["startTime"], times[i]["endTime"])
    {
      var fields := times[n];
      if !HasRange(fields) {
        return None;
      }
      busyTimes := busyTimes + [TimeRange(fields["startTime"], fields["endTime"])];
    }
    return Some(busyTimes);
  }

  // ---------------------------------------------------------------------------
  // getDayOfWeek and getDayOfWeekFromInt

  /** `toLowerCase` on ASCII letters. */
  function LowerChar(c: char): (r: char)
    ensures 'A' <= c <= 'Z' ==> r as int == c as int + 32
    ensures !('A' <= c <= 'Z') ==> r == c
  {
    if 'A' <= c <= 'Z' then (c as int + 32) as char else c
  }

  function ToLower(s: string): (r: string)
    ensures |r| == |s| && forall i :: 0 <= i < |s| ==> r[i] == LowerChar(s[i])
    decreases |s|
  {
    if |s| == 0 then [] else [LowerChar(s[0])] + ToLower(s[1..])
  }

  predicate ContainsAt(s: string, sub: string, k: int)
  {
    0 <= k && k + |sub| <= |s| && s[k..k + |sub|] == sub
  }

  /** `s.includes(sub)`. */
  predicate Contains(s: string, sub: string)
  {
    exists k :: 0 <= k <= |s| - |sub| && ContainsAt(s, sub, k)
  }

  /** The first of `map`/`filter`'s surviving indices from `i` on, or -1. */
  function FirstAbbrev(s: string, i: nat): (r: int)
    requires i <= 7
    ensures r == -1 || i <= r < 7
    ensures r == -1 <==> forall k :: i <= k < 7 ==> !Contains(s, Abbreviations[k])
    ensures r != -1 ==>
              Contains(s, Abbreviations[r]) && forall k :: i <= k < r ==> !Contains(s, Abbreviations[k])
    decreases 7 - i
  {
    if i == 7 then -1
    else if Contains(s, Abbreviations[i]) then i
    else FirstAbbrev(s, i + 1)
  }

  /** `getDayOfWeek(dayOfWeek)`: -1 exactly for the empty string and for strings
      containing no abbreviation; otherwise the least weekday whose abbreviation
      the lower-cased input contains. */
  function DayOfWeek(dayOfWeek: string): (r: int)
    ensures -1 <= r < 7
    ensures r == -1 <==>
              |dayOfWeek| == 0 || forall k :: 0 <= k < 7 ==> !Contains(ToLower(dayOfWeek), Abbreviations[k])
    ensures r != -1 ==>
              Contains(ToLower(dayOfWeek), Abbreviations[r]) &&
              forall k :: 0 <= k < r ==> !Contains(ToLower(dayOfWeek), Abbreviations[k])
  {
    if |dayOfWeek| == 0 then -1 else FirstAbbrev(ToLower(dayOfWeek), 0)
  }

  /** `getDayOfWeekFromInt(dayNumber)`: the out-of-range lookup is `undefined`,
      which `|| "UNKNOWN"` replaces. */
  function DayOfWeekFromInt(dayNumber: int): (r: string)
    ensures 1 <= dayNumber <= 7 ==> r == Abbreviation(dayNumber - 1)
    ensures !(1 <= dayNumber <= 7) ==> r == "UNKNOWN"
  {
    var options := ["Mon", "Tue", "Wed", "Thu", "Fri", "Sat", "Sun"];
    if 1 <= dayNumber <= 7 then options[dayNumber - 1] else "UNKNOWN"
  }

  /** The capitalised abbreviation of weekday `d`. */
  function Abbreviation(d: int): string
    requires 0 <= d < 7
  {
    [(Abbreviations[d][0] as int - 32) as char] + Abbreviations[d][1..]
  }

  /** A lower-cased name in which no abbreviation occurs is not recognised. */
  lemma Unrecognised(name: string, lower: string)
    requires ToLower(name) == lower && MissesBefore(lower, 7)
    ensures DayOfWeek(name) == -1
  {
    forall e | 0 <= e < 7 ensures !Contains(lower, Abbreviations[e]) {
    }
  }

  /** The scans below check, word by word, that no abbreviation occurs at any
      position of a concrete lower-case string. */
  lemma ScanEveryday()
    ensures MissesBefore("everyday", 7)
  {
    var s := "everyday";
    forall e, k | 0 <= e < 7 && 0 <= k <= |s| - 3 ensures !ContainsAt(s, Abbreviations[e], k) {
      assert s[k..k + 3][0] == s[k] && s[k..k + 3][1] == s[k + 1] && s[k..k + 3][2] == s[k + 2];
    }
  }

  lemma ScanWeekend()
    ensures MissesBefore("weekend", 7)
  {
    var s := "weekend";
    forall e, k | 0 <= e < 7 && 0 <= k <= |s| - 3 ensures !ContainsAt(s, Abbreviations[e], k) {
      assert s[k..k + 3][0] == s[k] && s[k..k + 3][1] == s[k + 1] && s[k..k + 3][2] == s[k + 2];
    }
  }

  lemma ScanWeekdays()
    ensures MissesBefore("weekdays", 7)
  {
    var s := "weekdays";
    forall e, k | 0 <= e < 7 && 0 <= k <= |s| - 3 ensures !ContainsAt(s, Abbreviations[e], k) {
      assert s[k..k + 3][0] == s[k] && s[k..k + 3][1] == s[k + 1] && s[k..k + 3][2] == s[k + 2];
    }
  }

  lemma ScanHoliday()
    ensures MissesBefore("holiday", 7)
  {
    var s := "holiday";
    forall e, k | 0 <= e < 7 && 0 <= k <= |s| - 3 ensures !ContainsAt(s, Abbreviations[e], k) {
      assert s[k..k + 3][0] == s[k] && s[k..k + 3][1] == s[k + 1] && s[k..k + 3][2] == s[k + 2];
    }
  }

  lemma ScanUnknown()
    ensures MissesBefore("unknown", 7)
  {
    var s := "unknown";
    forall e, k | 0 <= e < 7 && 0 <= k <= |s| - 3 ensures !ContainsAt(s, Abbreviations[e], k) {
      assert s[k..k + 3][0] == s[k] && s[k..k + 3][1] == s[k + 1] && s[k..k + 3][2] == s[k + 2];
    }
  }

  /** The full day name of weekday `d` is recognised as that weekday. */
  lemma NamedDay(name: string, d: int)
    requires 0 <= d < 7 && name == DayNames[d]
    ensures DayOfWeek(name) == d
  {
    if d == 0 {
      RecognisesMonday();
    } else if d == 1 {
      RecognisesTuesday();
    } else if d == 2 {
      RecognisesWednesday();
    } else if d == 3 {
      RecognisesThursday();
    } else if d == 4 {
      RecognisesFriday();
    } else if d == 5 {
      RecognisesSaturday();
    } else if d == 6 {
      RecognisesSunday();
    }
  }

  /** None of the first `d` abbreviations occurs in `s`. */
  predicate MissesBefore(s: string, d: int)
  {
    forall e, k :: 0 <= e < d && 0 <= e < 7 && 0 <= k <= |s| - 3 ==> !ContainsAt(s, Abbreviations[e], k)
  }

  /** The lower-cased name of weekday `d`, as `getDayOfWeek` scans it, is found
      at weekday `d`. */
  lemma Recognises(name: string, lower: string, d: int)
    requires 0 <= d < 7 && ToLower(name) == lower && |lower| >= 3
    requires lower[..3] == Abbreviations[d] && MissesBefore(lower, d)
    ensures DayOfWeek(name) == d
  {
    assert ContainsAt(lower, Abbreviations[d], 0);
    forall e | 0 <= e < d ensures !Contains(lower, Abbreviations[e]) {
    }
  }

  lemma RecognisesMonday()
    ensures DayOfWeek("Monday") == 0
  {
    assert ToLower("Monday") == "monday";
    Recognises("Monday", "monday", 0);
  }

  lemma RecognisesTuesday()
    ensures DayOfWeek("Tuesday") == 1
  {
    ScanTuesday();
    assert ToLower("Tuesday") == "tuesday";
    Recognises("Tuesday", "tuesday", 1);
  }

  lemma ScanTuesday()
    ensures MissesBefore("tuesday", 1)
  {
    var s := "tuesday";
    forall e, k | 0 <= e < 1 && 0 <= k <= |s| - 3 ensures !ContainsAt(s, Abbreviations[e], k) {
      assert s[k..k + 3][0] == s[k] && s[k..k + 3][1] == s[k + 1] && s[k..k + 3][2] == s[k + 2];
    }
  }

  lemma RecognisesWednesday()
    ensures DayOfWeek("Wednesday") == 2
  {
    ScanWednesday();
    LowerMatches("Wednesday", "wednesday");
    Recognises("Wednesday", "wednesday", 2);
  }

  /** `ToLower(s)` is `t` when `t` is `s` lower-cased character by character. */
  lemma LowerMatches(s: string, t: string)
    requires |s| == |t| && forall i :: 0 <= i < |s| ==> LowerChar(s[i]) == t[i]
    ensures ToLower(s) == t
  {
  }

  lemma ScanWednesday()
    ensures MissesBefore("wednesday", 2)
  {
    var s := "wednesday";
    forall e, k | 0 <= e < 2 && 0 <= k <= |s| - 3 ensures !ContainsAt(s, Abbreviations[e], k) {
      assert s[k..k + 3][0] == s[k] && s[k..k + 3][1] == s[k + 1] && s[k..k + 3][2] == s[k + 2];
    }
  }

  lemma RecognisesThursday()
    ensures DayOfWeek("Thursday") == 3
  {
    ScanThursday();
    assert ToLower("Thursday") == "thursday";
    Recognises("Thursday", "thursday", 3);
  }

  lemma ScanThursday()
    ensures MissesBefore("thursday", 3)
  {
    var s := "thursday";
    forall e, k | 0 <= e < 3 && 0 <= k <= |s| - 3 ensures !ContainsAt(s, Abbreviations[e], k) {
      assert s[k..k + 3][0] == s[k] && s[k..k + 3][1] == s[k + 1] && s[k..k + 3][2] == s[k + 2];
    }
  }

  lemma RecognisesFriday()
    ensures DayOfWeek("Friday") == 4
  {
    ScanFriday();
    assert ToLower("Friday") == "friday";
    Recognises("Friday", "friday", 4);
  }

  lemma ScanFriday()
    ensures MissesBefore("friday", 4)
  {
    var s := "friday";
    forall e, k | 0 <= e < 4 && 0 <= k <= |s| - 3 ensures !ContainsAt(s, Abbreviations[e], k) {
      assert s[k..k + 3][0] == s[k] && s[k..k + 3][1] == s[k + 1] && s[k..k + 3][2] == s[k + 2];
    }
  }

  lemma RecognisesSaturday()
    ensures DayOfWeek("Saturday") == 5
  {
    ScanSaturday();
    assert ToLower("Saturday") == "saturday";
    Recognises("Saturday", "saturday", 5);
  }

  lemma ScanSaturday()
    ensures MissesBefore("saturday", 5)
  {
    var s := "saturday";
    forall e, k | 0 <= e < 5 && 0 <= k <= |s| - 3 ensures !ContainsAt(s, Abbreviations[e], k) {
      assert s[k..k + 3][0] == s[k] && s[k..k + 3][1] == s[k + 1] && s[k..k + 3][2] == s[k + 2];
    }
  }

  lemma RecognisesSunday()
    ensures DayOfWeek("Sunday") == 6
  {
    ScanSunday();
    assert ToLower("Sunday") == "sunday";
    Recognises("Sunday", "sunday", 6);
  }

  lemma ScanSunday()
    ensures MissesBefore("sunday", 6)
  {
    var s := "sunday";
    forall e, k | 0 <= e < 6 && 0 <= k <= |s| - 3 ensures !ContainsAt(s, Abbreviations[e], k) {
      assert s[k..k + 3][0] == s[k] && s[k..k + 3][1] == s[k + 1] && s[k..k + 3][2] == s[k + 2];
    }
  }

  /** A lower-case abbreviation is recognised as its own weekday. */
  lemma ExactAbbreviation(s: string, d: int)
    requires 0 <= d < 7 && s == Abbreviations[d]
    ensures DayOfWeek(s) == d
  {
    assert ContainsAt(s, Abbreviations[d], 0);
    forall e, k | 0 <= e < d && 0 <= k <= |s| - 3 ensures !ContainsAt(s, Abbreviations[e], k) {
      assert k == 0 && s[0..3] == s;
    }
    assert ToLower(s) == s;
  }

  /** `getDayOfWeek` inverts `getDayOfWeekFromInt` on 1..7 and sends
      "UNKNOWN" to -1. */
  lemma FromIntRoundTrip(dayNumber: int)
    ensures DayOfWeek(DayOfWeekFromInt(dayNumber)) == (if 1 <= dayNumber <= 7 then dayNumber - 1 else -1)
  {
    var name := DayOfWeekFromInt(dayNumber);
    if 1 <= dayNumber <= 7 {
      var d := dayNumber - 1;
      assert ToLower(name) == Abbreviations[d];
      ExactAbbreviation(Abbreviations[d], d);
    } else {
      ScanUnknown();
      assert ToLower(name) == "unknown";
      Unrecognised(name, "unknown");
    }
  }

  // ---------------------------------------------------------------------------
  // generateTimeRangesForDaysOfWeek

  /** Weekday `d` receives the range for day name `dayOfWeek`. */
  predicate Selected(dayOfWeek: string, d: int)
  {
    var dayIndex := DayOfWeek(dayOfWeek);
    if dayIndex != -1 then d == dayIndex
    else if dayOfWeek == "Weekend" then 5 <= d <= 6
    else if dayOfWeek == "Weekdays" then 0 <= d <= 4
    else 0 <= d <= 6
  }

  /** The seven-entry table for `dayOfWeek` and `range`. */
  function RangesFor(dayOfWeek: string, range: TimeRange): (r: seq<seq<TimeRange>>)
    ensures |r| == 7
  {
    seq(7, d requires 0 <= d < 7 => if Selected(dayOfWeek, d) then [range] else [])
  }

  /** `generateTimeRangesForDaysOfWeek(dayOfWeek, start, end)`. */
  method GenerateTimeRanges(dayOfWeek: string, startTimeRange: string, endTimeRange: string)
    returns (busyDays: array<seq<TimeRange>>)
    ensures fresh(busyDays) && busyDays.Length == 7
    ensures busyDays[..] == RangesFor(dayOfWeek, TimeRange(startTimeRange, endTimeRange))
  {
    var range := TimeRange(startTimeRange, endTimeRange);
    busyDays := new seq<TimeRange>[7](_ => []);
    var dayIndex := DayOfWeek(dayOfWeek);
    if dayIndex != -1 {
      busyDays[dayIndex] := [range];
      assert busyDays[..] == RangesFor(dayOfWeek, range);
      return;
    }
    if dayOfWeek == "Weekend" {
      for day := 5 to 7
        invariant forall k :: 0 <= k < 7 ==> busyDays[k] == (if 5 <= k < day then [range] else [])
      {
        busyDays[day] := [range];
      }
      assert busyDays[..] == RangesFor(dayOfWeek, range);
      return;
    }
    if dayOfWeek == "Weekdays" {
      for day := 0 to 5
        invariant forall k :: 0 <= k < 7 ==> busyDays[k] == (if k < day then [range] else [])
      {
        busyDays[day] := [range];
      }
      assert busyDays[..] == RangesFor(dayOfWeek, range);
      return;
    }
    for day := 0 to 7
      invariant forall k :: 0 <= k < 7 ==> busyDays[k] == (if k < day then [range] else [])
    {
      busyDays[day] := [range];
    }
    assert busyDays[..] == RangesFor(dayOfWeek, range);
  }

  /** Every entry is either the single range or empty, and a name recognised
      by `getDayOfWeek` fills exactly its own weekday. */
  lemma RangesShape(dayOfWeek: string, range: TimeRange)
    ensures forall d :: 0 <= d < 7 ==> RangesFor(dayOfWeek, range)[d] in {[range], []}
    ensures DayOfWeek(dayOfWeek) != -1 ==>
              forall d :: 0 <= d < 7 ==> (RangesFor(dayOfWeek, range)[d] == [range] <==> d == DayOfWeek(dayOfWeek))
  {
  }

  /** For the ten names `getBusyDays` recognises, the range table fills exactly
      the weekdays `getBusyDays` marks. */
  lemma RangesAgreeWithBusyDays(name: string, range: TimeRange)
    requires name in DayNames + ["Everyday", "Weekend", "Weekdays"]
    ensures forall d :: 0 <= d < 7 ==> (RangesFor(name, range)[d] == [range] <==> BusyDayFlags([name])[d] == 1)
  {
    RangesSelected(name, range);
    FlagsCover(name);
    SelectedCovers(name);
  }

  /** The range table holds `[range]` exactly at the selected weekdays. */
  lemma RangesSelected(name: string, range: TimeRange)
    ensures forall d :: 0 <= d < 7 ==> (RangesFor(name, range)[d] == [range] <==> Selected(name, d))
  {
    forall d | 0 <= d < 7 ensures RangesFor(name, range)[d] == [range] <==> Selected(name, d) {
      assert RangesFor(name, range)[d] == (if Selected(name, d) then [range] else []);
      assert [range] != [];
    }
  }

  /** A single name marks exactly the weekdays it covers. */
  lemma FlagsCover(name: string)
    ensures forall d :: 0 <= d < 7 ==> (BusyDayFlags([name])[d] == 1 <==> Covers(name, d))
  {
    assert [name][..0] == [];
    assert BusyDayFlags([name][..0]) == [0, 0, 0, 0, 0, 0, 0];
    assert BusyDayFlags([name]) == Mark(BusyDayFlags([name][..0]), name);
    MarkCovers([0, 0, 0, 0, 0, 0, 0], name);
  }

  /** On the recognised names, `Selected` and `Covers` agree. */
  lemma SelectedCovers(name: string)
    requires name in DayNames + ["Everyday", "Weekend", "Weekdays"]
    ensures forall d :: 0 <= d < 7 ==> (Selected(name, d) <==> Covers(name, d))
  {
    if name in DayNames {
      var d :| 0 <= d < 7 && name == DayNames[d];
      SelectedCoversDay(name, d);
    } else {
      SelectedCoversGroup(name);
    }
  }

  lemma SelectedCoversGroup(name: string)
    requires name in ["Everyday", "Weekend", "Weekdays"]
    ensures forall d :: 0 <= d < 7 ==> (Selected(name, d) <==> Covers(name, d))
  {
    if name == "Everyday" {
      EverydayUnrecognised();
    } else if name == "Weekend" {
      WeekendUnrecognised();
    } else {
      WeekdaysUnrecognised();
    }
  }

  lemma SelectedCoversDay(name: string, d: int)
    requires 0 <= d < 7 && name == DayNames[d]
    ensures forall e :: 0 <= e < 7 ==> (Selected(name, e) <==> Covers(name, e))
  {
    NamedDay(name, d);
    EverydayUnrecognised();
    WeekendUnrecognised();
    WeekdaysUnrecognised();
    assert name != "Everyday" && name != "Weekend" && name != "Weekdays";
    forall e | 0 <= e < 7 ensures Selected(name, e) <==> Covers(name, e) {
      NamedDay(DayNames[e], e);
      SelectedCoversAt(name, d, e);
    }
  }

  lemma SelectedCoversAt(name: string, d: int, e: int)
    requires 0 <= d < 7 && 0 <= e < 7
    requires name == DayNames[d] && DayOfWeek(name) == d && DayOfWeek(DayNames[e]) == e
    requires name != "Everyday" && name != "Weekend" && name != "Weekdays"
    ensures Selected(name, e) <==> Covers(name, e)
  {
  }

  /** The three group names contain no weekday abbreviation. */
  lemma EverydayUnrecognised()
    ensures DayOfWeek("Everyday") == -1
  {
    ScanEveryday();
    assert ToLower("Everyday") == "everyday";
    Unrecognised("Everyday", "everyday");
  }

  lemma WeekendUnrecognised()
    ensures DayOfWeek("Weekend") == -1
  {
    ScanWeekend();
    assert ToLower("Weekend") == "weekend";
    Unrecognised("Weekend", "weekend");
  }

  lemma WeekdaysUnrecognised()
    ensures DayOfWeek("Weekdays") == -1
  {
    ScanWeekdays();
    assert ToLower("Weekdays") == "weekdays";
    Unrecognised("Weekdays", "weekdays");
  }

  /** A name neither function knows gets the range on every weekday from
      `generateTimeRangesForDaysOfWeek` but marks no weekday in `getBusyDays`. */
  lemma UnknownNameDiffers(range: TimeRange)
    ensures forall d :: 0 <= d < 7 ==> RangesFor("Holiday", range)[d] == [range]
    ensures BusyDayFlags(["Holiday"]) == [0, 0, 0, 0, 0, 0, 0]
  {
    assert ["Holiday"][..0] == [];
    ScanHoliday();
    assert ToLower("Holiday") == "holiday";
    Unrecognised("Holiday", "holiday");
  }

  // ---------------------------------------------------------------------------
  // compareDateTime, isBetweenTimes, getDurationInMinutes

  /** `s.substring(0, 17)`. */
  function Prefix17(s: string): string
  {
    if |s| < 17 then s else s[..17]
  }

  /** `compareDateTime(time1, time2)`: equal up to the minute for ISO strings. */
  function CompareDateTime(time1: string, time2: string): (r: bool)
    ensures r <==> (|time1| >= 17 && |time2| >= 17 && time1[..17] == time2[..17]) ||
                   (|time1| < 17 && time1 == time2)
  {
    Prefix17(time1) == Prefix17(time2)
  }

  /** `compareDateTime` is an equivalence: reflexive, symmetric, transitive. */
  lemma CompareDateTimeEquivalence(a: string, b: string, c: string)
    ensures CompareDateTime(a, a)
    ensures CompareDateTime(a, b) == CompareDateTime(b, a)
    ensures CompareDateTime(a, b) && CompareDateTime(b, c) ==> CompareDateTime(a, c)
  {
  }

  /** `isBetweenTimes(dateTime, startRange, endRange)`; an unparsable
      `dateTime` compares false against everything. */
  function IsBetweenTimes(dateTime: Option<Timestamp>, startRange: Timestamp, endRange: Timestamp): (r: bool)
    ensures r <==> dateTime.Some? && StartsAt(dateTime.value, [Slot(startRange, endRange)])
  {
    if dateTime.Some? && startRange <= dateTime.value && dateTime.value <= endRange then
      assert [Slot(startRange, endRange)][0] == Slot(startRange, endRange);
      true
    else false
  }

  /** Both bounds are inclusive. */
  lemma IsBetweenInclusive(startRange: Timestamp, endRange: Timestamp)
    ensures IsBetweenTimes(Some(startRange), startRange, endRange) <==> startRange <= endRange
    ensures IsBetweenTimes(Some(endRange), startRange, endRange) <==> startRange <= endRange
  {
  }

  /** `getDurationInMinutes(start, end)`: `end - start` in (fractional) minutes;
      an unparsable endpoint yields NaN, modelled as `None`. */
  function DurationInMinutes(start: Option<Timestamp>, end: Option<Timestamp>): (r: Option<real>)
    ensures r.Some? <==> start.Some? && end.Some?
    ensures r.Some? ==> r.value * 60.0 == (end.value - start.value) as real
  {
    if start.Some? && end.Some? then Some((end.value - start.value) as real / 60.0) else None
  }

  /** Durations add up along a chain of instants, swap sign when the ends swap,
      and a whole number of minutes comes back unchanged. */
  lemma DurationAdditive(a: Timestamp, b: Timestamp, c: Timestamp, minutes: int)
    ensures DurationInMinutes(Some(a), Some(b)).value + DurationInMinutes(Some(b), Some(c)).value
            == DurationInMinutes(Some(a), Some(c)).value
    ensures DurationInMinutes(Some(a), Some(b)).value == -DurationInMinutes(Some(b), Some(a)).value
    ensures DurationInMinutes(Some(a), Some(a + 60 * minutes)).value == minutes as real
  {
  }
}
