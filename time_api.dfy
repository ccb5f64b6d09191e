/** The string helpers of api/time.js: the `HH:MM` extraction used on ISO
    strings, and the if/else day-name lookup. */
module TimeApi {
  import opened Intervals
  import TimeLib

  /** `\d` without the `u` flag: an ASCII digit. */
  predicate IsDigit(c: char) { '0' <= c <= '9' }

  /** `/\d\d:\d\d/` matches `s` at position `j`. */
  predicate TimeAt(s: string, j: int)
  {
    0 <= j && j + 5 <= |s| &&
    IsDigit(s[j]) && IsDigit(s[j + 1]) && s[j + 2] == ':' && IsDigit(s[j + 3]) && IsDigit(s[j + 4])
  }

  /** The leftmost match at or after position `k`, as the regular expression
      engine finds it scanning left to right. */
  function FirstTime(s: string, k: nat): (r: Option<nat>)
    ensures r.None? <==> forall j :: k <= j ==> !TimeAt(s, j)
    ensures r.Some? ==> k <= r.value && TimeAt(s, r.value) && forall j :: k <= j < r.value ==> !TimeAt(s, j)
    decreases |s| - k
  {
    if k + 5 > |s| then None
    else if TimeAt(s, k) then Some(k)
    else FirstTime(s, k + 1)
  }

  /** `getTimeFromISO(isoDate)`: the first `dd:dd` substring. When there is
      none, `match` returns `null` and `result[0]` is a `TypeError`, modelled as
      `None`. */
  function GetTimeFromISO(isoDate: string): (r: Option<string>)
    ensures r.None? <==> forall j :: 0 <= j ==> !TimeAt(isoDate, j)
    ensures r.Some? ==>
              |r.value| == 5 && r.value[2] == ':' &&
              exists j :: TimeAt(isoDate, j) && r.value == isoDate[j..j + 5] &&
                          forall i :: 0 <= i < j ==> !TimeAt(isoDate, i)
  {
    match FirstTime(isoDate, 0)
    case None => None
    case Some(j) => Some(isoDate[j..j + 5])
  }

  /** The shape `YYYY-MM-DDTHH:MM...` of an ISO date-time. */
  predicate IsoDateTime(s: string)
  {
    |s| >= 16 &&
    (forall i :: 0 <= i < 4 ==> IsDigit(s[i])) && s[4] == '-' &&
    IsDigit(s[5]) && IsDigit(s[6]) && s[7] == '-' &&
    IsDigit(s[8]) && IsDigit(s[9]) && s[10] == 'T' &&
    IsDigit(s[11]) && IsDigit(s[12]) && s[13] == ':' && IsDigit(s[14]) && IsDigit(s[15])
  }

  /** On an ISO date-time the extracted time is the hour and minute, whatever
      follows (seconds, fractions, an offset such as `+01:00`). */
  lemma IsoTime(s: string)
    requires IsoDateTime(s)
    ensures GetTimeFromISO(s) == Some(s[11..16])
  {
    forall j | 0 <= j < 11 ensures !TimeAt(s, j) {
      assert s[j + 2] != ':';
    }
    assert TimeAt(s, 11);
    var r := FirstTime(s, 0);
    assert r == Some(11);
  }

  /** `getDayOfWeek(day)` of api/time.js: the first abbreviation, in weekday
      order, that the lower-cased input contains. */
  function DayOfWeek(day: string): (r: int)
    ensures -1 <= r < 7
    ensures r == -1 <==> forall k :: 0 <= k < 7 ==> !TimeLib.Contains(TimeLib.ToLower(day), TimeLib.Abbreviations[k])
    ensures r != -1 ==>
              TimeLib.Contains(TimeLib.ToLower(day), TimeLib.Abbreviations[r]) &&
              forall k :: 0 <= k < r ==> !TimeLib.Contains(TimeLib.ToLower(day), TimeLib.Abbreviations[k])
  {
    var dayToCheck := TimeLib.ToLower(day);
    assert TimeLib.Abbreviations[0] == "mon" && TimeLib.Abbreviations[1] == "tue" && TimeLib.Abbreviations[2] == "wed" &&
           TimeLib.Abbreviations[3] == "thu" && TimeLib.Abbreviations[4] == "fri" && TimeLib.Abbreviations[5] == "sat" &&
           TimeLib.Abbreviations[6] == "sun";
    if TimeLib.Contains(dayToCheck, "mon") then 0
    else if TimeLib.Contains(dayToCheck, "tue") then 1
    else if TimeLib.Contains(dayToCheck, "wed") then 2
    else if TimeLib.Contains(dayToCheck, "thu") then 3
    else if TimeLib.Contains(dayToCheck, "fri") then 4
    else if TimeLib.Contains(dayToCheck, "sat") then 5
    else if TimeLib.Contains(dayToCheck, "sun") then 6
    else -1
  }

  /** The two `getDayOfWeek`s agree on every string, the empty one included
      (lib/time.js tests for it explicitly; here no abbreviation fits in it). */
  lemma DayOfWeekPortsAgree(day: string)
    ensures DayOfWeek(day) == TimeLib.DayOfWeek(day)
  {
    var s := TimeLib.ToLower(day);
    if |day| == 0 {
      forall k | 0 <= k < 7 ensures !TimeLib.Contains(s, TimeLib.Abbreviations[k]) {
      }
    } else {
      assert TimeLib.FirstAbbrev(s, 7) == -1;
    }
  }
}
