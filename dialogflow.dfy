/** The parameter parsing of lib/dialogflow.js: a meeting duration's unit
    converted to minutes, and the flags and default ranges derived from a
    specific date or time and a date or time range. The clock read
    `DateTime.local()` is the parameter `today`. */
module Dialogflow {
  import opened Intervals

  // ---------------------------------------------------------------------------
  // parseDuration

  /** The `fields` of a Dialogflow duration struct: the unit's `stringValue`
      (absent = `undefined`) and the amount's `numberValue`. */
  datatype DurationFields = DurationFields(unit: Option<string>, amount: real)

  /** A `meeting` object, with or without a `fields` member. */
  datatype DurationStruct = DurationStruct(fields: Option<DurationFields>)

  /** Minutes in one unit, from the length of an hour and of a day in seconds. */
  function MinutesPer(unit: string): (r: Option<real>)
    ensures r.Some? <==> unit in {"min", "h", "d"}
  {
    if unit == "min" then Some(1.0)
    else if unit == "h" then Some(3600.0 / 60.0)
    else if unit == "d" then Some((DaySeconds / 60) as real)
    else None
  }

  /** `parseDuration(meeting)`: minutes for the units "min", "h" and "d";
      `null` (`None`) for a missing meeting, a meeting without `fields`, or any
      other unit. */
  function ParseDuration(meeting: Option<DurationStruct>): (r: Option<real>)
    ensures r.Some? <==>
              meeting.Some? && meeting.value.fields.Some? && meeting.value.fields.value.unit.Some? &&
              MinutesPer(meeting.value.fields.value.unit.value).Some?
    ensures r.Some? ==>
              r.value == meeting.value.fields.value.amount * MinutesPer(meeting.value.fields.value.unit.value).value
  {
    if meeting.Some? && meeting.value.fields.Some? then
      var unit := meeting.value.fields.value.unit;
      var duration := meeting.value.fields.value.amount;
      if unit == Some("min") then Some(duration)
      else if unit == Some("h") then Some(duration * 60.0)
      else if unit == Some("d") then
        assert (DaySeconds / 60) as real == 24.0 * 60.0;
        Some(duration * 24.0 * 60.0)
      else None
    else None
  }

  function Meeting(unit: string, amount: real): DurationStruct
  {
    DurationStruct(Some(DurationFields(Some(unit), amount)))
  }

  /** The three units agree with one another: an hour is 60 minutes and a day
      is 24 hours. */
  lemma DurationUnitsAgree(amount: real)
    ensures ParseDuration(Some(Meeting("h", amount))) == ParseDuration(Some(Meeting("min", amount * 60.0)))
    ensures ParseDuration(Some(Meeting("d", amount))) == ParseDuration(Some(Meeting("h", amount * 24.0)))
    ensures ParseDuration(Some(Meeting("min", amount))) == Some(amount)
  {
  }

  // ---------------------------------------------------------------------------
  // _parseDateRange and _parseTimeRange

  /** A Dialogflow `Value` as the parsers read it: its `stringValue` (absent =
      `undefined`) and, when it is a struct, its fields, each given by its own
      `stringValue`. A field present in the map is a (truthy) object. */
  datatype Value = Value(stringValue: Option<string>, structValue: Option<map<string, Option<string>>>)

  /** `!v.stringValue`: `undefined` and `""` are falsy. */
  predicate Falsy(s: Option<string>) { s.None? || s.value == "" }

  /** A range endpoint as the parsers produce it. `Text` copies a Dialogflow
      string through; `At` is an instant derived from `today`, formatted by
      `toISO`; `DayStart`/`DayEnd` are `DateTime.fromISO(text).startOf("day")`
      and `.endOf("day")`, which depend on parsing the text. */
  datatype Endpoint = Text(text: Option<string>) | At(instant: Timestamp) | DayStart(of: Option<string>) | DayEnd(of: Option<string>)

  datatype Range = Range(start: Endpoint, end: Endpoint)

  /** `{ dateRange | timeRange, flexible, dateRangeSpecified | timeRangeSpecified }`. */
  datatype Parsed = Parsed(range: Range, flexible: bool, specified: bool)

  const TwoHours: int := 2 * 3600
  const FourteenDays: int := 14 * DaySeconds

  /** `_parseDateRange(specificDateObj, dateRangeObj)` with `TODAY` = `today`. */
  function ParseDateRange(specificDate: Value, dateRange: Value, today: Timestamp): (r: Parsed)
    ensures !r.specified <==>
              Falsy(specificDate.stringValue) && Falsy(dateRange.stringValue) && dateRange.structValue.None?
    ensures !r.flexible <==> dateRange.structValue.None? && specificDate.stringValue != Some("")
  {
    var specified :=
      !(Falsy(specificDate.stringValue) && Falsy(dateRange.stringValue) && dateRange.structValue.None?);
    var defaults := Range(At(today + TwoHours), At(today + FourteenDays));
    if dateRange.structValue.Some? then
      var time := dateRange.structValue.value;
      if "endDate" in time && "startDate" in time then
        Parsed(Range(Text(time["startDate"]), Text(time["endDate"])), true, specified)
      else
        Parsed(defaults, true, specified)
    else if specificDate.stringValue != Some("") then
      Parsed(Range(DayStart(specificDate.stringValue), DayEnd(specificDate.stringValue)), false, specified)
    else
      Parsed(defaults, true, specified)
  }

  /** `_parseTimeRange(specificTimeObj, timeRangeObj)` with `TODAY` = `today`. */
  function ParseTimeRange(specificTime: Value, timeRange: Value, today: Timestamp): (r: Parsed)
    ensures !r.specified <==>
              Falsy(specificTime.stringValue) && Falsy(timeRange.stringValue) && timeRange.structValue.None?
    ensures !r.flexible <==> specificTime.stringValue != Some("")
  {
    var specified :=
      !(Falsy(specificTime.stringValue) && Falsy(timeRange.stringValue) && timeRange.structValue.None?);
    var defaults := Range(At(StartOfDay(today)), At(EndOfDay(today)));
    if specificTime.stringValue != Some("") then
      Parsed(Range(Text(specificTime.stringValue), Text(specificTime.stringValue)), false, specified)
    else if timeRange.structValue.Some? then
      var time := timeRange.structValue.value;
      if "endTime" in time && "startTime" in time then
        Parsed(Range(Text(time["startTime"]), Text(time["endTime"])), true, specified)
      else
        Parsed(defaults, true, specified)
    else
      Parsed(defaults, true, specified)
  }

  /** A range struct carrying both `startDate` and `endDate` wins over any
      specific date: its strings are copied and the meeting stays flexible. */
  lemma DateStructWins(specificDate: Value, fields: map<string, Option<string>>, rangeText: Option<string>, today: Timestamp)
    requires "startDate" in fields && "endDate" in fields
    ensures var r := ParseDateRange(specificDate, Value(rangeText, Some(fields)), today);
            r.range == Range(Text(fields["startDate"]), Text(fields["endDate"])) && r.flexible && r.specified
  {
  }

  /** Without a range struct, a specific date other than `""` pins the meeting
      to that calendar day, from its start to its end, and makes it inflexible. */
  lemma SpecificDateSpansDay(specificDate: Value, dateRange: Value, today: Timestamp)
    requires dateRange.structValue.None? && specificDate.stringValue != Some("")
    ensures var r := ParseDateRange(specificDate, dateRange, today);
            r.range == Range(DayStart(specificDate.stringValue), DayEnd(specificDate.stringValue)) && !r.flexible
  {
  }

  /** In every other case the range runs from two hours after `today` to
      fourteen days after it, and the meeting stays flexible; in particular a
      struct lacking one of the two keys also discards a specific date. */
  lemma DateDefaults(specificDate: Value, dateRange: Value, today: Timestamp)
    requires dateRange.structValue.Some? ==>
               !("startDate" in dateRange.structValue.value && "endDate" in dateRange.structValue.value)
    requires dateRange.structValue.None? ==> specificDate.stringValue == Some("")
    ensures var r := ParseDateRange(specificDate, dateRange, today);
            r.range == Range(At(today + TwoHours), At(today + 14 * DaySeconds)) && r.flexible
    ensures ParseDateRange(specificDate, dateRange, today).range.start.instant < ParseDateRange(specificDate, dateRange, today).range.end.instant
  {
  }

  /** A specific time other than `""` wins over any range struct: the meeting
      is pinned to that instant and inflexible. */
  lemma SpecificTimeWins(specificTime: Value, timeRange: Value, today: Timestamp)
    requires specificTime.stringValue != Some("")
    ensures var r := ParseTimeRange(specificTime, timeRange, today);
            r.range == Range(Text(specificTime.stringValue), Text(specificTime.stringValue)) && !r.flexible
  {
  }

  /** Otherwise a struct with both `startTime` and `endTime` is copied, and
      without one the range is the whole of `today`'s calendar day. */
  lemma TimeRangeFallback(specificTime: Value, timeRange: Value, today: Timestamp)
    requires specificTime.stringValue == Some("")
    ensures var r := ParseTimeRange(specificTime, timeRange, today);
            r.flexible &&
            if timeRange.structValue.Some? && "startTime" in timeRange.structValue.value && "endTime" in timeRange.structValue.value
            then r.range == Range(Text(timeRange.structValue.value["startTime"]), Text(timeRange.structValue.value["endTime"]))
            else r.range == Range(At(StartOfDay(today)), At(EndOfDay(today))) &&
                 DayIndex(StartOfDay(today)) == DayIndex(today) == DayIndex(EndOfDay(today))
  {
  }

  /** The two parsers resolve the same conflict in opposite ways: given both a
      specific value and a full range struct, dates keep the range (flexible)
      while times keep the specific value (inflexible). */
  lemma PrecedenceDiffers(specific: string, fields: map<string, Option<string>>, today: Timestamp)
    requires specific != ""
    requires "startDate" in fields && "endDate" in fields && "startTime" in fields && "endTime" in fields
    ensures ParseDateRange(Value(Some(specific), None), Value(None, Some(fields)), today).flexible
    ensures !ParseTimeRange(Value(Some(specific), None), Value(None, Some(fields)), today).flexible
  {
  }

  /** A specific value whose `stringValue` is absent (`undefined`) is falsy,
      so nothing counts as specified, yet it is not `""`, so the meeting still
      becomes inflexible. */
  lemma UndefinedSpecificIsInflexible(today: Timestamp)
    ensures var r := ParseDateRange(Value(None, None), Value(None, None), today);
            !r.specified && !r.flexible
    ensures var r := ParseTimeRange(Value(None, None), Value(None, None), today);
            !r.specified && !r.flexible
  {
  }
}
