# Meeting scheduler core, modelled in Dafny

This project models the scheduling core of a meeting-planning assistant:
- the JavaScript scheduler (`src/scheduler.js`): intersecting free slots, choosing a start, expanding weekly working hours, and turning busy events into free slots;
- its Python predecessor (`src/scheduler.py`);
- the time helpers that feed it (`lib/time.js`, `api/time.js`);
- the Dialogflow parameter parsers that produce durations and date and time ranges (`lib/dialogflow.js`).

Modelling conventions:
- **Instants and durations.** An instant is an `int` number of seconds since 1970-01-01T00:00, in one fixed offset. A duration is an `int` number of seconds.
- **Days and weekdays.** Calendar days are `t / 86400`. Weekday indices run Monday = 0 … Sunday = 6, as Luxon's `weekday - 1` does; 1970-01-01 was a Thursday.
- **Slots.** A slot `[start, end]` (a JavaScript two-element array, or a Python tuple) is the datatype `Intervals.Slot`.
- **Errors.** A `null` result, or a `TypeError` the code would raise, is `None` of `Intervals.Option`.

Modules:
- `Intervals`: calendar arithmetic, `combine`, `intersection`, the well-formedness invariant of slot lists, and start ranges.
- `Sweep`: the two-pointer intersection loop, which both scheduler ports share.
- `SchedulerJs` and `SchedulerPy`: `_schedule`, `_choose`, `schedule` and `busy_to_free`.
- `Merging`: the sort and `merge` used by `generateConstraints`.
- `Constraints`: `generateConstraints`.
- `FreeTime`: `getFreeSlots` and `freeSlotsAux`.
- `TimeLib`, `TimeApi` and `Dialogflow`: the helpers.

How operations are modelled:
- Each loop of the source is a `method` whose `ensures` ties its result to a specification function.
- The properties the code promises are lemmas about those functions.
- Arrays the source allocates and fills are Dafny `array`s: `getBusyDays` and `generateTimeRangesForDaysOfWeek`.
- The system clock read by the Dialogflow parsers is the parameter `today`.

Where the design notes and the code disagree, the model follows the code:
- **Tie-break in the sweep.** On equal end times, the sweep advances the pointer into the list being merged in, not the accumulator (`src/scheduler.js:161-165`).
- **One-participant identity.** The Python `schedule` does not filter out windows shorter than the meeting when given a single list (`SchedulerPy.PortsDifferOnOneList`). The JavaScript one does, because it intersects list 0 with itself.
- **Busy/free complementarity.** The Python `busy_to_free` is not the complement of the busy events (see Findings).

## Model

| member | source | states |
|---|---|---|
| Intervals.Combine | src/scheduler.js:39-47 | the result lies on `date`'s calendar day, so it has the same weekday, at `time`'s hour and minute with zero seconds |
| Intervals.StartOfDay | src/scheduler.js:430-455 | `startOf("day")`: at or before `t`, less than a day before it, on the same calendar day |
| Intervals.EndOfDay | src/scheduler.js:341 | `endOf("day")`: on `t`'s calendar day, one second before the next day starts |
| Intervals.WeekdayNextDay | src/scheduler.js:117-118 | one day later, the day index grows by one and the weekday index becomes `(weekday + 1) % 7` |
| Intervals.Intersection | src/scheduler.js:23-29 | a returned overlap lies inside both slots and is at least `duration` long; every meeting start that fits in both slots fits in it |
| Intervals.IntersectionExact | src/scheduler.py:14-29 | an overlap exists iff latest start + duration <= earliest end, and it is exactly (latest start, earliest end) |
| Intervals.ShiftEndStarts | src/scheduler.js:171 | `t` lies in a range shortened by `d` at its end iff a meeting of length `d` starting at `t` fits in the original window |
| Sweep.Emit | src/scheduler.js:151-158 | one comparison pushes exactly the overlap `intersection` returns, or nothing |
| Sweep.SweepLists | src/scheduler.js:147-167 | the while loop computes the sweep from pointers (0, 0); each window it pushes is at least `d` long and lies inside a slot of both lists |
| Sweep.SweepSound | src/scheduler.js:150-166 | every window from pointers (i, j) is long enough and lies inside a slot of each list at or after its pointer |
| Sweep.IntersectSound | src/scheduler.js:147-167 | every window of the intersection of two lists is at least `d` long and lies inside a slot of each list |
| Sweep.SweepWellFormed | src/scheduler.js:150-166 | two sorted, non-overlapping lists give a sorted, non-overlapping result |
| Sweep.SweepComplete | src/scheduler.js:150-166 | advancing the pointer whose slot ends first loses nothing: a start that fits in a slot of each list, at or after the pointers, fits in some output window |
| Sweep.ReduceSound | src/scheduler.js:145-168 | after folding over the lists, each window lies inside a slot of the seed and of every list, and is at least `d` long |
| Sweep.ReduceWellFormed | src/scheduler.js:145-168 | the fold keeps the result sorted and non-overlapping |
| Sweep.ReduceComplete | src/scheduler.js:145-168 | a start that fits in the seed and in every list fits in the folded result |
| SchedulerJs.Schedule | src/scheduler.js:137-172 | `null` iff there are no schedules or no duration; otherwise each start range `[s, e]` has `s <= e`, and `[s, e + d]` lies inside a free slot of every schedule and every constraint list |
| SchedulerJs.ScheduledSound | src/scheduler.js:137-172 | with at least one schedule, each returned start range `[s, e]` has `s <= e`, and `[s, e + d]` lies inside a free slot of every schedule and every constraint list |
| SchedulerJs.ScheduledExact | src/scheduler.js:137-172 | for well-formed lists and `d >= 0`, `t` lies in a returned start range iff a meeting starting at `t` fits in a free slot of every participant and every constraint |
| SchedulerJs.ConstraintsAreParticipants | src/scheduler.js:141-142 | passing lists as constraints is the same as appending them to the participants |
| SchedulerJs.OrderIndependent | src/scheduler.js:145-168 | any reordering of participants and constraints permits the same meeting starts |
| SchedulerJs.DurationMonotone | src/scheduler.js:137-172 | a start permitted for a longer meeting is permitted for a shorter one |
| SchedulerJs.Choose | src/scheduler.js:180-187 | `null` iff there are no ranges; otherwise the start of the first range of least length, which is the head of the stable sort |
| SchedulerJs.TwoParticipantsScenario | test/scheduler.test.js:48-52 | two participants and a one-hour meeting give the start ranges at 09:00 and 21:00 |
| SchedulerJs.ConstraintScenario | test/scheduler.test.js:80-85 | working hours 08:30-19:00 as a constraint leave only 09:00-09:30 for a half-hour meeting |
| SchedulerPy.Schedule | src/scheduler.py:31-67 | `None` iff there are no lists; a single list comes back with its ends shortened by the duration and nothing filtered; with two or more lists each range is ordered and leaves room for the meeting in every list |
| SchedulerPy.ScheduledSound | src/scheduler.py:31-67 | with at least one list, each returned range `[s, e]` leaves room for the meeting (`[s, e + d]`) inside a slot of every list, and is ordered when two or more lists were intersected |
| SchedulerPy.ScheduledExact | src/scheduler.py:45-65 | for well-formed lists, `t` lies in a returned start range iff the meeting fits in a free slot of every list |
| SchedulerPy.PortsAgree | src/scheduler.py:45-46 | the Python and JavaScript ports permit the same starts; the JavaScript self-intersection of list 0 changes nothing |
| SchedulerPy.PortsDifferOnOneList | src/scheduler.py:45-46 | with one list shorter than the meeting, Python returns an inverted range where JavaScript returns none |
| SchedulerPy.BusyToFree | src/scheduler.py:69-93 | one free list per schedule, in order, each the walk over that schedule's events from `start_datetime` |
| SchedulerPy.GapsShape | src/scheduler.py:80-91 | when every event starts no later than it ends, the free intervals are non-empty, increasing and inside `[start, end]` |
| SchedulerPy.BusyToFreeScenario | test/scheduler.test.js:68-72 | busy 10-12, 13-15, 16-18, 19-21 and 22-24 in the window 9-22 give free 9-10, 12-13, 15-16, 18-19 and 21-22 |
| SchedulerPy.BackToBackEventsLeak | src/scheduler.py:86-88 | events 10-12 and 12-13 produce the free interval 12-14, which overlaps the busy hour 12-13 |
| SchedulerPy.StraddlingEventLeak | src/scheduler.py:84-85 | an event 20-23 past a search end of 22 produces the free interval 9-22, which overlaps it |
| SchedulerPy.ComplementCovers | src/scheduler.py:69-93 | corrected walk: every instant of `[start, end)` is in a free interval or in a busy event |
| SchedulerPy.ComplementDisjoint | src/scheduler.py:69-93 | corrected walk: every free interval is non-empty, inside `[start, end]`, and overlaps no busy event |
| SchedulerPy.ComplementScenarios | test/scheduler.test.js:68-72 | the corrected walk reproduces the test's free hours, and on both leak inputs it returns 13-14 and 9-20 |
| Merging.SortSlots | src/scheduler.js:97-99 | the ranges sorted by start, then end, as a permutation of the input |
| Merging.Merge | src/scheduler.js:55-70 | the loop computes `Merged(ranges)` |
| Merging.MergeIntoGrows | src/scheduler.js:58-66 | a step keeps the earlier ranges' starts and never shortens them |
| Merging.MergedSeparated | src/scheduler.js:55-70 | for any input, each merged range starts strictly after the previous one ends |
| Merging.MergedCovers | src/scheduler.js:55-70 | for input sorted by start, every input range lies inside some merged range |
| Merging.MergedSound | src/scheduler.js:55-70 | every instant of a merged range lies in some input range |
| Merging.MergedStarts | src/scheduler.js:55-70 | every merged range starts where some input range starts |
| Merging.MergedOrdered | src/scheduler.js:55-70 | ordered input ranges give ordered merged ranges |
| Constraints.DayTable | src/scheduler.js:90-104 | one entry per weekday, each that day's ranges sorted and then merged |
| Constraints.OnDay | src/scheduler.js:108-116 | each range of a weekday is placed on the visited date with `combine` |
| Constraints.MergeDays | src/scheduler.js:90-104 | the per-day map computes `DayTable(week)` |
| Constraints.GenerateConstraints | src/scheduler.js:82-122 | the guard and the day-by-day loop compute `Constraints(week, start, end)` |
| Constraints.PlaceDay | src/scheduler.js:108-116 | the `forEach` appends the weekday's ranges, each placed on the visited date, in order, after what was built so far |
| Constraints.WalkTotal | src/scheduler.js:106-121 | with an entry for every weekday, the walk never raises |
| Constraints.ConstraintsTotal | src/scheduler.js:82-122 | a week of seven lists always yields constraints |
| Constraints.GuardIsShortcut | src/scheduler.js:83-87 | with seven lists, the empty-availability guard returns what the walk would |
| Constraints.WalkStep | src/scheduler.js:107-119 | one iteration raises on a missing weekday, or places that weekday's ranges and moves on one day |
| Constraints.WalkExact | src/scheduler.js:106-121 | the walk raises iff some visited day's weekday has no entry; otherwise a slot is in the result iff it is some range of a visited day's weekday placed on that day |
| Constraints.TableRow | src/scheduler.js:90-104 | sorting and merging keeps a weekday's ranges within one day and separates them |
| Constraints.MergedWithin | src/scheduler.js:55-70 | merging keeps ranges within the day that holds them |
| Constraints.WalkWellFormed | src/scheduler.js:106-121 | the laid-out constraints are sorted and non-overlapping, and start on or after the first day |
| Constraints.ConstraintsWellFormed | src/scheduler.js:82-122 | if each weekday's ranges lie within one day, the result meets the sorted, non-overlapping input invariant that `_schedule` relies on |
| Constraints.WorkingHoursScenario | test/scheduler.test.js:74-78 | working hours 08:30-19:00 on Monday to Friday, over two days, give 08:30-19:00 on each of them |
| FreeTime.WorkingHours | src/scheduler.js:314-318 | each weekday keeps only its first working range, or none |
| FreeTime.FreeSlotsAux | src/scheduler.js:430-455 | the day loop computes `AuxSlots(start, end, hours, consider)` |
| FreeTime.DaySlot | src/scheduler.js:438-451 | one loop pass pushes nothing on a day without hours, the day's working window when not clipping, and otherwise the window clipped to `[cur, end]` only when it ends after `cur` |
| FreeTime.AuxWorking | src/scheduler.js:437-451 | every slot the loop offers lies within the working hours of the day it starts on |
| FreeTime.AuxWithin | src/scheduler.js:441-447 | with `considerStartEndTime`, every offered slot lies within `[start, end]` |
| FreeTime.AuxBounds | src/scheduler.js:433-436 | without it, every offered slot lies within the whole days from `start` to `end` |
| FreeTime.AuxFullDays | src/scheduler.js:430-455 | without it, a slot is offered iff it is the working hours of a day from `start` up to `end` |
| FreeTime.Widen | src/scheduler.js:336-340 | each busy event is moved earlier at its start and later at its end by the minimum break |
| FreeTime.GetFreeSlots | src/scheduler.js:306-418 | the loop over the widened busy slots and the sentinel computes `FreeSlots(...)` |
| FreeTime.EnterDay | src/scheduler.js:369-400 | the new-day block: the day is closed only when more than five seconds remain, skipped days are filled with whole working days, and the new day's hours are loaded |
| FreeTime.RunWorking | src/scheduler.js:364-416 | the loop keeps every free slot within the working hours of its day |
| FreeTime.FreeSlotsWorking | src/scheduler.js:306-418 | every free slot lies within the working hours of the day it starts on |
| FreeTime.NoBusyClipped | src/scheduler.js:323-333 | with no busy events, the result is `freeSlotsAux` with start and end considered, so it lies within the search period and the working hours |
| FreeTime.RunInv | src/scheduler.js:364-416 | for busy slots ordered by start and each within one day, the loop keeps free slots apart from every busy slot processed so far |
| FreeTime.FreeSlotsDisjoint | src/scheduler.js:306-418 | for sorted busy events that, once widened, start no earlier than the search's first day and no later than its end, and end on the day they start, no free slot overlaps a widened busy event; events already running when the search starts are covered |
| FreeTime.InvertedLastDay | src/scheduler.js:441-447 | a search ending before the last day's opening time yields an inverted slot, 08:30-07:00, for that day |
| FreeTime.OvernightEventOverlap | src/scheduler.js:369-400 | an event running past midnight is forgotten on the next day, whose whole working hours are then offered |
| FreeTime.EarlierDayEventOverlap | src/scheduler.js:369-415 | a busy event on a day before the search starts leaves the first day open, so the whole opening 12:00-17:00 is offered across a later 13:00-14:00 event |
| TimeLib.GetBusyDays | lib/time.js:18-60 | a fresh array of seven flags equal to `BusyDayFlags(days)` |
| TimeLib.MarkCovers | lib/time.js:22-56 | one name sets exactly the weekdays it covers and leaves the others as they were |
| TimeLib.BusyDaysExact | lib/time.js:18-60 | day `d` is 1 iff some given name covers it, and 0 otherwise |
| TimeLib.BusyDaysOrderFree | lib/time.js:21-57 | the flags depend only on the set of names, not on their order or repetition |
| TimeLib.GetBusyTimes | lib/time.js:69-78 | fails iff some entry lacks `startTime` or `endTime`; otherwise one range per entry, with both strings copied |
| TimeLib.ToLower | lib/time.js:233 | same length, each ASCII capital lowered and every other character kept |
| TimeLib.FirstAbbrev | lib/time.js:235-238 | the least index from `i` whose abbreviation the string contains, or -1 when there is none |
| TimeLib.DayOfWeek | lib/time.js:229-239 | -1 iff the name is empty or contains no abbreviation; otherwise the first abbreviation in weekday order that the lower-cased name contains |
| TimeLib.DayOfWeekFromInt | lib/time.js:218-221 | 1 to 7 give "Mon" to "Sun"; every other number gives "UNKNOWN" |
| TimeLib.FromIntRoundTrip | lib/time.js:218-239 | `getDayOfWeek(getDayOfWeekFromInt(n))` is `n - 1` on 1 to 7, and -1 otherwise |
| TimeLib.NamedDay | lib/time.js:229-239 | each full day name, "Monday" to "Sunday", maps to its index |
| TimeLib.ExactAbbreviation | lib/time.js:229-239 | each lower-case abbreviation maps to its index |
| TimeLib.EverydayUnrecognised | lib/time.js:229-239 | "Everyday" contains no abbreviation, so it gives -1 |
| TimeLib.WeekendUnrecognised | lib/time.js:229-239 | "Weekend" gives -1 |
| TimeLib.WeekdaysUnrecognised | lib/time.js:229-239 | "Weekdays" gives -1 |
| TimeLib.GenerateTimeRanges | lib/time.js:123-165 | a fresh array of seven entries equal to `RangesFor(dayOfWeek, range)` |
| TimeLib.RangesShape | lib/time.js:123-165 | every entry is empty or the one range; a recognised day name fills exactly its own weekday |
| TimeLib.RangesAgreeWithBusyDays | lib/time.js:123-165 | for the seven day names and the three groups, a weekday gets the range iff `getBusyDays` marks it |
| TimeLib.UnknownNameDiffers | lib/time.js:159-164 | an unknown name such as "Holiday" fills all seven days here, but marks none in `getBusyDays` |
| TimeLib.CompareDateTime | lib/time.js:208-210 | equal iff both strings have the same first 17 characters, or the first is shorter than 17 and the two are identical |
| TimeLib.CompareDateTimeEquivalence | lib/time.js:208-210 | the comparison is reflexive, symmetric and transitive |
| TimeLib.IsBetweenTimes | lib/time.js:249-252 | true iff the instant is valid and lies in `[startRange, endRange]`, both ends included |
| TimeLib.IsBetweenInclusive | lib/time.js:249-252 | each bound is itself between iff the range is not inverted |
| TimeLib.DurationInMinutes | lib/time.js:261-266 | defined iff both instants are valid; the minutes times 60 equal the difference in seconds |
| TimeLib.DurationAdditive | lib/time.js:261-266 | durations add along a chain, change sign when swapped, and `n` minutes later gives `n` |
| TimeApi.FirstTime | api/time.js:8 | the leftmost position from `k` at which `\d\d:\d\d` matches, or none when it matches nowhere |
| TimeApi.GetTimeFromISO | api/time.js:7-10 | fails iff nothing matches; otherwise a five-character `dd:dd` string, equal to the leftmost match |
| TimeApi.IsoTime | api/time.js:7-10 | on an ISO date-time, the result is its hour and minute, whatever follows them |
| TimeApi.DayOfWeek | api/time.js:31-50 | -1 iff the lower-cased name contains none of the seven abbreviations; otherwise the first of them, in weekday order, that it contains |
| TimeApi.DayOfWeekPortsAgree | api/time.js:31-50 | the if/else chain agrees with `lib/time.js`'s `getDayOfWeek` on every string, the empty one included |
| Dialogflow.MinutesPer | lib/dialogflow.js:140-154 | defined exactly for the units "min", "h" and "d" |
| Dialogflow.ParseDuration | lib/dialogflow.js:135-157 | a value iff the meeting and its `fields` exist and the unit is "min", "h" or "d"; the value is the amount times the minutes per unit |
| Dialogflow.DurationUnitsAgree | lib/dialogflow.js:141-154 | an hour counts as 60 minutes and a day as 24 hours |
| Dialogflow.ParseDateRange | lib/dialogflow.js:288-322 | not specified iff all three inputs are falsy; inflexible iff there is no range struct and the specific date is not `""` |
| Dialogflow.ParseTimeRange | lib/dialogflow.js:335-366 | not specified iff all three inputs are falsy; inflexible iff the specific time is not `""` |
| Dialogflow.DateStructWins | lib/dialogflow.js:305-310 | a struct with `startDate` and `endDate` is copied over any specific date, and the meeting stays flexible |
| Dialogflow.SpecificDateSpansDay | lib/dialogflow.js:311-319 | with no struct, a specific date pins the range to its calendar day |
| Dialogflow.DateDefaults | lib/dialogflow.js:301-303 | in every other case the range runs from two hours after `today` to fourteen days after it |
| Dialogflow.SpecificTimeWins | lib/dialogflow.js:353-356 | a specific time is copied as both ends and makes the meeting inflexible, whatever the range struct says |
| Dialogflow.TimeRangeFallback | lib/dialogflow.js:349-363 | otherwise a full struct is copied; without one, the range is `today`'s whole calendar day |
| Dialogflow.PrecedenceDiffers | lib/dialogflow.js:305-356 | given both inputs, dates keep the range struct while times keep the specific value |
| Dialogflow.UndefinedSpecificIsInflexible | lib/dialogflow.js:293-356 | an undefined `stringValue` counts as not specified, yet makes the meeting inflexible |

## Left out

- Time zones, daylight saving and milliseconds are not modelled. Instants are whole seconds in one fixed offset; Luxon's `DateTime` and `Duration` objects are integers.
- `combine` keeps hour and minute only. `Intervals.EndOfDay` is 23:59:59, at one-second resolution.
- `merge` updates `last[1]` on an element of its input array. This aliasing is not modelled; its one caller passes a freshly sorted copy.
- `generateConstraints` tests each parsed range end against `""` before placing it (src/scheduler.js:110). Parsed ends are `DateTime` objects, so the test always holds and the model has no branch for it.
- `Array.prototype.sort` is modelled as a stable insertion sort on the same order (start, then end).
- The in-place sort in `_choose` is modelled as a scan for the first shortest range, which is what the head of a stable sort is.
- `getFreeSlots` maps over and pushes the sentinel onto the caller's `busySlots` array. The model works on a copy; the caller-visible mutation is not modelled.
- `getFreeSlots` and `freeSlotsAux` index the working hours by weekday unconditionally. The model requires seven weekday lists, as the user record always stores them (lib/database.js:51-68).
- `FreeTime.FreeSlotsDisjoint`: proved only for busy events that stay within one calendar day once widened. `FreeTime.OvernightEventOverlap` shows that the code does not keep longer events apart from the free slots. It also assumes no widened event starts on a day before the search starts: the day difference is then negative, the first day is never closed at that event, and `FreeTime.EarlierDayEventOverlap` shows the overlap that follows. Such events lie wholly before the search window, which the calendar query does not return.
- `SchedulerJs.Schedule`: `duration` is `Option`, since any Luxon `Duration` object is truthy. A JavaScript `null` schedule list is an empty one.
- `_schedule`, `schedule` and the helpers are synchronous. `getFreeSlots` is `async` only in its signature. Console output, the database, the network and the Google and Dialogflow clients are not part of this model.
- The preference scoring in src/scheduler.js (`findMeetingSlot` and the histogram helpers) is not part of this model.
- `normaliseDate`, `combineDateAndTime`, `maintainLocalTimeZone`, `roundTimeToSameDay` and `getISOFromTime` are not part of this model. They depend on Luxon's ISO parsing and formatting.
- `TimeLib.GetBusyDays`: each entry is given by its `stringValue`.
- `TimeLib.GetBusyTimes`: entries are given by their fields, each field's `stringValue`. A missing `structValue` is not modelled.
- `TimeLib.ToLower`: lowers ASCII letters only. Unicode case mapping is not modelled.
- `TimeLib.IsBetweenTimes` and `TimeLib.DurationInMinutes`: ISO parsing is reduced to an optional instant, `None` being an invalid `DateTime`.
- `TimeApi.GetTimeFromISO`: `\d` is ASCII digits only, as in a regular expression without the `u` flag.
- `Dialogflow.ParseDuration`: the amount is a real number, not a floating-point double. A missing `unit` or `amount` field, which raises a `TypeError`, is not modelled.
- `Dialogflow.ParseDateRange`: the ends computed from a specific date are the symbolic `DayStart`/`DayEnd` of its text, because `DateTime.fromISO` is not modelled. Likewise, `toISO` of an instant is `At`.
- `Dialogflow.ParseTimeRange`: the same representation of endpoints.
- `DateTime.local()` is the parameter `today`.

## Findings

| source | as written | input that shows it | evidently intended | confidence | as-written member | corrected member |
|---|---|---|---|---|---|---|
| src/scheduler.py:86-88 | `begin` moves past a busy event only when a gap is emitted before it | events 10-12 and 12-13, 14-15 in window 9-16 give free 12-14, overlapping the busy hour 12-13 | free time never overlaps a busy event; the result is 9-10, 13-14, 15-16 | high, not executed | SchedulerPy.BackToBackEventsLeak | SchedulerPy.ComplementDisjoint |
| src/scheduler.py:84-85 | an event ending after the search end stops the walk before its start closes the free interval | event 20-23 in window 9-22 gives free 9-22, overlapping it | free time ends where the event starts: 9-20 | high, not executed | SchedulerPy.StraddlingEventLeak | SchedulerPy.ComplementDisjoint |
