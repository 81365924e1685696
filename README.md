# Upcoming events list: a Dafny model

This project models the logic of the upcoming-events list of the ethereum.org
community page (`src/components/UpcomingEventsList.tsx`). The component reads
a static list of community conferences. It runs one projection over them:

1. it keeps the events whose end date, read by `dateParse`, is strictly
   after "yesterday";
2. it sorts them by parsed start date;
3. it gives each a display `date` label and a `formattedDetails` copy of its
   description.

It then shows the list ten at a time. A counter `maxRange` starts at
`eventsPerLoad = 10`, and the load-more button raises it by ten. When no
event survives the projection, the component shows a banner instead.

Modules:

- `Dates` (dates.dfy): `dateParse`. `Split` models `String.prototype.split`,
  `DigitsValue` models `parseInt` on digit runs, and `NewDate` models the Date
  constructor of ECMA-262 (2023 edition). `MakeDay` is the day arithmetic of
  section 21.4.1. A month or day out of range rolls over in it
  (`MonthsMoveYears`, `DateCountsOn`, `MonthRollsOver`), so
  `"2024-02-30"` is the same instant as `"2024-03-01"`. `FullYear` is the
  constructor's own rule from section 21.4.2.1: a year argument of 0..99 means
  1900..1999. Instants are milliseconds on the local time line.
- `Sequences` (sequences.dfy): `Array.prototype.filter` as `Filter`.
- `Sorting` (sorting.dfy): `Array.prototype.sort` with a comparator of the
  form `key(a) - key(b)`. The reference is a stable insertion sort, `SortBy`.
  `StableSortIsUnique` proves that every sorted result that keeps equal keys
  in input order is equal to it. ECMA-262 requires a stable sort (section
  23.1.3.30), so the model fixes the one result that section allows.
- `Events` (events.dfy): the event records and the filter, sort and format
  steps. `Derive` composes the three steps.
- `Pagination` (pagination.dfy): the component as a class. It derives the
  list once in its constructor and keeps it in a `const` field. Its mutable
  `maxRange` field changes only through `LoadMore`. `Render` gives the banner
  or the cards plus the button flag.

Some consequences of the code, each proved:

- The button is still rendered when `maxRange` equals the number of events.
  With exactly ten events, all ten are on screen, the button is offered, and
  clicking it reveals nothing (`ButtonWithNothingHidden`).
- Take three events and evaluate them on 2025-02-01: one on 2025-01-10, one on
  2024-01-01..02 and one on 2025-03-05..07. Only the March event is listed.
  The 2025-01-10 event ended before "yesterday", so it is dropped
  (`ThreeEventExample`).
- The single-date label is chosen by comparing the date texts, not the
  instants. On real calendar dates with a year of 100 or more the two tests
  agree (`SingleDateIffSameDay`). A year written 0000..0099 is read as
  1900..1999, so `"0050-06-01"` and `"1950-06-01"` are different texts for one
  day (`TwoDigitYearIs1900s`). A rolled-over text such as `"2024-02-30"` to
  `"2024-03-01"` gets a two-part label that names the same day twice
  (`RolledOverRangeLabel`).

## Model

| member | source | states |
|---|---|---|
| Dates.Split | src/components/UpcomingEventsList.tsx:31 | `split("-")` always returns at least one part |
| Dates.SplitJoin | src/components/UpcomingEventsList.tsx:31 | splitting loses nothing: joining the parts with the separator gives back the text, and no part contains the separator |
| Dates.SplitIso | src/components/UpcomingEventsList.tsx:31 | a `YYYY-MM-DD` text splits into exactly three parts: the year, month and day digits |
| Dates.DigitsValue | src/components/UpcomingEventsList.tsx:33-35 | `parseInt` of a run of k decimal digits is a number below 10^k |
| Dates.FieldsOf | src/components/UpcomingEventsList.tsx:33-35 | `parseInt` of each part is the decimal number its digits spell, leading zeros allowed |
| Dates.DateParse | src/components/UpcomingEventsList.tsx:30-37 | `dateParse("Y-M-D")` is the Date built from year Y, month index M-1 and day D |
| Dates.MakeDay | src/components/UpcomingEventsList.tsx:32-36 | the day arithmetic of section 21.4.1 of ECMA-262 as written: whole years out of the month index, then the year start plus the days before the month plus `date - 1`; a definition, whose consequences `MakeDayInItsYear`, `MonthsMoveYears`, `DateCountsOn` and `MonthRollsOver` state |
| Dates.MakeDayInItsYear | src/components/UpcomingEventsList.tsx:32-36 | a date that exists in its month lands between the start of its year and the start of the next, the year being the one left after whole years are moved out of the month index |
| Dates.MonthsMoveYears | src/components/UpcomingEventsList.tsx:34 | a month index twelve higher is the same month one year later, so month text `00` is December of the year before and `13` is January of the year after |
| Dates.DateCountsOn | src/components/UpcomingEventsList.tsx:35 | day `d` of a month is `d - 1` days after its first, with no bound either way, so day text `00` is the last day of the month before |
| Dates.FullYear | src/components/UpcomingEventsList.tsx:32-36 | a year argument of 0..99 becomes the year in 1900..1999 with the same last two digits; any other year is kept |
| Dates.NewDate | src/components/UpcomingEventsList.tsx:32-36 | `new Date(y, m, d)` is local midnight: a whole number of days |
| Dates.MonthRollsOver | src/components/UpcomingEventsList.tsx:32-36 | in the Date constructor, the day after a month's last day is the first of the next month, and after December 31 comes January 1 of the next year |
| Dates.YearStep | src/components/UpcomingEventsList.tsx:32-36 | consecutive years start 365 or 366 days apart, following the leap-year rule |
| Dates.CalendarDayOrder | src/components/UpcomingEventsList.tsx:32-36 | on real calendar dates, day numbers increase strictly in (year, month, day) order, and equal day numbers mean equal dates |
| Dates.LeapDayCount | src/components/UpcomingEventsList.tsx:32-36 | a year's length is 365 days, plus one if it is divisible by 4, minus one if by 100, plus one if by 400: the counts DayFromYear's three floors add up |
| Dates.ParsedCalendarDay | src/components/UpcomingEventsList.tsx:30-37 | a real calendar date with a year of 100 or more parses to local midnight of its own day, with no rollover |
| Dates.ParseOrder | src/components/UpcomingEventsList.tsx:30-37 | for real calendar dates with a year of 100 or more, parsed instants compare as the written dates do, and two texts parse to the same instant exactly when they are the same text |
| Dates.DigitsInjective | src/components/UpcomingEventsList.tsx:33-35 | two digit runs of the same length with the same `parseInt` value are the same text |
| Dates.TwoDigitYearIs1900s | src/components/UpcomingEventsList.tsx:32-36 | a year written 00yy parses to the same instant as 19yy, though the texts differ |
| Dates.LeapFebruaryRollsOver | src/components/UpcomingEventsList.tsx:32-36 | in a leap year, day 30 of February is 1 March |
| Dates.RolledOverSameDay | src/components/UpcomingEventsList.tsx:30-37 | `"2024-02-30"` and `"2024-03-01"` are different texts that parse to the same instant |
| Dates.DateParseIsValidTime | src/components/UpcomingEventsList.tsx:30-37 | every `YYYY-MM-DD` text parses to a valid time value: no Invalid Date arises from digits alone |
| Sequences.Filter | src/components/UpcomingEventsList.tsx:45-47 | `filter` never returns more elements than it was given |
| Sequences.FilterKeeps | src/components/UpcomingEventsList.tsx:45-47 | `filter` keeps every copy of each element that passes the test, and nothing else |
| Sequences.FilterConcat | src/components/UpcomingEventsList.tsx:45-47 | `filter` over a concatenation is the concatenation of the filters, so relative order is kept |
| Events.Upcoming | src/components/UpcomingEventsList.tsx:45-47 | an event is kept exactly when its parsed end date is strictly after the cutoff, as many times as the data holds it; an event ending exactly at the cutoff is dropped |
| Events.UpcomingKeepsOrder | src/components/UpcomingEventsList.tsx:45-47 | the filter keeps the data's relative order |
| Events.UpcomingKeepsAll | src/components/UpcomingEventsList.tsx:45-47 | if no event has ended, the list comes through unchanged |
| Events.YesterdayCutoff | src/components/UpcomingEventsList.tsx:41-47 | with the cutoff at any time of the day before today, an event is kept exactly when it ends today or later |
| Sorting.InsertKeepsSorted | src/components/UpcomingEventsList.tsx:50-53 | inserting one element into a sorted list keeps it sorted |
| Sorting.SortBy | src/components/UpcomingEventsList.tsx:50-53 | the sort returns a permutation of its input in ascending key order |
| Events.SortByStart | src/components/UpcomingEventsList.tsx:50-53 | the sorted events are the filtered events, none added or lost, in non-decreasing order of parsed start date |
| Sorting.SortByIsStable | src/components/UpcomingEventsList.tsx:50-53 | stability: for every key, the elements with that key keep their input order |
| Sorting.SortedGroupsDetermine | src/components/UpcomingEventsList.tsx:50-53 | two sorted lists that agree on the sequence of elements at every key are equal |
| Sorting.StableSortIsUnique | src/components/UpcomingEventsList.tsx:50-53 | every sorted rearrangement that keeps equal keys in input order equals `SortBy`, so any stable sort gives this result |
| Events.DateLabel | src/components/UpcomingEventsList.tsx:57-62 | the label starts with the localized start date and ends with the localized end date; it is that one date when the texts are equal, and otherwise exactly start, then `" - "`, then end |
| Events.RolledOverRangeLabel | src/components/UpcomingEventsList.tsx:57-62 | an event from `"2024-02-30"` to `"2024-03-01"` starts and ends at the same instant yet gets the two-part label naming that day twice |
| Events.SingleDateIffSameDay | src/components/UpcomingEventsList.tsx:57-62 | on real calendar dates with a year of 100 or more, the text test `startDate === endDate` holds exactly when the start and end instants are equal |
| Events.Format | src/components/UpcomingEventsList.tsx:64-70 | the display record carries every event field unchanged, `formattedDetails` equal to `description`, and the date label |
| Events.FormatAll | src/components/UpcomingEventsList.tsx:56-71 | `map` gives one display record per event, same length and order, each carrying its event's fields, label and details |
| Events.FormatAllKeepsEvents | src/components/UpcomingEventsList.tsx:66-70 | dropping the two added fields gives back the input events |
| Events.Derive | src/components/UpcomingEventsList.tsx:40-73 | one card per upcoming event, each ending after the cutoff, labelled with its own dates and carrying its description as details, in non-decreasing order of start instant |
| Events.DeriveCorrect | src/components/UpcomingEventsList.tsx:40-73 | the derived list's events are exactly the upcoming events with their counts, sorted by start and stable; it is empty exactly when every event has ended |
| Events.SingleSurvivor | src/components/UpcomingEventsList.tsx:40-73 | when exactly one event survives the filter, the list is that event alone, formatted |
| Events.ThreeEventExample | src/components/UpcomingEventsList.tsx:39-74 | on 2025-02-01, of events on 2025-01-10, 2024-01-01..02 and 2025-03-05..07 only the March one is listed |
| Pagination.SliceTo | src/components/UpcomingEventsList.tsx:120-121 | `slice(0, maxRange)` is the prefix of length `min(maxRange, length)` |
| Pagination.View | src/components/UpcomingEventsList.tsx:85-146 | an empty list gives the banner; otherwise the cards are the revealed prefix, and the button is present exactly when `maxRange <= length` |
| Pagination.LoadMoreShown | src/components/UpcomingEventsList.tsx:142 | the button condition as written, `maxRange <= length`; a definition, whose consequences `LoadMoreShownCases`, `WithdrawnShowsAll` and `ClicksOffered` state |
| Pagination.SliceGrows | src/components/UpcomingEventsList.tsx:121 | a larger `maxRange` shows a longer prefix, so what was on screen stays on screen |
| Pagination.WithdrawnShowsAll | src/components/UpcomingEventsList.tsx:120-146 | once the button is gone, every event is on screen |
| Pagination.LoadMoreShownCases | src/components/UpcomingEventsList.tsx:142 | the button is shown exactly when some event is hidden or `maxRange` equals the length |
| Pagination.ButtonWithNothingHidden | src/components/UpcomingEventsList.tsx:142 | with ten events on the first page, all are shown, the button is offered, and a click reveals nothing more |
| Pagination.ClicksOffered | src/components/UpcomingEventsList.tsx:142 | after n clicks, the button is still there exactly when n is less than length / 10, rounded down |
| Pagination.UpcomingEventsList.constructor | src/components/UpcomingEventsList.tsx:22-74 | the list is derived once from the data, the cutoff and the formatter, `maxRange` starts at 10 and no click has happened |
| Pagination.UpcomingEventsList.Visible | src/components/UpcomingEventsList.tsx:120-121 | the cards on screen are the prefix of the ordered list of length `min(maxRange, length)` |
| Pagination.UpcomingEventsList.OffersLoadMore | src/components/UpcomingEventsList.tsx:142 | the button is rendered exactly when some card is hidden or `maxRange` equals the length; with the counter at one page per click plus one, exactly for the first `length / 10` clicks |
| Pagination.UpcomingEventsList.Render | src/components/UpcomingEventsList.tsx:85-146 | the banner appears exactly when the derived list is empty; otherwise the cards are the visible slice and the button follows `maxRange <= length` |
| Pagination.UpcomingEventsList.LoadMore | src/components/UpcomingEventsList.tsx:76-83 | `maxRange` grows by exactly 10 with no clamp, so it stays ten per click plus ten, what was visible stays a prefix of what is visible, the derived list is untouched, and the fixed analytics descriptor is returned |
| Pagination.FirstClickOfTwentyFive | src/components/UpcomingEventsList.tsx:76-77 | with 25 events, the first click takes `maxRange` to 20, shows 20 cards and keeps the button |
| Pagination.TwoClicksOverTwentyFive | src/components/UpcomingEventsList.tsx:76-77 | with 25 events, two clicks take `maxRange` to 30, show all 25 and withdraw the button |

## Left out

- Malformed date texts are outside the model. Event dates have the type `IsoDate`: four digits, `-`, two digits, `-`, two digits. `parseInt` of a non-numeric part gives NaN, and the invalid Dates and NaN comparisons that follow are not modelled. Within `IsoDate`, out-of-range months and days follow the Date constructor's rollover.
- Time zones and daylight saving are not modelled. Instants are local-time milliseconds with 86,400,000 per day, and local-to-UTC conversion is left out.
- The cutoff `yesterday` is a parameter. `new Date()` reads a clock, and `setDate(getDate() - 1)` is Date arithmetic. `YesterdayCutoff` states the result for any cutoff within the previous day.
- `toLocaleDateString` is the `Formatter` parameter. Its text depends on the locale and is not specified.
- The React lifecycle is left out (`useState`, `useEffect` with `[]`, re-rendering). The derivation happens once, in the constructor. The render before the effect runs, which shows the banner because the state starts as `[]`, is not modelled.
- `Array.prototype.sort` is modelled on values. That it reorders `upcomingEvents` in place, and that `orderedEvents` is the same array, is not captured. `upcomingEvents` is not read after the sort and `orderedEvents` only by the `map`, so the in-place reordering cannot be observed.
- `trackCustomEvent` is left out. It is an external analytics call and is not delivered. `LoadMore` returns its fixed descriptor instead, and the descriptor does not affect the counter.
- Layout and presentation are left out: JSX/Chakra, `EventCard`, `InfoBanner`, `Translation`, `InlineLink`, the banner's link target, list keys and the `isEven` styling hint.
- The `community-events` data file is not part of this model. The events are a parameter. `CommunityConference` fields beyond title, to, location, description, startDate and endDate are not modelled.
- `maxRange` is an unbounded `nat`. JavaScript number precision above 2^53 is not modelled.
