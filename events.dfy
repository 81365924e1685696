/**
 * The projection the upcoming-events list runs once over the conference data:
 * keep the events that have not ended, order them by start date, and give each
 * a display label for its dates.
 */
module Events {
  import opened Dates
  import opened Sequences
  import opened Sorting

  /** A community conference record, with the fields the list reads. */
  datatype Event = Event(
    title: string,
    to: string,
    location: string,
    description: string,
    startDate: IsoDate,
    endDate: IsoDate)

  /** An event ready for display: every field of the event, plus `date` and `formattedDetails`. */
  datatype DisplayEvent = DisplayEvent(
    title: string,
    to: string,
    location: string,
    description: string,
    startDate: IsoDate,
    endDate: IsoDate,
    date: string,
    formattedDetails: string)

  /** toLocaleDateString, supplied by the host: it turns an instant into text. */
  type Formatter = int -> string

  function StartInstant(e: Event): int {
    DateParse(e.startDate)
  }

  function EndInstant(e: Event): int {
    DateParse(e.endDate)
  }

  predicate EndsAfter(e: Event, cutoff: int) {
    EndInstant(e) > cutoff
  }

  // ---------------------------------------------------------------------------
  // Filter: remove events that have ended

  /** The events whose parsed end date is strictly after `cutoff`. */
  function Upcoming(events: seq<Event>, cutoff: int): (r: seq<Event>)
    ensures forall e :: e in r <==> e in events && EndInstant(e) > cutoff
    ensures forall e :: multiset(r)[e] == if EndInstant(e) > cutoff then multiset(events)[e] else 0
  {
    var keep := e => EndsAfter(e, cutoff);
    FilterKeeps(keep, events);
    Filter(keep, events)
  }

  /** The filter keeps the data's order: it works on each part of the list separately. */
  lemma UpcomingKeepsOrder(a: seq<Event>, b: seq<Event>, cutoff: int)
    ensures Upcoming(a + b, cutoff) == Upcoming(a, cutoff) + Upcoming(b, cutoff)
  {
    FilterConcat(e => EndsAfter(e, cutoff), a, b);
  }

  /** A list of events none of which has ended is kept unchanged. */
  lemma UpcomingKeepsAll(events: seq<Event>, cutoff: int)
    requires forall e :: e in events ==> EndInstant(e) > cutoff
    ensures Upcoming(events, cutoff) == events
  {
    FilterAll(e => EndsAfter(e, cutoff), events);
  }

  /**
   * The cutoff is "yesterday": the current instant moved back one day, so it
   * lies somewhere in day `today - 1`. Whatever the time of day, an event
   * survives exactly when it ends today or later.
   */
  lemma YesterdayCutoff(e: Event, today: int, timeOfDay: int)
    requires 0 <= timeOfDay < MS_PER_DAY
    ensures EndsAfter(e, (today - 1) * MS_PER_DAY + timeOfDay) <==> DayNumber(e.endDate) >= today
  {
    var d := DayNumber(e.endDate);
    assert EndInstant(e) == d * MS_PER_DAY;
    if d >= today {
      assert d * MS_PER_DAY >= today * MS_PER_DAY;
    } else {
      assert d * MS_PER_DAY <= (today - 1) * MS_PER_DAY;
    }
  }

  // ---------------------------------------------------------------------------
  // Sort: stable, by parsed start date

  predicate SortedByStart(s: seq<Event>) {
    SortedBy(StartInstant, s)
  }

  /**
   * `upcomingEvents.sort(...)` with the comparator
   * `dateParse(a.startDate).getTime() - dateParse(b.startDate).getTime()`:
   * the same events, in ascending order of start instant.
   */
  function SortByStart(s: seq<Event>): (r: seq<Event>)
    ensures multiset(r) == multiset(s)
    ensures forall i, j :: 0 <= i < j < |r| ==> StartInstant(r[i]) <= StartInstant(r[j])
  {
    SortBy(StartInstant, s)
  }

  /** The events of `s` that start at instant `k`, in their order in `s`. */
  function StartingAt(s: seq<Event>, k: int): seq<Event> {
    WithKey(StartInstant, s, k)
  }

  // ---------------------------------------------------------------------------
  // Format: the display label and the display record

  const RANGE_SEPARATOR := " - "

  predicate EndsWith(s: string, suffix: string) {
    |suffix| <= |s| && s[|s| - |suffix|..] == suffix
  }

  /**
   * One localized date when the two date texts are equal, otherwise
   * "<start> - <end>": the start date, then the separator, then the end date,
   * and nothing else.
   */
  function DateLabel(e: Event, fmt: Formatter): (text: string)
    ensures fmt(StartInstant(e)) <= text
    ensures EndsWith(text, fmt(EndInstant(e)))
    ensures e.startDate == e.endDate ==> text == fmt(StartInstant(e))
    ensures e.startDate != e.endDate ==>
              |text| == |fmt(StartInstant(e))| + |RANGE_SEPARATOR| + |fmt(EndInstant(e))| &&
              text[|fmt(StartInstant(e))|..|text| - |fmt(EndInstant(e))|] == RANGE_SEPARATOR
  {
    if e.startDate == e.endDate then fmt(DateParse(e.startDate))
    else fmt(DateParse(e.startDate)) + RANGE_SEPARATOR + fmt(DateParse(e.endDate))
  }

  /**
   * On real calendar dates with a year of 100 or more the text comparison
   * the label makes agrees with the instants: one date is shown exactly for
   * events that start and end on the same day.
   */
  lemma SingleDateIffSameDay(e: Event)
    requires IsCalendarDate(e.startDate) && IsCalendarDate(e.endDate)
    ensures e.startDate == e.endDate <==> StartInstant(e) == EndInstant(e)
  {
    ParseOrder(e.startDate, e.endDate);
  }

  /**
   * Rolled-over date texts are different texts for the same day, so the label
   * still has two parts and names that day twice.
   */
  lemma RolledOverRangeLabel(e: Event, fmt: Formatter)
    requires e.startDate == "2024-02-30" && e.endDate == "2024-03-01"
    ensures StartInstant(e) == EndInstant(e)
    ensures DateLabel(e, fmt) == fmt(StartInstant(e)) + RANGE_SEPARATOR + fmt(StartInstant(e))
  {
    RolledOverSameDay(e.startDate, e.endDate);
  }

  /** The display record: the event's fields copied, plus the label and the details text. */
  function Format(e: Event, fmt: Formatter): (d: DisplayEvent)
    ensures Base(d) == e
    ensures d.formattedDetails == e.description
    ensures d.date == DateLabel(e, fmt)
  {
    DisplayEvent(e.title, e.to, e.location, e.description, e.startDate, e.endDate,
                 DateLabel(e, fmt), e.description)
  }

  /** The event fields of a display record. */
  function Base(d: DisplayEvent): Event {
    Event(d.title, d.to, d.location, d.description, d.startDate, d.endDate)
  }

  function Bases(ds: seq<DisplayEvent>): seq<Event> {
    seq(|ds|, i requires 0 <= i < |ds| => Base(ds[i]))
  }

  /** The `map` step: one display record per event, in the same order. */
  function FormatAll(s: seq<Event>, fmt: Formatter): (r: seq<DisplayEvent>)
    ensures |r| == |s|
    ensures forall i :: 0 <= i < |s| ==>
              Base(r[i]) == s[i] && r[i].formattedDetails == s[i].description &&
              r[i].date == DateLabel(s[i], fmt)
  {
    seq(|s|, i requires 0 <= i < |s| => Format(s[i], fmt))
  }

  /** Formatting only adds fields: dropping them gives back the events. */
  lemma FormatAllKeepsEvents(s: seq<Event>, fmt: Formatter)
    ensures Bases(FormatAll(s, fmt)) == s
  {
  }

  // ---------------------------------------------------------------------------
  // The whole projection

  /**
   * Filter, then sort, then format: one card per upcoming event, in order of
   * start instant, each labelled with its own dates and carrying its
   * description as details.
   */
  function Derive(events: seq<Event>, cutoff: int, fmt: Formatter): (cards: seq<DisplayEvent>)
    ensures |cards| == |Upcoming(events, cutoff)|
    ensures forall i :: 0 <= i < |cards| ==>
              EndsAfter(Base(cards[i]), cutoff) && cards[i].date == DateLabel(Base(cards[i]), fmt) &&
              cards[i].formattedDetails == cards[i].description
    ensures forall i, j :: 0 <= i < j < |cards| ==> StartInstant(Base(cards[i])) <= StartInstant(Base(cards[j]))
  {
    FormatAll(SortByStart(Upcoming(events, cutoff)), fmt)
  }

  /**
   * The derived list holds exactly the upcoming events, as many times as the
   * data holds them, sorted by start instant with ties in data order (each
   * card's label and details are stated by `Derive`); it is empty exactly
   * when every event has ended.
   */
  lemma DeriveCorrect(events: seq<Event>, cutoff: int, fmt: Formatter)
    ensures var shown := Bases(Derive(events, cutoff, fmt));
      shown == SortByStart(Upcoming(events, cutoff)) &&
      (forall e :: multiset(shown)[e] == if EndInstant(e) > cutoff then multiset(events)[e] else 0) &&
      SortedByStart(shown) &&
      (forall k :: StartingAt(shown, k) == StartingAt(Upcoming(events, cutoff), k))
    ensures Derive(events, cutoff, fmt) == [] <==> forall e :: e in events ==> EndInstant(e) <= cutoff
  {
    var upcoming := Upcoming(events, cutoff);
    var sorted := SortByStart(upcoming);
    FormatAllKeepsEvents(sorted, fmt);
    forall k ensures StartingAt(sorted, k) == StartingAt(upcoming, k) {
      SortByIsStable(StartInstant, upcoming, k);
    }
    if Derive(events, cutoff, fmt) == [] {
      assert multiset(sorted) == multiset{};
    } else {
      assert sorted[0] in multiset(sorted);
    }
  }

  /** When exactly one event survives the filter, the list is that one event, formatted. */
  lemma SingleSurvivor(events: seq<Event>, cutoff: int, e: Event, fmt: Formatter)
    requires Upcoming(events, cutoff) == [e]
    ensures Derive(events, cutoff, fmt) == [Format(e, fmt)]
  {
    OneCard(e, fmt);
  }

  lemma OneCard(e: Event, fmt: Formatter)
    ensures FormatAll(SortByStart([e]), fmt) == [Format(e, fmt)]
  {
    SortBySingleton(StartInstant, e);
    var cards := FormatAll([e], fmt);
    assert cards[0] == Format(e, fmt);
  }

  // ---------------------------------------------------------------------------
  // A worked example

  // The three events of the example: one on 2025-01-10, one on 2024-01-01..02,
  // one on 2025-03-05..07.
  const JAN_10 := Event("Jan", "", "", "", "2025-01-10", "2025-01-10")
  const PAST := Event("Past", "", "", "", "2024-01-01", "2024-01-02")
  const MARCH := Event("March", "", "", "", "2025-03-05", "2025-03-07")

  /** 2025-02-01 as a day number: MakeDay(2025, 1, 1), see ExampleMakeDays. */
  const FEB_1_2025 := 20120

  lemma ExampleEndDays(timeOfDay: int)
    requires 0 <= timeOfDay < MS_PER_DAY
    ensures !EndsAfter(JAN_10, (FEB_1_2025 - 1) * MS_PER_DAY + timeOfDay)
    ensures !EndsAfter(PAST, (FEB_1_2025 - 1) * MS_PER_DAY + timeOfDay)
    ensures EndsAfter(MARCH, (FEB_1_2025 - 1) * MS_PER_DAY + timeOfDay)
  {
    DayNumberOfJan10(JAN_10.endDate);
    DayNumberOfJan2(PAST.endDate);
    DayNumberOfMar7(MARCH.endDate);
    ExampleMakeDays();
    YesterdayCutoff(JAN_10, FEB_1_2025, timeOfDay);
    YesterdayCutoff(PAST, FEB_1_2025, timeOfDay);
    YesterdayCutoff(MARCH, FEB_1_2025, timeOfDay);
  }

  lemma ExampleUpcoming(timeOfDay: int)
    requires 0 <= timeOfDay < MS_PER_DAY
    ensures Upcoming([JAN_10, PAST, MARCH], (FEB_1_2025 - 1) * MS_PER_DAY + timeOfDay) == [MARCH]
  {
    var cutoff := (FEB_1_2025 - 1) * MS_PER_DAY + timeOfDay;
    ExampleEndDays(timeOfDay);
    FilterThree(e => EndsAfter(e, cutoff), JAN_10, PAST, MARCH);
  }

  /**
   * The three events evaluated on 2025-02-01 (the cutoff lies in
   * 2025-01-31, at any time of day): 2025-01-10 and 2024-01-01..02 have
   * ended, so only the 2025-03-05..07 event is listed.
   */
  lemma ThreeEventExample(fmt: Formatter, timeOfDay: int)
    requires 0 <= timeOfDay < MS_PER_DAY
    ensures Derive([JAN_10, PAST, MARCH], (FEB_1_2025 - 1) * MS_PER_DAY + timeOfDay, fmt) == [Format(MARCH, fmt)]
  {
    ExampleUpcoming(timeOfDay);
    SingleSurvivor([JAN_10, PAST, MARCH], (FEB_1_2025 - 1) * MS_PER_DAY + timeOfDay, MARCH, fmt);
  }
}
