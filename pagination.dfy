/**
 * The list on screen: the derived events are computed once, and a counter
 * `maxRange` says how many of them are revealed; "load more" raises it by one
 * page.
 */
module Pagination {
  import opened Events

  /** eventsPerLoad: the page size and the first value of maxRange. */
  const EVENTS_PER_LOAD := 10

  /**
   * `list.slice(0, end)` for an end that is never negative: the first `end`
   * elements, or the whole list when `end` is past its length (section
   * 23.1.3.28 of ECMA-262 clamps the end to the length).
   */
  function SliceTo<T>(list: seq<T>, end: nat): (r: seq<T>)
    ensures |r| == if end < |list| then end else |list|
    ensures r <= list
  {
    if end < |list| then list[..end] else list
  }

  /** What the page offers as written: the load-more button is there while `maxRange <= length`. */
  predicate LoadMoreShown(count: nat, maxRange: nat) {
    maxRange <= count
  }

  /** The analytics notification sent on each load-more click. */
  datatype TrackedEvent = TrackedEvent(eventCategory: string, eventAction: string, eventName: string)

  const LOAD_MORE_CLICK := TrackedEvent("more events button", "click", "load more")

  /** What the component shows: the no-events banner, or the cards and possibly the button. */
  datatype Screen = NoEventsBanner | EventList(cards: seq<DisplayEvent>, loadMoreButton: bool)

  /** The rendered output for a derived list and a counter value. */
  function View(ordered: seq<DisplayEvent>, maxRange: nat): (screen: Screen)
    ensures screen.NoEventsBanner? <==> |ordered| == 0
    ensures screen.EventList? ==>
              screen.cards <= ordered &&
              |screen.cards| == (if maxRange < |ordered| then maxRange else |ordered|) &&
              (screen.loadMoreButton <==> maxRange <= |ordered|)
  {
    if |ordered| == 0 then NoEventsBanner
    else EventList(SliceTo(ordered, maxRange), LoadMoreShown(|ordered|, maxRange))
  }

  /** Revealing more never takes back what was shown: a larger end gives a longer prefix. */
  lemma SliceGrows<T>(list: seq<T>, m: nat, n: nat)
    requires m <= n
    ensures SliceTo(list, m) <= SliceTo(list, n)
  {
  }

  /** Once the button is withdrawn every event is on screen. */
  lemma WithdrawnShowsAll<T>(list: seq<T>, maxRange: nat)
    requires !LoadMoreShown(|list|, maxRange)
    ensures SliceTo(list, maxRange) == list
  {
  }

  /**
   * As written, the button is there exactly when some events are hidden or
   * the counter equals the length, the case where nothing is hidden.
   */
  lemma LoadMoreShownCases<T>(list: seq<T>, maxRange: nat)
    ensures LoadMoreShown(|list|, maxRange) <==> SliceTo(list, maxRange) != list || maxRange == |list|
  {
    if maxRange < |list| {
      assert |SliceTo(list, maxRange)| < |list|;
    }
  }

  /**
   * Ten events and the first page: every event is already shown, the button
   * is offered anyway, and the click it invites reveals nothing.
   */
  lemma ButtonWithNothingHidden<T>(list: seq<T>)
    requires |list| == EVENTS_PER_LOAD
    ensures SliceTo(list, EVENTS_PER_LOAD) == list
    ensures LoadMoreShown(|list|, EVENTS_PER_LOAD)
    ensures SliceTo(list, EVENTS_PER_LOAD + EVENTS_PER_LOAD) == SliceTo(list, EVENTS_PER_LOAD)
  {
  }

  /**
   * After `clicks` loads the counter is `10 * (clicks + 1)`; as written, the
   * button stays for exactly `count / 10` clicks.
   */
  lemma ClicksOffered(count: nat, clicks: nat)
    ensures LoadMoreShown(count, EVENTS_PER_LOAD * (clicks + 1)) <==> clicks < count / EVENTS_PER_LOAD
  {
    var q := count / EVENTS_PER_LOAD;
    assert count == EVENTS_PER_LOAD * q + count % EVENTS_PER_LOAD;
    if clicks < q {
      assert EVENTS_PER_LOAD * (clicks + 1) <= EVENTS_PER_LOAD * q;
    } else {
      assert EVENTS_PER_LOAD * (clicks + 1) >= EVENTS_PER_LOAD * (q + 1);
    }
  }

  /** UpcomingEventsList: the derived events, fixed once, and the reveal counter. */
  class UpcomingEventsList {
    /** orderedUpcomingEvents: derived once on activation and never recomputed. */
    const ordered: seq<DisplayEvent>
    /** How many of the ordered events are revealed. */
    var maxRange: nat
    /** How many times "load more" has been clicked. */
    ghost var clicks: nat

    /** The counter is one page plus one page per click. */
    ghost predicate Valid()
      reads this
    {
      maxRange == EVENTS_PER_LOAD * (clicks + 1)
    }

    /** Activation: derive the list from the data, the cutoff and the formatter, and show one page. */
    constructor (events: seq<Event>, cutoff: int, fmt: Formatter)
      ensures ordered == Derive(events, cutoff, fmt)
      ensures maxRange == EVENTS_PER_LOAD && clicks == 0
      ensures Valid()
    {
      ordered := Derive(events, cutoff, fmt);
      maxRange := EVENTS_PER_LOAD;
      clicks := 0;
    }

    /** The cards on screen: `orderedUpcomingEvents.slice(0, maxRange)`. */
    function Visible(): (cards: seq<DisplayEvent>)
      reads this
      ensures cards <= ordered
      ensures |cards| == if maxRange < |ordered| then maxRange else |ordered|
    {
      SliceTo(ordered, maxRange)
    }

    /**
     * Whether the load-more button is rendered: while some card is hidden,
     * and also when the counter equals the length; in all, for the first
     * `length / 10` clicks.
     */
    predicate OffersLoadMore(): (offered: bool)
      reads this
      ensures offered <==> Visible() != ordered || maxRange == |ordered|
      ensures Valid() ==> (offered <==> clicks < |ordered| / EVENTS_PER_LOAD)
    {
      LoadMoreShownCases(ordered, maxRange);
      ClicksOffered(|ordered|, clicks);
      LoadMoreShown(|ordered|, maxRange)
    }

    /** The component's output. */
    function Render(): (screen: Screen)
      reads this
      ensures screen.NoEventsBanner? <==> |ordered| == 0
      ensures screen.EventList? ==> screen.cards == Visible() && screen.loadMoreButton == OffersLoadMore()
    {
      View(ordered, maxRange)
    }

    /**
     * loadMoreEvents: one more page is revealed, with no upper clamp, and
     * the fixed analytics notification is returned for the host to send.
     * The derived list is untouched.
     */
    method LoadMore() returns (tracked: TrackedEvent)
      requires Valid()
      modifies this
      ensures Valid()
      ensures maxRange == old(maxRange) + EVENTS_PER_LOAD && clicks == old(clicks) + 1
      ensures old(Visible()) <= Visible()
      ensures tracked == LOAD_MORE_CLICK
    {
      maxRange := maxRange + EVENTS_PER_LOAD;
      clicks := clicks + 1;
      tracked := LOAD_MORE_CLICK;
    }
  }

  /** Twenty-five upcoming events: the first click reveals 20 and keeps the button. */
  method FirstClickOfTwentyFive(list: UpcomingEventsList)
    requires |list.ordered| == 25 && list.maxRange == EVENTS_PER_LOAD && list.Valid()
    modifies list
    ensures list.maxRange == 20 && |list.Visible()| == 20 && list.OffersLoadMore() && list.Valid()
  {
    var tracked := list.LoadMore();
  }

  /** Two clicks over twenty-five events: the second reveals all 25 and withdraws the button. */
  method TwoClicksOverTwentyFive(list: UpcomingEventsList)
    requires |list.ordered| == 25 && list.maxRange == EVENTS_PER_LOAD && list.Valid()
    modifies list
    ensures list.maxRange == 30 && list.Visible() == list.ordered && !list.OffersLoadMore()
  {
    FirstClickOfTwentyFive(list);
    var tracked := list.LoadMore();
  }
}
