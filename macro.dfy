/** The Group Events macro: `getGroupEvents` and `render`. The calendar store
    is the function `calendar`, which answers a query with the raw events it
    finds; its answers are taken as given. */
module EventsMacro {
  import opened PhpRuntime
  import opened Hubzero
  import opened EventFilters
  import opened EventDisplay
  import opened EventOrder
  import opened YearGroups

  /** The loop of `getGroupEvents` that turns each raw event into its display
      record, keeping their order. */
  method MapEvents(lib: Library, rawEvents: seq<RawEvent>) returns (mapped: seq<DisplayEvent>)
    ensures mapped == MapAll(lib, rawEvents)
  {
    mapped := [];
    for i := 0 to |rawEvents|
      invariant mapped == MapAll(lib, rawEvents[..i])
    {
      MapAllAppend(lib, rawEvents[..i], rawEvents[i]);
      assert rawEvents[..i + 1] == rawEvents[..i] + [rawEvents[i]];
      mapped := mapped + [MapEvent(lib, rawEvents[i])];
    }
    assert rawEvents[..|rawEvents|] == rawEvents;
  }

  /** The two queries sent for the filters, and the display records of every
      event returned, in order of start. */
  method GetGroupEvents(lib: Library, scopeId: int, filters: Filters, until: string,
                        calendar: Query -> seq<RawEvent>)
    returns (listQuery: Query, repeatingQuery: Query, events: seq<DisplayEvent>)
    ensures listQuery == WindowQuery(NonRepeating, scopeId, filters, until)
    ensures repeatingQuery == WindowQuery(Repeating, scopeId, filters, until)
    ensures Ascending(events)
    ensures multiset(events) == multiset(MapAll(lib, calendar(listQuery) + calendar(repeatingQuery)))
  {
    var start := ValueOr(filters.start, "");
    var end := ValueOr(filters.end, "");
    var calendarId := ValueOr(filters.calendarId, 0);

    if Truthy(start) && !IsYmd(start) {
      start := "";
    }
    if Truthy(end) && !IsYmd(end) {
      end := "";
    }

    start := start + StartOfDay;
    end := ZeroDate;

    assert start == SanitiseDate(ValueOr(filters.start, "")) + StartOfDay;
    listQuery := Query(NonRepeating, "group", scopeId, calendarId, [1], start, end, None);
    repeatingQuery := Query(Repeating, "group", scopeId, calendarId, [1], start, end, Some(until));
    assert listQuery == WindowQuery(NonRepeating, scopeId, filters, until);
    assert repeatingQuery == WindowQuery(Repeating, scopeId, filters, until);
    var rawEvents := calendar(listQuery) + calendar(repeatingQuery);

    var mapped := MapEvents(lib, rawEvents);
    events := SortByStart(mapped);
  }

  /** What the macro puts on the page. */
  datatype MacroOutput = GroupsOnly | Events(listing: Listing)

  /** `render`: outside a group only the notice; inside, the events of the
      window of no filters, in year sections, or the "no events" notice when
      the calendar returns none. */
  method Render(lib: Library, inGroup: bool, scopeId: int, until: string,
                calendar: Query -> seq<RawEvent>)
    returns (output: MacroOutput)
    ensures !inGroup <==> output == GroupsOnly
    ensures output.Events? ==>
              (output.listing == NoUpcomingEvents
               <==> calendar(WindowQuery(NonRepeating, scopeId, NoFilters, until)) == []
                    && calendar(WindowQuery(Repeating, scopeId, NoFilters, until)) == [])
    ensures output.Events? && output.listing.ByYear? ==>
              WellSectioned(output.listing.groups)
              && Ascending(Flatten(output.listing.groups))
              && multiset(Flatten(output.listing.groups))
                 == multiset(MapAll(lib, calendar(WindowQuery(NonRepeating, scopeId, NoFilters, until))
                                         + calendar(WindowQuery(Repeating, scopeId, NoFilters, until))))
  {
    if !inGroup {
      return GroupsOnly;
    }
    var _, _, events := GetGroupEvents(lib, scopeId, NoFilters, until, calendar);
    var listing := RenderEvents(events);
    output := Events(listing);
  }
}
