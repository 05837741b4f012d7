/** The structure `renderEvents` gives the sorted records: one section per run
    of events of the same year, in a single pass that remembers the year of
    the open section. The markup written around each section and event is not
    part of this model; a section is its year and its events. */
module YearGroups {
  import opened EventDisplay

  datatype YearGroup = YearGroup(year: string, events: seq<DisplayEvent>)

  /** What the listing shows: the "no upcoming group events" notice, or the
      year sections. */
  datatype Listing = NoUpcomingEvents | ByYear(groups: seq<YearGroup>)

  /** The events of the sections, one section after another. */
  function Flatten(groups: seq<YearGroup>): seq<DisplayEvent>
    decreases |groups|
  {
    if groups == [] then [] else Flatten(groups[..|groups| - 1]) + groups[|groups| - 1].events
  }

  /** Opening a section adds its events after all the others. */
  lemma FlattenAppend(groups: seq<YearGroup>, g: YearGroup)
    ensures Flatten(groups + [g]) == Flatten(groups) + g.events
  {
    assert (groups + [g])[..|groups|] == groups;
  }

  /** Adding an event to the open section adds it after all the others. */
  lemma FlattenExtendLast(groups: seq<YearGroup>, x: DisplayEvent)
    requires groups != []
    ensures Flatten(groups[..|groups| - 1] + [YearGroup(groups[|groups| - 1].year, groups[|groups| - 1].events + [x])])
         == Flatten(groups) + [x]
  {
    var last := groups[|groups| - 1];
    FlattenAppend(groups[..|groups| - 1], YearGroup(last.year, last.events + [x]));
  }

  /** A section holds at least one event, and only events of its year. */
  predicate IsRun(g: YearGroup) {
    g.events != [] && forall i :: 0 <= i < |g.events| ==> g.events[i].year == g.year
  }

  /** Two neighbouring sections have different years. A year that formats as
      "" is never remembered, so such an event always opens a section. */
  predicate NeighboursDiffer(groups: seq<YearGroup>) {
    forall k :: 0 < k < |groups| ==> groups[k - 1].year != groups[k].year || groups[k].year == ""
  }

  /** Non-empty single-year sections whose neighbours differ in year. */
  predicate WellSectioned(groups: seq<YearGroup>) {
    (forall k :: 0 <= k < |groups| ==> IsRun(groups[k])) && NeighboursDiffer(groups)
  }

  lemma FlattenEmpty(groups: seq<YearGroup>)
    requires forall k :: 0 <= k < |groups| ==> IsRun(groups[k])
    ensures Flatten(groups) == [] <==> groups == []
  {
    if groups != [] {
      assert IsRun(groups[|groups| - 1]);
    }
  }

  /** The events of all sections but the last, then those of the last. */
  lemma FlattenSplit(groups: seq<YearGroup>)
    requires groups != []
    ensures Flatten(groups) == Flatten(groups[..|groups| - 1]) + groups[|groups| - 1].events
  {
  }

  /** Every event's year formats as something. */
  predicate YearsKnown(events: seq<DisplayEvent>) {
    forall i :: 0 <= i < |events| ==> events[i].year != ""
  }

  /** Dropping the last section keeps the rest well formed. */
  lemma WellSectionedPrefix(p: seq<YearGroup>, a: YearGroup)
    requires WellSectioned(p + [a])
    ensures WellSectioned(p)
  {
    var g := p + [a];
    assert forall k :: 0 <= k < |p| ==> g[k] == p[k];
  }

  /** A last section cannot stop short of a longer tail of the events: the
      event just before it belongs to the previous section, whose year differs. */
  lemma {:induction false} ShorterLastSection(p: seq<YearGroup>, a: YearGroup, tail: seq<DisplayEvent>)
    requires WellSectioned(p + [a]) && a.year != ""
    requires |a.events| < |tail| <= |Flatten(p) + a.events|
    requires tail == (Flatten(p) + a.events)[|Flatten(p) + a.events| - |tail|..]
    ensures tail[|tail| - |a.events| - 1].year != a.year
  {
    var g := p + [a];
    WellSectionedPrefix(p, a);
    FlattenEmpty(p);
    var last := p[|p| - 1];
    assert g[|p| - 1] == last && g[|p|] == a;
    assert IsRun(last);
    var fp := Flatten(p);
    FlattenSplit(p);
    var x := fp[|fp| - 1];
    assert x == last.events[|last.events| - 1];
    var f := fp + a.events;
    assert f[|fp| - 1] == x;
    assert tail[|tail| - |a.events| - 1] == x;
  }

  /** The last sections of two sectionings of the same events have the same
      year, and it is not "". */
  lemma {:induction false} LastYearsEqual(g1: seq<YearGroup>, g2: seq<YearGroup>)
    requires WellSectioned(g1) && WellSectioned(g2)
    requires g1 != [] && g2 != []
    requires Flatten(g1) == Flatten(g2)
    requires YearsKnown(Flatten(g1))
    ensures g1[|g1| - 1].year == g2[|g2| - 1].year != ""
  {
    var a, b := g1[|g1| - 1], g2[|g2| - 1];
    var f := Flatten(g1);
    assert IsRun(a) && IsRun(b);
    FlattenSplit(g1);
    FlattenSplit(g2);
    var x := f[|f| - 1];
    assert x == a.events[|a.events| - 1] == b.events[|b.events| - 1];
  }

  /** ... and the same number of events. */
  lemma {:induction false} LastLengthsEqual(g1: seq<YearGroup>, g2: seq<YearGroup>)
    requires WellSectioned(g1) && WellSectioned(g2)
    requires g1 != [] && g2 != []
    requires Flatten(g1) == Flatten(g2)
    requires YearsKnown(Flatten(g1))
    ensures |g1[|g1| - 1].events| == |g2[|g2| - 1].events|
  {
    var a, b := g1[|g1| - 1], g2[|g2| - 1];
    var p1, p2 := g1[..|g1| - 1], g2[..|g2| - 1];
    LastYearsEqual(g1, g2);
    FlattenSplit(g1);
    FlattenSplit(g2);
    var f := Flatten(g1);
    assert f == Flatten(p1) + a.events == Flatten(p2) + b.events;
    assert g1 == p1 + [a] && g2 == p2 + [b];
    if |a.events| < |b.events| {
      assert b.events == f[|f| - |b.events|..];
      ShorterLastSection(p1, a, b.events);
      assert false;
    } else if |b.events| < |a.events| {
      assert a.events == f[|f| - |a.events|..];
      ShorterLastSection(p2, b, a.events);
      assert false;
    }
  }

  /** Two well-formed sectionings of the same non-empty events, with non-empty
      years, end in the same section, after the same events. */
  lemma {:induction false} LastSectionsEqual(g1: seq<YearGroup>, g2: seq<YearGroup>)
    requires WellSectioned(g1) && WellSectioned(g2)
    requires g1 != [] && g2 != []
    requires Flatten(g1) == Flatten(g2)
    requires YearsKnown(Flatten(g1))
    ensures g1[|g1| - 1] == g2[|g2| - 1]
    ensures Flatten(g1[..|g1| - 1]) == Flatten(g2[..|g2| - 1])
  {
    var a, b := g1[|g1| - 1], g2[|g2| - 1];
    var f := Flatten(g1);
    LastYearsEqual(g1, g2);
    LastLengthsEqual(g1, g2);
    FlattenSplit(g1);
    FlattenSplit(g2);
    assert a.events == f[|f| - |a.events|..] == b.events;
    assert Flatten(g1[..|g1| - 1]) == f[..|f| - |a.events|] == Flatten(g2[..|g2| - 1]);
  }

  /** The events before the last section have known years if all do. */
  lemma {:induction false} YearsKnownOfPrefix(groups: seq<YearGroup>)
    requires groups != [] && YearsKnown(Flatten(groups))
    ensures YearsKnown(Flatten(groups[..|groups| - 1]))
  {
    FlattenSplit(groups);
    var fp := Flatten(groups[..|groups| - 1]);
    assert forall i :: 0 <= i < |fp| ==> fp[i] == Flatten(groups)[i];
  }

  /** When the events have non-empty years, there is only one way to cut them
      into well-formed sections: the one RenderEvents finds. */
  lemma {:induction false} SectionsUnique(g1: seq<YearGroup>, g2: seq<YearGroup>)
    requires WellSectioned(g1) && WellSectioned(g2)
    requires Flatten(g1) == Flatten(g2)
    requires YearsKnown(Flatten(g1))
    ensures g1 == g2
    decreases |g1|
  {
    FlattenEmpty(g1);
    FlattenEmpty(g2);
    if g1 != [] {
      var p1, p2 := g1[..|g1| - 1], g2[..|g2| - 1];
      LastSectionsEqual(g1, g2);
      assert g1 == p1 + [g1[|g1| - 1]] && g2 == p2 + [g2[|g2| - 1]];
      WellSectionedPrefix(p1, g1[|g1| - 1]);
      WellSectionedPrefix(p2, g2[|g2| - 1]);
      YearsKnownOfPrefix(g1);
      SectionsUnique(p1, p2);
      assert g1 == p1 + [g1[|g1| - 1]] && g2 == p2 + [g2[|g2| - 1]];
    }
  }

  /** Opening a section, when no year is remembered or the event's year
      differs from it, keeps the sections well formed. */
  lemma OpenSectionKeepsShape(groups: seq<YearGroup>, event: DisplayEvent)
    requires WellSectioned(groups)
    requires groups != [] ==> groups[|groups| - 1].year == "" || groups[|groups| - 1].year != event.year
    ensures WellSectioned(groups + [YearGroup(event.year, [event])])
  {
    var g := groups + [YearGroup(event.year, [event])];
    assert forall k :: 0 <= k < |groups| ==> g[k] == groups[k];
  }

  /** Adding an event of the remembered year to the open section keeps the
      sections well formed. */
  lemma ExtendSectionKeepsShape(groups: seq<YearGroup>, event: DisplayEvent)
    requires WellSectioned(groups) && groups != []
    requires groups[|groups| - 1].year == event.year
    ensures WellSectioned(groups[..|groups| - 1]
              + [YearGroup(event.year, groups[|groups| - 1].events + [event])])
  {
    var n := |groups| - 1;
    var last := groups[n];
    var g := groups[..n] + [YearGroup(event.year, last.events + [event])];
    assert forall k :: 0 <= k < n ==> g[k] == groups[k];
    assert IsRun(last);
    assert IsRun(g[n]);
  }

  /** The sections of a sorted list: the notice when it is empty; otherwise
      non-empty runs of one year each, neighbours differing in year, that
      together give back the list in its order. */
  method RenderEvents(events: seq<DisplayEvent>) returns (listing: Listing)
    ensures listing == NoUpcomingEvents <==> |events| == 0
    ensures listing.ByYear? ==> Flatten(listing.groups) == events
    ensures listing.ByYear? ==> WellSectioned(listing.groups)
  {
    if |events| == 0 {
      return NoUpcomingEvents;
    }
    var currYear := "";
    var groups: seq<YearGroup> := [];
    for i := 0 to |events|
      invariant Flatten(groups) == events[..i]
      invariant WellSectioned(groups)
      invariant groups == [] <==> i == 0
      invariant currYear == if groups == [] then "" else groups[|groups| - 1].year
    {
      var event := events[i];
      assert events[..i + 1] == events[..i] + [event];
      if currYear == "" {
        FlattenAppend(groups, YearGroup(event.year, [event]));
        OpenSectionKeepsShape(groups, event);
        groups := groups + [YearGroup(event.year, [event])];
        currYear := event.year;
      } else if currYear != event.year {
        FlattenAppend(groups, YearGroup(event.year, [event]));
        OpenSectionKeepsShape(groups, event);
        groups := groups + [YearGroup(event.year, [event])];
        currYear := event.year;
      } else {
        var last := groups[|groups| - 1];
        FlattenExtendLast(groups, event);
        ExtendSectionKeepsShape(groups, event);
        groups := groups[..|groups| - 1] + [YearGroup(last.year, last.events + [event])];
      }
    }
    assert events[..|events|] == events;
    listing := ByYear(groups);
  }
}
