/** The `uasort` at the end of `getGroupEvents`: the display records are put
    in order of the instant `$event->up` holds. The comparator returns the
    difference of the two instants, so only its sign matters. */
module EventOrder {
  import opened EventDisplay

  /** Non-decreasing in the start instant. */
  predicate Ascending(es: seq<DisplayEvent>) {
    forall i, j :: 0 <= i < j < |es| ==> es[i].up <= es[j].up
  }

  /** A record that starts no later than the head of an ascending list can go
      in front of it. */
  lemma AscendingCons(x: DisplayEvent, s: seq<DisplayEvent>)
    requires Ascending(s)
    requires s != [] ==> x.up <= s[0].up
    ensures Ascending([x] + s)
  {
    var r := [x] + s;
    forall i, j | 0 <= i < j < |r| ensures r[i].up <= r[j].up {
      if i == 0 {
        assert r[j] == s[j - 1];
        assert s[0].up <= s[j - 1].up;
      }
    }
  }

  /** s with e placed before the first record that does not start earlier. */
  function InsertByStart(e: DisplayEvent, s: seq<DisplayEvent>): (r: seq<DisplayEvent>)
    requires Ascending(s)
    ensures Ascending(r)
    ensures multiset(r) == multiset(s) + multiset{e}
    ensures r[0] == e || (s != [] && r[0] == s[0])
    decreases |s|
  {
    if s == [] || e.up <= s[0].up then
      AscendingCons(e, s);
      [e] + s
    else
      var rest := InsertByStart(e, s[1..]);
      assert s == [s[0]] + s[1..];
      assert 1 < |s| ==> s[0].up <= s[1].up;
      AscendingCons(s[0], rest);
      [s[0]] + rest
  }

  /** The sorted list: in order of start, holding each record as often as the
      input does. Records with equal starts may come out in any order. */
  method SortByStart(events: seq<DisplayEvent>) returns (sorted: seq<DisplayEvent>)
    ensures Ascending(sorted)
    ensures multiset(sorted) == multiset(events)
  {
    sorted := [];
    for i := 0 to |events|
      invariant Ascending(sorted)
      invariant multiset(sorted) == multiset(events[..i])
    {
      sorted := InsertByStart(events[i], sorted);
      assert events[..i + 1] == events[..i] + [events[i]];
    }
    assert events[..|events|] == events;
  }
}
