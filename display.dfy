/** The loop body of `getGroupEvents`: how one raw calendar event becomes the
    record the macro displays (its link, teaser text, style class and the two
    time labels). */
module EventDisplay {
  import opened PhpRuntime
  import opened Hubzero

  /** An event as the calendar returns it. Dates are the stored strings;
      `link` is what `$rawEvent->link()` returns. */
  datatype RawEvent = RawEvent(
    title: string,
    location: string,
    content: string,
    publishUp: string,
    publishDown: string,
    allday: int,
    repeatingRule: string,
    calendarId: string,
    ignoreDst: int,
    link: string)

  /** The `stdClass` record built for each event; `up` is the instant the
      `$event->up` Date object holds when the list is sorted. */
  datatype DisplayEvent = DisplayEvent(
    title: string,
    url: string,
    location: string,
    about: string,
    allDay: bool,
    className: string,
    startMonth: string,
    startDay: string,
    iso8601: string,
    year: string,
    up: Instant,
    start: string,
    end: string)

  // ---------------------------------------------------------------------
  // The link

  /** Whether the link of a repeating event also carries `&end=`. */
  predicate EndParamApplies(publishDown: string) {
    Truthy(publishDown) && publishDown != ZeroDate
  }

  /** The link to the event; for an occurrence of a repeating event it names
      the occurrence's start (and end) as query parameters. */
  function EventUrl(e: RawEvent, up: Instant, down: Instant): (url: string)
    ensures |e.link| <= |url| && url[..|e.link|] == e.link
    ensures url == e.link <==> e.repeatingRule == ""
  {
    if e.repeatingRule == "" then e.link
    else
      e.link + "?start=" + IntToString(up)
      + (if EndParamApplies(e.publishDown) then "&end=" + IntToString(down) else "")
  }

  /** Position of the first c in s, or |s| when there is none. */
  function IndexOf(s: string, c: char): (i: nat)
    ensures i <= |s|
    ensures forall j :: 0 <= j < i ==> s[j] != c
    ensures i < |s| ==> s[i] == c
    decreases |s|
  {
    if s == [] then 0 else if s[0] == c then 0 else 1 + IndexOf(s[1..], c)
  }

  /** The occurrence a link names, as the event page reads it back. */
  datatype Occurrence = Occurrence(start: Instant, end: Option<Instant>)

  /** Reads what follows the start value: nothing, or `&end=E`. */
  function ReadEnd(s: string): Option<Option<Instant>> {
    if s == [] then Some(None)
    else if |s| < 5 || s[..5] != "&end=" then None
    else
      match ParseInt(s[5..])
      case None => None
      case Some(end) => Some(Some(end))
  }

  /** Reads `S[&end=E]`. */
  function ReadQuery(q: string): Option<Occurrence> {
    var i := IndexOf(q, '&');
    match ParseInt(q[..i])
    case None => None
    case Some(start) =>
      match ReadEnd(q[i..])
      case None => None
      case Some(end) => Some(Occurrence(start, end))
  }

  /** Reads `?start=S[&end=E]` after the event's own link. */
  function ReadOccurrence(url: string, link: string): Option<Occurrence> {
    var n := |link|;
    if |url| < n + 7 || url[..n] != link || url[n..n + 7] != "?start=" then None
    else ReadQuery(url[n + 7..])
  }

  /** In a number followed by nothing or by '&...', the first '&' is where the
      number ends. */
  lemma AmpersandAfterNumber(n: int, tail: string)
    requires tail == [] || tail[0] == '&'
    ensures IndexOf(IntToString(n) + tail, '&') == |IntToString(n)|
  {
    var a := IntToString(n);
    var rest := a + tail;
    if tail != [] {
      assert rest[|a|] == '&';
    }
  }

  /** The end parameter reads back as the instant written into it. */
  lemma ReadEndParam(end: Option<Instant>)
    ensures ReadEnd(if end.Some? then "&end=" + IntToString(end.value) else "") == Some(end)
  {
    if end.Some? {
      var s := "&end=" + IntToString(end.value);
      assert s[..5] == "&end=" && s[5..] == IntToString(end.value);
      IntToStringRoundTrip(end.value);
    }
  }

  /** The query part of an occurrence link reads back as its start and end. */
  lemma ReadOccurrenceQuery(up: Instant, end: Option<Instant>)
    ensures ReadQuery(IntToString(up) + (if end.Some? then "&end=" + IntToString(end.value) else ""))
         == Some(Occurrence(up, end))
  {
    var a := IntToString(up);
    var tail := if end.Some? then "&end=" + IntToString(end.value) else "";
    var q := a + tail;
    AmpersandAfterNumber(up, tail);
    assert q[..|a|] == a && q[|a|..] == tail;
    IntToStringRoundTrip(up);
    ReadEndParam(end);
  }

  /** After the link and "?start=", the reader sees exactly the query part. */
  lemma ReadOccurrenceAfterLink(link: string, q: string)
    ensures ReadOccurrence(link + "?start=" + q, link) == ReadQuery(q)
  {
    var url := link + "?start=" + q;
    var n := |link|;
    assert url[..n] == link;
    assert url[n..n + 7] == "?start=";
    assert url[n + 7..] == q;
  }

  /** The link of a repeating event names exactly its occurrence: the start
      instant, and the end instant when the stored end is set and not the zero
      date; the link of any other event names none. */
  lemma UrlCarriesOccurrence(e: RawEvent, up: Instant, down: Instant)
    ensures ReadOccurrence(EventUrl(e, up, down), e.link)
         == if e.repeatingRule == "" then None
            else Some(Occurrence(up, if EndParamApplies(e.publishDown) then Some(down) else None))
  {
    if e.repeatingRule != "" {
      var end := if EndParamApplies(e.publishDown) then Some(down) else None;
      var q := IntToString(up) + (if end.Some? then "&end=" + IntToString(end.value) else "");
      assert EventUrl(e, up, down) == e.link + "?start=" + q;
      ReadOccurrenceAfterLink(e.link, q);
      ReadOccurrenceQuery(up, end);
    }
  }

  // ---------------------------------------------------------------------
  // The teaser text

  /** The longest teaser kept whole. */
  const AboutCap: nat := 255

  function MoreLink(url: string): string {
    " <a href=\"" + url + "\">[more]</a>"
  }

  /** The content with its line breaks turned into tags; if that is longer than
      the cap it is cut by the framework and followed by a link to the event. */
  function About(lib: Library, content: string, url: string): (about: string)
    ensures |Nl2br(content)| <= AboutCap ==> about == Nl2br(content) && StripBreakTags(about) == content
    ensures |Nl2br(content)| > AboutCap ==>
              |MoreLink(url)| <= |about| && about[|about| - |MoreLink(url)|..] == MoreLink(url)
  {
    var html := Nl2br(content);
    Nl2brRoundTrip(content);
    if |html| > AboutCap then lib.truncateHtml(html, AboutCap) + MoreLink(url) else html
  }

  /** Short content without line breaks is shown exactly as stored. */
  lemma ShortPlainContentVerbatim(lib: Library, content: string, url: string)
    requires |content| <= AboutCap
    requires forall i :: 0 <= i < |content| ==> !IsBreak(content[i])
    ensures About(lib, content, url) == content
  {
    Nl2brNoBreaks(content);
  }

  // ---------------------------------------------------------------------
  // The style class

  /** "calendar-" and the event's calendar id, or "calendar-0" when the id is
      not truthy. */
  function ClassName(calendarId: string): (c: string)
    ensures |c| > 9 && c[..9] == "calendar-"
    ensures Truthy(calendarId) ==> c[9..] == calendarId
    ensures !Truthy(calendarId) ==> c == "calendar-0"
  {
    if Truthy(calendarId) then "calendar-" + calendarId else "calendar-0"
  }

  // ---------------------------------------------------------------------
  // The time labels

  const HeatDeath: string := "(heat death of the universe)"
  const AllDayLabel: string := "All day"

  /** The branch of the label decision that an event takes. */
  datatype Kind =
    | OpenEnded  // timed, no end
    | SameDay    // timed, starts and ends on one day
    | MultiDay   // timed, spans days
    | DateSpan   // all day, shown as a range of dates
    | AllDay     // all day, within one day

  /** The labels, and the instant `$up` holds afterwards. */
  datatype Timing = Timing(kind: Kind, start: string, end: string, up: Instant)

  datatype Span = Span(up: Instant, down: Instant)

  /** The all-day adjustment: an end no more than 24 hours after the start is
      replaced by start + 24 hours. When `add` moves its receiver, the start
      moves with it. */
  function AllDayAdjust(lib: Library, up: Instant, down: Instant): (s: Span)
    ensures s.down > up
    ensures down - DaySeconds > up ==> s == Span(up, down)
    ensures down - DaySeconds <= up ==> s.down == up + DaySeconds
    ensures s.up == if lib.addMutates && down - DaySeconds <= up then s.down else up
  {
    if down - DaySeconds <= up then
      var moved := up + DaySeconds;
      Span(if lib.addMutates then moved else up, moved)
    else Span(up, down)
  }

  /** The start and end labels of an event. */
  function EventTiming(lib: Library, up: Instant, down: Instant, allDay: bool, ignoreDst: bool): (t: Timing)
    ensures t.kind == OpenEnded <==> !allDay && down <= ZeroInstant(lib)
    ensures t.kind == SameDay <==> !allDay && down > ZeroInstant(lib) && Day(lib, up) == Day(lib, down)
    ensures t.kind == MultiDay <==> !allDay && down > ZeroInstant(lib) && Day(lib, up) != Day(lib, down)
    ensures t.kind == AllDay <==>
              allDay && AllDayAdjust(lib, up, down).down > ZeroInstant(lib)
              && Day(lib, AllDayAdjust(lib, up, down).down) == Day(lib, AllDayAdjust(lib, up, down).up)
    ensures t.kind == OpenEnded ==> t.start == lib.toLocal(up, "g:i A T", ignoreDst) && t.end == HeatDeath
    ensures t.kind == SameDay ==>
              t.start == lib.toLocal(up, "g:i A", ignoreDst) && t.end == lib.toLocal(down, "g:i A T", ignoreDst)
    ensures t.kind == MultiDay ==>
              t.start == lib.toLocal(up, "M j g:i A T", ignoreDst) && t.end == lib.toLocal(down, "M j g:i A T", ignoreDst)
    ensures t.kind == DateSpan ==>
              t.start == lib.format(t.up, "M j") && t.end == lib.format(AllDayAdjust(lib, up, down).down, "M j")
    ensures t.kind == AllDay ==> t.start == AllDayLabel && t.end == ""
    ensures t.up == if allDay then AllDayAdjust(lib, up, down).up else up
  {
    if !allDay then
      if down <= ZeroInstant(lib) then
        Timing(OpenEnded, lib.toLocal(up, "g:i A T", ignoreDst), HeatDeath, up)
      else if Day(lib, up) == Day(lib, down) then
        Timing(SameDay, lib.toLocal(up, "g:i A", ignoreDst), lib.toLocal(down, "g:i A T", ignoreDst), up)
      else
        Timing(MultiDay, lib.toLocal(up, "M j g:i A T", ignoreDst), lib.toLocal(down, "M j g:i A T", ignoreDst), up)
    else
      var s := AllDayAdjust(lib, up, down);
      if s.down <= ZeroInstant(lib) || Day(lib, s.down) != Day(lib, s.up) then
        Timing(DateSpan, lib.format(s.up, "M j"), lib.format(s.down, "M j"), s.up)
      else
        Timing(AllDay, AllDayLabel, "", s.up)
  }

  /** With formatters that write something, the end label is blank exactly for
      the "All day" case. */
  lemma EndLabelBlankOnlyForAllDay(lib: Library, up: Instant, down: Instant, allDay: bool, ignoreDst: bool)
    requires WritesSomething(lib)
    ensures EventTiming(lib, up, down, allDay, ignoreDst).end == ""
        <==> EventTiming(lib, up, down, allDay, ignoreDst).kind == AllDay
  {
    var t := EventTiming(lib, up, down, allDay, ignoreDst);
    var s := AllDayAdjust(lib, up, down);
    match t.kind
    case SameDay => assert lib.toLocal(down, "g:i A T", ignoreDst) != "";
    case MultiDay => assert lib.toLocal(down, "M j g:i A T", ignoreDst) != "";
    case DateSpan => assert lib.format(s.down, "M j") != "";
    case _ =>
  }

  /** For an all-day event that starts after the zero date the "no end" test
      never fires: only the day comparison decides. */
  lemma AllDayZeroTestUnreachable(lib: Library, up: Instant, down: Instant, ignoreDst: bool)
    requires up > ZeroInstant(lib)
    ensures AllDayAdjust(lib, up, down).down > ZeroInstant(lib)
    ensures EventTiming(lib, up, down, true, ignoreDst).kind == DateSpan
        <==> Day(lib, AllDayAdjust(lib, up, down).down) != Day(lib, AllDayAdjust(lib, up, down).up)
  {
  }

  /** An all-day event that ends within 24 hours of its start: labelled
      "All day" when `add` moves `$up`; when it does not, and the day after
      the start is a different day, labelled as a range of two dates. */
  lemma ShortAllDayEvent(lib: Library, up: Instant, down: Instant, ignoreDst: bool)
    requires down - DaySeconds <= up && up + DaySeconds > ZeroInstant(lib)
    ensures lib.addMutates ==>
              EventTiming(lib, up, down, true, ignoreDst).kind == AllDay
              && EventTiming(lib, up, down, true, ignoreDst).up == up + DaySeconds
    ensures !lib.addMutates && Day(lib, up + DaySeconds) != Day(lib, up) ==>
              EventTiming(lib, up, down, true, ignoreDst).kind == DateSpan
  {
  }

  /** Without a moving `add`, and with the day after the start a different
      day, "All day" is only reached by an event longer than 24 hours whose end
      formats as the same day as its start. */
  lemma AllDayNeedsMovingAdd(lib: Library, up: Instant, down: Instant, ignoreDst: bool)
    requires !lib.addMutates && Day(lib, up + DaySeconds) != Day(lib, up)
    requires EventTiming(lib, up, down, true, ignoreDst).kind == AllDay
    ensures down - DaySeconds > up && Day(lib, down) == Day(lib, up)
  {
  }

  // ---------------------------------------------------------------------
  // The whole record

  /** The display record of one raw event. */
  function MapEvent(lib: Library, e: RawEvent): (d: DisplayEvent)
    ensures d.title == e.title && d.location == e.location
    ensures d.allDay <==> e.allday == 1
    ensures |e.link| <= |d.url| && d.url[..|e.link|] == e.link
    ensures d.year == lib.format(lib.parse(e.publishUp), "Y")
    ensures var up := lib.parse(e.publishUp);
            d.startMonth == lib.format(up, "M") && d.startDay == lib.format(up, "d") && d.iso8601 == lib.format(up, "c")
    ensures d.up == lib.parse(e.publishUp)
         || (d.allDay && lib.addMutates && d.up == lib.parse(e.publishUp) + DaySeconds)
    ensures d.url == EventUrl(e, lib.parse(e.publishUp), lib.parse(e.publishDown))
    ensures d.about == About(lib, e.content, d.url)
    ensures d.className == ClassName(e.calendarId)
    ensures var t := EventTiming(lib, lib.parse(e.publishUp), lib.parse(e.publishDown), d.allDay, e.ignoreDst == 1);
            d.start == t.start && d.end == t.end && d.up == t.up
  {
    var up := lib.parse(e.publishUp);
    var down := lib.parse(e.publishDown);
    var ignoreDst := e.ignoreDst == 1;
    var url := EventUrl(e, up, down);
    var allDay := e.allday == 1;
    var t := EventTiming(lib, up, down, allDay, ignoreDst);
    DisplayEvent(
      e.title, url, e.location, About(lib, e.content, url), allDay, ClassName(e.calendarId),
      lib.format(up, "M"), lib.format(up, "d"), lib.format(up, "c"), lib.format(up, "Y"),
      t.up, t.start, t.end)
  }

  /** The display records of a list of raw events, one each, in order. */
  function MapAll(lib: Library, raws: seq<RawEvent>): seq<DisplayEvent> {
    seq(|raws|, i requires 0 <= i < |raws| => MapEvent(lib, raws[i]))
  }

  /** Mapping one more raw event adds its record at the end. */
  lemma MapAllAppend(lib: Library, raws: seq<RawEvent>, r: RawEvent)
    ensures MapAll(lib, raws + [r]) == MapAll(lib, raws) + [MapEvent(lib, r)]
  {
  }
}
