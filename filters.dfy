/** The date window `getGroupEvents` asks the calendar for: the `start`,
    `end` and `calendar_id` filters are sanitised and turned into the two
    calendar queries (one for single events, one for repeating ones). */
module EventFilters {
  import opened PhpRuntime
  import opened Hubzero

  /** The filters array; a key that is not set is None. */
  datatype Filters = Filters(start: Option<string>, end: Option<string>, calendarId: Option<int>)

  /** What `render` passes: `array()`. */
  const NoFilters: Filters := Filters(None, None, None)

  /** Appended to the start day to make a datetime. */
  const StartOfDay: string := " 00:00:00"

  /** `preg_match('/^([0-9]{4})-([0-9]{2})-([0-9]{2})$/', s)`. Without the D
      modifier, `$` also matches in front of one final "\n". */
  predicate IsYmd(s: string) {
    && (|s| == 10 || (|s| == 11 && s[10] == '\n'))
    && IsDigit(s[0]) && IsDigit(s[1]) && IsDigit(s[2]) && IsDigit(s[3])
    && s[4] == '-'
    && IsDigit(s[5]) && IsDigit(s[6])
    && s[7] == '-'
    && IsDigit(s[8]) && IsDigit(s[9])
  }

  /** A date filter after the check: a truthy value that is not YYYY-MM-DD is
      replaced by "". */
  function SanitiseDate(s: string): (r: string)
    ensures r == s || r == ""
    ensures r == "" || r == "0" || IsYmd(r)
    ensures IsYmd(s) || s == "0" ==> r == s
  {
    if Truthy(s) && !IsYmd(s) then "" else s
  }

  function ValueOr<T>(o: Option<T>, default: T): T {
    match o
    case Some(v) => v
    case None => default
  }

  datatype FetchKind = NonRepeating | Repeating

  /** The options array passed to `Calendar::events`. */
  datatype Query = Query(
    kind: FetchKind,
    scope: string,
    scopeId: int,
    calendarId: int,
    state: seq<int>,
    publishUp: string,
    publishDown: string,
    until: Option<string>)

  /** The query of the given kind that `getGroupEvents` sends for these
      filters; `until` is the wall-clock "now + 1 year", passed in. */
  function WindowQuery(kind: FetchKind, scopeId: int, filters: Filters, until: string): (q: Query)
    ensures q.publishDown == ZeroDate
    ensures q.kind == kind && q.scope == "group" && q.scopeId == scopeId && q.state == [1]
    ensures q.calendarId == ValueOr(filters.calendarId, 0)
    ensures q.until == (if kind == Repeating then Some(until) else None)
    ensures |q.publishUp| >= |StartOfDay| && q.publishUp[|q.publishUp| - |StartOfDay|..] == StartOfDay
    ensures q.publishUp[..|q.publishUp| - |StartOfDay|] == SanitiseDate(ValueOr(filters.start, ""))
  {
    var start := SanitiseDate(ValueOr(filters.start, ""));
    Query(kind, "group", scopeId, ValueOr(filters.calendarId, 0), [1],
          start + StartOfDay, ZeroDate,
          if kind == Repeating then Some(until) else None)
  }

  /** A well-formed start date reaches the calendar as midnight of that day. */
  lemma WellFormedStartKept(kind: FetchKind, scopeId: int, filters: Filters, until: string)
    requires filters.start.Some? && IsYmd(filters.start.value)
    ensures WindowQuery(kind, scopeId, filters, until).publishUp == filters.start.value + StartOfDay
  {
  }

  /** A truthy start that is not YYYY-MM-DD reaches the calendar as the bare
      time " 00:00:00". */
  lemma MalformedStartDropped(kind: FetchKind, scopeId: int, filters: Filters, until: string)
    requires filters.start.Some? && Truthy(filters.start.value) && !IsYmd(filters.start.value)
    ensures WindowQuery(kind, scopeId, filters, until).publishUp == StartOfDay
  {
  }

  /** The `end` filter never reaches the calendar, whatever its value. */
  lemma EndFilterIgnored(kind: FetchKind, scopeId: int, filters: Filters, end: Option<string>, until: string)
    ensures WindowQuery(kind, scopeId, filters, until)
         == WindowQuery(kind, scopeId, filters.(end := end), until)
  {
  }

  /** The pattern checks the shape only: impossible dates and a trailing
      newline pass. */
  lemma ShapeOnlyCheck()
    ensures IsYmd("2021-02-30") && IsYmd("9999-99-99") && IsYmd("2021-04-15\n")
    ensures !IsYmd("2021-4-15") && !IsYmd("2021/04/15") && !IsYmd("2021-04-15 ")
  {
  }

  /** What `render` asks for: no filters, so every event from " 00:00:00" on,
      in calendar 0. */
  lemma RenderWindow(kind: FetchKind, scopeId: int, until: string)
    ensures WindowQuery(kind, scopeId, NoFilters, until).publishUp == StartOfDay
    ensures WindowQuery(kind, scopeId, NoFilters, until).calendarId == 0
  {
  }
}
