# Group Events macro: a verified model

The HUBzero `[[Group.Events()]]` wiki macro lists a group's upcoming calendar
events. In `getGroupEvents` it:

- sanitises the date filters;
- asks the calendar for the group's single and repeating events from that
  start on;
- turns every raw event into a display record: a link (naming the clicked
  occurrence of a repeating event), a teaser text capped at 255 characters,
  a style class, and start and end labels chosen by a small decision tree
  with a 24-hour rule for all-day events;
- sorts the records by start instant.

`renderEvents` then cuts the sorted list into one section per year, or shows
a "no upcoming group events" notice when the list is empty. `render` ties the
two together for a page inside a group.

The project is made of these modules:

- `PhpRuntime` (`php_runtime.dfy`): the PHP behaviour the macro relies on.
  This covers string truthiness, the decimal text of an integer with its
  reader, and `nl2br` with its inverse.
- `Hubzero` (`hubzero.dfy`): the date and string library the macro calls. It
  is kept abstract as a `Library` value of functions. Instants are integers
  (Unix seconds). The zero date `0000-00-00 00:00:00` is whatever instant the
  library parses it to.
- `EventFilters` (`filters.dfy`): filter sanitisation and the two calendar
  queries.
- `EventDisplay` (`display.dfy`): the per-event record. This covers the URL
  and the reader that gets the occurrence back out of it, the teaser, the
  class name, the labels and the all-day adjustment.
- `EventOrder` (`ordering.dfy`): the `uasort` by start instant.
- `YearGroups` (`grouping.dfy`): the year-section pass of `renderEvents`.
- `EventsMacro` (`macro.dfy`): `getGroupEvents` and `render` as methods. The
  calendar is a function from query to raw events.

`getGroupEvents` and `renderEvents` change variables step by step, so they
are methods with loops. The sort works on a value list, as PHP arrays are
values. The per-event branches are pure functions that the loop calls.

Some points follow the code rather than the macro's advertised behaviour:

- The help text advertises `from=`, `to=` and `for=` arguments, but `render`
  passes an empty filter array (`events.php:66-70`). No argument parser
  exists, and none is modelled.
- The date check is the PCRE pattern `^…$` without the `D` modifier. It
  checks the shape only (`2021-02-30` passes), and it also accepts a value
  with one trailing newline.
- A `start` filter of `"0"` is falsy in PHP, so it escapes the check and is
  kept.
- Whether `Date::add` moves the date it is called on is not visible here. It
  is the parameter `addMutates` of the library. `$event->up`, the sort key,
  aliases `$up`, so an all-day event moved by the 24-hour rule is sorted by
  its moved start when `add` mutates.

## Model

| member | source | states |
|---|---|---|
| `PhpRuntime.IntToString` | macros/group/events.php:162-165 | The text that PHP's `.` writes for an integer, as in `toUnix()` concatenated into the link. It starts with `-` exactly when the number is negative, and the rest is decimal digits without a leading zero. Zero is written `0`, never `-0` or `00`. |
| `PhpRuntime.IntToStringRoundTrip` | macros/group/events.php:162-165 | The decimal text that `.` gives an instant reads back as exactly that instant, negative ones included. |
| `PhpRuntime.Nl2brRoundTrip` | macros/group/events.php:169 | `Nl2br` is PHP's `nl2br` in its XHTML form: it puts `<br />` before each line break and keeps the break. Removing every `<br />` that stands before a line break gives back exactly the text `nl2br` was given. `\r\n` and `\n\r` count as one break. |
| `PhpRuntime.Nl2brNoBreaks` | macros/group/events.php:169 | Text without `\r` or `\n` passes through `nl2br` unchanged. |
| `EventFilters.SanitiseDate` | macros/group/events.php:104-111 | `Truthy` is PHP's truthiness of a string: false exactly for `""` and `"0"`. `IsYmd` is the pattern test. A date filter is either kept or replaced by `""`. What remains is `""`, the falsy `"0"`, or a `YYYY-MM-DD` shape. A well-shaped value or `"0"` is always kept. |
| `EventFilters.WindowQuery` | macros/group/events.php:100-139 | Both queries have scope `group`, state `[1]`, the calendar id filter or 0, and `publish_down` equal to the zero date. `publish_up` is the sanitised start followed by `" 00:00:00"`. Only the repeating query carries `until`. |
| `EventFilters.WellFormedStartKept` | macros/group/events.php:104-114 | A `YYYY-MM-DD` start reaches the calendar as that day followed by `" 00:00:00"`. |
| `EventFilters.MalformedStartDropped` | macros/group/events.php:104-114 | A truthy start of any other shape reaches the calendar as the bare `" 00:00:00"`. |
| `EventFilters.EndFilterIgnored` | macros/group/events.php:108-137 | Changing the `end` filter never changes either query. |
| `EventFilters.ShapeOnlyCheck` | macros/group/events.php:104 | `IsYmd` models `preg_match` with `^([0-9]{4})-([0-9]{2})-([0-9]{2})$`. The pattern accepts impossible dates and a trailing newline, and rejects other separators, short fields and trailing spaces. |
| `EventFilters.RenderWindow` | macros/group/events.php:66-70 | What `render` asks for starts at `" 00:00:00"` in calendar 0. |
| `EventDisplay.EventUrl` | macros/group/events.php:157-167 | The URL starts with the event's link. It equals the link exactly when the event has no repeating rule. |
| `EventDisplay.UrlCarriesOccurrence` | macros/group/events.php:157-167 | Reading a repeating event's URL back gives its start instant. It also gives its end instant exactly when `publish_down` is truthy and not the zero date. A non-repeating event's URL names no occurrence. |
| `EventDisplay.About` | macros/group/events.php:169-174 | Within the 255 cap, the teaser is `nl2br(content)`, and stripping the tags gives the content back. Over the cap, it ends with the `[more]` link to the event's URL. |
| `EventDisplay.ShortPlainContentVerbatim` | macros/group/events.php:169-174 | Short content without line breaks is shown exactly as stored. |
| `EventDisplay.ClassName` | macros/group/events.php:177 | The class is `calendar-` followed by the calendar id when the id is truthy, and `calendar-0` otherwise. |
| `EventDisplay.AllDayAdjust` | macros/group/events.php:202-205 | After the 24-hour rule the end is strictly after the stored start. An end more than 24 hours out is kept. Otherwise the end becomes start + 24 hours. In that case the start moves with it exactly when `add` mutates; in every other case the start stays put. |
| `EventDisplay.EventTiming` | macros/group/events.php:183-216 | Gives both directions of the condition for each of the five label cases, and each case's start and end labels. Open-ended events end in `(heat death of the universe)`. "All day" has an empty end. The sort instant is the adjusted start for all-day events. |
| `EventDisplay.EndLabelBlankOnlyForAllDay` | macros/group/events.php:183-216 | When the formatters write something, the end label is empty exactly in the "All day" case. |
| `EventDisplay.AllDayZeroTestUnreachable` | macros/group/events.php:202-209 | For an all-day event starting after the zero date, the adjusted end is after the zero date. So only the day comparison chooses between a date range and "All day". |
| `EventDisplay.ShortAllDayEvent` | macros/group/events.php:200-216 | Take an all-day event ending within 24 hours of its start. If `add` mutates, it is labelled "All day" and sorted at start + 24 hours. If not, and the next day formats differently, it is labelled as a two-date range. |
| `EventDisplay.AllDayNeedsMovingAdd` | macros/group/events.php:202-215 | Assume `add` does not mutate and the next day formats differently. Then "All day" needs an event longer than 24 hours whose end formats as the start's day. |
| `EventDisplay.MapEvent` | macros/group/events.php:147-218 | The record keeps the title and location, and sets `allDay` exactly when `allday == 1`. Its URL extends the link. Its year, month, day and ISO 8601 badge fields are formatted from the stored start, before the 24-hour rule can move `$up`. Its sort instant is the stored start, or start + 24 hours for an all-day event when `add` mutates. The URL is `EventUrl` of the parsed start and end, so `UrlCarriesOccurrence` applies to it. The teaser is `About` of the content and that URL. The class is `ClassName` of the calendar id. The labels and the sort instant are those `EventTiming` chooses. |
| `EventOrder.InsertByStart` | macros/group/events.php:222-224 | Inserting into an ascending list keeps it ascending. The result holds the old records plus the new one. |
| `EventOrder.SortByStart` | macros/group/events.php:222-224 | The result is non-decreasing in start instant and is a permutation of the input. |
| `YearGroups.OpenSectionKeepsShape` | macros/group/events.php:246-257 | Opening a section when no year is remembered, or when the year changes, keeps the sections well formed. |
| `YearGroups.ExtendSectionKeepsShape` | macros/group/events.php:244-259 | Appending an event of the remembered year to the open section keeps the sections well formed. |
| `YearGroups.RenderEvents` | macros/group/events.php:241-300 | The notice is shown exactly when the list is empty. Otherwise the sections are non-empty runs of one year each. Neighbouring sections have different years unless the year is `""`. The sections concatenate back to the list in order. |
| `YearGroups.SectionsUnique` | macros/group/events.php:241-258 | When every year is non-empty, any two such sectionings of the same list are equal, so the sections are exactly those the pass finds. |
| `EventsMacro.MapEvents` | macros/group/events.php:145-219 | One display record per raw event, in the calendar's order. Nothing is dropped or duplicated. |
| `EventsMacro.GetGroupEvents` | macros/group/events.php:92-227 | Sends the two window queries for the filters. Returns the records of every event either query returns, ascending by start instant, as a permutation of the mapped list. |
| `EventsMacro.Render` | macros/group/events.php:54-83 | Outside a group, only the notice is shown. Inside, "no upcoming events" is shown exactly when both calendar answers are empty. Otherwise the sections are non-empty runs of one year each, and neighbouring sections differ in year unless the year is `""`. Together they hold, in order, an ascending permutation of the mapped events. |

## Left out

- The calendar store is a parameter: a function from a query to the raw events it returns (`events.php:119-139`). `merge` is taken to put the repeating events after the single ones (`events.php:142`). The Calendar model is not part of this model.
- The date library (`Date::of`, `format`, `toLocal` with time zones and the `ignore_dst` flag) is modelled as abstract functions over integer instants. No time-zone or daylight-saving arithmetic is modelled. `add('24 hours')` and `subtract('24 hours')` are taken as plus and minus 86400 seconds on the instant. Only whether `add` moves its receiver is left open, as the parameter `addMutates`. Reading `ignore_dst` from the event's params registry becomes one integer field.
- `Str::truncate` with `html => true` (`events.php:173`) is an abstract function. Only the cap and the appended link are modelled.
- `EventDisplay.About`: `strlen` counts bytes, while the model compares the character count with the 255 cap. Multi-byte content may therefore be cut at a different point.
- `EventDisplay.EventUrl`: `toUnix()` is a 64-bit PHP int. The model uses unbounded integers, which agree for every instant a date can hold.
- `EventOrder.SortByStart`: it does not claim the order of records with equal start instants. `uasort` is stable only on newer PHP versions.
- `EventsMacro.GetGroupEvents`: for the same reason, it states the records as a permutation of the mapped list in ascending order, not their exact positions.
- `until = now + 1 year` (`events.php:116`) reads the wall clock. It is a string parameter, passed through unchanged into the repeating query.
- HTML emission in `renderEvents` (`events.php:238`, `259-295`, `299`) is not modelled. This includes the stylesheet, the markup of each event, the `if ($event->end)` rule for showing an end, the location-URL regex (`events.php:281`), the `Route::url` link, and the closing tags at `events.php:294-295`, which come out in the wrong order. A section is its year and its events.
- `canRender` and `getArgs` belong to the parent `GroupMacro`, which is not part of this model. Neither is `Lang::txt`. The debug `echo var_dump($args)` (`events.php:67`) writes to output only. `render` takes "in a group" as a boolean.
- `description()` is help text only.
