/** The parts of the Hubzero framework the Events macro calls but whose code
    is not part of this model: the `Date` class and `Str::truncate`. They are
    carried as function values, so every result below holds for whatever the
    framework does, unless a lemma names an assumption about it. */
module Hubzero {

  /** An instant is a count of seconds since the Unix epoch, as `toUnix()`
      returns it. */
  type Instant = int

  /** "24 hours", as `Date::add` and `Date::subtract` are given it. */
  const DaySeconds: int := 86400

  /** The database's "no date" value. */
  const ZeroDate: string := "0000-00-00 00:00:00"

  datatype Library = Library(
    /** `Date::of(s)->toUnix()` */
    parse: string -> Instant,
    /** `Date::of(t)->format(f)` */
    format: (Instant, string) -> string,
    /** `Date::of(t)->toLocal(f, ignoreDst)` */
    toLocal: (Instant, string, bool) -> string,
    /** `Str::truncate(s, n, array('html' => true))` */
    truncateHtml: (string, nat) -> string,
    /** Whether `$d->add('24 hours')` also moves `$d` itself rather than only
        returning a moved copy. */
    addMutates: bool
  )

  /** `Date::of('0000-00-00 00:00:00')`: the instant an event without an end
      is compared against. */
  function ZeroInstant(lib: Library): Instant {
    lib.parse(ZeroDate)
  }

  /** The calendar day of t, `format('Y-m-d')`. */
  function Day(lib: Library, t: Instant): string {
    lib.format(t, "Y-m-d")
  }

  /** A formatter fed a non-empty pattern writes something: the assumption
      under which a label is known not to be blank. */
  ghost predicate WritesSomething(lib: Library) {
    && (forall t, f :: f != "" ==> lib.format(t, f) != "")
    && (forall t, f, dst :: f != "" ==> lib.toLocal(t, f, dst) != "")
  }
}
