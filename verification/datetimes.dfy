/** The `datetime` values the formatters produce and the order Python compares
    them in. Both time formats the loaders parse carry no fractional seconds,
    so a value is a year-to-second tuple compared lexicographically. */
module DateTimes {

  datatype DateTime = DateTime(year: int, month: int, day: int, hour: int, minute: int, second: int)

  /** `a < b` on Python datetimes: lexicographic on the fields. */
  predicate Before(a: DateTime, b: DateTime) {
    if a.year != b.year then a.year < b.year
    else if a.month != b.month then a.month < b.month
    else if a.day != b.day then a.day < b.day
    else if a.hour != b.hour then a.hour < b.hour
    else if a.minute != b.minute then a.minute < b.minute
    else a.second < b.second
  }

  /** `a >= b`. */
  predicate AtOrAfter(a: DateTime, b: DateTime) {
    a == b || Before(b, a)
  }

  /** `Before` is a strict total order: irreflexive, transitive and
      trichotomous, so `not (a < b)` is exactly `a >= b`. */
  lemma BeforeIsStrictTotalOrder(a: DateTime, b: DateTime, c: DateTime)
    ensures !Before(a, a)
    ensures Before(a, b) && Before(b, c) ==> Before(a, c)
    ensures Before(a, b) || a == b || Before(b, a)
    ensures !(Before(a, b) && Before(b, a))
    ensures !Before(a, b) <==> AtOrAfter(a, b)
  {
  }
}
