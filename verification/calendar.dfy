/**
 The calendar day that both scripts key their rows by. Parsing the text of a
 date is not modelled; only the order of days matters.
 */
module Calendar {

  /** A day of the Gregorian calendar. */
  datatype Date = Date(year: int, month: int, day: int)

  /** Chronological order: year first, then month, then day of the month. */
  predicate NotAfter(a: Date, b: Date) {
    || a.year < b.year
    || (a.year == b.year && a.month < b.month)
    || (a.year == b.year && a.month == b.month && a.day <= b.day)
  }
}
