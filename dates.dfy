/** Calendar dates as `parseExpiryDate` produces them (`datetime.strptime` with
    the format "%d %B %Y", so the time of day is midnight), and the moment the run
    starts (`datetime.today()`, which carries a time of day). */
module Dates {
  datatype Date = Date(year: int, month: int, day: int)

  /** `datetime` order on dates: by year, then month, then day. */
  predicate DateBefore(a: Date, b: Date)
  {
    a.year < b.year
    || (a.year == b.year && (a.month < b.month || (a.month == b.month && a.day < b.day)))
  }

  lemma DateBeforeIsStrictOrder(a: Date, b: Date, c: Date)
    ensures !DateBefore(a, a)
    ensures DateBefore(a, b) ==> !DateBefore(b, a)
    ensures DateBefore(a, b) && DateBefore(b, c) ==> DateBefore(a, c)
    ensures a == b || DateBefore(a, b) || DateBefore(b, a)
  {
  }

  /** A point in time: a date and the microseconds elapsed since its midnight. */
  datatype Moment = Moment(date: Date, micros: nat)

  /** The moment a parsed expiry date stands for. */
  function Midnight(d: Date): Moment { Moment(d, 0) }

  /** `datetime` order on moments. */
  predicate Earlier(a: Moment, b: Moment)
  {
    DateBefore(a.date, b.date) || (a.date == b.date && a.micros < b.micros)
  }

  /** An expiry date compares earlier than `today` exactly when it is a past date,
      or it is today's date and today is past midnight. */
  lemma ExpiredIff(d: Date, today: Moment)
    ensures Earlier(Midnight(d), today) <==> DateBefore(d, today.date) || (d == today.date && today.micros > 0)
  {
  }

  lemma {:induction false} EarlierTransitive(a: Moment, b: Moment, c: Moment)
    requires Earlier(a, b) && Earlier(b, c)
    ensures Earlier(a, c)
  {
    DateBeforeIsStrictOrder(a.date, b.date, c.date);
  }
}
