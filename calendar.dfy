/** The civil calendar the recogniser resolves into: proleptic Gregorian
    dates in jiff's supported range (years -9999 to 9999), times of day to
    the second, and the day-successor that `checked_add(1.day())` computes
    on the calendar date. */
module Calendar {
  import opened Wrappers

  const MinYear: int := -9999
  const MaxYear: int := 9999

  datatype Date = Date(year: int, month: int, day: int)

  datatype Time = Time(hour: int, minute: int, second: int)

  datatype DateTime = DateTime(date: Date, time: Time)

  const Midnight: Time := Time(0, 0, 0)

  /** The last date jiff can represent. */
  const MaxDate: Date := Date(MaxYear, 12, 31)

  predicate IsLeapYear(y: int) {
    y % 4 == 0 && (y % 100 != 0 || y % 400 == 0)
  }

  function DaysInMonth(y: int, m: int): (n: int)
    requires 1 <= m <= 12
    ensures 28 <= n <= 31
    ensures n == 29 <==> m == 2 && IsLeapYear(y)
  {
    if m == 2 then (if IsLeapYear(y) then 29 else 28)
    else if m == 4 || m == 6 || m == 9 || m == 11 then 30
    else 31
  }

  predicate ValidDate(d: Date) {
    && MinYear <= d.year <= MaxYear
    && 1 <= d.month <= 12
    && 1 <= d.day <= DaysInMonth(d.year, d.month)
  }

  predicate ValidTime(t: Time) {
    0 <= t.hour <= 23 && 0 <= t.minute <= 59 && 0 <= t.second <= 59
  }

  /** Calendar order on dates. */
  predicate Before(a: Date, b: Date) {
    || a.year < b.year
    || (a.year == b.year && a.month < b.month)
    || (a.year == b.year && a.month == b.month && a.day < b.day)
  }

  /** jiff's `civil::date(y, m, d)`, which panics (here: `None`) unless the
      three numbers name a real date in the supported range. */
  function MakeDate(y: int, m: int, d: int): (r: Option<Date>)
    ensures r.Some? <==> ValidDate(Date(y, m, d))
    ensures r.Some? ==> r.value == Date(y, m, d)
  {
    var date := Date(y, m, d);
    if ValidDate(date) then Some(date) else None
  }

  /** jiff's `Time::new(h, m, s, 0)`, which fails (here: `None`) unless the
      numbers are a time of day. */
  function MakeTime(h: int, m: int, s: int): (r: Option<Time>)
    ensures r.Some? <==> ValidTime(Time(h, m, s))
    ensures r.Some? ==> r.value == Time(h, m, s)
  {
    var time := Time(h, m, s);
    if ValidTime(time) then Some(time) else None
  }

  /** The next calendar day; there is none after the last representable
      date. */
  function NextDay(d: Date): (r: Option<Date>)
    requires ValidDate(d)
    ensures r.None? <==> d == MaxDate
    ensures r.Some? ==> ValidDate(r.value) && Before(d, r.value)
  {
    if d.day < DaysInMonth(d.year, d.month) then Some(Date(d.year, d.month, d.day + 1))
    else if d.month < 12 then Some(Date(d.year, d.month + 1, 1))
    else if d.year < MaxYear then Some(Date(d.year + 1, 1, 1))
    else None
  }

  /** `NextDay` is the successor in calendar order: no valid date lies
      strictly between a date and its next day, and the last date has no
      later valid date. */
  lemma {:induction false} NextDayImmediate(d: Date, e: Date)
    requires ValidDate(d) && ValidDate(e) && Before(d, e)
    ensures NextDay(d).Some?
    ensures !Before(e, NextDay(d).value)
  {
    var n := NextDay(d).value;
    if d.day < DaysInMonth(d.year, d.month) {
      assert n == Date(d.year, d.month, d.day + 1);
    } else if d.month < 12 {
      assert n == Date(d.year, d.month + 1, 1);
    } else {
      assert n == Date(d.year + 1, 1, 1);
    }
  }
}
