/**
 * Proleptic Gregorian calendar dates at midnight, the only kind of date the
 * drivers hand to the bucketing routine, and the month-end dates that
 * `pd.date_range(start, end, freq='M')` yields.
 */
module Calendar {

  datatype Date = Date(year: int, month: int, day: int)

  predicate IsLeapYear(year: int)
  {
    year % 4 == 0 && (year % 100 != 0 || year % 400 == 0)
  }

  function DaysInMonth(year: int, month: int): (n: int)
    requires 1 <= month <= 12
    ensures 28 <= n <= 31
    ensures n == 29 <==> month == 2 && IsLeapYear(year)
  {
    if month == 2 then (if IsLeapYear(year) then 29 else 28)
    else if month == 4 || month == 6 || month == 9 || month == 11 then 30
    else 31
  }

  predicate Valid(d: Date)
  {
    1 <= d.month <= 12 && 1 <= d.day <= DaysInMonth(d.year, d.month)
  }

  /** Chronological order of dates (lexicographic on year, month, day). */
  predicate Before(a: Date, b: Date)
  {
    a.year < b.year
    || (a.year == b.year && (a.month < b.month || (a.month == b.month && a.day < b.day)))
  }

  predicate NotAfter(a: Date, b: Date)
  {
    !Before(b, a)
  }

  predicate IsMonthEnd(d: Date)
  {
    Valid(d) && d.day == DaysInMonth(d.year, d.month)
  }

  /** The last day of the given month. */
  function MonthEnd(year: int, month: int): (r: Date)
    requires 1 <= month <= 12
    ensures IsMonthEnd(r) && r.year == year && r.month == month
  {
    Date(year, month, DaysInMonth(year, month))
  }

  /** Months counted consecutively across years; month-ends are ordered by it. */
  function MonthNumber(d: Date): int
  {
    d.year * 12 + d.month
  }

  /** `d + timedelta(days=1)`: the calendar day after `d`, rolling over months and years. */
  function NextDay(d: Date): (r: Date)
    requires Valid(d)
    ensures Valid(r) && Before(d, r)
    ensures r.day == 1 <==> IsMonthEnd(d)
    ensures IsMonthEnd(d) ==> MonthNumber(r) == MonthNumber(d) + 1
    ensures !IsMonthEnd(d) ==> r.year == d.year && r.month == d.month && r.day == d.day + 1
  {
    if d.day < DaysInMonth(d.year, d.month) then Date(d.year, d.month, d.day + 1)
    else if d.month < 12 then Date(d.year, d.month + 1, 1)
    else Date(d.year + 1, 1, 1)
  }

  /** No valid date lies strictly between a date and the day after it. */
  lemma NextDayIsSuccessor(d: Date, x: Date)
    requires Valid(d) && Valid(x) && Before(d, x)
    ensures NotAfter(NextDay(d), x)
  {
  }

  /** Month-ends are ordered exactly as their month numbers are. */
  lemma MonthEndOrder(a: Date, b: Date)
    requires IsMonthEnd(a) && IsMonthEnd(b)
    ensures Before(a, b) <==> MonthNumber(a) < MonthNumber(b)
    ensures a == b <==> MonthNumber(a) == MonthNumber(b)
  {
  }

  /**
   * The month-ends of month (year, month) and of every later month, up to and
   * including `e`, in increasing order.
   */
  function MonthEndsFrom(year: int, month: int, e: Date): (r: seq<Date>)
    requires 1 <= month <= 12 && Valid(e)
    ensures forall i :: 0 <= i < |r| ==> IsMonthEnd(r[i]) && NotAfter(r[i], e)
    ensures forall i :: 0 <= i < |r| ==> MonthNumber(r[i]) == year * 12 + month + i
    decreases e.year * 12 + e.month - (year * 12 + month) + 1
  {
    var me := MonthEnd(year, month);
    if Before(e, me) then []
    else if month == 12 then [me] + MonthEndsFrom(year + 1, 1, e)
    else [me] + MonthEndsFrom(year, month + 1, e)
  }

  /** `pd.date_range(s, e, freq='M')`: every month-end `d` with `s <= d <= e`, in increasing order. */
  function MonthEnds(s: Date, e: Date): (r: seq<Date>)
    requires Valid(s) && Valid(e)
    ensures forall i :: 0 <= i < |r| ==> IsMonthEnd(r[i]) && NotAfter(s, r[i]) && NotAfter(r[i], e)
    ensures forall i :: 0 <= i < |r| ==> MonthNumber(r[i]) == MonthNumber(s) + i
  {
    MonthEndsFrom(s.year, s.month, e)
  }

  lemma {:induction false} MonthEndsFromComplete(year: int, month: int, e: Date, x: Date)
    requires 1 <= month <= 12 && Valid(e)
    requires IsMonthEnd(x) && NotAfter(x, e) && MonthNumber(x) >= year * 12 + month
    ensures MonthNumber(x) - (year * 12 + month) < |MonthEndsFrom(year, month, e)|
    ensures MonthEndsFrom(year, month, e)[MonthNumber(x) - (year * 12 + month)] == x
    decreases e.year * 12 + e.month - (year * 12 + month) + 1
  {
    var me := MonthEnd(year, month);
    MonthEndOrder(me, x);
    if x != me {
      if month == 12 {
        MonthEndsFromComplete(year + 1, 1, e, x);
      } else {
        MonthEndsFromComplete(year, month + 1, e, x);
      }
    }
  }

  /** The dates `MonthEnds(s, e)` lists are exactly the month-ends in `[s, e]`. */
  lemma MonthEndsExactly(s: Date, e: Date, x: Date)
    requires Valid(s) && Valid(e)
    ensures x in MonthEnds(s, e) <==> IsMonthEnd(x) && NotAfter(s, x) && NotAfter(x, e)
  {
    if IsMonthEnd(x) && NotAfter(s, x) && NotAfter(x, e) {
      MonthEndsFromComplete(s.year, s.month, e, x);
    }
  }

  /** The month-ends are strictly increasing. */
  lemma MonthEndsIncreasing(s: Date, e: Date, i: int, j: int)
    requires Valid(s) && Valid(e)
    requires 0 <= i < j < |MonthEnds(s, e)|
    ensures Before(MonthEnds(s, e)[i], MonthEnds(s, e)[j])
  {
    var r := MonthEnds(s, e);
    MonthEndOrder(r[i], r[j]);
  }

  /** One month-end per month: each one is the end of the month that starts the day after the previous one. */
  lemma MonthEndsConsecutive(s: Date, e: Date, i: int)
    requires Valid(s) && Valid(e)
    requires 0 < i < |MonthEnds(s, e)|
    ensures var first := NextDay(MonthEnds(s, e)[i - 1]);
      first.day == 1 && MonthEnds(s, e)[i] == MonthEnd(first.year, first.month)
  {
  }

  /** The last listed month-end is the latest month-end in `[s, e]`. */
  lemma LastMonthEndIsLatest(s: Date, e: Date, x: Date)
    requires Valid(s) && Valid(e) && MonthEnds(s, e) != []
    requires IsMonthEnd(x) && NotAfter(s, x) && NotAfter(x, e)
    ensures NotAfter(x, MonthEnds(s, e)[|MonthEnds(s, e)| - 1])
  {
    var r := MonthEnds(s, e);
    MonthEndsFromComplete(s.year, s.month, e, x);
    MonthEndOrder(x, r[|r| - 1]);
  }
}
