/**
 * The civil (proleptic Gregorian) calendar that `parseCalendar` walks one day
 * at a time, and `parseCalendar` itself.
 *
 * A date is a (year, month, day) triple; a triple that is not a real date plays
 * the part of an invalid luxon `DateTime`, whose comparisons are all false. Days
 * are numbered consecutively (`DayNumber`), and the time zone is a function
 * `epochOf` from day numbers to the epoch seconds of that day's midnight.
 */
module Calendar {

  datatype Date = Date(year: int, month: int, day: int)

  predicate IsLeapYear(y: int) {
    y % 4 == 0 && (y % 100 != 0 || y % 400 == 0)
  }

  function DaysInMonth(y: int, m: int): (n: int)
    requires 1 <= m <= 12
    ensures 28 <= n <= 31
  {
    if m == 2 then (if IsLeapYear(y) then 29 else 28)
    else if m == 4 || m == 6 || m == 9 || m == 11 then 30
    else 31
  }

  predicate ValidDate(d: Date) {
    1 <= d.month <= 12 && 1 <= d.day <= DaysInMonth(d.year, d.month)
  }

  /** Days of year `y` that precede the first of month `m`. */
  function DaysBeforeMonth(y: int, m: int): int
    requires 1 <= m <= 12
  {
    var leap := if IsLeapYear(y) then 1 else 0;
    match m
    case 1 => 0
    case 2 => 31
    case 3 => 59 + leap
    case 4 => 90 + leap
    case 5 => 120 + leap
    case 6 => 151 + leap
    case 7 => 181 + leap
    case 8 => 212 + leap
    case 9 => 243 + leap
    case 10 => 273 + leap
    case 11 => 304 + leap
    case _ => 334 + leap
  }

  /** Days that precede January 1 of year `y`, counted from January 1 of year 1. */
  function DaysBeforeYear(y: int): int {
    var p := y - 1;
    365 * p + p / 4 - p / 100 + p / 400
  }

  /** The consecutive number of a valid date; January 1 of year 1 is day 1. */
  function DayNumber(d: Date): int
    requires ValidDate(d)
  {
    DaysBeforeYear(d.year) + DaysBeforeMonth(d.year, d.month) + d.day
  }

  /** Quotient and remainder by a positive divisor are unique. */
  lemma {:induction false} DivModUnique(n: int, q: int, a: int, b: int)
    requires q > 0 && 0 <= b < q && n == q * a + b
    ensures n / q == a && n % q == b
  {
    var x := a - n / q;
    assert q * x == n % q - b;
    assert x == 0;
  }

  /** Going from `p` to `p + 1` crosses a multiple of `q` exactly when `q` divides `p + 1`. */
  lemma {:induction false} FloorStep(p: int, q: int)
    requires q > 0
    ensures (p + 1) / q - p / q == if (p + 1) % q == 0 then 1 else 0
  {
    var a, b := p / q, p % q;
    if b == q - 1 {
      DivModUnique(p + 1, q, a + 1, 0);
    } else {
      DivModUnique(p + 1, q, a, b + 1);
    }
  }

  /** A year has 366 days exactly when it is a leap year. */
  lemma {:induction false} YearLength(y: int)
    ensures DaysBeforeYear(y + 1) == DaysBeforeYear(y) + (if IsLeapYear(y) then 366 else 365)
  {
    var p := y - 1;
    FloorStep(p, 4);
    FloorStep(p, 100);
    FloorStep(p, 400);
    DivisorsOfCenturies(y);
  }

  /** A multiple of 400 is a multiple of 100, and a multiple of 100 is a multiple of 4. */
  lemma DivisorsOfCenturies(y: int)
    ensures y % 400 == 0 ==> y % 100 == 0
    ensures y % 100 == 0 ==> y % 4 == 0
  {
    if y % 400 == 0 {
      DivModUnique(y, 100, 4 * (y / 400), 0);
    }
    if y % 100 == 0 {
      DivModUnique(y, 4, 25 * (y / 100), 0);
    }
  }

  /** The first of month `m + 1` comes `DaysInMonth(y, m)` days after the first of month `m`. */
  lemma MonthLength(y: int, m: int)
    requires 1 <= m < 12
    ensures DaysBeforeMonth(y, m + 1) == DaysBeforeMonth(y, m) + DaysInMonth(y, m)
  {
  }

  /** `d.plus({days: 1})`: the following civil date, one day number later. */
  function NextDay(d: Date): (e: Date)
    requires ValidDate(d)
    ensures ValidDate(e) && DayNumber(e) == DayNumber(d) + 1
  {
    if d.day < DaysInMonth(d.year, d.month) then
      Date(d.year, d.month, d.day + 1)
    else if d.month < 12 then
      MonthLength(d.year, d.month);
      Date(d.year, d.month + 1, 1)
    else
      YearLength(d.year);
      Date(d.year + 1, 1, 1)
  }

  /** `d < until` on luxon date-times: false as soon as either is invalid. */
  predicate Before(d: Date, until: Date) {
    ValidDate(d) && ValidDate(until) && DayNumber(d) < DayNumber(until)
  }

  /** The number of days from `from` up to, not including, `until`. */
  function DaysBetween(from: Date, until: Date): (n: nat)
    ensures n > 0 <==> Before(from, until)
  {
    if Before(from, until) then DayNumber(until) - DayNumber(from) else 0
  }

  /**
   * The index `(month - startMonth) * 32 + (32 - day)` that `parseCalendar`
   * computes for each day and never uses. Each month gets a block of 32
   * indices, and within the start month the index lies in 1..31.
   */
  function BitIndex(startMonth: int, month: int, day: int): (i: int)
    ensures month == startMonth && 1 <= day <= 31 ==> 1 <= i <= 31
    ensures 1 <= day <= 31 ==> (month - startMonth) * 32 + 1 <= i <= (month - startMonth) * 32 + 31
  {
    (month - startMonth) * 32 + (32 - day)
  }

  /** Two different (month, day) pairs never share a bit index. */
  lemma {:induction false} BitIndexInjective(startMonth: int, m1: int, d1: int, m2: int, d2: int)
    requires 1 <= d1 <= 31 && 1 <= d2 <= 31
    requires BitIndex(startMonth, m1, d1) == BitIndex(startMonth, m2, d2)
    ensures m1 == m2 && d1 == d2
  {
  }

  /**
   * The values `parseCalendar` emits from date `d` on: the epoch seconds of
   * `d`, of the day after, and so on while the date is before `until`.
   */
  function CalendarDays(d: Date, until: Date, epochOf: int -> int): (r: seq<int>)
    ensures |r| == DaysBetween(d, until)
    ensures forall k :: 0 <= k < |r| ==> r[k] == epochOf(DayNumber(d) + k)
    decreases DaysBetween(d, until)
  {
    if Before(d, until) then [epochOf(DayNumber(d))] + CalendarDays(NextDay(d), until, epochOf)
    else []
  }

  /** Nothing is emitted when `until` is not after `from`. */
  lemma CalendarDaysEmpty(from: Date, until: Date, epochOf: int -> int)
    requires ValidDate(from) && ValidDate(until) && DayNumber(until) <= DayNumber(from)
    ensures CalendarDays(from, until, epochOf) == []
  {
  }

  /** Each value is a later day than the one before, so the output is strictly increasing. */
  lemma CalendarDaysIncreasing(from: Date, until: Date, epochOf: int -> int)
    requires forall a, b :: a < b ==> epochOf(a) < epochOf(b)
    ensures var r := CalendarDays(from, until, epochOf);
            forall i, j :: 0 <= i < j < |r| ==> r[i] < r[j]
  {
  }

  /**
   * `parseCalendar(days, from, until)`: one epoch-seconds value per day in
   * [from, until). The hexadecimal `days` field is decoded by the source and
   * never consulted, so the result does not depend on it.
   */
  method ParseCalendar(days: string, from: Date, until: Date, epochOf: int -> int)
    returns (res: seq<int>)
    ensures res == CalendarDays(from, until, epochOf)
  {
    res := [];
    var d := from;
    var startMonth := d.month;
    while Before(d, until)
      invariant res + CalendarDays(d, until, epochOf) == CalendarDays(from, until, epochOf)
      decreases DaysBetween(d, until)
    {
      var i := BitIndex(startMonth, d.month, d.day);
      res := res + [epochOf(DayNumber(d))];
      d := NextDay(d);
    }
  }
}
