/** The proleptic Gregorian calendar, as Python's `date` counts it. */
module Calendar {

  datatype Date = Date(year: int, month: int, day: int)

  predicate IsLeap(year: int) {
    year % 4 == 0 && (year % 100 != 0 || year % 400 == 0)
  }

  function DaysInMonth(year: int, month: int): int {
    if month == 2 then if IsLeap(year) then 29 else 28
    else if month in {4, 6, 9, 11} then 30
    else 31
  }

  predicate IsDate(d: Date) {
    1 <= d.year && 1 <= d.month <= 12 && 1 <= d.day <= DaysInMonth(d.year, d.month)
  }

  function DaysBeforeYear(year: int): int {
    (year - 1) * 365 + (year - 1) / 4 - (year - 1) / 100 + (year - 1) / 400
  }

  const DAYS_BEFORE_MONTH: seq<int> := [0, 31, 59, 90, 120, 151, 181, 212, 243, 273, 304, 334]

  function DaysBeforeMonth(year: int, month: int): int
    requires 1 <= month <= 12
  {
    DAYS_BEFORE_MONTH[month - 1] + if month > 2 && IsLeap(year) then 1 else 0
  }

  /** The day's number, the first of January of year 1 being day 1. */
  function Ordinal(d: Date): int
    requires IsDate(d)
  {
    DaysBeforeYear(d.year) + DaysBeforeMonth(d.year, d.month) + d.day
  }

  /** One day later. */
  function NextDay(d: Date): (r: Date)
    requires IsDate(d)
    ensures IsDate(r)
  {
    if d.day < DaysInMonth(d.year, d.month) then d.(day := d.day + 1)
    else if d.month < 12 then Date(d.year, d.month + 1, 1)
    else Date(d.year + 1, 1, 1)
  }

  function AddDays(d: Date, days: nat): (r: Date)
    requires IsDate(d)
    ensures IsDate(r)
  {
    if days == 0 then d else NextDay(AddDays(d, days - 1))
  }

  /** Python compares dates by year, then month, then day. */
  predicate AtMost(a: Date, b: Date) {
    || a.year < b.year
    || (a.year == b.year && a.month < b.month)
    || (a.year == b.year && a.month == b.month && a.day <= b.day)
  }

  function Earlier(a: Date, b: Date): Date { if AtMost(a, b) then a else b }

  lemma MonthsFollow(year: int, month: int)
    requires 1 <= month < 12
    ensures DaysBeforeMonth(year, month + 1) == DaysBeforeMonth(year, month) + DaysInMonth(year, month)
  {
  }

  /** Counting the multiples of `d` up to a number. */
  lemma MultiplesUpTo(n: int, d: int)
    requires d in {4, 100, 400}
    ensures n / d - (n - 1) / d == if n % d == 0 then 1 else 0
  {
    if d == 4 {
    } else if d == 100 {
    } else {
    }
  }

  lemma MultiplesOfMultiples(n: int)
    ensures n % 100 == 0 ==> n % 4 == 0
    ensures n % 400 == 0 ==> n % 100 == 0
  {
  }

  lemma YearsFollow(year: int)
    ensures DaysBeforeYear(year + 1) == DaysBeforeYear(year) + if IsLeap(year) then 366 else 365
  {
    MultiplesUpTo(year, 4);
    MultiplesUpTo(year, 100);
    MultiplesUpTo(year, 400);
    MultiplesOfMultiples(year);
  }

  lemma NextDayIsOneLater(d: Date)
    requires IsDate(d)
    ensures Ordinal(NextDay(d)) == Ordinal(d) + 1
  {
    if d.day < DaysInMonth(d.year, d.month) {
    } else if d.month < 12 {
      MonthsFollow(d.year, d.month);
    } else {
      YearsFollow(d.year);
    }
  }

  lemma {:induction false} AddDaysAdds(d: Date, days: nat)
    requires IsDate(d)
    ensures Ordinal(AddDays(d, days)) == Ordinal(d) + days
  {
    hide Ordinal, DaysInMonth;
    if days > 0 {
      AddDaysAdds(d, days - 1);
      NextDayIsOneLater(AddDays(d, days - 1));
    }
  }

  /** Days are numbered from the first of January of year 1, which is day 1; no date comes before it. */
  lemma DaysAreNumberedFromTheFirst(d: Date, days: nat)
    ensures IsDate(Date(1, 1, 1)) && Ordinal(AddDays(Date(1, 1, 1), days)) == 1 + days
    ensures IsDate(d) ==> 1 <= Ordinal(d)
  {
    hide AddDays, Ordinal, IsLeap, DaysInMonth;
    TheFirstIsDayOne();
    AddDaysAdds(Date(1, 1, 1), days);
    if IsDate(d) && d != Date(1, 1, 1) {
      EarlierDateHasSmallerOrdinal(Date(1, 1, 1), d);
    }
  }

  lemma TheFirstIsDayOne()
    ensures IsDate(Date(1, 1, 1)) && Ordinal(Date(1, 1, 1)) == 1
  {
  }

  lemma {:induction false} LaterYearIsLater(a: int, b: int)
    requires a < b
    ensures DaysBeforeYear(a) + (if IsLeap(a) then 366 else 365) <= DaysBeforeYear(b)
    decreases b - a
  {
    YearsFollow(a);
    if a + 1 < b {
      LaterYearIsLater(a + 1, b);
    }
  }

  lemma {:induction false} LaterMonthIsLater(year: int, a: int, b: int)
    requires 1 <= a < b <= 12
    ensures DaysBeforeMonth(year, a) + DaysInMonth(year, a) <= DaysBeforeMonth(year, b)
    decreases b - a
  {
  }

  lemma OrdinalWithinYear(d: Date)
    requires IsDate(d)
    ensures DaysBeforeYear(d.year) < Ordinal(d) <= DaysBeforeYear(d.year) + if IsLeap(d.year) then 366 else 365
  {
  }

  lemma EarlierDateHasSmallerOrdinal(a: Date, b: Date)
    requires IsDate(a) && IsDate(b) && AtMost(a, b) && a != b
    ensures Ordinal(a) < Ordinal(b)
  {
    if a.year < b.year {
      OrdinalWithinYear(a);
      OrdinalWithinYear(b);
      LaterYearIsLater(a.year, b.year);
    } else if a.month < b.month {
      LaterMonthIsLater(a.year, a.month, b.month);
    }
  }

  /** Dates are ordered as their numbers are. */
  lemma DatesOrderAsOrdinals(a: Date, b: Date)
    requires IsDate(a) && IsDate(b)
    ensures AtMost(a, b) <==> Ordinal(a) <= Ordinal(b)
  {
    if AtMost(a, b) {
      if a != b {
        EarlierDateHasSmallerOrdinal(a, b);
      }
    } else {
      EarlierDateHasSmallerOrdinal(b, a);
    }
  }
}
