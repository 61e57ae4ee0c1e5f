/** Proleptic Gregorian calendar dates, with the validity rule that
    Python's `datetime(year, month, day)` enforces before it builds a value. */
module Calendar {

  /** `datetime.MINYEAR` and `datetime.MAXYEAR`. */
  const MinYear := 1
  const MaxYear := 9999

  /** A calendar date; as a decoded OOID date it stands for midnight UTC of that day. */
  datatype Date = Date(year: int, month: int, day: int)

  predicate IsLeapYear(year: int) {
    year % 4 == 0 && (year % 100 != 0 || year % 400 == 0)
  }

  function DaysInMonth(year: int, month: int): (n: int)
    requires 1 <= month <= 12
    ensures 28 <= n <= 31
    ensures n == 29 <==> month == 2 && IsLeapYear(year)
    ensures n == 28 <==> month == 2 && !IsLeapYear(year)
  {
    if month == 2 then (if IsLeapYear(year) then 29 else 28)
    else if month == 4 || month == 6 || month == 9 || month == 11 then 30
    else 31
  }

  /** The dates for which `datetime(year, month, day)` does not raise `ValueError`. */
  predicate ValidDate(d: Date) {
    MinYear <= d.year <= MaxYear
    && 1 <= d.month <= 12
    && 1 <= d.day <= DaysInMonth(d.year, d.month)
  }

  /** Keeping only the last two digits of a year and putting them in the
      2000s preserves leap years: 4 divides 100 and 400 divides 2000. */
  lemma LeapYearSurvivesCenturyFold(year: int)
    requires IsLeapYear(year)
    ensures IsLeapYear(2000 + year % 100)
  {
    var q, r := year / 100, year % 100;
    assert year == 100 * q + r;
    var k := year / 4;
    assert year == 4 * k;
    assert r == 4 * (k - 25 * q);
    assert (2000 + r) % 4 == 0;
    assert (2000 + r) % 100 == r;
  }

  /** A valid date stays valid when its year is replaced by `2000 + year % 100`;
      this is the date an encoded-then-decoded OOID carries. */
  lemma CenturyFoldKeepsDateValid(d: Date)
    requires ValidDate(d)
    ensures ValidDate(Date(2000 + d.year % 100, d.month, d.day))
  {
    if d.month == 2 && d.day == 29 {
      LeapYearSurvivesCenturyFold(d.year);
    }
  }
}
