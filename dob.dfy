/** The date-of-birth constraint: a date of birth is acceptable when at least
    `min` whole years lie between it and today, counted the way
    `ChronoUnit.YEARS.between` counts them on ISO dates. Today is a
    parameter. */
module DobValidation {
  import opened Wrappers

  datatype LocalDate = LocalDate(year: int, month: int, day: int)

  /** The ISO leap-year rule. */
  predicate IsLeapYear(year: int) {
    year % 4 == 0 && (year % 100 != 0 || year % 400 == 0)
  }

  function LengthOfMonth(year: int, month: int): int {
    if month == 2 then (if IsLeapYear(year) then 29 else 28)
    else if month == 4 || month == 6 || month == 9 || month == 11 then 30
    else 31
  }

  /** Month and day-of-month within the ranges a packed date relies on. */
  predicate WellFormed(d: LocalDate) {
    1 <= d.month <= 12 && 1 <= d.day <= 31
  }

  /** A real calendar date. */
  predicate ValidDate(d: LocalDate) {
    1 <= d.month <= 12 && 1 <= d.day <= LengthOfMonth(d.year, d.month)
  }

  type Date = d: LocalDate | ValidDate(d) witness LocalDate(1970, 1, 1)

  /** Java's integer `/` for a positive divisor: the quotient truncated
      toward zero, not rounded down. */
  function JavaDiv(a: int, b: int): int
    requires b > 0
  {
    if a >= 0 then a / b else -((-a) / b)
  }

  /** Months since year 0, January. */
  function ProlepticMonth(d: LocalDate): int {
    d.year * 12 + d.month - 1
  }

  /** A date packed into one number that orders dates chronologically. */
  function Packed(d: LocalDate): int {
    ProlepticMonth(d) * 32 + d.day
  }

  /** Whole months from `start` to `end` (negative when `end` is earlier). */
  function MonthsUntil(start: LocalDate, end: LocalDate): int {
    JavaDiv(Packed(end) - Packed(start), 32)
  }

  /** Whole years from `start` to `end`, as ChronoUnit.YEARS.between counts. */
  function YearsBetween(start: LocalDate, end: LocalDate): int {
    JavaDiv(MonthsUntil(start, end), 12)
  }

  /** Chronological order of dates. */
  predicate OnOrBefore(a: LocalDate, b: LocalDate) {
    a.year < b.year || (a.year == b.year && (a.month < b.month || (a.month == b.month && a.day <= b.day)))
  }

  /** The same month and day `n` years earlier. This is not always a real
      date: the 29th of February of a common year sorts after the 28th and
      before the 1st of March. */
  function YearsBefore(d: LocalDate, n: int): LocalDate {
    LocalDate(d.year - n, d.month, d.day)
  }

  /** The annotation that configures the validator: the least age it asks for. */
  datatype DobConstraint = DobConstraint(min: int)

  class DobValidator {
    /** The least acceptable age in whole years. */
    var min: int

    constructor ()
      ensures min == 0
    {
      min := 0;
    }

    /** Takes the least age from the annotation. */
    method Initialize(constraintAnnotation: DobConstraint)
      modifies this
      ensures min == constraintAnnotation.min
    {
      min := constraintAnnotation.min;
    }

    /** A null date is invalid; otherwise the date is valid when at least `min`
        whole years separate it from today. For a positive `min` that is the
        case exactly when it lies on or before the same day `min` years ago. */
    method IsValid(localDate: Option<Date>, today: Date) returns (valid: bool)
      ensures localDate.None? ==> !valid
      ensures localDate.Some? ==> (valid <==> YearsBetween(localDate.value, today) >= min)
      ensures localDate.Some? && min >= 1 ==>
        (valid <==> OnOrBefore(localDate.value, YearsBefore(today, min)))
    {
      if localDate.None? {
        return false;
      }
      var years := YearsBetween(localDate.value, today);
      if min >= 1 {
        AcceptsIffOnOrBeforeCutoff(localDate.value, today, min);
      }
      valid := years >= min;
    }
  }

  // ---------------------------------------------------------------------
  // Lemmas

  lemma PackedOrder(a: LocalDate, b: LocalDate)
    requires WellFormed(a) && WellFormed(b)
    ensures OnOrBefore(a, b) <==> Packed(a) <= Packed(b)
  {
    if a.year < b.year {
      assert ProlepticMonth(a) + 1 <= ProlepticMonth(b);
    } else if a.year > b.year {
      assert ProlepticMonth(b) + 1 <= ProlepticMonth(a);
    }
  }

  /** Truncating division keeps order. */
  lemma JavaDivMonotone(a: int, b: int, k: int)
    requires a <= b && CalendarDivisor(k)
    ensures JavaDiv(a, k) <= JavaDiv(b, k)
  {
    if a >= 0 {
      DivMonotone(a, b, k);
    } else if b < 0 {
      DivMonotone(-b, -a, k);
    } else {
      assert JavaDiv(a, k) <= 0 <= JavaDiv(b, k) by {
        DivMonotone(0, -a, k);
        DivMonotone(0, b, k);
      }
    }
  }

  /** The divisors used here are 12 and 32; with a constant divisor the
      arithmetic stays linear. */
  predicate CalendarDivisor(k: int) {
    k == 12 || k == 32
  }

  lemma DivMonotone(a: int, b: int, k: int)
    requires 0 <= a <= b && CalendarDivisor(k)
    ensures 0 <= a / k <= b / k
  {
    if k == 12 {
      assert 0 <= a / 12 <= b / 12;
    } else {
      assert 0 <= a / 32 <= b / 32;
    }
  }

  /** For a positive bound, truncation and flooring agree on the test. */
  lemma JavaDivAtLeast(a: int, k: int, q: int)
    requires CalendarDivisor(k) && q >= 1
    ensures JavaDiv(a, k) >= q <==> a >= k * q
  {
    if k == 12 {
      assert JavaDiv(a, 12) >= q <==> a >= 12 * q;
    } else {
      assert JavaDiv(a, 32) >= q <==> a >= 32 * q;
    }
  }

  /** For a date on or before today, the count is the difference of the
      years, less one when today's month and day come before the birthday's. */
  lemma YearsBetweenCountsFullYears(birth: LocalDate, today: LocalDate)
    requires WellFormed(birth) && WellFormed(today)
    requires OnOrBefore(birth, today)
    ensures YearsBetween(birth, today) ==
      today.year - birth.year
      - (if today.month < birth.month || (today.month == birth.month && today.day < birth.day) then 1 else 0)
  {
    PackedOrder(birth, today);
    var p := Packed(today) - Packed(birth);
    var dy, dm, dd := today.year - birth.year, today.month - birth.month, today.day - birth.day;
    assert p == 384 * dy + 32 * dm + dd;
    var borrowDay := if dd < 0 then 1 else 0;
    var months := 12 * dy + dm - borrowDay;
    assert p == 32 * months + (dd + 32 * borrowDay) && 0 <= dd + 32 * borrowDay < 32;
    assert MonthsUntil(birth, today) == months;
    assert months >= 0;
    var borrowMonth := if dm - borrowDay < 0 then 1 else 0;
    assert months == 12 * (dy - borrowMonth) + (dm - borrowDay + 12 * borrowMonth);
    assert 0 <= dm - borrowDay + 12 * borrowMonth < 12;
    assert YearsBetween(birth, today) == dy - borrowMonth;
  }

  /** A date exactly `n` years before today, same month and day, counts
      exactly `n` years. */
  lemma BirthdayBoundary(today: LocalDate, n: int)
    ensures YearsBetween(YearsBefore(today, n), today) == n
  {
    var p := Packed(today) - Packed(YearsBefore(today, n));
    assert p == 384 * n;
    assert MonthsUntil(YearsBefore(today, n), today) == 12 * n;
  }

  /** For a positive least age, the validator accepts a date exactly when it
      lies on or before the same day `min` years ago: the boundary date is
      accepted and the day after it is not. */
  lemma AcceptsIffOnOrBeforeCutoff(birth: LocalDate, today: LocalDate, min: int)
    requires WellFormed(birth) && WellFormed(today) && min >= 1
    ensures YearsBetween(birth, today) >= min <==> OnOrBefore(birth, YearsBefore(today, min))
  {
    var p := Packed(today) - Packed(birth);
    JavaDivAtLeast(MonthsUntil(birth, today), 12, min);
    JavaDivAtLeast(p, 32, 12 * min);
    assert Packed(YearsBefore(today, min)) == Packed(today) - 384 * min;
    PackedOrder(birth, YearsBefore(today, min));
  }

  /** Monotonicity: whatever the least age, a date of birth earlier than an
      accepted one is accepted too. */
  lemma EarlierBirthAlsoAccepted(earlier: LocalDate, later: LocalDate, today: LocalDate, min: int)
    requires WellFormed(earlier) && WellFormed(later)
    requires OnOrBefore(earlier, later)
    requires YearsBetween(later, today) >= min
    ensures YearsBetween(earlier, today) >= min
  {
    PackedOrder(earlier, later);
    JavaDivMonotone(Packed(today) - Packed(later), Packed(today) - Packed(earlier), 32);
    JavaDivMonotone(MonthsUntil(later, today), MonthsUntil(earlier, today), 12);
  }

  /** Truncation toward zero: a date of birth up to a year after today
      counts zero years, so a least age of zero or below accepts it. */
  lemma FutureWithinAYearCountsZero(birth: LocalDate, today: LocalDate)
    requires WellFormed(birth) && WellFormed(today)
    requires OnOrBefore(today, birth) && !OnOrBefore(YearsBefore(today, -1), birth)
    ensures YearsBetween(birth, today) == 0
  {
    PackedOrder(today, birth);
    PackedOrder(YearsBefore(today, -1), birth);
    var p := Packed(today) - Packed(birth);
    assert -384 < p <= 0;
    DivMonotone(0, -p, 32);
    assert MonthsUntil(birth, today) > -12;
  }
}
