/** The proleptic Gregorian calendar on integer day numbers, the arithmetic a
    local JavaScript `Date` performs when `setDate` is given a day outside the
    month: day number 0 is 1970-01-01, and every integer is a day. */
module Civil {
  import opened Text

  datatype Date = Date(year: int, month: int, day: int)

  predicate IsLeapYear(y: int) {
    y % 4 == 0 && (y % 100 != 0 || y % 400 == 0)
  }

  /** Days in month `m` of year `y`. */
  function DaysInMonth(y: int, m: int): (n: int)
    ensures 28 <= n <= 31
    ensures m == 2 ==> (n == 29 <==> IsLeapYear(y))
  {
    if m == 2 then (if IsLeapYear(y) then 29 else 28)
    else if m == 4 || m == 6 || m == 9 || m == 11 then 30
    else 31
  }

  /** A month in 1..12 and a day that exists in that month. */
  predicate ValidDate(d: Date) {
    1 <= d.month <= 12 && 1 <= d.day <= DaysInMonth(d.year, d.month)
  }

  /** Chronological order of civil dates: by year, then month, then day. */
  predicate Before(a: Date, b: Date) {
    a.year < b.year
    || (a.year == b.year && (a.month < b.month || (a.month == b.month && a.day < b.day)))
  }

  /** The calendar day after `d`, across month and year ends. */
  function NextDay(d: Date): Date {
    if d.day < DaysInMonth(d.year, d.month) then Date(d.year, d.month, d.day + 1)
    else if d.month < 12 then Date(d.year, d.month + 1, 1)
    else Date(d.year + 1, 1, 1)
  }

  /** The calendar day before `d`. */
  function PrevDay(d: Date): Date {
    if d.day > 1 then Date(d.year, d.month, d.day - 1)
    else if d.month > 1 then Date(d.year, d.month - 1, DaysInMonth(d.year, d.month - 1))
    else Date(d.year - 1, 12, 31)
  }

  /** From a real date, the next and the previous day are real dates, later
      and earlier. */
  lemma NeighbourDays(d: Date)
    requires ValidDate(d)
    ensures ValidDate(NextDay(d)) && Before(d, NextDay(d))
    ensures ValidDate(PrevDay(d)) && Before(PrevDay(d), d)
  {
  }

  lemma NextPrevInverse(d: Date)
    requires ValidDate(d)
    ensures NextDay(PrevDay(d)) == d && PrevDay(NextDay(d)) == d
  {
  }

  /** 1970-01-01, day number 0. */
  const Epoch: Date := Date(1970, 1, 1)

  /** The date `n` days after `d`. */
  function DaysAfter(d: Date, n: nat): Date
    decreases n
  {
    if n == 0 then d else DaysAfter(NextDay(d), n - 1)
  }

  /** The date `n` days before `d`. */
  function DaysBefore(d: Date, n: nat): Date
    decreases n
  {
    if n == 0 then d else DaysBefore(PrevDay(d), n - 1)
  }

  /** Civil date of day number `z`: walk forward or back from 1970-01-01. */
  function FromDays(z: int): Date {
    if z >= 0 then DaysAfter(Epoch, z) else DaysBefore(Epoch, -z)
  }

  lemma {:induction false} DaysAfterLast(d: Date, n: nat)
    ensures DaysAfter(d, n + 1) == NextDay(DaysAfter(d, n))
    decreases n
  {
    if n > 0 {
      DaysAfterLast(NextDay(d), n - 1);
    }
  }

  lemma {:induction false} DaysBeforeLast(d: Date, n: nat)
    ensures DaysBefore(d, n + 1) == PrevDay(DaysBefore(d, n))
    decreases n
  {
    if n > 0 {
      DaysBeforeLast(PrevDay(d), n - 1);
    }
  }

  lemma {:induction false} DaysAfterValid(d: Date, n: nat)
    requires ValidDate(d)
    ensures ValidDate(DaysAfter(d, n))
    decreases n
  {
    if n > 0 {
      NeighbourDays(d);
      DaysAfterValid(NextDay(d), n - 1);
    }
  }

  lemma {:induction false} DaysBeforeValid(d: Date, n: nat)
    requires ValidDate(d)
    ensures ValidDate(DaysBefore(d, n))
    decreases n
  {
    if n > 0 {
      NeighbourDays(d);
      DaysBeforeValid(PrevDay(d), n - 1);
    }
  }

  /** Every day number names a real date. */
  lemma FromDaysValid(z: int)
    ensures ValidDate(FromDays(z))
  {
    if z >= 0 {
      DaysAfterValid(Epoch, z);
    } else {
      DaysBeforeValid(Epoch, -z);
    }
  }

  /** Consecutive day numbers are consecutive calendar days, including
      across month and year ends. */
  lemma FromDaysSucc(z: int)
    ensures FromDays(z + 1) == NextDay(FromDays(z))
  {
    if z >= 0 {
      DaysAfterLast(Epoch, z);
    } else {
      DaysBeforeLast(Epoch, -z - 1);
      FromDaysValid(z + 1);
      NextPrevInverse(FromDays(z + 1));
    }
  }

  /** Adding `n` to a day number walks `n` calendar days on. */
  lemma {:induction false} FromDaysAdd(z: int, n: nat)
    ensures FromDays(z + n) == DaysAfter(FromDays(z), n)
  {
    if n > 0 {
      FromDaysAdd(z, n - 1);
      FromDaysSucc(z + n - 1);
      DaysAfterLast(FromDays(z), n - 1);
    }
  }

  // ---------------------------------------------------------------------
  // Closed-form day numbers: the independent reference for FromDays
  // ---------------------------------------------------------------------

  /** Leap years in [1, y) for y >= 1, extended to all years by floor division. */
  function LeapYearsBefore(y: int): int {
    (y - 1) / 4 - (y - 1) / 100 + (y - 1) / 400
  }

  /** Days in year `y` before the first of month `m`, for `m` in 1..12
      (other months are read as the nearest of those). */
  function DaysBeforeMonth(y: int, m: int): int {
    var leap := if IsLeapYear(y) then 1 else 0;
    if m <= 1 then 0
    else if m == 2 then 31
    else if m < 12 then [59, 90, 120, 151, 181, 212, 243, 273, 304][m - 3] + leap
    else 334 + leap
  }

  /** Day number of a civil date (days since 1970-01-01); for a day outside
      the month it counts on from the first, as `setDate` does. */
  function ToDays(d: Date): int {
    365 * (d.year - 1970) + LeapYearsBefore(d.year) - LeapYearsBefore(1970)
      + DaysBeforeMonth(d.year, d.month) + d.day - 1
  }

  lemma DivModUnique(n: int, k: int, q: int, r: int)
    requires k > 0 && 0 <= r < k && n == k * q + r
    ensures n / k == q && n % k == r
  {
    var q', r' := n / k, n % k;
    assert n == k * q' + r';
    if q' < q {
      assert k * q - k * q' == k * (q - q');
      MulAtLeast(k, q - q');
    } else if q' > q {
      assert k * q' - k * q == k * (q' - q);
      MulAtLeast(k, q' - q);
    }
  }

  lemma MulAtLeast(k: int, a: int)
    requires k > 0 && a >= 1
    ensures k * a >= k
  {
  }

  /** `y / k` grows by one exactly when `y` is a multiple of `k`. */
  lemma DivStep(y: int, k: int)
    requires k > 0
    ensures y / k - (y - 1) / k == if y % k == 0 then 1 else 0
  {
    var q, r := (y - 1) / k, (y - 1) % k;
    assert y - 1 == k * q + r;
    if r == k - 1 {
      DivModUnique(y, k, q + 1, 0);
    } else {
      DivModUnique(y, k, q, r + 1);
    }
  }

  lemma {:induction false} LeapYearsStep(y: int)
    ensures LeapYearsBefore(y + 1) - LeapYearsBefore(y) == if IsLeapYear(y) then 1 else 0
  {
    DivStep(y, 4);
    DivStep(y, 100);
    DivStep(y, 400);
    if y % 100 == 0 {
      DivModUnique(y, 4, 25 * (y / 100), 0);
    }
    if y % 400 == 0 {
      DivModUnique(y, 100, 4 * (y / 400), 0);
    }
  }

  /** The closed form advances by exactly one from a date to the next. */
  lemma ToDaysNext(d: Date)
    requires ValidDate(d)
    ensures 1 <= NextDay(d).month <= 12 && ToDays(NextDay(d)) == ToDays(d) + 1
  {
    if d.day == DaysInMonth(d.year, d.month) && d.month == 12 {
      LeapYearsStep(d.year);
    }
  }

  /** Round trip: the closed form recovers the day number of `FromDays`. */
  lemma {:induction false} ToDaysFromDays(z: int)
    ensures ValidDate(FromDays(z)) && ToDays(FromDays(z)) == z
    decreases if z >= 0 then z else -z
  {
    FromDaysValid(z);
    if z > 0 {
      ToDaysFromDays(z - 1);
      FromDaysSucc(z - 1);
      ToDaysNext(FromDays(z - 1));
    } else if z < 0 {
      ToDaysFromDays(z + 1);
      FromDaysSucc(z);
      ToDaysNext(FromDays(z));
    }
  }

  lemma {:induction false} FromDaysMonotone(a: int, b: int)
    requires a < b
    ensures Before(FromDays(a), FromDays(b))
    decreases b - a
  {
    FromDaysSucc(b - 1);
    FromDaysValid(b - 1);
    NeighbourDays(FromDays(b - 1));
    if a < b - 1 {
      FromDaysMonotone(a, b - 1);
    }
  }

  /** Day-number order is chronological order of the dates. */
  lemma FromDaysOrder(a: int, b: int)
    ensures Before(FromDays(a), FromDays(b)) <==> a < b
  {
    if a < b {
      FromDaysMonotone(a, b);
    } else if b < a {
      FromDaysMonotone(b, a);
    }
  }

  // ---------------------------------------------------------------------
  // YYYY-MM-DD
  // ---------------------------------------------------------------------

  /** `${yyyy}-${mm}-${dd}`: each field as `String` renders it, month and day
      padded to two characters. */
  function FormatDate(d: Date): string
  {
    IntToString(d.year) + "-" + PadStart(IntToString(d.month), 2, '0')
      + "-" + PadStart(IntToString(d.day), 2, '0')
  }

  /** For a four-digit year the format is zero-padded YYYY-MM-DD: ten
      characters, digits around two dashes. */
  lemma FormatDateShape(d: Date)
    requires ValidDate(d) && 1000 <= d.year <= 9999
    ensures FormatDate(d) == FixedDigits(d.year, 4) + "-" + FixedDigits(d.month, 2) + "-" + FixedDigits(d.day, 2)
    ensures |FormatDate(d)| == 10
  {
    NatToStringFixed(d.year, 4);
    Pad2Digits(d.month);
    Pad2Digits(d.day);
  }

  /** Three fields joined by a separator, with equal field widths on both
      sides, compare field by field. */
  lemma JoinedOrder3(ya: string, ma: string, da: string, yb: string, mb: string, db: string, sep: string)
    requires |ya| == |yb| && |ma| == |mb| && |da| == |db|
    ensures LexLess(ya + sep + ma + sep + da, yb + sep + mb + sep + db) ==
      if ya != yb then LexLess(ya, yb) else if ma != mb then LexLess(ma, mb) else LexLess(da, db)
    ensures ya + sep + ma + sep + da == yb + sep + mb + sep + db <==> ya == yb && ma == mb && da == db
  {
    assert ya + sep + ma + sep + da == ya + sep + (ma + sep + da);
    assert yb + sep + mb + sep + db == yb + sep + (mb + sep + db);
    JoinedOrder(ya, ma + sep + da, yb, mb + sep + db, sep);
    JoinedOrder(ma, da, mb, db, sep);
  }

  /** Lexicographic order of formatted dates is chronological order, which is
      what lets a `<` on date strings mean "earlier". */
  lemma FormatDateOrder(a: Date, b: Date)
    requires ValidDate(a) && 1000 <= a.year <= 9999
    requires ValidDate(b) && 1000 <= b.year <= 9999
    ensures LexLess(FormatDate(a), FormatDate(b)) <==> Before(a, b)
    ensures FormatDate(a) == FormatDate(b) <==> a == b
  {
    FormatDateShape(a);
    FormatDateShape(b);
    FixedDigitsOrder(a.year, b.year, 4);
    FixedDigitsOrder(a.month, b.month, 2);
    FixedDigitsOrder(a.day, b.day, 2);
    JoinedOrder3(FixedDigits(a.year, 4), FixedDigits(a.month, 2), FixedDigits(a.day, 2),
                 FixedDigits(b.year, 4), FixedDigits(b.month, 2), FixedDigits(b.day, 2), "-");
  }

  /** For day numbers whose years have four digits, comparing the formatted
      strings compares the days. */
  lemma FormattedDayOrder(a: int, b: int)
    requires 1000 <= FromDays(a).year <= 9999 && 1000 <= FromDays(b).year <= 9999
    ensures LexLess(FormatDate(FromDays(a)), FormatDate(FromDays(b))) <==> a < b
  {
    FromDaysValid(a);
    FromDaysValid(b);
    FormatDateOrder(FromDays(a), FromDays(b));
    FromDaysOrder(a, b);
  }

  /** `getDay()`: 0 is Sunday; 1970-01-01 was a Thursday (4). */
  function DayOfWeek(z: int): (w: int)
    ensures 0 <= w < 7
  {
    (z + 4) % 7
  }
}
