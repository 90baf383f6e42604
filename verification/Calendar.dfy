/** The proleptic Gregorian calendar of years 1 to 9999 and its microsecond instants. */
module Calendar {
  datatype Civil = Civil(year: int, month: int, day: int, hour: int, minute: int, second: int, micro: int)

  predicate Leap(year: int) {
    year % 4 == 0 && (year % 100 != 0 || year % 400 == 0)
  }

  function DaysInMonth(year: int, month: int): int {
    if month == 2 then (if Leap(year) then 29 else 28)
    else if month in {4, 6, 9, 11} then 30
    else 31
  }

  predicate ValidDate(year: int, month: int, day: int) {
    1 <= year <= 9999 && 1 <= month <= 12 && 1 <= day <= DaysInMonth(year, month)
  }

  predicate Valid(c: Civil) {
    && ValidDate(c.year, c.month, c.day)
    && 0 <= c.hour < 24 && 0 <= c.minute < 60 && 0 <= c.second < 60 && 0 <= c.micro < 1_000_000
  }

  function DaysBeforeYear(year: int): int {
    365 * (year - 1) + (year - 1) / 4 - (year - 1) / 100 + (year - 1) / 400
  }

  function DaysBeforeMonth(year: int, month: int): int
    decreases month
  {
    if month <= 1 then 0 else DaysBeforeMonth(year, month - 1) + DaysInMonth(year, month - 1)
  }

  function Ordinal(year: int, month: int, day: int): int {
    DaysBeforeYear(year) + DaysBeforeMonth(year, month) + day
  }

  function DayMicros(c: Civil): int {
    ((c.hour * 60 + c.minute) * 60 + c.second) * 1_000_000 + c.micro
  }

  const MICROS_PER_DAY := 86_400_000_000

  function Micros(c: Civil): int {
    Ordinal(c.year, c.month, c.day) * MICROS_PER_DAY + DayMicros(c)
  }

  const MIN_MICROS := MICROS_PER_DAY
  const MAX_MICROS := 3_652_060 * MICROS_PER_DAY - 1

  // ---- the ordinal is an order-preserving bijection onto 1 .. 3 652 059 ----

  lemma YearLength(year: int)
    requires year >= 1
    ensures DaysBeforeYear(year + 1) == DaysBeforeYear(year) + (if Leap(year) then 366 else 365)
  {
    NextQuotient(year, 4);
    NextQuotient(year, 100);
    NextQuotient(year, 400);
    if year % 400 == 0 {
      Quotient(year, 100, 4 * (year / 400), 0);
    }
    if year % 100 == 0 {
      Quotient(year, 4, 25 * (year / 100), 0);
    }
  }

  lemma Quotient(n: int, k: int, q: int, r: int)
    requires 0 <= r < k && n == k * q + r
    ensures n / k == q && n % k == r
  {
    var d := n / k - q;
    assert k * d == k * (n / k) - k * q == r - n % k;
    assert d >= 1 ==> k * d >= k;
    assert d <= -1 ==> k * d <= -k;
  }

  lemma NextQuotient(n: int, k: int)
    requires k > 0
    ensures n / k == (n - 1) / k + (if n % k == 0 then 1 else 0)
  {
    var q, r := (n - 1) / k, (n - 1) % k;
    if r + 1 == k {
      assert n == k * (q + 1) + 0;
      Quotient(n, k, q + 1, 0);
    } else {
      Quotient(n, k, q, r + 1);
    }
  }

  lemma {:induction false} YearsAdvance(y1: int, y2: int)
    requires 1 <= y1 < y2
    ensures DaysBeforeYear(y1) + (if Leap(y1) then 366 else 365) <= DaysBeforeYear(y2)
    decreases y2 - y1
  {
    YearLength(y2 - 1);
    YearLength(y1);
    if y1 < y2 - 1 {
      YearsAdvance(y1, y2 - 1);
    }
  }

  lemma {:induction false} MonthsAdvance(year: int, m1: int, m2: int)
    requires 1 <= m1 < m2
    ensures DaysBeforeMonth(year, m1) + DaysInMonth(year, m1) <= DaysBeforeMonth(year, m2)
    decreases m2 - m1
  {
    if m1 < m2 - 1 {
      MonthsAdvance(year, m1, m2 - 1);
    }
  }

  lemma DayOfYear(year: int, month: int, day: int)
    requires 1 <= month <= 12 && 1 <= day <= DaysInMonth(year, month)
    ensures 1 <= DaysBeforeMonth(year, month) + day <= if Leap(year) then 366 else 365
    ensures DaysBeforeMonth(year, 12) + 31 == if Leap(year) then 366 else 365
  {
    assert DaysBeforeMonth(year, 3) == 31 + DaysInMonth(year, 2);
    assert DaysBeforeMonth(year, 6) == DaysBeforeMonth(year, 3) + 92;
    assert DaysBeforeMonth(year, 9) == DaysBeforeMonth(year, 6) + 92;
    assert DaysBeforeMonth(year, 12) == DaysBeforeMonth(year, 9) + 91;
    if month < 12 {
      MonthsAdvance(year, month, 12);
    }
    if 1 < month {
      MonthsAdvance(year, 1, month);
    }
  }

  const DAYS_BEFORE := [0, 31, 59, 90, 120, 151, 181, 212, 243, 273, 304, 334, 365]

  predicate LeapYear(year: int) {
    year % 400 == 0 || (year % 4 == 0 && year % 100 != 0)
  }

  lemma LeapIs(year: int)
    ensures Leap(year) <==> LeapYear(year)
  {
    if year % 400 == 0 {
      Quotient(year, 4, 100 * (year / 400), 0);
    }
  }

  /** The first of each month falls where the Gregorian calendar puts it, one day later after February of a
      leap year, and each month ends where the next one starts. */
  lemma {:induction false} MonthStarts(year: int, month: int)
    requires 1 <= month <= 12
    ensures DaysBeforeMonth(year, month) == DAYS_BEFORE[month - 1] + (if LeapYear(year) && month > 2 then 1 else 0)
    ensures DaysInMonth(year, month) ==
            DAYS_BEFORE[month] - DAYS_BEFORE[month - 1] + (if LeapYear(year) && month == 2 then 1 else 0)
    decreases month
  {
    LeapIs(year);
    hide Leap, LeapYear;
    if month > 1 {
      MonthStarts(year, month - 1);
    }
  }

  predicate EarlierDate(a: Civil, b: Civil) {
    a.year < b.year || (a.year == b.year && (a.month < b.month || (a.month == b.month && a.day < b.day)))
  }

  lemma OrdinalIncreases(a: Civil, b: Civil)
    requires ValidDate(a.year, a.month, a.day) && ValidDate(b.year, b.month, b.day) && EarlierDate(a, b)
    ensures Ordinal(a.year, a.month, a.day) < Ordinal(b.year, b.month, b.day)
  {
    DayOfYear(a.year, a.month, a.day);
    DayOfYear(b.year, b.month, b.day);
    if a.year < b.year {
      YearsAdvance(a.year, b.year);
    } else if a.month < b.month {
      MonthsAdvance(a.year, a.month, b.month);
    }
  }

  predicate Earlier(a: Civil, b: Civil) {
    EarlierDate(a, b) || ((a.year, a.month, a.day) == (b.year, b.month, b.day) && DayMicros(a) < DayMicros(b))
  }

  lemma ClockDetermines(a: Civil, b: Civil)
    requires 0 <= a.micro < 1_000_000 && 0 <= b.micro < 1_000_000
    requires 0 <= a.second < 60 && 0 <= b.second < 60 && 0 <= a.minute < 60 && 0 <= b.minute < 60
    requires DayMicros(a) == DayMicros(b)
    ensures (a.hour, a.minute, a.second, a.micro) == (b.hour, b.minute, b.second, b.micro)
  {
    var s, t := (a.hour * 60 + a.minute) * 60 + a.second, (b.hour * 60 + b.minute) * 60 + b.second;
    assert s * 1_000_000 + a.micro == t * 1_000_000 + b.micro;
    assert s == t;
    assert a.hour * 60 + a.minute == b.hour * 60 + b.minute;
  }

  lemma DayThenClock(p: int, x: int, q: int, y: int)
    requires 0 <= x < MICROS_PER_DAY && 0 <= y < MICROS_PER_DAY
    ensures p * MICROS_PER_DAY + x < q * MICROS_PER_DAY + y <==> p < q || (p == q && x < y)
  {
  }

  lemma ClockIsWithinDay(c: Civil)
    requires 0 <= c.hour < 24 && 0 <= c.minute < 60 && 0 <= c.second < 60 && 0 <= c.micro < 1_000_000
    ensures 0 <= DayMicros(c) < MICROS_PER_DAY
  {
  }

  /** Chronological order is the order of the fields. */
  lemma MicrosOrder(a: Civil, b: Civil)
    requires Valid(a) && Valid(b)
    ensures Micros(a) < Micros(b) <==> Earlier(a, b)
    ensures Micros(a) == Micros(b) <==> a == b
  {
    hide Ordinal, DayMicros, DaysInMonth;
    var p, q := Ordinal(a.year, a.month, a.day), Ordinal(b.year, b.month, b.day);
    ClockIsWithinDay(a);
    ClockIsWithinDay(b);
    DayThenClock(p, DayMicros(a), q, DayMicros(b));
    DayThenClock(q, DayMicros(b), p, DayMicros(a));
    if EarlierDate(a, b) {
      OrdinalIncreases(a, b);
    } else if EarlierDate(b, a) {
      OrdinalIncreases(b, a);
    } else if DayMicros(a) == DayMicros(b) {
      ClockDetermines(a, b);
    }
  }

  function NextDate(y: int, m: int, d: int): (int, int, int) {
    if d < DaysInMonth(y, m) then (y, m, d + 1)
    else if m < 12 then (y, m + 1, 1)
    else (y + 1, 1, 1)
  }

  lemma NextDateIsNext(y: int, m: int, d: int)
    requires ValidDate(y, m, d) && Ordinal(y, m, d) < 3_652_059
    ensures var date := NextDate(y, m, d);
            ValidDate(date.0, date.1, date.2) && Ordinal(date.0, date.1, date.2) == Ordinal(y, m, d) + 1
  {
    DayOfYear(y, m, d);
    YearLength(y);
  }

  /** The date of a day number, counted up from 0001-01-01. */
  function DateOf(ordinal: int): (date: (int, int, int))
    requires 1 <= ordinal <= 3_652_059
    ensures ValidDate(date.0, date.1, date.2) && Ordinal(date.0, date.1, date.2) == ordinal
    decreases ordinal
  {
    if ordinal == 1 then (1, 1, 1)
    else
      var (y, m, d) := DateOf(ordinal - 1);
      NextDateIsNext(y, m, d);
      NextDate(y, m, d)
  }

  /** Hour, minute, second and microsecond of a day's microseconds. */
  lemma ClockOf(rest: int)
    requires 0 <= rest < MICROS_PER_DAY
    ensures var (h, mi) := (rest / 3_600_000_000, rest / 60_000_000 % 60);
            var (s, us) := (rest / 1_000_000 % 60, rest % 1_000_000);
            0 <= h < 24 && ((h * 60 + mi) * 60 + s) * 1_000_000 + us == rest
  {
    var seconds, minutes := rest / 1_000_000, rest / 60_000_000;
    assert minutes == seconds / 60;
    assert rest / 3_600_000_000 == minutes / 60;
  }

  /** The civil time of an instant of the years 1 to 9999. */
  function FromMicros(micros: int): (c: Civil)
    requires MIN_MICROS <= micros <= MAX_MICROS
    ensures Valid(c) && Micros(c) == micros
  {
    var (year, month, day) := DateOf(micros / MICROS_PER_DAY);
    var rest := micros % MICROS_PER_DAY;
    ClockOf(rest);
    Civil(year, month, day, rest / 3_600_000_000, rest / 60_000_000 % 60, rest / 1_000_000 % 60, rest % 1_000_000)
  }

  /** No civil time lies outside them, and each has one instant: `FromMicros` inverts `Micros`. */
  lemma FromMicrosInverts(c: Civil)
    requires Valid(c)
    ensures MIN_MICROS <= Micros(c) <= MAX_MICROS && FromMicros(Micros(c)) == c
  {
    DayOfYear(c.year, c.month, c.day);
    assert DaysBeforeYear(1) == 0 && DaysBeforeYear(10000) == 3_652_059;
    YearsAdvance(c.year, 10000);
    if c.year > 1 {
      YearsAdvance(1, c.year);
    }
    MicrosOrder(FromMicros(Micros(c)), c);
  }
}
