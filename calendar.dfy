/** The part of Python's `datetime` that 12cr.py relies on: dates of the proleptic
    Gregorian calendar, their day numbers (`date.toordinal()`, so that
    `(a - b).days` is a difference of day numbers), and
    `datetime.strptime(s, '%Y.%m.%d')`. */
module Calendar {
  import opened Strings
  import opened Optional
  import opened Format

  datatype Date = Date(year: int, month: int, day: int)

  predicate IsLeap(y: int) {
    y % 4 == 0 && (y % 100 != 0 || y % 400 == 0)
  }

  function DaysInMonth(y: int, m: int): (n: int)
    requires 1 <= m <= 12
    ensures 28 <= n <= 31
  {
    if m == 2 then (if IsLeap(y) then 29 else 28)
    else if m == 4 || m == 6 || m == 9 || m == 11 then 30
    else 31
  }

  function DaysInYear(y: int): int {
    if IsLeap(y) then 366 else 365
  }

  /** What `datetime` accepts: a year from 1 to 9999 and a day that exists in its month. */
  predicate Valid(d: Date) {
    1 <= d.year <= 9999 && 1 <= d.month <= 12 && 1 <= d.day <= DaysInMonth(d.year, d.month)
  }

  /** The number of days in the years before year `y`. */
  function DaysBeforeYear(y: int): int
    requires y >= 1
  {
    var p := y - 1;
    p * 365 + p / 4 - p / 100 + p / 400
  }

  /** The number of days in the months of year `y` before month `m`. */
  function DaysBeforeMonth(y: int, m: int): int
    requires 1 <= m <= 12
    decreases m
  {
    if m == 1 then 0 else DaysBeforeMonth(y, m - 1) + DaysInMonth(y, m - 1)
  }

  /** `d.toordinal()`: day 1 is 0001-01-01. */
  function Ordinal(d: Date): int
    requires Valid(d)
  {
    DaysBeforeYear(d.year) + DaysBeforeMonth(d.year, d.month) + d.day
  }

  /** `a` falls later in its year than `b` does in its own. */
  predicate LaterInYear(a: Date, b: Date) {
    a.month > b.month || (a.month == b.month && a.day > b.day)
  }

  /** A `%Y`, `%m` or `%d` field: between `least` and `most` decimal digits. */
  predicate Field(s: string, least: nat, most: nat) {
    least <= |s| <= most && AllDigits(s)
  }

  /** `strptime` on the '.'-separated pieces of a stamp: a four-digit year, a month
      and a day of one or two digits each, and the date they name must exist. */
  function ParseFields(parts: seq<string>): (r: Option<Date>)
    ensures r.Some? ==> Valid(r.value)
  {
    if |parts| == 3 && Field(parts[0], 4, 4) && Field(parts[1], 1, 2) && Field(parts[2], 1, 2) then
      var d := Date(Value(parts[0]), Value(parts[1]), Value(parts[2]));
      if Valid(d) then Some(d) else None
    else None
  }

  /** `datetime.strptime(s, '%Y.%m.%d')`, `None` where it raises `ValueError`. */
  function ParseDate(s: string): (r: Option<Date>)
    ensures r.Some? ==> Valid(r.value)
  {
    ParseFields(Split(s, "."))
  }

  /** `d.strftime('%Y.%m.%d')` */
  function Show(d: Date): string
    requires d.year >= 0 && d.month >= 0 && d.day >= 0
  {
    Digits(d.year) + "." + ZeroPad(d.month, 2) + "." + ZeroPad(d.day, 2)
  }

  // ---------------------------------------------------------------------------
  // Lemmas

  /** A year holds 366 days when it is a leap year and 365 otherwise. */
  lemma YearLength(y: int)
    requires y >= 1
    ensures DaysBeforeYear(y + 1) == DaysBeforeYear(y) + DaysInYear(y)
  {
    var p := y - 1;
    assert y / 4 == p / 4 + (if y % 4 == 0 then 1 else 0);
    assert y / 100 == p / 100 + (if y % 100 == 0 then 1 else 0);
    assert y / 400 == p / 400 + (if y % 400 == 0 then 1 else 0);
  }

  /** Later years start later. */
  lemma {:induction false} YearsGrow(y: int, z: int)
    requires 1 <= y < z
    ensures DaysBeforeYear(y) + DaysInYear(y) <= DaysBeforeYear(z)
    decreases z - y
  {
    YearLength(y);
    if y + 1 < z {
      YearsGrow(y + 1, z);
    }
  }

  /** A month ends no later than the next one begins. */
  lemma {:induction false} MonthsGrow(y: int, m: int, n: int)
    requires 1 <= m < n <= 12
    ensures DaysBeforeMonth(y, m) + DaysInMonth(y, m) <= DaysBeforeMonth(y, n)
    decreases n - m
  {
    if m + 1 < n {
      MonthsGrow(y, m + 1, n);
    }
  }

  /** The months of a year add up to the year. */
  lemma MonthsFillYear(y: int)
    ensures DaysBeforeMonth(y, 12) + DaysInMonth(y, 12) == DaysInYear(y)
  {
    assert DaysBeforeMonth(y, 2) == 31;
    assert DaysBeforeMonth(y, 3) == 31 + DaysInMonth(y, 2);
    assert DaysBeforeMonth(y, 4) == 62 + DaysInMonth(y, 2);
    assert DaysBeforeMonth(y, 5) == 92 + DaysInMonth(y, 2);
    assert DaysBeforeMonth(y, 6) == 123 + DaysInMonth(y, 2);
    assert DaysBeforeMonth(y, 7) == 153 + DaysInMonth(y, 2);
    assert DaysBeforeMonth(y, 8) == 184 + DaysInMonth(y, 2);
    assert DaysBeforeMonth(y, 9) == 215 + DaysInMonth(y, 2);
    assert DaysBeforeMonth(y, 10) == 245 + DaysInMonth(y, 2);
    assert DaysBeforeMonth(y, 11) == 276 + DaysInMonth(y, 2);
    assert DaysBeforeMonth(y, 12) == 306 + DaysInMonth(y, 2);
  }

  /** Every date lies inside its own year. */
  lemma DateInYear(d: Date)
    requires Valid(d)
    ensures DaysBeforeYear(d.year) < Ordinal(d) <= DaysBeforeYear(d.year) + DaysInYear(d.year)
  {
    MonthsFillYear(d.year);
    if d.month < 12 {
      MonthsGrow(d.year, d.month, 12);
    }
  }

  /** Within one year, a date has the larger day number exactly when it comes later
      in the year. */
  lemma SameYearOrder(a: Date, b: Date)
    requires Valid(a) && Valid(b) && a.year == b.year
    ensures Ordinal(a) > Ordinal(b) <==> LaterInYear(a, b)
    ensures Ordinal(a) == Ordinal(b) <==> a == b
  {
    if a.month < b.month {
      MonthsGrow(a.year, a.month, b.month);
    } else if b.month < a.month {
      MonthsGrow(a.year, b.month, a.month);
    }
  }

  /** Any date of an earlier year has the smaller day number. */
  lemma EarlierYear(a: Date, b: Date)
    requires Valid(a) && Valid(b) && a.year < b.year
    ensures Ordinal(a) < Ordinal(b)
  {
    DateInYear(a);
    DateInYear(b);
    YearsGrow(a.year, b.year);
  }

  /** Reading back what `strftime('%Y.%m.%d')` writes gives the date again, for
      every date of a four-digit year. */
  lemma ParseShow(d: Date)
    requires Valid(d) && d.year >= 1000
    ensures ParseDate(Show(d)) == Some(d)
  {
    var y, m, dd := Digits(d.year), ZeroPad(d.month, 2), ZeroPad(d.day, 2);
    DigitsAbove(d.year, 3, 1000);
    DigitsBelow(d.year, 4, 10000);
    DigitsBelow(d.month, 2, 100);
    DigitsBelow(d.day, 2, 100);
    ZeroPadSpec(d.month, 2);
    ZeroPadSpec(d.day, 2);
    ValueDigits(d.year);
    SplitThree(y, m, dd);
  }

  /** Three digit strings joined by '.' split back into the three. */
  lemma SplitThree(a: string, b: string, c: string)
    requires AllDigits(a) && AllDigits(b) && AllDigits(c)
    ensures Split(a + "." + b + "." + c, ".") == [a, b, c]
  {
    NoDotInDigits(a);
    NoDotInDigits(b);
    NoDotInDigits(c);
    var bc := b + ['.'] + c;
    SplitAroundChar(b, '.', c);
    assert Split(bc, ".") == [b, c];
    SplitAroundChar(a, '.', bc);
    assert Split(a + ['.'] + bc, ".") == [a, b, c];
    assert a + "." + b + "." + c == a + ['.'] + bc;
  }

  /** A string of digits splits on '.' into itself. */
  lemma NoDotInDigits(s: string)
    requires AllDigits(s)
    ensures Split(s, ".") == [s]
  {
    NotContainsChar(s, '.');
    SplitWithout(s, ".");
  }

  /** Two stamps that differ only in their year parse to dates that differ only in
      their year. */
  lemma ParseWithYear(y: nat, rest: string)
    requires |Digits(y)| == 4
    ensures var parts := Split(rest, ".");
      if |parts| == 2 && Field(parts[0], 1, 2) && Field(parts[1], 1, 2) then
        var d := Date(y, Value(parts[0]), Value(parts[1]));
        ParseDate(Digits(y) + "." + rest) == if Valid(d) then Some(d) else None
      else ParseDate(Digits(y) + "." + rest) == None
  {
    NoDotInDigits(Digits(y));
    SplitAroundChar(Digits(y), '.', rest);
    ValueDigits(y);
  }
}
