/**
 The proleptic Gregorian calendar of `jiff::civil`, day numbers since the Unix epoch, and
 the ISO 8601 spelling and reading of permalink dates (`common/src/time.rs`).
 */
module Civil {
  import opened Wrappers
  import opened Decimal

  datatype Date = Date(year: int, month: int, day: int)

  const MIN_YEAR := -9999
  const MAX_YEAR := 9999

  predicate IsLeap(y: int) {
    y % 4 == 0 && (y % 100 != 0 || y % 400 == 0)
  }

  function DaysInYear(y: int): int {
    if IsLeap(y) then 366 else 365
  }

  function DaysInMonth(y: int, m: int): (n: int)
    ensures 28 <= n <= 31
  {
    if m == 2 then if IsLeap(y) then 29 else 28
    else if m == 4 || m == 6 || m == 9 || m == 11 then 30
    else 31
  }

  /** A real date, in any year. */
  predicate IsDate(d: Date) {
    1 <= d.month <= 12 && 1 <= d.day <= DaysInMonth(d.year, d.month)
  }

  /** A real date in the supported years. */
  predicate ValidDate(d: Date) {
    IsDate(d) && MIN_YEAR <= d.year <= MAX_YEAR
  }

  // Day numbers

  /** How many of the years from 0000 up to but not including `y` are multiples of `k`. */
  function Multiples(y: int, k: int): int
    requires k > 0
  {
    (y + k - 1) / k
  }

  /** Days from 0000-01-01 to the first day of year `y`. */
  function DaysBeforeYear(y: int): int {
    365 * y + Multiples(y, 4) - Multiples(y, 100) + Multiples(y, 400)
  }

  lemma OneMoreYear(y: int, k: int)
    requires k == 4 || k == 100 || k == 400
    ensures Multiples(y + 1, k) == Multiples(y, k) + if y % k == 0 then 1 else 0
  {
  }

  lemma YearLength(y: int)
    ensures DaysBeforeYear(y + 1) == DaysBeforeYear(y) + DaysInYear(y)
  {
    OneMoreYear(y, 4);
    OneMoreYear(y, 100);
    OneMoreYear(y, 400);
    LeapRule(y);
  }

  lemma LeapRule(y: int)
    ensures y % 400 == 0 ==> y % 100 == 0
    ensures y % 100 == 0 ==> y % 4 == 0
  {
  }

  lemma {:induction false} YearsMonotone(y: int, z: int)
    requires y < z
    ensures DaysBeforeYear(y + 1) <= DaysBeforeYear(z)
    decreases z - y
  {
    if y + 1 < z {
      YearsMonotone(y, z - 1);
      YearLength(z - 1);
    }
  }

  function DaysBeforeMonth(y: int, m: int): (n: int)
    requires 1 <= m <= 13
    ensures 0 <= n
  {
    if m == 1 then 0 else DaysBeforeMonth(y, m - 1) + DaysInMonth(y, m - 1)
  }

  lemma MonthsFillYear(y: int)
    ensures DaysBeforeMonth(y, 13) == DaysInYear(y)
  {
    var leap := if IsLeap(y) then 1 else 0;
    assert DaysBeforeMonth(y, 2) == 31 && DaysBeforeMonth(y, 3) == 59 + leap;
    assert DaysBeforeMonth(y, 4) == 90 + leap;
    assert DaysBeforeMonth(y, 5) == 120 + leap;
    assert DaysBeforeMonth(y, 6) == 151 + leap;
    assert DaysBeforeMonth(y, 7) == 181 + leap;
    assert DaysBeforeMonth(y, 8) == 212 + leap;
    assert DaysBeforeMonth(y, 9) == 243 + leap;
    assert DaysBeforeMonth(y, 10) == 273 + leap;
    assert DaysBeforeMonth(y, 11) == 304 + leap;
    assert DaysBeforeMonth(y, 12) == 334 + leap;
  }

  lemma {:induction false} MonthsMonotone(y: int, m: int, n: int)
    requires 1 <= m < n <= 13
    ensures DaysBeforeMonth(y, m) + DaysInMonth(y, m) <= DaysBeforeMonth(y, n)
    decreases n - m
  {
    if m + 1 < n {
      MonthsMonotone(y, m, n - 1);
    }
  }

  /** Day number of 1970-01-01, counted from 0000-01-01. */
  const EPOCH := 719528

  /** Days since the Unix epoch. */
  function DayNumber(d: Date): int
    requires IsDate(d)
  {
    DaysBeforeYear(d.year) + DaysBeforeMonth(d.year, d.month) + d.day - 1 - EPOCH
  }

  lemma EpochIsZero()
    ensures DayNumber(Date(1970, 1, 1)) == 0
  {
  }

  predicate Earlier(a: Date, b: Date) {
    || a.year < b.year
    || (a.year == b.year && (a.month < b.month || (a.month == b.month && a.day < b.day)))
  }

  lemma DayWithinYear(d: Date)
    requires IsDate(d)
    ensures DaysBeforeYear(d.year) <= DayNumber(d) + EPOCH < DaysBeforeYear(d.year + 1)
  {
    MonthsFillYear(d.year);
    MonthsMonotone(d.year, d.month, 13);
    YearLength(d.year);
  }

  /** Day numbers follow the calendar order. */
  lemma DayNumberMonotone(a: Date, b: Date)
    requires IsDate(a) && IsDate(b) && Earlier(a, b)
    ensures DayNumber(a) < DayNumber(b)
  {
    if a.year < b.year {
      DayWithinYear(a);
      DayWithinYear(b);
      YearsMonotone(a.year, b.year);
    } else if a.month < b.month {
      MonthsMonotone(a.year, a.month, b.month);
    }
  }

  /** The first year from `y` on that is not over on day `z`. */
  function FindYear(z: int, y: int): (r: int)
    requires DaysBeforeYear(y) <= z
    ensures DaysBeforeYear(r) <= z < DaysBeforeYear(r + 1)
    decreases z - DaysBeforeYear(y)
  {
    YearLength(y);
    if z < DaysBeforeYear(y + 1) then y else FindYear(z, y + 1)
  }

  function FindMonth(y: int, r: int, m: int): (n: int)
    requires 1 <= m <= 12 && DaysBeforeMonth(y, m) <= r < DaysInYear(y)
    ensures 1 <= n <= 12 && DaysBeforeMonth(y, n) <= r < DaysBeforeMonth(y, n) + DaysInMonth(y, n)
    decreases 12 - m
  {
    MonthsFillYear(y);
    if r < DaysBeforeMonth(y, m) + DaysInMonth(y, m) then m else FindMonth(y, r, m + 1)
  }

  /** A year certainly not after day `z`. */
  function YearGuess(z: int): (y: int)
    ensures DaysBeforeYear(y) <= z
  {
    if z < 0 then z / 365 else z / 366
  }

  /** The date of a day number. */
  function CivilFromDays(n: int): (d: Date)
    ensures IsDate(d) && DayNumber(d) == n
  {
    var z := n + EPOCH;
    var y := FindYear(z, YearGuess(z));
    YearLength(y);
    var r := z - DaysBeforeYear(y);
    var m := FindMonth(y, r, 1);
    Date(y, m, r - DaysBeforeMonth(y, m) + 1)
  }

  /** Each day number is the number of one date only. */
  lemma CivilFromDaysInverse(d: Date)
    requires IsDate(d)
    ensures CivilFromDays(DayNumber(d)) == d
  {
    var e := CivilFromDays(DayNumber(d));
    if Earlier(d, e) {
      DayNumberMonotone(d, e);
    } else if Earlier(e, d) {
      DayNumberMonotone(e, d);
    }
  }

  // The calendar, counted from 1 March

  /**
   The number of a date as a closed form: in years that start on 1 March the leap day comes
   last, and months are 153 days to every five.
   */
  function MarchNumber(year: int, month: int, day: int): int {
    var y := if month <= 2 then year - 1 else year;
    var m := (month + 9) % 12;
    365 * y + y / 4 - y / 100 + y / 400 + (153 * m + 2) / 5 + day - 1 - 719_468
  }

  lemma MultiplesBefore(y: int)
    ensures Multiples(y, 4) == (y - 1) / 4 + 1
    ensures Multiples(y, 100) == (y - 1) / 100 + 1
    ensures Multiples(y, 400) == (y - 1) / 400 + 1
  {
  }

  /** Years up to the leap day, and years behind it. */
  lemma YearStart(y: int)
    ensures DaysBeforeYear(y) == 365 * y + (y - 1) / 4 - (y - 1) / 100 + (y - 1) / 400 + 1
    ensures DaysBeforeYear(y) + DaysInYear(y) - 365 == 365 * y + y / 4 - y / 100 + y / 400 + 1
  {
    MultiplesBefore(y);
    MultiplesBefore(y + 1);
    YearLength(y);
  }

  lemma FromMarch(m: int)
    requires 1 <= m <= 12
    ensures var days := (153 * ((m + 9) % 12) + 2) / 5;
            && (m == 1 ==> days == 306) && (m == 2 ==> days == 337) && (m == 3 ==> days == 0)
            && (m == 4 ==> days == 31) && (m == 5 ==> days == 61) && (m == 6 ==> days == 92)
            && (m == 7 ==> days == 122) && (m == 8 ==> days == 153) && (m == 9 ==> days == 184)
            && (m == 10 ==> days == 214) && (m == 11 ==> days == 245) && (m == 12 ==> days == 275)
  {
  }

  lemma MonthStart(y: int, m: int)
    requires 1 <= m <= 12
    ensures DaysBeforeMonth(y, m) ==
            (153 * ((m + 9) % 12) + 2) / 5 + if m <= 2 then -306 else 59 + DaysInYear(y) - 365
  {
    FromMarch(m);
    MonthsFillYear(y);
  }

  /** The number of the first day of a month, also for the month behind December. */
  lemma FirstOfMonth(y: int, m: int)
    requires 1 <= m <= 12
    ensures DaysBeforeYear(y) + DaysBeforeMonth(y, m) - EPOCH == MarchNumber(y, m, 1)
  {
    YearStart(y);
    MonthStart(y, m);
  }

  function NextMonth(d: Date): Date {
    if d.month == 12 then Date(d.year + 1, 1, 1) else Date(d.year, d.month + 1, 1)
  }

  /** The first of the next month follows the last day of a month. */
  lemma MonthsMeet(y: int, m: int)
    requires 1 <= m <= 12
    ensures DayNumber(NextMonth(Date(y, m, 1))) == DayNumber(Date(y, m, DaysInMonth(y, m))) + 1
  {
    if m == 12 {
      MonthsFillYear(y);
      YearLength(y);
    }
  }

  lemma MonthLength(y: int, m: int)
    requires 1 <= m <= 12
    ensures var next := NextMonth(Date(y, m, 1));
            MarchNumber(next.year, next.month, 1) == MarchNumber(y, m, 1) + DaysInMonth(y, m)
  {
    var next := NextMonth(Date(y, m, 1));
    FirstOfMonth(y, m);
    FirstOfMonth(next.year, next.month);
    MonthsMeet(y, m);
  }

  lemma DayOfMonth(y: int, m: int, day: int)
    ensures MarchNumber(y, m, day) == MarchNumber(y, m, 1) + day - 1
  {
  }

  /** Every real date has the number the closed form gives. */
  lemma DayNumberIsMarchNumber(d: Date)
    requires IsDate(d)
    ensures DayNumber(d) == MarchNumber(d.year, d.month, d.day)
  {
    FirstOfMonth(d.year, d.month);
    DayOfMonth(d.year, d.month, d.day);
  }

  /** A date is real exactly when its month is one and its day comes before the first of the next month. */
  lemma DatesExactly(d: Date)
    ensures IsDate(d) <==>
            && 1 <= d.month <= 12 && 1 <= d.day
            && var next := NextMonth(d);
            MarchNumber(d.year, d.month, d.day) < MarchNumber(next.year, next.month, next.day)
  {
    if 1 <= d.month <= 12 {
      MonthLength(d.year, d.month);
      DayOfMonth(d.year, d.month, d.day);
    }
  }

  function Successor(d: Date): Date {
    var next := Date(d.year, d.month, d.day + 1);
    if IsDate(next) then next else NextMonth(d)
  }

  lemma SuccessorNumber(d: Date)
    requires IsDate(d)
    ensures IsDate(Successor(d)) && DayNumber(Successor(d)) == DayNumber(d) + 1
  {
    if d.day == DaysInMonth(d.year, d.month) {
      MonthsMeet(d.year, d.month);
    }
  }

  /** The day after a date is the next of its month, or the first of the next month. */
  lemma DayAfter(d: Date)
    requires IsDate(d)
    ensures CivilFromDays(DayNumber(d) + 1) == Successor(d)
  {
    SuccessorNumber(d);
    CivilFromDaysInverse(Successor(d));
  }

  // ISO 8601 text

  /** `Display` of a civil date: four-digit years, or a minus sign and six digits. */
  function IsoYear(y: int): string {
    if y < 0 then "-" + Padded(-y, 6) else Padded(y, 4)
  }

  function IsoDate(d: Date): string
    requires ValidDate(d)
  {
    IsoYear(d.year) + "-" + Padded(d.month, 2) + "-" + Padded(d.day, 2)
  }

  /** `PermalinkDate::from_ymd` */
  function FromYmd(year: int, month: int, day: int): Option<Date> {
    var d := Date(year, month, day);
    if ValidDate(d) then Some(d) else None
  }

  function DecimalValue(s: string): Option<nat> {
    if IsDigits(s) then Some(Value(s)) else None
  }

  const I32_MAX := 0x7FFF_FFFF

  method ParseDecimal(bytes: string) returns (r: Option<nat>)
    requires |bytes| <= 9
    ensures r == DecimalValue(bytes)
  {
    var number: nat := 0;
    var i := 0;
    while i < |bytes|
      invariant 0 <= i <= |bytes| && IsDigits(bytes[..i])
      invariant number == Value(bytes[..i])
    {
      if !IsDigit(bytes[i]) {
        return None;
      }
      assert bytes[..i + 1][..i] == bytes[..i];
      ValueBound(bytes[..i]);
      WithinI32(number, i, DigitValue(bytes[i]));
      number := number * 10 + DigitValue(bytes[i]);
      i := i + 1;
    }
    assert bytes[..i] == bytes;
    r := Some(number);
  }

  /** Reading up to nine digits cannot overflow an `i32`. */
  lemma WithinI32(number: nat, i: nat, digit: nat)
    requires i <= 8 && number < Pow10(i) && digit < 10
    ensures number * 10 + digit <= I32_MAX
  {
    Pow10Grows(i, 8);
    assert Pow10(8) == 100000000;
  }

  lemma {:induction false} Pow10Grows(i: nat, j: nat)
    requires i <= j
    ensures Pow10(i) <= Pow10(j)
    decreases j
  {
    if i < j {
      Pow10Grows(i, j - 1);
    }
  }

  function SignedYear(y: nat, negative: bool): int {
    if negative then -(y as int) else y as int
  }

  function ReadFields(year: string, month: string, day: string, negative: bool): Option<Date> {
    match (DecimalValue(year), DecimalValue(month), DecimalValue(day))
    case (Some(y), Some(m), Some(d)) =>
      if negative && y == 0 then None else FromYmd(SignedYear(y, negative), m, d)
    case _ => None
  }

  /** `parse_permalink_date`. Every accepted text is ASCII, so scalars stand for bytes. */
  function ParsePermalinkDate(s: string): Option<Date> {
    if |s| == 10 && s[4] == '-' && s[7] == '-' then ReadFields(s[..4], s[5..7], s[8..10], false)
    else if |s| == 13 && s[0] == '-' && s[7] == '-' && s[10] == '-' then ReadFields(s[1..7], s[8..10], s[11..13], true)
    else None
  }

  /** Where the parts of a spelled date stand. */
  lemma DateParts(year: string, month: string, day: string)
    requires |month| == 2 && |day| == 2
    ensures var s, n := year + "-" + month + "-" + day, |year|;
            && |s| == n + 6 && s[..n] == year && s[n] == '-' && s[n + 1..n + 3] == month
            && s[n + 3] == '-' && s[n + 4..n + 6] == day
  {
  }

  lemma IsoDateShape(d: Date)
    requires ValidDate(d)
    ensures var s := IsoDate(d);
            if d.year < 0 then
              |s| == 13 && s[0] == '-' && s[1..7] == Padded(-d.year, 6) && s[7] == '-'
              && s[8..10] == Padded(d.month, 2) && s[10] == '-' && s[11..13] == Padded(d.day, 2)
            else
              |s| == 10 && s[..4] == Padded(d.year, 4) && s[4] == '-'
              && s[5..7] == Padded(d.month, 2) && s[7] == '-' && s[8..10] == Padded(d.day, 2)
  {
    Pow10Values();
    PaddedWidth(d.month, 2);
    PaddedWidth(d.day, 2);
    DateParts(IsoYear(d.year), Padded(d.month, 2), Padded(d.day, 2));
    if d.year < 0 {
      PaddedWidth(-d.year, 6);
      assert IsoDate(d)[..7][1..] == IsoDate(d)[1..7] && IsoYear(d.year)[1..] == Padded(-d.year, 6);
    } else {
      PaddedWidth(d.year, 4);
    }
  }

  lemma ReadOfPadded(y: nat, yearWidth: nat, m: nat, d: nat, negative: bool)
    ensures ReadFields(Padded(y, yearWidth), Padded(m, 2), Padded(d, 2), negative) ==
            if negative && y == 0 then None else FromYmd(SignedYear(y, negative), m, d)
  {
    ValueOfPadded(y, yearWidth);
    ValueOfPadded(m, 2);
    ValueOfPadded(d, 2);
  }

  lemma SpellingIsRead(d: Date)
    requires ValidDate(d)
    ensures ParsePermalinkDate(IsoDate(d)) == Some(d)
  {
    IsoDateShape(d);
    if d.year < 0 {
      ReadOfPadded(-d.year, 6, d.month, d.day, true);
    } else {
      ReadOfPadded(d.year, 4, d.month, d.day, false);
    }
  }

  lemma ReadFieldsSpelling(year: string, month: string, day: string, negative: bool, d: Date)
    requires year != [] && month != [] && day != [] && ReadFields(year, month, day, negative) == Some(d)
    ensures ValidDate(d) && (negative <==> d.year < 0)
    ensures year == Padded(if negative then -d.year else d.year, |year|)
    ensures month == Padded(d.month, |month|) && day == Padded(d.day, |day|)
  {
    PaddedOfValue(year);
    PaddedOfValue(month);
    PaddedOfValue(day);
  }

  lemma ReadIsSpelling(s: string, d: Date)
    requires ParsePermalinkDate(s) == Some(d)
    ensures ValidDate(d) && s == IsoDate(d)
  {
    if |s| == 10 {
      ReadFieldsSpelling(s[..4], s[5..7], s[8..10], false, d);
      assert s == s[..4] + "-" + s[5..7] + "-" + s[8..10];
    } else {
      ReadFieldsSpelling(s[1..7], s[8..10], s[11..13], true, d);
      assert s == "-" + s[1..7] + "-" + s[8..10] + "-" + s[11..13];
    }
  }

  /** The reader accepts exactly the canonical spelling of each real date, and reads that date. */
  lemma ReaderIsExact(s: string, d: Date)
    ensures ParsePermalinkDate(s) == Some(d) <==> ValidDate(d) && s == IsoDate(d)
  {
    if ParsePermalinkDate(s) == Some(d) {
      ReadIsSpelling(s, d);
    } else if ValidDate(d) {
      SpellingIsRead(d);
    }
  }
}
