/**
 The SQLite text of an instant (`common/src/time.rs`): variable-width fractions, pre-epoch
 instants, and the agreement of byte order with time order.
 */
module SqliteTime {
  import opened Wrappers
  import opened Decimal
  import opened Civil

  /** Nanoseconds since the epoch. */
  type Instant = int

  /** The UTC date of an instant. */
  function DateOf(n: Instant): Date {
    CivilFromDays(n / 1_000_000_000 / 86_400)
  }

  predicate Supported(n: Instant) {
    ValidDate(DateOf(n))
  }

  /** `subsec_nanosecond`: truncated toward the epoch, so negative before it. */
  function SubsecNanosecond(n: Instant): int {
    if n >= 0 then n % 1_000_000_000 else -((-n) % 1_000_000_000)
  }

  function Abs(x: int): nat {
    if x < 0 then -x else x
  }

  /** How many fractional digits are written: none, or the least of 3, 6 and 9 that loses nothing. */
  function FractionWidth(n: Instant): nat {
    var nanos := Abs(SubsecNanosecond(n));
    if nanos == 0 then 0
    else if nanos % 1_000_000 == 0 then 3
    else if nanos % 1_000 == 0 then 6
    else 9
  }

  /** Nanoseconds into the current second, counted from its start. */
  function Fraction(n: Instant): nat {
    n % 1_000_000_000
  }

  function SecondOfDay(n: Instant): nat {
    n / 1_000_000_000 % 86_400
  }

  function ClockText(t: nat): string {
    "T" + Padded(t / 3600, 2) + ":" + Padded(t / 60 % 60, 2) + ":" + Padded(t % 60, 2)
  }

  /** A fraction to `width` digits, truncated, as `{:.*}` prints it. */
  function FractionText(fraction: nat, width: nat): string
    requires width <= 9 && fraction < 1_000_000_000
  {
    Pow10Values();
    PaddedWidth(fraction, 9);
    if width == 0 then "" else "." + Padded(fraction, 9)[..width]
  }

  function WidthWithinNine(n: Instant): (w: nat)
    ensures w == FractionWidth(n) && w <= 9
  {
    FractionWidth(n)
  }

  /** The text `Encode` stores: RFC 3339 with its `Z` replaced by a numeric offset. */
  function SqliteText(n: Instant): string
    requires Supported(n)
  {
    IsoDate(DateOf(n)) + ClockText(SecondOfDay(n)) + FractionText(Fraction(n), WidthWithinNine(n)) + "+00:00"
  }

  /** `Display` with a precision: the text before its `Z` is replaced. */
  function Rfc3339(n: Instant, width: nat): string
    requires Supported(n) && width <= 9
  {
    IsoDate(DateOf(n)) + ClockText(SecondOfDay(n)) + FractionText(Fraction(n), width) + "Z"
  }

  method EncodeSqlite(n: Instant) returns (text: string)
    requires Supported(n)
    ensures text == SqliteText(n)
  {
    var nanos := Abs(SubsecNanosecond(n));
    var fractionalWidth :=
      if nanos == 0 then 0
      else if nanos % 1_000_000 == 0 then 3
      else if nanos % 1_000 == 0 then 6
      else 9;
    text := Rfc3339(n, fractionalWidth);
    text := text[..|text| - 1];
    text := text + "+00:00";
  }

  // No digit is lost

  function TrimmedWidth(f: nat): nat {
    if f == 0 then 0 else if f % 1_000_000 == 0 then 3 else if f % 1_000 == 0 then 6 else 9
  }

  /** The width depends only on the printed fraction. */
  lemma WidthOfFraction(n: Instant)
    ensures FractionWidth(n) == TrimmedWidth(Fraction(n))
  {
    if n < 0 {
      var m := (-n) % 1_000_000_000;
      assert n % 1_000_000_000 == if m == 0 then 0 else 1_000_000_000 - m;
    }
  }

  /**
   The width is the least of 0, 3, 6 and 9 whose left-out digits are zeros, also before the
   epoch, where the printed fraction is not the counted one.
   */
  lemma WidthIsEnough(n: Instant)
    ensures var f := Fraction(n);
            var w := FractionWidth(n);
            && (w == 0 || w == 3 || w == 6 || w == 9)
            && (w == 0 <==> f == 0) && (w <= 3 <==> f % 1_000_000 == 0) && (w <= 6 <==> f % 1_000 == 0)
  {
    WidthOfFraction(n);
    ThousandsOfMillions(Fraction(n));
  }

  lemma ThousandsOfMillions(f: nat)
    ensures f % 1_000_000 == 0 ==> f % 1_000 == 0
  {
    assert f % 1_000_000 == 0 ==> f == 1_000 * (1_000 * (f / 1_000_000));
  }

  // Order of texts

  predicate StrLess(a: string, b: string) {
    b != [] && (a == [] || a[0] < b[0] || (a[0] == b[0] && StrLess(a[1..], b[1..])))
  }

  lemma {:induction false} LessIrreflexive(a: string)
    ensures !StrLess(a, a)
  {
    if a != [] {
      LessIrreflexive(a[1..]);
    }
  }

  /** Equally long prefixes decide, and when they are equal the rests do. */
  lemma {:induction false} LessByPrefix(p: string, x: string, q: string, y: string)
    requires |p| == |q|
    ensures StrLess(p + x, q + y) <==> StrLess(p, q) || (p == q && StrLess(x, y))
  {
    if p == [] {
      assert p + x == x && q + y == y;
    } else {
      assert (p + x)[1..] == p[1..] + x && (q + y)[1..] == q[1..] + y;
      assert p == [p[0]] + p[1..] && q == [q[0]] + q[1..];
      LessByPrefix(p[1..], x, q[1..], y);
    }
  }

  lemma {:induction false} DigitOrder(s: string, t: string)
    requires IsDigits(s) && IsDigits(t) && |s| == |t|
    ensures StrLess(s, t) <==> Value(s) < Value(t)
  {
    if s != [] {
      var n := |s| - 1;
      DigitOrder(s[..n], t[..n]);
      if Value(s[..n]) == Value(t[..n]) {
        ValueInjective(s[..n], t[..n]);
      }
      assert s == s[..n] + [s[n]] && t == t[..n] + [t[n]];
      LessByPrefix(s[..n], [s[n]], t[..n], [t[n]]);
      OneCharOrder(s[n], t[n]);
    }
  }

  lemma OneCharOrder(c: char, d: char)
    requires IsDigit(c) && IsDigit(d)
    ensures StrLess([c], [d]) <==> DigitValue(c) < DigitValue(d)
  {
    assert [c][1..] == [] && [d][1..] == [];
  }

  lemma PaddedOrder(m: nat, n: nat, width: nat)
    requires m < Pow10(width) && n < Pow10(width) && width > 0
    ensures StrLess(Padded(m, width), Padded(n, width)) <==> m < n
    ensures Padded(m, width) == Padded(n, width) <==> m == n
    ensures |Padded(m, width)| == |Padded(n, width)| == width
  {
    PaddedWidth(m, width);
    PaddedWidth(n, width);
    ValueOfPadded(m, width);
    ValueOfPadded(n, width);
    DigitOrder(Padded(m, width), Padded(n, width));
  }

  /** A padded number in front: the number decides, then the rest. */
  lemma LessByNumber(m: nat, x: string, n: nat, y: string, width: nat)
    requires m < Pow10(width) && n < Pow10(width) && width > 0
    ensures StrLess(Padded(m, width) + x, Padded(n, width) + y) <==> m < n || (m == n && StrLess(x, y))
  {
    PaddedOrder(m, n, width);
    LessByPrefix(Padded(m, width), x, Padded(n, width), y);
  }

  lemma LessByMark(mark: char, x: string, y: string)
    ensures StrLess([mark] + x, [mark] + y) <==> StrLess(x, y)
  {
    LessIrreflexive([mark]);
    LessByPrefix([mark], x, [mark], y);
  }

  const OFFSET := "+00:00"

  predicate AllZero(s: string) {
    forall i :: 0 <= i < |s| ==> s[i] == '0'
  }

  /**
   Dropping trailing zeros before the offset keeps the order of two digit strings, because
   `+` sorts before every digit.
   */
  lemma {:induction false} TruncatedOrder(s: string, i: nat, t: string, j: nat)
    requires IsDigits(s) && IsDigits(t) && |s| == |t| && i <= |s| && j <= |t|
    requires AllZero(s[i..]) && AllZero(t[j..]) && (s != t || i == j)
    ensures StrLess(s[..i] + OFFSET, t[..j] + OFFSET) <==> StrLess(s, t)
  {
    if i == 0 || j == 0 {
      TruncatedEdge(s, i, t, j);
    } else {
      assert s[..i] + OFFSET == [s[0]] + (s[1..][..i - 1] + OFFSET);
      assert t[..j] + OFFSET == [t[0]] + (t[1..][..j - 1] + OFFSET);
      assert s == [s[0]] + s[1..] && t == [t[0]] + t[1..];
      if s[0] == t[0] {
        assert s[1..][i - 1..] == s[i..] && t[1..][j - 1..] == t[j..];
        TruncatedOrder(s[1..], i - 1, t[1..], j - 1);
      }
    }
  }

  lemma TruncatedEdge(s: string, i: nat, t: string, j: nat)
    requires IsDigits(s) && IsDigits(t) && |s| == |t| && i <= |s| && j <= |t|
    requires AllZero(s[i..]) && AllZero(t[j..]) && (s != t || i == j)
    requires i == 0 || j == 0
    ensures StrLess(s[..i] + OFFSET, t[..j] + OFFSET) <==> StrLess(s, t)
  {
    assert OFFSET[0] == '+';
    if i == 0 {
      assert s[0..] == s && s[..0] + OFFSET == OFFSET;
      if j == 0 {
        assert t[0..] == t && s == t;
        LessIrreflexive(s);
        LessIrreflexive(OFFSET);
        assert t[..0] + OFFSET == OFFSET;
      } else {
        ZerosFirst(s, t);
        assert (t[..j] + OFFSET)[0] == t[0];
      }
    } else {
      assert t[0..] == t && t[..0] + OFFSET == OFFSET;
      ZerosLast(s, t);
      assert (s[..i] + OFFSET)[0] == s[0];
    }
  }

  lemma {:induction false} ZerosFirst(s: string, t: string)
    requires AllZero(s) && IsDigits(t) && |s| == |t| && s != t
    ensures StrLess(s, t)
  {
    assert s == [s[0]] + s[1..] && t == [t[0]] + t[1..];
    if s[0] == t[0] {
      ZerosFirst(s[1..], t[1..]);
    }
  }

  lemma {:induction false} ZerosLast(s: string, t: string)
    requires IsDigits(s) && AllZero(t) && |s| == |t|
    ensures !StrLess(s, t)
  {
    if s != [] && s[0] == t[0] {
      ZerosLast(s[1..], t[1..]);
    }
  }

  // The fraction and the offset

  lemma ShiftDigit(q: nat, p: nat, r: nat, d: nat)
    ensures 10 * (q * p + r) + d == q * (10 * p) + (10 * r + d)
  {
  }

  lemma ValueSnoc(s: string, c: char)
    requires IsDigits(s) && IsDigit(c)
    ensures IsDigits(s + [c]) && Value(s + [c]) == 10 * Value(s) + DigitValue(c)
  {
    assert (s + [c])[..|s|] == s;
  }

  /** The value of two digit strings in a row. */
  lemma {:induction false} ValueAppend(s: string, t: string)
    requires IsDigits(s) && IsDigits(t)
    ensures IsDigits(s + t) && Value(s + t) == Value(s) * Pow10(|t|) + Value(t)
  {
    if t == [] {
      assert s + t == s;
    } else {
      var front, c := t[..|t| - 1], t[|t| - 1];
      assert t == front + [c];
      ValueAppend(s, front);
      ValueSnoc(s + front, c);
      ValueSnoc(front, c);
      assert s + t == s + front + [c];
      ShiftDigit(Value(s), Pow10(|front|), Value(front), DigitValue(c));
    }
  }

  lemma ValueSplit(s: string, i: nat)
    requires IsDigits(s) && i <= |s|
    ensures Value(s) == Value(s[..i]) * Pow10(|s| - i) + Value(s[i..])
  {
    assert s == s[..i] + s[i..];
    ValueAppend(s[..i], s[i..]);
  }

  lemma {:induction false} ZeroValue(s: string)
    requires IsDigits(s) && Value(s) == 0
    ensures AllZero(s)
  {
    if s != [] {
      ZeroValue(s[..|s| - 1]);
      assert s == s[..|s| - 1] + [s[|s| - 1]];
    }
  }

  lemma TailOfMultiple(f: nat, w: nat, unit: nat)
    requires f < 1_000_000_000 && w <= 9 && unit == Pow10(9 - w) && unit > 0 && f % unit == 0
    ensures |Padded(f, 9)| == 9 && AllZero(Padded(f, 9)[w..])
  {
    Pow10Values();
    PaddedWidth(f, 9);
    var s := Padded(f, 9);
    ValueOfPadded(f, 9);
    ValueSplit(s, w);
    ValueBound(s[w..]);
    var q, r := Value(s[..w]), Value(s[w..]);
    assert f == q * unit + r && r < unit;
    RemainderOfMultiple(q, r, unit);
    ZeroValue(s[w..]);
  }

  lemma RemainderOfMultiple(q: nat, r: nat, unit: nat)
    requires r < unit && (q * unit + r) % unit == 0
    ensures r == 0
  {
    var k := (q * unit + r) / unit;
    assert (k - q) * unit == r;
    assert k - q >= 1 ==> (k - q) * unit >= unit;
    assert k - q <= -1 ==> (k - q) * unit < 0;
  }

  /** The digits beyond the written width are zeros. */
  lemma TrimmedTail(f: nat)
    requires f < 1_000_000_000
    ensures |Padded(f, 9)| == 9 && AllZero(Padded(f, 9)[TrimmedWidth(f)..])
  {
    Pow10Values();
    var w := TrimmedWidth(f);
    assert Pow10(0) == 1;
    TailOfMultiple(f, w, if w == 0 then 1_000_000_000 else if w == 3 then 1_000_000 else if w == 6 then 1_000 else 1);
  }

  function Suffix(f: nat): string
    requires f < 1_000_000_000
  {
    FractionText(f, TrimmedWidth(f)) + OFFSET
  }

  lemma OffsetFirst(f: nat, g: nat)
    requires f < 1_000_000_000 && g < 1_000_000_000 && (f == 0 || g == 0)
    ensures StrLess(Suffix(f), Suffix(g)) <==> f < g
  {
    assert OFFSET[0] == '+';
    LessIrreflexive(OFFSET);
    assert f == 0 ==> Suffix(f) == OFFSET;
    assert g == 0 ==> Suffix(g) == OFFSET;
    assert f > 0 ==> Suffix(f)[0] == '.';
    assert g > 0 ==> Suffix(g)[0] == '.';
  }

  lemma FractionOrder(f: nat, g: nat)
    requires f < 1_000_000_000 && g < 1_000_000_000
    ensures StrLess(Suffix(f), Suffix(g)) <==> f < g
  {
    if f == 0 || g == 0 {
      OffsetFirst(f, g);
    } else {
      TrimmedTail(f);
      TrimmedTail(g);
      var s, t := Padded(f, 9), Padded(g, 9);
      var i, j := TrimmedWidth(f), TrimmedWidth(g);
      if s == t {
        PaddedInjective(f, g, 9);
      }
      Pow10Values();
      PaddedOrder(f, g, 9);
      TruncatedOrder(s, i, t, j);
      assert Suffix(f) == ['.'] + (s[..i] + OFFSET) && Suffix(g) == ['.'] + (t[..j] + OFFSET);
      LessByMark('.', s[..i] + OFFSET, t[..j] + OFFSET);
    }
  }

  // The clock and the date

  lemma ClockNested(t: nat, x: string)
    ensures ClockText(t) + x ==
            ['T'] + (Padded(t / 3600, 2) + ([':'] + (Padded(t / 60 % 60, 2) + ([':'] + (Padded(t % 60, 2) + x)))))
  {
  }

  lemma ClockFields(s: nat, t: nat)
    requires s < 86_400 && t < 86_400
    ensures s / 3600 < 24 && s / 60 % 60 < 60 && s % 60 < 60
    ensures s < t <==>
            || s / 3600 < t / 3600
            || (s / 3600 == t / 3600 && (s / 60 % 60 < t / 60 % 60 || (s / 60 % 60 == t / 60 % 60 && s % 60 < t % 60)))
    ensures s == t <==> s / 3600 == t / 3600 && s / 60 % 60 == t / 60 % 60 && s % 60 == t % 60
  {
    ClockSplit(s);
    ClockSplit(t);
  }

  lemma ClockSplit(s: nat)
    ensures s == s / 3600 * 3600 + s / 60 % 60 * 60 + s % 60
  {
    assert s / 60 / 60 == s / 3600;
  }

  lemma ClockOrder(s: nat, x: string, t: nat, y: string)
    requires s < 86_400 && t < 86_400
    ensures StrLess(ClockText(s) + x, ClockText(t) + y) <==> s < t || (s == t && StrLess(x, y))
  {
    Pow10Values();
    ClockFields(s, t);
    ClockNested(s, x);
    ClockNested(t, y);
    var h, m, k := Padded(s / 3600, 2), Padded(s / 60 % 60, 2), Padded(s % 60, 2);
    var h', m', k' := Padded(t / 3600, 2), Padded(t / 60 % 60, 2), Padded(t % 60, 2);
    LessByMark('T', h + ([':'] + (m + ([':'] + (k + x)))), h' + ([':'] + (m' + ([':'] + (k' + y)))));
    LessByNumber(s / 3600, [':'] + (m + ([':'] + (k + x))), t / 3600, [':'] + (m' + ([':'] + (k' + y))), 2);
    LessByMark(':', m + ([':'] + (k + x)), m' + ([':'] + (k' + y)));
    LessByNumber(s / 60 % 60, [':'] + (k + x), t / 60 % 60, [':'] + (k' + y), 2);
    LessByMark(':', k + x, k' + y);
    LessByNumber(s % 60, x, t % 60, y, 2);
  }

  function MonthAndDay(d: Date, x: string): string
    requires IsDate(d)
  {
    ['-'] + (Padded(d.month, 2) + (['-'] + (Padded(d.day, 2) + x)))
  }

  lemma DateNested(d: Date, x: string)
    requires ValidDate(d)
    ensures IsoDate(d) + x == IsoYear(d.year) + MonthAndDay(d, x)
  {
  }

  lemma MonthAndDayOrder(a: Date, x: string, b: Date, y: string)
    requires IsDate(a) && IsDate(b)
    ensures StrLess(MonthAndDay(a, x), MonthAndDay(b, y)) <==>
            a.month < b.month || (a.month == b.month && (a.day < b.day || (a.day == b.day && StrLess(x, y))))
  {
    Pow10Values();
    var k, k' := Padded(a.day, 2), Padded(b.day, 2);
    LessByMark('-', Padded(a.month, 2) + (['-'] + (k + x)), Padded(b.month, 2) + (['-'] + (k' + y)));
    LessByNumber(a.month, ['-'] + (k + x), b.month, ['-'] + (k' + y), 2);
    LessByMark('-', k + x, k' + y);
    LessByNumber(a.day, x, b.day, y, 2);
  }

  lemma FirstCharOrder(s: string, t: string)
    requires s != [] && t != [] && s[0] < t[0]
    ensures StrLess(s, t) && !StrLess(t, s)
  {
  }

  /** The order of year texts: a minus sign sorts before every digit, but negative years run backwards. */
  predicate YearBefore(y: int, z: int) {
    if y < 0 && z < 0 then z < y else y < z
  }

  lemma YearOrder(y: int, x: string, z: int, w: string)
    requires MIN_YEAR <= y <= MAX_YEAR && MIN_YEAR <= z <= MAX_YEAR
    ensures StrLess(IsoYear(y) + x, IsoYear(z) + w) <==> YearBefore(y, z) || (y == z && StrLess(x, w))
  {
    Pow10Values();
    if y >= 0 && z >= 0 {
      LessByNumber(y, x, z, w, 4);
    } else if y < 0 && z < 0 {
      NegativeYearOrder(-y, x, -z, w);
    } else {
      YearSign(y);
      YearSign(z);
      if y < 0 {
        FirstCharOrder(IsoYear(y) + x, IsoYear(z) + w);
      } else {
        FirstCharOrder(IsoYear(z) + w, IsoYear(y) + x);
      }
    }
  }

  lemma YearSign(y: int)
    ensures IsoYear(y) != [] && (if y < 0 then IsoYear(y)[0] == '-' else IsDigit(IsoYear(y)[0]))
  {
  }

  lemma NegativeYearOrder(p: nat, x: string, q: nat, y: string)
    requires p < 1000000 && q < 1000000
    ensures StrLess("-" + Padded(p, 6) + x, "-" + Padded(q, 6) + y) <==> p < q || (p == q && StrLess(x, y))
  {
    Pow10Values();
    assert "-" + Padded(p, 6) + x == ['-'] + (Padded(p, 6) + x);
    assert "-" + Padded(q, 6) + y == ['-'] + (Padded(q, 6) + y);
    LessByMark('-', Padded(p, 6) + x, Padded(q, 6) + y);
    LessByNumber(p, x, q, y, 6);
  }

  lemma DateOrder(a: Date, x: string, b: Date, y: string)
    requires ValidDate(a) && ValidDate(b)
    ensures StrLess(IsoDate(a) + x, IsoDate(b) + y) <==>
            if a.year != b.year then YearBefore(a.year, b.year)
            else Earlier(a, b) || (a == b && StrLess(x, y))
  {
    DateNested(a, x);
    DateNested(b, y);
    MonthAndDayOrder(a, x, b, y);
    YearOrder(a.year, MonthAndDay(a, x), b.year, MonthAndDay(b, y));
  }

  // Texts sort as instants

  function Day(n: Instant): int {
    n / 1_000_000_000 / 86_400
  }

  lemma InstantSplit(n: Instant)
    ensures n == (Day(n) * 86_400 + SecondOfDay(n)) * 1_000_000_000 + Fraction(n)
    ensures SecondOfDay(n) < 86_400 && Fraction(n) < 1_000_000_000
  {
  }

  lemma InstantOrder(m: Instant, n: Instant)
    ensures m < n <==>
            || Day(m) < Day(n)
            || (Day(m) == Day(n) &&
                  (SecondOfDay(m) < SecondOfDay(n) || (SecondOfDay(m) == SecondOfDay(n) && Fraction(m) < Fraction(n))))
  {
    InstantSplit(m);
    InstantSplit(n);
  }

  lemma DayOrder(m: Instant, n: Instant)
    ensures Earlier(DateOf(m), DateOf(n)) <==> Day(m) < Day(n)
    ensures DateOf(m) == DateOf(n) <==> Day(m) == Day(n)
  {
    var a, b := DateOf(m), DateOf(n);
    if Earlier(a, b) {
      DayNumberMonotone(a, b);
    } else if Earlier(b, a) {
      DayNumberMonotone(b, a);
    }
  }

  lemma SqliteTextParts(n: Instant)
    requires Supported(n)
    ensures SqliteText(n) == IsoDate(DateOf(n)) + (ClockText(SecondOfDay(n)) + Suffix(Fraction(n)))
  {
    WidthOfFraction(n);
  }

  /** Both instants lie before the year 0000, in different years. */
  predicate InBackwardYears(m: Instant, n: Instant) {
    DateOf(m).year < 0 && DateOf(n).year < 0 && DateOf(m).year != DateOf(n).year
  }

  /**
   The stored texts sort exactly as the instants do, unless both lie before the year 0000 in
   different years, where they sort exactly backwards.
   */
  lemma TextOrderExactly(m: Instant, n: Instant)
    requires Supported(m) && Supported(n)
    ensures StrLess(SqliteText(m), SqliteText(n)) <==> if InBackwardYears(m, n) then n < m else m < n
  {
    SqliteTextParts(m);
    SqliteTextParts(n);
    InstantSplit(m);
    InstantSplit(n);
    InstantOrder(m, n);
    InstantOrder(n, m);
    DayOrder(m, n);
    DayOrder(n, m);
    FractionOrder(Fraction(m), Fraction(n));
    ClockOrder(SecondOfDay(m), Suffix(Fraction(m)), SecondOfDay(n), Suffix(Fraction(n)));
    DateOrder(DateOf(m), ClockText(SecondOfDay(m)) + Suffix(Fraction(m)),
              DateOf(n), ClockText(SecondOfDay(n)) + Suffix(Fraction(n)));
  }

  const DAY := 86_400_000_000_000

  /** Midnight of 1 January in the years -0002 and -0001: the later instant sorts first. */
  lemma BackwardInstants(m: Instant, n: Instant)
    requires m == -720_258 * DAY && n == -719_893 * DAY
    ensures DateOf(m) == Date(-2, 1, 1) && DateOf(n) == Date(-1, 1, 1) && Supported(m) && Supported(n)
    ensures m < n && StrLess(SqliteText(n), SqliteText(m))
  {
    BackwardDays();
    MidnightOf(Date(-2, 1, 1), -720_258, m);
    MidnightOf(Date(-1, 1, 1), -719_893, n);
    LaterSortsFirst(m, n);
  }

  lemma LaterSortsFirst(m: Instant, n: Instant)
    requires Supported(m) && Supported(n) && InBackwardYears(m, n) && m < n
    ensures StrLess(SqliteText(n), SqliteText(m))
  {
    TextOrderExactly(n, m);
  }

  lemma BackwardDays()
    ensures ValidDate(Date(-2, 1, 1)) && DayNumber(Date(-2, 1, 1)) == -720_258
    ensures ValidDate(Date(-1, 1, 1)) && DayNumber(Date(-1, 1, 1)) == -719_893
  {
  }

  lemma MidnightOf(d: Date, day: int, n: Instant)
    requires ValidDate(d) && DayNumber(d) == day && n == day * DAY
    ensures DateOf(n) == d && Supported(n)
  {
    CivilFromDaysInverse(d);
    assert n / 1_000_000_000 == day * 86_400;
    assert day * 86_400 / 86_400 == day;
  }

  // Reading the text back

  function ReadClock(s: string): Option<nat>
    requires |s| == 9
  {
    if s[0] != 'T' || s[3] != ':' || s[6] != ':' then None
    else
      match (DecimalValue(s[1..3]), DecimalValue(s[4..6]), DecimalValue(s[7..9]))
      case (Some(h), Some(m), Some(k)) => if h < 24 && m < 60 && k < 60 then Some(h * 3600 + m * 60 + k) else None
      case _ => None
  }

  /** A fraction of one to nine digits in front of the offset, or none. */
  function ReadSuffix(s: string): Option<nat> {
    if s == OFFSET then Some(0)
    else if 8 <= |s| <= 16 && s[0] == '.' && s[|s| - 6..] == OFFSET then
      var digits := s[1..|s| - 6];
      match DecimalValue(digits)
      case Some(v) => Some(v * Pow10(9 - |digits|))
      case None => None
    else None
  }

  function InstantAt(day: int, second: int, nanosecond: int): Instant {
    (day * 86_400 + second) * 1_000_000_000 + nanosecond
  }

  /** Reads an RFC 3339 text with the offset the encoder writes. */
  function ReadSqlite(s: string): Option<Instant> {
    var n := if s != [] && s[0] == '-' then 13 else 10;
    if |s| < n + 9 then None
    else
      match (ParsePermalinkDate(s[..n]), ReadClock(s[n..n + 9]), ReadSuffix(s[n + 9..]))
      case (Some(d), Some(t), Some(f)) =>
        ReaderIsExact(s[..n], d);
        Some(InstantAt(DayNumber(d), t, f))
      case _ => None
  }

  lemma ClockIsRead(t: nat)
    requires t < 86_400
    ensures |ClockText(t)| == 9 && ReadClock(ClockText(t)) == Some(t)
  {
    Pow10Values();
    ClockFields(t, t);
    ClockSplit(t);
    PaddedWidth(t / 3600, 2);
    PaddedWidth(t / 60 % 60, 2);
    PaddedWidth(t % 60, 2);
    ValueOfPadded(t / 3600, 2);
    ValueOfPadded(t / 60 % 60, 2);
    ValueOfPadded(t % 60, 2);
    var s := ClockText(t);
    assert s[1..3] == Padded(t / 3600, 2) && s[4..6] == Padded(t / 60 % 60, 2) && s[7..9] == Padded(t % 60, 2);
  }

  lemma {:induction false} ValueOfZeroTail(s: string)
    requires IsDigits(s) && AllZero(s)
    ensures Value(s) == 0
  {
    if s != [] {
      ValueOfZeroTail(s[..|s| - 1]);
    }
  }

  lemma SuffixIsRead(f: nat)
    requires f < 1_000_000_000
    ensures ReadSuffix(Suffix(f)) == Some(f)
  {
    if f == 0 {
      assert Suffix(f) == OFFSET;
    } else {
      var w := TrimmedWidth(f);
      TrimmedTail(f);
      var s := Padded(f, 9);
      ValueOfPadded(f, 9);
      ValueSplit(s, w);
      ValueOfZeroTail(s[w..]);
      assert Suffix(f) == "." + s[..w] + OFFSET;
      assert Suffix(f)[|Suffix(f)| - 6..] == OFFSET && Suffix(f)[1..|Suffix(f)| - 6] == s[..w];
      assert Suffix(f) != OFFSET by {
        assert Suffix(f)[0] == '.' && OFFSET[0] == '+';
      }
    }
  }

  lemma ThreeParts(s: string, a: string, b: string, c: string)
    requires s == a + (b + c)
    ensures s[..|a|] == a && s[|a|..|a| + |b|] == b && s[|a| + |b|..] == c
  {
  }

  lemma IsoDateStart(d: Date)
    requires ValidDate(d)
    ensures |IsoDate(d)| == (if d.year < 0 then 13 else 10) && (IsoDate(d)[0] == '-' <==> d.year < 0)
  {
    IsoDateShape(d);
    if d.year >= 0 {
      assert IsoDate(d)[0] == Padded(d.year, 4)[0];
    }
  }

  lemma PartsAreRead(a: string, d: Date, b: string, t: nat, c: string, f: nat)
    requires ValidDate(d) && a == IsoDate(d)
    requires |b| == 9 && ReadClock(b) == Some(t) && ReadSuffix(c) == Some(f)
    ensures ReadSqlite(a + (b + c)) == Some(InstantAt(DayNumber(d), t, f))
  {
    var s := a + (b + c);
    IsoDateStart(d);
    ThreeParts(s, a, b, c);
    assert s[0] == a[0];
    SpellingIsRead(d);
  }

  lemma InstantOfDate(n: Instant)
    ensures SecondOfDay(n) < 86_400 && Fraction(n) < 1_000_000_000
    ensures n == InstantAt(DayNumber(DateOf(n)), SecondOfDay(n), Fraction(n))
  {
    InstantSplit(n);
  }

  /** The clock and the fraction are read from their texts, whatever those are made of. */
  lemma ClockAndSuffixAreRead(t: nat, f: nat)
    requires t < 86_400 && f < 1_000_000_000
    ensures |ClockText(t)| == 9 && ReadClock(ClockText(t)) == Some(t) && ReadSuffix(Suffix(f)) == Some(f)
  {
    ClockIsRead(t);
    SuffixIsRead(f);
  }

  lemma BuiltTextIsRead(d: Date, t: nat, f: nat)
    requires ValidDate(d) && t < 86_400 && f < 1_000_000_000
    ensures ReadSqlite(IsoDate(d) + (ClockText(t) + Suffix(f))) == Some(InstantAt(DayNumber(d), t, f))
  {
    ClockAndSuffixAreRead(t, f);
    PartsAreRead(IsoDate(d), d, ClockText(t), t, Suffix(f), f);
  }

  /** Storing an instant loses nothing: reading its text gives the instant back, in every supported year. */
  lemma TextRoundTrip(n: Instant)
    requires Supported(n)
    ensures ReadSqlite(SqliteText(n)) == Some(n)
  {
    SqliteTextParts(n);
    InstantOfDate(n);
    BuiltTextIsRead(DateOf(n), SecondOfDay(n), Fraction(n));
  }
}
