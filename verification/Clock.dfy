/**
  Instants, the truncating `whole_seconds`, and the canonical whole-second UTC text.

  An instant is a count of nanoseconds. Calendar fields are what the `time` crate reports for
  an instant; the text is built positionally from them.
 */
module Clock {
  import Text

  type Instant = int

  const NANOS: int := 1_000_000_000

  /** `Duration::whole_seconds`: truncates toward zero. */
  function WholeSeconds(d: int): (s: int)
    ensures d >= 0 ==> 0 <= s && s * NANOS <= d < (s + 1) * NANOS
    ensures d <= 0 ==> s <= 0 && (s - 1) * NANOS < d <= s * NANOS
  {
    if d >= 0 then d / NANOS else -((-d) / NANOS)
  }

  /** `replace_nanosecond(0)`: the start of the second that holds `t`. */
  function FloorToSecond(t: Instant): (f: Instant)
    ensures f % NANOS == 0 && f <= t < f + NANOS
  {
    t - t % NANOS
  }

  predicate IsWholeSecond(t: Instant) { t % NANOS == 0 }

  // ---------------------------------------------------------------- calendar

  datatype Utc = Utc(year: int, month: int, day: int, hour: int, minute: int, second: int)

  predicate IsLeap(year: int) {
    year % 4 == 0 && (year % 100 != 0 || year % 400 == 0)
  }

  function DaysInMonth(year: int, month: int): int {
    if month == 2 then (if IsLeap(year) then 29 else 28)
    else if month in {4, 6, 9, 11} then 30 else 31
  }

  /** A calendar second in the years the positional form prints with four digits. */
  predicate IsCalendar(u: Utc) {
    && 0 <= u.year <= 9999
    && 1 <= u.month <= 12
    && 1 <= u.day <= DaysInMonth(u.year, u.month)
    && 0 <= u.hour < 24
    && 0 <= u.minute < 60
    && 0 <= u.second < 60
  }

  function DaysInYear(year: int): int { if IsLeap(year) then 366 else 365 }

  function DaysBeforeYear(year: nat): nat {
    if year == 0 then 0 else DaysBeforeYear(year - 1) + DaysInYear(year - 1)
  }

  function DaysBeforeMonth(year: int, month: nat): nat {
    if month <= 1 then 0 else DaysBeforeMonth(year, month - 1) + DaysInMonth(year, month - 1)
  }

  /** Seconds elapsed since the start of year 0. */
  function Elapsed(u: Utc): int
    requires IsCalendar(u)
  {
    ((DaysBeforeYear(u.year) + DaysBeforeMonth(u.year, u.month) + u.day - 1) * 24 + u.hour) * 3600
    + u.minute * 60 + u.second
  }

  /** Field-by-field order, most significant first. */
  predicate Before(a: Utc, b: Utc) {
    || a.year < b.year
    || (a.year == b.year
        && (|| a.month < b.month
            || (a.month == b.month
                && (|| a.day < b.day
                    || (a.day == b.day
                        && (|| a.hour < b.hour
                            || (a.hour == b.hour
                                && (|| a.minute < b.minute
                                    || (a.minute == b.minute && a.second < b.second)))))))))
  }

  lemma {:induction false} YearsAccumulate(a: nat, b: nat)
    requires a < b
    ensures DaysBeforeYear(a) + DaysInYear(a) <= DaysBeforeYear(b)
  {
    if a + 1 < b { YearsAccumulate(a, b - 1); }
  }

  lemma {:induction false} MonthsAccumulate(year: int, a: nat, b: nat)
    requires 1 <= a < b
    ensures DaysBeforeMonth(year, a) + DaysInMonth(year, a) <= DaysBeforeMonth(year, b)
  {
    if a + 1 < b { MonthsAccumulate(year, a, b - 1); }
  }

  lemma TwelveMonthsMakeAYear(year: int)
    ensures DaysBeforeMonth(year, 13) == DaysInYear(year)
  {
    assert DaysBeforeMonth(year, 2) == 31;
    assert DaysBeforeMonth(year, 3) == 31 + DaysInMonth(year, 2);
    assert DaysBeforeMonth(year, 5) == DaysBeforeMonth(year, 3) + 61;
    assert DaysBeforeMonth(year, 7) == DaysBeforeMonth(year, 5) + 61;
    assert DaysBeforeMonth(year, 9) == DaysBeforeMonth(year, 7) + 62;
    assert DaysBeforeMonth(year, 11) == DaysBeforeMonth(year, 9) + 61;
    assert DaysBeforeMonth(year, 13) == DaysBeforeMonth(year, 11) + 61;
  }

  lemma BeforeElapsesLess(a: Utc, b: Utc)
    requires IsCalendar(a) && IsCalendar(b) && Before(a, b)
    ensures Elapsed(a) < Elapsed(b)
  {
    if a.year < b.year {
      YearsAccumulate(a.year, b.year);
      MonthsAccumulate(a.year, a.month, 13);
      TwelveMonthsMakeAYear(a.year);
    } else if a.month < b.month {
      MonthsAccumulate(a.year, a.month, b.month);
    }
  }

  // ---------------------------------------------------------------- canonical text

  function Digit(d: int): (c: char)
    requires 0 <= d < 10
    ensures '0' <= c <= '9' && c as int == '0' as int + d
  {
    ('0' as int + d) as char
  }

  function Pad2(n: int): (s: string)
    requires 0 <= n < 100
    ensures |s| == 2
  {
    [Digit(n / 10), Digit(n % 10)]
  }

  function Pad4(n: int): (s: string)
    requires 0 <= n < 10000
    ensures |s| == 4
  {
    Pad2(n / 100) + Pad2(n % 100)
  }

  /** The positional form `YYYY-MM-DDTHH:MM:SSZ`. */
  function FormatUtc(u: Utc): string
    requires IsCalendar(u)
  {
    Pad4(u.year) + ("-" + (Pad2(u.month) + ("-" + (Pad2(u.day) + ("T" + (Pad2(u.hour)
    + (":" + (Pad2(u.minute) + (":" + (Pad2(u.second) + "Z"))))))))))
  }

  predicate IsDigit(c: char) { '0' <= c <= '9' }

  /** The positional byte gate: digits and separators, not calendar validity. */
  predicate IsCanonicalUtc(v: string) {
    && |v| == 20
    && IsDigit(v[0]) && IsDigit(v[1]) && IsDigit(v[2]) && IsDigit(v[3])
    && v[4] == '-' && IsDigit(v[5]) && IsDigit(v[6])
    && v[7] == '-' && IsDigit(v[8]) && IsDigit(v[9])
    && v[10] == 'T' && IsDigit(v[11]) && IsDigit(v[12])
    && v[13] == ':' && IsDigit(v[14]) && IsDigit(v[15])
    && v[16] == ':' && IsDigit(v[17]) && IsDigit(v[18])
    && v[19] == 'Z'
  }

  /** What the gateway clock prints always passes the gate the keyring applies to `now`. */
  lemma FormatIsCanonical(u: Utc)
    requires IsCalendar(u)
    ensures IsCanonicalUtc(FormatUtc(u))
  {
  }

  lemma Pad2Order(a: int, b: int)
    requires 0 <= a < 100 && 0 <= b < 100
    ensures Text.Less(Pad2(a), Pad2(b)) <==> a < b
    ensures Pad2(a) == Pad2(b) <==> a == b
  {
    var p, q := Pad2(a), Pad2(b);
    assert p[1..] == [Digit(a % 10)] && q[1..] == [Digit(b % 10)];
    assert Text.Less(p[1..], q[1..]) <==> a % 10 < b % 10 by {
      assert p[1..][1..] == "" && q[1..][1..] == "";
    }
    assert p == q <==> p[0] == q[0] && p[1] == q[1];
  }

  lemma Pad4Order(a: int, b: int)
    requires 0 <= a < 10000 && 0 <= b < 10000
    ensures Text.Less(Pad4(a), Pad4(b)) <==> a < b
    ensures Pad4(a) == Pad4(b) <==> a == b
  {
    Pad2Order(a / 100, b / 100);
    Pad2Order(a % 100, b % 100);
    Text.LessOfConcat(Pad2(a / 100), Pad2(b / 100), Pad2(a % 100), Pad2(b % 100));
    assert Pad4(a)[..2] == Pad2(a / 100) && Pad4(b)[..2] == Pad2(b / 100);
    assert Pad4(a)[2..] == Pad2(a % 100) && Pad4(b)[2..] == Pad2(b % 100);
  }

  lemma SeparatorOrder(sep: string, a: string, b: string)
    ensures Text.Less(sep + a, sep + b) <==> Text.Less(a, b)
  {
    Text.LessOfConcat(sep, sep, a, b);
    Text.LessIrreflexive(sep);
  }

  /** One printed field: it decides unless it ties, and then the rest does. */
  lemma FieldOrder(m: int, n: int, sep: string, a: string, b: string)
    requires 0 <= m < 100 && 0 <= n < 100
    ensures Text.Less(Pad2(m) + (sep + a), Pad2(n) + (sep + b)) <==> m < n || (m == n && Text.Less(a, b))
  {
    Text.LessOfConcat(Pad2(m), Pad2(n), sep + a, sep + b);
    Pad2Order(m, n);
    SeparatorOrder(sep, a, b);
  }

  lemma TextOrderIsFieldOrder(a: Utc, b: Utc)
    requires IsCalendar(a) && IsCalendar(b)
    ensures Text.Less(FormatUtc(a), FormatUtc(b)) <==> Before(a, b)
  {
    Text.LessOfConcat(Pad2(a.second), Pad2(b.second), "Z", "Z");
    Pad2Order(a.second, b.second);
    Text.LessIrreflexive("Z");
    var a5, b5 := Pad2(a.second) + "Z", Pad2(b.second) + "Z";
    FieldOrder(a.minute, b.minute, ":", a5, b5);
    var a4, b4 := Pad2(a.minute) + (":" + a5), Pad2(b.minute) + (":" + b5);
    FieldOrder(a.hour, b.hour, ":", a4, b4);
    var a3, b3 := Pad2(a.hour) + (":" + a4), Pad2(b.hour) + (":" + b4);
    FieldOrder(a.day, b.day, "T", a3, b3);
    var a2, b2 := Pad2(a.day) + ("T" + a3), Pad2(b.day) + ("T" + b3);
    FieldOrder(a.month, b.month, "-", a2, b2);
    var a1, b1 := Pad2(a.month) + ("-" + a2), Pad2(b.month) + ("-" + b2);
    Text.LessOfConcat(Pad4(a.year), Pad4(b.year), "-" + a1, "-" + b1);
    Pad4Order(a.year, b.year);
    SeparatorOrder("-", a1, b1);
  }

  /**
    Lexical order of the canonical text is chronological order, for every pair of calendar
    seconds in years 0 to 9999; equal text means the same second.
   */
  lemma LexicalIsChronological(a: Utc, b: Utc)
    requires IsCalendar(a) && IsCalendar(b)
    ensures Text.Less(FormatUtc(a), FormatUtc(b)) <==> Elapsed(a) < Elapsed(b)
    ensures FormatUtc(a) == FormatUtc(b) <==> Elapsed(a) == Elapsed(b)
  {
    TextOrderIsFieldOrder(a, b);
    TextOrderIsFieldOrder(b, a);
    if Before(a, b) {
      BeforeElapsesLess(a, b);
    } else if Before(b, a) {
      BeforeElapsesLess(b, a);
    } else {
      assert a == b;
    }
    Text.LessIrreflexive(FormatUtc(a));
  }
}
