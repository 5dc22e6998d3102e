/**
 * Python's proleptic Gregorian `datetime` as far as the scripts use it:
 * dates in years 1..9999, times of day to the millisecond, adding a
 * duration, parsing fixed-width `%Y%m%d` / `%H%M%S` text, and rendering
 * `isoformat()` and `strftime('%Y-%m-%dT%H:%M:%SZ')`.
 *
 * An instant is the number of milliseconds since 0001-01-01T00:00:00.
 */
module Calendar {
  import opened Wrappers
  import opened Strings

  const MAX_YEAR: int := 9999
  const DAY_MS: int := 86400000

  predicate IsLeap(y: int) {
    y % 4 == 0 && (y % 100 != 0 || y % 400 == 0)
  }

  function DaysInYear(y: int): nat {
    if IsLeap(y) then 366 else 365
  }

  function DaysInMonth(y: int, m: int): nat
    requires 1 <= m <= 12
  {
    if m == 2 then (if IsLeap(y) then 29 else 28)
    else if m == 4 || m == 6 || m == 9 || m == 11 then 30
    else 31
  }

  /** Days from 0001-01-01 to January 1 of `y` (Python's `_days_before_year`). */
  function DaysBeforeYear(y: int): int
    requires y >= 1
  {
    var p := y - 1;
    p * 365 + p / 4 - p / 100 + p / 400
  }

  /** Days from January 1 to the first of month `m` (Python's `_days_before_month`). */
  function DaysBeforeMonth(y: int, m: int): nat
    requires 1 <= m <= 12
  {
    var table := [0, 31, 59, 90, 120, 151, 181, 212, 243, 273, 304, 334];
    table[m - 1] + (if m > 2 && IsLeap(y) then 1 else 0)
  }

  lemma DivStep(a: nat, k: nat)
    requires k == 4 || k == 100 || k == 400
    ensures (a + 1) / k == a / k + (if (a + 1) % k == 0 then 1 else 0)
  {
  }

  /** Consecutive years are a whole year apart. */
  lemma DaysBeforeYearStep(y: int)
    requires y >= 1
    ensures DaysBeforeYear(y + 1) == DaysBeforeYear(y) + DaysInYear(y)
  {
    var p := y - 1;
    DivStep(p, 4);
    DivStep(p, 100);
    DivStep(p, 400);
  }

  lemma {:induction false} DaysBeforeYearMono(a: int, b: int)
    requires 1 <= a < b
    ensures DaysBeforeYear(a + 1) <= DaysBeforeYear(b)
    decreases b - a
  {
    if a + 1 < b {
      DaysBeforeYearMono(a + 1, b);
      DaysBeforeYearStep(a + 1);
    }
  }

  /** Consecutive months are a whole month apart, and December ends the year. */
  lemma DaysBeforeMonthStep(y: int, m: int)
    requires 1 <= m <= 12
    ensures m < 12 ==> DaysBeforeMonth(y, m + 1) == DaysBeforeMonth(y, m) + DaysInMonth(y, m)
    ensures m == 12 ==> DaysBeforeMonth(y, m) + DaysInMonth(y, m) == DaysInYear(y)
  {
  }

  lemma {:induction false} DaysBeforeMonthMono(y: int, a: int, b: int)
    requires 1 <= a < b <= 12
    ensures DaysBeforeMonth(y, a) + DaysInMonth(y, a) <= DaysBeforeMonth(y, b)
    decreases b - a
  {
    DaysBeforeMonthStep(y, a);
    if a + 1 < b {
      DaysBeforeMonthMono(y, a + 1, b);
      DaysBeforeMonthStep(y, a + 1);
    }
  }

  predicate ValidDate(y: int, m: int, d: int) {
    1 <= y <= MAX_YEAR && 1 <= m <= 12 && 1 <= d <= DaysInMonth(y, m)
  }

  /** `date.toordinal()`: 0001-01-01 is day 1. */
  function Ordinal(y: int, m: int, d: int): int
    requires ValidDate(y, m, d)
  {
    DaysBeforeYear(y) + DaysBeforeMonth(y, m) + d
  }

  /** The ordinal of the day after the last representable one. */
  function OrdinalEnd(): int {
    DaysBeforeYear(MAX_YEAR + 1)
  }

  lemma OrdinalInYear(y: int, m: int, d: int)
    requires ValidDate(y, m, d)
    ensures DaysBeforeYear(y) < Ordinal(y, m, d) <= DaysBeforeYear(y + 1)
    ensures 1 <= Ordinal(y, m, d) <= OrdinalEnd()
  {
    DaysBeforeYearStep(y);
    DaysBeforeMonthStep(y, 12);
    if m < 12 {
      DaysBeforeMonthMono(y, m, 12);
    }
    if y < MAX_YEAR {
      DaysBeforeYearMono(y, MAX_YEAR + 1);
    }
  }

  /** The year holding ordinal `n`, searched upward from `y`. */
  function YearOf(n: int, y: int): (r: int)
    requires 1 <= y && DaysBeforeYear(y) < n
    ensures r >= y && DaysBeforeYear(r) < n <= DaysBeforeYear(r + 1)
    decreases n - DaysBeforeYear(y)
  {
    DaysBeforeYearStep(y);
    if n <= DaysBeforeYear(y + 1) then y else YearOf(n, y + 1)
  }

  /** The month holding day `k` (1-based) of year `y`, searched upward from `m`. */
  function MonthOf(y: int, k: int, m: int): (r: int)
    requires 1 <= m <= 12 && DaysBeforeMonth(y, m) < k <= DaysInYear(y)
    ensures m <= r <= 12 && DaysBeforeMonth(y, r) < k <= DaysBeforeMonth(y, r) + DaysInMonth(y, r)
    decreases 12 - m
  {
    DaysBeforeMonthStep(y, m);
    if m == 12 || k <= DaysBeforeMonth(y, m) + DaysInMonth(y, m) then m else MonthOf(y, k, m + 1)
  }

  datatype Date = Date(year: int, month: int, day: int)

  /** `date.fromordinal(n)`. */
  function FromOrdinal(n: int): (r: Date)
    requires 1 <= n <= OrdinalEnd()
    ensures ValidDate(r.year, r.month, r.day) && Ordinal(r.year, r.month, r.day) == n
  {
    var y := YearOf(n, 1);
    if y > MAX_YEAR then
      DaysBeforeYearMono(MAX_YEAR, y);
      assert false;
      Date(1, 1, 1)
    else
      DaysBeforeYearStep(y);
      var k := n - DaysBeforeYear(y);
      var m := MonthOf(y, k, 1);
      Date(y, m, k - DaysBeforeMonth(y, m))
  }

  /** Different valid dates have different ordinals. */
  lemma OrdinalInjective(a: Date, b: Date)
    requires ValidDate(a.year, a.month, a.day) && ValidDate(b.year, b.month, b.day)
    requires Ordinal(a.year, a.month, a.day) == Ordinal(b.year, b.month, b.day)
    ensures a == b
  {
    OrdinalInYear(a.year, a.month, a.day);
    OrdinalInYear(b.year, b.month, b.day);
    if a.year < b.year {
      DaysBeforeYearMono(a.year, b.year);
    } else if b.year < a.year {
      DaysBeforeYearMono(b.year, a.year);
    }
    if a.month < b.month {
      DaysBeforeMonthMono(a.year, a.month, b.month);
    } else if b.month < a.month {
      DaysBeforeMonthMono(a.year, b.month, a.month);
    }
  }

  /** `date.fromordinal(d.toordinal()) == d`. */
  lemma FromOrdinalOrdinal(d: Date)
    requires ValidDate(d.year, d.month, d.day)
    ensures 1 <= Ordinal(d.year, d.month, d.day) <= OrdinalEnd()
    ensures FromOrdinal(Ordinal(d.year, d.month, d.day)) == d
  {
    OrdinalInYear(d.year, d.month, d.day);
    OrdinalInjective(FromOrdinal(Ordinal(d.year, d.month, d.day)), d);
  }

  // -------------------------------------------------------------------
  // Date-times and instants
  // -------------------------------------------------------------------

  datatype DateTime = DateTime(date: Date, hour: int, minute: int, second: int, milli: int)

  predicate Valid(t: DateTime) {
    ValidDate(t.date.year, t.date.month, t.date.day)
    && 0 <= t.hour < 24 && 0 <= t.minute < 60 && 0 <= t.second < 60 && 0 <= t.milli < 1000
  }

  /** Milliseconds since midnight. */
  function TimeOfDay(t: DateTime): int {
    ((t.hour * 60 + t.minute) * 60 + t.second) * 1000 + t.milli
  }

  /** Milliseconds since 0001-01-01T00:00:00. */
  function Instant(t: DateTime): int
    requires Valid(t)
  {
    (Ordinal(t.date.year, t.date.month, t.date.day) - 1) * DAY_MS + TimeOfDay(t)
  }

  /** One past the last representable instant (the start of year 10000). */
  function InstantEnd(): int {
    OrdinalEnd() * DAY_MS
  }

  /** The clock reading `ms` milliseconds after midnight. */
  function Clock(date: Date, ms: int): (t: DateTime)
    requires 0 <= ms < DAY_MS
    ensures t.date == date && 0 <= t.hour < 24 && 0 <= t.minute < 60 && 0 <= t.second < 60 && 0 <= t.milli < 1000
    ensures TimeOfDay(t) == ms
  {
    var r1 := ms % 3600000;
    var r2 := r1 % 60000;
    DateTime(date, ms / 3600000, r1 / 60000, r2 / 1000, r2 % 1000)
  }

  /** Two clock readings with the same milliseconds since midnight are the same reading. */
  lemma TimeOfDayInjective(a: DateTime, b: DateTime)
    requires 0 <= a.hour < 24 && 0 <= a.minute < 60 && 0 <= a.second < 60 && 0 <= a.milli < 1000
    requires 0 <= b.hour < 24 && 0 <= b.minute < 60 && 0 <= b.second < 60 && 0 <= b.milli < 1000
    requires TimeOfDay(a) == TimeOfDay(b) && a.date == b.date
    ensures a == b
  {
    assert a.milli == TimeOfDay(a) % 1000 && b.milli == TimeOfDay(b) % 1000;
    assert a.second == TimeOfDay(a) / 1000 % 60 && b.second == TimeOfDay(b) / 1000 % 60;
    assert a.minute == TimeOfDay(a) / 60000 % 60 && b.minute == TimeOfDay(b) / 60000 % 60;
  }

  lemma DayBelow(n: int)
    requires 0 <= n < InstantEnd()
    ensures 0 <= n / DAY_MS < OrdinalEnd()
  {
    assert (n / DAY_MS) * DAY_MS <= n;
  }

  /** The date-time at an instant. */
  function FromInstant(n: int): (t: DateTime)
    requires 0 <= n < InstantEnd()
    ensures Valid(t) && Instant(t) == n
  {
    DayBelow(n);
    Clock(FromOrdinal(n / DAY_MS + 1), n % DAY_MS)
  }

  lemma InstantRange(t: DateTime)
    requires Valid(t)
    ensures 0 <= Instant(t) < InstantEnd()
    ensures Instant(t) / DAY_MS == Ordinal(t.date.year, t.date.month, t.date.day) - 1
    ensures Instant(t) % DAY_MS == TimeOfDay(t)
  {
    OrdinalInYear(t.date.year, t.date.month, t.date.day);
    var o := Ordinal(t.date.year, t.date.month, t.date.day);
    assert (o - 1) * DAY_MS + DAY_MS <= OrdinalEnd() * DAY_MS;
  }

  /** Every valid date-time is the date-time at its own instant. */
  lemma FromInstantInstant(t: DateTime)
    requires Valid(t)
    ensures 0 <= Instant(t) < InstantEnd()
    ensures FromInstant(Instant(t)) == t
  {
    InstantRange(t);
    FromOrdinalOrdinal(t.date);
    TimeOfDayInjective(FromInstant(Instant(t)), t);
  }

  /** `t + timedelta(milliseconds=ms)`, or `OverflowError` outside years 1..9999. */
  function Shift(t: DateTime, ms: int): (r: Result<DateTime>)
    requires Valid(t)
    ensures r.Ok? <==> 0 <= Instant(t) + ms < InstantEnd()
    ensures r.Err? ==> r.error == DateOutOfRange
    ensures r.Ok? ==> Valid(r.value) && Instant(r.value) == Instant(t) + ms
  {
    var n := Instant(t) + ms;
    if 0 <= n < InstantEnd() then Ok(FromInstant(n)) else Err(DateOutOfRange)
  }

  /** Adding nothing gives the same date-time back. */
  lemma ShiftZero(t: DateTime)
    requires Valid(t)
    ensures Shift(t, 0) == Ok(t)
  {
    FromInstantInstant(t);
  }

  /** Adding two durations one after the other is adding their sum. */
  lemma ShiftCompose(t: DateTime, a: int, b: int)
    requires Valid(t) && Shift(t, a).Ok?
    ensures Shift(Shift(t, a).value, b) == Shift(t, a + b)
  {
    var r := Shift(t, a).value;
    var x, y := Shift(r, b), Shift(t, a + b);
    if x.Ok? {
      InstantInjective(x.value, y.value);
    }
  }

  /** Adding a whole number of days keeps the time of day. */
  lemma ShiftDays(t: DateTime, days: int)
    requires Valid(t) && Shift(t, days * DAY_MS).Ok?
    ensures var r := Shift(t, days * DAY_MS).value;
            r.hour == t.hour && r.minute == t.minute && r.second == t.second && r.milli == t.milli
            && Ordinal(r.date.year, r.date.month, r.date.day) == Ordinal(t.date.year, t.date.month, t.date.day) + days
  {
    var r := Shift(t, days * DAY_MS).value;
    InstantRange(t);
    InstantRange(r);
    var d := Ordinal(r.date.year, r.date.month, r.date.day) - Ordinal(t.date.year, t.date.month, t.date.day) - days;
    assert d * DAY_MS == TimeOfDay(t) - TimeOfDay(r);
    assert d == 0;
    TimeOfDayInjective(r, t.(date := r.date));
  }
  /** Two valid date-times at the same instant are the same date-time. */
  lemma InstantInjective(a: DateTime, b: DateTime)
    requires Valid(a) && Valid(b) && Instant(a) == Instant(b)
    ensures a == b
  {
    FromInstantInstant(a);
    FromInstantInstant(b);
  }

  // -------------------------------------------------------------------
  // Rendering
  // -------------------------------------------------------------------

  /** `YYYY-MM-DD`. */
  function DateText(d: Date): string
    requires ValidDate(d.year, d.month, d.day)
  {
    ZeroPad(d.year, 4) + "-" + ZeroPad(d.month, 2) + "-" + ZeroPad(d.day, 2)
  }

  /** `HH:MM:SS`. */
  function ClockText(t: DateTime): string
    requires Valid(t)
  {
    ZeroPad(t.hour, 2) + ":" + ZeroPad(t.minute, 2) + ":" + ZeroPad(t.second, 2)
  }

  /** `strftime('%Y-%m-%dT%H:%M:%S')`, also numpy's text for a `datetime64[s]`. */
  function Stamp(t: DateTime): string
    requires Valid(t)
  {
    DateText(t.date) + "T" + ClockText(t)
  }

  /** `isoformat(sep='T', timespec='auto')`: microseconds are printed only when non-zero. */
  function Iso(t: DateTime): string
    requires Valid(t)
  {
    Stamp(t) + (if t.milli == 0 then "" else "." + ZeroPad(t.milli, 3) + "000")
  }

  /** A field of `w` digits at position `i` of `s` holding the value `v`. */
  predicate FieldIs(s: string, i: nat, w: nat, v: int) {
    i + w <= |s| && AllDigits(s[i..i + w]) && DigitsValue(s[i..i + w]) == v
  }

  /** A field keeps its value when text is put around it. */
  lemma FieldShift(p: string, x: string, r: string, i: nat, w: nat, v: int)
    requires FieldIs(x, i, w, v)
    ensures FieldIs(p + x + r, |p| + i, w, v)
  {
    assert (p + x + r)[|p| + i..|p| + i + w] == x[i..i + w];
  }

  /** Three padded numbers joined by single separators. */
  lemma ThreeFields(a: nat, wa: nat, s1: char, b: nat, s2: char, c: nat)
    requires wa >= 1 && a < Pow10(wa) && b < 100 && c < 100
    ensures var s := ZeroPad(a, wa) + [s1] + ZeroPad(b, 2) + [s2] + ZeroPad(c, 2);
            |s| == wa + 6 && s[wa] == s1 && s[wa + 3] == s2
            && FieldIs(s, 0, wa, a) && FieldIs(s, wa + 1, 2, b) && FieldIs(s, wa + 4, 2, c)
  {
    Pow10Values();
    ZeroPadWidth(a, wa);
    ZeroPadWidth(b, 2);
    ZeroPadWidth(c, 2);
    var s := ZeroPad(a, wa) + [s1] + ZeroPad(b, 2) + [s2] + ZeroPad(c, 2);
    assert s[0..wa] == ZeroPad(a, wa);
    assert s[wa + 1..wa + 3] == ZeroPad(b, 2);
    assert s[wa + 4..wa + 6] == ZeroPad(c, 2);
  }

  lemma Pow10Values()
    ensures Pow10(2) == 100 && Pow10(3) == 1000 && Pow10(4) == 10000
  {
  }

  /** The fields of `YYYY-MM-DDTHH:MM:SS`. */
  predicate StampLayout(s: string, t: DateTime) {
    |s| >= 19
    && s[4] == '-' && s[7] == '-' && s[10] == 'T' && s[13] == ':' && s[16] == ':'
    && FieldIs(s, 0, 4, t.date.year) && FieldIs(s, 5, 2, t.date.month) && FieldIs(s, 8, 2, t.date.day)
    && FieldIs(s, 11, 2, t.hour) && FieldIs(s, 14, 2, t.minute) && FieldIs(s, 17, 2, t.second)
  }

  lemma StampFields(t: DateTime, tail: string)
    requires Valid(t)
    ensures |Stamp(t)| == 19 && StampLayout(Stamp(t) + tail, t)
  {
    var dt := DateText(t.date);
    var ct := ClockText(t);
    DateTextFields(t.date);
    ClockTextFields(t);
    assert Stamp(t) + tail == dt + "T" + ct + tail;
    PartsLayout(dt, ct, tail, t);
  }

  /** The fields of `YYYY-MM-DD`. */
  predicate DateLayout(s: string, d: Date) {
    |s| == 10 && s[4] == '-' && s[7] == '-'
    && FieldIs(s, 0, 4, d.year) && FieldIs(s, 5, 2, d.month) && FieldIs(s, 8, 2, d.day)
  }

  /** The fields of `HH:MM:SS`. */
  predicate ClockLayout(s: string, t: DateTime) {
    |s| == 8 && s[2] == ':' && s[5] == ':'
    && FieldIs(s, 0, 2, t.hour) && FieldIs(s, 3, 2, t.minute) && FieldIs(s, 6, 2, t.second)
  }

  lemma DateTextFields(d: Date)
    requires ValidDate(d.year, d.month, d.day)
    ensures DateLayout(DateText(d), d)
  {
    Pow10Values();
    ThreeFields(d.year, 4, '-', d.month, '-', d.day);
  }

  lemma ClockTextFields(t: DateTime)
    requires Valid(t)
    ensures ClockLayout(ClockText(t), t)
  {
    Pow10Values();
    ThreeFields(t.hour, 2, ':', t.minute, ':', t.second);
  }

  /** A date text, a `T`, a clock text and anything after them. */
  lemma PartsLayout(dt: string, ct: string, tail: string, t: DateTime)
    requires DateLayout(dt, t.date) && ClockLayout(ct, t)
    ensures |dt + "T" + ct| == 19 && StampLayout(dt + "T" + ct + tail, t)
  {
    var rest := "T" + ct + tail;
    assert dt + "T" + ct + tail == dt + rest;
    FieldPrefix(dt, rest, 0, 4, t.date.year);
    FieldPrefix(dt, rest, 5, 2, t.date.month);
    FieldPrefix(dt, rest, 8, 2, t.date.day);
    FieldShift(dt + "T", ct, tail, 0, 2, t.hour);
    FieldShift(dt + "T", ct, tail, 3, 2, t.minute);
    FieldShift(dt + "T", ct, tail, 6, 2, t.second);
  }

  /** A field keeps its value when text is put after it. */
  lemma FieldPrefix(x: string, r: string, i: nat, w: nat, v: int)
    requires FieldIs(x, i, w, v)
    ensures FieldIs(x + r, i, w, v)
  {
    assert (x + r)[i..i + w] == x[i..i + w];
  }

  /**
   * The rendered text has the fixed layout `YYYY-MM-DDTHH:MM:SS` and
   * `.mmm000` after it exactly when there are milliseconds; each field
   * reads back as the value it was rendered from.
   */
  lemma IsoFields(t: DateTime)
    requires Valid(t)
    ensures var s := Iso(t);
            StampLayout(s, t)
            && |s| == (if t.milli == 0 then 19 else 26)
            && (t.milli != 0 ==> s[19] == '.' && FieldIs(s, 20, 3, t.milli) && s[23..] == "000")
  {
    var tail := if t.milli == 0 then "" else "." + ZeroPad(t.milli, 3) + "000";
    StampFields(t, tail);
    if t.milli != 0 {
      Pow10Values();
      ZeroPadWidth(t.milli, 3);
      var ms := ZeroPad(t.milli, 3);
      var s := Iso(t);
      assert s == (Stamp(t) + ".") + ms + "000";
      assert FieldIs(ms, 0, 3, t.milli) by { assert ms[0..3] == ms; }
      FieldShift(Stamp(t) + ".", ms, "000", 0, 3, t.milli);
    }
  }

  /** Different date-times are rendered differently. */
  lemma IsoInjective(a: DateTime, b: DateTime)
    requires Valid(a) && Valid(b) && Iso(a) == Iso(b)
    ensures a == b
  {
    IsoFields(a);
    IsoFields(b);
    var s := Iso(a);
    if a.milli != 0 || b.milli != 0 {
      assert a.milli != 0 && b.milli != 0;
    }
  }
  // -------------------------------------------------------------------
  // Parsing
  // -------------------------------------------------------------------

  /** `strftime('%Y%m%d')`. */
  function CompactDate(d: Date): string
    requires ValidDate(d.year, d.month, d.day)
  {
    ZeroPad(d.year, 4) + ZeroPad(d.month, 2) + ZeroPad(d.day, 2)
  }

  /** `strftime('%H%M%S')`. */
  function CompactClock(t: DateTime): string
    requires Valid(t)
  {
    ZeroPad(t.hour, 2) + ZeroPad(t.minute, 2) + ZeroPad(t.second, 2)
  }

  lemma DigitsSlice(s: string, a: nat, b: nat)
    requires a <= b <= |s| && AllDigits(s)
    ensures AllDigits(s[a..b])
  {
    forall i | 0 <= i < b - a ensures IsDigit(s[a..b][i]) {
      assert s[a..b][i] == s[a + i];
    }
  }

  lemma CompactSplit(s: string, a: nat, b: nat)
    requires 1 <= a && a + 2 <= b && b + 2 == |s| && AllDigits(s)
    ensures AllDigits(s[..a]) && AllDigits(s[a..b]) && AllDigits(s[b..])
    ensures ZeroPad(DigitsValue(s[..a]), a) + ZeroPad(DigitsValue(s[a..b]), b - a) + ZeroPad(DigitsValue(s[b..]), 2) == s
  {
    var x, y, z := s[..a], s[a..b], s[b..];
    DigitsSlice(s, 0, a);
    DigitsSlice(s, a, b);
    DigitsSlice(s, b, |s|);
    assert s[0..a] == x && s[b..|s|] == z;
    PadDigits(x);
    PadDigits(y);
    PadDigits(z);
    assert x + y + z == s;
  }

  /**
   * `stringToDateTime`: the date of an 8-digit `%Y%m%d` text combined
   * with the clock of a 6-digit `%H%M%S` text; `ValueError` for text
   * that is not such a valid date or time.
   */
  function StringToDateTime(date: string, time: string): (r: Result<DateTime>)
    ensures r.Ok? ==> Valid(r.value) && r.value.milli == 0
    ensures r.Ok? ==> CompactDate(r.value.date) == date && CompactClock(r.value) == time
    ensures r.Err? ==> r.error == BadDigits
  {
    if |date| == 8 && AllDigits(date) && |time| == 6 && AllDigits(time) then
      CompactSplit(date, 4, 6);
      CompactSplit(time, 2, 4);
      var y, m, d := DigitsValue(date[..4]), DigitsValue(date[4..6]), DigitsValue(date[6..]);
      var h, mi, sec := DigitsValue(time[..2]), DigitsValue(time[2..4]), DigitsValue(time[4..]);
      if ValidDate(y, m, d) && h < 24 && mi < 60 && sec < 60 then
        Ok(DateTime(Date(y, m, d), h, mi, sec, 0))
      else Err(BadDigits)
    else Err(BadDigits)
  }

  lemma PadSlices(a: nat, wa: nat, b: nat, c: nat)
    requires wa >= 1 && a < Pow10(wa) && b < 100 && c < 100
    ensures var s := ZeroPad(a, wa) + ZeroPad(b, 2) + ZeroPad(c, 2);
            |s| == wa + 4 && AllDigits(s)
            && s[..wa] == ZeroPad(a, wa) && s[wa..wa + 2] == ZeroPad(b, 2) && s[wa + 2..] == ZeroPad(c, 2)
  {
    Pow10Values();
    ZeroPadWidth(a, wa);
    ZeroPadWidth(b, 2);
    ZeroPadWidth(c, 2);
    var s := ZeroPad(a, wa) + ZeroPad(b, 2) + ZeroPad(c, 2);
    assert s[..wa] == ZeroPad(a, wa);
  }

  /** Every whole-second date-time is read back from its compact date and clock text. */
  lemma StringToDateTimeCompact(t: DateTime)
    requires Valid(t) && t.milli == 0
    ensures StringToDateTime(CompactDate(t.date), CompactClock(t)) == Ok(t)
  {
    Pow10Values();
    PadSlices(t.date.year, 4, t.date.month, t.date.day);
    PadSlices(t.hour, 2, t.minute, t.second);
  }

  // -------------------------------------------------------------------
  // Offsets from a date
  // -------------------------------------------------------------------

  /** `addDelta`: the ISO text of `t` moved by `ms` milliseconds. */
  function AddDelta(t: DateTime, ms: int): (r: Result<string>)
    requires Valid(t)
    ensures r.Ok? <==> 0 <= Instant(t) + ms < InstantEnd()
    ensures r.Err? ==> r.error == DateOutOfRange
    ensures r.Ok? ==> exists u :: Valid(u) && Instant(u) == Instant(t) + ms && r.value == Iso(u)
  {
    var u :- Shift(t, ms);
    Ok(Iso(u))
  }

  /** Moving by nothing renders the date-time itself. */
  lemma AddDeltaZero(t: DateTime)
    requires Valid(t)
    ensures AddDelta(t, 0) == Ok(Iso(t))
  {
    ShiftZero(t);
  }

  /** Two offsets give the same text exactly when they are the same offset. */
  lemma AddDeltaInjective(t: DateTime, a: int, b: int)
    requires Valid(t) && AddDelta(t, a).Ok? && AddDelta(t, b).Ok?
    ensures AddDelta(t, a) == AddDelta(t, b) <==> a == b
  {
    if AddDelta(t, a) == AddDelta(t, b) {
      IsoInjective(Shift(t, a).value, Shift(t, b).value);
    }
  }

  /** Midnight on January 1 of `year`. */
  function NewYear(year: int): (t: DateTime)
    requires 1 <= year <= MAX_YEAR
    ensures Valid(t) && Instant(t) == DaysBeforeYear(year) * DAY_MS
  {
    DateTime(Date(year, 1, 1), 0, 0, 0, 0)
  }

  /**
   * `get_iso_datetime` before rendering: January 1 of `year`, plus
   * `doy - 1` days, plus `ms` milliseconds. `datetime(year, 1, 1)`
   * raises `ValueError` for a year outside 1..9999; either addition
   * raises `OverflowError` when it leaves those years.
   */
  function GetDateTime(year: int, doy: int, ms: int): (r: Result<DateTime>)
    ensures r.Ok? <==> 1 <= year <= MAX_YEAR
                       && 0 <= DaysBeforeYear(year) * DAY_MS + (doy - 1) * DAY_MS < InstantEnd()
                       && 0 <= DaysBeforeYear(year) * DAY_MS + (doy - 1) * DAY_MS + ms < InstantEnd()
    ensures r.Err? ==> r.error == YearError(year)
    ensures r.Ok? ==> Valid(r.value) && Instant(r.value) == (DaysBeforeYear(year) + doy - 1) * DAY_MS + ms
  {
    if !(1 <= year <= MAX_YEAR) then Err(BadDate)
    else
      var date :- Shift(NewYear(year), (doy - 1) * DAY_MS);
      Shift(date, ms)
  }

  /** The failure of a date-time built from `year`: `ValueError` for a year `datetime` refuses, else `OverflowError`. */
  function YearError(year: int): Error {
    if 1 <= year <= MAX_YEAR then DateOutOfRange else BadDate
  }

  /** `get_iso_datetime`. */
  function GetIsoDatetime(year: int, doy: int, ms: int): (r: Result<string>)
    ensures r.Ok? <==> GetDateTime(year, doy, ms).Ok?
    ensures r.Ok? ==> r.value == Iso(GetDateTime(year, doy, ms).value)
  {
    var t :- GetDateTime(year, doy, ms);
    Ok(Iso(t))
  }

  /** A day of the year with a non-negative time is at or after the year's first instant. */
  lemma DayStartInRange(year: int, doy: int, ms: int)
    requires 1 <= year <= MAX_YEAR && 1 <= doy && 0 <= ms
    requires DaysBeforeYear(year) * DAY_MS + (doy - 1) * DAY_MS + ms < InstantEnd()
    ensures GetDateTime(year, doy, ms).Ok?
  {
    if year > 1 {
      DaysBeforeYearMono(1, year);
    }
  }

  /** A full day of milliseconds past midnight is the same time on the next day of the year. */
  lemma GetDateTimeNextDay(year: int, doy: int, ms: int)
    requires 1 <= doy && 0 <= ms && GetDateTime(year, doy + 1, ms).Ok?
    ensures GetDateTime(year, doy, ms + DAY_MS) == GetDateTime(year, doy + 1, ms)
  {
    var c := GetDateTime(year, doy + 1, ms);
    DayStartInRange(year, doy, ms + DAY_MS);
    var a := GetDateTime(year, doy, ms + DAY_MS);
    InstantInjective(a.value, c.value);
  }

  /** The day after the last day of a year is January 1 of the next. */
  lemma GetDateTimeYearEnd(year: int, ms: int)
    requires 0 <= ms && 1 <= year < MAX_YEAR && GetDateTime(year + 1, 1, ms).Ok?
    ensures GetDateTime(year, DaysInYear(year) + 1, ms) == GetDateTime(year + 1, 1, ms)
  {
    DaysBeforeYearStep(year);
    InstantInjective(GetDateTime(year, DaysInYear(year) + 1, ms).value, GetDateTime(year + 1, 1, ms).value);
  }
}
