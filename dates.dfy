/** Calendar dates at minute resolution, the `'%d/%m/%Y %H:%M'` format the
    export uses for "Data ultima assegnazione", and whole elapsed days. */
module Dates {
  import opened Wrappers

  const NS_PER_MINUTE: nat := 60_000_000_000
  const NS_PER_DAY: nat := 86_400_000_000_000

  /** The range of pandas' int64 nanosecond values; the least one is also
      the NaT sentinel. */
  const INT64_MIN: int := -0x8000_0000_0000_0000
  const INT64_MAX: int := 0x7FFF_FFFF_FFFF_FFFF

  /** A wall-clock date and time, as written in the export. */
  datatype DateTime = DateTime(day: nat, month: nat, year: nat, hour: nat, minute: nat)

  predicate IsLeap(y: nat) {
    y % 4 == 0 && (y % 100 != 0 || y % 400 == 0)
  }

  function DaysInMonth(y: nat, m: nat): (r: nat)
    requires 1 <= m <= 12
    ensures 28 <= r <= 31
  {
    if m == 2 then (if IsLeap(y) then 29 else 28)
    else if m == 4 || m == 6 || m == 9 || m == 11 then 30
    else 31
  }

  /** A date Python's `datetime` accepts (years 1 to 9999). */
  predicate IsCalendarDate(dt: DateTime) {
    && 1 <= dt.year <= 9999
    && 1 <= dt.month <= 12
    && 1 <= dt.day <= DaysInMonth(dt.year, dt.month)
    && dt.hour < 24
    && dt.minute < 60
  }

  /** Days from 0001-01-01 to the first day of year `y`. */
  function DaysBeforeYear(y: nat): int
    requires 1 <= y
  {
    var p := y - 1;
    365 * p + p / 4 - p / 100 + p / 400
  }

  /** Days from the first of January to the first day of month `m`. */
  function DaysBeforeMonth(y: nat, m: nat): nat
    requires 1 <= m <= 12
  {
    var cumulative := [0, 31, 59, 90, 120, 151, 181, 212, 243, 273, 304, 334];
    cumulative[m - 1] + if m > 2 && IsLeap(y) then 1 else 0
  }

  /** Minutes since 0001-01-01 00:00 (the proleptic Gregorian calendar, as
      Python's `datetime`); the time scale on which timestamps are compared
      and subtracted. */
  function ToMinutes(dt: DateTime): int
    requires IsCalendarDate(dt)
  {
    var days := DaysBeforeYear(dt.year) + DaysBeforeMonth(dt.year, dt.month) + dt.day - 1;
    days * 1440 + dt.hour * 60 + dt.minute
  }

  /** pandas stores a timestamp as nanoseconds in a signed 64-bit integer:
      1677-09-21 00:12:43.145224193 to 2262-04-11 23:47:16.854775807. At
      minute resolution the first and last representable instants are these. */
  const PANDAS_MIN: DateTime := DateTime(21, 9, 1677, 0, 13)
  const PANDAS_MAX: DateTime := DateTime(11, 4, 2262, 23, 47)

  /** A date `pd.to_datetime` turns into a timestamp rather than NaT. */
  predicate IsValid(dt: DateTime) {
    && IsCalendarDate(dt)
    && ToMinutes(PANDAS_MIN) <= ToMinutes(dt) <= ToMinutes(PANDAS_MAX)
  }

  /** A pandas timestamp: a valid date inside pandas' range. */
  type Timestamp = dt: DateTime | IsValid(dt) witness PANDAS_MIN

  predicate IsDigit(c: char) {
    '0' <= c <= '9'
  }

  function DigitValue(c: char): nat
    requires IsDigit(c)
  {
    c as int - '0' as int
  }

  function DigitChar(n: nat): (c: char)
    requires n < 10
    ensures IsDigit(c) && DigitValue(c) == n
  {
    ('0' as int + n) as char
  }

  /** `n` written with exactly two digits, as strftime's `%d`, `%m`, `%H`, `%M`. */
  function Pad2(n: nat): (r: string)
    requires n < 100
    ensures |r| == 2 && IsDigit(r[0]) && IsDigit(r[1])
    ensures 10 * DigitValue(r[0]) + DigitValue(r[1]) == n
  {
    [DigitChar(n / 10), DigitChar(n % 10)]
  }

  /** `n` written with exactly four digits, as strftime's `%Y` for years 1000 to 9999. */
  function Pad4(n: nat): (r: string)
    requires n < 10000
    ensures |r| == 4 && r[0..2] == Pad2(n / 100) && r[2..4] == Pad2(n % 100)
  {
    Pad2(n / 100) + Pad2(n % 100)
  }

  /** `dt.strftime('%d/%m/%Y %H:%M')`. */
  function Format(dt: DateTime): (r: string)
    requires IsCalendarDate(dt)
    ensures |r| == 16
  {
    Pad2(dt.day) + "/" + Pad2(dt.month) + "/" + Pad4(dt.year) + " " + Pad2(dt.hour) + ":" + Pad2(dt.minute)
  }

  /** The export's fixed layout `dd/mm/YYYY HH:MM`: digits and separators in place. */
  predicate HasLayout(s: string) {
    && |s| == 16
    && s[2] == '/' && s[5] == '/' && s[10] == ' ' && s[13] == ':'
    && forall k :: k in {0, 1, 3, 4, 6, 7, 8, 9, 11, 12, 14, 15} ==> IsDigit(s[k])
  }

  function TwoDigits(s: string, i: nat): nat
    requires i + 2 <= |s| && IsDigit(s[i]) && IsDigit(s[i + 1])
  {
    10 * DigitValue(s[i]) + DigitValue(s[i + 1])
  }

  /** The day, month, year, hour and minute written in a well-laid-out string. */
  function Fields(s: string): DateTime
    requires HasLayout(s)
  {
    assert IsDigit(s[0]) && IsDigit(s[1]) && IsDigit(s[3]) && IsDigit(s[4]);
    assert IsDigit(s[6]) && IsDigit(s[7]) && IsDigit(s[8]) && IsDigit(s[9]);
    assert IsDigit(s[11]) && IsDigit(s[12]) && IsDigit(s[14]) && IsDigit(s[15]);
    DateTime(TwoDigits(s, 0), TwoDigits(s, 3), 100 * TwoDigits(s, 6) + TwoDigits(s, 8), TwoDigits(s, 11), TwoDigits(s, 14))
  }

  /** `pd.to_datetime(s, format='%d/%m/%Y %H:%M', errors='coerce')`: the date,
      or None (NaT) when the text does not have the layout, names a day that
      does not exist, or falls outside pandas' timestamp range. */
  function Parse(s: string): (r: Option<Timestamp>)
    ensures r.Some? ==> Format(r.value) == s
    ensures !HasLayout(s) ==> r.None?
  {
    if !HasLayout(s) then None
    else
      var dt := Fields(s);
      if IsValid(dt) then
        FormatOfLayout(s, dt);
        Some(dt)
      else
        None
  }

  /** Formatting the fields read from a well-laid-out string gives the string back. */
  lemma FormatOfLayout(s: string, dt: DateTime)
    requires HasLayout(s) && IsCalendarDate(dt) && dt == Fields(s)
    ensures Format(dt) == s
  {
    assert IsDigit(s[0]) && IsDigit(s[1]) && IsDigit(s[3]) && IsDigit(s[4]);
    assert IsDigit(s[6]) && IsDigit(s[7]) && IsDigit(s[8]) && IsDigit(s[9]);
    assert IsDigit(s[11]) && IsDigit(s[12]) && IsDigit(s[14]) && IsDigit(s[15]);
    var y := Pad4(dt.year);
    assert dt.year / 100 == TwoDigits(s, 6) && dt.year % 100 == TwoDigits(s, 8);
    DigitsDetermined(Pad2(dt.day), s[0..2]);
    DigitsDetermined(Pad2(dt.month), s[3..5]);
    DigitsDetermined(y[0..2], s[6..8]);
    DigitsDetermined(y[2..4], s[8..10]);
    DigitsDetermined(Pad2(dt.hour), s[11..13]);
    DigitsDetermined(Pad2(dt.minute), s[14..16]);
    assert y == s[6..10] by {
      assert y == y[0..2] + y[2..4];
      assert s[6..10] == s[6..8] + s[8..10];
    }
    assert s == s[0..2] + "/" + s[3..5] + "/" + s[6..10] + " " + s[11..13] + ":" + s[14..16];
  }

  /** Two two-digit strings with the same value are equal. */
  lemma DigitsDetermined(a: string, b: string)
    requires |a| == 2 && |b| == 2
    requires IsDigit(a[0]) && IsDigit(a[1]) && IsDigit(b[0]) && IsDigit(b[1])
    requires 10 * DigitValue(a[0]) + DigitValue(a[1]) == 10 * DigitValue(b[0]) + DigitValue(b[1])
    ensures a == b
  {
  }

  /** A formatted date has the layout, and its fields are the date's own. */
  lemma FormatFields(dt: DateTime)
    requires IsCalendarDate(dt)
    ensures HasLayout(Format(dt)) && Fields(Format(dt)) == dt
  {
    var s := Format(dt);
    var d, m, y, h, mi := Pad2(dt.day), Pad2(dt.month), Pad4(dt.year), Pad2(dt.hour), Pad2(dt.minute);
    assert s == d + "/" + m + "/" + y + " " + h + ":" + mi;
    assert s[0..2] == d && s[3..5] == m && s[6..8] == y[0..2] && s[8..10] == y[2..4];
    assert s[11..13] == h && s[14..16] == mi;
    assert s[2] == '/' && s[5] == '/' && s[10] == ' ' && s[13] == ':';
    assert TwoDigits(s, 6) == dt.year / 100 && TwoDigits(s, 8) == dt.year % 100;
  }

  /** Parsing is the inverse of formatting: every valid timestamp written with
      strftime's `'%d/%m/%Y %H:%M'` reads back as itself. */
  lemma ParseFormat(dt: Timestamp)
    ensures Parse(Format(dt)) == Some(dt)
  {
    FormatFields(dt);
  }

  /** A date as pandas' int64 nanoseconds, counted from the origin of
      ToMinutes rather than 1970 (only differences of these are used). */
  function ToNanos(dt: DateTime): int
    requires IsCalendarDate(dt)
  {
    ToMinutes(dt) * NS_PER_MINUTE
  }

  /** `today - t` on a datetime64[ns] column is computed as `-(t - today)`,
      with an overflow check on the int64 difference `t - today`:
      pandas raises OverflowError when it leaves the int64 range. `now` is
      `datetime.now()` in nanoseconds on the scale of ToNanos. */
  predicate Overflows(now: int, t: Option<Timestamp>) {
    t.Some? && !(INT64_MIN <= ToNanos(t.value) - now <= INT64_MAX)
  }

  /** `(now - t).days`: whole days from `t` to `now`, rounded down (a
      timedelta's `days` is the floor, so a timestamp one minute in the future
      gives -1); 0 for NaT (`fillna(0)`). A difference `t - now` equal to the
      least int64 is the NaT sentinel itself, so it also gives 0. */
  function ElapsedDays(now: int, t: Option<Timestamp>): (r: int)
    requires !Overflows(now, t)
    ensures t.None? ==> r == 0
    ensures t.Some? && ToNanos(t.value) - now == INT64_MIN ==> r == 0
    ensures t.Some? && ToNanos(t.value) - now != INT64_MIN ==>
      r * NS_PER_DAY <= now - ToNanos(t.value) < (r + 1) * NS_PER_DAY
  {
    match t
    case None => 0
    case Some(dt) =>
      var d := ToNanos(dt) - now;
      if d == INT64_MIN then 0 else (-d) / NS_PER_DAY
  }
}
