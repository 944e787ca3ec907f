/** `DateTimeFormatter.ISO_INSTANT` applied to a protobuf Timestamp: the proleptic
    Gregorian calendar in UTC, `YYYY-MM-DDTHH:MM:SS`, a fraction of 3, 6 or 9 digits
    only when the nanoseconds are non-zero, and a closing `Z` (the `date-time` form of
    section 5.6 of RFC 3339). A parser for that text proves the format loses nothing. */
module Instants {
  import opened Outcomes
  import opened JavaNumbers

  /** A protobuf `Timestamp`: seconds since 1970-01-01T00:00:00Z and a nanosecond part. */
  datatype Timestamp = Timestamp(seconds: int, nanos: int)

  /** 0001-01-01T00:00:00Z and 9999-12-31T23:59:59Z, the range protobuf allows. */
  const MIN_SECONDS := -62135596800
  const MAX_SECONDS := 253402300799
  const SECONDS_PER_DAY := 86400

  predicate ValidTimestamp(t: Timestamp) {
    MIN_SECONDS <= t.seconds <= MAX_SECONDS && 0 <= t.nanos <= 999_999_999
  }

  predicate IsLeapYear(y: int) {
    y % 4 == 0 && (y % 100 != 0 || y % 400 == 0)
  }

  function YearLength(y: int): (r: int) {
    if IsLeapYear(y) then 366 else 365
  }

  function MonthLength(y: int, m: int): (r: int)
    requires 1 <= m <= 12
  {
    if m == 2 then (if IsLeapYear(y) then 29 else 28)
    else if m == 4 || m == 6 || m == 9 || m == 11 then 30
    else 31
  }

  /** Days of year `y` that come before the first of month `m`. */
  function DaysBeforeMonth(y: int, m: int): (r: int)
    requires 1 <= m <= 12
  {
    [0, 31, 59, 90, 120, 151, 181, 212, 243, 273, 304, 334][m - 1]
      + (if m > 2 && IsLeapYear(y) then 1 else 0)
  }

  /** Days from 1970-01-01 to the first of January of year `y` (negative before 1970),
      counted in closed form: 365 a year plus one per leap year. */
  function DaysBeforeYear(y: int): (r: int) {
    var p := y - 1;
    365 * p + p / 4 - p / 100 + p / 400 - 719162
  }

  /** The day number (days since 1970-01-01) of a calendar date. */
  function EpochDay(y: int, m: int, d: int): (r: int)
    requires 1 <= m <= 12
  {
    DaysBeforeYear(y) + DaysBeforeMonth(y, m) + d - 1
  }

  /** Stepping a year forward adds one to `y / k` exactly when `k` divides the new year. */
  lemma QuotientStep(y: int, k: int)
    requires k == 4 || k == 100 || k == 400
    ensures y / k - (y - 1) / k == (if y % k == 0 then 1 else 0)
  {
    var q := y / k;
    var r := y % k;
    assert y == q * k + r && 0 <= r < k;
    if r == 0 {
      assert y - 1 == (q - 1) * k + (k - 1);
    } else {
      assert y - 1 == q * k + (r - 1);
    }
  }

  /** A multiple of 400 is a multiple of 100, and a multiple of 100 a multiple of 4. */
  lemma CenturyDivisibility(y: int)
    ensures y % 400 == 0 ==> y % 100 == 0
    ensures y % 100 == 0 ==> y % 4 == 0
  {
    if y % 400 == 0 {
      MultipleOfMultiple(y / 400, 4, 100);
      assert y == (y / 400) * (4 * 100);
    }
    if y % 100 == 0 {
      MultipleOfMultiple(y / 100, 25, 4);
      assert y == (y / 100) * (25 * 4);
    }
  }

  /** A multiple of `m * k` leaves no remainder by `k`. */
  lemma MultipleOfMultiple(q: int, m: nat, k: nat)
    requires 0 < k
    ensures (q * (m * k)) % k == 0
  {
    var n := q * m;
    assert q * (m * k) == n * k;
    var d, r := (n * k) / k, (n * k) % k;
    assert (n - d) * k == r && 0 <= r < k;
    ScaleAwayFromZero(n - d, k);
  }

  /** A nonzero integer times a positive one is at least that far from zero. */
  lemma ScaleAwayFromZero(a: int, k: int)
    requires k >= 0
    ensures a >= 1 ==> a * k >= k
    ensures a <= -1 ==> a * k <= -k
  {
    if a >= 1 {
      assert a * k == k + (a - 1) * k;
    } else if a <= -1 {
      assert a * k == -k + (a + 1) * k;
    }
  }

  lemma YearStep(y: int)
    ensures DaysBeforeYear(y + 1) == DaysBeforeYear(y) + YearLength(y)
  {
    QuotientStep(y, 4);
    QuotientStep(y, 100);
    QuotientStep(y, 400);
    CenturyDivisibility(y);
  }

  lemma {:induction false} DaysBeforeYearMonotone(a: int, b: int)
    requires a <= b
    ensures DaysBeforeYear(a) <= DaysBeforeYear(b)
    decreases b - a
  {
    if a < b {
      YearStep(a);
      DaysBeforeYearMonotone(a + 1, b);
    }
  }

  /** Walks whole years from `y` until `d` days after its first of January falls
      inside one year; gives that year and the day within it. */
  function YearAndDay(y: int, d: int): (r: (int, int))
    ensures 0 <= r.1 < YearLength(r.0)
    ensures DaysBeforeYear(r.0) + r.1 == DaysBeforeYear(y) + d
    decreases if d < 0 then 1 else 0, if d < 0 then -d else d
  {
    if d < 0 then
      YearStep(y - 1);
      YearAndDay(y - 1, d + YearLength(y - 1))
    else if d >= YearLength(y) then
      YearStep(y);
      YearAndDay(y + 1, d - YearLength(y))
    else (y, d)
  }

  /** Walks whole months from `m` until day `d` (counted from the first of `m`) falls
      inside one month; gives that month and the day of the month (from 1). */
  function MonthAndDay(y: int, m: int, d: int): (r: (int, int))
    requires 1 <= m <= 12 && 0 <= d && DaysBeforeMonth(y, m) + d < YearLength(y)
    ensures 1 <= r.0 <= 12 && 1 <= r.1 <= MonthLength(y, r.0)
    ensures DaysBeforeMonth(y, r.0) + r.1 - 1 == DaysBeforeMonth(y, m) + d
    decreases 12 - m
  {
    if d >= MonthLength(y, m) then MonthAndDay(y, m + 1, d - MonthLength(y, m))
    else (m, d + 1)
  }

  /** A UTC calendar date and time of day, to the second. */
  datatype CivilTime = CivilTime(year: int, month: int, day: int, hour: int, minute: int, second: int)

  predicate ValidCivil(c: CivilTime) {
    1 <= c.month <= 12 && 1 <= c.day <= MonthLength(c.year, c.month)
    && 0 <= c.hour < 24 && 0 <= c.minute < 60 && 0 <= c.second < 60
  }

  /** The seconds since the epoch that a calendar time denotes. */
  function EpochSecond(c: CivilTime): (r: int)
    requires 1 <= c.month <= 12
  {
    EpochDay(c.year, c.month, c.day) * SECONDS_PER_DAY + c.hour * 3600 + c.minute * 60 + c.second
  }

  /** The calendar time of an epoch second (floor division, as `Math.floorDiv` does). */
  function CivilFromSeconds(seconds: int): (c: CivilTime)
    ensures ValidCivil(c)
    ensures EpochSecond(c) == seconds
  {
    var days := seconds / SECONDS_PER_DAY;
    var sod := seconds % SECONDS_PER_DAY;
    var (y, doy) := YearAndDay(1970, days);
    var (m, d) := MonthAndDay(y, 1, doy);
    assert EpochDay(y, m, d) == days;
    SplitSecondOfDay(sod);
    CivilTime(y, m, d, sod / 3600, sod % 3600 / 60, sod % 60)
  }

  /** A second of the day is its hours, minutes and seconds. */
  lemma SplitSecondOfDay(sod: int)
    requires 0 <= sod < SECONDS_PER_DAY
    ensures 0 <= sod / 3600 < 24 && 0 <= sod % 3600 / 60 < 60
    ensures sod / 3600 * 3600 + sod % 3600 / 60 * 60 + sod % 60 == sod
  {
  }

  /** Within protobuf's range the year has exactly four digits. */
  lemma YearInRange(seconds: int)
    requires MIN_SECONDS <= seconds <= MAX_SECONDS
    ensures 1 <= CivilFromSeconds(seconds).year <= 9999
  {
    var days := seconds / SECONDS_PER_DAY;
    var (y, doy) := YearAndDay(1970, days);
    assert CivilFromSeconds(seconds).year == y;
    assert DaysBeforeYear(y) <= days < DaysBeforeYear(y) + YearLength(y);
    YearStep(y);
    if y < 1 {
      DaysBeforeYearMonotone(y + 1, 1);
      assert false;
    }
    if y > 9999 {
      DaysBeforeYearMonotone(10000, y);
      assert false;
    }
  }

  /** The fraction `ISO_INSTANT` prints: nothing for whole seconds, otherwise a dot and
      the nanoseconds in the shortest of 3, 6 or 9 digits that loses no digit. */
  function Fraction(nanos: int): (f: string)
    requires 0 <= nanos <= 999_999_999
    ensures f == "" <==> nanos == 0
    ensures |f| in {0, 4, 7, 10}
  {
    if nanos == 0 then ""
    else if nanos % 1_000_000 == 0 then "." + ZeroPad(nanos / 1_000_000, 3)
    else if nanos % 1000 == 0 then "." + ZeroPad(nanos / 1000, 6)
    else "." + ZeroPad(nanos, 9)
  }

  /** `YYYY-MM-DDTHH:MM:SS`, each field zero-padded. */
  function DateTimeText(c: CivilTime): (s: string)
    requires ValidCivil(c) && 1 <= c.year <= 9999
    ensures |s| == 19
  {
    ZeroPad(c.year, 4) + "-" + ZeroPad(c.month, 2) + "-" + ZeroPad(c.day, 2) + "T"
      + ZeroPad(c.hour, 2) + ":" + ZeroPad(c.minute, 2) + ":" + ZeroPad(c.second, 2)
  }

  /** `DateTimeFormatter.ISO_INSTANT.withZone(UTC).format(Instant.ofEpochSecond(s, n))`. */
  function ConvertTimestampToUTCString(t: Timestamp): (s: string)
    requires ValidTimestamp(t)
    ensures |s| == 20 + |Fraction(t.nanos)|
    ensures s[10] == 'T' && s[|s| - 1] == 'Z'
  {
    var c := CivilFromSeconds(t.seconds);
    YearInRange(t.seconds);
    DateTimeText(c) + Fraction(t.nanos) + "Z"
  }

  /** Reads a fraction back into nanoseconds: empty, or a dot and 3, 6 or 9 digits. */
  function ParseFraction(f: string): (r: Option<int>) {
    if f == [] then Some(0)
    else if f[0] != '.' || !AllDigits(f[1..]) then None
    else if |f| == 4 then Some(DigitsValue(f[1..]) * 1_000_000)
    else if |f| == 7 then Some(DigitsValue(f[1..]) * 1000)
    else if |f| == 10 then Some(DigitsValue(f[1..]))
    else None
  }

  /** Reads `YYYY-MM-DDTHH:MM:SS` back into a calendar time. */
  function ParseDateTime(h: string): (r: Option<CivilTime>)
    requires |h| == 19
  {
    if h[4] != '-' || h[7] != '-' || h[10] != 'T' || h[13] != ':' || h[16] != ':' then None
    else if !AllDigits(h[0..4]) || !AllDigits(h[5..7]) || !AllDigits(h[8..10])
         || !AllDigits(h[11..13]) || !AllDigits(h[14..16]) || !AllDigits(h[17..19])
    then None
    else
      var month := DigitsValue(h[5..7]);
      if month < 1 || month > 12 then None
      else Some(CivilTime(DigitsValue(h[0..4]), month, DigitsValue(h[8..10]),
                          DigitsValue(h[11..13]), DigitsValue(h[14..16]), DigitsValue(h[17..19])))
  }

  /** Reads `YYYY-MM-DDTHH:MM:SS[.fff[fff[fff]]]Z` back into a Timestamp. */
  function ParseInstant(s: string): (r: Option<Timestamp>) {
    if |s| < 20 || s[|s| - 1] != 'Z' then None
    else
      match ParseDateTime(s[..19])
      case None => None
      case Some(c) =>
        match ParseFraction(s[19..|s| - 1])
        case None => None
        case Some(nanos) => Some(Timestamp(EpochSecond(c), nanos))
  }

  lemma DateTimeRoundTrip(c: CivilTime)
    requires ValidCivil(c) && 1 <= c.year <= 9999
    ensures ParseDateTime(DateTimeText(c)) == Some(c)
  {
    var h := DateTimeText(c);
    assert h[0..4] == ZeroPad(c.year, 4);
    assert h[5..7] == ZeroPad(c.month, 2);
    assert h[8..10] == ZeroPad(c.day, 2);
    assert h[11..13] == ZeroPad(c.hour, 2);
    assert h[14..16] == ZeroPad(c.minute, 2);
    assert h[17..19] == ZeroPad(c.second, 2);
    DigitsValueZeroPad(c.year, 4);
    DigitsValueZeroPad(c.month, 2);
    DigitsValueZeroPad(c.day, 2);
    DigitsValueZeroPad(c.hour, 2);
    DigitsValueZeroPad(c.minute, 2);
    DigitsValueZeroPad(c.second, 2);
  }

  lemma FractionRoundTrip(nanos: int)
    requires 0 <= nanos <= 999_999_999
    ensures ParseFraction(Fraction(nanos)) == Some(nanos)
  {
    if nanos != 0 {
      if nanos % 1_000_000 == 0 {
        MillisFractionRoundTrip(nanos);
      } else if nanos % 1000 == 0 {
        MicrosFractionRoundTrip(nanos);
      } else {
        NanosFractionRoundTrip(nanos);
      }
    }
  }

  lemma MillisFractionRoundTrip(nanos: int)
    requires 0 < nanos <= 999_999_999 && nanos % 1_000_000 == 0
    ensures ParseFraction(Fraction(nanos)) == Some(nanos)
  {
    var q := nanos / 1_000_000;
    assert q * 1_000_000 == nanos && q < 1000 == Pow10(3);
    DigitsValueZeroPad(q, 3);
    var f := Fraction(nanos);
    assert f == "." + ZeroPad(q, 3);
    assert f[1..] == ZeroPad(q, 3);
  }

  lemma MicrosFractionRoundTrip(nanos: int)
    requires 0 < nanos <= 999_999_999 && nanos % 1_000_000 != 0 && nanos % 1000 == 0
    ensures ParseFraction(Fraction(nanos)) == Some(nanos)
  {
    var q := nanos / 1000;
    assert q * 1000 == nanos && q < 1_000_000 == Pow10(6);
    DigitsValueZeroPad(q, 6);
    var f := Fraction(nanos);
    assert f == "." + ZeroPad(q, 6);
    assert f[1..] == ZeroPad(q, 6);
  }

  lemma NanosFractionRoundTrip(nanos: int)
    requires 0 < nanos <= 999_999_999 && nanos % 1_000_000 != 0 && nanos % 1000 != 0
    ensures ParseFraction(Fraction(nanos)) == Some(nanos)
  {
    assert nanos < 1_000_000_000 == Pow10(9);
    DigitsValueZeroPad(nanos, 9);
    var f := Fraction(nanos);
    assert f == "." + ZeroPad(nanos, 9);
    assert f[1..] == ZeroPad(nanos, 9);
  }

  /** The formatted instant denotes exactly the Timestamp it was made from. */
  lemma InstantRoundTrip(t: Timestamp)
    requires ValidTimestamp(t)
    ensures ParseInstant(ConvertTimestampToUTCString(t)) == Some(t)
  {
    var c := CivilFromSeconds(t.seconds);
    YearInRange(t.seconds);
    var s := ConvertTimestampToUTCString(t);
    var h := DateTimeText(c);
    assert s == h + Fraction(t.nanos) + "Z";
    assert s[..19] == h;
    assert s[19..|s| - 1] == Fraction(t.nanos);
    DateTimeRoundTrip(c);
    FractionRoundTrip(t.nanos);
  }
}
