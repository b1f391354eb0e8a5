/** .NET `DateTime` as its tick count, the proleptic Gregorian calendar it
    uses, and the strict `DateTime.ParseExact(s, "yyyy-MM-ddTHH",
    CultureInfo.InvariantCulture)` fallback parse. */
module Calendar {
  import opened Wrappers

  const TICKS_PER_HOUR: int := 36_000_000_000
  const TICKS_PER_DAY: int := 864_000_000_000
  /** Days from 0001-01-01 to 10000-01-01. */
  const DAYS_TO_10000: int := 3_652_059
  /** `DateTime.MaxValue.Ticks`. */
  const MAX_TICKS: int := DAYS_TO_10000 * TICKS_PER_DAY - 1

  type Ticks = t: int | 0 <= t <= MAX_TICKS

  /** A `DateTime`: 100-nanosecond ticks since 0001-01-01 00:00. Comparison
      with `<` compares ticks only, whatever the DateTimeKind. */
  datatype DateTime = DateTime(ticks: Ticks)

  /** The fields the "yyyy-MM-ddTHH" pattern fills in; minutes and seconds are 0. */
  datatype Stamp = Stamp(year: int, month: int, day: int, hour: int)

  predicate IsLeapYear(year: int) {
    year % 4 == 0 && (year % 100 != 0 || year % 400 == 0)
  }

  /** Days in the months before `month` (1..12) of a year. */
  function DaysToMonth(year: int, month: int): (n: int)
    requires 1 <= month <= 13
  {
    var table := if IsLeapYear(year)
      then [0, 31, 60, 91, 121, 152, 182, 213, 244, 274, 305, 335, 366]
      else [0, 31, 59, 90, 120, 151, 181, 212, 243, 273, 304, 334, 365];
    table[month - 1]
  }

  function DaysInMonth(year: int, month: int): (n: int)
    requires 1 <= month <= 12
    ensures 28 <= n <= 31
    ensures month == 2 ==> (n == 29 <==> IsLeapYear(year))
    ensures month == 4 || month == 6 || month == 9 || month == 11 ==> n == 30
    ensures month != 2 && month != 4 && month != 6 && month != 9 && month != 11 ==> n == 31
  {
    DaysToMonth(year, month + 1) - DaysToMonth(year, month)
  }

  /** The ranges `DateTime`'s constructor accepts. */
  predicate ValidStamp(st: Stamp) {
    && 1 <= st.year <= 9999
    && 1 <= st.month <= 12
    && 1 <= st.day <= DaysInMonth(st.year, st.month)
    && 0 <= st.hour <= 23
  }

  /** Days from 0001-01-01 to January 1st of `year`, by .NET's closed formula. */
  function DaysToYear(year: int): (n: int)
    requires year >= 1
  {
    var y := year - 1;
    y * 365 + y / 4 - y / 100 + y / 400
  }

  /** Consecutive years are a year's length apart. */
  lemma {:induction false} DaysToYearStep(year: int)
    requires year >= 1
    ensures DaysToYear(year + 1) == DaysToYear(year) + (if IsLeapYear(year) then 366 else 365)
  {
    var y := year - 1;
    assert (y + 1) / 4 == y / 4 + (if year % 4 == 0 then 1 else 0);
    assert (y + 1) / 100 == y / 100 + (if year % 100 == 0 then 1 else 0);
    assert (y + 1) / 400 == y / 400 + (if year % 400 == 0 then 1 else 0);
  }

  /** DaysToYear strictly increases, by at least 365 a year. */
  lemma {:induction false} DaysToYearMonotone(a: int, b: int)
    requires 1 <= a <= b
    ensures DaysToYear(a) + 365 * (b - a) <= DaysToYear(b)
    decreases b - a
  {
    if a < b {
      DaysToYearMonotone(a, b - 1);
      DaysToYearStep(b - 1);
    }
  }

  /** Days from 0001-01-01 to the stamp's date. */
  function DayNumber(st: Stamp): (n: int)
    requires ValidStamp(st)
  {
    DaysToYear(st.year) + DaysToMonth(st.year, st.month) + st.day - 1
  }

  /** The day number stays inside the year. */
  lemma {:induction false} DayNumberInYear(st: Stamp)
    requires ValidStamp(st)
    ensures DaysToYear(st.year) <= DayNumber(st) < DaysToYear(st.year + 1)
  {
    DaysToYearStep(st.year);
  }

  /** `DateToTicks(year, month, day) + TimeToTicks(hour, 0, 0)`. */
  function StampTicks(st: Stamp): (t: Ticks)
    requires ValidStamp(st)
  {
    DayNumberInYear(st);
    DaysToYearMonotone(st.year + 1, 10000);
    DayNumber(st) * TICKS_PER_DAY + st.hour * TICKS_PER_HOUR
  }

  /** Chronological order of stamps: by year, then month, day and hour. */
  predicate Before(a: Stamp, b: Stamp) {
    || a.year < b.year
    || (a.year == b.year && a.month < b.month)
    || (a.year == b.year && a.month == b.month && a.day < b.day)
    || (a.year == b.year && a.month == b.month && a.day == b.day && a.hour < b.hour)
  }

  /** Earlier dates have smaller day numbers. */
  lemma {:induction false} DayNumberOrder(a: Stamp, b: Stamp)
    requires ValidStamp(a) && ValidStamp(b)
    requires Before(a, b) && !(a.year == b.year && a.month == b.month && a.day == b.day)
    ensures DayNumber(a) < DayNumber(b)
  {
    if a.year < b.year {
      DayNumberInYear(a);
      DaysToYearMonotone(a.year + 1, b.year);
    } else if a.month < b.month {
      assert DaysToMonth(a.year, a.month + 1) <= DaysToMonth(a.year, b.month);
    }
  }

  /** The tick encoding is faithful to chronological order: one stamp has
      fewer ticks than another exactly when it is earlier. */
  lemma {:induction false} StampTicksOrder(a: Stamp, b: Stamp)
    requires ValidStamp(a) && ValidStamp(b)
    ensures StampTicks(a) < StampTicks(b) <==> Before(a, b)
  {
    if a.year == b.year && a.month == b.month && a.day == b.day {
    } else if Before(a, b) {
      DayNumberOrder(a, b);
    } else {
      DayNumberOrder(b, a);
    }
  }

  /** Two valid stamps with the same ticks are the same stamp. */
  lemma {:induction false} StampTicksInjective(a: Stamp, b: Stamp)
    requires ValidStamp(a) && ValidStamp(b)
    requires StampTicks(a) == StampTicks(b)
    ensures a == b
  {
    StampTicksOrder(a, b);
    StampTicksOrder(b, a);
  }

  // ---------------------------------------------------------------------------
  // The fixed-width text form
  // ---------------------------------------------------------------------------

  predicate IsDigit(ch: char) {
    '0' <= ch <= '9'
  }

  function DigitChar(d: int): (ch: char)
    requires 0 <= d <= 9
    ensures IsDigit(ch)
  {
    (d + '0' as int) as char
  }

  function DigitValue(ch: char): (d: int)
    requires IsDigit(ch)
    ensures 0 <= d <= 9
  {
    ch as int - '0' as int
  }

  /** Two decimal digits, zero-padded. */
  function Digits2(n: int): (s: string)
    requires 0 <= n <= 99
  {
    [DigitChar(n / 10), DigitChar(n % 10)]
  }

  /** Four decimal digits, zero-padded. */
  function Digits4(n: int): (s: string)
    requires 0 <= n <= 9999
  {
    Digits2(n / 100) + Digits2(n % 100)
  }

  /** `st.ToString("yyyy-MM-ddTHH", CultureInfo.InvariantCulture)`. */
  function Format(st: Stamp): (s: string)
    requires ValidStamp(st)
  {
    Digits4(st.year) + "-" + Digits2(st.month) + "-" + Digits2(st.day) + "T" + Digits2(st.hour)
  }

  /** The value of two digits at `s[i]`, `s[i + 1]`. */
  function Number2(s: string, i: nat): (n: int)
    requires i + 2 <= |s| && IsDigit(s[i]) && IsDigit(s[i + 1])
    ensures 0 <= n <= 99
  {
    10 * DigitValue(s[i]) + DigitValue(s[i + 1])
  }

  /** The value of four digits starting at `s[i]`. */
  function Number4(s: string, i: nat): (n: int)
    requires i + 4 <= |s| && forall j :: i <= j < i + 4 ==> IsDigit(s[j])
    ensures 0 <= n <= 9999
  {
    100 * Number2(s, i) + Number2(s, i + 2)
  }

  /** `s` has the shape of the pattern: 4 digits, '-', 2 digits, '-', 2
      digits, 'T', 2 digits, and nothing else. */
  predicate HasPatternShape(s: string) {
    && |s| == 13
    && (forall j :: 0 <= j < 4 ==> IsDigit(s[j]))
    && s[4] == '-' && IsDigit(s[5]) && IsDigit(s[6])
    && s[7] == '-' && IsDigit(s[8]) && IsDigit(s[9])
    && s[10] == 'T' && IsDigit(s[11]) && IsDigit(s[12])
  }

  /** `DateTime.ParseExact(s, "yyyy-MM-ddTHH", CultureInfo.InvariantCulture)`:
      the fields when `s` has the exact shape and they form a valid date and
      hour, `None` (a FormatException) otherwise. Only the text `Format`
      produces is accepted. */
  function ParseExact(s: string): (r: Option<Stamp>)
    ensures r.Some? ==> ValidStamp(r.value) && Format(r.value) == s
  {
    if HasPatternShape(s) then
      var st := Stamp(Number4(s, 0), Number2(s, 5), Number2(s, 8), Number2(s, 11));
      if ValidStamp(st) then
        FormatOfParsed(s);
        Some(st)
      else None
    else None
  }

  lemma {:induction false} Digits2Value(n: int)
    requires 0 <= n <= 99
    ensures Number2(Digits2(n), 0) == n
  {
  }

  lemma {:induction false} Number2Digits(s: string, i: nat)
    requires i + 2 <= |s| && IsDigit(s[i]) && IsDigit(s[i + 1])
    ensures Digits2(Number2(s, i)) == s[i..i + 2]
  {
    var a, b := DigitValue(s[i]), DigitValue(s[i + 1]);
    assert (10 * a + b) / 10 == a;
    assert (10 * a + b) % 10 == b;
  }

  /** The digits of a shaped string print back to the same string. */
  lemma {:induction false} FormatOfParsed(s: string)
    requires HasPatternShape(s)
    requires ValidStamp(Stamp(Number4(s, 0), Number2(s, 5), Number2(s, 8), Number2(s, 11)))
    ensures Format(Stamp(Number4(s, 0), Number2(s, 5), Number2(s, 8), Number2(s, 11))) == s
  {
    var hi, lo := Number2(s, 0), Number2(s, 2);
    assert (100 * hi + lo) / 100 == hi;
    assert (100 * hi + lo) % 100 == lo;
    Number2Digits(s, 0);
    Number2Digits(s, 2);
    Number2Digits(s, 5);
    Number2Digits(s, 8);
    Number2Digits(s, 11);
    assert s == s[0..2] + s[2..4] + "-" + s[5..7] + "-" + s[8..10] + "T" + s[11..13];
  }

  /** Round trip: every valid stamp, printed with the pattern, parses back to itself. */
  lemma {:induction false} ParseFormat(st: Stamp)
    requires ValidStamp(st)
    ensures ParseExact(Format(st)) == Some(st)
  {
    var s := Format(st);
    Digits2Value(st.year / 100);
    Digits2Value(st.year % 100);
    assert Number2(s, 0) == st.year / 100;
    assert Number2(s, 2) == st.year % 100;
    assert Number4(s, 0) == st.year;
    assert Number2(s, 5) == st.month;
    assert Number2(s, 8) == st.day;
    assert Number2(s, 11) == st.hour;
  }

  /** The strict parse fails exactly on the strings that are not the pattern
      form of a valid stamp. */
  lemma {:induction false} ParseExactFails(s: string)
    ensures ParseExact(s).None? <==> forall st :: ValidStamp(st) ==> Format(st) != s
  {
    if ParseExact(s).None? {
      forall st | ValidStamp(st) ensures Format(st) != s {
        ParseFormat(st);
      }
    }
  }

  /** The instant a stamp denotes. */
  function ToDateTime(st: Stamp): (d: DateTime)
    requires ValidStamp(st)
  {
    DateTime(StampTicks(st))
  }

  /** `expiryDate < currentDate`. */
  predicate IsExpired(expiry: DateTime, now: DateTime) {
    expiry.ticks < now.ticks
  }

  /** The expiry verdict on two parsed stamps follows the calendar: expired
      exactly when strictly earlier, never when the instants are equal. */
  lemma {:induction false} ExpiredIffEarlier(expiry: Stamp, now: Stamp)
    requires ValidStamp(expiry) && ValidStamp(now)
    ensures IsExpired(ToDateTime(expiry), ToDateTime(now)) <==> Before(expiry, now)
    ensures !IsExpired(ToDateTime(now), ToDateTime(now))
  {
    StampTicksOrder(expiry, now);
  }
}
