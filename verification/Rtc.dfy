/** The devkit's clock: the calendar correction of one second, and what setting the
    sub-second shift and reading it back gives. */
module Rtc {
  import opened Bytes
  import opened Outcomes

  datatype DateTime = DateTime(year: u16, month: byte, day: byte, hour: byte, minute: byte, second: byte, ms: u16)

  // ---------- the Gregorian calendar ----------

  predicate IsLeap(year: nat) {
    year % 4 == 0 && (year % 100 != 0 || year % 400 == 0)
  }

  function MonthLen(year: nat, month: nat): nat
    requires 1 <= month <= 12
  {
    if month == 2 then (if IsLeap(year) then 29 else 28)
    else if month == 4 || month == 6 || month == 9 || month == 11 then 30
    else 31
  }

  /** Days of the year before `month`. */
  function DaysBeforeMonth(year: nat, month: nat): nat
    requires 1 <= month <= 13
  {
    if month == 1 then 0 else DaysBeforeMonth(year, month - 1) + MonthLen(year, month - 1)
  }

  function DaysBeforeYear(year: nat): nat {
    if year == 0 then 0 else DaysBeforeYear(year - 1) + DaysBeforeMonth(year - 1, 13)
  }

  predicate Valid(t: DateTime) {
    && 1 <= t.month <= 12 && 1 <= t.day <= MonthLen(t.year, t.month)
    && t.hour < 24 && t.minute < 60 && t.second < 60
  }

  function DayNumber(t: DateTime): nat
    requires Valid(t)
  {
    DaysBeforeYear(t.year) + DaysBeforeMonth(t.year, t.month) + t.day - 1
  }

  /** Seconds since the start of year 0. */
  function Seconds(t: DateTime): nat
    requires Valid(t)
  {
    DayNumber(t) * 86400 + t.hour * 3600 + t.minute * 60 + t.second
  }

  /** The multiples of `d` below `n`. */
  function Multiples(n: nat, d: nat): nat
    requires d > 0
  {
    if n == 0 then 0 else Multiples(n - 1, d) + if IsMultiple(n - 1, d) then 1 else 0
  }

  predicate IsMultiple(n: nat, d: nat)
    requires d > 0
  {
    n == 0 || (n >= d && IsMultiple(n - d, d))
  }

  lemma {:induction false} MultipleOf4(n: nat)
    ensures IsMultiple(n, 4) <==> n % 4 == 0
  {
    if n >= 4 {
      MultipleOf4(n - 4);
    }
  }

  lemma {:induction false} MultipleOf100(n: nat)
    ensures IsMultiple(n, 100) <==> n % 100 == 0
  {
    if n >= 100 {
      MultipleOf100(n - 100);
    }
  }

  lemma {:induction false} MultipleOf400(n: nat)
    ensures IsMultiple(n, 400) <==> n % 400 == 0
  {
    if n >= 400 {
      MultipleOf400(n - 400);
    }
  }

  /** A year has one day more when it is a fourth, but not every hundredth, but every
      four-hundredth. */
  lemma YearByMultiples(y: nat)
    ensures DaysBeforeMonth(y, 13) == 365
      + (if IsMultiple(y, 4) then 1 else 0) - (if IsMultiple(y, 100) then 1 else 0) + (if IsMultiple(y, 400) then 1 else 0)
  {
    YearLength(y);
    MultipleOf4(y);
    MultipleOf100(y);
    MultipleOf400(y);
    if y % 100 == 0 {
      HundredthIsFourth(y);
    }
    if y % 400 == 0 {
      FourHundredthIsHundredth(y);
    }
  }

  lemma HundredthIsFourth(y: nat)
    requires y % 100 == 0
    ensures y % 4 == 0
  {
    Fours(25 * (y / 100));
  }

  lemma Fours(k: nat)
    ensures 4 * k % 4 == 0
  {
  }

  lemma FourHundredthIsHundredth(y: nat)
    requires y % 400 == 0
    ensures y % 100 == 0
  {
    Hundreds(4 * (y / 400));
  }

  lemma Hundreds(k: nat)
    ensures 100 * k % 100 == 0
  {
  }

  /** 365 a year, and the leap days. */
  function DaysCounted(year: nat): int {
    365 * year + Multiples(year, 4) - Multiples(year, 100) + Multiples(year, 400)
  }

  lemma OneYearCounted(y: nat, days: int)
    requires days == 365
      + (if IsMultiple(y, 4) then 1 else 0) - (if IsMultiple(y, 100) then 1 else 0) + (if IsMultiple(y, 400) then 1 else 0)
    ensures DaysCounted(y + 1) == DaysCounted(y) + days
  {
  }

  /** The calendar's days, counted another way. */
  lemma {:induction false} DaysByMultiples(year: nat)
    ensures DaysBeforeYear(year) == DaysCounted(year)
  {
    if year > 0 {
      DaysByMultiples(year - 1);
      YearByMultiples(year - 1);
      OneYearCounted(year - 1, DaysBeforeMonth(year - 1, 13));
    }
  }

  /** Days before each month of a common year. */
  const BEFORE: seq<nat> := [0, 31, 59, 90, 120, 151, 181, 212, 243, 273, 304, 334, 365]

  lemma YearLength(year: nat)
    ensures DaysBeforeMonth(year, 13) == 365 + if IsLeap(year) then 1 else 0
  {
    DaysOfMonths(year, 13);
  }

  lemma {:induction false} DaysOfMonths(year: nat, month: nat)
    requires 1 <= month <= 13
    ensures DaysBeforeMonth(year, month) == BEFORE[month - 1] + if month > 2 && IsLeap(year) then 1 else 0
  {
    if month > 1 {
      DaysOfMonths(year, month - 1);
    }
  }

  lemma {:induction false} MonthsAdvance(year: nat, m: nat, n: nat)
    requires 1 <= m < n <= 13
    ensures DaysBeforeMonth(year, m) + MonthLen(year, m) <= DaysBeforeMonth(year, n)
  {
    if m + 1 < n {
      MonthsAdvance(year, m, n - 1);
    }
  }

  lemma {:induction false} YearsAdvance(y: nat, z: nat)
    requires y < z
    ensures DaysBeforeYear(y) + DaysBeforeMonth(y, 13) <= DaysBeforeYear(z)
  {
    if y + 1 < z {
      YearsAdvance(y, z - 1);
    }
  }

  lemma DayInYear(t: DateTime)
    requires Valid(t)
    ensures DaysBeforeYear(t.year) <= DayNumber(t) < DaysBeforeYear(t.year) + DaysBeforeMonth(t.year, 13)
  {
    MonthsAdvance(t.year, t.month, 13);
  }

  /** A day number names one date. */
  lemma DayNumberIsOneDate(a: DateTime, b: DateTime)
    requires Valid(a) && Valid(b) && DayNumber(a) == DayNumber(b)
    ensures a.year == b.year && a.month == b.month && a.day == b.day
  {
    DayInYear(a);
    DayInYear(b);
    if a.year < b.year {
      YearsAdvance(a.year, b.year);
    } else if b.year < a.year {
      YearsAdvance(b.year, a.year);
    } else if a.month < b.month {
      MonthsAdvance(a.year, a.month, b.month);
    } else if b.month < a.month {
      MonthsAdvance(a.year, b.month, a.month);
    }
  }

  /** A count of seconds names one date and time. */
  lemma SecondsIsOneTime(a: DateTime, b: DateTime)
    requires Valid(a) && Valid(b) && Seconds(a) == Seconds(b)
    ensures a.(ms := b.ms) == b
  {
    OneMixedRadix(DayNumber(a), a.hour, a.minute, a.second, DayNumber(b), b.hour, b.minute, b.second);
    DayNumberIsOneDate(a, b);
  }

  lemma OneMixedRadix(d: nat, h: nat, m: nat, s: nat, d': nat, h': nat, m': nat, s': nat)
    requires h < 24 && m < 60 && s < 60 && h' < 24 && m' < 60 && s' < 60
    requires d * 86400 + h * 3600 + m * 60 + s == d' * 86400 + h' * 3600 + m' * 60 + s'
    ensures d == d' && h == h' && m == m' && s == s'
  {
  }

  // ---------- one second back ----------

  const MONTH_DAYS: seq<byte> := [31, 28, 31, 30, 31, 30, 31, 31, 30, 31, 30, 31]

  /** `leap_year` of the code, which has no leap year 0. */
  predicate LeapYear(year: nat) {
    year > 0 && year % 4 == 0 && (year % 100 != 0 || year % 400 == 0)
  }

  /** Midnights of year 0 the code gets wrong: its first, and the one after 29 February. */
  predicate LostMidnight(t: DateTime) {
    t.year == 0 && t.day == 1 && (t.month == 1 || t.month == 3) && t.hour == 0 && t.minute == 0 && t.second == 0
  }

  ghost predicate IsSecondBefore(t: DateTime, r: DateTime)
    requires Valid(t)
  {
    Valid(r) && Seconds(r) + 1 == Seconds(t) && r.ms == t.ms
  }

  /** `decrement_one_second`: the valid date-time one second earlier, for every valid one
      but two. The month of an invalid reading wraps as a `u8` does. */
  method DecrementOneSecond(t: DateTime) returns (r: DateTime)
    ensures Valid(t) ==> (IsSecondBefore(t, r) <==> !LostMidnight(t))
    ensures LostMidnight(t) ==>
              r == if t.month == 1 then DateTime(0, 12, 31, 23, 59, 59, t.ms) else DateTime(0, 2, 28, 23, 59, 59, t.ms)
    ensures r.ms == t.ms
  {
    r := t;
    if r.second > 0 {
      r := r.(second := r.second - 1);
      return;
    }
    r := r.(second := 59);
    if r.minute > 0 {
      r := r.(minute := r.minute - 1);
      return;
    }
    r := r.(minute := 59);
    if r.hour > 0 {
      r := r.(hour := r.hour - 1);
      return;
    }
    r := r.(hour := 23);
    if r.day > 1 {
      r := r.(day := r.day - 1);
      return;
    }
    r := r.(month := (r.month + 255) % 256);
    if r.month == 0 {
      r := r.(month := 12);
      if r.year > 0 {
        r := r.(year := r.year - 1);
      }
    }
    r := r.(day := if r.month == 2 && LeapYear(r.year) then 29
                   else if 1 <= r.month <= 12 then MONTH_DAYS[r.month - 1]
                   else 0);
    if Valid(t) && t.day == 1 {
      PreviousDay(t, r);
    }
  }

  /** The last second of the day before the first of a month. */
  lemma PreviousDay(t: DateTime, r: DateTime)
    requires Valid(t) && t.day == 1 && t.hour == 0 && t.minute == 0 && t.second == 0
    requires r.month == (if t.month == 1 then 12 else t.month - 1)
    requires r.year == (if t.month == 1 && t.year > 0 then t.year - 1 else t.year)
    requires r.day == (if r.month == 2 && LeapYear(r.year) then 29 else MONTH_DAYS[r.month - 1])
    requires r.hour == 23 && r.minute == 59 && r.second == 59 && r.ms == t.ms
    ensures IsSecondBefore(t, r) <==> !LostMidnight(t)
  {
    assert MONTH_DAYS[r.month - 1] == if r.month == 2 then 28 else MonthLen(r.year, r.month);
    if t.month == 1 {
      if t.year == 0 {
        MonthsAdvance(0, 1, 12);
      } else {
        assert DaysBeforeMonth(r.year, 13) == DaysBeforeMonth(r.year, 12) + 31;
      }
    }
  }

  // ---------- the registers ----------

  /** The hardware calendar a second later; its year is two digits from 2000. */
  function AddSecond(t: DateTime): DateTime
    requires Valid(t)
  {
    if t.second < 59 then t.(second := t.second + 1)
    else if t.minute < 59 then t.(second := 0, minute := t.minute + 1)
    else if t.hour < 23 then t.(second := 0, minute := 0, hour := t.hour + 1)
    else if t.day < MonthLen(t.year, t.month) then t.(second := 0, minute := 0, hour := 0, day := t.day + 1)
    else if t.month < 12 then t.(second := 0, minute := 0, hour := 0, day := 1, month := t.month + 1)
    else t.(second := 0, minute := 0, hour := 0, day := 1, month := 1, year := if t.year == 2099 then 2000 else (t.year + 1) % 0x1_0000)
  }

  /** The last second the two-digit year can hold. */
  const LAST := DateTime(2099, 12, 31, 23, 59, 59, 0)

  lemma AddSecondIsNext(t: DateTime)
    requires Valid(t) && t.year <= 2099 && t.(ms := 0) != LAST
    ensures Valid(AddSecond(t)) && Seconds(AddSecond(t)) == Seconds(t) + 1
  {
    if t.second == 59 && t.minute == 59 && t.hour == 23 {
      MidnightIsNext(t);
    }
  }

  lemma MidnightIsNext(t: DateTime)
    requires Valid(t) && t.year <= 2099 && t.(ms := 0) != LAST && t.second == 59 && t.minute == 59 && t.hour == 23
    ensures Valid(AddSecond(t)) && DayNumber(AddSecond(t)) == DayNumber(t) + 1
  {
    if t.day == MonthLen(t.year, t.month) {
      if t.month == 12 {
        NewYear(t.year);
      } else {
        NewMonth(t.year, t.month);
      }
    }
  }

  lemma NewMonth(y: nat, m: nat)
    requires 1 <= m < 12
    ensures DaysBeforeMonth(y, m + 1) == DaysBeforeMonth(y, m) + MonthLen(y, m)
  {
  }

  lemma NewYear(y: nat)
    ensures DaysBeforeYear(y + 1) == DaysBeforeYear(y) + DaysBeforeMonth(y, 12) + 31
    ensures DaysBeforeMonth(y + 1, 1) == 0
  {
  }

  /** The synchronous prescaler, 15 bits. */
  type Prescaler = x: int | 0 <= x < 0x8000

  /** `adjust` of `set`, in `u32` arithmetic. */
  function Adjust(ms: u16, prediv: nat): u32 {
    (1000 * (prediv + 1) - ms * (prediv + 1)) % U32_LIMIT / 1000
  }

  /** The ticks the shift register takes from it: its field is 15 bits. */
  function Shift(ms: u16, prediv: nat): nat {
    Adjust(ms, prediv) % 0x8000
  }

  /** The down counter's distance to the second, in `u32` arithmetic. */
  function Elapsed(ss: nat, prediv: Prescaler): u32
  {
    if prediv < ss then (2 * prediv - ss) % U32_LIMIT else prediv - ss
  }

  /** `calculate_rtc_ms`, with a `u16` result. */
  function CalculateMs(ss: nat, prediv: Prescaler): u16
  {
    1000 * Elapsed(ss, prediv) % U32_LIMIT / (prediv + 1) % 0x1_0000
  }

  /** The fields the HAL checks one by one: it lets a 31 February through, from which the
      calendar's next second is not modelled. */
  predicate InRange(t: DateTime) {
    1 <= t.month <= 12 && 1 <= t.day <= 31 && t.hour < 24 && t.minute < 60 && t.second < 60
  }

  /** The RTC: calendar, sub-second down counter and its synchronous prescaler, and the backup register that says the clock has been set. */
  class Clock {
    var calendar: DateTime
    var ssr: nat
    var isSet: bool
    const prediv: Prescaler

    constructor (calendar: DateTime, prediv: Prescaler)
      ensures this.calendar == calendar && this.prediv == prediv && !isSet
    {
      this.calendar, this.ssr, this.isSet, this.prediv := calendar, prediv, false, prediv;
    }

    /** `Rtc::set`: loads the calendar, which resets `SSR`, then shifts a second forward and
        `adjust` ticks back. */
    method Set(t: DateTime) returns (ok: bool)
      modifies this
      ensures ok <==>
                && 2000 <= t.year <= 2099 && 1 <= t.month <= 12 && 1 <= t.day <= 31
                && t.hour < 24 && t.minute < 60 && t.second < 60
      ensures ok && Valid(t) ==> isSet && calendar == AddSecond(t).(ms := 0) && ssr == prediv + Shift(t.ms, prediv)
      ensures !ok ==> calendar == old(calendar) && ssr == old(ssr) && isSet == old(isSet)
    {
      if !(2000 <= t.year <= 2099) || !InRange(t) {
        return false;
      }
      calendar, ssr := t.(ms := 0), prediv;
      var pre := prediv + 1;
      var adjust := (1000 * pre - t.ms * pre) % U32_LIMIT / 1000;
      if Valid(calendar) {
        calendar := AddSecond(calendar);
      }
      ssr := ssr + adjust % 0x8000;
      isSet := true;
      return true;
    }

    /** The loop of `get`: reads the calendar until two readings in a row agree. `shown` is what
        the ticking registers show at each read; the code goes on for ever if none agree. */
    method Settle(shown: seq<DateTime>) returns (r: Option<DateTime>)
      ensures r.None? <==> forall i :: 0 <= i < |shown| ==> !Agrees(shown, i)
      ensures r.Some? ==> Settled(shown, r.value)
    {
      for i := 0 to |shown|
        invariant forall j :: 0 <= j < i ==> !Agrees(shown, j)
      {
        if i > 0 && shown[i] == shown[i - 1] {
          assert Agrees(shown, i);
          return Some(shown[i]);
        }
      }
      return None;
    }

    /** `Rtc::get`, with `ssr` read once the calendar has settled on `seen`. */
    method Get(shown: seq<DateTime>) returns (r: Option<DateTime>, ghost seen: DateTime)
      ensures r.Some? <==> isSet && exists i :: 0 <= i < |shown| && Agrees(shown, i)
      ensures r.Some? ==> Settled(shown, seen) && r.value.ms == CalculateMs(ssr, prediv)
      ensures r.Some? && ssr <= prediv ==> IsMsOf(prediv - ssr, prediv, r.value.ms)
      ensures r.Some? && prediv < ssr <= 2 * prediv ==> IsMsOf(2 * prediv - ssr, prediv, r.value.ms)
      ensures r.Some? && ssr <= prediv ==> r.value.(ms := seen.ms) == seen
      ensures r.Some? && ssr > prediv && Valid(seen) ==>
                (IsSecondBefore(seen.(ms := r.value.ms), r.value) <==> !LostMidnight(seen))
    {
      seen := calendar;
      if !isSet {
        return None, seen;
      }
      var settled := Settle(shown);
      if settled.None? {
        return None, seen;
      }
      seen := settled.value;
      if ssr <= prediv {
        RunningMs(ssr, prediv);
      } else if ssr <= 2 * prediv {
        ShiftedMs(ssr, prediv);
      }
      var reading := settled.value.(ms := CalculateMs(ssr, prediv));
      if ssr > prediv {
        reading := DecrementOneSecond(reading);
      }
      return Some(reading), seen;
    }
  }

  /** Reading `i` is the one before it again. */
  predicate Agrees(shown: seq<DateTime>, i: nat) {
    0 < i < |shown| && shown[i] == shown[i - 1]
  }

  /** `c` is what the first two readings in a row that agree show. */
  ghost predicate Settled(shown: seq<DateTime>, c: DateTime) {
    exists i :: 0 <= i < |shown| && Agrees(shown, i) && shown[i] == c && forall j :: 0 <= j < i ==> !Agrees(shown, j)
  }

  // ---------- set, then get ----------

  function CeilDiv(a: nat, b: nat): nat
    requires b > 0
  {
    (a + b - 1) / b
  }

  lemma LessByProduct(x: int, y: int, b: nat)
    requires b > 0 && x * b < y * b
    ensures x < y
  {
    assert (y - x) * b == y * b - x * b;
  }

  lemma DivisionBounds(a: nat, b: nat, lo: int, hi: int)
    requires b > 0 && lo * b <= a < hi * b
    ensures lo <= a / b < hi
  {
    var q := a / b;
    assert q * b <= a < (q + 1) * b;
    LessByProduct(lo, q + 1, b);
    LessByProduct(q, hi, b);
  }

  /** The ticks taken back are the part of a second left, rounded down. */
  lemma AdjustBounds(ms: u16, prediv: Prescaler)
    requires ms <= 1000
    ensures var p := prediv + 1;
      1000 * Adjust(ms, prediv) <= 1000 * p - ms * p < 1000 * Adjust(ms, prediv) + 1000
    ensures ms >= 1 ==> Adjust(ms, prediv) <= prediv
    ensures ms == 0 ==> Adjust(ms, prediv) == prediv + 1
  {
    var p := prediv + 1;
    var x := ms * p;
    assert 0 <= x <= 1000 * p && (ms >= 1 ==> x >= p) && (ms == 0 ==> x == 0) by {
      assert 1000 * p - ms * p == (1000 - ms) * p;
      assert ms >= 1 ==> ms * p == p + (ms - 1) * p;
    }
    WholeTicks(1000 * p - x);
  }

  /** More than 1000 ms, which the code does not refuse, makes the difference wrap. */
  lemma AdjustWraps(ms: u16, prediv: Prescaler)
    requires ms > 1000
    ensures var p := prediv + 1;
      1000 * Adjust(ms, prediv) <= U32_LIMIT - (ms - 1000) * p < 1000 * Adjust(ms, prediv) + 1000
  {
    var p := prediv + 1;
    var over := (ms - 1000) * p;
    assert 1000 * p - ms * p == -over;
    assert 0 < over < U32_LIMIT by {
      ProductBounds(ms - 1000, p);
    }
    WholeTicks(U32_LIMIT - over);
    assert (-over) % U32_LIMIT == U32_LIMIT - over;
  }

  lemma ProductBounds(a: nat, b: nat)
    requires 0 < a < 0x1_0000 && 0 < b <= 0x8000
    ensures 0 < a * b < 0x8000_0000
  {
    assert a * b <= a * 0x8000;
  }

  lemma WholeTicks(x: nat)
    requires x < U32_LIMIT
    ensures var q := x % U32_LIMIT / 1000; 1000 * q <= x < 1000 * q + 1000
  {
  }

  /** `ms` is what `ticks` of a second of `prediv + 1` come to, rounded down. */
  predicate IsMsOf(ticks: nat, prediv: Prescaler, ms: u16) {
    ms * (prediv + 1) <= 1000 * ticks < (ms + 1) * (prediv + 1)
  }

  lemma MsOfTicks(ticks: nat, prediv: Prescaler)
    requires ticks <= prediv
    ensures 0 <= 1000 * ticks / (prediv + 1) < 1000 && IsMsOf(ticks, prediv, 1000 * ticks / (prediv + 1))
    ensures 1000 * ticks % U32_LIMIT == 1000 * ticks
  {
    var p := prediv + 1;
    DivisionBounds(1000 * ticks, p, 0, 1000);
    var q := 1000 * ticks / p;
    assert q * p <= 1000 * ticks < (q + 1) * p;
    Unwrapped(1000 * ticks);
  }

  /** The reading of a running clock: the ticks since the second began, below 1000 ms. */
  lemma RunningMs(ss: nat, prediv: Prescaler)
    requires ss <= prediv
    ensures CalculateMs(ss, prediv) < 1000 && IsMsOf(prediv - ss, prediv, CalculateMs(ss, prediv))
  {
    assert Elapsed(ss, prediv) == prediv - ss;
    MsOfTicks(prediv - ss, prediv);
  }

  /** And of one shifted back: the ticks since the second before, one short. */
  lemma ShiftedMs(ss: nat, prediv: Prescaler)
    requires prediv < ss <= 2 * prediv
    ensures CalculateMs(ss, prediv) < 1000 && IsMsOf(2 * prediv - ss, prediv, CalculateMs(ss, prediv))
  {
    var ticks := 2 * prediv - ss;
    Unwrapped(ticks);
    assert Elapsed(ss, prediv) == ticks;
    MsOfTicks(ticks, prediv);
  }

  /** Past that the difference is negative and wraps. */
  lemma WrappedMs(ss: nat, prediv: Prescaler)
    requires 2 * prediv < ss <= prediv + 0x7FFF
    ensures CalculateMs(ss, prediv) == (U32_LIMIT - 1000 * (ss - 2 * prediv)) / (prediv + 1) % 0x1_0000
  {
    var n := ss - 2 * prediv;
    assert Elapsed(ss, prediv) == U32_LIMIT - n;
    WrappedProduct(n);
  }

  lemma WrappedProduct(n: nat)
    requires 1 <= n <= 0x7FFF
    ensures 1000 * (U32_LIMIT - n) % U32_LIMIT == U32_LIMIT - 1000 * n
  {
    assert 1000 * (U32_LIMIT - n) == 999 * U32_LIMIT + (U32_LIMIT - 1000 * n);
  }

  /** As the counter runs down the milliseconds do not go back. */
  lemma MsNeverFalls(ss: nat, later: nat, prediv: Prescaler)
    requires later <= ss <= prediv
    ensures CalculateMs(ss, prediv) <= CalculateMs(later, prediv)
  {
    RunningMs(ss, prediv);
    RunningMs(later, prediv);
    LessByProduct(CalculateMs(ss, prediv), CalculateMs(later, prediv) + 1, prediv + 1);
  }

  /** Below a whole second the field is wide enough. */
  lemma ShiftIsAdjust(ms: u16, prediv: Prescaler)
    requires 1 <= ms <= 1000
    ensures Shift(ms, prediv) == Adjust(ms, prediv) <= prediv
  {
    AdjustBounds(ms, prediv);
  }

  /** The milliseconds read before the next tick: short of those set by at least one and
      at most one tick's worth. */
  lemma ShiftReadsBack(ms: u16, prediv: Prescaler)
    requires 1 <= ms <= 999 && Shift(ms, prediv) >= 1
    ensures var read := CalculateMs(prediv + Shift(ms, prediv), prediv);
      ms - CeilDiv(1000, prediv + 1) <= read <= ms - 1
  {
    ShiftIsAdjust(ms, prediv);
    var ticks := prediv - Adjust(ms, prediv);
    TicksLeft(ms, prediv, ticks);
    ReadTicks(ticks, prediv, Adjust(ms, prediv));
  }

  lemma TicksLeft(ms: u16, prediv: Prescaler, ticks: nat)
    requires 1 <= ms <= 999 && ticks + Adjust(ms, prediv) == prediv
    ensures ms - CeilDiv(1000, prediv + 1) <= 1000 * ticks / (prediv + 1) <= ms - 1
  {
    var p := prediv + 1;
    AdjustBounds(ms, prediv);
    var c := CeilDiv(1000, p);
    CeilCovers(1000, p);
    assert (ms - c) * p == ms * p - c * p;
    DivisionBounds(1000 * ticks, p, ms - c, ms);
  }

  lemma CeilCovers(a: nat, b: nat)
    requires b > 0
    ensures a <= CeilDiv(a, b) * b
  {
    var c := CeilDiv(a, b);
    assert a + b - 1 < (c + 1) * b == c * b + b;
  }

  lemma ReadTicks(ticks: nat, prediv: Prescaler, adjust: nat)
    requires adjust >= 1 && ticks + adjust == prediv && 1000 * ticks / (prediv + 1) < 0x1_0000
    ensures CalculateMs(prediv + adjust, prediv) == 1000 * ticks / (prediv + 1)
  {
    var diff := 2 * prediv - (prediv + adjust);
    assert diff == ticks;
    Unwrapped(ticks);
    Unwrapped(1000 * ticks);
    assert Elapsed(prediv + adjust, prediv) == ticks;
  }

  lemma Unwrapped(x: nat)
    requires x < U32_LIMIT
    ensures x % U32_LIMIT == x
  {
  }

  /** A shift of no ticks reads as the start of the next second. */
  lemma NoShiftReadsZero(ms: u16, prediv: Prescaler)
    requires Shift(ms, prediv) == 0
    ensures CalculateMs(prediv + Shift(ms, prediv), prediv) == 0
  {
    ZeroElapsed(prediv);
  }

  lemma ZeroElapsed(prediv: Prescaler)
    ensures CalculateMs(prediv, prediv) == 0
  {
    assert Elapsed(prediv, prediv) == 0;
  }

  /** Setting zero milliseconds shifts a whole second of ticks back, one more than the
      reading allows for: the difference wraps, to 65532 ms at the board's prescaler. At the
      largest prescaler the shift does not fit its field, and nothing is taken back. */
  lemma ZeroMillisecondsWrap(prediv: Prescaler)
    ensures Shift(0, prediv) == if prediv == 0x7FFF then 0 else prediv + 1
    ensures prediv == 0x7FFF ==> CalculateMs(prediv + Shift(0, prediv), prediv) == 0
    ensures prediv < 0x7FFF ==>
              CalculateMs(prediv + Shift(0, prediv), prediv) == (U32_LIMIT - 1000) / (prediv + 1) % 0x1_0000
    ensures prediv == 255 ==> CalculateMs(prediv + Shift(0, prediv), prediv) == 65532
  {
    AdjustBounds(0, prediv);
    if prediv < 0x7FFF {
      assert Elapsed(prediv + (prediv + 1), prediv) == U32_LIMIT - 1;
      assert 1000 * (U32_LIMIT - 1) % U32_LIMIT == U32_LIMIT - 1000;
    } else {
      NoShiftReadsZero(0, prediv);
    }
  }

  /** `r` has the calendar `Get` reads after `Set(t)`, when ticks were taken back or not. */
  ghost predicate ReadAfterSet(t: DateTime, shifted: bool, r: DateTime) {
    && Valid(t) && 2000 <= t.year <= 2099 && Valid(AddSecond(t))
    && (shifted ==> (IsSecondBefore(AddSecond(t).(ms := r.ms), r) <==> !LostMidnight(AddSecond(t))))
    && (!shifted ==> r == AddSecond(t).(ms := r.ms))
  }

  /** The second `t`, or 1999 for the last of 2099; unless no tick was taken back, when it is
      the calendar's next. */
  ghost predicate SecondKept(t: DateTime, shifted: bool, r: DateTime)
    requires Valid(t)
  {
    && (shifted ==> (r.(ms := t.ms) == t <==> t.(ms := 0) != LAST))
    && (shifted && t.(ms := 0) == LAST ==> r == DateTime(1999, 12, 31, 23, 59, 59, r.ms))
    && (!shifted && t.(ms := 0) != LAST ==> Valid(r) && Seconds(r) == Seconds(t) + 1)
    && (!shifted && t.(ms := 0) == LAST ==> r == DateTime(2000, 1, 1, 0, 0, 0, r.ms))
  }

  lemma SecondReadsBack(t: DateTime, shifted: bool, r: DateTime)
    requires ReadAfterSet(t, shifted, r)
    ensures SecondKept(t, shifted, r)
  {
    if t.(ms := 0) == LAST {
      assert AddSecond(t) == DateTime(2000, 1, 1, 0, 0, 0, t.ms);
      if shifted {
        BeforeYear(AddSecond(t).(ms := r.ms), r);
      }
    } else {
      AddSecondIsNext(t);
      SameSecond(AddSecond(t), AddSecond(t).(ms := r.ms));
      if shifted {
        SecondsIsOneTime(r, t);
      }
    }
  }

  lemma SameSecond(a: DateTime, b: DateTime)
    requires Valid(a) && a.(ms := 0) == b.(ms := 0)
    ensures Valid(b) && Seconds(a) == Seconds(b)
  {
  }

  /** The second before a year is the last of the year before. */
  lemma BeforeYear(t: DateTime, r: DateTime)
    requires Valid(t) && t.year > 0 && t.month == 1 && t.day == 1 && t.hour == 0 && t.minute == 0 && t.second == 0
    requires IsSecondBefore(t, r)
    ensures r == DateTime(t.year - 1, 12, 31, 23, 59, 59, t.ms)
  {
    var eve := DateTime(t.year - 1, 12, 31, 23, 59, 59, t.ms);
    assert MONTH_DAYS[11] == 31;
    PreviousDay(t, eve);
    SecondsIsOneTime(r, eve);
  }

  /** The milliseconds read: short of those set by at most a tick, or 0 with no tick to take. */
  ghost predicate MsKept(ms: u16, prediv: Prescaler, shift: nat, read: u16) {
    if shift > 0 then ms - CeilDiv(1000, prediv + 1) <= read <= ms - 1 else read == 0
  }

  lemma MsReadsBack(ms: u16, prediv: Prescaler, ssr: nat, read: u16)
    requires 1 <= ms <= 999 && ssr == prediv + Shift(ms, prediv) && read == CalculateMs(ssr, prediv)
    ensures MsKept(ms, prediv, ssr - prediv, read)
  {
    if ssr > prediv {
      ShiftReadsBack(ms, prediv);
    } else {
      NoShiftReadsZero(ms, prediv);
    }
  }

  /** `set` then `get` on one clock, with no tick between. */
  method SetThenRead(clock: Clock, t: DateTime) returns (r: Option<DateTime>)
    requires Valid(t) && 1 <= t.ms <= 999 && 2000 <= t.year <= 2099
    modifies clock
    ensures r.Some? && clock.ssr == clock.prediv + Shift(t.ms, clock.prediv)
    ensures SecondKept(t, clock.ssr > clock.prediv, r.value)
    ensures MsKept(t.ms, clock.prediv, clock.ssr - clock.prediv, r.value.ms)
  {
    var _ := clock.Set(t);
    AddSecondIsValid(t);
    var shown := [clock.calendar, clock.calendar];
    assert Agrees(shown, 1);
    ghost var seen;
    r, seen := clock.Get(shown);
    SecondReadsBack(t, clock.ssr > clock.prediv, r.value);
    MsReadsBack(t.ms, clock.prediv, clock.ssr, r.value.ms);
  }

  lemma AddSecondIsValid(t: DateTime)
    requires Valid(t) && t.year <= 2099
    ensures Valid(AddSecond(t))
  {
  }
}
