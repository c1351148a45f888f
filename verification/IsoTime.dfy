/**
 * Datetimes as Python keeps them, the conversion to UTC of `_ensure_aware`, and the ISO text of
 * `_iso`, whose fraction is printed only when it is not zero. The text is what SQLite stores and
 * sorts, so its order has to be the order of time.
 *
 * Time is counted in microseconds since 0001-01-01T00:00 UTC.
 */
module IsoTime {
  import opened Wrappers
  import opened Ordering

  const SECOND := 1_000_000
  const MINUTE := 60_000_000
  const HOUR := 3_600_000_000
  const DAY := 86_400_000_000

  // ---------- the calendar ----------

  predicate Leap(y: int) { y % 4 == 0 && (y % 100 != 0 || y % 400 == 0) }

  function YearLength(y: int): int { if Leap(y) then 366 else 365 }

  function MonthLength(y: int, m: int): int {
    if m == 2 then (if Leap(y) then 29 else 28)
    else if m == 4 || m == 6 || m == 9 || m == 11 then 30
    else 31
  }

  function DaysBeforeYear(y: int): int
    requires y >= 1
  {
    365 * (y - 1) + (y - 1) / 4 - (y - 1) / 100 + (y - 1) / 400
  }

  lemma Every4(y: int)
    ensures y / 4 - (y - 1) / 4 == if y % 4 == 0 then 1 else 0
  {
  }

  lemma Every100(y: int)
    ensures y / 100 - (y - 1) / 100 == if y % 100 == 0 then 1 else 0
  {
  }

  lemma Every400(y: int)
    ensures y / 400 - (y - 1) / 400 == if y % 400 == 0 then 1 else 0
    ensures y % 400 == 0 ==> y % 100 == 0
    ensures y % 100 == 0 ==> y % 4 == 0
  {
  }

  lemma NextYear(y: int)
    requires y >= 1
    ensures DaysBeforeYear(y + 1) == DaysBeforeYear(y) + YearLength(y)
  {
    Every4(y);
    Every100(y);
    Every400(y);
  }

  function DaysBeforeMonth(y: int, m: int): int
    requires 1 <= m <= 13
  {
    if m == 1 then 0 else DaysBeforeMonth(y, m - 1) + MonthLength(y, m - 1)
  }

  lemma {:induction false} YearsGrow(y: int, z: int)
    requires 1 <= y <= z
    ensures DaysBeforeYear(y) + 365 * (z - y) <= DaysBeforeYear(z)
  {
    if y < z {
      YearsGrow(y, z - 1);
      NextYear(z - 1);
    }
  }

  lemma {:induction false} MonthsGrow(y: int, m: int, n: int)
    requires 1 <= m <= n <= 13
    ensures DaysBeforeMonth(y, m) <= DaysBeforeMonth(y, n)
  {
    if m < n { MonthsGrow(y, m, n - 1); }
  }

  lemma MonthsFillYear(y: int)
    ensures DaysBeforeMonth(y, 13) == YearLength(y)
  {
    assert DaysBeforeMonth(y, 2) == 31;
    assert DaysBeforeMonth(y, 3) == DaysBeforeMonth(y, 2) + MonthLength(y, 2);
    assert DaysBeforeMonth(y, 4) == DaysBeforeMonth(y, 3) + MonthLength(y, 3);
    assert DaysBeforeMonth(y, 5) == DaysBeforeMonth(y, 4) + MonthLength(y, 4);
    assert DaysBeforeMonth(y, 6) == DaysBeforeMonth(y, 5) + MonthLength(y, 5);
    assert DaysBeforeMonth(y, 7) == DaysBeforeMonth(y, 6) + MonthLength(y, 6);
    assert DaysBeforeMonth(y, 8) == DaysBeforeMonth(y, 7) + MonthLength(y, 7);
    assert DaysBeforeMonth(y, 9) == DaysBeforeMonth(y, 8) + MonthLength(y, 8);
    assert DaysBeforeMonth(y, 10) == DaysBeforeMonth(y, 9) + MonthLength(y, 9);
    assert DaysBeforeMonth(y, 11) == DaysBeforeMonth(y, 10) + MonthLength(y, 10);
    assert DaysBeforeMonth(y, 12) == DaysBeforeMonth(y, 11) + MonthLength(y, 11);
  }

  // ---------- datetimes ----------

  /** `offset` is the distance of the zone from UTC; a naive datetime has none. */
  datatype DateTime = DateTime(year: int, month: int, day: int,
                               hour: int, minute: int, second: int, micro: int,
                               offset: Option<int>)

  predicate Valid(dt: DateTime) {
    && 1 <= dt.year <= 9999 && 1 <= dt.month <= 12 && 1 <= dt.day <= MonthLength(dt.year, dt.month)
    && 0 <= dt.hour < 24 && 0 <= dt.minute < 60 && 0 <= dt.second < 60 && 0 <= dt.micro < SECOND
    && (dt.offset.Some? ==> -DAY < dt.offset.value < DAY)
  }

  predicate IsUtc(dt: DateTime) { Valid(dt) && dt.offset == Some(0) }

  type Moment = dt: DateTime | Valid(dt) witness DateTime(1, 1, 1, 0, 0, 0, 0, None)

  function DayNumber(dt: DateTime): int
    requires Valid(dt)
  {
    DaysBeforeYear(dt.year) + DaysBeforeMonth(dt.year, dt.month) + dt.day - 1
  }

  function ClockMicros(dt: DateTime): int {
    dt.hour * HOUR + dt.minute * MINUTE + dt.second * SECOND + dt.micro
  }

  /** What the calendar and the clock on the wall show, as a count of microseconds. */
  function Wall(dt: DateTime): int
    requires Valid(dt)
  {
    DayNumber(dt) * DAY + ClockMicros(dt)
  }

  /** The moment meant; a naive datetime is read as UTC. */
  function Instant(dt: DateTime): int
    requires Valid(dt)
  {
    Wall(dt) - dt.offset.GetOr(0)
  }

  /** One wall clock further east is an earlier moment, by as much; and a naive one is meant as UTC. */
  lemma ZonesShiftInstant(dt: DateTime, east: int)
    requires Valid(dt) && -DAY < east < DAY
    ensures Instant(dt.(offset := Some(east))) == Instant(dt.(offset := Some(0))) - east
    ensures Instant(dt.(offset := None)) == Instant(dt.(offset := Some(0)))
  {
  }

  /** A microsecond on the clock is a microsecond in time. */
  lemma MicrosecondsCount(dt: DateTime, micro: int)
    requires Valid(dt) && 0 <= micro < SECOND
    ensures Instant(dt.(micro := micro)) - Instant(dt) == micro - dt.micro
  {
  }

  /** One past the last microsecond of the year 9999. */
  const END_OF_TIME := 3_652_059 * 86_400_000_000

  /** Calendar and clock fields compared one after the other. */
  predicate FieldsLess(a: DateTime, b: DateTime) {
    a.year < b.year || (a.year == b.year && (
    a.month < b.month || (a.month == b.month && (
    a.day < b.day || (a.day == b.day && (
    a.hour < b.hour || (a.hour == b.hour && (
    a.minute < b.minute || (a.minute == b.minute && (
    a.second < b.second || (a.second == b.second && a.micro < b.micro)))))))))))
  }

  lemma DayNumberOrder(a: DateTime, b: DateTime)
    requires Valid(a) && Valid(b)
    requires a.year < b.year || (a.year == b.year && a.month < b.month)
    ensures DayNumber(a) < DayNumber(b)
  {
    MonthsGrow(a.year, a.month + 1, 13);
    MonthsGrow(b.year, 1, b.month);
    if a.year < b.year {
      MonthsFillYear(a.year);
      NextYear(a.year);
      YearsGrow(a.year + 1, b.year);
    } else {
      MonthsGrow(a.year, a.month + 1, b.month);
    }
  }

  lemma DaysApart(d: int, e: int)
    requires d < e
    ensures d * DAY + DAY <= e * DAY
  {
  }

  lemma ClockRange(dt: DateTime)
    requires Valid(dt)
    ensures 0 <= ClockMicros(dt) < DAY
  {
  }

  lemma WallMonotone(a: DateTime, b: DateTime)
    requires Valid(a) && Valid(b) && FieldsLess(a, b)
    ensures Wall(a) < Wall(b)
  {
    if a.year < b.year || (a.year == b.year && a.month < b.month) {
      DayNumberOrder(a, b);
    }
    if DayNumber(a) < DayNumber(b) {
      DaysApart(DayNumber(a), DayNumber(b));
      ClockRange(a);
      ClockRange(b);
    }
  }

  /** The calendar loses nothing: fields compare exactly as the microseconds they stand for. */
  lemma WallOrder(a: DateTime, b: DateTime)
    requires Valid(a) && Valid(b)
    ensures FieldsLess(a, b) <==> Wall(a) < Wall(b)
    ensures Wall(a) == Wall(b) && a.offset == b.offset ==> a == b
  {
    if FieldsLess(a, b) { WallMonotone(a, b); }
    if FieldsLess(b, a) { WallMonotone(b, a); }
  }

  lemma WallRange(dt: DateTime)
    requires Valid(dt)
    ensures 0 <= Wall(dt) < END_OF_TIME
  {
    YearsGrow(1, dt.year);
    YearsGrow(dt.year + 1, 10000);
    MonthsGrow(dt.year, 1, dt.month);
    MonthsGrow(dt.year, dt.month + 1, 13);
    MonthsFillYear(dt.year);
    NextYear(dt.year);
    ClockRange(dt);
    assert DaysBeforeYear(10000) == 3_652_059;
    DaysApart(DayNumber(dt), 3_652_059);
  }

  // ---------- from a count back to a datetime ----------

  function YearAt(day: int, y: int): (r: int)
    requires 1 <= y <= 9999 && DaysBeforeYear(y) <= day < DaysBeforeYear(10000)
    ensures y <= r <= 9999 && DaysBeforeYear(r) <= day < DaysBeforeYear(r + 1)
    decreases 10000 - y
  {
    if day < DaysBeforeYear(y + 1) then y else YearAt(day, y + 1)
  }

  function MonthAt(year: int, day: int, m: int): (r: int)
    requires 1 <= m <= 12 && DaysBeforeMonth(year, m) <= day < DaysBeforeMonth(year, 13)
    ensures m <= r <= 12 && DaysBeforeMonth(year, r) <= day < DaysBeforeMonth(year, r + 1)
    decreases 13 - m
  {
    if day < DaysBeforeMonth(year, m + 1) then m else MonthAt(year, day, m + 1)
  }

  function UtcFromMicros(n: int): (dt: DateTime)
    requires 0 <= n < END_OF_TIME
    ensures IsUtc(dt) && Wall(dt) == n && Instant(dt) == n
  {
    var days, clock := n / DAY, n % DAY;
    assert DaysBeforeYear(10000) == 3_652_059;
    var y := YearAt(days, 1);
    MonthsFillYear(y);
    NextYear(y);
    var m := MonthAt(y, days - DaysBeforeYear(y), 1);
    var dt := DateTime(y, m, days - DaysBeforeYear(y) - DaysBeforeMonth(y, m) + 1,
                       clock / HOUR, clock % HOUR / MINUTE, clock % HOUR % MINUTE / SECOND,
                       clock % HOUR % MINUTE % SECOND, Some(0));
    dt
  }

  predicate InTime(n: int) { 0 <= n < END_OF_TIME }

  /** The ISO text of the moment n. */
  function Stamp(n: int): string
    requires InTime(n)
  {
    Iso(UtcFromMicros(n))
  }

  lemma StampOrder(n: int, m: int)
    requires InTime(n) && InTime(m)
    ensures TextLess(Stamp(n), Stamp(m)) <==> n < m
    ensures Stamp(n) == Stamp(m) <==> n == m
  {
    IsoOrder(UtcFromMicros(n), UtcFromMicros(m));
  }

  lemma ParseOfStamp(n: int)
    requires InTime(n)
    ensures ParseIso(Stamp(n)) == Some(UtcFromMicros(n))
  {
    ParseOfIso(UtcFromMicros(n));
  }

  /**
   * `_ensure_aware`: a naive value is tagged UTC, an aware one is converted. `None` is Python's
   * OverflowError, raised when the UTC value falls outside the years 1 to 9999.
   */
  function EnsureAware(dt: DateTime): (r: Option<DateTime>)
    requires Valid(dt)
    ensures r.Some? ==> IsUtc(r.value) && Instant(r.value) == Instant(dt)
    ensures r.Some? <==> 0 <= Instant(dt) < END_OF_TIME
  {
    match dt.offset
    case None =>
      WallRange(dt);
      Some(dt.(offset := Some(0)))
    case Some(o) =>
      if 0 <= Wall(dt) - o < END_OF_TIME then Some(UtcFromMicros(Wall(dt) - o)) else None
  }

  lemma EnsureAwareOfUtc(dt: DateTime)
    requires IsUtc(dt)
    ensures EnsureAware(dt) == Some(dt)
  {
    WallRange(dt);
    WallOrder(dt, EnsureAware(dt).value);
  }

  // ---------- ISO text ----------

  predicate AllDigits(s: string) { forall i :: 0 <= i < |s| ==> '0' <= s[i] <= '9' }

  function Digit(d: int): char
    requires 0 <= d < 10
  {
    ('0' as int + d) as char
  }

  function Pow10(w: nat): int { if w == 0 then 1 else 10 * Pow10(w - 1) }

  /** n in exactly w digits. */
  function Pad(n: int, w: nat): (r: string)
    requires n >= 0
    ensures |r| == w
    ensures AllDigits(r)
  {
    if w == 0 then "" else Pad(n / 10, w - 1) + [Digit(n % 10)]
  }

  function IsoTail(micro: int): string
    requires micro >= 0
  {
    if micro == 0 then "+00:00" else "." + (Pad(micro, 6) + "+00:00")
  }

  /** `datetime.isoformat()` of a UTC value. */
  function Iso(dt: DateTime): string
    requires IsUtc(dt)
  {
    Pad(dt.year, 4) + ("-" + (Pad(dt.month, 2) + ("-" + (Pad(dt.day, 2) + ("T" +
    (Pad(dt.hour, 2) + (":" + (Pad(dt.minute, 2) + (":" + (Pad(dt.second, 2) + IsoTail(dt.micro)))))))))))
  }

  lemma {:induction false} PadOrder(n: int, m: int, w: nat)
    requires 0 <= n < Pow10(w) && 0 <= m < Pow10(w)
    ensures TextLess(Pad(n, w), Pad(m, w)) <==> n < m
    ensures Pad(n, w) == Pad(m, w) <==> n == m
  {
    if w > 0 {
      PadOrder(n / 10, m / 10, w - 1);
      var a, b := Pad(n / 10, w - 1), Pad(m / 10, w - 1);
      TextLessConcat(a, [Digit(n % 10)], b, [Digit(m % 10)]);
      assert Pad(n, w)[..w - 1] == a && Pad(m, w)[..w - 1] == b;
      assert Pad(n, w)[w - 1] == Digit(n % 10) && Pad(m, w)[w - 1] == Digit(m % 10);
      TextLessTotal(Pad(n, w), Pad(m, w));
    }
  }

  lemma FieldOrder(n: int, x: string, m: int, y: string, w: nat)
    requires 0 <= n < Pow10(w) && 0 <= m < Pow10(w)
    ensures TextLess(Pad(n, w) + x, Pad(m, w) + y) <==> n < m || (n == m && TextLess(x, y))
  {
    PadOrder(n, m, w);
    TextLessConcat(Pad(n, w), x, Pad(m, w), y);
  }

  lemma Pow10Values()
    ensures Pow10(2) == 100 && Pow10(4) == 10_000 && Pow10(6) == SECOND
  {
    assert Pow10(3) == 1000;
    assert Pow10(5) == 100_000;
  }

  lemma SeparatorOrder(c: char, x: string, y: string)
    ensures TextLess([c] + x, [c] + y) <==> TextLess(x, y)
  {
    TextLessConcat([c], x, [c], y);
    TextLessTotal([c], [c]);
  }

  /** '+' sorts before '.', so a second without a fraction sorts before all its fractions. */
  lemma TailOrder(a: int, b: int)
    requires 0 <= a < SECOND && 0 <= b < SECOND
    ensures TextLess(IsoTail(a), IsoTail(b)) <==> a < b
  {
    Pow10Values();
    TextLessTotal("+00:00", "+00:00");
    if a > 0 && b > 0 {
      FieldOrder(a, "+00:00", b, "+00:00", 6);
      SeparatorOrder('.', Pad(a, 6) + "+00:00", Pad(b, 6) + "+00:00");
    }
  }

  lemma ClockTextOrder(a: DateTime, b: DateTime)
    requires IsUtc(a) && IsUtc(b)
    ensures TextLess(Pad(a.hour, 2) + (":" + (Pad(a.minute, 2) + (":" + (Pad(a.second, 2) + IsoTail(a.micro))))),
                     Pad(b.hour, 2) + (":" + (Pad(b.minute, 2) + (":" + (Pad(b.second, 2) + IsoTail(b.micro))))))
       <==> a.hour < b.hour || (a.hour == b.hour && (
            a.minute < b.minute || (a.minute == b.minute && (
            a.second < b.second || (a.second == b.second && a.micro < b.micro)))))
  {
    Pow10Values();
    TailOrder(a.micro, b.micro);
    var as1, bs1 := Pad(a.second, 2) + IsoTail(a.micro), Pad(b.second, 2) + IsoTail(b.micro);
    FieldOrder(a.second, IsoTail(a.micro), b.second, IsoTail(b.micro), 2);
    SeparatorOrder(':', as1, bs1);
    var am, bm := Pad(a.minute, 2) + (":" + as1), Pad(b.minute, 2) + (":" + bs1);
    FieldOrder(a.minute, ":" + as1, b.minute, ":" + bs1, 2);
    SeparatorOrder(':', am, bm);
    FieldOrder(a.hour, ":" + am, b.hour, ":" + bm, 2);
  }

  lemma IsoFieldsOrder(a: DateTime, b: DateTime)
    requires IsUtc(a) && IsUtc(b)
    ensures TextLess(Iso(a), Iso(b)) <==> FieldsLess(a, b)
  {
    Pow10Values();
    ClockTextOrder(a, b);
    var at := Pad(a.hour, 2) + (":" + (Pad(a.minute, 2) + (":" + (Pad(a.second, 2) + IsoTail(a.micro)))));
    var bt := Pad(b.hour, 2) + (":" + (Pad(b.minute, 2) + (":" + (Pad(b.second, 2) + IsoTail(b.micro)))));
    SeparatorOrder('T', at, bt);
    var ad, bd := Pad(a.day, 2) + ("T" + at), Pad(b.day, 2) + ("T" + bt);
    FieldOrder(a.day, "T" + at, b.day, "T" + bt, 2);
    SeparatorOrder('-', ad, bd);
    var am, bm := Pad(a.month, 2) + ("-" + ad), Pad(b.month, 2) + ("-" + bd);
    FieldOrder(a.month, "-" + ad, b.month, "-" + bd, 2);
    SeparatorOrder('-', am, bm);
    FieldOrder(a.year, "-" + am, b.year, "-" + bm, 4);
  }

  /** Sorting the ISO text sorts by time, and equal text is the same moment. */
  lemma IsoOrder(a: DateTime, b: DateTime)
    requires IsUtc(a) && IsUtc(b)
    ensures TextLess(Iso(a), Iso(b)) <==> Instant(a) < Instant(b)
    ensures Iso(a) == Iso(b) <==> Instant(a) == Instant(b)
  {
    IsoFieldsOrder(a, b);
    IsoFieldsOrder(b, a);
    WallOrder(a, b);
    WallOrder(b, a);
    TextLessTotal(Iso(a), Iso(b));
  }

  // ---------- reading it back ----------

  function NumberOf(s: string): int
    requires AllDigits(s)
  {
    if s == "" then 0
    else NumberOf(s[..|s| - 1]) * 10 + (s[|s| - 1] as int - '0' as int)
  }

  function TakeNumber(s: string, w: nat): Option<(int, string)> {
    if |s| >= w && AllDigits(s[..w]) then Some((NumberOf(s[..w]), s[w..])) else None
  }

  function Expect(s: Option<(int, string)>, c: char): Option<(int, string)> {
    if s.Some? && s.value.1 != "" && s.value.1[0] == c then Some((s.value.0, s.value.1[1..])) else None
  }

  function ParseTail(s: string): Option<int> {
    if s == "+00:00" then Some(0)
    else if s != "" && s[0] == '.' then
      var f := TakeNumber(s[1..], 6);
      if f.Some? && f.value.1 == "+00:00" then Some(f.value.0) else None
    else None
  }

  /** `datetime.fromisoformat` on the shape `isoformat` prints for UTC; `None` is its ValueError. */
  function ParseIso(s: string): (r: Option<DateTime>)
    ensures r.Some? ==> IsUtc(r.value)
  {
    var y := Expect(TakeNumber(s, 4), '-');
    if y.None? then None else
    var mo := Expect(TakeNumber(y.value.1, 2), '-');
    if mo.None? then None else
    var d := Expect(TakeNumber(mo.value.1, 2), 'T');
    if d.None? then None else
    var h := Expect(TakeNumber(d.value.1, 2), ':');
    if h.None? then None else
    var mi := Expect(TakeNumber(h.value.1, 2), ':');
    if mi.None? then None else
    var sec := TakeNumber(mi.value.1, 2);
    if sec.None? then None else
    var us := ParseTail(sec.value.1);
    if us.None? then None else
    var dt := DateTime(y.value.0, mo.value.0, d.value.0, h.value.0, mi.value.0, sec.value.0, us.value, Some(0));
    if Valid(dt) then Some(dt) else None
  }

  lemma {:induction false} NumberOfPad(n: int, w: nat)
    requires 0 <= n < Pow10(w)
    ensures AllDigits(Pad(n, w)) && NumberOf(Pad(n, w)) == n
  {
    if w > 0 {
      NumberOfPad(n / 10, w - 1);
      assert Pad(n, w)[..w - 1] == Pad(n / 10, w - 1);
    }
  }

  lemma TakePadded(n: int, w: nat, rest: string)
    requires 0 <= n < Pow10(w)
    ensures TakeNumber(Pad(n, w) + rest, w) == Some((n, rest))
  {
    NumberOfPad(n, w);
    assert (Pad(n, w) + rest)[..w] == Pad(n, w);
    assert (Pad(n, w) + rest)[w..] == rest;
  }

  lemma ExpectSeparator(n: int, c: char, rest: string)
    ensures Expect(Some((n, [c] + rest)), c) == Some((n, rest))
  {
    assert ([c] + rest)[1..] == rest;
  }

  lemma ParseTailOfTail(micro: int)
    requires 0 <= micro < SECOND
    ensures ParseTail(IsoTail(micro)) == Some(micro)
  {
    Pow10Values();
    if micro > 0 {
      TakePadded(micro, 6, "+00:00");
      assert IsoTail(micro)[1..] == Pad(micro, 6) + "+00:00";
    }
  }

  /** Text written by `isoformat` reads back as the same datetime. */
  lemma ParseOfIso(dt: DateTime)
    requires IsUtc(dt)
    ensures ParseIso(Iso(dt)) == Some(dt)
  {
    Pow10Values();
    var s := IsoTail(dt.micro);
    ParseTailOfTail(dt.micro);
    TakePadded(dt.second, 2, s);
    s := Pad(dt.second, 2) + s;
    ExpectSeparator(dt.minute, ':', s);
    TakePadded(dt.minute, 2, ":" + s);
    s := Pad(dt.minute, 2) + (":" + s);
    ExpectSeparator(dt.hour, ':', s);
    TakePadded(dt.hour, 2, ":" + s);
    s := Pad(dt.hour, 2) + (":" + s);
    ExpectSeparator(dt.day, 'T', s);
    TakePadded(dt.day, 2, "T" + s);
    s := Pad(dt.day, 2) + ("T" + s);
    ExpectSeparator(dt.month, '-', s);
    TakePadded(dt.month, 2, "-" + s);
    s := Pad(dt.month, 2) + ("-" + s);
    ExpectSeparator(dt.year, '-', s);
    TakePadded(dt.year, 4, "-" + s);
  }
}
