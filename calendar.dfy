/**
 * The in-game calendar of utils/events.js: real milliseconds since a fixed
 * epoch, split into years of 12 months, months of 31 days, days of 24 hours
 * and hours of (almost) 60 minutes.
 */
module Calendar {

  const YEAR_MS: nat := 446400000
  const MONTH_MS: nat := 37200000
  const DAY_MS: nat := 1200000
  const HOUR_MS: nat := 50000
  /** 833.33 ms, an exact rational here; 60 of them fall 0.2 ms short of an hour. */
  const MINUTE_MS: real := 833.33

  /** Real-time milliseconds of in-game year 1, month 1, day 1, 00:00. */
  const EPOCH: int := 1560275700000

  /** An in-game instant: year, month and day are 1-based, hour and minute 0-based. */
  datatype SkyBlockTime = SkyBlockTime(year: int, month: int, day: int, hour: int, minute: int, elapsed: int)

  /** The field ranges every instant at or after the epoch falls in. */
  predicate InRange(year: int, month: int, day: int, hour: int)
  {
    1 <= year && 1 <= month <= 12 && 1 <= day <= 31 && 0 <= hour <= 23
  }

  /** Milliseconds after the epoch at which the given in-game hour begins. */
  function HourStart(year: int, month: int, day: int, hour: int): int
  {
    (year - 1) * YEAR_MS + (month - 1) * MONTH_MS + (day - 1) * DAY_MS + hour * HOUR_MS
  }

  /**
   * The unit sizes nest exactly (12 months, 31 days, 24 hours), while 60
   * minutes fall short of an hour by less than one whole millisecond.
   */
  lemma UnitsNest()
    ensures YEAR_MS == 12 * MONTH_MS && MONTH_MS == 31 * DAY_MS && DAY_MS == 24 * HOUR_MS
    ensures (HOUR_MS - 1) as real < 60.0 * MINUTE_MS < HOUR_MS as real
  {
  }

  /**
   * getSkyBlockTime for an instant at or after the epoch: every field lies in
   * its range, the elapsed time falls inside the hour the fields name, and the
   * minute is the number of whole 833.33 ms minutes elapsed in that hour.
   */
  function GetSkyBlockTime(timestamp: int): (t: SkyBlockTime)
    requires timestamp >= EPOCH
    ensures t.elapsed == timestamp - EPOCH
    ensures InRange(t.year, t.month, t.day, t.hour) && 0 <= t.minute <= 59
    ensures HourStart(t.year, t.month, t.day, t.hour) <= t.elapsed < HourStart(t.year, t.month, t.day, t.hour) + HOUR_MS
    ensures (t.minute as real) * MINUTE_MS <= (t.elapsed - HourStart(t.year, t.month, t.day, t.hour)) as real
                                          < (t.minute + 1) as real * MINUTE_MS
  {
    var elapsed := timestamp - EPOCH;
    var years := elapsed / YEAR_MS;
    var months := (elapsed % YEAR_MS) / MONTH_MS;
    var days := (elapsed % MONTH_MS) / DAY_MS;
    var hours := (elapsed % DAY_MS) / HOUR_MS;
    var minutes := ((elapsed % HOUR_MS) as real / MINUTE_MS).Floor;
    ModNest(elapsed, 12, MONTH_MS);
    ModNest(elapsed, 31, DAY_MS);
    ModNest(elapsed, 24, HOUR_MS);
    SkyBlockTime(years + 1, months + 1, days + 1, hours, minutes, elapsed)
  }

  /**
   * Converting back: any instant inside the hour named by in-range fields is
   * read as exactly those fields, so GetSkyBlockTime inverts HourStart.
   */
  lemma CalendarRoundTrip(year: int, month: int, day: int, hour: int, offset: int)
    requires InRange(year, month, day, hour) && 0 <= offset < HOUR_MS
    ensures var t := GetSkyBlockTime(EPOCH + HourStart(year, month, day, hour) + offset);
            t.year == year && t.month == month && t.day == day && t.hour == hour
  {
    var t := GetSkyBlockTime(EPOCH + HourStart(year, month, day, hour) + offset);
    HourStartInjective(t.year, t.month, t.day, t.hour, year, month, day, hour, t.elapsed);
  }

  /** Two in-range hours that both contain the elapsed time `e` are the same hour. */
  lemma HourStartInjective(y1: int, m1: int, d1: int, h1: int, y2: int, m2: int, d2: int, h2: int, e: int)
    requires InRange(y1, m1, d1, h1) && InRange(y2, m2, d2, h2)
    requires HourStart(y1, m1, d1, h1) <= e < HourStart(y1, m1, d1, h1) + HOUR_MS
    requires HourStart(y2, m2, d2, h2) <= e < HourStart(y2, m2, d2, h2) + HOUR_MS
    ensures y1 == y2 && m1 == m2 && d1 == d2 && h1 == h2
  {
    // Each unit outweighs everything below it, so the fields are determined from the top.
    assert (m1 - 1) * MONTH_MS + (d1 - 1) * DAY_MS + h1 * HOUR_MS + HOUR_MS <= YEAR_MS;
    assert (m2 - 1) * MONTH_MS + (d2 - 1) * DAY_MS + h2 * HOUR_MS + HOUR_MS <= YEAR_MS;
    assert y1 == y2;
    assert (d1 - 1) * DAY_MS + h1 * HOUR_MS + HOUR_MS <= MONTH_MS;
    assert (d2 - 1) * DAY_MS + h2 * HOUR_MS + HOUR_MS <= MONTH_MS;
    assert m1 == m2;
    assert d1 == d2;
  }

  /** Milliseconds after the epoch at which the given in-game month begins. */
  function MonthStart(year: int, month: int): int
  {
    HourStart(year, month, 1, 0)
  }

  /** The current month began at the last multiple of MONTH_MS at or before the instant. */
  lemma MonthStartOf(timestamp: int)
    requires timestamp >= EPOCH
    ensures var t := GetSkyBlockTime(timestamp);
            MonthStart(t.year, t.month) == t.elapsed - t.elapsed % MONTH_MS
            && t.elapsed - t.elapsed % YEAR_MS == (t.year - 1) * YEAR_MS
  {
    var t := GetSkyBlockTime(timestamp);
    var e := t.elapsed;
    var inMonth := (t.day - 1) * DAY_MS + t.hour * HOUR_MS;
    assert 0 <= inMonth && inMonth + HOUR_MS <= MONTH_MS;
    var intoMonth := e - MonthStart(t.year, t.month);
    assert 0 <= intoMonth < MONTH_MS;
    assert MonthStart(t.year, t.month) == ((t.year - 1) * 12 + (t.month - 1)) * MONTH_MS;
    DivUnique(e, (t.year - 1) * 12 + (t.month - 1), MONTH_MS);
    var intoYear := e - (t.year - 1) * YEAR_MS;
    assert 0 <= intoYear < YEAR_MS;
    DivUnique(e, t.year - 1, YEAR_MS);
  }

  /** A larger multiplier gives a product larger by at least one whole `p`. */
  lemma MulMono(a: int, b: int, p: int)
    requires a < b && p > 0
    ensures a * p + p <= b * p
  {
    assert (b - a - 1) * p >= 0;
    assert b * p - a * p - p == (b - a - 1) * p;
  }

  /** An `e` lying in `[n·p, n·p + p)` has quotient `n`. */
  lemma DivUnique(e: int, n: int, p: int)
    requires p > 0 && n * p <= e < n * p + p
    ensures n == e / p
  {
    var q, r := e / p, e % p;
    assert e == q * p + r;
    if n < q { MulMono(n, q, p); }
    if q < n { MulMono(q, n, p); }
  }

  /** The remainder by `k·p` splits into whole `p`s and the remainder by `p`. */
  lemma ModNest(e: int, k: int, p: int)
    requires e >= 0 && k > 0 && p > 0
    ensures e % (k * p) == ((e % (k * p)) / p) * p + e % p
  {
    var big := k * p;
    var a, r := e / big, e % big;
    var q := r / p;
    assert r == q * p + r % p;
    assert e == (a * k + q) * p + r % p by {
      assert e == a * big + r;
      assert a * big == (a * k) * p;
    }
    DivUnique(e, a * k + q, p);
  }
}
