/**
 * getCurrentEvents, getUpcomingEvents and getNextEventOccurrence of
 * utils/events.js, step by step as the source computes them, with the
 * instant `now` passed in. Each is proved equal to its definition in module
 * EventSchedule.
 */
module Resolvers {
  import opened Wrappers
  import opened Calendar
  import opened EventTypes
  import opened StableSort
  import opened EventSchedule
  import opened EventFacts

  /** A conditional push extends the events by the piece the specification adds. */
  lemma PushedPiece<E>(before: seq<E>, after: seq<E>, pushed: seq<E>, open: bool, x: E, piece: seq<E>)
    requires before == pushed
    requires after == if open then before + [x] else before
    requires piece == if open then [x] else []
    ensures after == pushed + piece
  {
  }

  // One lemma per push of getCurrentEvents: the source's test and record agree with IsActive and CurrentWindow.

  lemma CurrentMonthlyStep(rule: EventRule, now: int, t: SkyBlockTime, start: int, end: real)
    requires now >= EPOCH && t == GetSkyBlockTime(now) && (rule == MINING_FIESTA || rule == TRAVELING_ZOO)
    requires start == t.elapsed - t.elapsed % MONTH_MS && end == start as real + rule.duration
    ensures ActiveOrNone(rule, now) ==
      if now >= EPOCH + start && (now as real) < EPOCH as real + end then [ActiveEvent(rule, EPOCH as real + end)] else []
  {
  }

  lemma CurrentSpookyStep(now: int, t: SkyBlockTime, start: int, end: real)
    requires now >= EPOCH && t == GetSkyBlockTime(now)
    requires start == EPOCH + (t.year - 1) * YEAR_MS + (7 - 1) * MONTH_MS + (29 - 1) * DAY_MS
    requires end == start as real + SPOOKY_FESTIVAL.duration
    ensures ActiveOrNone(SPOOKY_FESTIVAL, now) ==
      if t.month == 7 && 29 <= t.day <= 31 && now >= start && (now as real) < end
      then [ActiveEvent(SPOOKY_FESTIVAL, end)] else []
  {
    SpookyFestivalActive(now);
    MonthStartOf(now);
  }

  lemma CurrentWinterStep(now: int, t: SkyBlockTime, start: int, end: real)
    requires now >= EPOCH && t == GetSkyBlockTime(now)
    requires start == EPOCH + (t.year - 1) * YEAR_MS + (12 - 1) * MONTH_MS
    requires end == start as real + WINTER_ISLAND.duration
    ensures ActiveOrNone(WINTER_ISLAND, now) ==
      if t.month == 12 && now >= start && (now as real) < end then [ActiveEvent(WINTER_ISLAND, end)] else []
  {
    SeasonOfJerryActive(now);
    MonthStartOf(now);
  }

  lemma CurrentDarkAuctionStep(now: int, t: SkyBlockTime, cycle: int, start: int)
    requires now >= EPOCH && t == GetSkyBlockTime(now)
    requires cycle == t.elapsed % DARK_AUCTION.schedule.interval && start == t.elapsed - cycle
    ensures ActiveOrNone(DARK_AUCTION, now) ==
      if (cycle as real) < DARK_AUCTION.duration
      then [ActiveEvent(DARK_AUCTION, (EPOCH + start) as real + DARK_AUCTION.duration)] else []
  {
  }

  /**
   * getCurrentEvents: the events whose window holds `now`, in the fixed order
   * mining, spooky, winter, zoo, dark auction, each with a half-open window
   * `[endsAt - duration, endsAt)` around `now`.
   */
  method GetCurrentEvents(now: int) returns (events: seq<ActiveEvent>)
    requires now >= EPOCH
    ensures events == ActiveIn(SCHEDULED, now)
    ensures forall ev :: ev in events ==> ev.endsAt - ev.rule.duration <= now as real < ev.endsAt
  {
    var skyBlockTime := GetSkyBlockTime(now);
    events := [];

    var miningFiestaStart := skyBlockTime.elapsed - skyBlockTime.elapsed % MONTH_MS;
    var miningFiestaEnd := miningFiestaStart as real + MINING_FIESTA.duration;
    var miningFiestaOpen := now >= EPOCH + miningFiestaStart && (now as real) < EPOCH as real + miningFiestaEnd;
    var miningFiestaEvent := ActiveEvent(MINING_FIESTA, EPOCH as real + miningFiestaEnd);
    if miningFiestaOpen {
      events := events + [miningFiestaEvent];
    }
    CurrentMonthlyStep(MINING_FIESTA, now, skyBlockTime, miningFiestaStart, miningFiestaEnd);
    PushedPiece([], events, [], miningFiestaOpen, miningFiestaEvent, ActiveOrNone(MINING_FIESTA, now));
    ghost var pushed := ActiveOrNone(MINING_FIESTA, now);

    ghost var before := events;
    var spookyDays := skyBlockTime.month == 7 && 29 <= skyBlockTime.day <= 31;
    var spookyStart := EPOCH + (skyBlockTime.year - 1) * YEAR_MS + (7 - 1) * MONTH_MS + (29 - 1) * DAY_MS;
    var spookyEnd := spookyStart as real + SPOOKY_FESTIVAL.duration;
    var spookyOpen := now >= spookyStart && (now as real) < spookyEnd;
    var spookyEvent := ActiveEvent(SPOOKY_FESTIVAL, spookyEnd);
    if spookyDays {
      if spookyOpen {
        events := events + [spookyEvent];
      }
    }
    CurrentSpookyStep(now, skyBlockTime, spookyStart, spookyEnd);
    PushedPiece(before, events, pushed, spookyDays && spookyOpen, spookyEvent, ActiveOrNone(SPOOKY_FESTIVAL, now));
    pushed := pushed + ActiveOrNone(SPOOKY_FESTIVAL, now);

    before := events;
    var winterMonth := skyBlockTime.month == 12;
    var winterStart := EPOCH + (skyBlockTime.year - 1) * YEAR_MS + (12 - 1) * MONTH_MS;
    var winterEnd := winterStart as real + WINTER_ISLAND.duration;
    var winterOpen := now >= winterStart && (now as real) < winterEnd;
    var winterEvent := ActiveEvent(WINTER_ISLAND, winterEnd);
    if winterMonth {
      if winterOpen {
        events := events + [winterEvent];
      }
    }
    CurrentWinterStep(now, skyBlockTime, winterStart, winterEnd);
    PushedPiece(before, events, pushed, winterMonth && winterOpen, winterEvent, ActiveOrNone(WINTER_ISLAND, now));
    pushed := pushed + ActiveOrNone(WINTER_ISLAND, now);

    before := events;
    var zooStart := skyBlockTime.elapsed - skyBlockTime.elapsed % MONTH_MS;
    var zooEnd := zooStart as real + TRAVELING_ZOO.duration;
    var zooOpen := now >= EPOCH + zooStart && (now as real) < EPOCH as real + zooEnd;
    var zooEvent := ActiveEvent(TRAVELING_ZOO, EPOCH as real + zooEnd);
    if zooOpen {
      events := events + [zooEvent];
    }
    CurrentMonthlyStep(TRAVELING_ZOO, now, skyBlockTime, zooStart, zooEnd);
    PushedPiece(before, events, pushed, zooOpen, zooEvent, ActiveOrNone(TRAVELING_ZOO, now));
    pushed := pushed + ActiveOrNone(TRAVELING_ZOO, now);

    before := events;
    var darkAuctionCycle := skyBlockTime.elapsed % DARK_AUCTION.schedule.interval;
    var darkAuctionStart := skyBlockTime.elapsed - darkAuctionCycle;
    var darkAuctionOpen := (darkAuctionCycle as real) < DARK_AUCTION.duration;
    var darkAuctionEvent := ActiveEvent(DARK_AUCTION, (EPOCH + darkAuctionStart) as real + DARK_AUCTION.duration);
    if darkAuctionOpen {
      events := events + [darkAuctionEvent];
    }
    CurrentDarkAuctionStep(now, skyBlockTime, darkAuctionCycle, darkAuctionStart);
    PushedPiece(before, events, pushed, darkAuctionOpen, darkAuctionEvent, ActiveOrNone(DARK_AUCTION, now));
    pushed := pushed + ActiveOrNone(DARK_AUCTION, now);

    ActiveInScheduled(now);
    ActiveInHalfOpen(SCHEDULED, now);
  }

  // ---------------------------------------------------------------------------
  // getUpcomingEvents

  /** The twelve-month scan from `month`: which step meets month `m`, and whether it has wrapped into the next year. */
  lemma ScanMonth(month: int, i: int, m: int)
    requires 1 <= month <= 12 && 0 <= i < 12 && 1 <= m <= 12
    ensures ((month - 1 + i) % 12 + 1 == m) <==> i == (m - month + 12) % 12
    ensures (month - 1 + i) / 12 == if i < 13 - month then 0 else 1
  {
    if month - 1 + i >= 12 {
      assert (month - 1 + i) % 12 == month - 1 + i - 12;
    }
  }

  /** Where the current instant lies in its year, in the terms of the anchored rules' cycles. */
  lemma AnchoredCycle(rule: EventRule, now: int, t: SkyBlockTime)
    requires now >= EPOCH && t == GetSkyBlockTime(now) && rule.schedule.Anchored?
    ensures Cycle(rule.schedule, now) == t.year - 1
    ensures t.month < rule.schedule.startMonth ==> now < ThisStart(rule.schedule, now)
    ensures t.month > rule.schedule.startMonth ==> ThisStart(rule.schedule, now) <= now
    ensures t.month == rule.schedule.startMonth ==>
              (ThisStart(rule.schedule, now) <= now <==> t.day >= rule.schedule.startDay)
  {
    MonthStartOf(now);
    var e := now - EPOCH;
    DivUnique(e, t.year - 1, YEAR_MS);
  }

  /**
   * The step of the upcoming scan that meets an anchored rule's month pushes
   * exactly when the rule is shown, and pushes its next window.
   */
  lemma UpcomingScanHit(rule: EventRule, now: int, t: SkyBlockTime, i: int, start: int)
    requires now >= EPOCH && t == GetSkyBlockTime(now) && rule.schedule.Anchored?
    requires i == (rule.schedule.startMonth - t.month + 12) % 12
    requires start == EPOCH + (t.year + (t.month - 1 + i) / 12 - 1) * YEAR_MS + Offset(rule.schedule)
    ensures start > now <==> ShownUpcoming(rule, now)
    ensures start > now ==> start == NextStart(rule.schedule, now)
  {
    AnchoredCycle(rule, now, t);
    ScanMonth(t.month, i, rule.schedule.startMonth);
  }

  lemma UpcomingMonthlyStep(rule: EventRule, now: int, next: int)
    requires now >= EPOCH && (rule == MINING_FIESTA || rule == TRAVELING_ZOO)
    requires next == EPOCH + ((now - EPOCH) - (now - EPOCH) % MONTH_MS) + MONTH_MS
    ensures UpcomingOrNone(rule, now) == if next > now then [UpcomingEvent(rule, next)] else []
  {
  }

  lemma UpcomingDarkAuctionStep(now: int, next: int)
    requires now >= EPOCH
    requires next == EPOCH + (now - EPOCH) - (now - EPOCH) % DARK_AUCTION.schedule.interval + DARK_AUCTION.schedule.interval
    ensures UpcomingOrNone(DARK_AUCTION, now) == [UpcomingEvent(DARK_AUCTION, next)]
  {
  }

  /**
   * getUpcomingEvents: the next Mining Fiesta, the next Spooky Festival and
   * Season of Jerry found by a twelve-month scan, the next Traveling Zoo and
   * the next Dark Auction, sorted by start.
   */
  method GetUpcomingEvents(now: int) returns (events: seq<UpcomingEvent>)
    requires now >= EPOCH
    ensures events == UpcomingEvents(now)
    ensures SortedByStart(events)
    ensures forall u :: u in events ==> u.rule in SCHEDULED && now < u.startsAt && u.startsAt == NextStart(u.rule.schedule, now)
  {
    var skyBlockTime := GetSkyBlockTime(now);
    events := [];

    var currentMonthStart := skyBlockTime.elapsed - skyBlockTime.elapsed % MONTH_MS;
    var nextMiningFiesta := EPOCH + currentMonthStart + MONTH_MS;
    if nextMiningFiesta > now {
      events := events + [UpcomingEvent(MINING_FIESTA, nextMiningFiesta)];
    }
    UpcomingMonthlyStep(MINING_FIESTA, now, nextMiningFiesta);
    PushedPiece([], events, [], nextMiningFiesta > now, UpcomingEvent(MINING_FIESTA, nextMiningFiesta), UpcomingOrNone(MINING_FIESTA, now));
    ghost var pushed := UpcomingOrNone(MINING_FIESTA, now);

    ghost var spookyStep := (7 - skyBlockTime.month + 12) % 12;
    for i := 0 to 12
      invariant events == pushed
      invariant i > spookyStep ==> !ShownUpcoming(SPOOKY_FESTIVAL, now)
    {
      var checkYear := skyBlockTime.year + (skyBlockTime.month - 1 + i) / 12;
      var checkMonth := ((skyBlockTime.month - 1 + i) % 12) + 1;
      ScanMonth(skyBlockTime.month, i, 7);
      if checkMonth == 7 {
        var spookyStart := EPOCH + (checkYear - 1) * YEAR_MS + (7 - 1) * MONTH_MS + (29 - 1) * DAY_MS;
        UpcomingScanHit(SPOOKY_FESTIVAL, now, skyBlockTime, i, spookyStart);
        if spookyStart > now {
          events := events + [UpcomingEvent(SPOOKY_FESTIVAL, spookyStart)];
          assert events == pushed + UpcomingOrNone(SPOOKY_FESTIVAL, now);
          break;
        }
      }
    }
    assert events == pushed + UpcomingOrNone(SPOOKY_FESTIVAL, now);
    pushed := pushed + UpcomingOrNone(SPOOKY_FESTIVAL, now);

    ghost var winterStep := (12 - skyBlockTime.month + 12) % 12;
    for i := 0 to 12
      invariant events == pushed
      invariant i > winterStep ==> !ShownUpcoming(WINTER_ISLAND, now)
    {
      var checkYear := skyBlockTime.year + (skyBlockTime.month - 1 + i) / 12;
      var checkMonth := ((skyBlockTime.month - 1 + i) % 12) + 1;
      ScanMonth(skyBlockTime.month, i, 12);
      if checkMonth == 12 {
        var winterStart := EPOCH + (checkYear - 1) * YEAR_MS + (12 - 1) * MONTH_MS;
        UpcomingScanHit(WINTER_ISLAND, now, skyBlockTime, i, winterStart);
        if winterStart > now {
          events := events + [UpcomingEvent(WINTER_ISLAND, winterStart)];
          assert events == pushed + UpcomingOrNone(WINTER_ISLAND, now);
          break;
        }
      }
    }
    assert events == pushed + UpcomingOrNone(WINTER_ISLAND, now);
    pushed := pushed + UpcomingOrNone(WINTER_ISLAND, now);

    ghost var before := events;
    var nextZoo := EPOCH + currentMonthStart + MONTH_MS;
    if nextZoo > now {
      events := events + [UpcomingEvent(TRAVELING_ZOO, nextZoo)];
    }
    UpcomingMonthlyStep(TRAVELING_ZOO, now, nextZoo);
    PushedPiece(before, events, pushed, nextZoo > now, UpcomingEvent(TRAVELING_ZOO, nextZoo), UpcomingOrNone(TRAVELING_ZOO, now));
    pushed := pushed + UpcomingOrNone(TRAVELING_ZOO, now);

    var darkAuctionCycle := skyBlockTime.elapsed % DARK_AUCTION.schedule.interval;
    var nextDarkAuction := EPOCH + skyBlockTime.elapsed - darkAuctionCycle + DARK_AUCTION.schedule.interval;
    events := events + [UpcomingEvent(DARK_AUCTION, nextDarkAuction)];
    UpcomingDarkAuctionStep(now, nextDarkAuction);
    pushed := pushed + UpcomingOrNone(DARK_AUCTION, now);
    assert events == pushed;

    UpcomingInScheduled(now);
    events := SortByStart(events);
    UpcomingSortedAndAhead(now);
  }

  // ---------------------------------------------------------------------------
  // getNextEventOccurrence

  /** The monthly rules' next window: this month's start if still ahead, else the next month's. */
  lemma NextMonthlyStep(rule: EventRule, now: int, thisStart: int)
    requires now >= EPOCH && (rule == MINING_FIESTA || rule == TRAVELING_ZOO)
    requires thisStart == EPOCH + ((now - EPOCH) - (now - EPOCH) % MONTH_MS)
    ensures var startsAt := if thisStart > now then thisStart else thisStart + MONTH_MS;
            NextOccurrence(rule, now) == Occurrence(rule, startsAt, startsAt as real + rule.duration)
  {
  }

  /** The Dark Auction's next window: this cycle's start if still ahead, else the next cycle's. */
  lemma NextDarkAuctionStep(now: int, cycle: int, thisStart: int)
    requires now >= EPOCH && cycle == (now - EPOCH) % DARK_AUCTION.schedule.interval
    requires thisStart == EPOCH + (now - EPOCH) - cycle
    ensures var startsAt := if thisStart > now then thisStart else thisStart + DARK_AUCTION.schedule.interval;
            NextOccurrence(DARK_AUCTION, now) == Occurrence(DARK_AUCTION, startsAt, startsAt as real + DARK_AUCTION.duration)
  {
  }

  /**
   * Step `i` of the year scan of an anchored rule looks at this year's window
   * until the scan wraps past month 12, and at next year's, which lies ahead,
   * from then on; a window it finds ahead is the next one unless an earlier
   * step already saw this year's window ahead.
   */
  lemma NextScanStep(rule: EventRule, now: int, t: SkyBlockTime, i: int, start: int)
    requires now >= EPOCH && t == GetSkyBlockTime(now) && rule.schedule.Anchored?
    requires 0 <= i < 12
    requires start == EPOCH + (t.year + (t.month - 1 + i) / 12 - 1) * YEAR_MS + Offset(rule.schedule)
    ensures i < 13 - t.month ==> start == ThisStart(rule.schedule, now)
    ensures i >= 13 - t.month ==> now < start
    ensures now < start && (i == 0 || ThisStart(rule.schedule, now) <= now) ==> start == NextStart(rule.schedule, now)
  {
    AnchoredCycle(rule, now, t);
    ScanMonth(t.month, i, rule.schedule.startMonth);
  }

  /**
   * What getNextEventOccurrence answers for each id is the lookup of
   * NextEventOccurrence: the handled rule's next window, or None.
   */
  lemma NextByIdIsLookup(id: string, now: int, r: Option<Occurrence>)
    requires now >= EPOCH
    requires id == "mining_fiesta" ==> r == Some(NextOccurrence(MINING_FIESTA, now))
    requires id == "spooky_festival" ==> r == Some(NextOccurrence(SPOOKY_FESTIVAL, now))
    requires id == "winter_island" ==> r == Some(NextOccurrence(WINTER_ISLAND, now))
    requires id == "traveling_zoo" ==> r == Some(NextOccurrence(TRAVELING_ZOO, now))
    requires id == "dark_auction" ==> r == Some(NextOccurrence(DARK_AUCTION, now))
    requires (id != "mining_fiesta" && id != "spooky_festival" && id != "winter_island" &&
              id != "traveling_zoo" && id != "dark_auction") ==> r == None
    ensures r == NextEventOccurrence(id, now)
  {
    ScheduledIds(id);
  }

  /**
   * getNextEventOccurrence: the next window of the rule with the given id, or
   * None for an id no resolver handles (among them "new_year").
   */
  method GetNextEventOccurrence(id: string, now: int) returns (r: Option<Occurrence>)
    requires now >= EPOCH
    ensures id == "mining_fiesta" ==> r == Some(NextOccurrence(MINING_FIESTA, now))
    ensures id == "spooky_festival" ==> r == Some(NextOccurrence(SPOOKY_FESTIVAL, now))
    ensures id == "winter_island" ==> r == Some(NextOccurrence(WINTER_ISLAND, now))
    ensures id == "traveling_zoo" ==> r == Some(NextOccurrence(TRAVELING_ZOO, now))
    ensures id == "dark_auction" ==> r == Some(NextOccurrence(DARK_AUCTION, now))
    ensures (id != "mining_fiesta" && id != "spooky_festival" && id != "winter_island" &&
             id != "traveling_zoo" && id != "dark_auction") ==> r == None
  {
    var skyBlockTime := GetSkyBlockTime(now);

    if id == "mining_fiesta" {
      var currentMonthStart := skyBlockTime.elapsed - skyBlockTime.elapsed % MONTH_MS;
      var thisMiningFiesta := EPOCH + currentMonthStart;
      var nextMiningFiesta := thisMiningFiesta + MONTH_MS;
      NextMonthlyStep(MINING_FIESTA, now, thisMiningFiesta);
      var startsAt := if thisMiningFiesta > now then thisMiningFiesta else nextMiningFiesta;
      return Some(Occurrence(MINING_FIESTA, startsAt, startsAt as real + MINING_FIESTA.duration));
    } else if id == "spooky_festival" {
      for i := 0 to 12
        invariant i > 0 ==> ThisStart(SPOOKY_FESTIVAL.schedule, now) <= now
        invariant i <= 13 - skyBlockTime.month
      {
        var checkYear := skyBlockTime.year + (skyBlockTime.month - 1 + i) / 12;
        var spookyStart := EPOCH + (checkYear - 1) * YEAR_MS + (7 - 1) * MONTH_MS + (29 - 1) * DAY_MS;
        NextScanStep(SPOOKY_FESTIVAL, now, skyBlockTime, i, spookyStart);
        if spookyStart > now {
          return Some(Occurrence(SPOOKY_FESTIVAL, spookyStart, spookyStart as real + SPOOKY_FESTIVAL.duration));
        }
      }
      AnchoredCycle(SPOOKY_FESTIVAL, now, skyBlockTime);
      assert false;
    } else if id == "winter_island" {
      for i := 0 to 12
        invariant i > 0 ==> ThisStart(WINTER_ISLAND.schedule, now) <= now
        invariant i <= 13 - skyBlockTime.month
      {
        var checkYear := skyBlockTime.year + (skyBlockTime.month - 1 + i) / 12;
        var winterStart := EPOCH + (checkYear - 1) * YEAR_MS + (12 - 1) * MONTH_MS;
        NextScanStep(WINTER_ISLAND, now, skyBlockTime, i, winterStart);
        if winterStart > now {
          return Some(Occurrence(WINTER_ISLAND, winterStart, winterStart as real + WINTER_ISLAND.duration));
        }
      }
      AnchoredCycle(WINTER_ISLAND, now, skyBlockTime);
      assert false;
    } else if id == "traveling_zoo" {
      var currentMonthStart := skyBlockTime.elapsed - skyBlockTime.elapsed % MONTH_MS;
      var thisZoo := EPOCH + currentMonthStart;
      var nextZoo := thisZoo + MONTH_MS;
      NextMonthlyStep(TRAVELING_ZOO, now, thisZoo);
      var startsAt := if thisZoo > now then thisZoo else nextZoo;
      return Some(Occurrence(TRAVELING_ZOO, startsAt, startsAt as real + TRAVELING_ZOO.duration));
    } else if id == "dark_auction" {
      var darkAuctionCycle := skyBlockTime.elapsed % DARK_AUCTION.schedule.interval;
      var thisDarkAuction := EPOCH + skyBlockTime.elapsed - darkAuctionCycle;
      var nextDarkAuction := thisDarkAuction + DARK_AUCTION.schedule.interval;
      NextDarkAuctionStep(now, darkAuctionCycle, thisDarkAuction);
      var startsAt := if thisDarkAuction > now then thisDarkAuction else nextDarkAuction;
      return Some(Occurrence(DARK_AUCTION, startsAt, startsAt as real + DARK_AUCTION.duration));
    } else {
      return None;
    }
  }
}
