/**
 * What the general schedule definitions say about the individual rules of
 * EVENT_TYPES, in the terms utils/events.js tests them.
 */
module EventFacts {
  import opened Calendar
  import opened EventTypes
  import opened StableSort
  import opened EventSchedule

  /** Mining Fiesta is on for the first three days of every in-game month. */
  lemma MiningFiestaActive(now: int)
    requires now >= EPOCH
    ensures IsActive(MINING_FIESTA, now) <==> (now - EPOCH) % MONTH_MS < 3 * DAY_MS
  {
  }

  /** Traveling Zoo shares Mining Fiesta's schedule: both are on or both off, ending together. */
  lemma MiningFiestaWithZoo(now: int)
    requires now >= EPOCH
    ensures IsActive(MINING_FIESTA, now) <==> IsActive(TRAVELING_ZOO, now)
    ensures CurrentWindow(MINING_FIESTA, now).endsAt == CurrentWindow(TRAVELING_ZOO, now).endsAt
  {
  }

  /**
   * The Dark Auction is on for the first ten in-game minutes (8333.3 ms) of
   * every three-day cycle, that is for the first 8334 whole milliseconds.
   */
  lemma DarkAuctionActive(now: int)
    requires now >= EPOCH
    ensures IsActive(DARK_AUCTION, now) <==> ((now - EPOCH) % (3 * DAY_MS)) as real < 10.0 * MINUTE_MS
    ensures IsActive(DARK_AUCTION, now) <==> (now - EPOCH) % (3 * DAY_MS) <= 8333
  {
  }

  /** The Spooky Festival is on exactly on days 29 to 31 of month 7. */
  lemma SpookyFestivalActive(now: int)
    requires now >= EPOCH
    ensures var t := GetSkyBlockTime(now);
            IsActive(SPOOKY_FESTIVAL, now) <==> t.month == 7 && t.day >= 29
  {
    MonthStartOf(now);
  }

  /** The Season of Jerry is on for all of month 12. */
  lemma SeasonOfJerryActive(now: int)
    requires now >= EPOCH
    ensures IsActive(WINTER_ISLAND, now) <==> GetSkyBlockTime(now).month == 12
  {
    MonthStartOf(now);
  }

  /** The upcoming list leaves the Spooky Festival out from day 29 of month 7 to the end of that month. */
  lemma SpookyFestivalShown(now: int)
    requires now >= EPOCH
    ensures var t := GetSkyBlockTime(now);
            ShownUpcoming(SPOOKY_FESTIVAL, now) <==> !(t.month == 7 && t.day >= 29)
  {
    MonthStartOf(now);
  }

  /** The upcoming list leaves the Season of Jerry out for all of month 12. */
  lemma SeasonOfJerryShown(now: int)
    requires now >= EPOCH
    ensures ShownUpcoming(WINTER_ISLAND, now) <==> GetSkyBlockTime(now).month != 12
  {
    MonthStartOf(now);
  }

  lemma ScheduledDistinct()
    ensures Distinct(SCHEDULED)
  {
  }

  /**
   * What getUpcomingEvents lists: Mining Fiesta, Traveling Zoo and the Dark
   * Auction once each, the Spooky Festival and the Season of Jerry at most once
   * (outside the months named above), and never the New Year Celebration.
   */
  lemma UpcomingContents(now: int)
    requires now >= EPOCH
    ensures var u, t := UpcomingEvents(now), GetSkyBlockTime(now);
            && CountOf(u, MINING_FIESTA) == 1
            && CountOf(u, TRAVELING_ZOO) == 1
            && CountOf(u, DARK_AUCTION) == 1
            && CountOf(u, SPOOKY_FESTIVAL) == (if t.month == 7 && t.day >= 29 then 0 else 1)
            && CountOf(u, WINTER_ISLAND) == (if t.month == 12 then 0 else 1)
            && CountOf(u, NEW_YEAR) == 0
  {
    var pushed := UpcomingIn(SCHEDULED, now);
    ScheduledDistinct();
    SpookyFestivalShown(now);
    SeasonOfJerryShown(now);
    forall rule | rule in EVENT_TYPES
      ensures CountOf(UpcomingEvents(now), rule) == if rule in SCHEDULED && ShownUpcoming(rule, now) then 1 else 0
    {
      SortKeepsCounts(pushed, rule);
      UpcomingInCount(SCHEDULED, now, rule);
    }
  }

  /**
   * Mining Fiesta and Traveling Zoo always next open at the following month
   * boundary: the current month's window has always already opened.
   */
  lemma MonthlyNextAtMonthBoundary(now: int)
    requires now >= EPOCH
    ensures var t := GetSkyBlockTime(now);
            && NextStart(MINING_FIESTA.schedule, now) == EPOCH + MonthStart(t.year, t.month) + MONTH_MS
            && NextStart(MINING_FIESTA.schedule, now) == EPOCH + ((now - EPOCH) / MONTH_MS + 1) * MONTH_MS
            && NextStart(TRAVELING_ZOO.schedule, now) == NextStart(MINING_FIESTA.schedule, now)
  {
    MonthStartOf(now);
  }
}
