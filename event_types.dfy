/**
 * The static rule table EVENT_TYPES of utils/events.js and the event records
 * the resolvers return (a rule together with `startsAt` and/or `endsAt`).
 */
module EventTypes {
  import opened Calendar

  type Month = m: int | 1 <= m <= 12 witness 1
  type Day = d: int | 1 <= d <= 31 witness 1
  type Interval = n: int | n > 0 witness 1

  /**
   * How an event recurs: every `interval` ms of elapsed time from the epoch,
   * or once a year from 00:00 of a fixed month and day.
   */
  datatype Schedule =
    | Periodic(interval: Interval)
    | Anchored(startMonth: Month, startDay: Day)

  /** One entry of EVENT_TYPES; `duration` is in milliseconds, not always whole. */
  datatype EventRule = EventRule(id: string, name: string, description: string, duration: real, schedule: Schedule)

  const MINING_FIESTA: EventRule :=
    EventRule("mining_fiesta", "Mining Fiesta", "Increased mining speed and double ores",
              (DAY_MS * 3) as real, Periodic(MONTH_MS))
  const SPOOKY_FESTIVAL: EventRule :=
    EventRule("spooky_festival", "Spooky Festival", "Halloween-themed event with special drops",
              (DAY_MS * 3) as real, Anchored(7, 29))
  const WINTER_ISLAND: EventRule :=
    EventRule("winter_island", "Season of Jerry", "Winter island access with special events",
              MONTH_MS as real, Anchored(12, 1))
  const NEW_YEAR: EventRule :=
    EventRule("new_year", "New Year Celebration", "New year festivities",
              (DAY_MS * 3) as real, Anchored(12, 29))
  const TRAVELING_ZOO: EventRule :=
    EventRule("traveling_zoo", "Traveling Zoo", "Oringo visits with special pets",
              (DAY_MS * 3) as real, Periodic(MONTH_MS))
  const DARK_AUCTION: EventRule :=
    EventRule("dark_auction", "Dark Auction", "Special auction with rare items",
              MINUTE_MS * 10.0, Periodic(DAY_MS * 3))

  /** EVENT_TYPES in declaration order, the order the lookup menu lists them in. */
  const EVENT_TYPES: seq<EventRule> :=
    [MINING_FIESTA, SPOOKY_FESTIVAL, WINTER_ISLAND, NEW_YEAR, TRAVELING_ZOO, DARK_AUCTION]

  /** A current event: the rule and the instant its active window closes. */
  datatype ActiveEvent = ActiveEvent(rule: EventRule, endsAt: real)

  /** An upcoming event: the rule and the instant its next window opens. */
  datatype UpcomingEvent = UpcomingEvent(rule: EventRule, startsAt: int)

  /** A looked-up occurrence: the rule and its window `[startsAt, endsAt)`. */
  datatype Occurrence = Occurrence(rule: EventRule, startsAt: int, endsAt: real)

  /**
   * The table in the source's own units: six rules in declaration order, with
   * their ids, durations, and their intervals or anchors.
   */
  lemma EventTableContents()
    ensures |EVENT_TYPES| == 6
    ensures EVENT_TYPES[0].id == "mining_fiesta" && EVENT_TYPES[0].duration == 3.0 * DAY_MS as real
            && EVENT_TYPES[0].schedule == Periodic(MONTH_MS)
    ensures EVENT_TYPES[1].id == "spooky_festival" && EVENT_TYPES[1].duration == 3.0 * DAY_MS as real
            && EVENT_TYPES[1].schedule == Anchored(7, 29)
    ensures EVENT_TYPES[2].id == "winter_island" && EVENT_TYPES[2].duration == MONTH_MS as real
            && EVENT_TYPES[2].schedule == Anchored(12, 1)
    ensures EVENT_TYPES[3].id == "new_year" && EVENT_TYPES[3].duration == 3.0 * DAY_MS as real
            && EVENT_TYPES[3].schedule == Anchored(12, 29)
    ensures EVENT_TYPES[4].id == "traveling_zoo" && EVENT_TYPES[4].duration == 3.0 * DAY_MS as real
            && EVENT_TYPES[4].schedule == Periodic(MONTH_MS)
    ensures EVENT_TYPES[5].id == "dark_auction" && EVENT_TYPES[5].duration == 8333.3
            && EVENT_TYPES[5].schedule == Periodic(3 * DAY_MS)
    ensures forall rule :: rule in EVENT_TYPES ==> 0.0 < rule.duration
  {
  }

  /** No two entries of EVENT_TYPES share an id. */
  lemma EventIdsUnique()
    ensures forall i, j :: 0 <= i < j < |EVENT_TYPES| ==> EVENT_TYPES[i].id != EVENT_TYPES[j].id
  {
  }
}
