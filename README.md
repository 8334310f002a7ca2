# SkyBlock event calendar and response cache, in Dafny

This project models two parts of a Discord bot for Hypixel SkyBlock.

The first is the in-game calendar and event schedule of `utils/events.js`:
- the unit constants;
- the rule table `EVENT_TYPES`;
- `getSkyBlockTime`, which splits the milliseconds since the SkyBlock epoch into year, month, day, hour and minute;
- `formatDuration`, which renders durations;
- the three resolvers: `getCurrentEvents`, `getUpcomingEvents` and `getNextEventOccurrence`. They say which events are open now, which come next, and when a given event next opens.

The second is the 60-second response cache of `services/hypixel.js`. It is a keyed map of `{data, timestamp}` entries that `getCached` reads and `setCache` writes.

Layout:
- `calendar.dfy` (module `Calendar`): the constants and `GetSkyBlockTime`.
- `duration.dfy` (module `Duration`): `FormatDuration` and a reader, `ParseDuration`, for the text it produces.
- `event_types.dfy` (module `EventTypes`): the rule table. A rule is either periodic (an interval) or anchored (a month and day of each in-game year).
- `stable_sort.dfy` (module `StableSort`): the final `events.sort(...)`. JavaScript's sort is stable, so it is modelled as a stable insertion sort.
- `event_schedule.dfy` (module `EventSchedule`): the schedule defined once, rule by rule.
  - A rule's window number `n` opens at `EPOCH + n·Period + Offset` and stays open for its duration.
  - `IsActive`, `ActiveIn` and `NextStart` say which window holds an instant and which opens next.
  - `UpcomingIn` and `UpcomingEvents` say what the upcoming list holds.
  - `NextEventOccurrence` says what the id lookup answers.
- `event_facts.dfy` (module `EventFacts`): what those definitions mean for each rule, in the calendar terms the code tests.
- `resolvers.dfy` (module `Resolvers`): the three resolvers as methods. Each follows the source step by step, with its pushes, twelve-step month scans, `break` and early `return`, and is proved equal to its definition in `EventSchedule`.
- `response_cache.dfy` (module `ResponseCache`): the cache as a class whose `entries` map the methods update in place. The specification functions `Lookup` and `AfterLookup` state what a read answers and leaves behind.

Conventions:
- Instants are integer milliseconds, passed in as `now` in place of `Date.now()`.
- The resolvers require `now >= EPOCH`, so the elapsed time is a natural number and Dafny's `%` agrees with JavaScript's.
- `SKYBLOCK_MINUTE_MS = 833.33` is not an integer, so it and every event duration are exact `real`s.
  - Window ends (`endsAt`) are `real`, because the Dark Auction lasts 8333.3 ms.
  - Window starts (`startsAt`) are always whole and are `int`.

## Model

| member | source | states |
|---|---|---|
| Calendar.UnitsNest | utils/events.js:1-7 | A year is 12 months, a month 31 days and a day 24 hours. Sixty in-game minutes of 833.33 ms fall just short of an hour, between HOUR-1 and HOUR ms. |
| Calendar.GetSkyBlockTime | utils/events.js:57-74 | The fields are in range: month 1..12, day 1..31, hour 0..23, minute 0..59. The named hour starts at or before the elapsed time, which lies less than one hour past it. The minute is the number of whole 833.33 ms steps into that hour. |
| Calendar.CalendarRoundTrip | utils/events.js:57-74 | Any instant inside an in-range hour is read back as exactly that year, month, day and hour, so the split is the inverse of composing the fields. |
| Calendar.MonthStartOf | utils/events.js:57-74 | The month read from an instant begins at the last multiple of MONTH_MS at or before it. Its year begins at the last multiple of YEAR_MS. |
| Duration.NatToString | utils/events.js:80-86 | The decimal numeral of a template literal is nonempty, all digits, and has no leading zero. |
| Duration.DigitsRoundTrip | utils/events.js:80-86 | Reading the numeral back gives the number. |
| Duration.HoursMinutesBounds | utils/events.js:77-78 | Whole hours and leftover whole minutes floor the duration. Together they leave less than a minute unaccounted for, and minutes stay below 60. |
| Duration.FormatDuration | utils/events.js:76-87 | The text reads back as exactly the floored hours and minutes, written as numerals without leading zeros. It ends in `h` exactly when there are hours and no minutes. It holds a space exactly when there are both. |
| Duration.NumeralIsCanonical | utils/events.js:80-86 | A numeral without a leading zero is the template literal's `${n}` of the number it denotes. |
| Duration.ParsedForms | utils/events.js:80-86 | Every text the reader accepts has one of the three shapes the template literals build, "Hh", "Mm" without a space, or "Hh Mm", with canonical numerals for what it reads. |
| Duration.FormatDurationUnique | utils/events.js:76-87 | Any text that meets the three guarantees of `FormatDuration` for a duration is the text it renders, so those guarantees fix the output for every duration. |
| Duration.FormatExamples | utils/events.js:76-87 | 0 gives "0m", 3600000 gives "1h", 5400000 gives "1h 30m" and 59000 gives "0m". |
| EventTypes.EventTableContents | utils/events.js:9-55 | EVENT_TYPES holds six rules in declaration order. Mining Fiesta and Traveling Zoo: 3 days, every month. Spooky Festival: 3 days from month 7 day 29. Season of Jerry: one month from month 12 day 1. New Year: 3 days from month 12 day 29. Dark Auction: ten 833.33 ms minutes, every 3 days. Every duration is positive. |
| EventTypes.EventIdsUnique | utils/events.js:9-55 | No two entries of EVENT_TYPES share an id. |
| StableSort.SortByStart | utils/events.js:221 | The sorted list has the same length and ascending start times. |
| StableSort.SortPermutes | utils/events.js:221 | The sorted list is a permutation of the pushed list. |
| StableSort.SortIsStable | utils/events.js:221 | Events with equal start keep their pushed order. |
| StableSort.SortKeepsCounts | utils/events.js:221 | Sorting keeps how often each rule occurs. |
| EventSchedule.Offset | utils/events.js:9-55 | A window opens inside its cycle: at offset 0 for a periodic rule, at the anchor month and day for an anchored one. |
| EventSchedule.TableWellFormed | utils/events.js:9-55 | Every rule's duration is positive and its window ends within its cycle, so no two windows of one rule overlap. |
| EventSchedule.CycleBounds | utils/events.js:94-148 | The instant lies in the span of the cycle counted by integer division: at or after its beginning, before the next cycle's. |
| EventSchedule.CycleUnique | utils/events.js:94-148 | No other cycle's span holds the instant, so every instant falls in exactly one cycle of each rule. |
| EventSchedule.IsActive | utils/events.js:94-148 | Definition, with no contract of its own: the rule is active when the window of the instant's own cycle has opened at or before now and closes after now. This is the test each guarded push applies. |
| EventSchedule.CurrentWindow | utils/events.js:94-148 | The current record carries the rule. IsActive holds exactly when endsAt - duration <= now < endsAt, for the endsAt the record reports. |
| EventSchedule.ActiveIffInSomeWindow | utils/events.js:89-151 | A rule is active exactly when some window of it holds the instant, and that window is the one of the instant's cycle. |
| EventSchedule.ActiveExactlyInWindows | utils/events.js:89-151 | Within any cycle, the instant at offset t from the window start is active exactly when 0 <= t < duration. |
| EventSchedule.ActiveIn | utils/events.js:89-151 | Definition, with no contract of its own: the current events of a rule list, each active rule's current record in list order. GetCurrentEvents is proved equal to it over the handled rules. ActiveInScheduled, ActiveInMembers, ActiveInOrder and ActiveInHalfOpen state its properties. |
| EventSchedule.ActiveInScheduled | utils/events.js:89-151 | The current events are the pieces for Mining Fiesta, Spooky Festival, Season of Jerry, Traveling Zoo and Dark Auction, in that order. |
| EventSchedule.ActiveInHalfOpen | utils/events.js:89-151 | Every current event satisfies endsAt - duration <= now < endsAt. |
| EventSchedule.ActiveInMembers | utils/events.js:89-151 | An event is listed exactly when its rule is handled and active, and its end is that window's end. |
| EventSchedule.ActiveInOrder | utils/events.js:89-151 | The current events follow the order of the handled rules. |
| EventSchedule.NextStart | utils/events.js:158-297 | Definition, with no contract of its own: the window of the instant's cycle if it opens after now (the `this > now ? this : next` choice), else the next cycle's. NextStartIsLeast states its properties. |
| EventSchedule.NextOccurrence | utils/events.js:228-297 | The occurrence reported for a rule starts after now, at most one period ahead, and ends one duration after it starts. |
| EventSchedule.NextStartIsLeast | utils/events.js:153-300 | The next start lies after now, at most one period ahead, and it is a window start. No window opens strictly between now and it. |
| EventSchedule.RuleFor | utils/events.js:224-300 | Id lookup finds a handled rule with that id, or nothing exactly when no handled rule has that id. |
| EventSchedule.NewYearUnhandled | utils/events.js:33-40 | NEW_YEAR is in EVENT_TYPES with id "new_year", but looking that id up among the handled rules finds nothing. |
| EventSchedule.ScheduledIds | utils/events.js:224-300 | Looking up each of the five handled ids finds its rule. Any other id finds nothing. |
| EventSchedule.NextEventOccurrence | utils/events.js:224-300 | Definition, with no contract of its own: the next occurrence of the handled rule with the id, or None when no handled rule has it. GetNextEventOccurrence is proved to agree with it id by id. NextEventOccurrenceIsNext and NoNextNewYear state its properties. |
| EventSchedule.NextEventOccurrenceIsNext | utils/events.js:224-300 | The answer is None exactly when no handled rule has the id. Otherwise it is that rule's first window after now, at most one period ahead, with endsAt = startsAt + duration. |
| EventSchedule.NoNextNewYear | utils/events.js:224-300 | The lookup of "new_year" answers None at every instant. |
| EventSchedule.ShownUpcoming | utils/events.js:158-219 | Definition, with no contract of its own: a periodic rule is always listed. An anchored rule is listed unless the current month is its anchor month and this year's window has already opened, the one case in which the twelve-month scan meets the anchor month with its window behind now. |
| EventSchedule.UpcomingIn | utils/events.js:153-219 | Definition, with no contract of its own: the pushed upcoming events of a rule list, each shown rule's next window in list order. UpcomingInScheduled, UpcomingInMembers and UpcomingInCount state its properties. |
| EventSchedule.UpcomingEvents | utils/events.js:153-222 | Definition, with no contract of its own: the pushed upcoming events of the handled rules, stably sorted by start. GetUpcomingEvents is proved equal to it. UpcomingSortedAndAhead and UpcomingContents state its properties. |
| EventSchedule.UpcomingInScheduled | utils/events.js:153-222 | The pushed upcoming events are the pieces for the five handled rules in push order. |
| EventSchedule.UpcomingInMembers | utils/events.js:153-222 | An event is pushed exactly when its rule is handled and shown, and it starts at the rule's next window. |
| EventSchedule.UpcomingInCount | utils/events.js:153-222 | With distinct rules, each shown rule is pushed exactly once and nothing else is pushed. |
| EventSchedule.UpcomingSortedAndAhead | utils/events.js:153-222 | The upcoming list is sorted by start. Every event in it starts strictly after now, at its rule's next window. |
| EventFacts.MiningFiestaActive | utils/events.js:94-101 | Mining Fiesta is current exactly when elapsed % MONTH < 3·DAY. |
| EventFacts.MiningFiestaWithZoo | utils/events.js:94-139 | Mining Fiesta and Traveling Zoo are current together or not at all, with equal endsAt. |
| EventFacts.DarkAuctionActive | utils/events.js:141-148 | The Dark Auction is current exactly when elapsed % (3·DAY) < 10·MINUTE. For whole milliseconds that means at most 8333 ms into the cycle. |
| EventFacts.SpookyFestivalActive | utils/events.js:103-116 | The Spooky Festival is current exactly when month = 7 and day >= 29. |
| EventFacts.SeasonOfJerryActive | utils/events.js:118-130 | The Season of Jerry is current exactly when month = 12. |
| EventFacts.SpookyFestivalShown | utils/events.js:167-185 | The upcoming list shows the Spooky Festival unless month = 7 and day >= 29. |
| EventFacts.SeasonOfJerryShown | utils/events.js:187-204 | The upcoming list shows the Season of Jerry exactly when month != 12. |
| EventFacts.UpcomingContents | utils/events.js:153-222 | The upcoming list holds each of Mining Fiesta, Traveling Zoo and Dark Auction once. It holds the Spooky Festival and Season of Jerry once, or never in the months above, and never the New Year Celebration. |
| EventFacts.MonthlyNextAtMonthBoundary | utils/events.js:228-238 | The next Mining Fiesta and Traveling Zoo open at the next month boundary, because this month's window has always opened already. |
| Resolvers.GetCurrentEvents | utils/events.js:89-151 | The pushed events are exactly ActiveIn of the handled rules, and each lies in a half-open window around now. |
| Resolvers.ScanMonth | utils/events.js:167-169 | Step i of the twelve-month scan meets month m exactly once, at step (m - month + 12) % 12. It has wrapped into the next year exactly from step 13 - month on. |
| Resolvers.UpcomingScanHit | utils/events.js:167-204 | The scan step that meets an anchored rule's month finds a start after now exactly when the rule is shown, and that start is the rule's next window. |
| Resolvers.GetUpcomingEvents | utils/events.js:153-222 | The result is UpcomingEvents(now): sorted by start, every start after now and at its rule's next window. |
| Resolvers.NextScanStep | utils/events.js:240-273 | Step i of the year scan looks at this year's window until the scan wraps past month 12, and at next year's, which lies ahead, from then on. Once this year's window has opened, or at step 0, a window found ahead is the next one. |
| Resolvers.NextByIdIsLookup | utils/events.js:224-300 | Answers that agree with the per-id contract of GetNextEventOccurrence are exactly NextEventOccurrence. |
| Resolvers.GetNextEventOccurrence | utils/events.js:224-300 | Each of the five handled ids gives that rule's next occurrence. Any other id, "new_year" among them, gives None. |
| ResponseCache.Lookup | services/hypixel.js:14-21 | Definition, with no contract of its own: a read answers data exactly when the key has an entry stamped less than 60000 ms before now. StoredIsReturned, StoredExpires and MissStaysMiss state its properties. |
| ResponseCache.AfterLookup | services/hypixel.js:14-21 | A read only removes entries and never alters one. It keeps every other key. It keeps the key itself exactly when it answers data. |
| ResponseCache.StoredIsReturned | services/hypixel.js:11-25 | Data stored at t is returned by a read at any t' with t' - t < 60000. |
| ResponseCache.StoredExpires | services/hypixel.js:14-21 | From 60000 ms after it was stored on, a read returns nothing and leaves the key deleted. |
| ResponseCache.StoreKeepsOthers | services/hypixel.js:23-25 | Storing under one key changes no other key's answer. |
| ResponseCache.LookupKeepsOthers | services/hypixel.js:14-21 | A read changes no other key's answer, at any instant. |
| ResponseCache.LookupIdempotent | services/hypixel.js:14-21 | Reading twice at one instant answers the same and leaves the same map. |
| ResponseCache.MissStaysMiss | services/hypixel.js:14-21 | A key that answers nothing keeps answering nothing at every later instant. |
| ResponseCache.Cache.constructor | services/hypixel.js:12 | The cache starts empty. |
| ResponseCache.Cache.GetCached | services/hypixel.js:14-21 | A fresh entry returns its data and leaves the map alone. Otherwise nothing is returned and the key is deleted. A missing key leaves the map unchanged, and other keys are never touched. |
| ResponseCache.Cache.SetCache | services/hypixel.js:23-25 | The key's entry becomes the data stamped now, replacing any earlier one. Every other key is unchanged. |
| ResponseCache.CachedFetch | services/hypixel.js:27-47 | A hit at the instant of the call returns the cached data and leaves the map alone. A miss returns the fetched data and stores it stamped with the instant the response arrived, which is no earlier than the call. Every other key is unchanged, and every read less than 60000 ms after the arrival answers the stored data. |

## Left out

- The fetch functions `fetchSkyBlockData` and `fetchCurrentMayor`: the HTTP request, the API key from `config.json` and the error logging are I/O. `CachedFetch` keeps only their use of the cache, with the response passed in.
- `CachedFetch`: assumes the request succeeds. The source's failure path is not modelled: a non-OK status or a failed fetch stores nothing, leaves a stale key deleted by the read, logs the error and rethrows it.
- `CachedFetch`: tests for a hit with `Some`, where the source tests the truthiness of the cached value. A falsy response such as `0`, `""` or `null` is refetched by the source but counts as a hit here.
- `Date.now()` is replaced by the parameter `now` everywhere. In `CachedFetch`, the second reading, taken by `setCache` once the awaited response is in, is the parameter `arrived`.
- Instants before the epoch are excluded (`requires now >= EPOCH`). JavaScript's `%` truncates toward zero on negative operands, and such instants are not meaningful for the calendar.
- IEEE floating point: 833.33 and the durations are exact rationals. Where a floor or a comparison depends on the last bit of a double, the model gives the exact answer.
- `Duration.FormatDuration`: takes a whole, non-negative number of milliseconds. The bot also formats fractional and negative differences, such as a Dark Auction's `endsAt - now`. Those inputs are not modelled.
- `commands/event.js`, `index.js` and `deploy-commands.js`: Discord embeds, menus, login and command registration, which only call the core.
- The `events` objects copy every field of their rule with `...EVENT_TYPES.X`. The model keeps the whole rule in the record instead of flattening its fields.
- The upcoming scans of the anchored events run over the twelve months from the current one, as the code does. A year-by-year scan would always list these events; the twelve-month scan does not. This model follows the code, and `EventSchedule.ShownUpcoming` records the consequence: from day 29 of month 7 the Spooky Festival is not listed, and in month 12 the Season of Jerry is not.
- `Resolvers.GetNextEventOccurrence`: its anchored loops can never run out without returning. When the source runs out of a loop, it falls through to `return null`. The model proves that point unreachable instead of modelling it.
