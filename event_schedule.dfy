/**
 * The recurrence rules of utils/events.js stated once, rule by rule: where an
 * event's windows lie, which window is open at an instant, and which one opens
 * next. The resolvers in module Resolvers are proved against these definitions.
 */
module EventSchedule {
  import opened Wrappers
  import opened Calendar
  import opened EventTypes
  import opened StableSort

  /** The rules the resolvers handle, in the order they push them; NEW_YEAR is not among them. */
  const SCHEDULED: seq<EventRule> :=
    [MINING_FIESTA, SPOOKY_FESTIVAL, WINTER_ISLAND, TRAVELING_ZOO, DARK_AUCTION]

  /** Length of one cycle: the interval, or one in-game year for an anchored event. */
  function Period(s: Schedule): (p: int)
    ensures p > 0
  {
    match s
    case Periodic(interval) => interval
    case Anchored(_, _) => YEAR_MS
  }

  /** Where in its cycle a window opens: 0, or the month and day of the anchor. */
  function Offset(s: Schedule): (o: int)
    ensures 0 <= o < Period(s)
  {
    match s
    case Periodic(_) => 0
    case Anchored(month, day) => (month - 1) * MONTH_MS + (day - 1) * DAY_MS
  }

  /** Real-time instant at which the window of cycle `n` opens. */
  function WindowStart(s: Schedule, n: int): int
  {
    EPOCH + n * Period(s) + Offset(s)
  }

  /** The cycle the instant falls in: the interval count, or the in-game year minus 1. */
  function Cycle(s: Schedule, now: int): nat
    requires now >= EPOCH
  {
    (now - EPOCH) / Period(s)
  }

  /** The window of the instant's own cycle, which for an anchored event may still lie ahead. */
  function ThisStart(s: Schedule, now: int): int
    requires now >= EPOCH
  {
    WindowStart(s, Cycle(s, now))
  }

  /** A rule's windows fit inside their cycles, so no two of them overlap. */
  predicate WellFormed(rule: EventRule)
  {
    0.0 < rule.duration && (Offset(rule.schedule) as real) + rule.duration <= Period(rule.schedule) as real
  }

  lemma TableWellFormed()
    ensures forall rule :: rule in EVENT_TYPES ==> WellFormed(rule)
  {
  }

  // ---------------------------------------------------------------------------
  // Arithmetic on cycles

  /** Later cycles open later windows, by at least a whole period. */
  lemma WindowStartMono(s: Schedule, a: int, b: int)
    requires a < b
    ensures WindowStart(s, a) + Period(s) <= WindowStart(s, b)
  {
    MulMono(a, b, Period(s));
  }

  /** The instant lies in its cycle: past the cycle's beginning, before the next one's. */
  lemma CycleBounds(s: Schedule, now: int)
    requires now >= EPOCH
    ensures WindowStart(s, Cycle(s, now)) - Offset(s) <= now < WindowStart(s, Cycle(s, now) + 1) - Offset(s)
  {
    var e, p := now - EPOCH, Period(s);
    assert e == (e / p) * p + e % p;
    assert (e / p + 1) * p == (e / p) * p + p;
  }

  /** No other cycle's span holds the instant: the cycle Cycle counts is the only one. */
  lemma CycleUnique(s: Schedule, now: int, n: int)
    requires now >= EPOCH
    requires WindowStart(s, n) - Offset(s) <= now < WindowStart(s, n + 1) - Offset(s)
    ensures n == Cycle(s, now)
  {
    assert n * Period(s) <= now - EPOCH < n * Period(s) + Period(s);
    DivUnique(now - EPOCH, n, Period(s));
  }

  // ---------------------------------------------------------------------------
  // The open window

  /** getCurrentEvents' test for one rule: the window of the current cycle holds `now`. */
  predicate IsActive(rule: EventRule, now: int)
    requires now >= EPOCH
  {
    var start := ThisStart(rule.schedule, now);
    start <= now && (now as real) < start as real + rule.duration
  }

  /** The current event record: the rule and the end of the current cycle's window. */
  function CurrentWindow(rule: EventRule, now: int): (e: ActiveEvent)
    requires now >= EPOCH
    ensures e.rule == rule
    ensures IsActive(rule, now) <==> e.endsAt - rule.duration <= now as real < e.endsAt
  {
    ActiveEvent(rule, ThisStart(rule.schedule, now) as real + rule.duration)
  }

  /**
   * Being active means lying in one of the rule's windows, whichever cycle it
   * belongs to; the current cycle's is the only one that can hold `now`.
   */
  lemma {:induction false} ActiveIffInSomeWindow(rule: EventRule, now: int, n: int)
    requires now >= EPOCH && WellFormed(rule)
    ensures IsActive(rule, now) ==> n == Cycle(rule.schedule, now) ==>
              WindowStart(rule.schedule, n) <= now && (now as real) < WindowStart(rule.schedule, n) as real + rule.duration
    ensures WindowStart(rule.schedule, n) <= now && (now as real) < WindowStart(rule.schedule, n) as real + rule.duration ==>
              n == Cycle(rule.schedule, now) && IsActive(rule, now)
  {
    var s := rule.schedule;
    var p, o := Period(s), Offset(s);
    if WindowStart(s, n) <= now && (now as real) < WindowStart(s, n) as real + rule.duration {
      assert n * p <= now - EPOCH < n * p + p;
      DivUnique(now - EPOCH, n, p);
    }
  }

  /**
   * Periodicity, stated from the epoch: in every cycle `n` the rule is active
   * exactly for the first `duration` ms from the window's start (active at the
   * start, ended at start + duration) and at no other point of that cycle.
   */
  lemma {:induction false} ActiveExactlyInWindows(rule: EventRule, n: nat, t: int)
    requires WellFormed(rule)
    requires -Offset(rule.schedule) <= t < Period(rule.schedule) - Offset(rule.schedule)
    ensures WindowStart(rule.schedule, n) + t >= EPOCH
    ensures IsActive(rule, WindowStart(rule.schedule, n) + t) <==> 0 <= t && (t as real) < rule.duration
  {
    var s := rule.schedule;
    var now := WindowStart(s, n) + t;
    assert n * Period(s) <= now - EPOCH < n * Period(s) + Period(s);
    DivUnique(now - EPOCH, n, Period(s));
  }

  /** What getCurrentEvents pushes for one rule: its current window if open, else nothing. */
  function ActiveOrNone(rule: EventRule, now: int): seq<ActiveEvent>
    requires now >= EPOCH
  {
    if IsActive(rule, now) then [CurrentWindow(rule, now)] else []
  }

  /** The current events, among `rules`, in the order of `rules`. */
  function ActiveIn(rules: seq<EventRule>, now: int): seq<ActiveEvent>
    requires now >= EPOCH
  {
    if rules == [] then []
    else ActiveIn(rules[..|rules| - 1], now) + ActiveOrNone(rules[|rules| - 1], now)
  }

  /** The current events of the handled rules, one rule after another. */
  lemma ActiveInScheduled(now: int)
    requires now >= EPOCH
    ensures ActiveIn(SCHEDULED, now) ==
      ActiveOrNone(MINING_FIESTA, now) + ActiveOrNone(SPOOKY_FESTIVAL, now) + ActiveOrNone(WINTER_ISLAND, now)
        + ActiveOrNone(TRAVELING_ZOO, now) + ActiveOrNone(DARK_AUCTION, now)
  {
    var one := [MINING_FIESTA];
    var two := [MINING_FIESTA, SPOOKY_FESTIVAL];
    var three := [MINING_FIESTA, SPOOKY_FESTIVAL, WINTER_ISLAND];
    var four := [MINING_FIESTA, SPOOKY_FESTIVAL, WINTER_ISLAND, TRAVELING_ZOO];
    assert one[..0] == [];
    assert ActiveIn(one, now) == ActiveOrNone(MINING_FIESTA, now);
    assert two[..1] == one;
    assert ActiveIn(two, now) == ActiveIn(one, now) + ActiveOrNone(SPOOKY_FESTIVAL, now);
    assert three[..2] == two;
    assert ActiveIn(three, now) == ActiveIn(two, now) + ActiveOrNone(WINTER_ISLAND, now);
    assert four[..3] == three;
    assert ActiveIn(four, now) == ActiveIn(three, now) + ActiveOrNone(TRAVELING_ZOO, now);
    assert SCHEDULED[..4] == four;
    assert ActiveIn(SCHEDULED, now) == ActiveIn(four, now) + ActiveOrNone(DARK_AUCTION, now);
  }

  /** Every current event is reported with a half-open window `[endsAt - duration, endsAt)` holding `now`. */
  lemma {:induction false} ActiveInHalfOpen(rules: seq<EventRule>, now: int)
    requires now >= EPOCH
    ensures forall ev :: ev in ActiveIn(rules, now) ==> ev.endsAt - ev.rule.duration <= now as real < ev.endsAt
  {
    if rules != [] {
      ActiveInHalfOpen(rules[..|rules| - 1], now);
    }
  }

  /** Exactly the active rules are reported, each with its current window. */
  lemma {:induction false} ActiveInMembers(rules: seq<EventRule>, now: int)
    requires now >= EPOCH
    ensures forall ev :: ev in ActiveIn(rules, now) <==>
              ev.rule in rules && IsActive(ev.rule, now) && ev == CurrentWindow(ev.rule, now)
  {
    if rules != [] {
      var init := rules[..|rules| - 1];
      ActiveInMembers(init, now);
      assert rules == init + [rules[|rules| - 1]];
      forall r | r in rules
        ensures r in init || r == rules[|rules| - 1]
      {
      }
    }
  }

  /** Index of the first occurrence of `r` in `rules`. */
  function RankIn(rules: seq<EventRule>, r: EventRule): (k: nat)
    requires r in rules
    ensures k < |rules| && rules[k] == r && r !in rules[..k]
  {
    if rules[0] == r then 0
    else
      var k := 1 + RankIn(rules[1..], r);
      assert rules[1..][..k - 1] == rules[1..k];
      k
  }

  predicate Distinct(rules: seq<EventRule>)
  {
    forall i, j :: 0 <= i < j < |rules| ==> rules[i] != rules[j]
  }

  lemma RankInPrefix(rules: seq<EventRule>, k: nat, r: EventRule)
    requires k <= |rules| && r in rules[..k]
    ensures RankIn(rules, r) == RankIn(rules[..k], r)
  {
  }

  /** `a` comes strictly before `b` in `rules`. */
  predicate Before(rules: seq<EventRule>, a: EventRule, b: EventRule)
  {
    a in rules && b in rules && RankIn(rules, a) < RankIn(rules, b)
  }

  lemma {:induction false} ActiveInRules(rules: seq<EventRule>, now: int)
    requires now >= EPOCH
    ensures forall i :: 0 <= i < |ActiveIn(rules, now)| ==> ActiveIn(rules, now)[i].rule in rules
  {
    if rules != [] {
      ActiveInRules(rules[..|rules| - 1], now);
    }
  }

  /** Current events come out in the fixed order of `rules`, each rule at most once. */
  lemma {:induction false} ActiveInOrder(rules: seq<EventRule>, now: int)
    requires now >= EPOCH && Distinct(rules)
    ensures forall i, j :: 0 <= i < j < |ActiveIn(rules, now)| ==>
              Before(rules, ActiveIn(rules, now)[i].rule, ActiveIn(rules, now)[j].rule)
  {
    if rules != [] {
      var init, last := rules[..|rules| - 1], rules[|rules| - 1];
      var head := ActiveIn(init, now);
      var out := ActiveIn(rules, now);
      ActiveInOrder(init, now);
      ActiveInRules(init, now);
      assert Distinct(init);
      forall i | 0 <= i < |head|
        ensures out[i] == head[i] && RankIn(rules, head[i].rule) == RankIn(init, head[i].rule) < |init|
      {
        RankInPrefix(rules, |init|, head[i].rule);
      }
      forall i, j | 0 <= i < j < |head|
        ensures Before(rules, out[i].rule, out[j].rule)
      {
        assert Before(init, head[i].rule, head[j].rule);
      }
      if IsActive(last, now) {
        assert last !in init;
        assert RankIn(rules, last) == |init|;
        assert out[|head|].rule == last;
      }
    }
  }

  // ---------------------------------------------------------------------------
  // The next window

  /** The first window start strictly after `now`. */
  function NextStart(s: Schedule, now: int): int
    requires now >= EPOCH
  {
    var c := Cycle(s, now);
    if WindowStart(s, c) <= now then WindowStart(s, c + 1) else WindowStart(s, c)
  }

  /**
   * NextStart is a window start, lies after `now`, is at most one period after
   * it, and no window of any cycle opens strictly between `now` and it.
   */
  lemma {:induction false} NextStartIsLeast(s: Schedule, now: int)
    requires now >= EPOCH
    ensures now < NextStart(s, now) <= now + Period(s)
    ensures NextStart(s, now) == WindowStart(s, Cycle(s, now)) || NextStart(s, now) == WindowStart(s, Cycle(s, now) + 1)
    ensures forall n :: now < WindowStart(s, n) ==> NextStart(s, now) <= WindowStart(s, n)
  {
    CycleBounds(s, now);
    forall n | now < WindowStart(s, n)
      ensures NextStart(s, now) <= WindowStart(s, n)
    {
      NoWindowBefore(s, now, n);
    }
  }

  /** A window that opens after `now` opens no earlier than NextStart. */
  lemma NoWindowBefore(s: Schedule, now: int, n: int)
    requires now >= EPOCH && now < WindowStart(s, n)
    ensures NextStart(s, now) <= WindowStart(s, n)
  {
    var c := Cycle(s, now);
    CycleBounds(s, now);
    if n < c {
      WindowStartMono(s, n, c);
    } else if c + 1 < n {
      WindowStartMono(s, c + 1, n);
    } else if c < n {
      WindowStartMono(s, c, n);
    }
  }

  /** The occurrence getNextEventOccurrence reports for a rule it handles. */
  function NextOccurrence(rule: EventRule, now: int): (o: Occurrence)
    requires now >= EPOCH
    ensures o.rule == rule && now < o.startsAt <= now + Period(rule.schedule)
    ensures o.endsAt == o.startsAt as real + rule.duration
  {
    NextStartIsLeast(rule.schedule, now);
    var start := NextStart(rule.schedule, now);
    Occurrence(rule, start, start as real + rule.duration)
  }

  /** The first rule of `rules` with the given id, if any. */
  function RuleFor(rules: seq<EventRule>, id: string): (r: Option<EventRule>)
    ensures r.Some? ==> r.value in rules && r.value.id == id
    ensures r.None? <==> forall rule :: rule in rules ==> rule.id != id
  {
    if rules == [] then None
    else if rules[0].id == id then Some(rules[0])
    else RuleFor(rules[1..], id)
  }

  /**
   * NEW_YEAR is listed in EVENT_TYPES (and so offered for lookup), yet no
   * resolver handles its id, so looking it up finds nothing.
   */
  lemma NewYearUnhandled()
    ensures NEW_YEAR in EVENT_TYPES && NEW_YEAR.id == "new_year"
    ensures RuleFor(SCHEDULED, "new_year") == None
  {
    assert forall rule :: rule in SCHEDULED ==> rule.id != "new_year";
  }

  /** Looking up an id in the handled rules gives the rule of that id, or None. */
  lemma ScheduledIds(id: string)
    ensures RuleFor(SCHEDULED, id) ==
      if id == "mining_fiesta" then Some(MINING_FIESTA)
      else if id == "spooky_festival" then Some(SPOOKY_FESTIVAL)
      else if id == "winter_island" then Some(WINTER_ISLAND)
      else if id == "traveling_zoo" then Some(TRAVELING_ZOO)
      else if id == "dark_auction" then Some(DARK_AUCTION)
      else None
  {
    assert SCHEDULED[1..] == [SPOOKY_FESTIVAL, WINTER_ISLAND, TRAVELING_ZOO, DARK_AUCTION];
    assert SCHEDULED[1..][1..] == [WINTER_ISLAND, TRAVELING_ZOO, DARK_AUCTION];
    assert SCHEDULED[1..][1..][1..] == [TRAVELING_ZOO, DARK_AUCTION];
    assert SCHEDULED[1..][1..][1..][1..] == [DARK_AUCTION];
  }

  /** getNextEventOccurrence: the next window of the handled rule with that id, if there is one. */
  function NextEventOccurrence(id: string, now: int): Option<Occurrence>
    requires now >= EPOCH
  {
    match RuleFor(SCHEDULED, id)
    case Some(rule) => Some(NextOccurrence(rule, now))
    case None => None
  }

  /**
   * The answer for an id is None exactly when no handled rule has that id;
   * otherwise it is that rule's first window strictly after `now`, at most one
   * period ahead, with the rule's duration.
   */
  lemma NextEventOccurrenceIsNext(id: string, now: int)
    requires now >= EPOCH
    ensures NextEventOccurrence(id, now).None? <==> forall rule :: rule in SCHEDULED ==> rule.id != id
    ensures NextEventOccurrence(id, now).Some? ==>
              var o := NextEventOccurrence(id, now).value;
              && o.rule in SCHEDULED && o.rule.id == id
              && now < o.startsAt <= now + Period(o.rule.schedule)
              && o.endsAt == o.startsAt as real + o.rule.duration
              && forall n :: now < WindowStart(o.rule.schedule, n) ==> o.startsAt <= WindowStart(o.rule.schedule, n)
  {
    match RuleFor(SCHEDULED, id)
    case Some(rule) => NextStartIsLeast(rule.schedule, now);
    case None =>
  }

  /** There is never a next New Year Celebration. */
  lemma NoNextNewYear(now: int)
    requires now >= EPOCH
    ensures NextEventOccurrence(NEW_YEAR.id, now) == None
  {
    NewYearUnhandled();
  }

  // ---------------------------------------------------------------------------
  // Upcoming events

  /**
   * Whether getUpcomingEvents lists a rule. A periodic rule always is; an
   * anchored rule is found by a scan of the twelve months from the current one,
   * which meets the anchor month once, in the current year when that month is
   * not yet over; when the current month IS the anchor month and its window has
   * already opened, the scan finds nothing.
   */
  predicate ShownUpcoming(rule: EventRule, now: int)
    requires now >= EPOCH
  {
    match rule.schedule
    case Periodic(_) => true
    case Anchored(month, _) =>
      !(GetSkyBlockTime(now).month == month && ThisStart(rule.schedule, now) <= now)
  }

  /** What getUpcomingEvents pushes for one rule: its next window if shown, else nothing. */
  function UpcomingOrNone(rule: EventRule, now: int): seq<UpcomingEvent>
    requires now >= EPOCH
  {
    if ShownUpcoming(rule, now) then [UpcomingEvent(rule, NextStart(rule.schedule, now))] else []
  }

  /** The upcoming events, among `rules`, in the order they are pushed. */
  function UpcomingIn(rules: seq<EventRule>, now: int): seq<UpcomingEvent>
    requires now >= EPOCH
  {
    if rules == [] then []
    else UpcomingIn(rules[..|rules| - 1], now) + UpcomingOrNone(rules[|rules| - 1], now)
  }

  /** The upcoming events of the handled rules, one rule after another. */
  lemma UpcomingInScheduled(now: int)
    requires now >= EPOCH
    ensures UpcomingIn(SCHEDULED, now) ==
      UpcomingOrNone(MINING_FIESTA, now) + UpcomingOrNone(SPOOKY_FESTIVAL, now) + UpcomingOrNone(WINTER_ISLAND, now)
        + UpcomingOrNone(TRAVELING_ZOO, now) + UpcomingOrNone(DARK_AUCTION, now)
  {
    var one := [MINING_FIESTA];
    var two := [MINING_FIESTA, SPOOKY_FESTIVAL];
    var three := [MINING_FIESTA, SPOOKY_FESTIVAL, WINTER_ISLAND];
    var four := [MINING_FIESTA, SPOOKY_FESTIVAL, WINTER_ISLAND, TRAVELING_ZOO];
    assert one[..0] == [];
    assert UpcomingIn(one, now) == UpcomingOrNone(MINING_FIESTA, now);
    assert two[..1] == one;
    assert UpcomingIn(two, now) == UpcomingIn(one, now) + UpcomingOrNone(SPOOKY_FESTIVAL, now);
    assert three[..2] == two;
    assert UpcomingIn(three, now) == UpcomingIn(two, now) + UpcomingOrNone(WINTER_ISLAND, now);
    assert four[..3] == three;
    assert UpcomingIn(four, now) == UpcomingIn(three, now) + UpcomingOrNone(TRAVELING_ZOO, now);
    assert SCHEDULED[..4] == four;
    assert UpcomingIn(SCHEDULED, now) == UpcomingIn(four, now) + UpcomingOrNone(DARK_AUCTION, now);
  }

  /** getUpcomingEvents: the pushed events sorted, stably, by start. */
  function UpcomingEvents(now: int): seq<UpcomingEvent>
    requires now >= EPOCH
  {
    SortByStart(UpcomingIn(SCHEDULED, now))
  }

  lemma {:induction false} UpcomingInMembers(rules: seq<EventRule>, now: int)
    requires now >= EPOCH
    ensures forall u :: u in UpcomingIn(rules, now) <==>
              u.rule in rules && ShownUpcoming(u.rule, now) && u.startsAt == NextStart(u.rule.schedule, now)
  {
    if rules != [] {
      var init := rules[..|rules| - 1];
      UpcomingInMembers(init, now);
      assert rules == init + [rules[|rules| - 1]];
      forall r | r in rules
        ensures r in init || r == rules[|rules| - 1]
      {
      }
    }
  }

  lemma CountOfAppend(a: seq<UpcomingEvent>, b: seq<UpcomingEvent>, rule: EventRule)
    ensures CountOf(a + b, rule) == CountOf(a, rule) + CountOf(b, rule)
  {
    if a == [] {
      assert a + b == b;
    } else {
      assert (a + b)[0] == a[0];
      assert (a + b)[1..] == a[1..] + b;
      CountOfAppend(a[1..], b, rule);
    }
  }

  /** With distinct rules, each shown rule is pushed exactly once and no other rule at all. */
  lemma {:induction false} UpcomingInCount(rules: seq<EventRule>, now: int, rule: EventRule)
    requires now >= EPOCH && Distinct(rules)
    ensures CountOf(UpcomingIn(rules, now), rule) == if rule in rules && ShownUpcoming(rule, now) then 1 else 0
  {
    if rules != [] {
      var init, last := rules[..|rules| - 1], rules[|rules| - 1];
      UpcomingInCount(init, now, rule);
      CountOfAppend(UpcomingIn(init, now), UpcomingOrNone(last, now), rule);
      assert rules == init + [last];
    }
  }

  /**
   * getUpcomingEvents lists its events sorted by start, every one of them
   * starting strictly after `now` at its rule's next window.
   */
  lemma UpcomingSortedAndAhead(now: int)
    requires now >= EPOCH
    ensures SortedByStart(UpcomingEvents(now))
    ensures forall u :: u in UpcomingEvents(now) ==>
              u.rule in SCHEDULED && now < u.startsAt && u.startsAt == NextStart(u.rule.schedule, now)
  {
    var pushed := UpcomingIn(SCHEDULED, now);
    SortPermutes(pushed);
    UpcomingInMembers(SCHEDULED, now);
    forall u | u in UpcomingEvents(now)
      ensures u in pushed && now < u.startsAt
    {
      assert u in multiset(UpcomingEvents(now));
      NextStartIsLeast(u.rule.schedule, now);
    }
  }
}
