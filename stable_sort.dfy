/**
 * `events.sort((a, b) => a.startsAt - b.startsAt)` on the upcoming events.
 * Array.prototype.sort is stable, so it is modelled as an insertion sort that
 * places each event before the first later-or-equal one of the sorted rest.
 */
module StableSort {
  import opened EventTypes

  predicate SortedByStart(s: seq<UpcomingEvent>)
  {
    forall i, j :: 0 <= i < j < |s| ==> s[i].startsAt <= s[j].startsAt
  }

  /** Inserts `x` ahead of every element of `s` that starts at or after it. */
  function Insert(x: UpcomingEvent, s: seq<UpcomingEvent>): (r: seq<UpcomingEvent>)
    ensures |r| == |s| + 1
    ensures forall i :: 0 <= i < |r| ==> r[i] == x || r[i] in s
    ensures SortedByStart(s) ==> SortedByStart(r)
  {
    if s == [] || x.startsAt <= s[0].startsAt then [x] + s
    else
      var rest := Insert(x, s[1..]);
      assert forall i :: 0 <= i < |rest| ==> rest[i] == x || rest[i] in s by {
        forall i | 0 <= i < |rest| && rest[i] != x ensures rest[i] in s {
          assert rest[i] in s[1..];
        }
      }
      assert SortedByStart(s) ==> forall i :: 0 <= i < |rest| ==> s[0].startsAt <= rest[i].startsAt;
      [s[0]] + rest
  }

  /** The events ordered by start time. */
  function SortByStart(s: seq<UpcomingEvent>): (r: seq<UpcomingEvent>)
    ensures |r| == |s| && SortedByStart(r)
  {
    if s == [] then [] else Insert(s[0], SortByStart(s[1..]))
  }

  lemma {:induction false} InsertPermutes(x: UpcomingEvent, s: seq<UpcomingEvent>)
    ensures multiset(Insert(x, s)) == multiset(s) + multiset{x}
  {
    if s == [] || x.startsAt <= s[0].startsAt {
    } else {
      InsertPermutes(x, s[1..]);
      assert s == [s[0]] + s[1..];
    }
  }

  /** The sorted events are a permutation of the pushed ones. */
  lemma {:induction false} SortPermutes(s: seq<UpcomingEvent>)
    ensures multiset(SortByStart(s)) == multiset(s)
  {
    if s != [] {
      SortPermutes(s[1..]);
      InsertPermutes(s[0], SortByStart(s[1..]));
      assert s == [s[0]] + s[1..];
    }
  }

  /** The events of `s` that start at instant `k`, in their order in `s`. */
  function StartingAt(s: seq<UpcomingEvent>, k: int): seq<UpcomingEvent>
  {
    if s == [] then []
    else (if s[0].startsAt == k then [s[0]] else []) + StartingAt(s[1..], k)
  }

  /** StartingAt of a list with `e` in front: `e` if it starts at `k`, then the rest. */
  lemma StartingAtCons(e: UpcomingEvent, t: seq<UpcomingEvent>, k: int)
    ensures StartingAt([e] + t, k) == (if e.startsAt == k then [e] else []) + StartingAt(t, k)
  {
    assert ([e] + t)[1..] == t;
  }

  /** Two lists of which one is empty can be put in front in either order. */
  lemma SwapEmpty(a: seq<UpcomingEvent>, b: seq<UpcomingEvent>, t: seq<UpcomingEvent>)
    requires a == [] || b == []
    ensures a + (b + t) == b + (a + t)
  {
    if a == [] {
      assert a + (b + t) == b + t;
      assert a + t == t;
    } else {
      assert b + t == t;
      assert b + (a + t) == a + t;
    }
  }

  lemma {:induction false} InsertStartingAt(x: UpcomingEvent, s: seq<UpcomingEvent>, k: int)
    requires SortedByStart(s)
    ensures StartingAt(Insert(x, s), k) == (if x.startsAt == k then [x] else []) + StartingAt(s, k)
  {
    if s == [] || x.startsAt <= s[0].startsAt {
      StartingAtCons(x, s, k);
    } else {
      // s[0] starts strictly before x, so at most one of the two starts at k.
      var px := if x.startsAt == k then [x] else [];
      var p0 := if s[0].startsAt == k then [s[0]] else [];
      var tail := StartingAt(s[1..], k);
      assert SortedByStart(s[1..]);
      InsertStartingAt(x, s[1..], k);
      StartingAtCons(s[0], Insert(x, s[1..]), k);
      StartingAtCons(s[0], s[1..], k);
      assert s == [s[0]] + s[1..];
      SwapEmpty(p0, px, tail);
    }
  }

  /**
   * The sort is stable: events that start at the same instant keep the order
   * they were pushed in.
   */
  lemma {:induction false} SortIsStable(s: seq<UpcomingEvent>, k: int)
    ensures StartingAt(SortByStart(s), k) == StartingAt(s, k)
  {
    if s != [] {
      SortIsStable(s[1..], k);
      InsertStartingAt(s[0], SortByStart(s[1..]), k);
    }
  }

  /** How many events of `s` belong to `rule`. */
  function CountOf(s: seq<UpcomingEvent>, rule: EventRule): nat
  {
    if s == [] then 0
    else (if s[0].rule == rule then 1 else 0) + CountOf(s[1..], rule)
  }

  lemma {:induction false} InsertCount(x: UpcomingEvent, s: seq<UpcomingEvent>, rule: EventRule)
    ensures CountOf(Insert(x, s), rule) == CountOf(s, rule) + (if x.rule == rule then 1 else 0)
  {
    if s == [] || x.startsAt <= s[0].startsAt {
      assert Insert(x, s) == [x] + s;
      assert ([x] + s)[1..] == s;
    } else {
      var r := Insert(x, s);
      assert r == [s[0]] + Insert(x, s[1..]);
      assert r[1..] == Insert(x, s[1..]);
      InsertCount(x, s[1..], rule);
    }
  }

  /** Sorting neither drops nor duplicates the events of any rule. */
  lemma {:induction false} SortKeepsCounts(s: seq<UpcomingEvent>, rule: EventRule)
    ensures CountOf(SortByStart(s), rule) == CountOf(s, rule)
  {
    if s != [] {
      SortKeepsCounts(s[1..], rule);
      InsertCount(s[0], SortByStart(s[1..]), rule);
    }
  }
}
