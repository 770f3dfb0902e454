/**
 Rolling inter-arrival statistics of the activity tracker.

 `ProcessEvents` keeps the events newer than seven days before `now`, groups
 their timestamps by event type in input order, and reports for each type the
 mean gap between consecutive timestamps (0.0 when a type has one event).
 Timestamps are whole seconds; averages are exact reals.
 */
module EventStats {

  /**
   One stored activity record: the repository, the event type and the moment
   it happened (whole seconds, UTC). The reference instant `now` passed to the
   routine is taken rounded down to the second, which gives the same window
   test because event times are whole seconds.
   */
  datatype Event = Event(repo: string, eventType: string, eventTime: int)

  /** Length of the trailing window: seven days, in seconds. */
  const Window: int := 7 * 86400

  /** An event counts only if it is strictly newer than `now` minus the window. */
  predicate InWindow(e: Event, now: int) {
    e.eventTime > now - Window
  }

  // ---------------------------------------------------------------------------
  // Specification of the grouping pass
  // ---------------------------------------------------------------------------

  /** The timestamps of the retained events of type `t`, in the order they occur in `events`. */
  function TimesOf(events: seq<Event>, now: int, t: string): seq<int>
  {
    if events == [] then []
    else
      var last := events[|events| - 1];
      var earlier := TimesOf(events[..|events| - 1], now, t);
      if InWindow(last, now) && last.eventType == t then earlier + [last.eventTime] else earlier
  }

  /** The types of the retained events, each once, in order of first appearance. */
  function TypeOrder(events: seq<Event>, now: int): seq<string>
  {
    if events == [] then []
    else
      var last := events[|events| - 1];
      var earlier := TypeOrder(events[..|events| - 1], now);
      if InWindow(last, now) && last.eventType !in earlier then earlier + [last.eventType] else earlier
  }

  // ---------------------------------------------------------------------------
  // Specification of the averaging pass
  // ---------------------------------------------------------------------------

  /** Consecutive gaps `times[i-1] - times[i]` for `i` in `1 .. |times| - 1`. */
  function Gaps(times: seq<int>): seq<int>
  {
    if |times| <= 1 then []
    else seq(|times| - 1, k requires 0 <= k < |times| - 1 => times[k] - times[k + 1])
  }

  /** Sum of a sequence of integers. */
  function Sum(s: seq<int>): int
  {
    if s == [] then 0 else s[0] + Sum(s[1..])
  }

  /** `total / count` as an exact real, the value Python's `sum(diffs) / len(diffs)` approximates. */
  function Ratio(total: int, count: int): real
    requires count > 0
  {
    total as real / count as real
  }

  /** Mean of the consecutive gaps; a group of fewer than two timestamps gets the sentinel 0.0. */
  function MeanGap(times: seq<int>): real
  {
    if |times| > 1 then Ratio(Sum(Gaps(times)), |times| - 1) else 0.0
  }

  /** The statistics the routine reports: one entry per retained type. */
  function Averages(events: seq<Event>, now: int): map<string, real>
  {
    map t | t in TypeOrder(events, now) :: MeanGap(TimesOf(events, now, t))
  }

  // ---------------------------------------------------------------------------
  // The routine itself
  // ---------------------------------------------------------------------------

  /**
   The routine: the grouping pass, then the averaging pass. `keyOrder` is the
   insertion order of both dictionaries.
   */
  method ProcessEvents(events: seq<Event>, now: int) returns (avgTimes: map<string, real>, keyOrder: seq<string>)
    ensures keyOrder == TypeOrder(events, now)
    ensures avgTimes == Averages(events, now)
    ensures avgTimes.Keys == set e | e in events && InWindow(e, now) :: e.eventType
    ensures forall i, j :: 0 <= i < j < |keyOrder| ==> keyOrder[i] != keyOrder[j]
  {
    var eventTimes;
    eventTimes, keyOrder := GroupByType(events, now);
    avgTimes := AverageGroups(eventTimes, keyOrder);
    GroupedAverages(avgTimes, eventTimes, keyOrder, events, now);
    AveragesKeys(events, now);
    TypeOrderDistinct(events, now);
  }

  /**
   The grouping pass: appends the timestamp of every event inside the window
   to its type's list, creating the list on the type's first appearance.
   */
  method GroupByType(events: seq<Event>, now: int) returns (eventTimes: map<string, seq<int>>, keyOrder: seq<string>)
    ensures keyOrder == TypeOrder(events, now)
    ensures forall t :: t in eventTimes <==> t in keyOrder
    ensures forall t :: t in eventTimes ==> eventTimes[t] == TimesOf(events, now, t)
  {
    eventTimes, keyOrder := map[], [];
    var i := 0;
    while i < |events|
      invariant 0 <= i <= |events|
      invariant Grouped(eventTimes, keyOrder, events[..i], now)
    {
      var eventType := events[i].eventType;
      var eventTime := events[i].eventTime;
      assert events[..i + 1] == events[..i] + [events[i]];
      GroupedAppend(eventTimes, keyOrder, events[..i], events[i], now);
      if eventTime > now - Window {
        if eventType !in eventTimes {
          eventTimes := eventTimes[eventType := []];
          keyOrder := keyOrder + [eventType];
        }
        eventTimes := eventTimes[eventType := eventTimes[eventType] + [eventTime]];
      }
      i := i + 1;
    }
    assert events[..i] == events;
  }

  /**
   The averaging pass: visits the keys in insertion order and stores the mean
   of the consecutive gaps, or 0.0 for a list of one timestamp.
   */
  method AverageGroups(eventTimes: map<string, seq<int>>, keyOrder: seq<string>) returns (avgTimes: map<string, real>)
    requires forall t :: t in keyOrder ==> t in eventTimes
    ensures forall t :: t in avgTimes <==> t in keyOrder
    ensures forall t :: t in avgTimes ==> avgTimes[t] == MeanGap(eventTimes[t])
  {
    avgTimes := map[];
    var j := 0;
    while j < |keyOrder|
      invariant 0 <= j <= |keyOrder|
      invariant forall t :: t in avgTimes <==> exists k :: 0 <= k < j && keyOrder[k] == t
      invariant forall t :: t in avgTimes ==> avgTimes[t] == MeanGap(eventTimes[t])
    {
      var eventType := keyOrder[j];
      var times := eventTimes[eventType];
      if |times| > 1 {
        var diffs := Gaps(times);
        var avgTime := Ratio(Sum(diffs), |diffs|);
        avgTimes := avgTimes[eventType := avgTime];
      } else {
        avgTimes := avgTimes[eventType := 0.0];
      }
      j := j + 1;
    }
  }

  // ---------------------------------------------------------------------------
  // Grouping: which types get an entry, and what each group holds
  // ---------------------------------------------------------------------------

  /** One more event adds its type to the key order only when it is inside the window and its type is new. */
  lemma AppendEventOrder(events: seq<Event>, e: Event, now: int)
    ensures TypeOrder(events + [e], now) ==
            if InWindow(e, now) && e.eventType !in TypeOrder(events, now)
            then TypeOrder(events, now) + [e.eventType] else TypeOrder(events, now)
  {
    assert (events + [e])[..|events|] == events;
  }

  /** One more event extends its own type's group when it is inside the window; every other group is unchanged. */
  lemma AppendEventTimes(events: seq<Event>, e: Event, now: int, t: string)
    ensures TimesOf(events + [e], now, t) ==
            if InWindow(e, now) && e.eventType == t
            then TimesOf(events, now, t) + [e.eventTime] else TimesOf(events, now, t)
  {
    assert (events + [e])[..|events|] == events;
  }

  /**
   What the grouping pass has built after reading `events`: `keyOrder` lists
   the dictionary's keys in insertion order and each key maps to its group.
   */
  ghost predicate Grouped(eventTimes: map<string, seq<int>>, keyOrder: seq<string>, events: seq<Event>, now: int)
  {
    && keyOrder == TypeOrder(events, now)
    && (forall t :: t in eventTimes <==> t in keyOrder)
    && (forall t :: t in eventTimes ==> eventTimes[t] == TimesOf(events, now, t))
  }

  /** One step of the grouping pass keeps `Grouped`, in each of its three branches. */
  lemma GroupedAppend(eventTimes: map<string, seq<int>>, keyOrder: seq<string>, events: seq<Event>, e: Event, now: int)
    requires Grouped(eventTimes, keyOrder, events, now)
    ensures !InWindow(e, now) ==> Grouped(eventTimes, keyOrder, events + [e], now)
    ensures InWindow(e, now) && e.eventType !in eventTimes ==>
            Grouped(eventTimes[e.eventType := [e.eventTime]], keyOrder + [e.eventType], events + [e], now)
    ensures InWindow(e, now) && e.eventType in eventTimes ==>
            Grouped(eventTimes[e.eventType := eventTimes[e.eventType] + [e.eventTime]], keyOrder, events + [e], now)
  {
    var more := events + [e];
    AppendEventOrder(events, e, now);
    if !InWindow(e, now) {
      forall t | t in eventTimes ensures eventTimes[t] == TimesOf(more, now, t) {
        AppendEventTimes(events, e, now, t);
      }
    } else if e.eventType !in eventTimes {
      var m := eventTimes[e.eventType := [e.eventTime]];
      assert TimesOf(events, now, e.eventType) == [] by {
        TypeOrderHasNonEmptyTimes(events, now, e.eventType);
      }
      forall t | t in m ensures m[t] == TimesOf(more, now, t) {
        AppendEventTimes(events, e, now, t);
      }
    } else {
      var m := eventTimes[e.eventType := eventTimes[e.eventType] + [e.eventTime]];
      forall t | t in m ensures m[t] == TimesOf(more, now, t) {
        AppendEventTimes(events, e, now, t);
      }
    }
  }

  /** Averaging every group of a finished grouping pass, key by key, yields `Averages`. */
  lemma GroupedAverages(avgTimes: map<string, real>, eventTimes: map<string, seq<int>>, keyOrder: seq<string>, events: seq<Event>, now: int)
    requires Grouped(eventTimes, keyOrder, events, now)
    requires forall t :: t in avgTimes <==> t in keyOrder
    requires forall t :: t in avgTimes ==> avgTimes[t] == MeanGap(eventTimes[t])
    ensures avgTimes == Averages(events, now)
  {
    assert avgTimes.Keys == Averages(events, now).Keys;
  }

  /** A type is listed exactly when its group of retained timestamps is non-empty. */
  lemma {:induction false} TypeOrderHasNonEmptyTimes(events: seq<Event>, now: int, t: string)
    ensures t in TypeOrder(events, now) <==> TimesOf(events, now, t) != []
    decreases |events|
  {
    if events != [] {
      TypeOrderHasNonEmptyTimes(events[..|events| - 1], now, t);
    }
  }

  /** A type has retained timestamps exactly when some event of that type lies inside the window. */
  lemma {:induction false} TimesOfNonEmpty(events: seq<Event>, now: int, t: string)
    ensures TimesOf(events, now, t) != [] <==>
            exists j :: 0 <= j < |events| && InWindow(events[j], now) && events[j].eventType == t
    decreases |events|
  {
    if events != [] {
      var n := |events|;
      var earlier := events[..n - 1];
      TimesOfNonEmpty(earlier, now, t);
      if exists j :: 0 <= j < n - 1 && InWindow(earlier[j], now) && earlier[j].eventType == t {
        var j :| 0 <= j < n - 1 && InWindow(earlier[j], now) && earlier[j].eventType == t;
        assert events[j] == earlier[j];
      }
      if exists j :: 0 <= j < n && InWindow(events[j], now) && events[j].eventType == t {
        var j :| 0 <= j < n && InWindow(events[j], now) && events[j].eventType == t;
        if j < n - 1 {
          assert earlier[j] == events[j];
        }
      }
    }
  }

  /** The reported types are exactly the types of the events inside the window. */
  lemma AveragesKeys(events: seq<Event>, now: int)
    ensures Averages(events, now).Keys == set e | e in events && InWindow(e, now) :: e.eventType
  {
    var retained := set e | e in events && InWindow(e, now) :: e.eventType;
    forall t ensures t in Averages(events, now) <==> t in retained {
      TypeOrderHasNonEmptyTimes(events, now, t);
      TimesOfNonEmpty(events, now, t);
      if t in retained {
        var e :| e in events && InWindow(e, now) && e.eventType == t;
        var j :| 0 <= j < |events| && events[j] == e;
      }
    }
  }

  /** Each type is reported once: the key order has no repetitions. */
  lemma {:induction false} TypeOrderDistinct(events: seq<Event>, now: int)
    ensures forall i, j :: 0 <= i < j < |TypeOrder(events, now)| ==> TypeOrder(events, now)[i] != TypeOrder(events, now)[j]
    decreases |events|
  {
    if events != [] {
      TypeOrderDistinct(events[..|events| - 1], now);
    }
  }

  /** Some event before position `q` is inside the window and of type `t`. */
  ghost predicate RetainedBefore(events: seq<Event>, now: int, t: string, q: int)
  {
    exists p :: 0 <= p < q && p < |events| && InWindow(events[p], now) && events[p].eventType == t
  }

  /** A type is a key exactly when some event of that type is inside the window. */
  lemma TypeOrderMembers(events: seq<Event>, now: int, t: string)
    ensures t in TypeOrder(events, now) <==> RetainedBefore(events, now, t, |events|)
  {
    TypeOrderHasNonEmptyTimes(events, now, t);
    TimesOfNonEmpty(events, now, t);
  }

  /**
   Keys are ordered by first appearance: any in-window event whose type is the
   key at position `j` comes after an in-window event of every earlier key.
   */
  lemma {:induction false} TypeOrderFirstAppearance(events: seq<Event>, now: int, i: int, j: int, q: int)
    requires 0 <= i < j < |TypeOrder(events, now)|
    requires 0 <= q < |events| && InWindow(events[q], now) && events[q].eventType == TypeOrder(events, now)[j]
    ensures RetainedBefore(events, now, TypeOrder(events, now)[i], q)
    decreases |events|
  {
    var n := |events|;
    var earlier, last := events[..n - 1], events[n - 1];
    var order, before := TypeOrder(events, now), TypeOrder(earlier, now);
    assert order == before || order == before + [last.eventType];
    assert i < |before|;
    assert order[i] == before[i];
    if q < n - 1 {
      assert earlier[q] == events[q];
      if j < |before| {
        assert order[j] == before[j];
        TypeOrderFirstAppearance(earlier, now, i, j, q);
        var p :| 0 <= p < q && p < |earlier| && InWindow(earlier[p], now) && earlier[p].eventType == before[i];
        assert events[p] == earlier[p];
      } else {
        TypeOrderMembers(earlier, now, last.eventType);
        assert RetainedBefore(earlier, now, last.eventType, |earlier|);
        assert false;
      }
    } else {
      TypeOrderMembers(earlier, now, before[i]);
      var p :| 0 <= p < n - 1 && p < |earlier| && InWindow(earlier[p], now) && earlier[p].eventType == before[i];
      assert events[p] == earlier[p];
    }
  }

  /** The positions in `events` of the retained events of type `t`, in increasing order. */
  function RetainedIndices(events: seq<Event>, now: int, t: string): seq<int>
  {
    if events == [] then []
    else
      var last := events[|events| - 1];
      var earlier := RetainedIndices(events[..|events| - 1], now, t);
      if InWindow(last, now) && last.eventType == t then earlier + [|events| - 1] else earlier
  }

  /**
   `ts` is the timestamps of the events of `events` at the strictly increasing
   positions `idx`, these are events of type `t` inside the window, and every
   such event is among them.
   */
  ghost predicate OrderedSelection(events: seq<Event>, now: int, t: string, idx: seq<int>, ts: seq<int>)
  {
    && |idx| == |ts|
    && (forall k :: 0 <= k < |idx| ==>
          0 <= idx[k] < |events| && events[idx[k]].eventType == t &&
          InWindow(events[idx[k]], now) && ts[k] == events[idx[k]].eventTime)
    && (forall k, l :: 0 <= k < l < |idx| ==> idx[k] < idx[l])
    && (forall j :: 0 <= j < |events| && events[j].eventType == t && InWindow(events[j], now) ==> j in idx)
  }

  /** Reading one more event extends an ordered selection by that event's position when it matches. */
  lemma SelectionAppend(events: seq<Event>, e: Event, now: int, t: string, idx: seq<int>, ts: seq<int>)
    requires OrderedSelection(events, now, t, idx, ts)
    ensures InWindow(e, now) && e.eventType == t ==> OrderedSelection(events + [e], now, t, idx + [|events|], ts + [e.eventTime])
    ensures !(InWindow(e, now) && e.eventType == t) ==> OrderedSelection(events + [e], now, t, idx, ts)
  {
    var all := events + [e];
    assert forall j :: 0 <= j < |events| ==> all[j] == events[j];
    if InWindow(e, now) && e.eventType == t {
      var idx', ts' := idx + [|events|], ts + [e.eventTime];
      assert forall k :: 0 <= k < |idx| ==> idx'[k] == idx[k] && ts'[k] == ts[k];
      assert idx'[|idx|] == |events| && ts'[|idx|] == e.eventTime;
    }
  }

  /** A group holds all of its type's retained timestamps, nothing else, in input order. */
  lemma {:induction false} TimesOfIsOrderedSelection(events: seq<Event>, now: int, t: string)
    ensures OrderedSelection(events, now, t, RetainedIndices(events, now, t), TimesOf(events, now, t))
    decreases |events|
  {
    if events != [] {
      var n := |events|;
      var earlier, last := events[..n - 1], events[n - 1];
      TimesOfIsOrderedSelection(earlier, now, t);
      assert events == earlier + [last];
      SelectionAppend(earlier, last, now, t, RetainedIndices(earlier, now, t), TimesOf(earlier, now, t));
    }
  }

  // ---------------------------------------------------------------------------
  // Averaging: telescoping, the sentinel, non-negativity
  // ---------------------------------------------------------------------------

  /** The gaps of a sequence are its first gap followed by the gaps of its tail. */
  lemma GapsCons(times: seq<int>)
    requires |times| >= 2
    ensures Gaps(times) == [times[0] - times[1]] + Gaps(times[1..])
  {
    assert Gaps(times)[1..] == Gaps(times[1..]);
  }

  /** The consecutive gaps telescope: their sum is the first timestamp minus the last. */
  lemma {:induction false} GapsTelescope(times: seq<int>)
    requires |times| >= 1
    ensures Sum(Gaps(times)) == times[0] - times[|times| - 1]
    decreases |times|
  {
    if |times| > 1 {
      var rest := times[1..];
      GapsTelescope(rest);
      GapsCons(times);
    }
  }

  /** With two or more timestamps the mean gap is (first - last) / (count - 1). */
  lemma MeanGapClosedForm(times: seq<int>)
    requires |times| >= 2
    ensures MeanGap(times) == Ratio(times[0] - times[|times| - 1], |times| - 1)
  {
    GapsTelescope(times);
  }

  /** A type with retained events is reported with the mean gap of its group. */
  lemma ReportedMean(events: seq<Event>, now: int, t: string)
    requires TimesOf(events, now, t) != []
    ensures t in Averages(events, now) && Averages(events, now)[t] == MeanGap(TimesOf(events, now, t))
  {
    TypeOrderHasNonEmptyTimes(events, now, t);
  }

  /** A type with exactly one retained event is reported with the sentinel 0.0. */
  lemma SingleEventSentinel(events: seq<Event>, now: int, t: string)
    requires |TimesOf(events, now, t)| == 1
    ensures t in Averages(events, now) && Averages(events, now)[t] == 0.0
  {
    TypeOrderHasNonEmptyTimes(events, now, t);
  }

  /** A type with n >= 2 retained events is reported with (newest kept - oldest kept) / (n - 1), read in input order. */
  lemma SeveralEventsMean(events: seq<Event>, now: int, t: string)
    requires |TimesOf(events, now, t)| >= 2
    ensures var ts := TimesOf(events, now, t);
            t in Averages(events, now) && Averages(events, now)[t] == Ratio(ts[0] - ts[|ts| - 1], |ts| - 1)
  {
    var ts := TimesOf(events, now, t);
    assert t in Averages(events, now) && Averages(events, now)[t] == MeanGap(ts) by { ReportedMean(events, now, t); }
    assert MeanGap(ts) == Ratio(ts[0] - ts[|ts| - 1], |ts| - 1) by { MeanGapClosedForm(ts); }
  }

  /** The order the caller's query supplies: newest first (the relation `NonIncreasing`, read on the timestamps). */
  ghost predicate NewestFirst(events: seq<Event>) {
    forall i, j :: 0 <= i < j < |events| ==> events[i].eventTime >= events[j].eventTime
  }

  /** Timestamps read newest first: the same relation as `NewestFirst`, on bare timestamps. */
  ghost predicate NonIncreasing(ts: seq<int>) {
    forall k, l :: 0 <= k < l < |ts| ==> ts[k] >= ts[l]
  }

  /** Over a newest-first input every group is newest first too. */
  lemma TimesOfNewestFirst(events: seq<Event>, now: int, t: string)
    requires NewestFirst(events)
    ensures NonIncreasing(TimesOf(events, now, t))
  {
    TimesOfIsOrderedSelection(events, now, t);
  }

  /** Over a newest-first input every consecutive gap of every group is non-negative. */
  lemma GapsNonNegative(events: seq<Event>, now: int, t: string)
    requires NewestFirst(events)
    ensures forall g :: g in Gaps(TimesOf(events, now, t)) ==> g >= 0
  {
    TimesOfNewestFirst(events, now, t);
  }

  /** A non-negative total over a positive count has a non-negative ratio. */
  lemma RatioNonNegative(total: int, count: int)
    requires total >= 0 && count > 0
    ensures Ratio(total, count) >= 0.0
  {
  }

  /** A newest-first group has a non-negative mean gap. */
  lemma MeanGapNonNegative(times: seq<int>)
    requires NonIncreasing(times)
    ensures MeanGap(times) >= 0.0
  {
    if |times| >= 2 {
      MeanGapClosedForm(times);
      assert times[0] >= times[|times| - 1];
      RatioNonNegative(times[0] - times[|times| - 1], |times| - 1);
    }
  }

  /** Over a newest-first input every reported average is non-negative. */
  lemma AveragesNonNegative(events: seq<Event>, now: int)
    requires NewestFirst(events)
    ensures forall t :: t in Averages(events, now) ==> Averages(events, now)[t] >= 0.0
  {
    forall t | t in Averages(events, now) ensures Averages(events, now)[t] >= 0.0 {
      TimesOfNewestFirst(events, now, t);
      MeanGapNonNegative(TimesOf(events, now, t));
    }
  }

  // ---------------------------------------------------------------------------
  // The window
  // ---------------------------------------------------------------------------

  /** An event outside the window has no effect on the key order or on any group. */
  lemma {:induction false} OutOfWindowInvisible(before: seq<Event>, e: Event, after: seq<Event>, now: int, t: string)
    requires !InWindow(e, now)
    ensures TypeOrder(before + [e] + after, now) == TypeOrder(before + after, now)
    ensures TimesOf(before + [e] + after, now, t) == TimesOf(before + after, now, t)
    decreases |after|
  {
    if after == [] {
      assert before + [e] + after == before + [e];
      assert before + after == before;
      AppendEventOrder(before, e, now);
      AppendEventTimes(before, e, now, t);
    } else {
      var m := |after|;
      var shorter := after[..m - 1];
      var x := after[m - 1];
      OutOfWindowInvisible(before, e, shorter, now, t);
      assert before + [e] + after == (before + [e] + shorter) + [x];
      assert before + after == (before + shorter) + [x];
      AppendEventOrder(before + [e] + shorter, x, now);
      AppendEventOrder(before + shorter, x, now);
      AppendEventTimes(before + [e] + shorter, x, now, t);
      AppendEventTimes(before + shorter, x, now, t);
    }
  }

  /** An event outside the window does not change the reported statistics. */
  lemma OutOfWindowIgnored(before: seq<Event>, e: Event, after: seq<Event>, now: int)
    requires !InWindow(e, now)
    ensures Averages(before + [e] + after, now) == Averages(before + after, now)
  {
    var with := before + [e] + after;
    var without := before + after;
    forall t ensures TimesOf(with, now, t) == TimesOf(without, now, t) {
      OutOfWindowInvisible(before, e, after, now, t);
    }
    OutOfWindowInvisible(before, e, after, now, "");
  }

  /** An event exactly seven days old is excluded: it changes nothing in the result. */
  lemma SevenDaysOldExcluded(before: seq<Event>, repo: string, t: string, after: seq<Event>, now: int)
    ensures Averages(before + [Event(repo, t, now - Window)] + after, now) == Averages(before + after, now)
  {
    OutOfWindowIgnored(before, Event(repo, t, now - Window), after, now);
  }

  /** An event one second younger than seven days is included: its type is reported. */
  lemma JustInsideWindowIncluded(before: seq<Event>, repo: string, t: string, after: seq<Event>, now: int)
    ensures t in Averages(before + [Event(repo, t, now - Window + 1)] + after, now)
  {
    var events := before + [Event(repo, t, now - Window + 1)] + after;
    assert events[|before|] == Event(repo, t, now - Window + 1);
    AveragesKeys(events, now);
  }

  // ---------------------------------------------------------------------------
  // Worked cases
  // ---------------------------------------------------------------------------

  /** Identical timestamps give zero gaps: the mean is 0.0 and nothing goes wrong. */
  lemma IdenticalTimestampsMeanZero(times: seq<int>)
    requires |times| >= 2
    requires forall k :: 0 <= k < |times| ==> times[k] == times[0]
    ensures MeanGap(times) == 0.0
  {
    MeanGapClosedForm(times);
  }

  /** Gaps of 10 s and 20 s average to 15 s; one gap of 30 s averages to 30 s. */
  lemma GapExamples(t: int)
    ensures MeanGap([t + 30, t + 20, t]) == 15.0
    ensures MeanGap([t + 30, t]) == 30.0
  {
    MeanGapClosedForm([t + 30, t + 20, t]);
    MeanGapClosedForm([t + 30, t]);
  }

  /** The three events of the scenario below, newest first, as the caller's query returns them. */
  function PushAndForkEvents(T: int): seq<Event>
  {
    [Event("a/b", "ForkEvent", T + 90), Event("a/b", "PushEvent", T + 60), Event("a/b", "PushEvent", T)]
  }

  /** Grouping the scenario at T+100: keys fork then push, the fork alone, the pushes newest first. */
  lemma PushAndForkGroups(T: int)
    ensures TypeOrder(PushAndForkEvents(T), T + 100) == ["ForkEvent", "PushEvent"]
    ensures TimesOf(PushAndForkEvents(T), T + 100, "ForkEvent") == [T + 90]
    ensures TimesOf(PushAndForkEvents(T), T + 100, "PushEvent") == [T + 60, T]
  {
    var now, events := T + 100, PushAndForkEvents(T);
    var fork, push1, push0 := events[0], events[1], events[2];
    var one, two := [fork], [fork, push1];
    assert one == [] + [fork] && two == one + [push1] && events == two + [push0];
    assert "ForkEvent"[0] != "PushEvent"[0];
    assert TypeOrder(one, now) == ["ForkEvent"] by { AppendEventOrder([], fork, now); }
    assert TypeOrder(two, now) == ["ForkEvent", "PushEvent"] by { AppendEventOrder(one, push1, now); }
    assert TypeOrder(events, now) == ["ForkEvent", "PushEvent"] by { AppendEventOrder(two, push0, now); }
    assert TimesOf(one, now, "ForkEvent") == [T + 90] by { AppendEventTimes([], fork, now, "ForkEvent"); }
    assert TimesOf(two, now, "ForkEvent") == [T + 90] by { AppendEventTimes(one, push1, now, "ForkEvent"); }
    assert TimesOf(events, now, "ForkEvent") == [T + 90] by { AppendEventTimes(two, push0, now, "ForkEvent"); }
    assert TimesOf(one, now, "PushEvent") == [] by { AppendEventTimes([], fork, now, "PushEvent"); }
    assert TimesOf(two, now, "PushEvent") == [T + 60] by { AppendEventTimes(one, push1, now, "PushEvent"); }
    assert TimesOf(events, now, "PushEvent") == [T + 60, T] by { AppendEventTimes(two, push0, now, "PushEvent"); }
  }

  /**
   Pushes at T and T+60 and a fork at T+90 for one repository, evaluated at
   T+100: the pushes average 60 s and the fork gets 0.0.
   */
  lemma PushAndForkScenario(T: int)
    ensures Averages(PushAndForkEvents(T), T + 100) == map["ForkEvent" := 0.0, "PushEvent" := 60.0]
  {
    var now, events := T + 100, PushAndForkEvents(T);
    PushAndForkGroups(T);
    MeanGapClosedForm([T + 60, T]);
    assert Averages(events, now).Keys == {"ForkEvent", "PushEvent"};
  }
}
