# Rolling inter-arrival statistics of the GitHub activity tracker

The tracker polls GitHub for repository events, stores them, and reports, per
repository and per event type, the mean time between consecutive events over
the last seven days. This project models the one routine that computes those
numbers, `process_events` in `app.py`, and proves what it reports.

The routine receives the events of one repository and a reference instant
`now`. It works in two passes:

1. **Grouping.** Events strictly newer than `now - 7 days` are kept. Their
   timestamps are appended to a dictionary keyed by event type, in input order.
2. **Averaging.** Each type gets the arithmetic mean of the gaps
   `times[i-1] - times[i]` between consecutive timestamps. A type with a
   single event gets the sentinel `0.0`.

Everything is in `event_stats.dfy`, module `EventStats`:

- `Event` holds the stored record's repository, type and timestamp. Timestamps
  are whole seconds as `int`, and the window `Window` is `7 * 86400` seconds.
- `ProcessEvents` is the routine. Its two loops are the methods
  `GroupByType` and `AverageGroups`. `GroupByType` updates the grouping map
  `eventTimes` in place, event by event. `AverageGroups` fills `avgTimes` key
  by key. A Python dict iterates in insertion order, so a dictionary is
  modelled as a `map` plus `keyOrder`, the order in which its keys were
  inserted. Both dictionaries share that order.
- The specification functions are `TimesOf` (one type's group), `TypeOrder`
  (the retained types in order of first appearance), `Gaps`, `Sum`, `MeanGap`
  and `Averages` (the whole reported map). `ProcessEvents` is proved equal to
  them. The lemmas then state the promised properties about these functions.
- Averages are exact `real`s. `Ratio(total, count)` is the division
  `sum(diffs) / len(diffs)`.

The input is a `seq`, which is a value, so the routine cannot alter the
caller's list. `ProcessEvents` has no `modifies` clause and its result is
pinned to `Averages(events, now)`. So it depends on nothing but the events
and `now`.

The non-negativity of the averages depends on the caller. The statistics
are meant as non-negative durations, but the routine itself does not sort. It relies on the caller's query, which orders
by time descending (`app.py:103`). Non-negativity is therefore proved under
the precondition `NewestFirst(events)`. For other inputs the gaps, and the
averages, can be negative.

## Model

| member | source | states |
|---|---|---|
| EventStats.ProcessEvents | app.py:70-94 | The key order is the retained types in first-appearance order, with no repeats. The result map equals `Averages(events, now)`. Its keys are exactly the types of the events inside the window. |
| EventStats.GroupByType | app.py:71-78 | After the first loop the dictionary's keys, in insertion order, are the retained types in first-appearance order. Each key maps to its type's retained timestamps in input order. |
| EventStats.AverageGroups | app.py:81-92 | The second loop gives every key of the grouping dictionary an entry, and no other key. Each entry is the mean gap of that key's list, or 0.0 for a list of one. |
| EventStats.AppendEventOrder | app.py:75-77 | Reading one more event adds its type to the key order only when the event is inside the window and the type is new. |
| EventStats.AppendEventTimes | app.py:75-78 | Reading one more event appends its timestamp to its own type's group only when it is inside the window. Every other group is unchanged. |
| EventStats.GroupedAppend | app.py:75-78 | Each of the three branches of the grouping loop body keeps the dictionary equal to the groups of the events read so far. The branches are: outside the window, new type, known type. |
| EventStats.GroupedAverages | app.py:81-94 | Averaging every list of a finished grouping dictionary, key by key, gives exactly `Averages(events, now)`. |
| EventStats.TypeOrderHasNonEmptyTimes | app.py:76-78 | A type is a key exactly when its group is non-empty, so no key ever maps to an empty list. |
| EventStats.TimesOfNonEmpty | app.py:75-78 | A type's group is non-empty exactly when some event of that type is strictly newer than `now - 7 days`. |
| EventStats.AveragesKeys | app.py:81-82 | The reported keys are exactly the types with at least one event inside the window. A type with no retained events gets no entry. |
| EventStats.TypeOrderDistinct | app.py:76-77 | Each type enters the dictionary once: the key order has no repetitions. |
| EventStats.TypeOrderMembers | app.py:75-78 | A type is a key exactly when some event of that type is strictly newer than `now - 7 days`. |
| EventStats.TypeOrderFirstAppearance | app.py:72-78 | For keys at positions i < j of the key order, every in-window event of the later key is preceded in the input by an in-window event of the earlier key: keys are ordered by first appearance. |
| EventStats.TimesOfIsOrderedSelection | app.py:72-78 | A group is the timestamps of that type's in-window events at strictly increasing input positions. It contains every such event and nothing else. |
| EventStats.GapsCons | app.py:85 | The gap list is the first gap followed by the gap list of the tail. |
| EventStats.GapsTelescope | app.py:85-87 | The consecutive gaps sum to the first timestamp minus the last. |
| EventStats.MeanGapClosedForm | app.py:84-88 | With n ≥ 2 timestamps the mean gap is `(times[0] - times[n-1]) / (n-1)`. |
| EventStats.SelectionAppend | app.py:75-78 | Reading one more event extends a group's selection by that event's position exactly when the event is of that type and inside the window. |
| EventStats.ReportedMean | app.py:82-91 | A type with retained events is reported with the mean gap of its group. |
| EventStats.SingleEventSentinel | app.py:84-91 | A type with exactly one retained event is reported, with exactly 0.0. |
| EventStats.SeveralEventsMean | app.py:84-88 | A type with n ≥ 2 retained events is reported with (first kept − last kept) / (n − 1), read in input order. |
| EventStats.TimesOfNewestFirst | app.py:103 | If the input is newest first, as the caller's query returns it, every group is newest first. |
| EventStats.GapsNonNegative | app.py:85 | Over a newest-first input every gap of every group is ≥ 0. |
| EventStats.MeanGapNonNegative | app.py:84-91 | A newest-first list of timestamps has a mean gap ≥ 0. |
| EventStats.AveragesNonNegative | app.py:84-91 | Over a newest-first input every reported average is ≥ 0. |
| EventStats.OutOfWindowInvisible | app.py:75 | Inserting an event outside the window anywhere in the input leaves the key order and every group unchanged. |
| EventStats.OutOfWindowIgnored | app.py:75 | Inserting an event outside the window anywhere in the input leaves the reported map unchanged. |
| EventStats.SevenDaysOldExcluded | app.py:75 | An event exactly seven days old changes nothing: the boundary is exclusive. |
| EventStats.JustInsideWindowIncluded | app.py:75-82 | An event one second younger than seven days makes its type appear in the result. |
| EventStats.IdenticalTimestampsMeanZero | app.py:85-87 | A group of equal timestamps has mean 0.0. Zero gaps cause no error. |
| EventStats.GapExamples | app.py:85-87 | Gaps of 10 s and 20 s average to 15 s. A single 30 s gap averages to 30 s. |
| EventStats.PushAndForkGroups | app.py:71-78 | Pushes at T+60 and T and a fork at T+90, read newest first at T+100, give keys in the order fork, push. The groups are `[T+90]` and `[T+60, T]`. |
| EventStats.PushAndForkScenario | app.py:70-94 | In the same scenario the fork gets 0.0 and the pushes get 60.0. |

## Left out

- HTTP routes and JSON responses (`/commits`, `/update`, `/stats`, `/check_repos`, `/list_events`): request plumbing with no logic of its own.
- GitHub API calls, `raise_for_status` and the per-repository `try`/`except` of the reachability check: network I/O through a foreign library.
- The SQLAlchemy table, session commits and the query that selects, orders and limits the events (`app.py:103`). Its descending order appears only as the `NewestFirst` precondition of the non-negativity lemmas. Its cap of 500 events does not matter to `process_events`, so it is not modelled.
- Timestamp parsing and formatting with `strptime`/`strftime`: library date handling. Timestamps are modelled as integer seconds. GitHub's format has one-second resolution, so this is exact. The model's `now` is the real instant (`datetime.utcnow()`, with microseconds) rounded down to the second: since event times are whole seconds, `t > now - 7 days` and `t > floor(now) - 7 days` agree, so the window test loses nothing.
- The `"{avg:.2f} seconds"` rendering in `get_stats`: floating-point string formatting.
- Floating point: `total_seconds()`, `sum` and the division `sum(diffs) / len(diffs)` use IEEE doubles in the source. The source reports the double nearest to the model's exact real. The whole-second gaps and their sum are exact; only the final division rounds (100 s over 3 gaps is 33.333333333333336 in the source and exactly 100/3 here).
- Logging calls and the `config` module: side effects, or code that is not part of this model.
- The event's auto-assigned `id` column: `process_events` never reads it.
