# BodyTracker core, modelled in Dafny

This project models the client-side data layer of the BodyTracker log, a personal log of weight, food and exercise. All of it comes from `app/components/BodyTracker.tsx`, in four parts:

- **Snapshot sync** (`sync.dfy`, `tracker.dfy`). This part covers three things:
  - the rule that decides whether a full-collection snapshot from the store replaces the entry list;
  - the conversion of stored documents into entries;
  - the order the list is kept in: date descending by string comparison, then write time descending, with a missing write time counting as 0.
- **Chart and history aggregation** (`chart.dfy`, `diary.dfy`, `dates.dfy`). This part covers:
  - the calendar window each time view selects (week, month, year, all);
  - the per-day chart buckets: the last weight of the day, calorie and workout sums, oldest day first;
  - the previous and next buttons;
  - the set of plotted metrics;
  - the history page's grouping by date, newest day first;
  - the totals of each day's card.
- **Swipe gesture** (`swipe.dfy`). The `SwipeableEntry` state is a class with the row offset, the dragging flag and the start position. Press, move, release and leave are methods on it. The thresholds are the source's constants -80, -160 and -200.
- **Undo delete** (`tracker.dfy`). A `Tracker` class holds these fields:
  - the mounted flag, the signed-in flag and the loading flag;
  - the entry list and the listener registration;
  - the remote collection, as a map from document identifier to document;
  - the single pending deletion and its timer flag.

  Deleting, undoing, timer expiry and unmounting are methods on it.

Dates are day numbers counted from 1970-01-01. The Date arithmetic the code relies on is written out in `dates.dfy`:
- ECMAScript's MakeDay, with its month and day overflow;
- the Date constructor's reading of the years 0 to 99 as 1900 to 1999;
- days in a month and leap years;
- the weekday;
- a strict parser for `YYYY-MM-DD`.

Sorting with a comparator is a stable insertion sort over a "comes no later than" relation (`sorting.dfy`). The language guarantees that `Array.prototype.sort` is stable.

## Model

| member | source | states |
|---|---|---|
| Entries.FromDoc | app/components/BodyTracker.tsx:1219-1230 | a stored document becomes an entry with the document's identifier, type, value, date and write time; its name and details are kept when present and become "" when missing |
| Entries.OrEmpty | app/components/BodyTracker.tsx:1225-1226 | a present text is kept, a missing one becomes "" |
| Entries.Millis | app/components/BodyTracker.tsx:1236-1237 | defines the write time the sort compares, with a missing time counting as 0; stated by Sync.ComesFirstMeans |
| Sync.Accept | app/components/BodyTracker.tsx:1218 | defines the acceptance test: the snapshot is from the server, or carries no pending writes, or the list it would replace is empty; its refusal case is stated by Sync.AcceptExactly |
| Sync.AcceptExactly | app/components/BodyTracker.tsx:1218 | a snapshot is refused exactly when it is from the cache, carries pending writes and the list is non-empty; a cached snapshot with pending writes over an empty list is applied |
| Sync.LocaleCompare | app/components/BodyTracker.tsx:1234 | the string comparison returns -1, 0 or 1 |
| Sync.LocaleCompareZero | app/components/BodyTracker.tsx:1234-1235 | two dates compare as 0 exactly when they are the same string, so the write-time tie-break applies only to equal dates |
| Sync.LocaleCompareAntisymmetric | app/components/BodyTracker.tsx:1234 | swapping the operands negates the comparison |
| Sync.LocaleCompareTransitive | app/components/BodyTracker.tsx:1234 | "compares below" is transitive |
| Sync.Compare | app/components/BodyTracker.tsx:1233-1239 | defines the sort comparator: the date comparison reversed, then the write times (0 if missing) reversed; its meaning is stated by Sync.ComesFirstMeans |
| Sync.ComesFirstMeans | app/components/BodyTracker.tsx:1233-1239 | the comparator puts `a` no later than `b` exactly when `a`'s date is later, or the dates are equal and `a`'s write time (0 if missing) is no earlier |
| Sync.ComesFirstTotalPreorder | app/components/BodyTracker.tsx:1233-1239 | the comparator is total and transitive over all entries, so the sort is well defined |
| Sync.Fetched | app/components/BodyTracker.tsx:1219-1230 | each snapshot document maps to its entry, in snapshot order, with the same length |
| Sync.SnapshotEntries | app/components/BodyTracker.tsx:1219-1239 | defines the list an applied snapshot becomes: its documents' entries, sorted with the comparator; stated by Sync.SnapshotEntriesOrdered and Sync.SnapshotEntriesStable |
| Sync.SnapshotEntriesOrdered | app/components/BodyTracker.tsx:1219-1241 | an applied snapshot becomes a permutation of its documents' entries, with every pair in newest-date-first, then newest-write-first order |
| Sync.SnapshotEntriesStable | app/components/BodyTracker.tsx:1233-1239 | entries tied on both keys keep the order the snapshot delivered them in |
| Sync.Reconcile | app/components/BodyTracker.tsx:1218-1241 | defines one snapshot's effect: the sorted snapshot entries when the snapshot is accepted, the list unchanged otherwise; stated by Sync.ReconcileReplacesOrKeeps |
| Sync.ReconcileReplacesOrKeeps | app/components/BodyTracker.tsx:1218-1241 | a refused snapshot leaves the list exactly as it was, and an applied one replaces it with a permutation of the snapshot's entries |
| Sync.ApplyCaptured | app/components/BodyTracker.tsx:1203-1261 | defines the listener as written: every snapshot judged against the count captured at registration; stated by Sync.CapturedEmptyAcceptsAll |
| Sync.ApplyLive | app/components/BodyTracker.tsx:1216-1241 | defines the listener judging each snapshot against the list as it stands; stated by Sync.LiveIgnoresIntermediate |
| Sync.CapturedEmptyAcceptsAll | app/components/BodyTracker.tsx:1197-1261 | judged against the count captured at registration (0 on sign-in), every snapshot is applied and the list ends as the last snapshot's entries |
| Sync.LiveIgnoresIntermediate | app/components/BodyTracker.tsx:1216-1218 | judged against the list as it stands, any run of cached snapshots with pending writes leaves a non-empty list unchanged |
| Sync.StaleCountEmptiesList | app/components/BodyTracker.tsx:1218-1241 | a cached, pending, empty snapshot over a loaded list empties it as written and is ignored by the live rule |
| Sorting.Filter | app/components/BodyTracker.tsx:477 | filtering never lengthens a sequence |
| Sorting.FilterMembers | app/components/BodyTracker.tsx:477 | the filtered sequence holds exactly the elements that pass |
| Sorting.FilterNoDuplicates | app/components/BodyTracker.tsx:477 | filtering a sequence without repeats leaves none |
| Sorting.Sort | app/components/BodyTracker.tsx:562 | defines `Array.prototype.sort` with a comparator, used by the snapshot sort (line 1233), the chart sort (line 562) and the key sort (line 834); stated by Sorting.SortPermutes, Sorting.SortSorted, Sorting.SortLength and Sorting.SortStable |
| Sorting.SortPermutes | app/components/BodyTracker.tsx:1233-1239 | the sort returns a permutation of its input |
| Sorting.SortSorted | app/components/BodyTracker.tsx:1233-1239 | when the comparator is a total preorder on the input, the output is in comparator order |
| Sorting.SortLength | app/components/BodyTracker.tsx:1233-1239 | the sort keeps the length |
| Sorting.SortStable | app/components/BodyTracker.tsx:1233-1239 | elements the comparator ties keep their input order |
| Sorting.PermutationNoDuplicates | app/components/BodyTracker.tsx:561-562 | a rearrangement of a sequence without repeats has none |
| Dates.DaysInMonth | app/components/BodyTracker.tsx:539 | a month has 28 to 31 days, and 29 exactly for February of a leap year |
| Dates.MakeDay | app/components/BodyTracker.tsx:487-491 | defines the day number behind `setDate`, `setMonth` and `setFullYear` (lines 487-491), the week start (line 528) and `new Date(y, m, d)` (lines 538-542), with month and day overflow; stated by Dates.MakeDayInRange, Dates.MakeDayCarry and Dates.NextMonthStart |
| Dates.MakeDayInRange | app/components/BodyTracker.tsx:538-542 | MakeDay with an in-range month gives the day number of that civil date |
| Dates.MakeDayCarry | app/components/BodyTracker.tsx:539 | a month index past December carries into the year |
| Dates.ConstructorYear | app/components/BodyTracker.tsx:538-542 | defines the year `new Date(y, m, d)` builds in: 1900 + y for a year from 0 to 99, otherwise y; stated by Chart.MonthWindowExact and Chart.YearWindowExact |
| Dates.NextMonthStart | app/components/BodyTracker.tsx:539 | day 0 of the next month is the last day of this one |
| Dates.Normalize | app/components/BodyTracker.tsx:485-492 | a day of month that overflows or underflows is carried into a valid date with the same day number |
| Dates.Weekday | app/components/BodyTracker.tsx:526 | `getDay()` of a day number lies in 0 to 6; stated further by Dates.WeekdayBack and Dates.WeekdayShift |
| Dates.WeekdayBack | app/components/BodyTracker.tsx:526-528 | stepping back `getDay()` days lands on a Sunday |
| Dates.WeekdayShift | app/components/BodyTracker.tsx:487 | moving by whole weeks keeps the weekday |
| Dates.OrdinalMonotone | app/components/BodyTracker.tsx:549 | later civil dates have larger day numbers |
| Dates.OrdinalInjective | app/components/BodyTracker.tsx:549 | two valid dates have the same day number exactly when they are equal |
| Dates.ParseDate | app/components/BodyTracker.tsx:547 | a string that parses gives a valid date with a four-digit year |
| Dates.ParseFormat | app/components/BodyTracker.tsx:547 | every date with a four-digit year parses back from its `YYYY-MM-DD` text |
| Dates.ParseInjective | app/components/BodyTracker.tsx:547-550 | two parseable date strings fall on the same day exactly when they are the same string, so bucketing by string is bucketing by day |
| Dates.DayOf | app/components/BodyTracker.tsx:547 | a date string has a day number exactly when it parses |
| Chart.WindowOf | app/components/BodyTracker.tsx:520-544 | defines the window of each view: the week built with `setDate`, the month and year built with the Date constructor, and the whole history from the epoch to the last representable day; stated by Chart.WeekWindowSpan, Chart.MonthWindowExact, Chart.YearWindowExact and Chart.AllTimeWindow |
| Chart.WeekWindowSpan | app/components/BodyTracker.tsx:525-536 | the week window is the seven days from the Sunday on or before the anchor, and holds the anchor |
| Chart.WeekStart | app/components/BodyTracker.tsx:526-529 | the Date arithmetic for the week's start gives the anchor's day number minus its weekday |
| Chart.MonthWindowBounds | app/components/BodyTracker.tsx:537-539 | the month window runs from the 1st to the last day of the anchor's month, in the year the Date constructor reads the anchor's year as |
| Chart.MonthEnds | app/components/BodyTracker.tsx:538-539 | day 1 of a month and day 0 of the month after are that month's first and last days |
| Chart.MonthWindowExact | app/components/BodyTracker.tsx:537-539 | a date lies in the month window exactly when it is in the anchor's month of the constructor's year (1900 + y for an anchor year y from 0 to 99) |
| Chart.YearWindowExact | app/components/BodyTracker.tsx:540-542 | the year window runs from January 1 to December 31 of the constructor's year, is that year's length, and holds exactly the dates of that year |
| Chart.AllTimeWindow | app/components/BodyTracker.tsx:520-521 | under the whole-history view a date is charted exactly when it parses and is not before 1970 |
| Chart.InWindow | app/components/BodyTracker.tsx:547-549 | defines the filter: the date parses and its local midnight lies between the bounds; an unparseable date compares false |
| Chart.OnDate | app/components/BodyTracker.tsx:550-551 | defines the entries a day's point is built from, in input order; stated by Chart.OnDateMembers, Chart.OnDateContains and Chart.OnDateAppend |
| Chart.LastWeight | app/components/BodyTracker.tsx:555 | defines the weight a point keeps, the last one written; stated by Chart.LastWeightIsLast |
| Chart.SumOf | app/components/BodyTracker.tsx:556-557 | defines the running sums of calories and workout; stated by Chart.SumOfAppend |
| Chart.BucketOf | app/components/BodyTracker.tsx:550-557 | defines the point of a day: its last weight and its two sums; stated by Chart.BucketStep and Chart.ChartData |
| Chart.AddToPoint | app/components/BodyTracker.tsx:555-557 | defines one pass of the loop body on a point; stated by Chart.BucketStep |
| Chart.LastWeightIsLast | app/components/BodyTracker.tsx:555 | a bucket's weight is the value of the day's last weight entry in input order, and null exactly when there is none |
| Chart.SumOfAppend | app/components/BodyTracker.tsx:556-557 | the calorie and workout sums add up over consecutive runs of entries |
| Chart.OnDateAppend | app/components/BodyTracker.tsx:550-557 | a day's entries over two runs are that day's entries of each run, in order |
| Chart.OnDateOwn | app/components/BodyTracker.tsx:550-552 | an entry is appended to the entries of its own date |
| Chart.BucketStep | app/components/BodyTracker.tsx:550-557 | reading one more entry updates only the bucket of its date, as the loop body does |
| Chart.OnDateMembers | app/components/BodyTracker.tsx:550-551 | a day's entries are entries of the input with that date |
| Chart.OnDateNone | app/components/BodyTracker.tsx:551 | a date no entry carries has no entries |
| Chart.OnDateContains | app/components/BodyTracker.tsx:550-551 | every entry is among the entries of its own date |
| Chart.EarlierOrSame | app/components/BodyTracker.tsx:562 | defines the chart comparator: the earlier day first; stated by Chart.EarlierOrSameTotalPreorder and Chart.SeriesIncreasing |
| Chart.EarlierOrSameTotalPreorder | app/components/BodyTracker.tsx:562 | the chart comparator orders all points totally |
| Chart.OtherDatesUnchanged | app/components/BodyTracker.tsx:550-557 | reading an entry leaves the bucket of every other date unchanged |
| Chart.TallySkip | app/components/BodyTracker.tsx:549 | an entry outside the window leaves the loop's dictionary unchanged and its invariant true |
| Chart.TallyAddExisting | app/components/BodyTracker.tsx:550-557 | an in-window entry whose date has a point keeps the invariant after its point is updated |
| Chart.TallyAddNew | app/components/BodyTracker.tsx:551-557 | an in-window entry of a new date keeps the invariant after a fresh point is made and updated |
| Chart.ChartData | app/components/BodyTracker.tsx:517-562 | exactly one point per distinct in-window date: each point is the bucket of a date some entry carries, every in-window entry's date has a point, and the points strictly ascend by day |
| Chart.SeriesIn | app/components/BodyTracker.tsx:546-562 | for any window, every point is the bucket of an in-window date some entry carries, every in-window entry's date has a point, and the points strictly ascend by day |
| Chart.SeriesMembers | app/components/BodyTracker.tsx:551-562 | every point of the sorted series is the bucket of an in-window date that some entry carries |
| Chart.SeriesCovers | app/components/BodyTracker.tsx:546-562 | every in-window entry's date has a point after sorting |
| Chart.ValuesDistinct | app/components/BodyTracker.tsx:561 | the dictionary's values are pairwise distinct |
| Chart.SeriesIncreasing | app/components/BodyTracker.tsx:561-562 | the sorted series strictly ascends by day |
| Chart.StrictlyIncreasing | app/components/BodyTracker.tsx:561-562 | sorted distinct in-window buckets strictly ascend by day |
| Chart.Navigate | app/components/BodyTracker.tsx:484-494 | every button press yields a valid date |
| Chart.NavigateWeekShifts | app/components/BodyTracker.tsx:486-487 | a week step moves the anchor and its window by exactly seven days |
| Chart.NavigateMonthLands | app/components/BodyTracker.tsx:488-489 | a month step keeps the day of month when the target month has it, and otherwise spills into the month after |
| Chart.NavigateYearLands | app/components/BodyTracker.tsx:490-491 | a year step keeps month and day, except that February 29 becomes March 1 |
| Chart.NavigateMonthSkipsFebruary | app/components/BodyTracker.tsx:488-489 | from January 31 the next button lands on March 2 or 3, and the window it shows holds no day of February, so the month shown after January is March and February is skipped |
| Chart.NavigateMonthClamped | app/components/BodyTracker.tsx:488-489 | the clamped month step yields a valid date |
| Chart.NavigateMonthClampedAdjacent | app/components/BodyTracker.tsx:488-489 | with the clamped step, next shows the month right after and previous the month right before, whenever the Date constructor reads the old and new years alike |
| Chart.ClampedNextWindow | app/components/BodyTracker.tsx:488-489 | the next month's window starts the day after the current one ends, when both years are read alike |
| Chart.ClampedPreviousWindow | app/components/BodyTracker.tsx:488-489 | the previous month's window ends the day before the current one starts, when both years are read alike |
| Chart.ClampedNextMonth | app/components/BodyTracker.tsx:488-489 | the clamped forward step reaches the following calendar month, wrapping December to January |
| Chart.ClampedPreviousMonth | app/components/BodyTracker.tsx:488-489 | the clamped backward step reaches the preceding calendar month, wrapping January to December |
| Chart.ToggleMetric | app/components/BodyTracker.tsx:474-482 | an absent metric is appended; a present one is removed, keeping all others, unless it is the last; nothing else is added |
| Chart.ToggleKeepsOne | app/components/BodyTracker.tsx:476 | toggling never empties a non-empty selection |
| Chart.ToggleKeepsDistinct | app/components/BodyTracker.tsx:474-482 | toggling keeps the selection free of repeats |
| Chart.ToggleTwice | app/components/BodyTracker.tsx:474-482 | toggling an absent metric twice restores the selection |
| Chart.FilterAppendOmitted | app/components/BodyTracker.tsx:477 | removing a metric just appended gives back the earlier selection |
| Diary.Later | app/components/BodyTracker.tsx:834 | defines the group comparator: the later date first, and a date that does not parse tying with every other; stated by Diary.LaterOrdersParsedDates and Diary.KeysDescend |
| Diary.LaterOrdersParsedDates | app/components/BodyTracker.tsx:834 | on dates that parse, the group comparator is a total preorder |
| Diary.GroupAppend | app/components/BodyTracker.tsx:832 | pushing an entry onto its existing group keeps the grouping invariant |
| Diary.GroupOpen | app/components/BodyTracker.tsx:831-832 | opening a group for a new date and pushing the entry keeps the grouping invariant |
| Diary.GroupByDate | app/components/BodyTracker.tsx:828-838 | one non-empty group per distinct date, holding exactly that date's entries in input order, so every entry lies in its own date's group and no other; newest day first when all dates parse |
| Diary.GroupsFacts | app/components/BodyTracker.tsx:834-837 | the groups built from the sorted keys have those properties |
| Diary.KeysFacts | app/components/BodyTracker.tsx:834 | the sorted keys are the dictionary's keys, without repeats |
| Diary.KeysAreDates | app/components/BodyTracker.tsx:831 | every key is the date of some entry |
| Diary.KeysDescend | app/components/BodyTracker.tsx:834 | parseable keys sort into strictly descending day order |
| Diary.GroupsHoldTheirDates | app/components/BodyTracker.tsx:835-836 | each group holds its date's entries and no two groups share a date |
| Diary.GroupsCoverEntries | app/components/BodyTracker.tsx:835-836 | every entry has a group, and lies in a group exactly when the dates agree |
| Diary.FirstWeight | app/components/BodyTracker.tsx:1056-1057 | defines the weight the card shows, the first in list order; stated by Diary.FirstWeightIsFirst |
| Diary.CardOf | app/components/BodyTracker.tsx:1056-1065 | defines the card: first weight and the food and exercise totals; stated by Diary.CardAgreesWithChart |
| Diary.FirstWeightIsFirst | app/components/BodyTracker.tsx:1056-1057 | the card's weight is the value of the first weight entry in list order, and null exactly when there is none |
| Diary.CardAgreesWithChart | app/components/BodyTracker.tsx:1056-1065 | a day's card and that day's chart point always show the same totals, and the same weight when the day has at most one weight entry |
| Diary.CardNewestChartOldest | app/components/BodyTracker.tsx:1056 | in a newest-write-first list the card shows the most recent weight of the day and the chart the earliest |
| Diary.CardAndChartDiffer | app/components/BodyTracker.tsx:1056 | with two weighings on a day, the card shows 69 and the chart 70 |
| Swipe.MoveOffset | app/components/BodyTracker.tsx:897-905 | a move right of or at the start keeps the offset; a move left sets it to the distance, held at -200; the offset stays within [-200, 0] |
| Swipe.Classify | app/components/BodyTracker.tsx:907-920 | release deletes at or below -160, edits in (-160, -80] with an edit callback, does nothing there without one, and resets above -80 |
| Swipe.Settled | app/components/BodyTracker.tsx:960-970 | after release the row is at rest, except in the edit zone without an edit callback, where it stays |
| Swipe.DeeperIsStronger | app/components/BodyTracker.tsx:907-920 | pulling further never yields a weaker action |
| Swipe.ReleaseReturnsToRest | app/components/BodyTracker.tsx:960-970 | with an edit callback every release returns the row to rest |
| Swipe.StaysOpenWithoutEdit | app/components/BodyTracker.tsx:965-970 | without an edit callback a row let go in the edit zone stays open, and stays there after a drag with no leftward move |
| Swipe.Drag | app/components/BodyTracker.tsx:897-905 | defines a run of moves of one drag applied in order; stated by Swipe.DragInRange, Swipe.DragNoLeftMove and Swipe.DragLastLeftMove |
| Swipe.DragInRange | app/components/BodyTracker.tsx:897-905 | however long the drag, the offset stays within [-200, 0] |
| Swipe.DragNoLeftMove | app/components/BodyTracker.tsx:902 | a drag with no move left of its start leaves the offset unchanged |
| Swipe.DragLastLeftMove | app/components/BodyTracker.tsx:900-904 | the offset after a drag is the distance of its last leftward move, held at -200 |
| Swipe.OvershootThenRetract | app/components/BodyTracker.tsx:897-920 | pulling into the delete zone and back into the edit zone before letting go edits |
| Swipe.SwipeableEntry.constructor | app/components/BodyTracker.tsx:883-885 | a row starts at rest, not dragging, with start 0 |
| Swipe.SwipeableEntry.Press | app/components/BodyTracker.tsx:892-895 | touch start or mouse down records the start and begins a drag, keeping the offset |
| Swipe.SwipeableEntry.Move | app/components/BodyTracker.tsx:897-905 | a move changes the offset as a drag step only while dragging, and keeps it within [-200, 0] |
| Swipe.SwipeableEntry.Release | app/components/BodyTracker.tsx:907-920 | release ends the drag, returns the action of the offset reached and settles the row |
| Swipe.SwipeableEntry.Leave | app/components/BodyTracker.tsx:954-958 | leaving while dragging acts as a release; otherwise nothing changes |
| Tracker.FindById | app/components/BodyTracker.tsx:1292-1293 | the lookup finds nothing exactly when no entry has the id, and otherwise finds the first one that does |
| Tracker.RestoredDoc | app/components/BodyTracker.tsx:1319-1327 | the re-created document reads back as the deleted entry under the new id, with the new write time |
| Tracker.Tracker.constructor | app/components/BodyTracker.tsx:1156-1164 | the application starts mounted, signed out, loading, with an empty list and no pending deletion |
| Tracker.Tracker.AuthChanged | app/components/BodyTracker.tsx:1183-1261 | the user is set and loading ends; a signed-in user registers a listener that captures the list's current count |
| Tracker.Tracker.OnSnapshotAsWritten | app/components/BodyTracker.tsx:1208-1253 | a snapshot is judged against the captured count, and loading ends |
| Tracker.Tracker.OnSnapshot | app/components/BodyTracker.tsx:1208-1253 | a snapshot is judged against the current list, and loading ends |
| Tracker.Tracker.OnSnapshotError | app/components/BodyTracker.tsx:1254-1257 | a listener error ends loading, keeps the list, and ends delivery to that listener |
| Tracker.Tracker.DeleteEntry | app/components/BodyTracker.tsx:1288-1309 | signed in, with the id in the list and a successful write: the document is removed, the entry becomes the single pending deletion and its timer runs; otherwise nothing changes |
| Tracker.Tracker.UndoDelete | app/components/BodyTracker.tsx:1311-1333 | with a pending deletion while signed in, the timer stops; a successful write adds the entry's fields as a new document under a fresh id and clears the slot; a failed one keeps the slot with no timer; nothing happens otherwise |
| Tracker.Tracker.Expire | app/components/BodyTracker.tsx:1301-1303 | the timer firing clears the pending deletion, which a running timer always belongs to, and happens only while mounted |
| Tracker.Tracker.Unmount | app/components/BodyTracker.tsx:1167-1261 | unmounting removes the auth listener (line 1193) and the snapshot listener (line 1260), and cancels a running timer (lines 1168-1172); no authentication, snapshot, delete or undo event is accepted afterwards |
| Tracker.DeleteThenUndo | app/components/BodyTracker.tsx:1288-1333 | deleting an entry and undoing in time leaves every other document untouched, removes only the old id and adds only the fresh one, whose document reads back as the same entry with a new write time |

## Left out

- Time zones: the local time zone is taken as UTC. Every "local midnight" and `getDay()` is computed on day numbers without an offset.
- Date parsing: only strict `YYYY-MM-DD` strings with a real day of month parse. Engines differ on looser strings and out-of-range days; those strings count as unparseable here.
- `localeCompare`: modelled as code-point order. Locale collation is not modelled; for the digit-and-dash ISO dates the list holds, the two agree.
- Numbers: `value` is an integer. Floating point, NaN values and the `|| 0` coercion in the card totals are not modelled.
- Chart.AllTimeWindow: the whole-history view is described as effectively unbounded. The code's lower bound `new Date(0)` excludes dates before 1970, and the model follows the code.
- Chart.Navigate: `direction` is limited to -1 and +1, the only values the buttons pass.
- Chart.NavigateMonthClampedAdjacent: adjacency is promised only when the Date constructor reads the old and the new year alike. Crossing into or out of the years 0 to 99 shifts the month window by 1900 years, for example from December of year 99 to January of year 100. The clamped step does not change how the window is built, so those steps stay non-adjacent.
- Tracker.Tracker.UndoDelete: the identifier of the re-created document is an input the caller supplies. It must name no existing document, because the store always hands out an unused one.
- Chart.ChartData: the `displayDate` labels are not modelled, because `toLocaleDateString` is locale-dependent presentation.
- Diary.GroupByDate: the day order is proved only when every date parses. With an unparseable date the comparator returns NaN, and the order the engine produces is implementation-defined. `Object.keys` lists integer-like keys first; that only concerns invalid dates as well.
- Sorting: the snapshot sort, the chart sort and the key sort are modelled on sequences rather than in place.
- Sync and Tracker: React's rendering and effect scheduling are not modelled; handlers run one at a time. The `await` interleavings inside the delete and undo handlers are not modelled.
- Swipe.SwipeableEntry.Release: each handler sees the state the previous handler set. The source's handlers read `swipeX` and `isDragging` from the last render (lines 883-884), so a release that runs before React re-renders after the last move is judged on the offset before that move. React's re-render between events is not modelled.
- Store calls: snapshots, the success of store writes, the new document's id and the server's write time are parameters. The Firebase configuration, `onSnapshot` registration and `addDoc`/`updateDoc`/`deleteDoc`/`signOut` wiring are left out as network I/O. The redirect to `/login` is left out as navigation.
- Adding and editing entries (`handleAddEntry`) are left out. They are store writes that the snapshot listener observes like any other.
- The `FIREBASE_ENABLED` switched-off path is not modelled.
- The Gemini insights call is left out as an external service.
- Rendering is left out, including the swipe indicator's opacity and transform.
- Swipe.Classify: the `Stay` outcome cannot occur in the running application, because the history page always passes an edit callback. It is modelled because the component allows an absent one.
- The five-second timer is an `Expire` event. Its duration is not modelled.

## Findings

| source | as written | input that shows it | evidently intended | confidence | as-written member | corrected member |
|---|---|---|---|---|---|---|
| app/components/BodyTracker.tsx:1203-1261 | the snapshot callback reads `entries.length` from the render that registered it; since the effect depends only on `user`, the count is the one at sign-in (0), so the skip condition never holds | a loaded list, then a cached snapshot with pending writes and no documents: the list is emptied | intermediate cached snapshots are skipped whenever the current list is non-empty | not executed | Sync.ApplyCaptured, Sync.CapturedEmptyAcceptsAll, Sync.StaleCountEmptiesList, Tracker.Tracker.OnSnapshotAsWritten | Sync.ApplyLive, Sync.LiveIgnoresIntermediate, Tracker.Tracker.OnSnapshot |
| app/components/BodyTracker.tsx:488-489 | `setMonth(getMonth() + 1)` keeps the day of month, so an anchor on a day the next month lacks spills over a month | anchor January 31 of any year, next: the anchor becomes March 2 (leap year) or March 3, and February is skipped | next and previous show the adjacent month | not executed | Chart.NavigateMonthSkipsFebruary | Chart.NavigateMonthClamped, Chart.NavigateMonthClampedAdjacent |
