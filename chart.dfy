/**
 * The dashboard's chart: the calendar window selected by a time view and an
 * anchor date, the per-day buckets built from the entries inside it, moving
 * the anchor, and the set of plotted metrics.
 */
module Chart {
  import opened Optional
  import opened Dates
  import opened Entries
  import Sorting

  datatype TimeView = OneWeek | OneMonth | OneYear | AllTime

  /** An inclusive range of day numbers. */
  datatype Window = Window(lo: int, hi: int)

  /** `new Date(8640000000000000)`, the latest instant a Date can hold, is this day. */
  const LastRepresentableDay: int := 100000000

  /**
   * The window a view selects around the anchor. The week runs from the
   * Sunday on or before the anchor for seven days, moved with `setDate`; the
   * month and the year are built with the Date constructor, so in the year
   * `ConstructorYear(anchor.year)` (day 0 of the next month is the last day
   * of this one); the whole history is everything from the epoch to the last
   * representable day.
   */
  function WindowOf(view: TimeView, anchor: Civil): Window
    requires ValidCivil(anchor)
  {
    match view
    case AllTime => Window(0, LastRepresentableDay)
    case OneWeek =>
      var start := MakeDay(anchor.year, anchor.month - 1, anchor.day - Weekday(Ordinal(anchor)));
      Window(start, start + 6)
    case OneMonth =>
      var y := ConstructorYear(anchor.year);
      Window(MakeDay(y, anchor.month - 1, 1), MakeDay(y, anchor.month, 0))
    case OneYear =>
      var y := ConstructorYear(anchor.year);
      Window(MakeDay(y, 0, 1), MakeDay(y, 11, 31))
  }

  /** The week window is the seven days from the Sunday on or before the anchor. */
  lemma WeekWindowSpan(anchor: Civil)
    requires ValidCivil(anchor)
    ensures var w := WindowOf(OneWeek, anchor);
      && w.hi == w.lo + 6
      && Weekday(w.lo) == 0
      && w.lo <= Ordinal(anchor) <= w.hi
      && Ordinal(anchor) - w.lo == Weekday(Ordinal(anchor))
  {
    var a := Ordinal(anchor);
    var wd := Weekday(a);
    var start := MakeDay(anchor.year, anchor.month - 1, anchor.day - wd);
    assert WindowOf(OneWeek, anchor) == Window(start, start + 6);
    WeekStart(anchor);
    WeekdayBack(a);
  }

  lemma WeekStart(anchor: Civil)
    requires ValidCivil(anchor)
    ensures var a := Ordinal(anchor);
      MakeDay(anchor.year, anchor.month - 1, anchor.day - Weekday(a)) == a - Weekday(a)
  {
    MakeDayInRange(anchor.year, anchor.month - 1, anchor.day - Weekday(Ordinal(anchor)));
  }

  /**
   * The month window runs from the first to the last day of the anchor's
   * month, in the year the Date constructor reads the anchor's year as.
   */
  lemma MonthWindowBounds(anchor: Civil)
    requires ValidCivil(anchor)
    ensures var y := ConstructorYear(anchor.year);
      var w := WindowOf(OneMonth, anchor);
      && w.lo == Ordinal(Civil(y, anchor.month, 1))
      && w.hi == Ordinal(Civil(y, anchor.month, DaysInMonth(y, anchor.month)))
  {
    var y, m := ConstructorYear(anchor.year), anchor.month;
    assert WindowOf(OneMonth, anchor) == Window(MakeDay(y, m - 1, 1), MakeDay(y, m, 0));
    MonthEnds(y, m);
  }

  /** Day 1 of month `m` and day 0 of the month after are the month's first and last days. */
  lemma MonthEnds(y: int, m: int)
    requires 1 <= m <= 12
    ensures MakeDay(y, m - 1, 1) == Ordinal(Civil(y, m, 1))
    ensures MakeDay(y, m, 0) == Ordinal(Civil(y, m, DaysInMonth(y, m)))
  {
    MakeDayInRange(y, m - 1, 1);
    NextMonthStart(y, m);
    if m == 12 {
      assert MakeDay(y, m, 0) == DaysBeforeYear(y + 1) - 1;
    } else {
      MakeDayInRange(y, m, 0);
    }
  }

  /**
   * The month window holds exactly the days of the anchor's month, in the
   * year the Date constructor reads the anchor's year as.
   */
  lemma MonthWindowExact(anchor: Civil, c: Civil)
    requires ValidCivil(anchor) && ValidCivil(c)
    ensures var y := ConstructorYear(anchor.year);
      var w := WindowOf(OneMonth, anchor);
      && w.lo == Ordinal(Civil(y, anchor.month, 1))
      && w.hi == Ordinal(Civil(y, anchor.month, DaysInMonth(y, anchor.month)))
      && (w.lo <= Ordinal(c) <= w.hi <==> c.year == y && c.month == anchor.month)
  {
    var y, m := ConstructorYear(anchor.year), anchor.month;
    var first := Civil(y, m, 1);
    var last := Civil(y, m, DaysInMonth(y, m));
    MonthWindowBounds(anchor);
    if c.year < y || (c.year == y && c.month < m) {
      OrdinalMonotone(c, first);
    } else if c.year > y || (c.year == y && c.month > m) {
      OrdinalMonotone(last, c);
    }
  }

  /**
   * The year window holds exactly the days of the anchor's year, as the
   * Date constructor reads that year.
   */
  lemma YearWindowExact(anchor: Civil, c: Civil)
    requires ValidCivil(anchor) && ValidCivil(c)
    ensures var y := ConstructorYear(anchor.year);
      var w := WindowOf(OneYear, anchor);
      && w.lo == Ordinal(Civil(y, 1, 1))
      && w.hi == Ordinal(Civil(y, 12, 31))
      && w.hi - w.lo + 1 == YearDays(y)
      && (w.lo <= Ordinal(c) <= w.hi <==> c.year == y)
  {
    var y := ConstructorYear(anchor.year);
    MakeDayInRange(y, 0, 1);
    MakeDayInRange(y, 11, 31);
    MonthsFillYear(y);
    YearLength(y);
    if c.year < y {
      OrdinalMonotone(c, Civil(y, 1, 1));
    } else if c.year > y {
      OrdinalMonotone(Civil(y, 12, 31), c);
    } else if c != Civil(y, 12, 31) {
      OrdinalMonotone(c, Civil(y, 12, 31));
    }
    if c.year == y && c != Civil(y, 1, 1) {
      OrdinalMonotone(Civil(y, 1, 1), c);
    }
  }

  // ---------------------------------------------------------------------
  // Which entries are charted

  /** The entry's date, read as a local midnight, lies inside the window. */
  predicate InWindow(date: string, w: Window) {
    match DayOf(date)
    case Some(n) => w.lo <= n <= w.hi
    case None => false
  }

  /** The day number used to order buckets (dates in a window always parse). */
  function DayKey(date: string): int {
    match DayOf(date)
    case Some(n) => n
    case None => 0
  }

  /** Under the whole-history view, a date is charted exactly when it parses and is not before 1970. */
  lemma AllTimeWindow(anchor: Civil, date: string)
    requires ValidCivil(anchor)
    ensures InWindow(date, WindowOf(AllTime, anchor)) <==>
            ParseDate(date).Some? && ParseDate(date).value.year >= 1970
  {
    if ParseDate(date).Some? {
      var c := ParseDate(date).value;
      YearsIncrease(c.year, 10000);
      DaysBeforeYearBound(10000);
      if c.year >= 1970 {
        if c != Civil(1970, 1, 1) {
          OrdinalMonotone(Civil(1970, 1, 1), c);
        }
      } else {
        OrdinalMonotone(c, Civil(1970, 1, 1));
      }
      DaysBeforeMonthBounds(c.year, c.month);
      assert DaysBeforeYear(10000) <= LastRepresentableDay;
    }
  }

  // ---------------------------------------------------------------------
  // Buckets

  /** One chart point: the day, its weight if any, and its two sums. */
  datatype Point = Point(date: string, weight: Option<int>, calories: int, workout: int)

  /** The entries dated `date`, in input order. */
  function OnDate(es: seq<Entry>, date: string): seq<Entry> {
    if es == [] then []
    else OnDate(es[..|es| - 1], date) + (if es[|es| - 1].date == date then [es[|es| - 1]] else [])
  }

  /** The value of the last weight entry, in input order. */
  function LastWeight(es: seq<Entry>): Option<int> {
    if es == [] then None
    else if es[|es| - 1].kind == Weight then Some(es[|es| - 1].value)
    else LastWeight(es[..|es| - 1])
  }

  /** The running total of the values of entries of one kind, left to right. */
  function SumOf(es: seq<Entry>, k: Kind): int {
    if es == [] then 0
    else SumOf(es[..|es| - 1], k) + (if es[|es| - 1].kind == k then es[|es| - 1].value else 0)
  }

  /** The point the chart shows for a day. */
  function BucketOf(es: seq<Entry>, date: string): Point {
    var day := OnDate(es, date);
    Point(date, LastWeight(day), SumOf(day, Food), SumOf(day, Exercise))
  }

  /**
   * The bucket's weight is the value of the last weight entry in input
   * order, and there is none exactly when no weight entry exists.
   */
  lemma {:induction false} LastWeightIsLast(es: seq<Entry>)
    ensures LastWeight(es).None? <==> forall i :: 0 <= i < |es| ==> es[i].kind != Weight
    ensures LastWeight(es).Some? ==>
      exists i :: 0 <= i < |es| && es[i].kind == Weight && es[i].value == LastWeight(es).value &&
        forall j :: i < j < |es| ==> es[j].kind != Weight
  {
    if es != [] {
      var init := es[..|es| - 1];
      LastWeightIsLast(init);
      if es[|es| - 1].kind != Weight && LastWeight(init).Some? {
        var i :| 0 <= i < |init| && init[i].kind == Weight && init[i].value == LastWeight(init).value &&
          forall j :: i < j < |init| ==> init[j].kind != Weight;
        assert es[i] == init[i];
      }
      if es[|es| - 1].kind != Weight {
        assert forall i :: 0 <= i < |es| - 1 ==> es[i] == init[i];
      }
    }
  }

  /** Totals add up over consecutive runs of entries. */
  lemma {:induction false} SumOfAppend(a: seq<Entry>, b: seq<Entry>, k: Kind)
    ensures SumOf(a + b, k) == SumOf(a, k) + SumOf(b, k)
  {
    if b == [] {
      assert a + b == a;
    } else {
      var ab := a + b;
      SumOfAppend(a, b[..|b| - 1], k);
      assert ab[..|ab| - 1] == a + b[..|b| - 1];
      assert ab[|ab| - 1] == b[|b| - 1];
      assert SumOf(ab, k) == SumOf(ab[..|ab| - 1], k) + (if ab[|ab| - 1].kind == k then ab[|ab| - 1].value else 0);
    }
  }

  /** The values a bucket adds up depend on no entry of another date. */
  lemma {:induction false} OnDateAppend(a: seq<Entry>, b: seq<Entry>, date: string)
    ensures OnDate(a + b, date) == OnDate(a, date) + OnDate(b, date)
  {
    if b == [] {
      assert a + b == a;
    } else {
      var ab := a + b;
      OnDateAppend(a, b[..|b| - 1], date);
      assert ab[..|ab| - 1] == a + b[..|b| - 1];
      assert ab[|ab| - 1] == b[|b| - 1];
      assert OnDate(ab, date) == OnDate(ab[..|ab| - 1], date) + (if ab[|ab| - 1].date == date then [ab[|ab| - 1]] else []);
    }
  }

  /** An entry is appended to the entries of its own date. */
  lemma OnDateOwn(es: seq<Entry>, e: Entry)
    ensures OnDate(es + [e], e.date) == OnDate(es, e.date) + [e]
  {
    OnDateAppend(es, [e], e.date);
    assert OnDate([e], e.date) == OnDate([], e.date) + [e];
  }

  /** Adds one entry to the point of its date, as the loop body does. */
  function AddToPoint(p: Point, e: Entry): Point {
    Point(p.date,
          if e.kind == Weight then Some(e.value) else p.weight,
          p.calories + (if e.kind == Food then e.value else 0),
          p.workout + (if e.kind == Exercise then e.value else 0))
  }

  lemma BucketStep(es: seq<Entry>, e: Entry, date: string)
    ensures BucketOf(es + [e], date) == if e.date == date then AddToPoint(BucketOf(es, date), e) else BucketOf(es, date)
  {
    var es' := es + [e];
    assert es'[..|es'| - 1] == es && es'[|es'| - 1] == e;
    var day := OnDate(es, date);
    assert OnDate(es', date) == day + (if e.date == date then [e] else []);
    if e.date == date {
      var day' := day + [e];
      assert day'[..|day'| - 1] == day && day'[|day'| - 1] == e;
      assert SumOf(day', Food) == SumOf(day, Food) + (if e.kind == Food then e.value else 0);
      assert SumOf(day', Exercise) == SumOf(day, Exercise) + (if e.kind == Exercise then e.value else 0);
      assert LastWeight(day') == if e.kind == Weight then Some(e.value) else LastWeight(day);
    } else {
      assert day + [] == day;
    }
  }

  /** The entries on a date are entries of the input, and of that date. */
  lemma {:induction false} OnDateMembers(es: seq<Entry>, date: string)
    ensures forall e :: e in OnDate(es, date) ==> e in es && e.date == date
  {
    if es != [] {
      OnDateMembers(es[..|es| - 1], date);
      assert forall e :: e in es[..|es| - 1] ==> e in es;
    }
  }

  lemma OnDateNone(es: seq<Entry>, date: string)
    requires forall e :: e in es ==> e.date != date
    ensures OnDate(es, date) == []
  {
    if OnDate(es, date) != [] {
      OnDateMembers(es, date);
      assert OnDate(es, date)[0] in OnDate(es, date);
    }
  }

  /** Every entry of the date is among the entries on that date. */
  lemma {:induction false} OnDateContains(es: seq<Entry>, e: Entry)
    requires e in es
    ensures e in OnDate(es, e.date)
  {
    var init := es[..|es| - 1];
    if e != es[|es| - 1] {
      assert e in init;
      OnDateContains(init, e);
    }
  }

  /** The chart orders points by day, oldest first. */
  predicate EarlierOrSame(p: Point, q: Point) {
    DayKey(p.date) <= DayKey(q.date)
  }

  lemma EarlierOrSameTotalPreorder()
    ensures Sorting.TotalPreorder(EarlierOrSame)
  {
  }

  /**
   * What the loop of the chart series has built after reading `es`: one
   * point per distinct in-window date seen, in first-seen order, each the
   * bucket of that date over what was read, and no point for a date not read.
   */
  ghost predicate Tally(es: seq<Entry>, w: Window, daily: map<string, Point>, order: seq<string>) {
    && (forall k :: k in daily <==> k in order)
    && Sorting.NoDuplicates(order)
    && (forall k :: k in daily ==> InWindow(k, w) && daily[k] == BucketOf(es, k) && OnDate(es, k) != [])
    && (forall k :: k !in daily && InWindow(k, w) ==> OnDate(es, k) == [])
    && (forall j :: 0 <= j < |es| && InWindow(es[j].date, w) ==> es[j].date in daily)
  }

  /** Every bucket but the entry's own is unchanged by reading it. */
  lemma OtherDatesUnchanged(es: seq<Entry>, e: Entry)
    ensures forall k :: k != e.date ==>
      BucketOf(es + [e], k) == BucketOf(es, k) && OnDate(es + [e], k) == OnDate(es, k)
  {
    forall k | k != e.date
      ensures BucketOf(es + [e], k) == BucketOf(es, k) && OnDate(es + [e], k) == OnDate(es, k)
    {
      BucketStep(es, e, k);
      OnDateAppend(es, [e], k);
      assert OnDate([e], k) == OnDate([], k) + [];
    }
  }

  /** Reading an entry outside the window changes nothing. */
  lemma TallySkip(es: seq<Entry>, e: Entry, w: Window, daily: map<string, Point>, order: seq<string>)
    requires Tally(es, w, daily, order) && !InWindow(e.date, w)
    ensures Tally(es + [e], w, daily, order)
  {
    OtherDatesUnchanged(es, e);
    var es' := es + [e];
    forall k | k in daily
      ensures OnDate(es', k) != []
    {
      assert k != e.date;
    }
    forall j | 0 <= j < |es'| && InWindow(es'[j].date, w)
      ensures es'[j].date in daily
    {
      assert j < |es|;
      assert es'[j] == es[j];
    }
  }

  /** Reading an entry inside the window adds it to the point of its date, which exists already. */
  lemma TallyAddExisting(es: seq<Entry>, e: Entry, w: Window, daily: map<string, Point>, order: seq<string>)
    requires Tally(es, w, daily, order) && InWindow(e.date, w) && e.date in daily
    ensures Tally(es + [e], w, daily[e.date := AddToPoint(daily[e.date], e)], order)
  {
    var d := e.date;
    var daily' := daily[d := AddToPoint(daily[d], e)];
    var es' := es + [e];
    forall k | k in daily'
      ensures InWindow(k, w) && daily'[k] == BucketOf(es', k) && OnDate(es', k) != []
    {
      if k == d {
        BucketStep(es, e, d);
        OnDateOwn(es, e);
      } else {
        OtherDatesUnchanged(es, e);
        assert daily'[k] == daily[k];
      }
    }
    forall k | k !in daily' && InWindow(k, w)
      ensures OnDate(es', k) == []
    {
      OtherDatesUnchanged(es, e);
    }
    forall j | 0 <= j < |es'| && InWindow(es'[j].date, w)
      ensures es'[j].date in daily'
    {
      if j < |es| {
        assert es'[j] == es[j];
      }
    }
  }

  /** Reading an entry inside the window whose date has no point yet opens that point with it. */
  lemma TallyAddNew(es: seq<Entry>, e: Entry, w: Window, daily: map<string, Point>, order: seq<string>)
    requires Tally(es, w, daily, order) && InWindow(e.date, w) && e.date !in daily
    ensures var started := daily[e.date := Point(e.date, None, 0, 0)];
      Tally(es + [e], w, started[e.date := AddToPoint(started[e.date], e)], order + [e.date])
  {
    var d := e.date;
    var started := daily[d := Point(d, None, 0, 0)];
    var daily' := started[d := AddToPoint(started[d], e)];
    var order' := order + [d];
    var es' := es + [e];
    assert daily'[d] == BucketOf(es', d) && OnDate(es', d) != [] by {
      BucketStep(es, e, d);
      OnDateOwn(es, e);
      assert OnDate(es, d) == [];
    }
    forall k
      ensures k in daily' <==> k in order'
    {
      assert k in order' <==> k in order || k == d;
    }
    forall i, j | 0 <= i < j < |order'|
      ensures order'[i] != order'[j]
    {
      assert order'[i] == order[i];
      if j < |order| {
        assert order'[j] == order[j];
      }
    }
    forall k | k in daily'
      ensures InWindow(k, w) && daily'[k] == BucketOf(es', k) && OnDate(es', k) != []
    {
      if k != d {
        OtherDatesUnchanged(es, e);
        assert daily'[k] == daily[k];
      }
    }
    forall k | k !in daily' && InWindow(k, w)
      ensures OnDate(es', k) == []
    {
      assert k != d;
      OtherDatesUnchanged(es, e);
    }
    forall j | 0 <= j < |es'| && InWindow(es'[j].date, w)
      ensures es'[j].date in daily'
    {
      if j < |es| {
        assert es'[j] == es[j];
      }
    }
  }

  /**
   * The chart series. One point per distinct date among the entries inside
   * the window the view selects, and no other: each point is the bucket of
   * a date some entry carries, every in-window entry's date has a point, and
   * the points run in strictly increasing date order; entries outside the
   * window or with an unparseable date reach no point.
   */
  method ChartData(entries: seq<Entry>, view: TimeView, anchor: Civil) returns (points: seq<Point>)
    requires ValidCivil(anchor)
    ensures forall i :: 0 <= i < |points| ==>
      InWindow(points[i].date, WindowOf(view, anchor)) && points[i] == BucketOf(entries, points[i].date)
    ensures forall i :: 0 <= i < |points| ==> OnDate(entries, points[i].date) != []
    ensures forall e :: e in entries && InWindow(e.date, WindowOf(view, anchor)) ==>
      exists i :: 0 <= i < |points| && points[i].date == e.date
    ensures forall i, j :: 0 <= i < j < |points| ==> DayKey(points[i].date) < DayKey(points[j].date)
  {
    var w := WindowOf(view, anchor);
    points := SeriesIn(entries, w);
  }

  /** The buckets of the entries that fall in the window `w`, oldest day first. */
  method SeriesIn(entries: seq<Entry>, w: Window) returns (points: seq<Point>)
    ensures forall i :: 0 <= i < |points| ==> InWindow(points[i].date, w) && points[i] == BucketOf(entries, points[i].date)
    ensures forall i :: 0 <= i < |points| ==> OnDate(entries, points[i].date) != []
    ensures forall e :: e in entries && InWindow(e.date, w) ==> exists i :: 0 <= i < |points| && points[i].date == e.date
    ensures forall i, j :: 0 <= i < j < |points| ==> DayKey(points[i].date) < DayKey(points[j].date)
  {
    var daily: map<string, Point> := map[];
    var order: seq<string> := [];
    var i := 0;
    while i < |entries|
      invariant 0 <= i <= |entries|
      invariant Tally(entries[..i], w, daily, order)
    {
      var e := entries[i];
      assert entries[..i + 1] == entries[..i] + [e];
      if InWindow(e.date, w) {
        var d := e.date;
        if d in daily {
          TallyAddExisting(entries[..i], e, w, daily, order);
        } else {
          TallyAddNew(entries[..i], e, w, daily, order);
          daily := daily[d := Point(d, None, 0, 0)];
          order := order + [d];
        }
        daily := daily[d := AddToPoint(daily[d], e)];
      } else {
        TallySkip(entries[..i], e, w, daily, order);
      }
      i := i + 1;
    }
    assert entries[..i] == entries;
    var values := seq(|order|, j requires 0 <= j < |order| => daily[order[j]]);
    points := Sorting.Sort(values, EarlierOrSame);
    SeriesMembers(entries, w, daily, order, values, points);
    SeriesCovers(entries, w, daily, order, values, points);
    SeriesIncreasing(entries, w, daily, order, values, points);
  }

  /** Each point of the sorted series is the bucket of an in-window date that some entry carries. */
  lemma SeriesMembers(entries: seq<Entry>, w: Window, daily: map<string, Point>, order: seq<string>,
                      values: seq<Point>, points: seq<Point>)
    requires Tally(entries, w, daily, order)
    requires values == seq(|order|, j requires 0 <= j < |order| => daily[order[j]])
    requires points == Sorting.Sort(values, EarlierOrSame)
    ensures forall i :: 0 <= i < |points| ==> InWindow(points[i].date, w) && points[i] == BucketOf(entries, points[i].date)
    ensures forall i :: 0 <= i < |points| ==> OnDate(entries, points[i].date) != []
  {
    Sorting.SortPermutes(values, EarlierOrSame);
    forall i | 0 <= i < |points|
      ensures InWindow(points[i].date, w) && points[i] == BucketOf(entries, points[i].date)
      ensures OnDate(entries, points[i].date) != []
    {
      assert points[i] in multiset(values);
      var j :| 0 <= j < |values| && values[j] == points[i];
      assert order[j] in daily;
    }
  }

  /** Every in-window entry's date has a point. */
  lemma SeriesCovers(entries: seq<Entry>, w: Window, daily: map<string, Point>, order: seq<string>,
                     values: seq<Point>, points: seq<Point>)
    requires Tally(entries, w, daily, order)
    requires values == seq(|order|, j requires 0 <= j < |order| => daily[order[j]])
    requires points == Sorting.Sort(values, EarlierOrSame)
    ensures forall e :: e in entries && InWindow(e.date, w) ==> exists i :: 0 <= i < |points| && points[i].date == e.date
  {
    Sorting.SortPermutes(values, EarlierOrSame);
    forall e | e in entries && InWindow(e.date, w)
      ensures exists i :: 0 <= i < |points| && points[i].date == e.date
    {
      var j :| 0 <= j < |entries| && entries[j] == e;
      assert e.date in order;
      var k :| 0 <= k < |order| && order[k] == e.date;
      assert values[k] in multiset(points);
      var i :| 0 <= i < |points| && points[i] == values[k];
    }
  }

  /** Distinct dates of the loop give distinct points. */
  lemma ValuesDistinct(w: Window, daily: map<string, Point>, order: seq<string>, values: seq<Point>)
    requires Sorting.NoDuplicates(order)
    requires forall k :: k in daily <==> k in order
    requires forall k :: k in daily ==> daily[k].date == k
    requires values == seq(|order|, j requires 0 <= j < |order| => daily[order[j]])
    ensures Sorting.NoDuplicates(values)
  {
    forall j, k | 0 <= j < k < |values|
      ensures values[j] != values[k]
    {
      assert values[j].date == order[j] && values[k].date == order[k];
    }
  }

  /** The points are in strictly increasing day order. */
  lemma SeriesIncreasing(entries: seq<Entry>, w: Window, daily: map<string, Point>, order: seq<string>,
                         values: seq<Point>, points: seq<Point>)
    requires Tally(entries, w, daily, order)
    requires values == seq(|order|, j requires 0 <= j < |order| => daily[order[j]])
    requires points == Sorting.Sort(values, EarlierOrSame)
    ensures forall i, j :: 0 <= i < j < |points| ==> DayKey(points[i].date) < DayKey(points[j].date)
  {
    Sorting.SortPermutes(values, EarlierOrSame);
    EarlierOrSameTotalPreorder();
    Sorting.TotalPreorderOnAll(EarlierOrSame, values);
    Sorting.SortSorted(values, EarlierOrSame);
    SeriesMembers(entries, w, daily, order, values, points);
    ValuesDistinct(w, daily, order, values);
    Sorting.PermutationNoDuplicates(values, points);
    StrictlyIncreasing(entries, w, points);
  }

  /** Sorted points of distinct in-window buckets are strictly increasing by day. */
  lemma StrictlyIncreasing(entries: seq<Entry>, w: Window, points: seq<Point>)
    requires Sorting.SortedBy(points, EarlierOrSame)
    requires Sorting.NoDuplicates(points)
    requires forall i :: 0 <= i < |points| ==> InWindow(points[i].date, w) && points[i] == BucketOf(entries, points[i].date)
    ensures forall i, j :: 0 <= i < j < |points| ==> DayKey(points[i].date) < DayKey(points[j].date)
  {
    forall i, j | 0 <= i < j < |points|
      ensures DayKey(points[i].date) < DayKey(points[j].date)
    {
      assert points[i].date != points[j].date;
      ParseInjective(points[i].date, points[j].date);
    }
  }

  // ---------------------------------------------------------------------
  // Moving the anchor

  /**
   * The anchor after the previous (-1) or next (+1) button: the Date's
   * `setDate(getDate() ± 7)`, `setMonth(getMonth() ± 1)` or
   * `setFullYear(getFullYear() ± 1)`, each keeping the other fields and
   * letting an out-of-range day of month spill into the following month.
   */
  function Navigate(view: TimeView, anchor: Civil, direction: int): (r: Civil)
    requires ValidCivil(anchor)
    requires direction == -1 || direction == 1
    ensures ValidCivil(r)
  {
    match view
    case OneWeek => Normalize(anchor.year, anchor.month, anchor.day + 7 * direction)
    case OneMonth =>
      var month0 := anchor.month - 1 + direction;
      Normalize(anchor.year + month0 / 12, month0 % 12 + 1, anchor.day)
    case OneYear => Normalize(anchor.year + direction, anchor.month, anchor.day)
    case AllTime => anchor
  }

  /** A week step moves the anchor and its whole window by exactly seven days. */
  lemma NavigateWeekShifts(anchor: Civil, direction: int)
    requires ValidCivil(anchor)
    requires direction == -1 || direction == 1
    ensures Ordinal(Navigate(OneWeek, anchor, direction)) == Ordinal(anchor) + 7 * direction
    ensures WindowOf(OneWeek, Navigate(OneWeek, anchor, direction)).lo == WindowOf(OneWeek, anchor).lo + 7 * direction
  {
    var r := Navigate(OneWeek, anchor, direction);
    var a := Ordinal(anchor);
    assert Ordinal(r) == Ordinal(Civil(anchor.year, anchor.month, anchor.day + 7 * direction)) == a + 7 * direction;
    WeekdayShift(a, direction);
    WeekWindowSpan(anchor);
    WeekWindowSpan(r);
  }

  /**
   * A month step lands on the same day of the target month when that month
   * has it, and otherwise on the first days of the month after it.
   */
  lemma NavigateMonthLands(anchor: Civil, direction: int)
    requires ValidCivil(anchor)
    requires direction == -1 || direction == 1
    ensures var month0 := anchor.month - 1 + direction;
      var y, m := anchor.year + month0 / 12, month0 % 12 + 1;
      var r := Navigate(OneMonth, anchor, direction);
      && Ordinal(r) == Ordinal(Civil(y, m, 1)) + anchor.day - 1
      && (anchor.day <= DaysInMonth(y, m) ==> r == Civil(y, m, anchor.day))
      && (anchor.day > DaysInMonth(y, m) ==>
            r.month == (if m == 12 then 1 else m + 1) && r.day == anchor.day - DaysInMonth(y, m))
  {
  }

  /** A year step keeps month and day, except that February 29 becomes March 1. */
  lemma NavigateYearLands(anchor: Civil, direction: int)
    requires ValidCivil(anchor)
    requires direction == -1 || direction == 1
    ensures var r := Navigate(OneYear, anchor, direction);
      && r.year == anchor.year + direction
      && (anchor.day <= DaysInMonth(anchor.year + direction, anchor.month) ==> r.month == anchor.month && r.day == anchor.day)
      && (anchor.day > DaysInMonth(anchor.year + direction, anchor.month) ==> r == Civil(anchor.year + direction, 3, 1))
  {
  }

  /**
   * As written, a month step forward from January 31st skips February: it
   * lands on March 2nd (March 3rd in a common year), and the window shown
   * next is March's, which holds no day of February.
   */
  lemma NavigateMonthSkipsFebruary(y: int)
    ensures Navigate(OneMonth, Civil(y, 1, 31), 1) == Civil(y, 3, if IsLeapYear(y) then 2 else 3)
    ensures var w := WindowOf(OneMonth, Navigate(OneMonth, Civil(y, 1, 31), 1));
      forall d :: 1 <= d <= DaysInMonth(y, 2) ==> !(w.lo <= Ordinal(Civil(y, 2, d)) <= w.hi)
  {
    var r := Navigate(OneMonth, Civil(y, 1, 31), 1);
    assert DaysInMonth(y, 2) == if IsLeapYear(y) then 29 else 28;
    assert r == Civil(y, 3, if IsLeapYear(y) then 2 else 3);
    forall d | 1 <= d <= DaysInMonth(y, 2)
      ensures !(WindowOf(OneMonth, r).lo <= Ordinal(Civil(y, 2, d)) <= WindowOf(OneMonth, r).hi)
    {
      MonthWindowExact(r, Civil(y, 2, d));
    }
  }

  /** The month step the previous and next buttons evidently intend: the day is clamped to the target month. */
  function NavigateMonthClamped(anchor: Civil, direction: int): (r: Civil)
    requires ValidCivil(anchor)
    requires direction == -1 || direction == 1
    ensures ValidCivil(r)
  {
    var month0 := anchor.month - 1 + direction;
    var y, m := anchor.year + month0 / 12, month0 % 12 + 1;
    Civil(y, m, if anchor.day <= DaysInMonth(y, m) then anchor.day else DaysInMonth(y, m))
  }

  /**
   * The Date constructor reads the two years alike: both are shifted by the
   * same amount (neither, or both, lies in the two-digit range).
   */
  predicate ReadAlike(y: int, z: int) {
    ConstructorYear(y) - y == ConstructorYear(z) - z
  }

  /**
   * With the clamped step, next and previous reach the adjacent month's
   * window, whenever the Date constructor reads the old and the new year alike.
   */
  lemma NavigateMonthClampedAdjacent(anchor: Civil, direction: int)
    requires ValidCivil(anchor)
    requires direction == -1 || direction == 1
    ensures var r := NavigateMonthClamped(anchor, direction);
      var before := WindowOf(OneMonth, anchor);
      var after := WindowOf(OneMonth, r);
      ReadAlike(anchor.year, r.year) ==>
        (direction == 1 ==> after.lo == before.hi + 1) && (direction == -1 ==> after.hi == before.lo - 1)
  {
    if direction == 1 {
      ClampedNextWindow(anchor);
    } else {
      ClampedPreviousWindow(anchor);
    }
  }

  lemma ClampedNextWindow(anchor: Civil)
    requires ValidCivil(anchor)
    ensures var r := NavigateMonthClamped(anchor, 1);
      ReadAlike(anchor.year, r.year) ==> WindowOf(OneMonth, r).lo == WindowOf(OneMonth, anchor).hi + 1
  {
    var r := NavigateMonthClamped(anchor, 1);
    ClampedNextMonth(anchor);
    if ReadAlike(anchor.year, r.year) {
      MonthWindowBounds(anchor);
      MonthWindowBounds(r);
      NextMonthStart(ConstructorYear(anchor.year), anchor.month);
    }
  }

  lemma ClampedPreviousWindow(anchor: Civil)
    requires ValidCivil(anchor)
    ensures var r := NavigateMonthClamped(anchor, -1);
      ReadAlike(anchor.year, r.year) ==> WindowOf(OneMonth, r).hi == WindowOf(OneMonth, anchor).lo - 1
  {
    var r := NavigateMonthClamped(anchor, -1);
    ClampedPreviousMonth(anchor);
    if ReadAlike(anchor.year, r.year) {
      MonthWindowBounds(anchor);
      MonthWindowBounds(r);
      NextMonthStart(ConstructorYear(r.year), r.month);
    }
  }

  lemma ClampedNextMonth(anchor: Civil)
    requires ValidCivil(anchor)
    ensures var r := NavigateMonthClamped(anchor, 1);
      if anchor.month == 12 then r.year == anchor.year + 1 && r.month == 1
      else r.year == anchor.year && r.month == anchor.month + 1
  {
  }

  lemma ClampedPreviousMonth(anchor: Civil)
    requires ValidCivil(anchor)
    ensures var r := NavigateMonthClamped(anchor, -1);
      if r.month == 12 then anchor.year == r.year + 1 && anchor.month == 1
      else anchor.year == r.year && anchor.month == r.month + 1
  {
  }

  // ---------------------------------------------------------------------
  // Plotted metrics

  /**
   * Toggling a metric: an absent one is appended; a present one is removed
   * unless it is the only one left.
   */
  function ToggleMetric(active: seq<string>, metric: string): (r: seq<string>)
    ensures metric !in active ==> r == active + [metric]
    ensures metric in active && |active| > 1 ==> metric !in r && forall m :: m in active && m != metric ==> m in r
    ensures metric in active && |active| <= 1 ==> r == active
    ensures forall m :: m in r ==> m in active || m == metric
  {
    if metric in active then
      if |active| > 1 then
        Sorting.FilterMembers(active, m => m != metric);
        Sorting.Filter(active, m => m != metric)
      else active
    else active + [metric]
  }

  /** Toggling never empties a non-empty selection. */
  lemma ToggleKeepsOne(active: seq<string>, metric: string)
    requires |active| >= 1 && Sorting.NoDuplicates(active)
    ensures |ToggleMetric(active, metric)| >= 1
  {
    if metric in active && |active| > 1 {
      var other := if active[0] != metric then active[0] else active[1];
      assert other in ToggleMetric(active, metric);
    }
  }

  /** Toggling keeps the selection free of repeats, as it starts. */
  lemma ToggleKeepsDistinct(active: seq<string>, metric: string)
    requires Sorting.NoDuplicates(active)
    ensures Sorting.NoDuplicates(ToggleMetric(active, metric))
  {
    if metric in active {
      if |active| > 1 {
        Sorting.FilterNoDuplicates(active, m => m != metric);
      }
    } else {
      var r := active + [metric];
      forall i, j | 0 <= i < j < |r|
        ensures r[i] != r[j]
      {
        if j == |active| {
          assert r[i] in active;
        }
      }
    }
  }

  /** Toggling an absent metric twice restores the selection. */
  lemma ToggleTwice(active: seq<string>, metric: string)
    requires metric !in active && |active| >= 1
    ensures ToggleMetric(ToggleMetric(active, metric), metric) == active
  {
    FilterAppendOmitted(active, metric);
  }

  lemma {:induction false} FilterAppendOmitted(s: seq<string>, metric: string)
    requires metric !in s
    ensures Sorting.Filter(s + [metric], m => m != metric) == s
  {
    if s != [] {
      FilterAppendOmitted(s[1..], metric);
      assert (s + [metric])[1..] == s[1..] + [metric];
      assert s == [s[0]] + s[1..];
    }
  }
}
