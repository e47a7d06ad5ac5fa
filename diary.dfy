/**
 * The history page: entries grouped by date, newest day first, and the
 * totals each day's card shows.
 */
module Diary {
  import opened Optional
  import opened Dates
  import opened Entries
  import Sorting
  import opened Chart

  /** One day of the history page: its date and its entries. */
  datatype Group = Group(date: string, items: seq<Entry>)

  /**
   * The group comparator: `new Date(b) - new Date(a) <= 0`. A date that
   * does not parse makes the difference NaN, which the sort reads as 0.
   */
  predicate Later(a: string, b: string) {
    match (DayOf(a), DayOf(b))
    case (Some(x), Some(y)) => y - x <= 0
    case _ => true
  }

  /** Among dates that parse, the comparator is a consistent order. */
  lemma LaterOrdersParsedDates(keys: seq<string>)
    requires forall k :: k in keys ==> DayOf(k).Some?
    ensures Sorting.TotalPreorderOn(Later, keys)
  {
  }

  /**
   * What the grouping loop has built after reading `es`: one non-empty
   * list per distinct date, in first-seen order, holding that date's
   * entries in input order.
   */
  ghost predicate Grouped(es: seq<Entry>, byDate: map<string, seq<Entry>>, order: seq<string>) {
    && (forall k :: k in byDate <==> k in order)
    && Sorting.NoDuplicates(order)
    && (forall k :: k in byDate ==> byDate[k] == OnDate(es, k) && byDate[k] != [])
    && (forall j :: 0 <= j < |es| ==> es[j].date in byDate)
  }

  /** Reading an entry whose date has a group appends it to that group. */
  lemma GroupAppend(es: seq<Entry>, e: Entry, byDate: map<string, seq<Entry>>, order: seq<string>)
    requires Grouped(es, byDate, order) && e.date in byDate
    ensures Grouped(es + [e], byDate[e.date := byDate[e.date] + [e]], order)
  {
    var d := e.date;
    var byDate' := byDate[d := byDate[d] + [e]];
    var es' := es + [e];
    forall k | k in byDate'
      ensures byDate'[k] == OnDate(es', k) && byDate'[k] != []
    {
      if k == d {
        OnDateOwn(es, e);
      } else {
        OtherDatesUnchanged(es, e);
        assert byDate'[k] == byDate[k];
      }
    }
    forall j | 0 <= j < |es'|
      ensures es'[j].date in byDate'
    {
      if j < |es| {
        assert es'[j] == es[j];
      }
    }
  }

  /** Reading an entry whose date has no group yet opens a group with it. */
  lemma GroupOpen(es: seq<Entry>, e: Entry, byDate: map<string, seq<Entry>>, order: seq<string>)
    requires Grouped(es, byDate, order) && e.date !in byDate
    ensures var started := byDate[e.date := []];
      Grouped(es + [e], started[e.date := started[e.date] + [e]], order + [e.date])
  {
    var d := e.date;
    var started := byDate[d := []];
    var byDate' := started[d := started[d] + [e]];
    var order' := order + [d];
    var es' := es + [e];
    assert byDate'[d] == OnDate(es', d) by {
      forall x | x in es
        ensures x.date != d
      {
        var j :| 0 <= j < |es| && es[j] == x;
      }
      OnDateNone(es, d);
      OnDateOwn(es, e);
    }
    forall k
      ensures k in byDate' <==> k in order'
    {
      assert k in order' <==> k in order || k == d;
    }
    forall i, j | 0 <= i < j < |order'|
      ensures order'[i] != order'[j]
    {
      assert order'[i] == order[i];
      if j < |order| {
        assert order'[j] == order[j];
      }
    }
    forall k | k in byDate'
      ensures byDate'[k] == OnDate(es', k) && byDate'[k] != []
    {
      if k != d {
        OtherDatesUnchanged(es, e);
        assert byDate'[k] == byDate[k];
      }
    }
    forall j | 0 <= j < |es'|
      ensures es'[j].date in byDate'
    {
      if j < |es| {
        assert es'[j] == es[j];
      }
    }
  }

  /**
   * The history page's groups. One group per distinct date, holding exactly
   * the entries of that date in input order, so that every entry lies in the
   * group of its date and in no other; when every date parses, the groups
   * run from the latest day to the earliest.
   */
  method GroupByDate(entries: seq<Entry>) returns (groups: seq<Group>)
    ensures forall i :: 0 <= i < |groups| ==>
      groups[i].items == OnDate(entries, groups[i].date) && groups[i].items != []
    ensures forall i, j :: 0 <= i < j < |groups| ==> groups[i].date != groups[j].date
    ensures forall e :: e in entries ==> exists i :: 0 <= i < |groups| && groups[i].date == e.date
    ensures forall e, i :: e in entries && 0 <= i < |groups| ==> (e in groups[i].items <==> groups[i].date == e.date)
    ensures (forall e :: e in entries ==> DayOf(e.date).Some?) ==>
      forall i, j :: 0 <= i < j < |groups| ==> DayKey(groups[i].date) > DayKey(groups[j].date)
  {
    var byDate: map<string, seq<Entry>> := map[];
    var order: seq<string> := [];
    var i := 0;
    while i < |entries|
      invariant 0 <= i <= |entries|
      invariant Grouped(entries[..i], byDate, order)
    {
      var e := entries[i];
      assert entries[..i + 1] == entries[..i] + [e];
      if e.date !in byDate {
        GroupOpen(entries[..i], e, byDate, order);
        byDate := byDate[e.date := []];
        order := order + [e.date];
      } else {
        GroupAppend(entries[..i], e, byDate, order);
      }
      byDate := byDate[e.date := byDate[e.date] + [e]];
      i := i + 1;
    }
    assert entries[..i] == entries;
    var keys := Sorting.Sort(order, Later);
    KeysFacts(byDate, order, keys);
    groups := seq(|keys|, j requires 0 <= j < |keys| => Group(keys[j], byDate[keys[j]]));
    GroupsFacts(entries, byDate, order, keys, groups);
  }

  /** The groups built from the loop's result have the properties the page relies on. */
  lemma GroupsFacts(entries: seq<Entry>, byDate: map<string, seq<Entry>>, order: seq<string>,
                    keys: seq<string>, groups: seq<Group>)
    requires Grouped(entries, byDate, order)
    requires keys == Sorting.Sort(order, Later)
    requires forall k :: k in keys <==> k in byDate
    requires Sorting.NoDuplicates(keys)
    requires groups == seq(|keys|, j requires 0 <= j < |keys| => Group(keys[j], byDate[keys[j]]))
    ensures forall i :: 0 <= i < |groups| ==>
      groups[i].items == OnDate(entries, groups[i].date) && groups[i].items != []
    ensures forall i, j :: 0 <= i < j < |groups| ==> groups[i].date != groups[j].date
    ensures forall e :: e in entries ==> exists i :: 0 <= i < |groups| && groups[i].date == e.date
    ensures forall e, i :: e in entries && 0 <= i < |groups| ==> (e in groups[i].items <==> groups[i].date == e.date)
    ensures (forall e :: e in entries ==> DayOf(e.date).Some?) ==>
      forall i, j :: 0 <= i < j < |groups| ==> DayKey(groups[i].date) > DayKey(groups[j].date)
  {
    GroupsHoldTheirDates(entries, byDate, keys, groups);
    forall e | e in entries
      ensures e.date in keys
    {
      var j :| 0 <= j < |entries| && entries[j] == e;
    }
    GroupsCoverEntries(entries, keys, groups);
    if forall e :: e in entries ==> DayOf(e.date).Some? {
      KeysAreDates(entries, byDate);
      Sorting.SortPermutes(order, Later);
      KeysDescend(order, keys);
    }
  }

  /** The sorted dates are the loop's dates, without repeats. */
  lemma KeysFacts(byDate: map<string, seq<Entry>>, order: seq<string>, keys: seq<string>)
    requires forall k :: k in byDate <==> k in order
    requires Sorting.NoDuplicates(order)
    requires keys == Sorting.Sort(order, Later)
    ensures forall k :: k in keys <==> k in byDate
    ensures Sorting.NoDuplicates(keys)
  {
    Sorting.SortPermutes(order, Later);
    forall k
      ensures k in keys <==> k in byDate
    {
      assert k in keys <==> k in multiset(order);
    }
    Sorting.PermutationNoDuplicates(order, keys);
  }

  /** Each date with a group is the date of one of the entries. */
  lemma KeysAreDates(entries: seq<Entry>, byDate: map<string, seq<Entry>>)
    requires forall k :: k in byDate ==> byDate[k] == OnDate(entries, k) && byDate[k] != []
    ensures forall k :: k in byDate ==> exists e :: e in entries && e.date == k
  {
    forall k | k in byDate
      ensures exists e :: e in entries && e.date == k
    {
      var x := byDate[k][0];
      OnDateMembers(entries, k);
      assert x in OnDate(entries, k);
    }
  }

  /** When every date parses, the sorted dates run from the latest day to the earliest. */
  lemma KeysDescend(order: seq<string>, keys: seq<string>)
    requires forall k :: k in order ==> DayOf(k).Some?
    requires Sorting.NoDuplicates(keys)
    requires multiset(keys) == multiset(order)
    requires keys == Sorting.Sort(order, Later)
    ensures forall i, j :: 0 <= i < j < |keys| ==> DayKey(keys[i]) > DayKey(keys[j])
  {
    LaterOrdersParsedDates(order);
    Sorting.SortSorted(order, Later);
    forall i, j | 0 <= i < j < |keys|
      ensures DayKey(keys[i]) > DayKey(keys[j])
    {
      assert keys[i] in multiset(order) && keys[j] in multiset(order);
      assert Later(keys[i], keys[j]);
      ParseInjective(keys[i], keys[j]);
    }
  }

  /** Each group holds exactly its date's entries, and the dates are distinct. */
  lemma GroupsHoldTheirDates(entries: seq<Entry>, byDate: map<string, seq<Entry>>, keys: seq<string>, groups: seq<Group>)
    requires forall k :: k in byDate ==> byDate[k] == OnDate(entries, k) && byDate[k] != []
    requires forall k :: k in keys ==> k in byDate
    requires Sorting.NoDuplicates(keys)
    requires groups == seq(|keys|, j requires 0 <= j < |keys| => Group(keys[j], byDate[keys[j]]))
    ensures forall i :: 0 <= i < |groups| ==>
      groups[i].items == OnDate(entries, groups[i].date) && groups[i].items != []
    ensures forall i, j :: 0 <= i < j < |groups| ==> groups[i].date != groups[j].date
  {
    forall i | 0 <= i < |groups|
      ensures groups[i].items == OnDate(entries, groups[i].date) && groups[i].items != []
    {
      assert keys[i] in byDate;
    }
  }

  /** Every entry lies in the group of its date and in no other. */
  lemma GroupsCoverEntries(entries: seq<Entry>, keys: seq<string>, groups: seq<Group>)
    requires forall e :: e in entries ==> e.date in keys
    requires |groups| == |keys|
    requires forall i :: 0 <= i < |groups| ==> groups[i].date == keys[i]
    requires forall i :: 0 <= i < |groups| ==> groups[i].items == OnDate(entries, groups[i].date)
    ensures forall e :: e in entries ==> exists i :: 0 <= i < |groups| && groups[i].date == e.date
    ensures forall e, i :: e in entries && 0 <= i < |groups| ==> (e in groups[i].items <==> groups[i].date == e.date)
  {
    forall e | e in entries
      ensures exists i :: 0 <= i < |groups| && groups[i].date == e.date
    {
      var i :| 0 <= i < |keys| && keys[i] == e.date;
      assert groups[i].date == e.date;
    }
    forall e, i | e in entries && 0 <= i < |groups|
      ensures e in groups[i].items <==> groups[i].date == e.date
    {
      OnDateMembers(entries, groups[i].date);
      if groups[i].date == e.date {
        OnDateContains(entries, e);
      }
    }
  }

  // ---------------------------------------------------------------------
  // A day's card

  /** What a day's card shows: a weight if any, and the day's two totals. */
  datatype Card = Card(weight: Option<int>, calories: int, workout: int)

  /** The value of the first weight entry, in list order. */
  function FirstWeight(es: seq<Entry>): Option<int> {
    if es == [] then None
    else if es[0].kind == Weight then Some(es[0].value)
    else FirstWeight(es[1..])
  }

  /** The card of a day's entries. */
  function CardOf(items: seq<Entry>): Card {
    Card(FirstWeight(items), SumOf(items, Food), SumOf(items, Exercise))
  }

  /**
   * The card's weight is the value of the first weight entry in list
   * order, and there is none exactly when no weight entry exists.
   */
  lemma {:induction false} FirstWeightIsFirst(es: seq<Entry>)
    ensures FirstWeight(es).None? <==> forall i :: 0 <= i < |es| ==> es[i].kind != Weight
    ensures FirstWeight(es).Some? ==>
      exists i :: 0 <= i < |es| && es[i].kind == Weight && es[i].value == FirstWeight(es).value &&
        forall j :: 0 <= j < i ==> es[j].kind != Weight
  {
    if es != [] && es[0].kind != Weight {
      var tail := es[1..];
      FirstWeightIsFirst(tail);
      if FirstWeight(tail).Some? {
        var i :| 0 <= i < |tail| && tail[i].kind == Weight && tail[i].value == FirstWeight(tail).value &&
          forall j :: 0 <= j < i ==> tail[j].kind != Weight;
        assert es[i + 1] == tail[i];
        forall j | 0 <= j < i + 1
          ensures es[j].kind != Weight
        {
          if j > 0 {
            assert es[j] == tail[j - 1];
          }
        }
      }
      forall i | 0 <= i < |es| && es[i].kind == Weight
        ensures FirstWeight(tail).Some?
      {
        assert tail[i - 1] == es[i];
      }
    }
  }

  predicate AtMostOneWeight(items: seq<Entry>) {
    forall i, j :: 0 <= i < |items| && 0 <= j < |items| && items[i].kind == Weight && items[j].kind == Weight ==> i == j
  }

  /**
   * A day's card and the chart's point of that day show the same totals, and
   * the same weight when the day has at most one weight entry.
   */
  lemma CardAgreesWithChart(es: seq<Entry>, date: string)
    ensures var card, point := CardOf(OnDate(es, date)), BucketOf(es, date);
      card.calories == point.calories && card.workout == point.workout
    ensures AtMostOneWeight(OnDate(es, date)) ==> CardOf(OnDate(es, date)).weight == BucketOf(es, date).weight
  {
    var items := OnDate(es, date);
    FirstWeightIsFirst(items);
    LastWeightIsLast(items);
  }

  /**
   * In a list kept newest write first, the card shows the weight written
   * last and the chart the weight written first: the weight entry the card
   * picks is at least as recent as every weight entry of the day, the one the
   * chart picks at most as recent.
   */
  lemma CardNewestChartOldest(items: seq<Entry>)
    requires forall i, j :: 0 <= i < j < |items| ==> Millis(items[i]) >= Millis(items[j])
    ensures FirstWeight(items).Some? ==>
      exists i :: 0 <= i < |items| && items[i].kind == Weight && items[i].value == FirstWeight(items).value &&
        forall j :: 0 <= j < |items| && items[j].kind == Weight ==> Millis(items[i]) >= Millis(items[j])
    ensures LastWeight(items).Some? ==>
      exists i :: 0 <= i < |items| && items[i].kind == Weight && items[i].value == LastWeight(items).value &&
        forall j :: 0 <= j < |items| && items[j].kind == Weight ==> Millis(items[i]) <= Millis(items[j])
  {
    FirstWeightIsFirst(items);
    LastWeightIsLast(items);
  }

  /** Two weighings on one day: the card shows the later one, the chart the earlier one. */
  lemma CardAndChartDiffer()
    ensures var day := [Entry("b", Weight, 69, "", "", "2024-01-01", Some(2)),
                        Entry("a", Weight, 70, "", "", "2024-01-01", Some(1))];
      CardOf(day).weight == Some(69) && BucketOf(day, "2024-01-01").weight == Some(70)
  {
    var day := [Entry("b", Weight, 69, "", "", "2024-01-01", Some(2)),
                Entry("a", Weight, 70, "", "", "2024-01-01", Some(1))];
    assert day[..1] == [day[0]];
    assert [day[0]][..0] == [];
    assert OnDate(day, "2024-01-01") == day;
  }
}
