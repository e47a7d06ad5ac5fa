/**
 * Reconciling the store's full-collection snapshots into the ordered list
 * of entries the rest of the application reads: which snapshots are applied,
 * and the order the applied list is put in.
 */
module Sync {
  import opened Optional
  import opened Entries
  import Sorting

  /**
   * A snapshot is applied when it comes from the server, or carries no
   * pending local writes, or the list it would replace is empty.
   */
  predicate Accept(fromCache: bool, hasPendingWrites: bool, currentCount: nat) {
    !fromCache || !hasPendingWrites || currentCount == 0
  }

  lemma AcceptExactly(fromCache: bool, hasPendingWrites: bool, currentCount: nat)
    ensures !Accept(fromCache, hasPendingWrites, currentCount) <==>
            fromCache && hasPendingWrites && currentCount > 0
    ensures Accept(true, true, 0)
  {
  }

  // ---------------------------------------------------------------------
  // String order

  /**
   * `a.localeCompare(b)`, taken as comparison of code points from the left,
   * a proper prefix coming first.
   */
  function LocaleCompare(a: string, b: string): (r: int)
    ensures -1 <= r <= 1
  {
    if a == [] && b == [] then 0
    else if a == [] then -1
    else if b == [] then 1
    else if a[0] < b[0] then -1
    else if a[0] > b[0] then 1
    else LocaleCompare(a[1..], b[1..])
  }

  lemma {:induction false} LocaleCompareZero(a: string, b: string)
    ensures LocaleCompare(a, b) == 0 <==> a == b
  {
    if a != [] && b != [] && a[0] == b[0] {
      LocaleCompareZero(a[1..], b[1..]);
      assert a == [a[0]] + a[1..] && b == [b[0]] + b[1..];
    }
  }

  lemma {:induction false} LocaleCompareAntisymmetric(a: string, b: string)
    ensures LocaleCompare(a, b) == -LocaleCompare(b, a)
  {
    if a != [] && b != [] && a[0] == b[0] {
      LocaleCompareAntisymmetric(a[1..], b[1..]);
    }
  }

  lemma {:induction false} LocaleCompareTransitive(a: string, b: string, c: string)
    requires LocaleCompare(a, b) < 0 && LocaleCompare(b, c) < 0
    ensures LocaleCompare(a, c) < 0
  {
    if a != [] && b != [] && c != [] && a[0] == b[0] && b[0] == c[0] {
      LocaleCompareTransitive(a[1..], b[1..], c[1..]);
    }
  }

  // ---------------------------------------------------------------------
  // Snapshot order

  /** The comparator of the snapshot sort: newest date first, then newest write. */
  function Compare(a: Entry, b: Entry): int {
    var dateCompare := LocaleCompare(b.date, a.date);
    if dateCompare != 0 then dateCompare else Millis(b) - Millis(a)
  }

  /** `a` may precede `b` in the applied list. */
  predicate ComesFirst(a: Entry, b: Entry) {
    Compare(a, b) <= 0
  }

  /** The order the list is kept in, stated without the comparator. */
  predicate NewestFirst(a: Entry, b: Entry) {
    LocaleCompare(a.date, b.date) > 0 || (a.date == b.date && Millis(a) >= Millis(b))
  }

  lemma ComesFirstMeans(a: Entry, b: Entry)
    ensures ComesFirst(a, b) <==> NewestFirst(a, b)
  {
    LocaleCompareZero(b.date, a.date);
    LocaleCompareAntisymmetric(a.date, b.date);
  }

  lemma ComesFirstTotalPreorder()
    ensures Sorting.TotalPreorder(ComesFirst)
  {
    forall a: Entry, b: Entry
      ensures ComesFirst(a, b) || ComesFirst(b, a)
    {
      LocaleCompareAntisymmetric(a.date, b.date);
    }
    forall a: Entry, b: Entry, c: Entry | ComesFirst(a, b) && ComesFirst(b, c)
      ensures ComesFirst(a, c)
    {
      ComesFirstMeans(a, b);
      ComesFirstMeans(b, c);
      ComesFirstMeans(a, c);
      if a.date != b.date && b.date != c.date {
        LocaleCompareAntisymmetric(c.date, a.date);
        LocaleCompareAntisymmetric(c.date, b.date);
        LocaleCompareAntisymmetric(b.date, a.date);
        LocaleCompareTransitive(c.date, b.date, a.date);
      }
    }
  }

  /** The snapshot's documents as entries, in snapshot order. */
  function Fetched(docs: seq<StoredDoc>): (r: seq<Entry>)
    ensures |r| == |docs|
    ensures forall i :: 0 <= i < |docs| ==> r[i] == FromDoc(docs[i])
  {
    if docs == [] then [] else [FromDoc(docs[0])] + Fetched(docs[1..])
  }

  /** The applied list: the snapshot's documents as entries, sorted. */
  function SnapshotEntries(docs: seq<StoredDoc>): seq<Entry> {
    Sorting.Sort(Fetched(docs), ComesFirst)
  }

  /**
   * The applied list holds exactly the snapshot's documents, newest date
   * first, equal dates newest write first (a missing write time counting as
   * 0), and entries tied on both keep the snapshot's order.
   */
  lemma SnapshotEntriesOrdered(docs: seq<StoredDoc>)
    ensures var r := SnapshotEntries(docs);
      && multiset(r) == multiset(Fetched(docs))
      && |r| == |docs|
      && (forall i, j :: 0 <= i < j < |r| ==> NewestFirst(r[i], r[j]))
  {
    var fetched := Fetched(docs);
    var r := SnapshotEntries(docs);
    Sorting.SortPermutes(fetched, ComesFirst);
    Sorting.SortLength(fetched, ComesFirst);
    ComesFirstTotalPreorder();
    Sorting.TotalPreorderOnAll(ComesFirst, fetched);
    Sorting.SortSorted(fetched, ComesFirst);
    forall i, j | 0 <= i < j < |r|
      ensures NewestFirst(r[i], r[j])
    {
      ComesFirstMeans(r[i], r[j]);
    }
  }

  lemma SnapshotEntriesStable(docs: seq<StoredDoc>, k: Entry)
    ensures Sorting.Filter(SnapshotEntries(docs), y => Sorting.Tied(ComesFirst, y, k)) ==
            Sorting.Filter(Fetched(docs), y => Sorting.Tied(ComesFirst, y, k))
  {
    ComesFirstTotalPreorder();
    var fetched := Fetched(docs);
    Sorting.SortStable(fetched, ComesFirst, k);
  }

  /** A full-collection notification from the store. */
  datatype Snapshot = Snapshot(docs: seq<StoredDoc>, fromCache: bool, hasPendingWrites: bool)

  /** The list after a snapshot, judged against a count of current entries. */
  function Reconcile(current: seq<Entry>, snap: Snapshot, currentCount: nat): seq<Entry> {
    if Accept(snap.fromCache, snap.hasPendingWrites, currentCount) then SnapshotEntries(snap.docs)
    else current
  }

  /**
   * A snapshot either replaces the list wholesale or leaves it exactly as it
   * was, and it is ignored only when it is a cached one with pending writes
   * arriving over a non-empty list.
   */
  lemma ReconcileReplacesOrKeeps(current: seq<Entry>, snap: Snapshot, currentCount: nat)
    ensures var r := Reconcile(current, snap, currentCount);
      && (!Accept(snap.fromCache, snap.hasPendingWrites, currentCount) ==> r == current)
      && (Accept(snap.fromCache, snap.hasPendingWrites, currentCount) ==>
            multiset(r) == multiset(Fetched(snap.docs)))
  {
    SnapshotEntriesOrdered(snap.docs);
  }

  // ---------------------------------------------------------------------
  // A listener's life

  /**
   * The listener as written: it keeps judging every snapshot against the
   * count of entries it saw when it was registered, since the callback only
   * ever reads the list of the render that registered it.
   */
  function ApplyCaptured(current: seq<Entry>, snaps: seq<Snapshot>, captured: nat): seq<Entry>
    decreases |snaps|
  {
    if snaps == [] then current
    else ApplyCaptured(Reconcile(current, snaps[0], captured), snaps[1..], captured)
  }

  /** The listener judging each snapshot against the list as it stands when the snapshot arrives. */
  function ApplyLive(current: seq<Entry>, snaps: seq<Snapshot>): seq<Entry>
    decreases |snaps|
  {
    if snaps == [] then current
    else ApplyLive(Reconcile(current, snaps[0], |current|), snaps[1..])
  }

  /**
   * Registered over an empty list, as it is on sign-in, the listener as
   * written applies every snapshot: the list always ends up as the last
   * snapshot's documents, whatever their origin.
   */
  lemma {:induction false} CapturedEmptyAcceptsAll(current: seq<Entry>, snaps: seq<Snapshot>)
    requires snaps != []
    ensures ApplyCaptured(current, snaps, 0) == SnapshotEntries(snaps[|snaps| - 1].docs)
    decreases |snaps|
  {
    if |snaps| > 1 {
      CapturedEmptyAcceptsAll(SnapshotEntries(snaps[0].docs), snaps[1..]);
    }
  }

  /** A snapshot from the local cache that still carries unconfirmed local writes. */
  predicate Intermediate(snap: Snapshot) {
    snap.fromCache && snap.hasPendingWrites
  }

  /**
   * Judged against the live list, intermediate snapshots never change a
   * non-empty list, however many of them arrive.
   */
  lemma {:induction false} LiveIgnoresIntermediate(current: seq<Entry>, snaps: seq<Snapshot>)
    requires current != []
    requires forall i :: 0 <= i < |snaps| ==> Intermediate(snaps[i])
    ensures ApplyLive(current, snaps) == current
    decreases |snaps|
  {
    if snaps != [] {
      assert Intermediate(snaps[0]);
      LiveIgnoresIntermediate(current, snaps[1..]);
    }
  }

  /**
   * An intermediate snapshot with no documents arriving over a loaded list:
   * the listener as written empties the list, the live rule keeps it.
   */
  lemma StaleCountEmptiesList()
    ensures var loaded := [Entry("a", Weight, 70, "", "", "2024-01-01", Some(1))];
      var snap := Snapshot([], true, true);
      ApplyCaptured(loaded, [snap], 0) == [] && ApplyLive(loaded, [snap]) == loaded
  {
    var loaded := [Entry("a", Weight, 70, "", "", "2024-01-01", Some(1))];
    var snap := Snapshot([], true, true);
    assert [snap][1..] == [];
    assert Fetched([]) == [];
  }
}
