/**
 * The application's state around the entry list: who is signed in, the
 * list the snapshot listener maintains, the remote collection, and the one
 * deletion that can still be undone.
 */
module Tracker {
  import opened Optional
  import opened Entries
  import Sync

  /** The entry `entries.find(e => e.id === id)` picks: the first with that identifier. */
  function FindById(entries: seq<Entry>, id: string): (r: Option<Entry>)
    ensures r.None? <==> forall i :: 0 <= i < |entries| ==> entries[i].id != id
    ensures r.Some? ==>
      exists i :: 0 <= i < |entries| && entries[i] == r.value && r.value.id == id &&
        forall j :: 0 <= j < i ==> entries[j].id != id
  {
    if entries == [] then None
    else if entries[0].id == id then Some(entries[0])
    else
      var r := FindById(entries[1..], id);
      assert forall j :: 1 <= j < |entries| ==> entries[j] == entries[1..][j - 1];
      r
  }

  /**
   * The document an undo writes back: the deleted entry's fields, its
   * details defaulting to "", and the server's write time. Read back under
   * any new identifier it gives the deleted entry again, with that
   * identifier and that write time.
   */
  function RestoredDoc(e: Entry, now: int): (d: Doc)
    ensures forall id :: FromDoc(StoredDoc(id, d)) == e.(id := id, timestamp := Some(now))
  {
    Doc(e.kind, e.value, Some(e.name), Some(e.details), e.date, Some(now))
  }

  class Tracker {
    /** The component is mounted, so its authentication listener is registered. */
    var mounted: bool
    /** A user is signed in. */
    var signedIn: bool
    /** The list is still waiting for the first snapshot. */
    var loading: bool
    /** The entries, as the snapshot listener last applied them. */
    var entries: seq<Entry>
    /** The snapshot listener is registered. */
    var listening: bool
    /** The number of entries the listener saw when it was registered. */
    var capturedCount: nat
    /** The signed-in user's remote collection, by document identifier. */
    var store: map<string, Doc>
    /** The last deleted entry, while it can be undone. */
    var pending: Option<Entry>
    /** The timer that ends the undo window is running. */
    var timerActive: bool

    /**
     * A running timer belongs to a pending deletion, and neither the
     * snapshot listener nor a timer outlives the component.
     */
    ghost predicate Valid()
      reads this
    {
      && (timerActive ==> pending.Some? && mounted)
      && (listening ==> mounted)
    }

    constructor(store: map<string, Doc>)
      ensures Valid()
      ensures mounted
      ensures !signedIn && loading && entries == [] && !listening && capturedCount == 0
      ensures this.store == store && pending == None && !timerActive
    {
      mounted := true;
      signedIn := false;
      loading := true;
      entries := [];
      listening := false;
      capturedCount := 0;
      this.store := store;
      pending := None;
      timerActive := false;
    }

    /**
     * The authentication callback: the user is set and loading ends; a new
     * user registers a fresh listener, which sees the list as it is now.
     */
    method AuthChanged(present: bool)
      requires Valid() && mounted
      modifies this
      ensures Valid() && mounted
      ensures signedIn == present && !loading && listening == present
      ensures capturedCount == (if present then |old(entries)| else old(capturedCount))
      ensures entries == old(entries) && store == old(store)
      ensures pending == old(pending) && timerActive == old(timerActive)
    {
      signedIn := present;
      loading := false;
      listening := present;
      if present {
        capturedCount := |entries|;
      }
    }

    /** A snapshot delivered to the listener as written: judged against the count it captured. */
    method OnSnapshotAsWritten(snap: Sync.Snapshot)
      requires Valid() && listening
      modifies this
      ensures Valid()
      ensures entries == Sync.Reconcile(old(entries), snap, capturedCount) && !loading
      ensures signedIn == old(signedIn) && listening && capturedCount == old(capturedCount) && mounted
      ensures store == old(store) && pending == old(pending) && timerActive == old(timerActive)
    {
      entries := Sync.Reconcile(entries, snap, capturedCount);
      loading := false;
    }

    /** A snapshot delivered to the listener, judged against the list as it stands. */
    method OnSnapshot(snap: Sync.Snapshot)
      requires Valid() && listening
      modifies this
      ensures Valid()
      ensures entries == Sync.Reconcile(old(entries), snap, |old(entries)|) && !loading
      ensures signedIn == old(signedIn) && listening && capturedCount == old(capturedCount) && mounted
      ensures store == old(store) && pending == old(pending) && timerActive == old(timerActive)
    {
      entries := Sync.Reconcile(entries, snap, |entries|);
      loading := false;
    }

    /**
     * The listener's error callback: loading ends and the list is kept. The
     * store delivers nothing more to a listener after its error callback.
     */
    method OnSnapshotError()
      requires Valid() && listening
      modifies this
      ensures Valid()
      ensures !loading && !listening
      ensures entries == old(entries) && signedIn == old(signedIn) && capturedCount == old(capturedCount)
      ensures store == old(store) && pending == old(pending) && timerActive == old(timerActive) && mounted
    {
      loading := false;
      listening := false;
    }

    /**
     * Deleting the entry `id` of the list. Nothing happens when no user is
     * signed in, when the list has no such entry, or when the store refuses
     * the write (`writeOk` false). Otherwise the document is removed and
     * the entry becomes the one that can be undone, replacing any earlier
     * one, whose timer is cancelled as the new window's starts.
     */
    method DeleteEntry(id: string, writeOk: bool)
      requires Valid() && mounted
      modifies this
      ensures Valid()
      ensures var found := FindById(old(entries), id);
        if old(signedIn) && found.Some? && writeOk then
          store == old(store) - {id} && pending == found && pending.value.id == id && timerActive
        else
          store == old(store) && pending == old(pending) && timerActive == old(timerActive)
      ensures entries == old(entries) && signedIn == old(signedIn) && loading == old(loading)
      ensures listening == old(listening) && capturedCount == old(capturedCount) && mounted
    {
      if !signedIn {
        return;
      }
      var found := FindById(entries, id);
      if found.None? {
        return;
      }
      if !writeOk {
        return;
      }
      store := store - {id};
      pending := found;
      timerActive := true;
    }

    /**
     * Undoing the last deletion. Nothing happens when there is none or no
     * user is signed in. Otherwise the timer is cancelled and the entry is
     * written back as a new document, under the identifier `newId` the
     * store hands out (one no document has), with the server's time `now`;
     * if that write fails the entry stays pending, with no timer left to end
     * its window.
     */
    method UndoDelete(newId: string, now: int, writeOk: bool)
      requires Valid() && mounted
      requires newId !in store
      modifies this
      ensures Valid()
      ensures old(pending).None? || !old(signedIn) ==>
        store == old(store) && pending == old(pending) && timerActive == old(timerActive)
      ensures old(pending).Some? && old(signedIn) && writeOk ==>
        store == old(store)[newId := RestoredDoc(old(pending).value, now)] && pending == None && !timerActive
      ensures old(pending).Some? && old(signedIn) && !writeOk ==>
        store == old(store) && pending == old(pending) && !timerActive
      ensures entries == old(entries) && signedIn == old(signedIn) && loading == old(loading)
      ensures listening == old(listening) && capturedCount == old(capturedCount) && mounted
    {
      if pending.None? || !signedIn {
        return;
      }
      timerActive := false;
      if !writeOk {
        return;
      }
      store := store[newId := RestoredDoc(pending.value, now)];
      pending := None;
    }

    /** The undo window's timer fires: the deletion can no longer be undone. */
    method Expire()
      requires Valid() && timerActive
      modifies this
      ensures Valid()
      ensures old(pending).Some? && old(mounted)
      ensures pending == None && !timerActive && mounted
      ensures entries == old(entries) && store == old(store) && signedIn == old(signedIn) && loading == old(loading)
      ensures listening == old(listening) && capturedCount == old(capturedCount)
    {
      pending := None;
      timerActive := false;
    }

    /**
     * The component goes away: the authentication and snapshot listeners
     * are removed and a running timer is cancelled, so no further event
     * reaches the component.
     */
    method Unmount()
      requires Valid()
      modifies this
      ensures Valid()
      ensures !mounted && !listening && !timerActive
      ensures entries == old(entries) && store == old(store) && pending == old(pending)
      ensures signedIn == old(signedIn) && loading == old(loading) && capturedCount == old(capturedCount)
    {
      mounted := false;
      listening := false;
      timerActive := false;
    }
  }

  /**
   * Deleting an entry of the list and undoing it in time leaves the store
   * as before, every other document untouched, except that the entry's
   * document is back under a new identifier no document had, and reads back as the same entry with that identifier and a
   * new write time.
   */
  method DeleteThenUndo(t: Tracker, id: string, newId: string, now: int)
    requires t.Valid() && t.mounted && t.signedIn
    requires FindById(t.entries, id).Some?
    requires newId !in t.store && newId != id
    modifies t
    ensures t.Valid()
    ensures newId in t.store && t.pending == None && !t.timerActive
    ensures t.store - {newId} == old(t.store) - {id}
    ensures forall k :: k in old(t.store) && k != id ==> k in t.store && t.store[k] == old(t.store)[k]
    ensures t.store == (old(t.store) - {id})[newId := RestoredDoc(FindById(old(t.entries), id).value, now)]
    ensures FromDoc(StoredDoc(newId, t.store[newId])) ==
      FindById(old(t.entries), id).value.(id := newId, timestamp := Some(now))
  {
    t.DeleteEntry(id, true);
    t.UndoDelete(newId, now, true);
  }
}
