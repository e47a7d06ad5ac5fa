/**
 * The log's records: an entry as the application holds it, and a document
 * as the store delivers it.
 */
module Entries {
  import opened Optional

  datatype Kind = Weight | Food | Exercise

  /**
   * One logged observation. `value` is kilograms, kilocalories or minutes
   * according to `kind`; `date` is the day it is attributed to, as text;
   * `timestamp` is the store's write time in milliseconds, absent while the
   * write is still pending.
   */
  datatype Entry = Entry(
    id: string,
    kind: Kind,
    value: int,
    name: string,
    details: string,
    date: string,
    timestamp: Option<int>)

  /** The fields of a stored document; `name` and `details` may be missing. */
  datatype Doc = Doc(
    kind: Kind,
    value: int,
    name: Option<string>,
    details: Option<string>,
    date: string,
    timestamp: Option<int>)

  /** A document of a snapshot, with the identifier the store gave it. */
  datatype StoredDoc = StoredDoc(id: string, data: Doc)

  /** A text the document carries, or "" when it carries none. */
  function OrEmpty(s: Option<string>): (r: string)
    ensures s.Some? ==> r == s.value
    ensures s.None? ==> r == ""
  {
    match s
    case Some(t) => t
    case None => ""
  }

  /** The entry a snapshot document becomes; missing texts become "". */
  function FromDoc(d: StoredDoc): (e: Entry)
    ensures e.id == d.id && e.kind == d.data.kind && e.value == d.data.value
    ensures e.date == d.data.date && e.timestamp == d.data.timestamp
    ensures e.name == OrEmpty(d.data.name) && e.details == OrEmpty(d.data.details)
    ensures d.data.name.None? ==> e.name == ""
    ensures d.data.details.None? ==> e.details == ""
  {
    Entry(d.id, d.data.kind, d.data.value, OrEmpty(d.data.name), OrEmpty(d.data.details),
          d.data.date, d.data.timestamp)
  }

  /** The write time used for ordering: a missing timestamp counts as 0. */
  function Millis(e: Entry): int {
    match e.timestamp
    case Some(t) => t
    case None => 0
  }
}
