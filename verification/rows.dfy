/** Rows of the backing store as the reindex query projects them, and the
    orderings on their database ids that keyset pagination relies on. */
module Rows {

  datatype Option<T> = None | Some(value: T)

  /** One row of the VulnerableSoftware projection
      `id, uuid, cpe22, cpe23, vendor, product, version`.
      `id` is the auto-incremented database key used as the pagination cursor;
      the five string columns may be null in the store, hence `Option`. */
  datatype Row = Row(
    id: nat,
    uuid: string,
    cpe22: Option<string>,
    cpe23: Option<string>,
    vendor: Option<string>,
    product: Option<string>,
    version: Option<string>)

  /** No two rows share an id (the id is the table's primary key). */
  predicate DistinctIds(s: seq<Row>) {
    forall i, j :: 0 <= i < j < |s| ==> s[i].id != s[j].id
  }

  /** Ordered by id, ties allowed. */
  predicate Sorted(s: seq<Row>) {
    forall i, j :: 0 <= i < j < |s| ==> s[i].id <= s[j].id
  }

  /** Strictly ascending by id. */
  predicate Ascending(s: seq<Row>) {
    forall i, j :: 0 <= i < j < |s| ==> s[i].id < s[j].id
  }
}
