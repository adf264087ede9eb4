/** The Drop record and the two store queries the views issue:
    `Drop.objects.filter(drop_id=...)` and `.filter(created_at__gt=...)`. */
module Drops {
  import opened Bytes
  import opened Seqs

  /** Creation times. Only their total order matters to the core. */
  type Timestamp = int

  /** One stored message under a drop id; immutable once created. */
  datatype Drop = Drop(dropId: string, createdAt: Timestamp, message: seq<byte>)

  /** The stored drops addressed to `dropId`, in store order. */
  function ForId(store: seq<Drop>, dropId: string): (r: seq<Drop>)
    ensures |r| <= |store|
    ensures forall d :: d in r <==> d in store && d.dropId == dropId
  {
    Filter(store, (d: Drop) => d.dropId == dropId)
  }

  /** The drops created strictly after `since`; one created exactly at `since` is left out. */
  function NewerThan(drops: seq<Drop>, since: Timestamp): (r: seq<Drop>)
    ensures |r| <= |drops|
    ensures forall d :: d in r <==> d in drops && d.createdAt > since
    ensures (forall d :: d in drops ==> d.createdAt <= since) ==> r == []
  {
    Filter(drops, (d: Drop) => d.createdAt > since)
  }

  /** Appending a drop to the store appends it to the query for its own id and leaves every other id's query alone. */
  lemma ForIdAfterAppend(store: seq<Drop>, d: Drop, dropId: string)
    ensures ForId(store + [d], dropId) ==
      if d.dropId == dropId then ForId(store, dropId) + [d] else ForId(store, dropId)
  {
    FilterAppend(store, [d], (x: Drop) => x.dropId == dropId);
  }

  /** Appending a drop to a sequence appends it to the drops newer than a
      cursor exactly when it is newer itself. */
  lemma NewerThanAfterAppend(drops: seq<Drop>, d: Drop, since: Timestamp)
    ensures NewerThan(drops + [d], since) ==
      if d.createdAt > since then NewerThan(drops, since) + [d] else NewerThan(drops, since)
  {
    FilterAppend(drops, [d], (x: Drop) => x.createdAt > since);
  }

  /** Whether a read for `dropId` with `cursor` shows drop `d`. */
  predicate Shows(d: Drop, dropId: string, cursor: Option<Timestamp>)
  {
    d.dropId == dropId && match cursor { case None => true case Some(since) => d.createdAt > since }
  }

  /** The reference reading of a read query: in one pass over the store, the
      drops with the id that are newer than the cursor, when there is one. */
  function Visible(store: seq<Drop>, dropId: string, cursor: Option<Timestamp>): seq<Drop>
  {
    Filter(store, (d: Drop) => Shows(d, dropId, cursor))
  }

  /** The two chained queries (`filter(drop_id=...)`, then `filter(created_at__gt=...)`)
      select the same drops, with the same multiplicities and in the same
      order, as the single pass `Visible`. */
  lemma ChainedQueries(store: seq<Drop>, dropId: string, since: Timestamp)
    ensures ForId(store, dropId) == Visible(store, dropId, None)
    ensures NewerThan(ForId(store, dropId), since) == Visible(store, dropId, Some(since))
  {
    FilterSame(store, (d: Drop) => d.dropId == dropId, (d: Drop) => Shows(d, dropId, None));
    FilterTwice(store, (d: Drop) => d.dropId == dropId, (d: Drop) => d.createdAt > since,
                (d: Drop) => Shows(d, dropId, Some(since)));
  }
}
