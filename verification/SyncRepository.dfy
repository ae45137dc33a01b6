/** The queries and updates of the sync endpoints on the tables. */
module SyncRepository {
  import opened Wrappers
  import opened SyncModel
  import opened SyncRuns
  import opened Database

  method GetItem(db: Tables, id: ItemId) returns (row: Option<Item>)
    ensures row == Current(db.Rows(), id)
  {
    row := if id in db.items then Some(db.items[id]) else None;
  }

  method UpsertItem(db: Tables, row: Row)
    modifies db`items
    ensures db.items == old(db.items)[row.itemId := row.item]
  {
    db.items := db.items[row.itemId := row.item];
  }

  method IncrementVaultRev(db: Tables) returns (rev: int)
    modifies db`lastRev
    ensures db.lastRev == rev == old(db.lastRev) + 1
  {
    db.lastRev := db.lastRev + 1;
    rev := db.lastRev;
  }

  method GetVaultRev(db: Tables) returns (rev: int)
    ensures rev == db.lastRev
  {
    rev := db.lastRev;
  }

  /** The first item after `since` in ascending order of rev. */
  method NextChange(db: Tables, since: int) returns (next: Option<ItemId>)
    ensures next.None? ==> forall i :: i in db.items ==> db.items[i].rev <= since
    ensures next.Some? ==>
              && next.value in db.items
              && since < db.items[next.value].rev
              && forall i :: i in db.items && since < db.items[i].rev ==> db.items[next.value].rev <= db.items[i].rev
  {
    next := None;
    var rest := db.items.Keys;
    while rest != {}
      invariant rest <= db.items.Keys
      invariant next.None? ==> forall i :: i in db.items && i !in rest ==> db.items[i].rev <= since
      invariant next.Some? ==>
                  && next.value in db.items
                  && since < db.items[next.value].rev
                  && forall i :: i in db.items && i !in rest && since < db.items[i].rev ==>
                       db.items[next.value].rev <= db.items[i].rev
      decreases rest
    {
      var i :| i in rest;
      if since < db.items[i].rev && (next.None? || db.items[i].rev < db.items[next.value].rev) {
        next := Some(i);
      }
      rest := rest - {i};
    }
  }

  /** `rows` are the first changes after `since`; every other one comes after the last of them. */
  ghost predicate ListedSoFar(items: map<ItemId, Item>, since: int, rows: seq<Row>) {
    && Ascending(rows)
    && (forall k :: 0 <= k < |rows| ==>
          && rows[k].itemId in items
          && items[rows[k].itemId] == rows[k].item
          && since < rows[k].item.rev <= NextSince(since, rows))
    && (forall i :: i in items && since < items[i].rev && !Listed(rows, i) ==> NextSince(since, rows) < items[i].rev)
  }

  method ListChanges(db: Tables, since: int, limit: nat) returns (rows: seq<Row>)
    requires db.Valid()
    ensures IsChanges(db.items, since, limit, rows)
  {
    rows := [];
    while |rows| < limit
      invariant |rows| <= limit
      invariant ListedSoFar(db.items, since, rows)
      decreases limit - |rows|
    {
      var next := NextChange(db, NextSince(since, rows));
      if next.None? {
        break;
      }
      NextChangeExtends(db.Rows(), since, rows, next.value);
      rows := rows + [Row(next.value, db.items[next.value])];
    }
  }

  /** Revisions are distinct, so the next change is the only one its row takes off the list. */
  lemma NextChangeExtends(v: Vault, since: int, rows: seq<Row>, next: ItemId)
    requires RevisionDiscipline(v) && ListedSoFar(v.items, since, rows)
    requires next in v.items && NextSince(since, rows) < v.items[next].rev
    requires forall i :: i in v.items && NextSince(since, rows) < v.items[i].rev ==> v.items[next].rev <= v.items[i].rev
    ensures ListedSoFar(v.items, since, rows + [Row(next, v.items[next])])
  {
    var after := rows + [Row(next, v.items[next])];
    assert after[|rows|].itemId == next;
    assert since <= NextSince(since, rows);
    forall i | i in v.items && since < v.items[i].rev && !Listed(after, i)
      ensures v.items[next].rev < v.items[i].rev
    {
      assert forall k :: 0 <= k < |rows| ==> after[k] == rows[k];
      assert i != next && !Listed(rows, i);
    }
  }

  method MissingBlobRefs(db: Tables, ids: set<BlobId>) returns (missing: set<BlobId>)
    ensures forall b :: b in missing <==> b in ids && b !in db.blobs
  {
    missing := {};
    var rest := ids;
    while rest != {}
      invariant rest <= ids
      invariant forall b :: b in missing <==> b in ids - rest && b !in db.blobs
      decreases rest
    {
      var b :| b in rest;
      if b !in db.blobs {
        missing := missing + {b};
      }
      rest := rest - {b};
    }
  }

  method MarkBlobsReferenced(db: Tables, refs: seq<BlobId>)
    modifies db`blobs
    ensures db.blobs == MarkReferenced(old(db.blobs), refs)
  {
    for k := 0 to |refs|
      invariant db.blobs == MarkReferenced(old(db.blobs), refs[..k])
    {
      if refs[k] in db.blobs {
        db.blobs := db.blobs[refs[k] := db.blobs[refs[k]].(referenced := true)];
      }
      assert refs[..k + 1] == refs[..k] + [refs[k]];
    }
    assert refs[..|refs|] == refs;
  }

  function StaleTombstones(items: map<ItemId, Item>, cutoff: int): set<ItemId> {
    set i | i in items && Purgeable(items[i], cutoff)
  }

  lemma PurgeDropsStale(v: Vault, cutoff: int)
    ensures Purge(v, cutoff).items == v.items - StaleTombstones(v.items, cutoff)
    ensures |StaleTombstones(v.items, cutoff)| + |Purge(v, cutoff).items| == |v.items|
  {
    var stale, kept := StaleTombstones(v.items, cutoff), Purge(v, cutoff).items;
    assert v.items.Keys == kept.Keys + stale;
    assert |kept| == |kept.Keys| && |v.items| == |v.items.Keys|;
  }

  method DeleteTombstonesOlderThan(db: Tables, cutoff: int) returns (removed: nat)
    requires db.Valid()
    modifies db`items
    ensures db.Valid() && db.Rows() == Purge(old(db.Rows()), cutoff)
    ensures removed + |db.items| == |old(db.items)|
    ensures forall i :: i in db.items <==> i in old(db.items) && !(old(db.items)[i].deleted && old(db.items)[i].updatedAt < cutoff)
    ensures forall i :: i in db.items ==> db.items[i] == old(db.items)[i]
  {
    PurgeDropsStale(db.Rows(), cutoff);
    StepKeepsValid(db.Rows(), PurgeTombstones(cutoff));
    var stale := StaleTombstones(db.items, cutoff);
    db.items := db.items - stale;
    removed := |stale|;
  }
}
