/**
 Every run of the sync and blob server on one vault: any interleaving of push requests, upload
 inserts, tombstone cleanups and the collector's delete transactions, the last two working from
 arbitrarily stale lists. What such runs keep: the revision discipline and blob integrity.
 */
module SyncRuns {
  import opened Wrappers
  import opened Octets
  import opened SyncModel
  import opened BlobModel
  import opened BlobRefsText

  /** One atomic step on the tables. */
  datatype Action =
    | Push(authenticated: DeviceId, req: PushRequest)
    | UploadInsert(digest: Digest, size: nat, now: int)
    | PurgeTombstones(cutoff: int)
    | CollectUnreferenced(blob: BlobId)
    | CollectOrphan(blob: BlobId)

  ghost function Step(v: Vault, a: Action): Vault {
    match a
    case Push(authenticated, req) => HandlePush(v, authenticated, req).0
    case UploadInsert(digest, size, now) => InsertIfAbsent(v, LowerHex(digest), size, now)
    case PurgeTombstones(cutoff) => Purge(v, cutoff)
    case CollectUnreferenced(blob) => DeleteIfUnreferenced(v, blob)
    case CollectOrphan(blob) => DeleteIfOrphan(v, blob)
  }

  ghost function Run(v: Vault, actions: seq<Action>): Vault {
    if actions == [] then v
    else Step(Run(v, actions[..|actions| - 1]), actions[|actions| - 1])
  }

  /** Item revisions are distinct and drawn from 1..last_rev. */
  ghost predicate RevisionDiscipline(v: Vault) {
    && 0 <= v.lastRev
    && (forall i :: i in v.items ==> 1 <= v.items[i].rev <= v.lastRev)
    && (forall i, j :: i in v.items && j in v.items && i != j ==> v.items[i].rev != v.items[j].rev)
  }

  /** No live item points at a blob the server has dropped or could take for unconfirmed. */
  ghost predicate BlobIntegrity(v: Vault) {
    forall i, b :: i in v.items && !v.items[i].deleted && b in v.items[i].blobRefs ==>
      b in v.blobs && v.blobs[b].referenced
  }

  ghost predicate Valid(v: Vault) {
    RevisionDiscipline(v) && BlobIdsAreHex(v) && BlobIntegrity(v)
  }

  // ---- One batch ----

  lemma StoreKeepsValid(v: Vault, row: Row)
    requires Valid(v)
    requires forall b :: b in row.item.blobRefs ==> b in v.blobs
    ensures Valid(Store(v, row)) && Store(v, row).blobs.Keys == v.blobs.Keys
  {
    var w := Store(v, row);
    assert w.blobs.Keys == v.blobs.Keys;
    forall k | 0 <= k < |row.item.blobRefs|
      ensures IsBlobId(row.item.blobRefs[k])
    {
      assert row.item.blobRefs[k] in v.blobs;
    }
  }

  lemma {:induction false} BatchKeepsValid(t: Tx, rows: seq<Row>)
    requires Valid(t.vault) && RefsExist(t.vault, rows)
    ensures Valid(PushFrom(t, rows).vault)
    ensures PushFrom(t, rows).vault.blobs.Keys == t.vault.blobs.Keys
  {
    if rows != [] {
      var before := rows[..|rows| - 1];
      assert forall i :: 0 <= i < |before| ==> before[i] == rows[i];
      BatchKeepsValid(t, before);
      var u, row := PushFrom(t, before), rows[|rows| - 1];
      if Resolve(Current(u.vault, row.itemId), row.item) {
        StoreKeepsValid(u.vault, row);
      }
    }
  }

  // ---- Every run ----

  lemma UploadKeepsValid(v: Vault, digest: Digest, size: nat, now: int)
    requires Valid(v)
    ensures Valid(InsertIfAbsent(v, LowerHex(digest), size, now))
  {
    DigestNamesBlob(digest);
  }

  lemma OrphanKeepsValid(v: Vault, blob: BlobId)
    requires Valid(v)
    ensures Valid(DeleteIfOrphan(v, blob))
  {
    if IsBlobId(blob) {
      TextLivenessIsLiveness(v.items, blob);
    }
  }

  lemma PurgeKeepsValid(v: Vault, cutoff: int)
    requires Valid(v)
    ensures Valid(Purge(v, cutoff))
  {
  }

  lemma StepKeepsValid(v: Vault, a: Action)
    requires Valid(v)
    ensures Valid(Step(v, a))
  {
    match a
    case Push(authenticated, req) =>
      if PushRefusal(v, authenticated, req).None? {
        BatchKeepsValid(Tx(v, [], []), DecodeBatch(req.deviceId, req.items));
      }
    case UploadInsert(digest, size, now) => UploadKeepsValid(v, digest, size, now);
    case PurgeTombstones(cutoff) => PurgeKeepsValid(v, cutoff);
    case CollectUnreferenced(blob) =>
    case CollectOrphan(blob) => OrphanKeepsValid(v, blob);
  }

  lemma {:induction false} RunKeepsValid(v: Vault, actions: seq<Action>)
    requires Valid(v)
    ensures Valid(Run(v, actions))
  {
    if actions != [] {
      RunKeepsValid(v, actions[..|actions| - 1]);
      StepKeepsValid(Run(v, actions[..|actions| - 1]), actions[|actions| - 1]);
    }
  }

  /** Main result: whatever the interleaving, from the empty vault on. */
  lemma EveryReachableVaultIsValid(actions: seq<Action>)
    ensures var v := Run(EMPTY_VAULT, actions);
            RevisionDiscipline(v) && BlobIdsAreHex(v) && BlobIntegrity(v)
  {
    RunKeepsValid(EMPTY_VAULT, actions);
  }

  // ---- What a batch hands out ----

  /** For each row of a batch, whether the rule accepts it when its turn comes. */
  ghost function Verdicts(v: Vault, rows: seq<Row>): seq<bool> {
    if rows == [] then []
    else
      var before, row := rows[..|rows| - 1], rows[|rows| - 1];
      Verdicts(v, before) + [Resolve(Current(PushAll(v, before).vault, row.itemId), row.item)]
  }

  /** The ids of the rows with the given verdict, in batch order. */
  ghost function Picked(rows: seq<Row>, verdicts: seq<bool>, wanted: bool): seq<ItemId>
    requires |rows| == |verdicts|
  {
    if rows == [] then []
    else
      var n := |rows| - 1;
      Picked(rows[..n], verdicts[..n], wanted) + if verdicts[n] == wanted then [rows[n].itemId] else []
  }

  ghost function AcceptedIds(accepted: seq<Accepted>): seq<ItemId> {
    seq(|accepted|, i requires 0 <= i < |accepted| => accepted[i].itemId)
  }

  ghost function RowIds(rows: seq<Row>): seq<ItemId> {
    seq(|rows|, i requires 0 <= i < |rows| => rows[i].itemId)
  }

  lemma {:induction false} OneVerdictPerRow(v: Vault, rows: seq<Row>)
    ensures |Verdicts(v, rows)| == |rows|
  {
    if rows != [] {
      OneVerdictPerRow(v, rows[..|rows| - 1]);
    }
  }

  /**
   Each row of a processed batch lands in exactly one of the two lists, in batch order; the
   accepted ones get last_rev + 1, last_rev + 2, ... without a gap.
   */
  lemma {:induction false} BatchAccounting(v: Vault, rows: seq<Row>)
    ensures |Verdicts(v, rows)| == |rows|
    ensures var t := PushAll(v, rows);
            && AcceptedIds(t.accepted) == Picked(rows, Verdicts(v, rows), true)
            && RowIds(t.conflicts) == Picked(rows, Verdicts(v, rows), false)
            && |t.accepted| + |t.conflicts| == |rows|
            && t.vault.lastRev == v.lastRev + |t.accepted|
            && forall j :: 0 <= j < |t.accepted| ==> t.accepted[j].rev == v.lastRev + 1 + j
  {
    OneVerdictPerRow(v, rows);
    if rows != [] {
      var n := |rows| - 1;
      BatchAccounting(v, rows[..n]);
      assert Verdicts(v, rows)[..n] == Verdicts(v, rows[..n]);
      var t, u := PushAll(v, rows), PushAll(v, rows[..n]);
      assert t == PushOne(u, rows[n]);
      if Verdicts(v, rows)[n] {
        assert AcceptedIds(t.accepted) == AcceptedIds(u.accepted) + [rows[n].itemId];
      } else {
        assert RowIds(t.conflicts) == RowIds(u.conflicts) + [rows[n].itemId];
      }
    }
  }

  /** The stored rows after a batch: untouched, or exactly a pushed row under a revision it was told. */
  ghost predicate StoredByBatch(v: Vault, rows: seq<Row>, t: Tx, id: ItemId) {
    if id in t.vault.items && t.vault.items[id].rev > v.lastRev then
      var it := t.vault.items[id];
      && Accepted(id, it.rev) in t.accepted
      && (forall a :: a in t.accepted && a.itemId == id ==> a.rev <= it.rev)
      && exists k :: 0 <= k < |rows| && rows[k].itemId == id && rows[k].item.(rev := it.rev) == it
    else
      && Current(t.vault, id) == Current(v, id)
      && forall a :: a in t.accepted ==> a.itemId != id
  }

  lemma StoresThisRow(v: Vault, before: seq<Row>, u: Tx, row: Row)
    requires v.lastRev <= u.vault.lastRev && forall a :: a in u.accepted ==> a.rev <= u.vault.lastRev
    requires Resolve(Current(u.vault, row.itemId), row.item)
    ensures StoredByBatch(v, before + [row], PushOne(u, row), row.itemId)
  {
    var rows, t := before + [row], PushOne(u, row);
    var it := t.vault.items[row.itemId];
    assert t.accepted[|u.accepted|] == Accepted(row.itemId, it.rev);
    assert rows[|before|].item.(rev := it.rev) == it;
  }

  lemma KeepsOtherRow(v: Vault, before: seq<Row>, u: Tx, row: Row, id: ItemId)
    requires StoredByBatch(v, before, u, id)
    requires id == row.itemId ==> !Resolve(Current(u.vault, row.itemId), row.item)
    ensures StoredByBatch(v, before + [row], PushOne(u, row), id)
  {
    var rows, t := before + [row], PushOne(u, row);
    assert Current(t.vault, id) == Current(u.vault, id);
    assert forall a :: a in t.accepted && a.itemId == id ==> a in u.accepted;
    assert forall a :: a in u.accepted ==> a in t.accepted;
    if id in t.vault.items && t.vault.items[id].rev > v.lastRev {
      var it := t.vault.items[id];
      var k :| 0 <= k < |before| && before[k].itemId == id && before[k].item.(rev := it.rev) == it;
      assert rows[k] == before[k];
    }
  }

  lemma {:induction false} BatchStores(v: Vault, rows: seq<Row>, id: ItemId)
    requires RevisionDiscipline(v)
    ensures StoredByBatch(v, rows, PushAll(v, rows), id)
  {
    if rows != [] {
      var before, row := rows[..|rows| - 1], rows[|rows| - 1];
      var u := PushAll(v, before);
      BatchStores(v, before, id);
      BatchAccounting(v, before);
      assert rows == before + [row] && PushAll(v, rows) == PushOne(u, row);
      if id == row.itemId && Resolve(Current(u.vault, id), row.item) {
        StoresThisRow(v, before, u, row);
      } else {
        KeepsOtherRow(v, before, u, row, id);
      }
    }
  }

  // ---- Who confirms a blob ----

  /** A row that is accepted at its turn and refers to the blob. */
  ghost predicate Confirms(v: Vault, rows: seq<Row>, i: nat, b: BlobId)
    requires i < |rows|
  {
    OneVerdictPerRow(v, rows);
    Verdicts(v, rows)[i] && b in rows[i].item.blobRefs
  }

  /** A batch sets the flag of exactly the blobs its accepted rows refer to, and clears none. */
  lemma {:induction false} BatchConfirmsIff(v: Vault, rows: seq<Row>, b: BlobId)
    ensures PushAll(v, rows).vault.blobs.Keys == v.blobs.Keys
    ensures b in v.blobs ==>
              (PushAll(v, rows).vault.blobs[b].referenced <==>
               v.blobs[b].referenced || exists i :: 0 <= i < |rows| && Confirms(v, rows, i, b))
    ensures b in v.blobs ==> PushAll(v, rows).vault.blobs[b].(referenced := v.blobs[b].referenced) == v.blobs[b]
  {
    if rows != [] {
      var n := |rows| - 1;
      var before := rows[..n];
      BatchConfirmsIff(v, before, b);
      OneVerdictPerRow(v, before);
      OneVerdictPerRow(v, rows);
      assert Verdicts(v, rows)[..n] == Verdicts(v, before);
      assert forall i :: 0 <= i < n ==> (Confirms(v, rows, i, b) <==> Confirms(v, before, i, b));
      assert PushAll(v, rows) == PushOne(PushAll(v, before), rows[n]);
      assert Confirms(v, rows, n, b) <==> Verdicts(v, rows)[n] && b in rows[n].item.blobRefs;
    }
  }

  /** Action `k` of the run is a push with such a row. */
  ghost predicate PushConfirms(actions: seq<Action>, k: nat, b: BlobId)
    requires k < |actions|
  {
    && actions[k].Push?
    && var u := Run(EMPTY_VAULT, actions[..k]);
       var rows := AppliedRows(u, actions[k].authenticated, actions[k].req);
       exists i :: 0 <= i < |rows| && Confirms(u, rows, i, b)
  }

  /** In every run, a blob counts as referenced only because a push once stored an item that refers to it. */
  lemma {:induction false} ReferencedMeansPushed(actions: seq<Action>, b: BlobId)
    requires b in Run(EMPTY_VAULT, actions).blobs && Run(EMPTY_VAULT, actions).blobs[b].referenced
    ensures exists k :: 0 <= k < |actions| && PushConfirms(actions, k, b)
  {
    var n := |actions| - 1;
    var u, a := Run(EMPTY_VAULT, actions[..n]), actions[n];
    if b in u.blobs && u.blobs[b].referenced {
      ReferencedMeansPushed(actions[..n], b);
      var k :| 0 <= k < n && PushConfirms(actions[..n], k, b);
      assert actions[..n][..k] == actions[..k];
      assert PushConfirms(actions, k, b);
    } else if a.Push? {
      BatchConfirmsIff(u, AppliedRows(u, a.authenticated, a.req), b);
      assert PushConfirms(actions, n, b);
    }
  }

  // ---- What a conflict tells the client ----

  /**
   A row is turned away only in favour of a version that does not lose to it, or because the
   item is gone; the tables stay as they are, and a row purged since is never brought back.
   */
  lemma ConflictMeansServerWins(t: Tx, row: Row)
    requires RevisionDiscipline(t.vault)
    requires PushOne(t, row).accepted == t.accepted
    ensures var u := PushOne(t, row);
            && u.vault == t.vault
            && u.conflicts[..|t.conflicts|] == t.conflicts && |u.conflicts| == |t.conflicts| + 1
            && var told := u.conflicts[|t.conflicts|];
               && told.itemId == row.itemId
               && if row.itemId in t.vault.items then
                    told.item == t.vault.items[row.itemId] && told.item.rev != row.item.rev && !Wins(row.item, told.item)
                  else
                    row.item.rev != 0 && told.item.deleted && told.item.rev == 0 && told.item.kind == row.item.kind
  {
    assert |PushOne(t, row).accepted| == |t.accepted|;
  }
}
