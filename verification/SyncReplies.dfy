/** What a push request is told: refusal, accepted revisions and conflicts, seen from the client. */
module SyncReplies {
  import opened Wrappers
  import opened Octets
  import opened SyncModel
  import opened SyncRuns
  import StringOrder

  // ---- The rule, in terms of what the client sent ----

  /** Based on the stored revision, or later than it in time, or as late under a greater device id. */
  ghost predicate Deserves(v: Vault, row: Row) {
    if row.itemId in v.items then
      var held := v.items[row.itemId];
      || row.item.rev == held.rev
      || row.item.updatedAt > held.updatedAt
      || (row.item.updatedAt == held.updatedAt && exists k: nat :: StringOrder.DecidedAt(held.deviceId, row.item.deviceId, k))
    else
      row.item.rev == 0
  }

  /** The tables as row `k` of a batch finds them. */
  ghost function AtTurn(v: Vault, rows: seq<Row>, k: nat): Vault
    requires k <= |rows|
  {
    PushAll(v, rows[..k]).vault
  }

  lemma {:induction false} VerdictIff(v: Vault, rows: seq<Row>, k: nat)
    requires k < |rows|
    ensures |Verdicts(v, rows)| == |rows|
    ensures Verdicts(v, rows)[k] <==> Deserves(AtTurn(v, rows, k), rows[k])
  {
    OneVerdictPerRow(v, rows);
    var n := |rows| - 1;
    OneVerdictPerRow(v, rows[..n]);
    if k < n {
      VerdictIff(v, rows[..n], k);
      assert rows[..n][..k] == rows[..k];
      assert Verdicts(v, rows)[k] == Verdicts(v, rows[..n])[k];
    } else {
      var u := AtTurn(v, rows, n);
      if rows[n].itemId in u.items {
        StringOrder.BeforeIff(u.items[rows[n].itemId].deviceId, rows[n].item.deviceId);
      }
    }
  }

  // ---- Conflicts ----

  /** What a refused row is answered with: the row the server holds, or a tombstone of revision 0. */
  function Held(v: Vault, row: Row): Row {
    if row.itemId in v.items then Row(row.itemId, v.items[row.itemId])
    else Row(row.itemId, Item(row.item.kind, 0, 0, true, "", None, None, []))
  }

  /** How many of the first `k` rows are refused: the place of the next conflict. */
  ghost function RefusedBefore(v: Vault, rows: seq<Row>, k: nat): nat
    requires k <= |rows|
  {
    OneVerdictPerRow(v, rows[..k]);
    |Picked(rows[..k], Verdicts(v, rows[..k]), false)|
  }

  ghost predicate ConflictTold(v: Vault, rows: seq<Row>, conflicts: seq<Row>, k: nat)
    requires k < |rows|
  {
    var j := RefusedBefore(v, rows, k);
    j < |conflicts| && conflicts[j] == Held(AtTurn(v, rows, k), rows[k])
  }

  lemma NewConflictTold(v: Vault, rows: seq<Row>)
    requires rows != [] && !Deserves(AtTurn(v, rows, |rows| - 1), rows[|rows| - 1])
    ensures ConflictTold(v, rows, PushAll(v, rows).conflicts, |rows| - 1)
  {
    var n := |rows| - 1;
    var u := PushAll(v, rows[..n]);
    VerdictIff(v, rows, n);
    BatchAccounting(v, rows[..n]);
    assert Verdicts(v, rows)[n] <==> Resolve(Current(u.vault, rows[n].itemId), rows[n].item);
    assert PushAll(v, rows) == PushOne(u, rows[n]);
    assert |RowIds(u.conflicts)| == RefusedBefore(v, rows, n);
  }

  lemma ConflictStaysTold(v: Vault, rows: seq<Row>, k: nat)
    requires k < |rows| - 1 && ConflictTold(v, rows[..|rows| - 1], PushAll(v, rows[..|rows| - 1]).conflicts, k)
    ensures ConflictTold(v, rows, PushAll(v, rows).conflicts, k)
  {
    var n := |rows| - 1;
    var u := PushAll(v, rows[..n]);
    assert rows[..n][..k] == rows[..k] && rows[..n][k] == rows[k];
    assert PushAll(v, rows) == PushOne(u, rows[n]);
    assert u.conflicts <= PushAll(v, rows).conflicts;
  }

  /** Each refused row is told the version that stands when its turn comes. */
  lemma {:induction false} ConflictsTell(v: Vault, rows: seq<Row>, k: nat)
    requires k < |rows| && !Deserves(AtTurn(v, rows, k), rows[k])
    ensures ConflictTold(v, rows, PushAll(v, rows).conflicts, k)
  {
    var n := |rows| - 1;
    if k < n {
      assert rows[..n][..k] == rows[..k] && rows[..n][k] == rows[k];
      ConflictsTell(v, rows[..n], k);
      ConflictStaysTold(v, rows, k);
    } else {
      NewConflictTold(v, rows);
    }
  }

  // ---- The whole reply ----

  /** Item `dto` of a request is well formed. */
  predicate WellFormed(dto: PushItem) {
    && !dto.nonce.Malformed? && !dto.ciphertext.Malformed?
    && dto.itemId != "" && dto.kind != ""
    && (dto.deleted || (dto.nonce.Present? && dto.ciphertext.Present?))
  }

  lemma DecodesWellFormed(device: DeviceId, dtos: seq<PushItem>)
    ensures Decodes(device, dtos) <==> forall i :: 0 <= i < |dtos| ==> WellFormed(dtos[i])
  {
    forall i | 0 <= i < |dtos|
      ensures DecodePushItem(device, dtos[i]).Ok? <==> WellFormed(dtos[i])
    {
    }
  }

  predicate Acceptable(authenticated: DeviceId, req: PushRequest) {
    req.deviceId == authenticated && |req.items| <= 100 && forall i :: 0 <= i < |req.items| ==> WellFormed(req.items[i])
  }

  ghost predicate NamesMissingBlob(v: Vault, req: PushRequest) {
    exists i, b :: 0 <= i < |req.items| && b in req.items[i].blobRefs && b !in v.blobs
  }

  /**
   Revisions in batch order for the rows that deserve it, for each other row, also in batch order,
   the version that stands against it, and the revision the tables end up with.
   */
  ghost predicate AccountsFor(v: Vault, rows: seq<Row>, w: Vault, serverRev: int, accepted: seq<Accepted>, conflicts: seq<Row>) {
    && serverRev == w.lastRev == v.lastRev + |accepted|
    && |accepted| + |conflicts| == |rows| == |Verdicts(v, rows)|
    && AcceptedIds(accepted) == Picked(rows, Verdicts(v, rows), true)
    && RowIds(conflicts) == Picked(rows, Verdicts(v, rows), false)
    && (forall j :: 0 <= j < |accepted| ==> accepted[j].rev == v.lastRev + 1 + j)
    && (forall k :: 0 <= k < |rows| ==> (Verdicts(v, rows)[k] <==> Deserves(AtTurn(v, rows, k), rows[k])))
    && (forall k :: 0 <= k < |rows| && !Verdicts(v, rows)[k] ==> ConflictTold(v, rows, conflicts, k))
  }

  /** The reply to a request that took the tables from `v` to `w`. */
  ghost predicate Replies(v: Vault, authenticated: DeviceId, req: PushRequest, w: Vault, reply: PushReply) {
    match reply
    case Refused(why) =>
      && w == v
      && (why.BadRequest? <==> !Acceptable(authenticated, req))
      && (why.Conflict? <==> Acceptable(authenticated, req) && NamesMissingBlob(v, req))
    case Pushed(serverRev, accepted, conflicts) =>
      && Acceptable(authenticated, req) && !NamesMissingBlob(v, req)
      && Decodes(req.deviceId, req.items)
      && AccountsFor(v, DecodeBatch(req.deviceId, req.items), w, serverRev, accepted, conflicts)
  }

  lemma BatchIsAccountedFor(v: Vault, rows: seq<Row>)
    ensures var t := PushAll(v, rows); AccountsFor(v, rows, t.vault, t.vault.lastRev, t.accepted, t.conflicts)
  {
    BatchAccounting(v, rows);
    forall k | 0 <= k < |rows|
      ensures Verdicts(v, rows)[k] <==> Deserves(AtTurn(v, rows, k), rows[k])
      ensures !Verdicts(v, rows)[k] ==> ConflictTold(v, rows, PushAll(v, rows).conflicts, k)
    {
      VerdictIff(v, rows, k);
      if !Verdicts(v, rows)[k] {
        ConflictsTell(v, rows, k);
      }
    }
  }

  lemma RefsExistIff(v: Vault, device: DeviceId, req: PushRequest)
    requires Decodes(device, req.items)
    ensures RefsExist(v, DecodeBatch(device, req.items)) <==> !NamesMissingBlob(v, req)
  {
    var rows := DecodeBatch(device, req.items);
    forall i | 0 <= i < |rows|
      ensures rows[i].item.blobRefs == req.items[i].blobRefs
    {
      assert DecodePushItem(device, req.items[i]).Ok?;
    }
    if b, i :| 0 <= i < |req.items| && b in req.items[i].blobRefs && b !in v.blobs {
      assert b in rows[i].item.blobRefs;
    }
  }

  /** Main result: every request is answered with exactly that. */
  lemma PushReplies(v: Vault, authenticated: DeviceId, req: PushRequest)
    ensures Replies(v, authenticated, req, HandlePush(v, authenticated, req).0, HandlePush(v, authenticated, req).1)
  {
    DecodesWellFormed(req.deviceId, req.items);
    if Decodes(req.deviceId, req.items) {
      RefsExistIff(v, req.deviceId, req);
      BatchIsAccountedFor(v, DecodeBatch(req.deviceId, req.items));
    }
  }
}
