/** The two sync endpoints, after authentication and JSON decoding. */
module SyncHandlers {
  import opened Wrappers
  import opened SyncModel
  import opened SyncRuns
  import opened SyncReplies
  import opened Database
  import SyncRepository

  /** The first read of GET /v1/sync/changes. */
  method ReadChanges(db: Tables, since: int, requestedLimit: Option<int>) returns (rows: seq<Row>)
    requires db.Valid()
    ensures IsChanges(db.items, since, EffectiveLimit(requestedLimit), rows)
    ensures requestedLimit.None? ==> IsChanges(db.items, since, 200, rows)
    ensures requestedLimit.Some? && 1 <= requestedLimit.value <= 500 ==> IsChanges(db.items, since, requestedLimit.value, rows)
    ensures requestedLimit.Some? && !(1 <= requestedLimit.value <= 500) ==> IsChanges(db.items, since, 500, rows)
  {
    var limit := if requestedLimit.None? then DEFAULT_CHANGES_LIMIT else requestedLimit.value;
    if limit <= 0 || limit > MAX_CHANGES_LIMIT {
      limit := MAX_CHANGES_LIMIT;
    }
    rows := SyncRepository.ListChanges(db, since, limit);
  }

  /** The second read, whatever has happened to the tables since, and the reply. */
  method CompletePage(db: Tables, since: int, rows: seq<Row>) returns (page: Page)
    ensures page == MakePage(since, rows, db.lastRev)
    ensures page.rows == rows && page.serverRev == db.lastRev && (page.hasMore <==> page.nextSince < db.lastRev)
    ensures page.nextSince == if rows == [] then since else rows[|rows| - 1].item.rev
  {
    var serverRev := SyncRepository.GetVaultRev(db);
    var nextSince := since;
    if |rows| > 0 {
      nextSince := rows[|rows| - 1].item.rev;
    }
    page := Page(serverRev, nextSince, nextSince < serverRev, rows);
  }

  /** The two reads with nothing between them; `Paging` lets other steps in. */
  method GetChanges(db: Tables, since: int, requestedLimit: Option<int>) returns (page: Page)
    requires db.Valid()
    ensures IsChanges(db.items, since, EffectiveLimit(requestedLimit), page.rows)
    ensures page == MakePage(since, page.rows, db.lastRev)
  {
    var rows := ReadChanges(db, since, requestedLimit);
    page := CompletePage(db, since, rows);
  }

  /** The batch as rows, with every blob id any of them refers to. */
  method DecodeItems(device: DeviceId, dtos: seq<PushItem>) returns (r: Result<(seq<Row>, set<BlobId>), Refusal>)
    ensures r.Ok? <==> Decodes(device, dtos)
    ensures r.Ok? ==>
              && r.value.0 == DecodeBatch(device, dtos)
              && forall b :: b in r.value.1 <==> exists k :: 0 <= k < |dtos| && b in r.value.0[k].item.blobRefs
    ensures r.Err? ==> r.error == BadRequest
  {
    var decoded: seq<Row> := [];
    var allBlobRefs: set<BlobId> := {};
    for i := 0 to |dtos|
      invariant |decoded| == i
      invariant forall k :: 0 <= k < i ==> DecodePushItem(device, dtos[k]) == Ok(decoded[k])
      invariant forall b :: b in allBlobRefs <==> exists k :: 0 <= k < i && b in decoded[k].item.blobRefs
    {
      var it := DecodePushItem(device, dtos[i]);
      if it.Err? {
        return Err(it.error);
      }
      decoded := decoded + [it.value];
      allBlobRefs := allBlobRefs + set b | b in it.value.item.blobRefs;
    }
    r := Ok((decoded, allBlobRefs));
  }

  /** Resolves, numbers and stores the rows one after the other. */
  method PushRows(db: Tables, decoded: seq<Row>) returns (accepted: seq<Accepted>, conflicts: seq<Row>)
    modifies db
    ensures Tx(db.Rows(), accepted, conflicts) == PushAll(old(db.Rows()), decoded)
  {
    accepted := [];
    conflicts := [];
    for i := 0 to |decoded|
      invariant Tx(db.Rows(), accepted, conflicts) == PushAll(old(db.Rows()), decoded[..i])
    {
      assert decoded[..i + 1][..i] == decoded[..i];
      var incoming := decoded[i];
      var current := SyncRepository.GetItem(db, incoming.itemId);
      if !Resolve(current, incoming.item) {
        if current.Some? {
          conflicts := conflicts + [Row(incoming.itemId, current.value)];
        } else {
          conflicts := conflicts + [Gone(incoming.itemId, incoming.item.kind)];
        }
      } else {
        var newRev := SyncRepository.IncrementVaultRev(db);
        var toStore := incoming.(item := incoming.item.(rev := newRev));
        SyncRepository.UpsertItem(db, toStore);
        SyncRepository.MarkBlobsReferenced(db, toStore.item.blobRefs);
        accepted := accepted + [Accepted(toStore.itemId, newRev)];
      }
    }
    assert decoded[..|decoded|] == decoded;
  }

  /** POST /v1/sync/push. Everything after decoding is one transaction. */
  method Push(db: Tables, authenticated: DeviceId, req: PushRequest) returns (reply: PushReply)
    requires db.Valid()
    modifies db
    ensures db.Valid()
    ensures (db.Rows(), reply) == HandlePush(old(db.Rows()), authenticated, req)
    ensures Replies(old(db.Rows()), authenticated, req, db.Rows(), reply)
  {
    PushReplies(db.Rows(), authenticated, req);
    if req.deviceId != authenticated {
      return Refused(BadRequest);
    }
    if |req.items| > MAX_PUSH_BATCH {
      return Refused(BadRequest);
    }
    var batch := DecodeItems(req.deviceId, req.items);
    if batch.Err? {
      return Refused(batch.error);
    }
    var (decoded, allBlobRefs) := batch.value;
    var missing := SyncRepository.MissingBlobRefs(db, allBlobRefs);
    if missing != {} {
      var b :| b in missing;
      return Refused(Conflict);
    }
    assert RefsExist(db.Rows(), decoded);
    StepKeepsValid(db.Rows(), SyncRuns.Push(authenticated, req));
    var accepted, conflicts := PushRows(db, decoded);
    var serverRev := SyncRepository.GetVaultRev(db);
    reply := Pushed(serverRev, accepted, conflicts);
  }
}
