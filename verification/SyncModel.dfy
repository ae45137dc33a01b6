/**
 Rows of one vault and the meaning of the two sync endpoints over them: the last-writer-wins
 rule, a push batch as one transaction, and a page of changes.

 Every function is pure; `SyncRepository` and `SyncHandlers` update the tables in place and are
 proved against these definitions.
 */
module SyncModel {
  import opened Wrappers
  import opened Octets
  import StringOrder

  type ItemId = string
  type DeviceId = string
  type BlobId = string

  const MAX_PUSH_BATCH := 100
  const DEFAULT_CHANGES_LIMIT := 200
  const MAX_CHANGES_LIMIT := 500

  /** One row of `items` without its key. In a pushed item `rev` carries the client's base revision. */
  datatype Item = Item(
    kind: string,
    rev: int,
    updatedAt: int,
    deleted: bool,
    deviceId: DeviceId,
    nonce: Option<Bytes>,
    ciphertext: Option<Bytes>,
    blobRefs: seq<BlobId>)

  /** An item with its key: what a push carries in, and what the server sends back. */
  datatype Row = Row(itemId: ItemId, item: Item)

  /** One row of `blobs` without its key. */
  datatype Blob = Blob(size: nat, createdAt: int, referenced: bool)

  /** The tables of one vault: `last_rev`, `items` and `blobs`. */
  datatype Vault = Vault(lastRev: int, items: map<ItemId, Item>, blobs: map<BlobId, Blob>)

  const EMPTY_VAULT := Vault(0, map[], map[])

  /** An optional base64 field on the wire: absent, not base64, or the bytes it decodes to. */
  datatype WireField = Absent | Malformed | Present(bytes: Bytes)

  datatype PushItem = PushItem(
    itemId: ItemId,
    kind: string,
    baseRev: int,
    updatedAt: int,
    deleted: bool,
    nonce: WireField,
    ciphertext: WireField,
    blobRefs: seq<BlobId>)

  datatype PushRequest = PushRequest(deviceId: DeviceId, items: seq<PushItem>)

  datatype Refusal = BadRequest | Conflict

  datatype Accepted = Accepted(itemId: ItemId, rev: int)

  datatype PushReply =
    | Refused(why: Refusal)
    | Pushed(serverRev: int, accepted: seq<Accepted>, conflicts: seq<Row>)

  /** The state a push transaction carries from one item of the batch to the next. */
  datatype Tx = Tx(vault: Vault, accepted: seq<Accepted>, conflicts: seq<Row>)

  /** A reply of the changes endpoint. */
  datatype Page = Page(serverRev: int, nextSince: int, hasMore: bool, rows: seq<Row>)

  // ---- Conflict rule ----

  /** (updatedAt, deviceId) of `a` sorts strictly after that of `b`. */
  predicate Wins(a: Item, b: Item) {
    if a.updatedAt != b.updatedAt then a.updatedAt > b.updatedAt
    else StringOrder.Before(b.deviceId, a.deviceId)
  }

  predicate Resolve(current: Option<Item>, incoming: Item) {
    match current
    case None => incoming.rev == 0
    case Some(cur) => cur.rev == incoming.rev || Wins(incoming, cur)
  }

  // ---- Decoding a batch ----

  function DecodeOptionalBinary(field: WireField): Result<Option<Bytes>, Refusal> {
    match field
    case Absent => Ok(None)
    case Malformed => Err(BadRequest)
    case Present(bytes) => Ok(Some(bytes))
  }

  function DecodePushItem(device: DeviceId, dto: PushItem): Result<Row, Refusal> {
    var nonce := DecodeOptionalBinary(dto.nonce);
    var ciphertext := DecodeOptionalBinary(dto.ciphertext);
    if nonce.Err? then Err(nonce.error)
    else if ciphertext.Err? then Err(ciphertext.error)
    else if dto.itemId == "" || dto.kind == "" then Err(BadRequest)
    else if !dto.deleted && (nonce.value.None? || ciphertext.value.None?) then Err(BadRequest)
    else
      Ok(Row(dto.itemId, Item(dto.kind, dto.baseRev, dto.updatedAt, dto.deleted, device,
                              nonce.value, ciphertext.value, dto.blobRefs)))
  }

  predicate Decodes(device: DeviceId, dtos: seq<PushItem>) {
    forall i :: 0 <= i < |dtos| ==> DecodePushItem(device, dtos[i]).Ok?
  }

  function DecodeBatch(device: DeviceId, dtos: seq<PushItem>): (rows: seq<Row>)
    requires Decodes(device, dtos)
    ensures |rows| == |dtos|
  {
    seq(|dtos|, i requires 0 <= i < |dtos| => DecodePushItem(device, dtos[i]).value)
  }

  // ---- One push transaction ----

  function Current(v: Vault, id: ItemId): Option<Item> {
    if id in v.items then Some(v.items[id]) else None
  }

  function MarkReferenced(blobs: map<BlobId, Blob>, refs: seq<BlobId>): map<BlobId, Blob> {
    map b | b in blobs :: if b in refs then blobs[b].(referenced := true) else blobs[b]
  }

  /** The tables after `row` is stored under the next revision. */
  function Store(v: Vault, row: Row): Vault {
    var rev := v.lastRev + 1;
    Vault(rev, v.items[row.itemId := row.item.(rev := rev)], MarkReferenced(v.blobs, row.item.blobRefs))
  }

  /** What a client is told about an item the server holds no row for: a tombstone at revision 0. */
  function Gone(id: ItemId, kind: string): Row {
    Row(id, Item(kind, 0, 0, true, "", None, None, []))
  }

  function ServerVersion(v: Vault, row: Row): Row {
    match Current(v, row.itemId)
    case Some(cur) => Row(row.itemId, cur)
    case None => Gone(row.itemId, row.item.kind)
  }

  function PushOne(t: Tx, row: Row): Tx {
    if Resolve(Current(t.vault, row.itemId), row.item) then
      var v := Store(t.vault, row);
      Tx(v, t.accepted + [Accepted(row.itemId, v.lastRev)], t.conflicts)
    else
      Tx(t.vault, t.accepted, t.conflicts + [ServerVersion(t.vault, row)])
  }

  function PushFrom(t: Tx, rows: seq<Row>): Tx {
    if rows == [] then t
    else PushOne(PushFrom(t, rows[..|rows| - 1]), rows[|rows| - 1])
  }

  function PushAll(v: Vault, rows: seq<Row>): Tx {
    PushFrom(Tx(v, [], []), rows)
  }

  predicate RefsExist(v: Vault, rows: seq<Row>) {
    forall i, b :: 0 <= i < |rows| && b in rows[i].item.blobRefs ==> b in v.blobs
  }

  /** Why the server would turn the request away, if it would. */
  function PushRefusal(v: Vault, authenticated: DeviceId, req: PushRequest): Option<Refusal> {
    if req.deviceId != authenticated then Some(BadRequest)
    else if |req.items| > MAX_PUSH_BATCH then Some(BadRequest)
    else if !Decodes(req.deviceId, req.items) then Some(BadRequest)
    else if !RefsExist(v, DecodeBatch(req.deviceId, req.items)) then Some(Conflict)
    else None
  }

  /** The rows a request gets processed: its whole batch, or nothing. */
  function AppliedRows(v: Vault, authenticated: DeviceId, req: PushRequest): seq<Row> {
    if PushRefusal(v, authenticated, req).Some? then [] else DecodeBatch(req.deviceId, req.items)
  }

  function HandlePush(v: Vault, authenticated: DeviceId, req: PushRequest): (Vault, PushReply) {
    match PushRefusal(v, authenticated, req)
    case Some(why) => (v, Refused(why))
    case None =>
      var t := PushAll(v, DecodeBatch(req.deviceId, req.items));
      (t.vault, Pushed(t.vault.lastRev, t.accepted, t.conflicts))
  }

  // ---- One page of changes ----

  function EffectiveLimit(requested: Option<int>): (limit: int)
    ensures 1 <= limit <= MAX_CHANGES_LIMIT
  {
    var limit := if requested.None? then DEFAULT_CHANGES_LIMIT else requested.value;
    if limit <= 0 || limit > MAX_CHANGES_LIMIT then MAX_CHANGES_LIMIT else limit
  }

  ghost predicate Ascending(rows: seq<Row>) {
    forall i, j :: 0 <= i < j < |rows| ==> rows[i].item.rev < rows[j].item.rev
  }

  ghost predicate Listed(rows: seq<Row>, id: ItemId) {
    exists i :: 0 <= i < |rows| && rows[i].itemId == id
  }

  /** `rows` is the answer to: items with rev > since, by ascending rev, at most `limit` of them. */
  ghost predicate IsChanges(items: map<ItemId, Item>, since: int, limit: int, rows: seq<Row>) {
    && |rows| <= limit
    && Ascending(rows)
    && (forall i :: 0 <= i < |rows| ==>
          && rows[i].itemId in items
          && items[rows[i].itemId] == rows[i].item
          && rows[i].item.rev > since)
    && (forall id :: id in items && items[id].rev > since && !Listed(rows, id) ==>
          |rows| == limit && forall i :: 0 <= i < |rows| ==> rows[i].item.rev < items[id].rev)
  }

  function NextSince(since: int, rows: seq<Row>): int {
    if rows == [] then since else rows[|rows| - 1].item.rev
  }

  function MakePage(since: int, rows: seq<Row>, serverRev: int): Page {
    var next := NextSince(since, rows);
    Page(serverRev, next, next < serverRev, rows)
  }

  // ---- Tombstone cleanup ----

  predicate Purgeable(it: Item, cutoff: int) {
    it.deleted && it.updatedAt < cutoff
  }

  function Purge(v: Vault, cutoff: int): Vault {
    v.(items := map id | id in v.items && !Purgeable(v.items[id], cutoff) :: v.items[id])
  }
}
