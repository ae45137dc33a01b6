/** The transactions on the `blobs` table, and the two ways the server asks whether a blob is still used. */
module BlobModel {
  import opened Octets
  import opened SyncModel
  import opened BlobRefsText

  datatype GetReply = NotFound | FileMissing | Data(bytes: Bytes)

  const UNREFERENCED_GRACE_SECONDS := 24 * 60 * 60
  const ORPHAN_GRACE_SECONDS := 7 * 24 * 60 * 60

  /** INSERT OR IGNORE of an uploaded blob's row. */
  function InsertIfAbsent(v: Vault, id: BlobId, size: nat, now: int): Vault {
    if id in v.blobs then v else v.(blobs := v.blobs[id := Blob(size, now, false)])
  }

  /** The delete transaction of the first collection pass: re-checks the flag, then deletes. */
  function DeleteIfUnreferenced(v: Vault, id: BlobId): Vault {
    if id in v.blobs && !v.blobs[id].referenced then v.(blobs := v.blobs - {id}) else v
  }

  /** What `IsBlobLive` asks: does the stored text of a live item match the pattern for `id`? */
  ghost predicate IsLiveByText(items: map<ItemId, Item>, id: BlobId) {
    exists i :: i in items && !items[i].deleted && LikeQuoted(JsonText(items[i].blobRefs), id)
  }

  /** What it is for: does a live item refer to `id`? */
  ghost predicate IsLive(items: map<ItemId, Item>, id: BlobId) {
    exists i :: i in items && !items[i].deleted && id in items[i].blobRefs
  }

  /** The delete transaction of the second pass: re-checks liveness by text, then deletes. */
  ghost function DeleteIfOrphan(v: Vault, id: BlobId): Vault {
    if IsLiveByText(v.items, id) then v else v.(blobs := v.blobs - {id})
  }

  ghost predicate ItemRefsAreHex(items: map<ItemId, Item>) {
    forall i :: i in items ==> AllBlobIds(items[i].blobRefs)
  }

  /** Every id in the tables is a hex digest, so the stored text is what `BlobRefsText` says it is. */
  ghost predicate BlobIdsAreHex(v: Vault) {
    && (forall b :: b in v.blobs ==> IsBlobId(b))
    && ItemRefsAreHex(v.items)
  }

  lemma TextLivenessIsLiveness(items: map<ItemId, Item>, id: BlobId)
    requires ItemRefsAreHex(items) && IsBlobId(id)
    ensures IsLiveByText(items, id) <==> IsLive(items, id)
  {
    forall i | i in items
      ensures LikeQuoted(JsonText(items[i].blobRefs), id) <==> id in items[i].blobRefs
    {
      LikeIsMembership(items[i].blobRefs, id);
    }
  }
}
