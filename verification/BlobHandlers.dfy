/**
 Upload and download of one blob, when nothing falls between their steps. `BlobFiles` and
 `BlobReaders` are about what does.
 */
module BlobHandlers {
  import opened Wrappers
  import opened Octets
  import opened SyncModel
  import opened SyncRuns
  import opened BlobModel
  import opened BlobRefsText
  import opened Database
  import opened BlobStore
  import BlobRepository

  const MAX_BLOB_BYTES := 8 * 1024 * 1024

  datatype UploadReply = UploadBadRequest | TooLarge | Stored(id: BlobId, size: nat, created: bool)

  /** Turned away for no claimed id, for too many bytes, or for a claimed id that is not their digest, with nothing changed. */
  method Upload(db: Tables, store: Store, hash: Bytes -> Digest, claimedId: string, body: Bytes, now: int)
    returns (reply: UploadReply)
    requires db.Valid()
    requires store.Intact(hash)
    modifies db`blobs, store`files
    ensures db.Valid() && store.Intact(hash)
    ensures reply == TooLarge <==> claimedId != "" && |body| > 8 * 1024 * 1024
    ensures reply.Stored? <==> claimedId != "" && |body| <= 8 * 1024 * 1024 && LowerHex(hash(body)) == claimedId
    ensures !reply.Stored? ==> db.blobs == old(db.blobs) && store.files == old(store.files)
    ensures reply.Stored? ==>
              && reply == Stored(claimedId, |body|, claimedId !in old(db.blobs))
              && db.blobs == (if claimedId in old(db.blobs) then old(db.blobs)
                              else old(db.blobs)[claimedId := Blob(|body|, now, false)])
              && store.Has(claimedId)
              && store.files == if old(store.Has(claimedId)) then old(store.files)
                                else old(store.files)[Path(store.dir, claimedId) := body]
  {
    if claimedId == "" {
      return UploadBadRequest;
    }
    if |body| > MAX_BLOB_BYTES {
      return TooLarge;
    }
    var actualId := LowerHex(hash(body));
    if actualId != claimedId {
      return UploadBadRequest;
    }
    DigestNamesBlob(hash(body));
    var present := store.Exists(actualId);
    if !present {
      store.Write(actualId, body);
      forall id | IsBlobId(id) && store.Has(id)
        ensures LowerHex(hash(store.files[Path(store.dir, id)])) == id
      {
        if Path(store.dir, id) == Path(store.dir, actualId) {
          PathsDiffer(store.dir, id, actualId);
        }
      }
    }
    var created := BlobRepository.InsertIfAbsent(db, actualId, |body|, now);
    reply := Stored(actualId, |body|, created);
    StepKeepsValid(old(db.Rows()), UploadInsert(hash(body), |body|, now));
  }

  /** The first read of a download. */
  method FindBlob(db: Tables, id: BlobId) returns (reply: Option<GetReply>)
    ensures reply == if id in db.blobs then None else Some(NotFound)
  {
    var meta := BlobRepository.GetMeta(db, id);
    reply := if meta.None? then Some(NotFound) else None;
  }

  /** The second read, whatever has happened to the files since. */
  method ReadBlob(store: Store, hash: Bytes -> Digest, id: BlobId) returns (reply: GetReply)
    requires store.Intact(hash) && IsBlobId(id)
    ensures if store.Has(id) then reply.Data? && LowerHex(hash(reply.bytes)) == id else reply == FileMissing
  {
    if Path(store.dir, id) in store.files {
      reply := Data(store.files[Path(store.dir, id)]);
    } else {
      reply := FileMissing;
    }
  }

  method Get(db: Tables, store: Store, hash: Bytes -> Digest, id: BlobId) returns (reply: GetReply)
    requires db.Valid() && store.Intact(hash)
    ensures reply == NotFound <==> id !in db.blobs
    ensures reply == FileMissing <==> id in db.blobs && !store.Has(id)
    ensures reply.Data? ==> LowerHex(hash(reply.bytes)) == id
  {
    var refusal := FindBlob(db, id);
    if refusal.Some? {
      return refusal.value;
    }
    reply := ReadBlob(store, hash, id);
  }
}
