/** The queries and updates of the blob endpoints and the collector on the tables. */
module BlobRepository {
  import opened Wrappers
  import opened SyncModel
  import opened SyncRuns
  import opened BlobModel
  import opened BlobRefsText
  import opened Database
  import Ascii

  method GetMeta(db: Tables, id: BlobId) returns (meta: Option<Blob>)
    ensures meta == if id in db.blobs then Some(db.blobs[id]) else None
  {
    meta := if id in db.blobs then Some(db.blobs[id]) else None;
  }

  method InsertIfAbsent(db: Tables, id: BlobId, size: nat, now: int) returns (created: bool)
    modifies db`blobs
    ensures db.Rows() == BlobModel.InsertIfAbsent(old(db.Rows()), id, size, now)
    ensures created == (id !in old(db.blobs))
  {
    created := id !in db.blobs;
    if created {
      db.blobs := db.blobs[id := Blob(size, now, false)];
    }
  }

  /** The ids with the given flag created before the cutoff, each once, in no particular order. */
  method QueryBlobs(db: Tables, referenced: bool, cutoff: int) returns (ids: seq<BlobId>)
    ensures forall b :: b in ids <==> b in db.blobs && db.blobs[b].referenced == referenced && db.blobs[b].createdAt < cutoff
    ensures forall i, j :: 0 <= i < j < |ids| ==> ids[i] != ids[j]
  {
    ids := [];
    var rest := db.blobs.Keys;
    while rest != {}
      invariant rest <= db.blobs.Keys
      invariant forall b :: b in ids <==>
                  b in db.blobs.Keys - rest && db.blobs[b].referenced == referenced && db.blobs[b].createdAt < cutoff
      invariant forall i, j :: 0 <= i < j < |ids| ==> ids[i] != ids[j]
      decreases rest
    {
      var b :| b in rest;
      rest := rest - {b};
      if db.blobs[b].referenced == referenced && db.blobs[b].createdAt < cutoff {
        ids := ids + [b];
      }
    }
  }

  method DeleteMeta(db: Tables, id: BlobId)
    modifies db`blobs
    ensures db.blobs == old(db.blobs) - {id}
  {
    db.blobs := db.blobs - {id};
  }

  method DeleteMetaIfUnreferenced(db: Tables, id: BlobId) returns (deleted: bool)
    modifies db`blobs
    ensures db.Rows() == DeleteIfUnreferenced(old(db.Rows()), id)
    ensures deleted == (id in old(db.blobs) && !old(db.blobs)[id].referenced)
  {
    deleted := id in db.blobs && !db.blobs[id].referenced;
    if deleted {
      db.blobs := db.blobs - {id};
    }
  }

  /** Counts the live items whose stored text matches the quoted id. */
  method IsBlobLive(db: Tables, id: BlobId) returns (live: bool)
    requires ItemRefsAreHex(db.items) && IsBlobId(id)
    ensures live <==> IsLive(db.items, id)
  {
    var n := 0;
    var rest := db.items.Keys;
    while rest != {}
      invariant rest <= db.items.Keys && n >= 0
      invariant n > 0 <==> exists i :: i in db.items.Keys - rest && !db.items[i].deleted && id in db.items[i].blobRefs
      decreases rest
    {
      var i :| i in rest;
      rest := rest - {i};
      LikeIsMembership(db.items[i].blobRefs, id);
      if !db.items[i].deleted && LikeQuoted(JsonText(db.items[i].blobRefs), id) {
        n := n + 1;
      }
    }
    live := n > 0;
  }

  lemma HexIsTrimmed(id: BlobId)
    requires IsBlobId(id)
    ensures Ascii.Trim(id) == id
  {
    assert IsHexDigit(id[0]) && IsHexDigit(id[63]);
  }

  /** The ids referred to by any live item. */
  method LiveBlobRefs(db: Tables) returns (live: set<BlobId>)
    requires ItemRefsAreHex(db.items)
    ensures forall b :: b in live <==> IsLive(db.items, b)
  {
    live := {};
    var rest := db.items.Keys;
    while rest != {}
      invariant rest <= db.items.Keys
      invariant forall b :: b in live <==>
                  exists i :: i in db.items.Keys - rest && !db.items[i].deleted && b in db.items[i].blobRefs
      decreases rest
    {
      var i :| i in rest;
      rest := rest - {i};
      if !db.items[i].deleted {
        var refs := db.items[i].blobRefs;
        ghost var before := live;
        for k := 0 to |refs|
          invariant live == before + set b | b in refs[..k]
        {
          HexIsTrimmed(refs[k]);
          live := live + {Ascii.Trim(refs[k])};
          assert refs[..k + 1] == refs[..k] + [refs[k]];
        }
        assert refs[..|refs|] == refs;
      }
    }
  }
}
