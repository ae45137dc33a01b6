/** One pass of the blob collector that nothing interrupts: exactly what it removes. */
module BlobGc {
  import opened Octets
  import opened SyncModel
  import opened SyncRuns
  import opened BlobModel
  import opened BlobRefsText
  import opened Database
  import opened BlobStore
  import BlobRepository

  /** Uploaded more than a day ago and never confirmed by a push. */
  ghost function Unconfirmed(v: Vault, now: int): set<BlobId> {
    set b | b in v.blobs && !v.blobs[b].referenced && v.blobs[b].createdAt < now - UNREFERENCED_GRACE_SECONDS
  }

  /** Once confirmed, created more than a week ago, and in no live item. */
  ghost function Orphaned(v: Vault, now: int): set<BlobId> {
    set b | b in v.blobs && v.blobs[b].referenced && v.blobs[b].createdAt < now - ORPHAN_GRACE_SECONDS && !IsLive(v.items, b)
  }

  ghost function Collected(v: Vault, now: int): Vault {
    v.(blobs := v.blobs - (Unconfirmed(v, now) + Orphaned(v, now)))
  }

  ghost function AsSet(ids: seq<BlobId>): set<BlobId> {
    set b | b in ids
  }

  ghost predicate Distinct(ids: seq<BlobId>) {
    forall i, j :: 0 <= i < j < |ids| ==> ids[i] != ids[j]
  }

  /** Dropping one more blob from the table and one more file from the store. */
  lemma OneMore(blobs: map<BlobId, Blob>, files: map<string, Bytes>, dir: string, gone: set<BlobId>, id: BlobId)
    ensures (blobs - gone) - {id} == blobs - (gone + {id})
    ensures (files - Paths(dir, gone)) - {Path(dir, id)} == files - Paths(dir, gone + {id})
  {
    assert Paths(dir, gone + {id}) == Paths(dir, gone) + {Path(dir, id)};
  }

  lemma NextCandidate(ids: seq<BlobId>, i: nat)
    requires i < |ids| && Distinct(ids)
    ensures ids[i] !in AsSet(ids[..i])
    ensures AsSet(ids[..i + 1]) == AsSet(ids[..i]) + {ids[i]}
  {
    assert ids[..i + 1] == ids[..i] + [ids[i]];
  }

  /** The delete transaction of one candidate of the first pass, then its file. */
  method RemoveIfUnreferenced(db: Tables, store: Store, id: BlobId) returns (deleted: bool)
    modifies db`blobs, store`files
    ensures deleted == (id in old(db.blobs) && !old(db.blobs)[id].referenced)
    ensures db.blobs == if deleted then old(db.blobs) - {id} else old(db.blobs)
    ensures store.files == if deleted then old(store.files) - {Path(store.dir, id)} else old(store.files)
  {
    deleted := BlobRepository.DeleteMetaIfUnreferenced(db, id);
    if deleted {
      store.Delete(id);
    }
  }

  method CollectUnreferenced(db: Tables, store: Store, now: int) returns (removed: nat)
    modifies db`blobs, store`files
    ensures db.blobs == old(db.blobs) - Unconfirmed(old(db.Rows()), now)
    ensures store.files == old(store.files) - Paths(store.dir, Unconfirmed(old(db.Rows()), now))
    ensures removed == |Unconfirmed(old(db.Rows()), now)|
  {
    var candidates := BlobRepository.QueryBlobs(db, false, now - UNREFERENCED_GRACE_SECONDS);
    assert AsSet(candidates) == Unconfirmed(db.Rows(), now);
    removed := RemoveAllUnreferenced(db, store, candidates);
  }

  method RemoveAllUnreferenced(db: Tables, store: Store, candidates: seq<BlobId>) returns (removed: nat)
    requires Distinct(candidates)
    requires forall b :: b in candidates ==> b in db.blobs && !db.blobs[b].referenced
    modifies db`blobs, store`files
    ensures db.blobs == old(db.blobs) - AsSet(candidates)
    ensures store.files == old(store.files) - Paths(store.dir, AsSet(candidates))
    ensures removed == |AsSet(candidates)|
  {
    removed := 0;
    ghost var gone: set<BlobId> := {};
    for i := 0 to |candidates|
      invariant gone == AsSet(candidates[..i])
      invariant db.blobs == old(db.blobs) - gone
      invariant store.files == old(store.files) - Paths(store.dir, gone)
      invariant removed == |gone|
    {
      NextCandidate(candidates, i);
      OneMore(old(db.blobs), old(store.files), store.dir, gone, candidates[i]);
      var deleted := RemoveIfUnreferenced(db, store, candidates[i]);
      if deleted {
        removed := removed + 1;
      }
      gone := gone + {candidates[i]};
    }
    assert candidates[..|candidates|] == candidates;
  }

  /** One candidate of the second pass: skipped if listed live, else re-checked and deleted in a transaction, then its file. */
  method RemoveIfOrphan(db: Tables, store: Store, live: set<BlobId>, id: BlobId) returns (deleted: bool)
    requires ItemRefsAreHex(db.items) && IsBlobId(id)
    modifies db`blobs, store`files
    ensures deleted == (id !in live && !IsLive(db.items, id))
    ensures db.blobs == if deleted then old(db.blobs) - {id} else old(db.blobs)
    ensures store.files == if deleted then old(store.files) - {Path(store.dir, id)} else old(store.files)
  {
    if id in live {
      return false;
    }
    var stillLive := BlobRepository.IsBlobLive(db, id);
    if stillLive {
      return false;
    }
    BlobRepository.DeleteMeta(db, id);
    store.Delete(id);
    deleted := true;
  }

  method CollectOrphaned(db: Tables, store: Store, now: int) returns (removed: nat)
    requires BlobIdsAreHex(db.Rows())
    modifies db`blobs, store`files
    ensures db.blobs == old(db.blobs) - Orphaned(old(db.Rows()), now)
    ensures store.files == old(store.files) - Paths(store.dir, Orphaned(old(db.Rows()), now))
    ensures removed == |Orphaned(old(db.Rows()), now)|
  {
    var candidates := BlobRepository.QueryBlobs(db, true, now - ORPHAN_GRACE_SECONDS);
    var live := BlobRepository.LiveBlobRefs(db);
    removed := RemoveAllOrphans(db, store, candidates, live, Orphaned(db.Rows(), now));
  }

  lemma DoomedGrows(doomed: set<BlobId>, candidates: seq<BlobId>, i: nat)
    requires i < |candidates| && Distinct(candidates)
    ensures var id, before := candidates[i], doomed * AsSet(candidates[..i]);
            && id !in before
            && doomed * AsSet(candidates[..i + 1]) == if id in doomed then before + {id} else before
  {
    NextCandidate(candidates, i);
  }

  /** `doomed` are the candidates that no live item refers to. */
  method RemoveAllOrphans(db: Tables, store: Store, candidates: seq<BlobId>, live: set<BlobId>, ghost doomed: set<BlobId>)
    returns (removed: nat)
    requires ItemRefsAreHex(db.items) && Distinct(candidates)
    requires forall b :: b in candidates ==> IsBlobId(b)
    requires doomed <= AsSet(candidates)
    requires forall b :: b in candidates ==> (b in doomed <==> b !in live && !IsLive(db.items, b))
    modifies db`blobs, store`files
    ensures db.blobs == old(db.blobs) - doomed
    ensures store.files == old(store.files) - Paths(store.dir, doomed)
    ensures removed == |doomed|
  {
    ghost var blobs, files := db.blobs, store.files;
    removed := 0;
    ghost var gone: set<BlobId> := {};
    for i := 0 to |candidates|
      invariant gone == doomed * AsSet(candidates[..i])
      invariant db.blobs == blobs - gone
      invariant store.files == files - Paths(store.dir, gone)
      invariant removed == |gone|
    {
      var id := candidates[i];
      DoomedGrows(doomed, candidates, i);
      var deleted := RemoveIfOrphan(db, store, live, id);
      if deleted {
        OneMore(blobs, files, store.dir, gone, id);
        removed := removed + 1;
        gone := gone + {id};
      }
    }
    assert candidates[..|candidates|] == candidates;
    assert gone == doomed;
  }

  method RunGC(db: Tables, store: Store, now: int) returns (unreferencedRemoved: nat, orphanedRemoved: nat)
    requires db.Valid()
    modifies db`blobs, store`files
    ensures db.Valid()
    ensures db.Rows() == Collected(old(db.Rows()), now)
    ensures store.files == old(store.files) - Paths(store.dir, old(db.blobs).Keys - db.blobs.Keys)
    ensures unreferencedRemoved == |Unconfirmed(old(db.Rows()), now)|
    ensures orphanedRemoved == |Orphaned(old(db.Rows()), now)|
    ensures unreferencedRemoved + orphanedRemoved == |old(db.blobs)| - |db.blobs|
  {
    PassesAreIndependent(db.Rows(), now);
    CountsAddUp(db.Rows(), now);
    CollectedKeepsValid(db.Rows(), now);
    PathsOfUnion(store.files, store.dir, Unconfirmed(db.Rows(), now), Orphaned(db.Rows(), now));
    ghost var files, v := store.files, db.Rows();
    unreferencedRemoved := CollectUnreferenced(db, store, now);
    assert db.Rows() == v.(blobs := v.blobs - Unconfirmed(v, now));
    orphanedRemoved := CollectOrphaned(db, store, now);
  }

  lemma CollectedKeepsValid(v: Vault, now: int)
    requires Valid(v)
    ensures Valid(Collected(v, now))
    ensures BlobIdsAreHex(v.(blobs := v.blobs - Unconfirmed(v, now)))
  {
  }

  lemma PathsOfUnion(files: map<string, Bytes>, dir: string, a: set<BlobId>, b: set<BlobId>)
    ensures (files - Paths(dir, a)) - Paths(dir, b) == files - Paths(dir, a + b)
  {
    assert Paths(dir, a + b) == Paths(dir, a) + Paths(dir, b);
  }

  /** The first pass takes none of what the second looks at. */
  lemma PassesAreIndependent(v: Vault, now: int)
    ensures Unconfirmed(v, now) !! Orphaned(v, now)
    ensures Orphaned(v.(blobs := v.blobs - Unconfirmed(v, now)), now) == Orphaned(v, now)
    ensures (v.blobs - Unconfirmed(v, now)) - Orphaned(v, now) == Collected(v, now).blobs
  {
  }

  /** What is removed and what stays partition the table. */
  lemma CountsAddUp(v: Vault, now: int)
    ensures v.blobs.Keys - Collected(v, now).blobs.Keys == Unconfirmed(v, now) + Orphaned(v, now)
    ensures |Unconfirmed(v, now)| + |Orphaned(v, now)| == |v.blobs| - |Collected(v, now).blobs|
  {
    var gone := Unconfirmed(v, now) + Orphaned(v, now);
    assert v.blobs.Keys == Collected(v, now).blobs.Keys + gone;
    assert |v.blobs| == |v.blobs.Keys| && |Collected(v, now).blobs| == |Collected(v, now).blobs.Keys|;
  }

  /** A second pass at the same time finds nothing, and no pass ever takes a blob of a live item. */
  lemma CollectingTwice(v: Vault, now: int)
    requires Valid(v)
    ensures Unconfirmed(Collected(v, now), now) == {} && Orphaned(Collected(v, now), now) == {}
    ensures Collected(Collected(v, now), now) == Collected(v, now)
    ensures forall b :: IsLive(v.items, b) ==> b in Collected(v, now).blobs
  {
    var w := Collected(v, now);
    assert w.blobs - ({} + {}) == w.blobs;
  }

  /** The files of the blobs that stay are the files they had. */
  lemma SurvivorsKeepFiles(v: Vault, now: int, dir: string, id: BlobId)
    requires Valid(v) && id in Collected(v, now).blobs
    ensures Path(dir, id) !in Paths(dir, v.blobs.Keys - Collected(v, now).blobs.Keys)
  {
    forall b | b in v.blobs.Keys - Collected(v, now).blobs.Keys
      ensures Path(dir, b) != Path(dir, id)
    {
      if Path(dir, b) == Path(dir, id) {
        PathsDiffer(dir, b, id);
      }
    }
  }

  // ---- What the grace periods are counted from ----

  /** A blob nobody has uploaded before is safe for a day, and no longer unless a push refers to it. */
  lemma UploadIsSafeForADayIff(v: Vault, id: BlobId, size: nat, at: int, now: int)
    requires id !in v.blobs
    ensures id in Collected(InsertIfAbsent(v, id, size, at), now).blobs <==> now <= at + 24 * 60 * 60
  {
  }

  lemma {:induction false} BatchKeepsDates(t: Tx, rows: seq<Row>, id: BlobId)
    requires id in t.vault.blobs
    ensures id in PushFrom(t, rows).vault.blobs
    ensures PushFrom(t, rows).vault.blobs[id].createdAt == t.vault.blobs[id].createdAt
  {
    if rows != [] {
      BatchKeepsDates(t, rows[..|rows| - 1], id);
    }
  }

  lemma StepKeepsDates(v: Vault, a: Action, id: BlobId)
    requires id in v.blobs && id in Step(v, a).blobs
    ensures Step(v, a).blobs[id].createdAt == v.blobs[id].createdAt
  {
    if a.Push? {
      BatchKeepsDates(Tx(v, [], []), AppliedRows(v, a.authenticated, a.req), id);
    }
  }

  lemma {:induction false} RunKeepsDates(v: Vault, actions: seq<Action>, id: BlobId)
    requires forall k :: 0 <= k <= |actions| ==> id in Run(v, actions[..k]).blobs
    ensures id in v.blobs && id in Run(v, actions).blobs
    ensures Run(v, actions).blobs[id].createdAt == v.blobs[id].createdAt
  {
    assert actions[..0] == [] && actions[..|actions|] == actions;
    if actions != [] {
      var n := |actions| - 1;
      assert forall k :: 0 <= k <= n ==> actions[..n][..k] == actions[..k];
      RunKeepsDates(v, actions[..n], id);
      StepKeepsDates(Run(v, actions[..n]), actions[n], id);
    }
  }

  /**
   Nothing renews a grace period: as long as a blob has its row, whatever is uploaded again, pushed
   or cleaned up, a collection keeps it exactly up to a day after its first upload, once confirmed a
   week, and beyond that exactly while a live item refers to it.
   */
  lemma GraceCountsFromFirstUpload(v: Vault, actions: seq<Action>, id: BlobId, now: int)
    requires forall k :: 0 <= k <= |actions| ==> id in Run(v, actions[..k]).blobs
    ensures id in v.blobs && id in Run(v, actions).blobs
    ensures var w, created := Run(v, actions), v.blobs[id].createdAt;
            id in Collected(w, now).blobs <==>
              if w.blobs[id].referenced then now <= created + 7 * 24 * 60 * 60 || IsLive(w.items, id)
              else now <= created + 24 * 60 * 60
  {
    RunKeepsDates(v, actions, id);
  }

  // ---- The grace period after the last reference is dropped ----

  /** A push of `row` that is accepted takes `id` out of the only live item that refers to it. */
  ghost predicate Drops(v: Vault, row: Row, id: BlobId) {
    && row.itemId in v.items && !v.items[row.itemId].deleted && id in v.items[row.itemId].blobRefs
    && (forall i :: i in v.items && i != row.itemId && !v.items[i].deleted ==> id !in v.items[i].blobRefs)
    && (row.item.deleted || id !in row.item.blobRefs)
    && Resolve(Current(v, row.itemId), row.item)
  }

  ghost function Dropped(v: Vault, row: Row): Vault {
    PushOne(Tx(v, [], []), row).vault
  }

  /** After the drop the blob is kept up to a week after its upload, not after the drop. */
  lemma DroppedBlobIsKeptIff(v: Vault, row: Row, id: BlobId, now: int)
    requires Valid(v) && Drops(v, row, id)
    ensures id in Collected(v, now).blobs
    ensures id in Collected(Dropped(v, row), now).blobs <==> now <= v.blobs[id].createdAt + 7 * 24 * 60 * 60
  {
    assert IsLive(v.items, id);
    assert !IsLive(Dropped(v, row).items, id);
  }

  /** Hence a week from the drop at `t`, as documented, is granted exactly when the blob is no older than the drop. */
  lemma WeekFromDropIff(v: Vault, row: Row, id: BlobId, t: int)
    requires Valid(v) && Drops(v, row, id)
    ensures id in v.blobs
    ensures (forall now :: t <= now <= t + 7 * 24 * 60 * 60 ==> id in Collected(Dropped(v, row), now).blobs) <==>
            t <= v.blobs[id].createdAt
  {
    forall now
      ensures id in Collected(Dropped(v, row), now).blobs <==> now <= v.blobs[id].createdAt + 7 * 24 * 60 * 60
    {
      DroppedBlobIsKeptIff(v, row, id, now);
    }
    if t > v.blobs[id].createdAt {
      assert id !in Collected(Dropped(v, row), t + 7 * 24 * 60 * 60).blobs;
    }
  }
}
