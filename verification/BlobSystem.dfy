/**
 The tables of `SyncRuns` and the files of `BlobFiles` as one machine: what a live item refers to
 can be read from disk.

 Each step of the whole is at most one step of either part, so its runs project onto runs of both.
 */
module BlobSystem {
  import opened Wrappers
  import opened Octets
  import opened SyncModel
  import opened BlobModel
  import opened BlobRefsText
  import SyncRuns
  import BlobFiles

  datatype State = State(vault: Vault, disk: BlobFiles.State)

  const START := State(EMPTY_VAULT, BlobFiles.START)

  /**
   `InsertRow`, `CollectUnreferenced` and `CollectOrphan` are the transactions on both; `OnTables`
   and `OnDisk` stand for the other steps of either part.
   */
  datatype Action =
    | OnTables(action: SyncRuns.Action)
    | OnDisk(step: BlobFiles.Action)
    | InsertRow(upload: nat, now: int)
    | CollectUnreferenced(id: BlobId)
    | CollectOrphan(id: BlobId)

  function VaultStep(s: State, a: Action, hash: Bytes -> Digest): Option<SyncRuns.Action> {
    match a
    case OnTables(action) => if action.Push? || action.PurgeTombstones? then Some(action) else None
    case OnDisk(_) => None
    case InsertRow(u, now) =>
      if u in s.disk.uploads && s.disk.uploads[u].ready then
        var body := s.disk.uploads[u].body;
        Some(SyncRuns.UploadInsert(hash(body), |body|, now))
      else None
    case CollectUnreferenced(id) => Some(SyncRuns.CollectUnreferenced(id))
    case CollectOrphan(id) => Some(SyncRuns.CollectOrphan(id))
  }

  /** The collector goes on to the file when its transaction says deleted. */
  ghost function DiskStep(s: State, a: Action): Option<BlobFiles.Action> {
    match a
    case OnTables(_) => None
    case OnDisk(step) => if step.InsertRow? || step.DeleteRow? then None else Some(step)
    case InsertRow(u, _) => Some(BlobFiles.InsertRow(u))
    case CollectUnreferenced(id) =>
      if id in s.vault.blobs && !s.vault.blobs[id].referenced then Some(BlobFiles.DeleteRow(id)) else None
    case CollectOrphan(id) =>
      if IsLiveByText(s.vault.items, id) then None else Some(BlobFiles.DeleteRow(id))
  }

  ghost function Step(hash: Bytes -> Digest, s: State, a: Action): State {
    State(match VaultStep(s, a, hash)
          case Some(action) => SyncRuns.Step(s.vault, action)
          case None => s.vault,
          match DiskStep(s, a)
          case Some(step) => BlobFiles.Step(hash, s.disk, step)
          case None => s.disk)
  }

  ghost function Run(hash: Bytes -> Digest, actions: seq<Action>): State {
    if actions == [] then START
    else Step(hash, Run(hash, actions[..|actions| - 1]), actions[|actions| - 1])
  }

  // ---- Projections ----

  function Listed<T>(step: Option<T>): seq<T> {
    match step
    case Some(x) => [x]
    case None => []
  }

  ghost function VaultRun(hash: Bytes -> Digest, actions: seq<Action>): seq<SyncRuns.Action> {
    if actions == [] then []
    else
      var n := |actions| - 1;
      VaultRun(hash, actions[..n]) + Listed(VaultStep(Run(hash, actions[..n]), actions[n], hash))
  }

  ghost function DiskRun(hash: Bytes -> Digest, actions: seq<Action>): seq<BlobFiles.Action> {
    if actions == [] then []
    else
      var n := |actions| - 1;
      DiskRun(hash, actions[..n]) + Listed(DiskStep(Run(hash, actions[..n]), actions[n]))
  }

  lemma VaultThen(actions: seq<SyncRuns.Action>, step: Option<SyncRuns.Action>)
    ensures var v := SyncRuns.Run(EMPTY_VAULT, actions);
            SyncRuns.Run(EMPTY_VAULT, actions + Listed(step)) ==
            match step case Some(a) => SyncRuns.Step(v, a) case None => v
  {
    match step
    case Some(a) => assert (actions + [a])[..|actions|] == actions;
    case None => assert actions + [] == actions;
  }

  lemma DiskThen(hash: Bytes -> Digest, actions: seq<BlobFiles.Action>, step: Option<BlobFiles.Action>)
    ensures var d := BlobFiles.Run(hash, BlobFiles.START, actions);
            BlobFiles.Run(hash, BlobFiles.START, actions + Listed(step)) ==
            match step case Some(a) => BlobFiles.Step(hash, d, a) case None => d
  {
    match step
    case Some(a) => assert (actions + [a])[..|actions|] == actions;
    case None => assert actions + [] == actions;
  }

  /** A run of the whole is a run of each part. */
  lemma {:induction false} Projects(hash: Bytes -> Digest, actions: seq<Action>)
    ensures Run(hash, actions).vault == SyncRuns.Run(EMPTY_VAULT, VaultRun(hash, actions))
    ensures Run(hash, actions).disk == BlobFiles.Run(hash, BlobFiles.START, DiskRun(hash, actions))
  {
    if actions != [] {
      var n := |actions| - 1;
      var s := Run(hash, actions[..n]);
      Projects(hash, actions[..n]);
      VaultThen(VaultRun(hash, actions[..n]), VaultStep(s, actions[n], hash));
      DiskThen(hash, DiskRun(hash, actions[..n]), DiskStep(s, actions[n]));
    }
  }

  // ---- Both parts speak of the same rows ----

  lemma StepKeepsRows(hash: Bytes -> Digest, s: State, a: Action)
    requires s.disk.rows == s.vault.blobs.Keys && BlobFiles.Intact(hash, s.disk)
    ensures Step(hash, s, a).disk.rows == Step(hash, s, a).vault.blobs.Keys
  {
    if a.OnTables? && a.action.Push? {
      SyncRuns.BatchConfirmsIff(s.vault, AppliedRows(s.vault, a.action.authenticated, a.action.req), "");
    }
  }

  lemma {:induction false} RowsAgree(hash: Bytes -> Digest, actions: seq<Action>)
    ensures Run(hash, actions).disk.rows == Run(hash, actions).vault.blobs.Keys
    ensures BlobFiles.Intact(hash, Run(hash, actions).disk)
  {
    Projects(hash, actions);
    BlobFiles.IntactStays(hash, BlobFiles.START, DiskRun(hash, actions));
    if actions != [] {
      var n := |actions| - 1;
      RowsAgree(hash, actions[..n]);
      StepKeepsRows(hash, Run(hash, actions[..n]), actions[n]);
    }
  }

  // ---- Blobs of live items ----

  /** Every blob of a live item is on disk, with the right bytes. */
  ghost predicate LiveBlobsOnDisk(hash: Bytes -> Digest, s: State) {
    forall i, b :: i in s.vault.items && !s.vault.items[i].deleted && b in s.vault.items[i].blobRefs ==>
      b in s.disk.files && LowerHex(hash(s.disk.files[b])) == b
  }

  lemma RowsServeItems(hash: Bytes -> Digest, s: State)
    requires SyncRuns.BlobIntegrity(s.vault) && s.disk.rows == s.vault.blobs.Keys
    requires BlobFiles.Intact(hash, s.disk) && BlobFiles.RowsHaveFiles(s.disk)
    ensures LiveBlobsOnDisk(hash, s)
  {
  }

  /** Whenever rows have their files, live items have their blobs on disk. */
  lemma RowsWithFilesServeLiveItems(hash: Bytes -> Digest, actions: seq<Action>)
    requires BlobFiles.RowsHaveFiles(Run(hash, actions).disk)
    ensures LiveBlobsOnDisk(hash, Run(hash, actions))
  {
    var s := Run(hash, actions);
    assert SyncRuns.BlobIntegrity(s.vault) by {
      Projects(hash, actions);
      SyncRuns.EveryReachableVaultIsValid(VaultRun(hash, actions));
    }
    RowsAgree(hash, actions);
    RowsServeItems(hash, s);
  }

  /**
   Main result: as long as upload and removal windows of one blob never overlap, every blob of a
   live item is on disk, through any pushes, cleanups and collections from stale lists.
   */
  lemma LiveBlobsAreOnDisk(hash: Bytes -> Digest, actions: seq<Action>)
    requires BlobFiles.AlwaysApart(hash, BlobFiles.START, DiskRun(hash, actions))
    ensures LiveBlobsOnDisk(hash, Run(hash, actions))
  {
    Projects(hash, actions);
    BlobFiles.RowsHaveFilesWhenApart(hash, DiskRun(hash, actions));
    RowsWithFilesServeLiveItems(hash, actions);
  }

  lemma ServesLiveItem(hash: Bytes -> Digest, s: State, r: nat, i: ItemId)
    requires LiveBlobsOnDisk(hash, s)
    requires r in s.disk.readers && i in s.vault.items && !s.vault.items[i].deleted
    requires s.disk.readers[r] in s.vault.items[i].blobRefs
    ensures var reply := BlobFiles.Answer(s.disk, BlobFiles.ReadFile(r));
            reply.Some? && reply.value.Data? && LowerHex(hash(reply.value.bytes)) == s.disk.readers[r]
  {
  }

  /** So a download that reads its file while a live item refers to the blob gets the blob. */
  lemma LiveBlobIsServed(hash: Bytes -> Digest, actions: seq<Action>, r: nat, i: ItemId)
    requires BlobFiles.AlwaysApart(hash, BlobFiles.START, DiskRun(hash, actions))
    requires var s := Run(hash, actions);
             && r in s.disk.readers && i in s.vault.items && !s.vault.items[i].deleted
             && s.disk.readers[r] in s.vault.items[i].blobRefs
    ensures var s := Run(hash, actions);
            var reply := BlobFiles.Answer(s.disk, BlobFiles.ReadFile(r));
            reply.Some? && reply.value.Data? && LowerHex(hash(reply.value.bytes)) == s.disk.readers[r]
  {
    LiveBlobsAreOnDisk(hash, actions);
    ServesLiveItem(hash, Run(hash, actions), r, i);
  }
}
