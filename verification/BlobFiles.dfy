/**
 Rows and files of blobs when uploads, downloads and the collector interleave.

 An upload checks the file, writes it if absent, and only then inserts the row; the collector
 deletes the row and only then removes the file; a download reads the row and only then the file.
 None of them holds a lock over its steps.
 */
module BlobFiles {
  import opened Octets
  import opened SyncModel
  import opened BlobModel
  import opened Wrappers

  /** An upload between its existence check and its insert: is its file known to be there? */
  datatype Upload = Upload(id: BlobId, body: Bytes, ready: bool)

  /**
   `collecting` holds the blobs whose row the collector has deleted and whose file it has yet to
   remove, `readers` the downloads that have found their row and have yet to read the file.
   */
  datatype State = State(
    rows: set<BlobId>,
    files: map<BlobId, Bytes>,
    uploads: map<nat, Upload>,
    collecting: set<BlobId>,
    readers: map<nat, BlobId>)

  const START := State({}, map[], map[], {}, map[])

  datatype Action =
    | CheckFile(upload: nat, body: Bytes)
    | WriteFile(upload: nat)
    | InsertRow(upload: nat)
    | GiveUp(upload: nat)
    | DeleteRow(id: BlobId)
    | RemoveFile(id: BlobId)
    | FailToRemove(id: BlobId)
    | ReadRow(reader: nat, id: BlobId)
    | ReadFile(reader: nat)

  /** One step; an action that is not due changes nothing. */
  function Step(hash: Bytes -> Digest, s: State, a: Action): State {
    match a
    case CheckFile(u, body) =>
      var id := LowerHex(hash(body));
      if u in s.uploads then s else s.(uploads := s.uploads[u := Upload(id, body, id in s.files)])
    case WriteFile(u) =>
      if u in s.uploads && !s.uploads[u].ready then
        var up := s.uploads[u];
        s.(files := s.files[up.id := up.body], uploads := s.uploads[u := up.(ready := true)])
      else s
    case InsertRow(u) =>
      if u in s.uploads && s.uploads[u].ready then
        s.(rows := s.rows + {s.uploads[u].id}, uploads := s.uploads - {u})
      else s
    case GiveUp(u) => s.(uploads := s.uploads - {u})
    case DeleteRow(id) => s.(rows := s.rows - {id}, collecting := s.collecting + {id})
    case RemoveFile(id) =>
      if id in s.collecting then s.(files := s.files - {id}, collecting := s.collecting - {id}) else s
    case FailToRemove(id) => s.(collecting := s.collecting - {id})
    case ReadRow(r, id) => if id in s.rows && r !in s.readers then s.(readers := s.readers[r := id]) else s
    case ReadFile(r) => s.(readers := s.readers - {r})
  }

  /** What a download is told by a step, if that step answers it. */
  function Answer(s: State, a: Action): Option<GetReply> {
    match a
    case ReadRow(r, id) => if id in s.rows || r in s.readers then None else Some(NotFound)
    case ReadFile(r) =>
      if r !in s.readers then None
      else if s.readers[r] in s.files then Some(Data(s.files[s.readers[r]]))
      else Some(FileMissing)
    case _ => None
  }

  function Run(hash: Bytes -> Digest, s: State, actions: seq<Action>): State {
    if actions == [] then s
    else Step(hash, Run(hash, s, actions[..|actions| - 1]), actions[|actions| - 1])
  }

  /** Every file holds the bytes its name is the digest of, and so will the files uploads are about to write. */
  ghost predicate Intact(hash: Bytes -> Digest, s: State) {
    && (forall id :: id in s.files ==> LowerHex(hash(s.files[id])) == id)
    && (forall u :: u in s.uploads ==> LowerHex(hash(s.uploads[u].body)) == s.uploads[u].id)
  }

  lemma StepKeepsIntact(hash: Bytes -> Digest, s: State, a: Action)
    requires Intact(hash, s)
    ensures Intact(hash, Step(hash, s, a))
  {
  }

  lemma {:induction false} IntactStays(hash: Bytes -> Digest, s: State, actions: seq<Action>)
    requires Intact(hash, s)
    ensures Intact(hash, Run(hash, s, actions))
  {
    if actions != [] {
      IntactStays(hash, s, actions[..|actions| - 1]);
      StepKeepsIntact(hash, Run(hash, s, actions[..|actions| - 1]), actions[|actions| - 1]);
    }
  }

  // ---- Exactly which step leaves a row without its file ----

  ghost predicate RowsHaveFiles(s: State) {
    forall id :: id in s.rows ==> id in s.files
  }

  /** The collector removes a file whose row is back, or an upload inserts a row whose file is gone. */
  predicate Strands(s: State, a: Action) {
    match a
    case RemoveFile(id) => id in s.collecting && id in s.rows
    case InsertRow(u) => u in s.uploads && s.uploads[u].ready && s.uploads[u].id !in s.files
    case _ => false
  }

  lemma StepStrandsIff(hash: Bytes -> Digest, s: State, a: Action)
    requires RowsHaveFiles(s)
    ensures RowsHaveFiles(Step(hash, s, a)) <==> !Strands(s, a)
  {
    if Strands(s, a) && a.InsertRow? {
      assert s.uploads[a.upload].id in Step(hash, s, a).rows;
    }
  }

  /** In every state of the run each row has its file. */
  ghost predicate RowsAlwaysHaveFiles(hash: Bytes -> Digest, s: State, actions: seq<Action>) {
    && (actions != [] ==> RowsAlwaysHaveFiles(hash, s, actions[..|actions| - 1]))
    && RowsHaveFiles(Run(hash, s, actions))
  }

  ghost predicate NothingStrands(hash: Bytes -> Digest, s: State, actions: seq<Action>) {
    actions != [] ==>
      && NothingStrands(hash, s, actions[..|actions| - 1])
      && !Strands(Run(hash, s, actions[..|actions| - 1]), actions[|actions| - 1])
  }

  /** Main result: rows have their files all along a run if and only if they do at its start and no step of it is one of those two. */
  lemma {:induction false} RowsAlwaysHaveFilesIff(hash: Bytes -> Digest, s: State, actions: seq<Action>)
    ensures RowsAlwaysHaveFiles(hash, s, actions) <==> RowsHaveFiles(s) && NothingStrands(hash, s, actions)
  {
    if actions != [] {
      var n := |actions| - 1;
      RowsAlwaysHaveFilesIff(hash, s, actions[..n]);
      if RowsAlwaysHaveFiles(hash, s, actions[..n]) {
        StepStrandsIff(hash, Run(hash, s, actions[..n]), actions[n]);
      }
    }
  }

  // ---- When a file goes ----

  /** The collector completes its removal of the file. */
  predicate Removes(s: State, a: Action, id: BlobId) {
    a == RemoveFile(id) && id in s.collecting
  }

  /** An upload writes the file. */
  predicate Writes(s: State, a: Action, id: BlobId) {
    a.WriteFile? && a.upload in s.uploads && !s.uploads[a.upload].ready && s.uploads[a.upload].id == id
  }

  /** Somewhere in the run the file is removed, and nothing writes it after that. */
  ghost predicate RemovedForGood(hash: Bytes -> Digest, s: State, actions: seq<Action>, id: BlobId) {
    exists k :: 0 <= k < |actions| && RemovedLastAt(hash, s, actions, id, k)
  }

  ghost predicate RemovedLastAt(hash: Bytes -> Digest, s: State, actions: seq<Action>, id: BlobId, k: nat)
    requires k < |actions|
  {
    && Removes(Run(hash, s, actions[..k]), actions[k], id)
    && forall j :: k < j < |actions| ==> !Writes(Run(hash, s, actions[..j]), actions[j], id)
  }

  lemma StepOnFile(hash: Bytes -> Digest, s: State, a: Action, id: BlobId)
    ensures id in Step(hash, s, a).files <==> Writes(s, a, id) || (id in s.files && !Removes(s, a, id))
  {
  }

  lemma RemovedForGoodStep(hash: Bytes -> Digest, s: State, before: seq<Action>, a: Action, id: BlobId)
    ensures var t := Run(hash, s, before);
            RemovedForGood(hash, s, before + [a], id) <==>
            Removes(t, a, id) || (!Writes(t, a, id) && RemovedForGood(hash, s, before, id))
  {
    var n, actions := |before|, before + [a];
    assert forall k :: 0 <= k <= n ==> actions[..k] == before[..k];
    assert actions[..n] == before && before[..n] == before;
    forall k | 0 <= k < n
      ensures RemovedLastAt(hash, s, actions, id, k) <==>
              RemovedLastAt(hash, s, before, id, k) && !Writes(Run(hash, s, before), a, id)
    {
      assert actions[n] == a;
    }
    assert RemovedLastAt(hash, s, actions, id, n) <==> Removes(Run(hash, s, before), a, id);
  }

  /** A file that is there at the start is gone at the end exactly when it was removed and not written again. */
  lemma {:induction false} FileGoneIff(hash: Bytes -> Digest, s: State, actions: seq<Action>, id: BlobId)
    requires id in s.files
    ensures id !in Run(hash, s, actions).files <==> RemovedForGood(hash, s, actions, id)
  {
    if actions != [] {
      var n := |actions| - 1;
      FileGoneIff(hash, s, actions[..n], id);
      StepOnFile(hash, Run(hash, s, actions[..n]), actions[n], id);
      RemovedForGoodStep(hash, s, actions[..n], actions[n], id);
      assert actions == actions[..n] + [actions[n]];
    }
  }

  /**
   Hence, when the file was there as the upload checked or wrote it, the insert that follows strands
   its row exactly when the collector removed the file in between and nobody wrote it again.
   */
  lemma InsertStrandsIff(hash: Bytes -> Digest, s: State, between: seq<Action>, u: nat, id: BlobId)
    requires id in s.files
    requires var t := Run(hash, s, between); u in t.uploads && t.uploads[u].ready && t.uploads[u].id == id
    ensures Strands(Run(hash, s, between), InsertRow(u)) <==> RemovedForGood(hash, s, between, id)
  {
    FileGoneIff(hash, s, between, id);
  }

  // ---- Rows that have files and will keep them ----

  /** And it stays so: an upload that has seen or written its file still has it. */
  ghost predicate Sound(hash: Bytes -> Digest, s: State) {
    && Intact(hash, s)
    && RowsHaveFiles(s)
    && (forall u :: u in s.uploads && s.uploads[u].ready ==> s.uploads[u].id in s.files)
  }

  /** Which is to say: rows have files now, and after the insert of any upload that is ready. */
  lemma SoundIff(hash: Bytes -> Digest, s: State)
    requires Intact(hash, s)
    ensures Sound(hash, s) <==>
            RowsHaveFiles(s) && forall u :: u in s.uploads && s.uploads[u].ready ==> RowsHaveFiles(Step(hash, s, InsertRow(u)))
  {
    if RowsHaveFiles(s) {
      forall u | u in s.uploads && s.uploads[u].ready
        ensures RowsHaveFiles(Step(hash, s, InsertRow(u))) <==> s.uploads[u].id in s.files
      {
        StepStrandsIff(hash, s, InsertRow(u));
      }
    }
  }

  // ---- Windows that do not overlap ----

  /** No upload of a blob is under way while the collector is between that blob's row and its file. */
  ghost predicate Apart(s: State) {
    forall u :: u in s.uploads ==> s.uploads[u].id !in s.collecting
  }

  ghost predicate AlwaysApart(hash: Bytes -> Digest, s: State, actions: seq<Action>) {
    && (actions != [] ==> AlwaysApart(hash, s, actions[..|actions| - 1]))
    && Apart(Run(hash, s, actions))
  }

  lemma ApartStepIsSound(hash: Bytes -> Digest, s: State, a: Action)
    requires Sound(hash, s) && Apart(s) && s.rows !! s.collecting
    ensures Sound(hash, Step(hash, s, a))
    ensures Step(hash, s, a).rows !! Step(hash, s, a).collecting
  {
    StepStrandsIff(hash, s, a);
  }

  lemma {:induction false} ApartRunsAreSound(hash: Bytes -> Digest, actions: seq<Action>)
    requires AlwaysApart(hash, START, actions)
    ensures Sound(hash, Run(hash, START, actions))
    ensures Run(hash, START, actions).rows !! Run(hash, START, actions).collecting
  {
    if actions != [] {
      var n := |actions| - 1;
      ApartRunsAreSound(hash, actions[..n]);
      ApartStepIsSound(hash, Run(hash, START, actions[..n]), actions[n]);
    }
  }

  /** Main result: as long as those windows never overlap, a row always has its file, with the right bytes. */
  lemma RowsHaveFilesWhenApart(hash: Bytes -> Digest, actions: seq<Action>)
    requires AlwaysApart(hash, START, actions)
    ensures RowsHaveFiles(Run(hash, START, actions)) && Intact(hash, Run(hash, START, actions))
  {
    ApartRunsAreSound(hash, actions);
  }

  lemma RunThen(hash: Bytes -> Digest, s: State, actions: seq<Action>, a: Action)
    ensures Run(hash, s, actions + [a]) == Step(hash, Run(hash, s, actions), a)
  {
    assert (actions + [a])[..|actions|] == actions;
  }

  /**
   And when they do overlap: a second upload of a stored blob sees its file just before the
   collector, which holds the blob for unconfirmed, removes row and file. The upload succeeds,
   and leaves a row without a file.
   */
  lemma OverlapLosesFile(hash: Bytes -> Digest, body: Bytes)
    ensures var id := LowerHex(hash(body));
            var s := Run(hash, START,
              [CheckFile(0, body), WriteFile(0), InsertRow(0),
               CheckFile(1, body), DeleteRow(id), RemoveFile(id), InsertRow(1)]);
            id in s.rows && id !in s.files
  {
    var id := LowerHex(hash(body));
    var first := [CheckFile(0, body), WriteFile(0), InsertRow(0)];
    FirstUpload(hash, body);
    var s := State({id}, map[id := body], map[], {}, map[]);
    RunThen(hash, START, first, CheckFile(1, body));
    RunThen(hash, START, first + [CheckFile(1, body)], DeleteRow(id));
    RunThen(hash, START, first + [CheckFile(1, body)] + [DeleteRow(id)], RemoveFile(id));
    RunThen(hash, START, first + [CheckFile(1, body)] + [DeleteRow(id)] + [RemoveFile(id)], InsertRow(1));
    var t := Step(hash, Step(hash, Step(hash, s, CheckFile(1, body)), DeleteRow(id)), RemoveFile(id));
    assert 1 in t.uploads && t.uploads[1] == Upload(id, body, true) && id !in t.files;
    assert first + [CheckFile(1, body)] + [DeleteRow(id)] + [RemoveFile(id)] + [InsertRow(1)]
        == [CheckFile(0, body), WriteFile(0), InsertRow(0),
            CheckFile(1, body), DeleteRow(id), RemoveFile(id), InsertRow(1)];
  }

  lemma FirstUpload(hash: Bytes -> Digest, body: Bytes)
    ensures var id := LowerHex(hash(body));
            Run(hash, START, [CheckFile(0, body), WriteFile(0), InsertRow(0)]) == State({id}, map[id := body], map[], {}, map[])
  {
    var id := LowerHex(hash(body));
    RunThen(hash, START, [], CheckFile(0, body));
    RunThen(hash, START, [CheckFile(0, body)], WriteFile(0));
    RunThen(hash, START, [CheckFile(0, body)] + [WriteFile(0)], InsertRow(0));
    var s := Step(hash, START, CheckFile(0, body));
    assert [] + [CheckFile(0, body)] == [CheckFile(0, body)];
    assert s == State({}, map[], map[0 := Upload(id, body, false)], {}, map[]);
    assert [CheckFile(0, body)] + [WriteFile(0)] + [InsertRow(0)] == [CheckFile(0, body), WriteFile(0), InsertRow(0)];
    assert Step(hash, Step(hash, s, WriteFile(0)), InsertRow(0)).uploads == map[];
  }
}
