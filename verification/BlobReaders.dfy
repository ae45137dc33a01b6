/** Downloads, whose two reads other steps can fall between. */
module BlobReaders {
  import opened Wrappers
  import opened Octets
  import opened SyncModel
  import opened BlobModel
  import opened BlobFiles

  lemma {:induction false} ReaderWaits(hash: Bytes -> Digest, s: State, actions: seq<Action>, r: nat)
    requires r in s.readers && ReadFile(r) !in actions
    ensures r in Run(hash, s, actions).readers && Run(hash, s, actions).readers[r] == s.readers[r]
  {
    if actions != [] {
      ReaderWaits(hash, s, actions[..|actions| - 1], r);
    }
  }

  /**
   A download whose row is found with its file in place ends with the file missing exactly when the
   collector completes its removal between the two reads and no upload writes the file after that.
   Whatever it is given otherwise hashes to the id it asked for.
   */
  lemma DownloadMissesFileIff(hash: Bytes -> Digest, s: State, r: nat, id: BlobId, between: seq<Action>)
    requires Intact(hash, s) && RowsHaveFiles(s)
    requires id in s.rows && r !in s.readers && ReadFile(r) !in between
    ensures var t := Step(hash, s, ReadRow(r, id));
            var reply := Answer(Run(hash, t, between), ReadFile(r));
            && (reply == Some(FileMissing) <==> RemovedForGood(hash, t, between, id))
            && (reply == Some(FileMissing) || (reply.Some? && reply.value.Data? && LowerHex(hash(reply.value.bytes)) == id))
  {
    var t := Step(hash, s, ReadRow(r, id));
    ReaderWaits(hash, t, between, r);
    FileGoneIff(hash, t, between, id);
    IntactStays(hash, t, between);
  }

  /** Main result: so it is for every download, as long as upload and removal windows never overlap before it. */
  lemma ApartDownloadMissesFileIff(hash: Bytes -> Digest, before: seq<Action>, r: nat, id: BlobId, between: seq<Action>)
    requires AlwaysApart(hash, START, before)
    requires var s := Run(hash, START, before); r !in s.readers && ReadFile(r) !in between
    ensures var s := Run(hash, START, before);
            var t := Step(hash, s, ReadRow(r, id));
            if id in s.rows then
              Answer(s, ReadRow(r, id)) == None &&
              (Answer(Run(hash, t, between), ReadFile(r)) == Some(FileMissing) <==> RemovedForGood(hash, t, between, id))
            else
              Answer(s, ReadRow(r, id)) == Some(NotFound)
  {
    var s := Run(hash, START, before);
    RowsHaveFilesWhenApart(hash, before);
    if id in s.rows {
      DownloadMissesFileIff(hash, s, r, id, between);
    }
  }

  lemma ApartThen(hash: Bytes -> Digest, actions: seq<Action>, a: Action)
    requires AlwaysApart(hash, START, actions) && Apart(Step(hash, Run(hash, START, actions), a))
    ensures AlwaysApart(hash, START, actions + [a])
    ensures Run(hash, START, actions + [a]) == Step(hash, Run(hash, START, actions), a)
  {
    assert (actions + [a])[..|actions|] == actions;
  }

  lemma FirstUploadIsApart(hash: Bytes -> Digest, body: Bytes)
    ensures AlwaysApart(hash, START, [CheckFile(0, body), WriteFile(0), InsertRow(0)])
  {
    assert AlwaysApart(hash, START, []);
    ApartThen(hash, [], CheckFile(0, body));
    assert [] + [CheckFile(0, body)] == [CheckFile(0, body)];
    ApartThen(hash, [CheckFile(0, body)], WriteFile(0));
    assert [CheckFile(0, body)] + [WriteFile(0)] == [CheckFile(0, body), WriteFile(0)];
    ApartThen(hash, [CheckFile(0, body), WriteFile(0)], InsertRow(0));
    assert [CheckFile(0, body), WriteFile(0)] + [InsertRow(0)] == [CheckFile(0, body), WriteFile(0), InsertRow(0)];
  }

  lemma Overtaken(hash: Bytes -> Digest, id: BlobId, body: Bytes)
    ensures var s := State({id}, map[id := body], map[], {}, map[]);
            && Step(hash, s, ReadRow(0, id)) == s.(readers := map[0 := id])
            && Step(hash, s.(readers := map[0 := id]), DeleteRow(id)) == State({}, map[id := body], map[], {id}, map[0 := id])
            && Step(hash, State({}, map[id := body], map[], {id}, map[0 := id]), RemoveFile(id)) == State({}, map[], map[], {}, map[0 := id])
  {
  }

  /**
   And it does happen, with the windows of uploads and removals apart all along: a download finds
   the row, the collector removes row and file, and the download meets a missing file.
   */
  lemma CollectionOvertakesDownload(hash: Bytes -> Digest, body: Bytes)
    ensures var id := LowerHex(hash(body));
            var actions := [CheckFile(0, body), WriteFile(0), InsertRow(0), ReadRow(0, id), DeleteRow(id), RemoveFile(id)];
            && AlwaysApart(hash, START, actions)
            && RowsAlwaysHaveFiles(hash, START, actions)
            && Answer(Run(hash, START, actions), ReadFile(0)) == Some(FileMissing)
  {
    var id, first := LowerHex(hash(body)), [CheckFile(0, body), WriteFile(0), InsertRow(0)];
    FirstUpload(hash, body);
    FirstUploadIsApart(hash, body);
    Overtaken(hash, id, body);
    ApartThen(hash, first, ReadRow(0, id));
    ApartThen(hash, first + [ReadRow(0, id)], DeleteRow(id));
    ApartThen(hash, first + [ReadRow(0, id)] + [DeleteRow(id)], RemoveFile(id));
    var actions := first + [ReadRow(0, id)] + [DeleteRow(id)] + [RemoveFile(id)];
    assert actions == [CheckFile(0, body), WriteFile(0), InsertRow(0), ReadRow(0, id), DeleteRow(id), RemoveFile(id)];
    ApartKeepsFiles(hash, actions);
  }

  lemma {:induction false} ApartKeepsFiles(hash: Bytes -> Digest, actions: seq<Action>)
    requires AlwaysApart(hash, START, actions)
    ensures RowsAlwaysHaveFiles(hash, START, actions)
  {
    RowsHaveFilesWhenApart(hash, actions);
    if actions != [] {
      ApartKeepsFiles(hash, actions[..|actions| - 1]);
    }
  }
}
