/** The blob files of one vault on disk, under two levels of directories named by the start of the id. */
module BlobStore {
  import opened Octets
  import opened SyncModel
  import opened BlobRefsText

  function Path(dir: string, id: BlobId): string {
    if |id| < 4 then dir + "/" + id
    else dir + "/" + id[0..2] + "/" + id[2..4] + "/" + id
  }

  /** No two blobs share a file. */
  lemma PathsDiffer(dir: string, a: BlobId, b: BlobId)
    requires IsBlobId(a) && IsBlobId(b) && Path(dir, a) == Path(dir, b)
    ensures a == b
  {
    PathEnds(dir, a);
    PathEnds(dir, b);
  }

  lemma PathEnds(dir: string, id: BlobId)
    requires IsBlobId(id)
    ensures |Path(dir, id)| == |dir| + 71 && Path(dir, id)[|dir| + 7..] == id
  {
  }

  /** Under a directory named by the first two digits, and in it one named by the next two. */
  lemma PathLayout(dir: string, id: BlobId)
    requires IsBlobId(id)
    ensures var path, n := Path(dir, id), |dir|;
            && |path| == n + 71 && path[..n] == dir
            && path[n] == path[n + 3] == path[n + 6] == '/'
            && path[n + 1..n + 3] == id[..2] && path[n + 4..n + 6] == id[2..4] && path[n + 7..] == id
  {
  }

  ghost function Paths(dir: string, ids: set<BlobId>): set<string> {
    set id | id in ids :: Path(dir, id)
  }

  class Store {
    const dir: string
    var files: map<string, Bytes>

    constructor (dir: string)
      ensures this.dir == dir && files == map[]
    {
      this.dir := dir;
      files := map[];
    }

    predicate Has(id: BlobId)
      reads this
    {
      Path(dir, id) in files
    }

    /** Every blob file holds bytes that hash to its name. */
    ghost predicate Intact(hash: Bytes -> Digest)
      reads this
    {
      forall id :: IsBlobId(id) && Has(id) ==> LowerHex(hash(files[Path(dir, id)])) == id
    }

    method Exists(id: BlobId) returns (present: bool)
      ensures present == Has(id)
    {
      present := Path(dir, id) in files;
    }

    /** Temp file, fsync, rename: the file appears with all its bytes or not at all. */
    method Write(id: BlobId, data: Bytes)
      modifies this`files
      ensures files == old(files)[Path(dir, id) := data]
    {
      files := files[Path(dir, id) := data];
    }

    /** A missing file is not an error. */
    method Delete(id: BlobId)
      modifies this`files
      ensures files == old(files) - {Path(dir, id)}
    {
      files := files - {Path(dir, id)};
    }
  }
}
