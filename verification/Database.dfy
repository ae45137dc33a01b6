/** The tables of one vault as the server holds them: updated in place, one transaction at a time. */
module Database {
  import opened SyncModel
  import SyncRuns

  class Tables {
    var lastRev: int
    var items: map<ItemId, Item>
    var blobs: map<BlobId, Blob>

    ghost function Rows(): Vault
      reads this
    {
      Vault(lastRev, items, blobs)
    }

    /** What every run from the empty vault keeps, see `SyncRuns`. */
    ghost predicate Valid()
      reads this
    {
      SyncRuns.Valid(Rows())
    }

    constructor ()
      ensures Valid() && Rows() == EMPTY_VAULT
    {
      lastRev := 0;
      items := map[];
      blobs := map[];
    }
  }
}
