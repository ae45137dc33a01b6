/**
 When `has_more` tells the truth, and when a client that pages until it is false ever stops.

 The server compares the cursor with last_rev and never looks whether an item is left, so
 everything turns on whether some row still carries last_rev.
 */
module HasMore {
  import opened Wrappers
  import opened SyncModel
  import opened SyncRuns

  ghost predicate TopHeld(v: Vault) {
    v.lastRev > 0 ==> exists i :: i in v.items && v.items[i].rev == v.lastRev
  }

  ghost function ItemsAfter(v: Vault, since: int): set<ItemId> {
    set i | i in v.items && v.items[i].rev > since
  }

  // ---- Which steps keep the newest row ----

  lemma StepKeepsTop(v: Vault, a: Action)
    requires Valid(v) && TopHeld(v) && !a.PurgeTombstones?
    ensures TopHeld(Step(v, a))
  {
    if a.Push? && PushRefusal(v, a.authenticated, a.req).None? {
      var rows := DecodeBatch(a.req.deviceId, a.req.items);
      var t := PushAll(v, rows);
      BatchAccounting(v, rows);
      if t.accepted == [] {
        forall i | i in v.items
          ensures Current(t.vault, i) == Current(v, i)
        {
          BatchStores(v, rows, i);
        }
      } else {
        var last := t.accepted[|t.accepted| - 1];
        assert last in t.accepted;
        BatchStores(v, rows, last.itemId);
        BatchKeepsValid(Tx(v, [], []), rows);
        assert last.itemId in t.vault.items && t.vault.items[last.itemId].rev == t.vault.lastRev;
      }
    }
  }

  lemma {:induction false} PurgeFreeRunKeepsTop(v: Vault, actions: seq<Action>)
    requires Valid(v) && TopHeld(v)
    requires forall k :: 0 <= k < |actions| ==> !actions[k].PurgeTombstones?
    ensures TopHeld(Run(v, actions))
  {
    if actions != [] {
      PurgeFreeRunKeepsTop(v, actions[..|actions| - 1]);
      RunKeepsValid(v, actions[..|actions| - 1]);
      StepKeepsTop(Run(v, actions[..|actions| - 1]), actions[|actions| - 1]);
    }
  }

  /** The cleanup loses the newest row exactly when that row is a tombstone old enough to go. */
  lemma PurgeKeepsTopIff(v: Vault, cutoff: int)
    requires Valid(v) && TopHeld(v)
    ensures TopHeld(Purge(v, cutoff)) <==>
            forall i :: i in v.items && v.items[i].rev == v.lastRev ==> !Purgeable(v.items[i], cutoff)
  {
    if v.lastRev > 0 {
      var top :| top in v.items && v.items[top].rev == v.lastRev;
      if !Purgeable(v.items[top], cutoff) {
        assert top in Purge(v, cutoff).items;
      }
    }
  }

  // ---- When has_more is exact ----

  /** On a quiet server, for any page size and any cursor from `lowest` on, `has_more` says exactly whether items are left. */
  ghost predicate HasMoreIsExact(v: Vault, lowest: int) {
    forall since: int, limit: int, rows: seq<Row> ::
      lowest <= since && 1 <= limit && IsChanges(v.items, since, limit, rows) ==>
        (MakePage(since, rows, v.lastRev).hasMore <==> ItemsAfter(v, NextSince(since, rows)) != {})
  }

  /**
   Main result: it is exact if and only if the row that carries last_rev is still there. For the
   negative cursors the endpoint lets through there also has to be a first revision.
   */
  lemma HasMoreIsExactIff(v: Vault, lowest: int)
    requires Valid(v) && lowest <= 0
    ensures HasMoreIsExact(v, lowest) <==> TopHeld(v) && (lowest == 0 || 0 < v.lastRev)
  {
    if TopHeld(v) && (lowest == 0 || 0 < v.lastRev) {
      forall since: int, limit: int, rows: seq<Row> | lowest <= since && IsChanges(v.items, since, limit, rows)
        ensures MakePage(since, rows, v.lastRev).hasMore <==> ItemsAfter(v, NextSince(since, rows)) != {}
      {
        var next := NextSince(since, rows);
        if next < v.lastRev {
          var top :| top in v.items && v.items[top].rev == v.lastRev;
          assert top in ItemsAfter(v, next);
        }
      }
    } else {
      assert IsChanges(v.items, v.lastRev - 1, 1, []);
      assert MakePage(v.lastRev - 1, [], v.lastRev).hasMore;
      assert ItemsAfter(v, NextSince(v.lastRev - 1, [])) == {};
    }
  }

  // ---- How many pages a pull takes ----

  /** Consecutive pages of one pull from a quiet server: each but the last said there is more. */
  ghost predicate QuietPull(v: Vault, since: int, limit: int, pages: seq<Page>) {
    pages != [] ==>
      var n := |pages| - 1;
      && QuietPull(v, since, limit, pages[..n])
      && (n > 0 ==> pages[n - 1].hasMore)
      && IsChanges(v.items, Cursor(since, pages[..n]), limit, pages[n].rows)
      && pages[n] == MakePage(Cursor(since, pages[..n]), pages[n].rows, v.lastRev)
  }

  ghost function Cursor(since: int, pages: seq<Page>): int {
    if pages == [] then since else pages[|pages| - 1].nextSince
  }

  ghost function RowIdSet(rows: seq<Row>): set<ItemId> {
    set i | 0 <= i < |rows| :: rows[i].itemId
  }

  lemma {:induction false} DistinctIdsCount(rows: seq<Row>)
    requires forall j, k :: 0 <= j < k < |rows| ==> rows[j].itemId != rows[k].itemId
    ensures |RowIdSet(rows)| == |rows|
  {
    if rows != [] {
      var n := |rows| - 1;
      DistinctIdsCount(rows[..n]);
      assert forall i :: 0 <= i < n ==> rows[..n][i] == rows[i];
      assert RowIdSet(rows) == RowIdSet(rows[..n]) + {rows[n].itemId};
    }
  }

  lemma RowsAreItemsAfter(v: Vault, since: int, limit: nat, rows: seq<Row>)
    requires IsChanges(v.items, since, limit, rows)
    ensures RowIdSet(rows) <= ItemsAfter(v, since)
    ensures forall i :: i in RowIdSet(rows) ==> v.items[i].rev <= NextSince(since, rows)
    ensures since <= NextSince(since, rows)
  {
  }

  lemma PageSplitsItems(v: Vault, since: int, limit: nat, rows: seq<Row>)
    requires IsChanges(v.items, since, limit, rows)
    ensures RowIdSet(rows) <= ItemsAfter(v, since)
    ensures ItemsAfter(v, NextSince(since, rows)) == ItemsAfter(v, since) - RowIdSet(rows)
    ensures |rows| < limit ==> RowIdSet(rows) == ItemsAfter(v, since)
  {
    RowsAreItemsAfter(v, since, limit, rows);
    forall i | i in ItemsAfter(v, since) && i !in RowIdSet(rows)
      ensures |rows| == limit && NextSince(since, rows) < v.items[i].rev
    {
      assert !Listed(rows, i);
    }
  }

  /** One page takes as many of the remaining items as fit, and leaves the others. */
  lemma PageTakes(v: Vault, since: int, limit: nat, rows: seq<Row>)
    requires RevisionDiscipline(v) && IsChanges(v.items, since, limit, rows)
    ensures |rows| == if |ItemsAfter(v, since)| < limit then |ItemsAfter(v, since)| else limit
    ensures |ItemsAfter(v, NextSince(since, rows))| == |ItemsAfter(v, since)| - |rows|
  {
    assert forall j, k :: 0 <= j < k < |rows| ==> rows[j].itemId != rows[k].itemId;
    DistinctIdsCount(rows);
    PageSplitsItems(v, since, limit, rows);
    SubsetCount(RowIdSet(rows), ItemsAfter(v, since));
  }

  lemma SubsetCount(a: set<ItemId>, b: set<ItemId>)
    requires a <= b
    ensures |b - a| == |b| - |a|
  {
    assert b == a + (b - a);
  }

  lemma {:induction false} PagesTake(v: Vault, since: int, limit: nat, pages: seq<Page>)
    requires Valid(v) && TopHeld(v) && (0 <= since || 0 < v.lastRev) && 1 <= limit
    requires QuietPull(v, since, limit, pages) && pages != []
    ensures var n := |ItemsAfter(v, since)|;
            && since <= Cursor(since, pages)
            && |ItemsAfter(v, Cursor(since, pages))| == (if n <= |pages| * limit then 0 else n - |pages| * limit)
            && (pages[|pages| - 1].hasMore <==> n > |pages| * limit)
  {
    var k := |pages| - 1;
    var c := Cursor(since, pages[..k]);
    if k > 0 {
      PagesTake(v, since, limit, pages[..k]);
      assert pages[..k][k - 1] == pages[k - 1];
    }
    PageTakes(v, c, limit, pages[k].rows);
    HasMoreIsExactIff(v, if since < 0 then since else 0);
    assert MakePage(c, pages[k].rows, v.lastRev).hasMore <==> ItemsAfter(v, NextSince(c, pages[k].rows)) != {};
    assert |pages| * limit == k * limit + limit;
  }

  function PagesNeeded(items: nat, limit: nat): nat
    requires 1 <= limit
  {
    if items == 0 then 1 else (items + limit - 1) / limit
  }

  /** A pull that faces n items takes max(1, ceil(n / limit)) pages: not one less, not one more. */
  lemma PullTakesExactly(v: Vault, since: int, limit: nat, pages: seq<Page>)
    requires Valid(v) && TopHeld(v) && (0 <= since || 0 < v.lastRev) && 1 <= limit
    requires QuietPull(v, since, limit, pages) && pages != []
    ensures |pages| <= PagesNeeded(|ItemsAfter(v, since)|, limit)
    ensures !pages[|pages| - 1].hasMore <==> |pages| == PagesNeeded(|ItemsAfter(v, since)|, limit)
  {
    var n, k := |ItemsAfter(v, since)|, |pages|;
    PagesTake(v, since, limit, pages);
    if k > 1 {
      assert pages[..k - 1][k - 2] == pages[k - 2];
      PagesTake(v, since, limit, pages[..k - 1]);
    }
    CeilingCharacterized(n, limit, k);
  }

  lemma CeilingCharacterized(n: nat, limit: nat, k: nat)
    requires 1 <= limit && 1 <= k
    requires k > 1 ==> n > (k - 1) * limit
    ensures k <= PagesNeeded(n, limit)
    ensures n <= k * limit <==> k == PagesNeeded(n, limit)
  {
    if n > 0 {
      var q := (n + limit - 1) / limit;
      CeilingBounds(n, limit);
      if q < k {
        Monotone(q, k - 1, limit);
      } else if k < q {
        Monotone(k, q - 1, limit);
      }
    }
  }

  lemma CeilingBounds(n: nat, limit: nat)
    requires 1 <= limit && 1 <= n
    ensures var q := (n + limit - 1) / limit; 1 <= q && (q - 1) * limit < n <= q * limit
  {
    var q, r := (n + limit - 1) / limit, (n + limit - 1) % limit;
    assert n + limit - 1 == q * limit + r;
    assert (q - 1) * limit == q * limit - limit;
    if q < 1 {
      Monotone(q, 0, limit);
    }
  }

  lemma Monotone(a: int, b: int, factor: nat)
    requires a <= b
    ensures a * factor <= b * factor
  {
  }

  // ---- Once the newest row is gone ----

  /** A pull that starts below last_rev is then told there is more on every page: it never stops. */
  lemma PullNeverStops(v: Vault, since: int, limit: int, pages: seq<Page>)
    requires Valid(v) && !TopHeld(v) && since < v.lastRev
    requires QuietPull(v, since, limit, pages) && pages != []
    ensures pages[|pages| - 1].hasMore && Cursor(since, pages) < v.lastRev
  {
  }

  /** And once it has seen every item, its pages are exactly the same empty page over and over. */
  lemma {:induction false} StuckOnEmptyPages(v: Vault, since: int, limit: nat, pages: seq<Page>)
    requires Valid(v) && ItemsAfter(v, since) == {} && since < v.lastRev
    ensures QuietPull(v, since, limit, pages) <==>
            forall k :: 0 <= k < |pages| ==> pages[k] == Page(v.lastRev, since, true, [])
  {
    if pages != [] {
      var n := |pages| - 1;
      StuckOnEmptyPages(v, since, limit, pages[..n]);
      assert forall k :: 0 <= k < n ==> pages[..n][k] == pages[k];
      assert forall i :: i in v.items ==> i !in ItemsAfter(v, since);
      if QuietPull(v, since, limit, pages) {
        var rows := pages[n].rows;
        assert Cursor(since, pages[..n]) == since;
        assert forall k :: 0 <= k < |rows| ==> rows[k].itemId in ItemsAfter(v, since);
      }
      if forall k :: 0 <= k < |pages| ==> pages[k] == Page(v.lastRev, since, true, []) {
        assert Cursor(since, pages[..n]) == since;
        assert pages[n] == MakePage(since, [], v.lastRev);
        assert IsChanges(v.items, since, limit, []);
      }
    }
  }

  /** Two requests reach such a vault: a push of a tombstone, and the cleanup that removes it. */
  lemma PurgedTopIsReachable()
    ensures var tombstone := PushItem("x", "card", 0, 0, true, Absent, Absent, []);
            var v := Run(EMPTY_VAULT, [Push("d", PushRequest("d", [tombstone])), PurgeTombstones(1)]);
            !TopHeld(v) && v.lastRev == 1 && v.items == map[]
  {
    var tombstone := PushItem("x", "card", 0, 0, true, Absent, Absent, []);
    var req := PushRequest("d", [tombstone]);
    var row := Row("x", Item("card", 0, 0, true, "d", None, None, []));
    var actions := [Push("d", req), PurgeTombstones(1)];
    assert DecodePushItem("d", req.items[0]) == Ok(row);
    assert DecodeBatch("d", req.items) == [row];
    var t := Tx(EMPTY_VAULT, [], []);
    assert [row][..0] == [] && PushFrom(t, []) == t;
    assert PushAll(EMPTY_VAULT, [row]) == PushOne(t, row);
    assert actions[..1] == [actions[0]] && actions[..1][..0] == [];
    assert Run(EMPTY_VAULT, actions[..1]) == Step(EMPTY_VAULT, actions[0]);
    var v := Step(EMPTY_VAULT, actions[0]);
    assert v.items == map["x" := row.item.(rev := 1)] && v.lastRev == 1;
    assert Run(EMPTY_VAULT, actions) == Purge(v, 1);
  }
}
