/**
 A puller that pages through the changes of a vault while the vault keeps moving.

 A page is made of two separate reads, first the rows and then last_rev, and any other step of
 the server can fall between them or between pages.
 */
module Paging {
  import opened Wrappers
  import opened SyncModel
  import opened SyncRuns

  /** Where the puller is: between requests, or with the rows of a page read and last_rev not yet. */
  datatype Phase = Idle | RowsRead(rows: seq<Row>)

  /** The cursor and local copy a puller saves after each page, and whether it was told there is no more. */
  datatype Puller = Puller(since: int, replica: map<ItemId, Item>, phase: Phase, finished: bool)

  /** `purged` remembers every id the tombstone cleanup has ever removed. */
  datatype System = System(vault: Vault, purged: set<ItemId>, puller: Puller)

  datatype Event =
    | Server(action: Action)
    | ReadRows(requestedLimit: Option<int>, rows: seq<Row>)
    | ReadRev

  ghost predicate Enabled(s: System, e: Event) {
    match e
    case Server(_) => true
    case ReadRows(requestedLimit, rows) =>
      s.puller.phase.Idle? && IsChanges(s.vault.items, s.puller.since, EffectiveLimit(requestedLimit), rows)
    case ReadRev => s.puller.phase.RowsRead?
  }

  /** The client writes each received row over its copy. */
  function Apply(replica: map<ItemId, Item>, rows: seq<Row>): map<ItemId, Item> {
    if rows == [] then replica
    else
      var row := rows[|rows| - 1];
      Apply(replica, rows[..|rows| - 1])[row.itemId := row.item]
  }

  ghost function After(s: System, e: Event): System {
    match e
    case Server(action) =>
      var v := Step(s.vault, action);
      s.(vault := v, purged := s.purged + (s.vault.items.Keys - v.items.Keys))
    case ReadRows(_, rows) =>
      s.(puller := s.puller.(phase := RowsRead(rows), finished := false))
    case ReadRev =>
      if s.puller.phase.Idle? then s
      else
        var page := MakePage(s.puller.since, s.puller.phase.rows, s.vault.lastRev);
        s.(puller := Puller(page.nextSince, Apply(s.puller.replica, page.rows), Idle, !page.hasMore))
  }

  ghost function RunSystem(s: System, events: seq<Event>): System {
    if events == [] then s
    else After(RunSystem(s, events[..|events| - 1]), events[|events| - 1])
  }

  ghost predicate Possible(s: System, events: seq<Event>) {
    events == [] ||
    (&& Possible(s, events[..|events| - 1])
     && Enabled(RunSystem(s, events[..|events| - 1]), events[|events| - 1]))
  }

  /** A fresh puller in front of a server that has been running for a while. */
  ghost predicate FreshStart(s: System) {
    Valid(s.vault) && s.puller == Puller(0, map[], Idle, false)
  }

  // ---- Applying a page ----

  lemma {:induction false} ApplyUnlisted(replica: map<ItemId, Item>, rows: seq<Row>, id: ItemId)
    requires !Listed(rows, id)
    ensures Current(Vault(0, Apply(replica, rows), map[]), id) == Current(Vault(0, replica, map[]), id)
  {
    if rows != [] {
      var n := |rows| - 1;
      assert forall i :: 0 <= i < n ==> rows[..n][i] == rows[i];
      assert rows[n].itemId != id;
      ApplyUnlisted(replica, rows[..n], id);
    }
  }

  /** With one row per id, the copy ends up with that row. */
  lemma {:induction false} ApplyListed(replica: map<ItemId, Item>, rows: seq<Row>, i: nat)
    requires i < |rows|
    requires forall j, k :: 0 <= j < k < |rows| ==> rows[j].itemId != rows[k].itemId
    ensures rows[i].itemId in Apply(replica, rows)
    ensures Apply(replica, rows)[rows[i].itemId] == rows[i].item
  {
    var n := |rows| - 1;
    if i < n {
      ApplyListed(replica, rows[..n], i);
    }
  }

  lemma {:induction false} ApplyKeys(replica: map<ItemId, Item>, rows: seq<Row>, id: ItemId)
    requires id in Apply(replica, rows)
    ensures id in replica || Listed(rows, id)
  {
    if !Listed(rows, id) {
      ApplyUnlisted(replica, rows, id);
    }
  }

  // ---- The invariant ----

  /** The copy holds the server's version of every item the cursor has passed, and nothing the server never had. */
  ghost predicate InStep(replica: map<ItemId, Item>, since: int, v: Vault, purged: set<ItemId>) {
    && 0 <= since <= v.lastRev
    && (forall i :: i in v.items && v.items[i].rev <= since ==> i in replica && replica[i] == v.items[i])
    && (forall i :: i in replica ==> i in v.items || i in purged)
  }

  /** What the puller is about to hold: its copy, or its copy with the rows in hand applied. */
  ghost function Upcoming(p: Puller): Puller {
    match p.phase
    case Idle => p
    case RowsRead(rows) => p.(since := NextSince(p.since, rows), replica := Apply(p.replica, rows))
  }

  ghost predicate PullInvariant(s: System) {
    && Valid(s.vault)
    && InStep(Upcoming(s.puller).replica, Upcoming(s.puller).since, s.vault, s.purged)
  }

  /** Whatever a server step changes, it changes under a revision above every earlier last_rev. */
  lemma StepMovesForward(v: Vault, a: Action)
    requires Valid(v)
    ensures v.lastRev <= Step(v, a).lastRev
    ensures forall i :: i in Step(v, a).items ==>
              Step(v, a).items[i].rev > v.lastRev || (i in v.items && Step(v, a).items[i] == v.items[i])
  {
    if a.Push? && PushRefusal(v, a.authenticated, a.req).None? {
      var rows := DecodeBatch(a.req.deviceId, a.req.items);
      BatchAccounting(v, rows);
      forall i | i in Step(v, a).items && Step(v, a).items[i].rev <= v.lastRev
        ensures i in v.items && Step(v, a).items[i] == v.items[i]
      {
        BatchStores(v, rows, i);
      }
    }
  }

  /** Only the tombstone cleanup takes items away, and it takes only tombstones. */
  lemma OnlyPurgeRemoves(v: Vault, a: Action, id: ItemId)
    requires Valid(v)
    requires id in v.items && id !in Step(v, a).items
    ensures a.PurgeTombstones? && v.items[id].deleted && v.items[id].updatedAt < a.cutoff
  {
    if a.Push? && PushRefusal(v, a.authenticated, a.req).None? {
      BatchStores(v, DecodeBatch(a.req.deviceId, a.req.items), id);
    }
  }

  lemma ServerKeepsPull(s: System, a: Action)
    requires PullInvariant(s)
    ensures PullInvariant(After(s, Server(a)))
  {
    StepKeepsValid(s.vault, a);
    StepMovesForward(s.vault, a);
  }

  lemma ReadRowsKeepsPull(s: System, e: Event)
    requires PullInvariant(s) && e.ReadRows? && Enabled(s, e)
    ensures PullInvariant(After(s, e))
  {
    var rows, p, v := e.rows, s.puller, s.vault;
    var limit := EffectiveLimit(e.requestedLimit);
    assert forall j, k :: 0 <= j < k < |rows| ==> rows[j].itemId != rows[k].itemId;
    var next, copy := NextSince(p.since, rows), Apply(p.replica, rows);
    forall i | i in v.items && v.items[i].rev <= next
      ensures i in copy && copy[i] == v.items[i]
    {
      if Listed(rows, i) {
        var k :| 0 <= k < |rows| && rows[k].itemId == i;
        ApplyListed(p.replica, rows, k);
      } else {
        ApplyUnlisted(p.replica, rows, i);
      }
    }
    forall i | i in copy
      ensures i in v.items || i in s.purged
    {
      ApplyKeys(p.replica, rows, i);
    }
  }

  lemma {:induction false} PullInvariantHolds(s: System, events: seq<Event>)
    requires PullInvariant(s) && Possible(s, events)
    ensures PullInvariant(RunSystem(s, events))
  {
    if events != [] {
      var n := |events| - 1;
      PullInvariantHolds(s, events[..n]);
      var t, e := RunSystem(s, events[..n]), events[n];
      match e
      case Server(a) => ServerKeepsPull(t, a);
      case ReadRows(_, _) => ReadRowsKeepsPull(t, e);
      case ReadRev =>
    }
  }

  /**
   Main result: at the moment a puller is told there is no more, its copy agrees with the server
   on every item the server has, and any other id it holds is one the cleanup removed.
   */
  lemma FinishedPullIsSnapshot(s: System, events: seq<Event>)
    requires FreshStart(s) && Possible(s, events)
    requires events != [] && events[|events| - 1].ReadRev? && RunSystem(s, events).puller.finished
    ensures var t := RunSystem(s, events);
            && (forall i :: i in t.vault.items ==> i in t.puller.replica && t.puller.replica[i] == t.vault.items[i])
            && (forall i :: i in t.puller.replica && i !in t.vault.items ==> i in t.purged)
            && t.puller.since == t.vault.lastRev
  {
    PullInvariantHolds(s, events[..|events| - 1]);
    PullInvariantHolds(s, events);
  }

  ghost predicate PurgeFree(events: seq<Event>) {
    forall k :: 0 <= k < |events| && events[k].Server? ==> !events[k].action.PurgeTombstones?
  }

  lemma {:induction false} NothingPurged(s: System, events: seq<Event>)
    requires PullInvariant(s) && Possible(s, events) && PurgeFree(events)
    ensures RunSystem(s, events).purged == s.purged
  {
    if events != [] {
      var n := |events| - 1;
      NothingPurged(s, events[..n]);
      PullInvariantHolds(s, events[..n]);
      var t := RunSystem(s, events[..n]);
      if events[n].Server? {
        forall i | i in t.vault.items && i !in Step(t.vault, events[n].action).items
          ensures false
        {
          OnlyPurgeRemoves(t.vault, events[n].action, i);
        }
        assert t.vault.items.Keys - Step(t.vault, events[n].action).items.Keys == {};
      }
    }
  }

  /** Without a cleanup along the way the copy is the server's table, item for item. */
  lemma FinishedPullIsExactWithoutPurge(s: System, events: seq<Event>)
    requires FreshStart(s) && s.purged == {} && Possible(s, events) && PurgeFree(events)
    requires events != [] && events[|events| - 1].ReadRev? && RunSystem(s, events).puller.finished
    ensures RunSystem(s, events).puller.replica == RunSystem(s, events).vault.items
  {
    FinishedPullIsSnapshot(s, events);
    NothingPurged(s, events);
  }

  /**
   The other ids are really there: a puller that already holds an item when its tombstone is
   cleaned up keeps its old version through every later pull, unless someone pushes the id again.
   */
  lemma {:induction false} PurgedItemStaysInCopy(s: System, events: seq<Event>, id: ItemId)
    requires s.puller.phase.Idle? && id in s.puller.replica && Possible(s, events)
    requires forall k :: 0 <= k <= |events| ==> id !in RunSystem(s, events[..k]).vault.items
    ensures var p := RunSystem(s, events).puller;
            && id in p.replica && p.replica[id] == s.puller.replica[id]
            && (p.phase.RowsRead? ==> !Listed(p.phase.rows, id))
  {
    if events != [] {
      var n := |events| - 1;
      assert forall k :: 0 <= k <= n ==> events[..n][..k] == events[..k];
      PurgedItemStaysInCopy(s, events[..n], id);
      var t := RunSystem(s, events[..n]);
      if events[n].ReadRows? {
        assert id !in t.vault.items;
      } else if events[n].ReadRev? {
        ApplyUnlisted(t.puller.replica, t.puller.phase.rows, id);
      }
    }
  }
}
