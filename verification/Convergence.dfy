/**
 Devices that edited one item from the same base revision end up with the same version of it, in
 whatever order and in whatever batches their pushes arrive.
 */
module Convergence {
  import opened Wrappers
  import opened SyncModel
  import opened SyncRuns
  import StringOrder

  // ---- The order on versions ----

  predicate SameKey(a: Item, b: Item) {
    a.updatedAt == b.updatedAt && a.deviceId == b.deviceId
  }

  /** A strict total order on (updatedAt, deviceId). */
  lemma WinsIsStrictTotalOrder(a: Item, b: Item, c: Item)
    ensures Wins(a, b) || Wins(b, a) || SameKey(a, b)
    ensures Wins(a, b) ==> !Wins(b, a) && !SameKey(a, b)
    ensures Wins(a, b) && Wins(b, c) ==> Wins(a, c)
  {
    StringOrder.BeforeIsTotal(a.deviceId, b.deviceId);
    if StringOrder.Before(b.deviceId, a.deviceId) {
      StringOrder.BeforeIsAsymmetric(b.deviceId, a.deviceId);
      if StringOrder.Before(c.deviceId, b.deviceId) {
        StringOrder.BeforeIsTransitive(c.deviceId, b.deviceId, a.deviceId);
      }
    }
    if StringOrder.Before(a.deviceId, b.deviceId) {
      StringOrder.BeforeIsAsymmetric(a.deviceId, b.deviceId);
    }
  }

  /** `w` is one of the versions, none is younger, and of those as young none has a later device id. */
  ghost predicate HasGreatestKey(w: Item, versions: seq<Item>) {
    && w in versions
    && forall x :: x in versions ==>
         && x.updatedAt <= w.updatedAt
         && (x.updatedAt == w.updatedAt ==> !StringOrder.Before(w.deviceId, x.deviceId))
  }

  /** `w` is one of the versions and beats each of the others. */
  ghost predicate IsGreatest(w: Item, versions: seq<Item>) {
    w in versions && forall x :: x in versions ==> x == w || Wins(w, x)
  }

  ghost predicate DistinctKeys(versions: seq<Item>) {
    forall i, j :: 0 <= i < j < |versions| ==> !SameKey(versions[i], versions[j])
  }

  // ---- A batch, seen from one item ----

  /** The versions of item `id` among the rows, in order. */
  ghost function VersionsOf(rows: seq<Row>, id: ItemId): seq<Item> {
    if rows == [] then []
    else
      var row := rows[|rows| - 1];
      VersionsOf(rows[..|rows| - 1], id) + if row.itemId == id then [row.item] else []
  }

  /** The revision an edit of `id` made against `v` is based on. */
  function BaseOf(v: Vault, id: ItemId): int {
    if id in v.items then v.items[id].rev else 0
  }

  /** The first version at all, then each one that beats what it meets. */
  ghost function Survivor(versions: seq<Item>): Item
    requires versions != []
  {
    var last := versions[|versions| - 1];
    if |versions| == 1 then last
    else
      var w := Survivor(versions[..|versions| - 1]);
      if Wins(last, w) then last else w
  }

  /** What the table holds for `id` after `versions` of it, all edits of revision `base`, were processed. */
  ghost predicate Settled(before: Vault, after: Vault, id: ItemId, versions: seq<Item>) {
    if versions == [] then
      Current(after, id) == Current(before, id)
    else
      && id in after.items
      && after.items[id].rev > before.lastRev
      && after.items[id].(rev := BaseOf(before, id)) == Survivor(versions)
  }

  ghost predicate AllBasedOn(versions: seq<Item>, base: int) {
    forall i :: 0 <= i < |versions| ==> versions[i].rev == base
  }

  /** The first edit meets its base revision and is stored. */
  lemma FirstEditSettles(origin: Vault, t: Tx, row: Row)
    requires RevisionDiscipline(origin) && origin.lastRev <= t.vault.lastRev
    requires Current(t.vault, row.itemId) == Current(origin, row.itemId)
    requires row.item.rev == BaseOf(origin, row.itemId)
    ensures var u := PushOne(t, row);
            origin.lastRev <= u.vault.lastRev && Settled(origin, u.vault, row.itemId, [row.item])
  {
    assert Survivor([row.item]) == row.item;
    assert Resolve(Current(t.vault, row.itemId), row.item);
  }

  /** A later one meets another edit under a newer revision, and is stored if and only if it beats it. */
  lemma NextEditSettles(origin: Vault, t: Tx, versions: seq<Item>, row: Row)
    requires RevisionDiscipline(origin) && origin.lastRev <= t.vault.lastRev
    requires versions != [] && Settled(origin, t.vault, row.itemId, versions)
    requires row.item.rev == BaseOf(origin, row.itemId)
    ensures var u := PushOne(t, row);
            origin.lastRev <= u.vault.lastRev && Settled(origin, u.vault, row.itemId, versions + [row.item])
  {
    var more, cur := versions + [row.item], t.vault.items[row.itemId];
    assert more[..|versions|] == versions;
    assert Survivor(more) == if Wins(row.item, Survivor(versions)) then row.item else Survivor(versions);
    assert Wins(row.item, Survivor(versions)) == Wins(row.item, cur);
    assert cur.rev != row.item.rev;
  }

  /** One more row, whatever came before it. */
  lemma RowSettles(origin: Vault, t: Tx, id: ItemId, versions: seq<Item>, row: Row)
    requires RevisionDiscipline(origin) && origin.lastRev <= t.vault.lastRev
    requires Settled(origin, t.vault, id, versions)
    requires row.itemId == id ==> row.item.rev == BaseOf(origin, id)
    ensures var u := PushOne(t, row);
            && origin.lastRev <= u.vault.lastRev
            && Settled(origin, u.vault, id, versions + if row.itemId == id then [row.item] else [])
  {
    if row.itemId != id {
      assert versions + [] == versions;
      assert Current(PushOne(t, row).vault, id) == Current(t.vault, id);
    } else if versions == [] {
      assert versions + [row.item] == [row.item];
      FirstEditSettles(origin, t, row);
    } else {
      NextEditSettles(origin, t, versions, row);
    }
  }

  lemma {:induction false} BatchSettles(origin: Vault, t: Tx, id: ItemId, earlier: seq<Item>, rows: seq<Row>)
    requires RevisionDiscipline(origin) && origin.lastRev <= t.vault.lastRev
    requires Settled(origin, t.vault, id, earlier)
    requires AllBasedOn(earlier + VersionsOf(rows, id), BaseOf(origin, id))
    ensures origin.lastRev <= PushFrom(t, rows).vault.lastRev
    ensures Settled(origin, PushFrom(t, rows).vault, id, earlier + VersionsOf(rows, id))
  {
    if rows == [] {
      assert earlier + [] == earlier;
    } else {
      var n := |rows| - 1;
      var before, row := rows[..n], rows[n];
      var tail := if row.itemId == id then [row.item] else [];
      var all, some := earlier + VersionsOf(rows, id), earlier + VersionsOf(before, id);
      assert all == some + tail;
      assert forall i :: 0 <= i < |some| ==> some[i] == all[i];
      BatchSettles(origin, t, id, earlier, before);
      assert row.itemId == id ==> all[|some|] == row.item;
      RowSettles(origin, PushFrom(t, before), id, some, row);
    }
  }

  lemma {:induction false} BatchKeepsAbsent(t: Tx, rows: seq<Row>, id: ItemId)
    requires id !in t.vault.items
    requires forall i :: 0 <= i < |VersionsOf(rows, id)| ==> VersionsOf(rows, id)[i].rev != 0
    ensures id !in PushFrom(t, rows).vault.items
  {
    if rows != [] {
      var n := |rows| - 1;
      var some := VersionsOf(rows[..n], id);
      assert forall i :: 0 <= i < |some| ==> some[i] == VersionsOf(rows, id)[i];
      BatchKeepsAbsent(t, rows[..n], id);
      assert rows[n].itemId == id ==> VersionsOf(rows, id)[|some|] == rows[n].item;
    }
  }

  // ---- A whole run, seen from one item ----

  /** The versions of `id` that a run gets the server to process, in the order it does. */
  ghost function ProcessedVersions(v: Vault, actions: seq<Action>, id: ItemId): seq<Item> {
    if actions == [] then []
    else
      var n := |actions| - 1;
      ProcessedVersions(v, actions[..n], id) +
      match actions[n]
      case Push(authenticated, req) => VersionsOf(AppliedRows(Run(v, actions[..n]), authenticated, req), id)
      case _ => []
  }

  /** No cleanup of the run hits item `id` itself. */
  ghost predicate NotPurged(v: Vault, actions: seq<Action>, id: ItemId) {
    forall k :: 0 <= k < |actions| && actions[k].PurgeTombstones? && id in Run(v, actions[..k]).items ==>
      !Purgeable(Run(v, actions[..k]).items[id], actions[k].cutoff)
  }

  /** One more action, unless it is a cleanup of the item. */
  lemma ActionSettles(origin: Vault, u: Vault, a: Action, id: ItemId, versions: seq<Item>)
    requires RevisionDiscipline(origin) && origin.lastRev <= u.lastRev
    requires Settled(origin, u, id, versions)
    requires a.Push? ==> AllBasedOn(versions + VersionsOf(AppliedRows(u, a.authenticated, a.req), id), BaseOf(origin, id))
    requires a.PurgeTombstones? && id in u.items ==> !Purgeable(u.items[id], a.cutoff)
    ensures origin.lastRev <= Step(u, a).lastRev
    ensures Settled(origin, Step(u, a), id,
                    versions + if a.Push? then VersionsOf(AppliedRows(u, a.authenticated, a.req), id) else [])
  {
    if a.Push? {
      BatchSettles(origin, Tx(u, [], []), id, versions, AppliedRows(u, a.authenticated, a.req));
    } else {
      assert versions + [] == versions;
      assert Current(Step(u, a), id) == Current(u, id);
    }
  }

  lemma {:induction false} RunSettles(v: Vault, actions: seq<Action>, id: ItemId)
    requires Valid(v) && NotPurged(v, actions, id)
    requires AllBasedOn(ProcessedVersions(v, actions, id), BaseOf(v, id))
    ensures v.lastRev <= Run(v, actions).lastRev
    ensures Settled(v, Run(v, actions), id, ProcessedVersions(v, actions, id))
  {
    if actions != [] {
      var n := |actions| - 1;
      var u, all, some := Run(v, actions[..n]), ProcessedVersions(v, actions, id), ProcessedVersions(v, actions[..n], id);
      assert forall i :: 0 <= i < |some| ==> some[i] == all[i];
      assert forall k :: 0 <= k < n ==> actions[..n][..k] == actions[..k];
      RunSettles(v, actions[..n], id);
      ActionSettles(v, u, actions[n], id, some);
    }
  }

  /** An item that is gone, purged for instance, comes back only by a push that takes it for new. */
  lemma {:induction false} GoneStaysGone(v: Vault, actions: seq<Action>, id: ItemId)
    requires id !in v.items
    requires forall i :: 0 <= i < |ProcessedVersions(v, actions, id)| ==> ProcessedVersions(v, actions, id)[i].rev != 0
    ensures id !in Run(v, actions).items
  {
    if actions != [] {
      var n := |actions| - 1;
      var u, some := Run(v, actions[..n]), ProcessedVersions(v, actions[..n], id);
      var all := ProcessedVersions(v, actions, id);
      assert forall i :: 0 <= i < |some| ==> some[i] == all[i];
      GoneStaysGone(v, actions[..n], id);
      if actions[n].Push? {
        var rows := AppliedRows(u, actions[n].authenticated, actions[n].req);
        assert forall i :: 0 <= i < |VersionsOf(rows, id)| ==> VersionsOf(rows, id)[i] == all[|some| + i];
        BatchKeepsAbsent(Tx(u, [], []), rows, id);
      }
    }
  }

  /** With pairwise distinct keys the survivor is the greatest version. */
  lemma {:induction false} SurvivorIsGreatest(versions: seq<Item>)
    requires versions != [] && DistinctKeys(versions)
    ensures IsGreatest(Survivor(versions), versions)
  {
    var n := |versions| - 1;
    if n > 0 {
      var last, w := versions[n], Survivor(versions[..n]);
      SurvivorIsGreatest(versions[..n]);
      assert versions == versions[..n] + [last];
      WinsIsStrictTotalOrder(last, w, w);
      forall x | x in versions[..n]
        ensures Wins(last, w) ==> Wins(last, x)
        ensures !SameKey(last, x)
      {
        var i :| 0 <= i < n && versions[i] == x;
        WinsIsStrictTotalOrder(last, w, x);
        assert SameKey(versions[i], versions[n]) == SameKey(last, x);
      }
      assert w in versions[..n];
    }
  }

  lemma GreatestHasGreatestKey(w: Item, versions: seq<Item>)
    requires IsGreatest(w, versions)
    ensures HasGreatestKey(w, versions)
  {
    forall x | x in versions
      ensures x.updatedAt <= w.updatedAt && (x.updatedAt == w.updatedAt ==> !StringOrder.Before(w.deviceId, x.deviceId))
    {
      if StringOrder.Before(w.deviceId, x.deviceId) {
        StringOrder.BeforeIsAsymmetric(w.deviceId, x.deviceId);
      }
    }
  }

  lemma GreatestIsUnique(a: Item, b: Item, versions: seq<Item>)
    requires IsGreatest(a, versions) && IsGreatest(b, versions)
    ensures a == b
  {
    WinsIsStrictTotalOrder(a, b, a);
  }

  /**
   Main result: any non-empty set of edits of one base revision, with pairwise distinct
   (updatedAt, deviceId), leaves the greatest of them, however the run splits them into batches
   and whatever pushes of other items, uploads, collections and cleanups of other items fall between.
   */
  lemma GreatestEditSurvives(v: Vault, actions: seq<Action>, id: ItemId)
    requires Valid(v) && NotPurged(v, actions, id)
    requires AllBasedOn(ProcessedVersions(v, actions, id), BaseOf(v, id))
    requires ProcessedVersions(v, actions, id) != [] && DistinctKeys(ProcessedVersions(v, actions, id))
    ensures var w := Run(v, actions);
            && id in w.items
            && w.items[id].rev > v.lastRev
            && HasGreatestKey(w.items[id].(rev := BaseOf(v, id)), ProcessedVersions(v, actions, id))
  {
    var versions := ProcessedVersions(v, actions, id);
    RunSettles(v, actions, id);
    SurvivorIsGreatest(versions);
    GreatestHasGreatestKey(Survivor(versions), versions);
  }

  /** Hence two runs that process the same edits, in any two orders, agree on everything but the revision. */
  lemma OrderDoesNotMatter(v: Vault, actions: seq<Action>, others: seq<Action>, id: ItemId)
    requires Valid(v) && NotPurged(v, actions, id) && NotPurged(v, others, id)
    requires AllBasedOn(ProcessedVersions(v, actions, id), BaseOf(v, id))
    requires DistinctKeys(ProcessedVersions(v, actions, id))
    requires multiset(ProcessedVersions(v, actions, id)) == multiset(ProcessedVersions(v, others, id))
    ensures id in Run(v, actions).items <==> id in Run(v, others).items
    ensures id in Run(v, actions).items ==>
              Run(v, actions).items[id].(rev := 0) == Run(v, others).items[id].(rev := 0)
  {
    var a, b := ProcessedVersions(v, actions, id), ProcessedVersions(v, others, id);
    forall x
      ensures x in a <==> x in b
    {
      assert x in a <==> x in multiset(a);
      assert x in b <==> x in multiset(b);
    }
    forall i | 0 <= i < |b|
      ensures b[i].rev == BaseOf(v, id)
    {
      assert b[i] in a;
    }
    RunSettles(v, actions, id);
    RunSettles(v, others, id);
    if a == [] {
      assert |multiset(b)| == |multiset(a)| == 0;
    } else {
      assert a[0] in b;
      PermutationKeepsDistinct(a, b);
      SurvivorIsGreatest(a);
      SurvivorIsGreatest(b);
      GreatestIsUnique(Survivor(a), Survivor(b), a);
    }
  }

  lemma PermutationKeepsDistinct(a: seq<Item>, b: seq<Item>)
    requires DistinctKeys(a) && multiset(a) == multiset(b)
    ensures DistinctKeys(b)
  {
    forall i, j | 0 <= i < j < |b|
      ensures !SameKey(b[i], b[j])
    {
      if b[i] == b[j] {
        TwiceCountsTwo(b, i, j);
        DistinctCountsOne(a, b[i]);
        assert false;
      } else {
        assert b[i] in multiset(a) && b[j] in multiset(a);
        var k :| 0 <= k < |a| && a[k] == b[i];
        var l :| 0 <= l < |a| && a[l] == b[j];
        assert k < l ==> !SameKey(a[k], a[l]);
        assert l < k ==> !SameKey(a[l], a[k]);
      }
    }
  }

  lemma TwiceCountsTwo(s: seq<Item>, i: nat, j: nat)
    requires i < j < |s| && s[i] == s[j]
    ensures multiset(s)[s[i]] >= 2
  {
    assert s == s[..j] + s[j..];
    assert s[i] == s[..j][i] && s[i] == s[j..][0];
    assert s[i] in multiset(s[..j]) && s[i] in multiset(s[j..]);
  }

  lemma {:induction false} DistinctCountsOne(s: seq<Item>, x: Item)
    requires DistinctKeys(s)
    ensures multiset(s)[x] <= 1
  {
    if s != [] {
      var n := |s| - 1;
      DistinctCountsOne(s[..n], x);
      assert s == s[..n] + [s[n]];
      assert forall i :: 0 <= i < n ==> !SameKey(s[i], s[n]) && s[..n][i] == s[i];
      assert s[n] !in s[..n];
    }
  }
}
