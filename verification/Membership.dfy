/** Invites and logins over runs, and which requests succeed. */
module Membership {
  import opened Wrappers
  import opened AuthModel
  import opened AuthRuns
  import Ascii
  import Quotas

  // ---- Logins ----

  ghost predicate LoginsDistinct(db: Db) {
    forall u, v :: u in db.users && v in db.users && u != v ==>
      Ascii.ToLower(db.users[u].login) != Ascii.ToLower(db.users[v].login)
  }

  /** No two users ever have logins that differ only in the case of ASCII letters. */
  lemma StepKeepsLogins(w: World, a: Action)
    requires LoginsDistinct(w.db)
    ensures LoginsDistinct(Step(w, a).db)
  {
    if a.RedeemInvite? {
      RedeemKeepsLogins(w, a);
    } else if a.Finish? && a.slot in w.pending {
      assert FinishDb(w.db, w.pending[a.slot], a.hash).users == w.db.users;
    }
  }

  lemma RedeemKeepsLogins(w: World, a: Action)
    requires LoginsDistinct(w.db) && a.RedeemInvite?
    ensures LoginsDistinct(Step(w, a).db)
  {
    var db := Step(w, a).db;
    if db != w.db {
      assert !LoginExists(w.db, a.login);
      assert db.users == w.db.users[a.user := User(a.login, false)];
    }
  }

  lemma {:induction false} LoginsStayDistinct(now: int, actions: seq<Action>)
    ensures LoginsDistinct(Run(Start(now), actions).db)
  {
    if actions != [] {
      LoginsStayDistinct(now, actions[..|actions| - 1]);
      StepKeepsLogins(Run(Start(now), actions[..|actions| - 1]), actions[|actions| - 1]);
    }
  }

  // ---- The quota in numbers ----

  ghost predicate QuotaIsFive(db: Db) {
    db.vault.Some? ==> db.vault.value.maxUsers == 5
  }

  lemma StepKeepsFive(w: World, a: Action)
    requires QuotaIsFive(w.db)
    ensures QuotaIsFive(Step(w, a).db)
  {
    if a.Finish? && a.slot in w.pending {
      assert FinishDb(w.db, w.pending[a.slot], a.hash).vault == w.db.vault;
    }
  }

  lemma {:induction false} StaysFive(now: int, actions: seq<Action>)
    ensures QuotaIsFive(Run(Start(now), actions).db)
  {
    if actions != [] {
      StaysFive(now, actions[..|actions| - 1]);
      StepKeepsFive(Run(Start(now), actions[..|actions| - 1]), actions[|actions| - 1]);
    }
  }

  /** Users that are enabled and invites that can be redeemed are never more than five together. */
  lemma FiveAtMost(now: int, actions: seq<Action>)
    requires AdmissibleRun(Start(now), actions)
    ensures var w := Run(Start(now), actions);
            |ActiveUsers(w.db)| + |ActiveInvites(w.db, w.now)| <= 5
  {
    var w := Run(Start(now), actions);
    Quotas.QuotaHolds(now, actions);
    StaysFive(now, actions);
    if w.db.vault.None? {
      assert ActiveUsers(w.db) == {} && ActiveInvites(w.db, w.now) == {};
    }
  }

  // ---- One invite ----

  ghost predicate NeverDeletes(actions: seq<Action>, code: Code) {
    forall k :: 0 <= k < |actions| ==> actions[k] != DeleteInvite(code)
  }

  lemma StepKeepsInvite(w: World, a: Action, code: Code)
    requires code in w.db.invites && a != DeleteInvite(code)
    ensures code in Step(w, a).db.invites
    ensures Step(w, a).db.invites[code].expiresAt == w.db.invites[code].expiresAt
    ensures w.db.invites[code].usedAt.Some? ==> Step(w, a).db.invites[code].usedAt.Some?
    ensures w.db.invites[code].usedAt.None? && Step(w, a).db.invites[code].usedAt.Some? ==>
              a.RedeemInvite? && a.code == code && Answer(w, a) == Some(Done)
  {
    if a.Finish? && a.slot in w.pending {
      assert FinishDb(w.db, w.pending[a.slot], a.hash).invites == w.db.invites;
    }
  }

  lemma {:induction false} RunKeepsInvite(w: World, actions: seq<Action>, code: Code)
    requires code in w.db.invites && NeverDeletes(actions, code)
    ensures code in Run(w, actions).db.invites
    ensures Run(w, actions).db.invites[code].expiresAt == w.db.invites[code].expiresAt
    ensures w.db.invites[code].usedAt.Some? ==> Run(w, actions).db.invites[code].usedAt.Some?
  {
    if actions != [] {
      var n := |actions| - 1;
      RunKeepsInvite(w, actions[..n], code);
      assert actions[n] != DeleteInvite(code);
      StepKeepsInvite(Run(w, actions[..n]), actions[n], code);
    }
  }

  /** No redemption of the code goes through in the run. */
  ghost predicate NotRedeemed(w: World, actions: seq<Action>, code: Code) {
    forall k :: 0 <= k < |actions| && actions[k].RedeemInvite? && actions[k].code == code ==>
      Answer(Run(w, actions[..k]), actions[k]) != Some(Done)
  }

  lemma {:induction false} RunKeepsUnused(w: World, actions: seq<Action>, code: Code)
    requires code in w.db.invites && w.db.invites[code].usedAt.None?
    requires NeverDeletes(actions, code) && NotRedeemed(w, actions, code)
    ensures code in Run(w, actions).db.invites && Run(w, actions).db.invites[code].usedAt.None?
  {
    if actions != [] {
      var n := |actions| - 1;
      assert forall k :: 0 <= k < n ==> actions[..n][..k] == actions[..k];
      RunKeepsUnused(w, actions[..n], code);
      assert actions[n] != DeleteInvite(code);
      StepKeepsInvite(Run(w, actions[..n]), actions[n], code);
    }
  }

  /** Main result: an invite is good for one redemption. After one, any other is told it is gone, unless the invite is deleted. */
  lemma InviteIsRedeemedOnce(w: World, a: Action, later: seq<Action>, b: Action)
    requires a.RedeemInvite? && Answer(w, a) == Some(Done)
    requires NeverDeletes(later, a.code)
    requires b.RedeemInvite? && b.code == a.code && b.login != ""
    ensures Answer(Run(Step(w, a), later), b) == Some(Gone)
  {
    RunKeepsInvite(Step(w, a), later, a.code);
  }

  /** An invite made at `sampledAt` is told to be gone, as long as nobody redeems or deletes it, exactly once its hours have passed. */
  lemma InviteExpiresOnTime(w: World, code: Code, sampledAt: int, ttlHours: int, later: seq<Action>, b: Action)
    requires Answer(w, CreateInvite(code, sampledAt, ttlHours)) == Some(Done)
    requires NeverDeletes(later, code) && NotRedeemed(Step(w, CreateInvite(code, sampledAt, ttlHours)), later, code)
    requires b.RedeemInvite? && b.code == code && b.login != ""
    ensures var t := Run(Step(w, CreateInvite(code, sampledAt, ttlHours)), later);
            Answer(t, b) == Some(Gone) <==> sampledAt + ttlHours * 60 * 60 <= t.now
  {
    var v := Step(w, CreateInvite(code, sampledAt, ttlHours));
    RunKeepsInvite(v, later, code);
    RunKeepsUnused(v, later, code);
    assert v.db.invites[code].expiresAt == sampledAt + ttlHours * 60 * 60;
  }

  lemma StepKeepsUnknown(w: World, a: Action, code: Code)
    requires code !in w.db.invites && (a.CreateInvite? ==> a.code != code)
    ensures code !in Step(w, a).db.invites
  {
    if a.Finish? && a.slot in w.pending {
      assert FinishDb(w.db, w.pending[a.slot], a.hash).invites == w.db.invites;
    }
  }

  lemma {:induction false} RunKeepsUnknown(w: World, actions: seq<Action>, code: Code)
    requires code !in w.db.invites
    requires forall k :: 0 <= k < |actions| && actions[k].CreateInvite? ==> actions[k].code != code
    ensures code !in Run(w, actions).db.invites
  {
    if actions != [] {
      var n := |actions| - 1;
      RunKeepsUnknown(w, actions[..n], code);
      assert actions[n].CreateInvite? ==> actions[n].code != code;
      StepKeepsUnknown(Run(w, actions[..n]), actions[n], code);
    }
  }

  /** A deleted invite is unknown until one is made under its code again. */
  lemma DeletedInviteIsUnknown(w: World, code: Code, later: seq<Action>, b: Action)
    requires forall k :: 0 <= k < |later| && later[k].CreateInvite? ==> later[k].code != code
    requires b.RedeemInvite? && b.code == code && b.login != ""
    ensures Answer(Run(Step(w, DeleteInvite(code)), later), b) == Some(NotFound)
  {
    RunKeepsUnknown(Step(w, DeleteInvite(code)), later, code);
  }

  // ---- Which requests succeed ----

  /**
   A redemption in a reachable state succeeds exactly for an open invite, a login not taken and
   fewer than ten active devices; the members' quota does not come into it.
   */
  lemma RedeemSucceedsIff(w: World, a: Action)
    requires Quotas.QuotaInvariant(w) && a.RedeemInvite?
    ensures Answer(w, a) == Some(Done) <==>
            && a.login != ""
            && a.code in w.db.invites && w.db.invites[a.code].usedAt.None? && w.now < w.db.invites[a.code].expiresAt
            && (forall u :: u in w.db.users ==> Ascii.ToLower(w.db.users[u].login) != Ascii.ToLower(a.login))
            && |ActiveDevices(w.db)| < 10
            && a.user !in w.db.users && a.device !in w.db.devices
    ensures Answer(w, a) == Some(BadRequest) ==> a.login == ""
    ensures Answer(w, a) == Some(NotFound) ==> a.code !in w.db.invites
    ensures Answer(w, a) == Some(Gone) ==>
              a.code in w.db.invites && (w.db.invites[a.code].usedAt.Some? || w.db.invites[a.code].expiresAt <= w.now)
    ensures Answer(w, a) == Some(LoginTaken) ==> LoginExists(w.db, a.login)
    ensures Answer(w, a) == Some(DeviceLimit) ==> |ActiveDevices(w.db)| >= 10
    ensures Answer(w, a) != Some(QuotaReached)
  {
    Quotas.NoQuotaRefusal(w, a.code, a.login, a.user, a.device, a.hash);
  }

  /** A success makes exactly the user and the device asked for, and nothing else. */
  lemma RedeemMakes(w: World, a: Action)
    requires a.RedeemInvite? && Answer(w, a) == Some(Done)
    ensures var db := Step(w, a).db;
            && db.users == w.db.users[a.user := User(a.login, false)]
            && db.devices == w.db.devices[a.device := Device(a.user, a.hash, false)]
            && db.invites == w.db.invites[a.code := w.db.invites[a.code].(usedAt := Some(w.now))]
            && db.vault == w.db.vault && db.retired == w.db.retired
  {
  }

  lemma InviteSucceedsIff(w: World, code: Code, sampledAt: int, ttlHours: int)
    ensures Answer(w, CreateInvite(code, sampledAt, ttlHours)) == Some(Done) <==>
            && code != "" && 0 < ttlHours && w.db.vault.Some? && code !in w.db.invites
            && |ActiveUsers(w.db)| + |ActiveInvites(w.db, sampledAt)| < w.db.vault.value.maxUsers
    ensures Answer(w, CreateInvite(code, sampledAt, ttlHours)) == Some(QuotaReached) ==>
              w.db.vault.Some? && |ActiveUsers(w.db)| + |ActiveInvites(w.db, sampledAt)| >= w.db.vault.value.maxUsers
    ensures Answer(w, CreateInvite(code, sampledAt, ttlHours)) == Some(BadRequest) <==> code == "" || ttlHours <= 0
  {
  }

  lemma DeletionSucceedsIff(w: World, code: Code)
    ensures Answer(w, DeleteInvite(code)) == Some(if code in w.db.invites then Done else NotFound)
  {
  }

  /** A member can be removed unless that would leave nobody. */
  lemma RemovalSucceedsIff(w: World, target: UserId)
    ensures Answer(w, RemoveMember(target)) == Some(Done) <==>
            target in w.db.users && (w.db.users[target].disabled || exists u :: u in ActiveUsers(w.db) && u != target)
    ensures Answer(w, RemoveMember(target)) == Some(NotFound) <==> target !in w.db.users
    ensures Answer(w, RemoveMember(target)) == Some(LastMember) <==> ActiveUsers(w.db) == {target}
  {
    if target in w.db.users && !w.db.users[target].disabled {
      assert target in ActiveUsers(w.db);
      var others := ActiveUsers(w.db) - {target};
      assert ActiveUsers(w.db) == others + {target};
      if u :| u in ActiveUsers(w.db) && u != target {
        assert u in others;
      } else {
        assert others == {};
      }
      if |ActiveUsers(w.db)| > 1 {
        assert |others| >= 1;
        var u :| u in others;
        assert u in ActiveUsers(w.db) && u != target;
      }
    }
  }

  /** A login with the right password on a device of one's own needs no room; on a new one it does. */
  lemma LoginSucceedsIff(w: World, user: UserId, wanted: DeviceId, generated: DeviceId, hash: Hash)
    requires user in w.db.users
    ensures var named := wanted != "" && wanted in w.db.devices && w.db.devices[wanted].user == user;
            Answer(w, Login(user, wanted, generated, hash)) == Some(Done) <==>
            named || (|ActiveDevices(w.db)| < 10 && (if wanted != "" then wanted else generated) !in w.db.devices)
    ensures Answer(w, Login(user, wanted, generated, hash)) == Some(DeviceLimit) <==>
            !(wanted != "" && wanted in w.db.devices && w.db.devices[wanted].user == user) && |ActiveDevices(w.db)| >= 10
  {
  }

  lemma RecoverySucceedsIff(w: World, user: UserId, device: DeviceId, hash: Hash)
    ensures Answer(w, RecoveryRedeem(user, device, hash)) == Some(Done) <==> user in w.db.users && device !in w.db.devices
    ensures Answer(w, RecoveryRedeem(user, device, hash)) == Some(Unauthorized) <==> user !in w.db.users
  {
  }

  /** The server is set up once. */
  lemma BootstrapSucceedsIff(w: World, vault: VaultId, user: UserId, device: DeviceId, login: string, hash: Hash)
    requires Quotas.OwnersExist(w.db)
    ensures Answer(w, Bootstrap(vault, user, device, login, hash)) == Some(Done) <==> w.db.users == map[]
    ensures Answer(w, Bootstrap(vault, user, device, login, hash)) == Some(AlreadyBootstrapped) <==> w.db.users != map[]
    ensures w.db.users == map[] ==>
              var db := Step(w, Bootstrap(vault, user, device, login, hash)).db;
              && db.vault == Some(VaultRow(vault, 5))
              && db.users == map[user := User(login, false)]
              && db.devices == map[device := Device(user, hash, false)]
  {
    if w.db.users == map[] {
      assert forall d :: d !in w.db.devices;
      assert w.db.devices == map[];
    }
  }
}
