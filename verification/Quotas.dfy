/** The member quota and the device limit over every run. */
module Quotas {
  import opened Wrappers
  import opened AuthModel
  import opened AuthRuns

  // ---- Members ----

  /** Rows of users, devices and invites appear with the vault; from then on a user is active and the quota holds. */
  ghost predicate QuotaInvariant(w: World) {
    if w.db.vault.None? then
      w.db.users == map[] && w.db.invites == map[]
    else
      && |ActiveUsers(w.db)| + |ActiveInvites(w.db, w.now)| <= w.db.vault.value.maxUsers
      && 1 <= |ActiveUsers(w.db)|
  }

  lemma SubsetSize<T>(a: set<T>, b: set<T>)
    requires a <= b
    ensures |a| <= |b|
  {
    assert b == a + (b - a);
  }

  lemma InviteKeepsQuota(w: World, a: Action)
    requires QuotaInvariant(w) && a.CreateInvite? && Admissible(w, a)
    ensures QuotaInvariant(Step(w, a))
  {
    var (db, reply) := AuthModel.CreateInvite(w.db, a.code, a.sampledAt, a.ttlHours);
    if reply.Done? {
      assert ActiveUsers(db) == ActiveUsers(w.db);
      SubsetSize(ActiveInvites(w.db, w.now), ActiveInvites(w.db, a.sampledAt));
      SubsetSize(ActiveInvites(db, w.now), ActiveInvites(w.db, w.now) + {a.code});
    }
  }

  /** Redeeming turns one active invite into one active user. */
  lemma RedeemConserves(w: World, a: Action)
    requires a.RedeemInvite?
    requires AuthModel.RedeemInvite(w.db, a.code, a.login, a.user, a.device, a.hash, w.now).1.Done?
    ensures |ActiveUsers(Step(w, a).db)| == |ActiveUsers(w.db)| + 1
    ensures |ActiveInvites(Step(w, a).db, w.now)| == |ActiveInvites(w.db, w.now)| - 1
  {
    var db := Step(w, a).db;
    assert ActiveUsers(db) == ActiveUsers(w.db) + {a.user};
    assert ActiveInvites(w.db, w.now) == ActiveInvites(db, w.now) + {a.code};
    assert a.code !in ActiveInvites(db, w.now);
  }

  lemma RemovalKeepsQuota(w: World, target: UserId)
    requires QuotaInvariant(w)
    ensures QuotaInvariant(Step(w, RemoveMember(target)))
  {
    var (db, reply) := AuthModel.RemoveMember(w.db, target);
    if reply.Done? {
      assert ActiveUsers(db) == ActiveUsers(w.db) - {target};
      assert ActiveInvites(db, w.now) == ActiveInvites(w.db, w.now);
    }
  }

  lemma BootstrapKeepsQuota(w: World, a: Action)
    requires QuotaInvariant(w) && a.Bootstrap?
    ensures QuotaInvariant(Step(w, a))
  {
    var db := Step(w, a).db;
    if db != w.db {
      assert ActiveUsers(w.db) == {};
      assert ActiveUsers(db) == {a.user};
      assert ActiveInvites(db, w.now) == {};
    }
  }

  /** Nothing that leaves users and invites alone and only loses open invites can break the quota. */
  lemma FewerInvitesKeepQuota(w: World, v: World)
    requires QuotaInvariant(w)
    requires v.db.vault == w.db.vault && v.db.users == w.db.users && v.now >= w.now
    requires forall c :: c in v.db.invites ==> c in w.db.invites && v.db.invites[c] == w.db.invites[c]
    ensures QuotaInvariant(v)
  {
    assert ActiveUsers(v.db) == ActiveUsers(w.db);
    SubsetSize(ActiveInvites(v.db, v.now), ActiveInvites(w.db, w.now));
  }

  lemma OtherStepKeepsQuota(w: World, a: Action)
    requires QuotaInvariant(w)
    requires !a.Bootstrap? && !a.CreateInvite? && !a.RedeemInvite? && !a.RemoveMember?
    ensures QuotaInvariant(Step(w, a))
  {
    FewerInvitesKeepQuota(w, Step(w, a));
  }

  lemma StepKeepsQuota(w: World, a: Action)
    requires QuotaInvariant(w) && Admissible(w, a)
    ensures QuotaInvariant(Step(w, a))
  {
    match a
    case Bootstrap(_, _, _, _, _) => BootstrapKeepsQuota(w, a);
    case CreateInvite(_, _, _) => InviteKeepsQuota(w, a);
    case RedeemInvite(_, _, _, _, _) =>
      if AuthModel.RedeemInvite(w.db, a.code, a.login, a.user, a.device, a.hash, w.now).1.Done? {
        RedeemConserves(w, a);
      }
    case RemoveMember(target) => RemovalKeepsQuota(w, target);
    case _ => OtherStepKeepsQuota(w, a);
  }

  /**
   Main result: in every reachable state, active users and open invites together stay within the
   quota, and once there is a vault somebody in it is active.
   */
  lemma {:induction false} QuotaHolds(now: int, actions: seq<Action>)
    requires AdmissibleRun(Start(now), actions)
    ensures QuotaInvariant(Run(Start(now), actions))
  {
    if actions != [] {
      QuotaHolds(now, actions[..|actions| - 1]);
      StepKeepsQuota(Run(Start(now), actions[..|actions| - 1]), actions[|actions| - 1]);
    }
  }

  /** Hence whoever holds a valid invite is never turned away for the quota. */
  lemma NoQuotaRefusal(w: World, code: Code, login: string, user: UserId, device: DeviceId, hash: Hash)
    requires QuotaInvariant(w)
    ensures AuthModel.RedeemInvite(w.db, code, login, user, device, hash, w.now).1 != QuotaReached
  {
    if code in w.db.invites && w.db.invites[code].usedAt.None? && w.db.invites[code].expiresAt > w.now {
      SubsetSize({code}, ActiveInvites(w.db, w.now));
    }
  }

  lemma ValidInviteMeetsNoQuota(now: int, actions: seq<Action>, code: Code, login: string, user: UserId, device: DeviceId, hash: Hash)
    requires AdmissibleRun(Start(now), actions)
    ensures var w := Run(Start(now), actions);
            AuthModel.RedeemInvite(w.db, code, login, user, device, hash, w.now).1 != QuotaReached
  {
    QuotaHolds(now, actions);
    NoQuotaRefusal(Run(Start(now), actions), code, login, user, device, hash);
  }

  // ---- Devices ----

  /** The users with an active device. */
  function Holders(db: Db): set<UserId> {
    set d | d in db.devices && !db.devices[d].revoked :: db.devices[d].user
  }

  function DevicesOf(db: Db, user: UserId): set<DeviceId> {
    set d | d in db.devices && !db.devices[d].revoked && db.devices[d].user == user
  }

  /** Active devices beyond the first of each user who has one. */
  function SpareDevices(db: Db): int {
    |ActiveDevices(db)| - |Holders(db)|
  }

  function SpareOf(db: Db, user: UserId): nat {
    if DevicesOf(db, user) == {} then 0 else |DevicesOf(db, user)| - 1
  }

  /** The same number as a sum over users. */
  ghost function SumOfSpares(db: Db, users: set<UserId>): nat {
    if users == {} then 0
    else
      var u :| u in users;
      SpareOf(db, u) + SumOfSpares(db, users - {u})
  }

  function ActiveAmong(db: Db, users: set<UserId>): set<DeviceId> {
    set d | d in db.devices && !db.devices[d].revoked && db.devices[d].user in users
  }

  lemma HoldersHaveDevices(db: Db, u: UserId)
    ensures u in Holders(db) <==> DevicesOf(db, u) != {}
  {
    if u in Holders(db) {
      var d :| d in db.devices && !db.devices[d].revoked && db.devices[d].user == u;
      assert d in DevicesOf(db, u);
    }
    if DevicesOf(db, u) != {} {
      var d :| d in DevicesOf(db, u);
      assert db.devices[d].user in Holders(db);
    }
  }

  lemma OneUserLess(db: Db, users: set<UserId>, u: UserId)
    requires u in users
    ensures |ActiveAmong(db, users)| == |ActiveAmong(db, users - {u})| + |DevicesOf(db, u)|
    ensures |Holders(db) * users| == |Holders(db) * (users - {u})| + if DevicesOf(db, u) == {} then 0 else 1
  {
    assert ActiveAmong(db, users) == ActiveAmong(db, users - {u}) + DevicesOf(db, u);
    HoldersHaveDevices(db, u);
    WithoutOne(Holders(db), users, u);
  }

  lemma WithoutOne(a: set<UserId>, b: set<UserId>, u: UserId)
    requires u in b
    ensures |a * b| == |a * (b - {u})| + if u in a then 1 else 0
  {
    assert a * b == a * (b - {u}) + if u in a then {u} else {};
  }

  lemma {:induction false} SparesAddUp(db: Db, users: set<UserId>)
    ensures SumOfSpares(db, users) == |ActiveAmong(db, users)| - |Holders(db) * users|
  {
    if users == {} {
      assert ActiveAmong(db, users) == {};
    } else {
      var u :| u in users && SumOfSpares(db, users) == SpareOf(db, u) + SumOfSpares(db, users - {u});
      SparesAddUp(db, users - {u});
      OneUserLess(db, users, u);
      assert SpareOf(db, u) == |DevicesOf(db, u)| - (if DevicesOf(db, u) == {} then 0 else 1);
    }
  }

  ghost predicate DeviceInvariant(db: Db) {
    SpareDevices(db) <= MAX_ACTIVE_DEVICES - 1
  }

  /** The foreign key of `devices`. Users are never deleted. */
  ghost predicate OwnersExist(db: Db) {
    forall d :: d in db.devices ==> db.devices[d].user in db.users
  }

  lemma StepKeepsOwners(w: World, a: Action)
    requires OwnersExist(w.db)
    ensures OwnersExist(Step(w, a).db)
  {
    if a.Finish? && a.slot in w.pending {
      FinishKeepsOwners(w.db, w.pending[a.slot], a.hash);
    }
  }

  lemma FinishKeepsOwners(db: Db, p: Pending, hash: Hash)
    requires OwnersExist(db)
    ensures OwnersExist(FinishDb(db, p, hash))
  {
  }

  lemma CreateCounts(db: Db, id: DeviceId, user: UserId, hash: Hash)
    requires id !in db.devices
    ensures var made := CreateDevice(db, id, user, hash).0;
            && |ActiveDevices(made)| == |ActiveDevices(db)| + 1
            && Holders(made) == Holders(db) + {user}
  {
    var made := CreateDevice(db, id, user, hash).0;
    assert ActiveDevices(made) == ActiveDevices(db) + {id};
    forall d | d in db.devices && !db.devices[d].revoked
      ensures db.devices[d].user in Holders(made)
    {
      assert d in made.devices && made.devices[d] == db.devices[d];
    }
    assert id in made.devices && user in Holders(made);
  }

  lemma RevokeAllCounts(db: Db, user: UserId)
    ensures var after := db.(devices := RevokeAll(db.devices, user));
            && |ActiveDevices(after)| == |ActiveDevices(db)| - |DevicesOf(db, user)|
            && Holders(after) == Holders(db) - {user}
            && (user in Holders(db) <==> |DevicesOf(db, user)| >= 1)
  {
    var after := db.(devices := RevokeAll(db.devices, user));
    assert ActiveDevices(db) == ActiveDevices(after) + DevicesOf(db, user);
    forall u | u in Holders(db) && u != user
      ensures u in Holders(after)
    {
      var d :| d in db.devices && !db.devices[d].revoked && db.devices[d].user == u;
      assert d in after.devices && after.devices[d] == db.devices[d];
    }
    HoldersHaveDevices(db, user);
  }

  lemma RevokeOneCounts(db: Db, d: DeviceId)
    ensures SpareDevices(RevokeOne(db, d)) <= SpareDevices(db)
    ensures |ActiveDevices(RevokeOne(db, d))| <= |ActiveDevices(db)|
  {
    var after := RevokeOne(db, d);
    if d in ActiveDevices(db) {
      var user := db.devices[d].user;
      assert ActiveDevices(db) == ActiveDevices(after) + {d};
      forall u | u in Holders(db) && u != user
        ensures u in Holders(after)
      {
        var e :| e in db.devices && !db.devices[e].revoked && db.devices[e].user == u;
        assert e in after.devices && after.devices[e] == db.devices[e];
      }
      if user !in Holders(after) {
        assert Holders(db) == Holders(after) + {user};
      } else {
        assert Holders(db) == Holders(after);
      }
    } else {
      assert after.devices == db.devices;
    }
  }

  /** Same owners and flags: same counts. */
  lemma SameActivity(db: Db, after: Db)
    requires after.devices.Keys == db.devices.Keys
    requires forall d :: d in db.devices ==>
               after.devices[d].user == db.devices[d].user && after.devices[d].revoked == db.devices[d].revoked
    ensures ActiveDevices(after) == ActiveDevices(db) && Holders(after) == Holders(db)
  {
    assert forall d :: d in ActiveDevices(db) <==> d in ActiveDevices(after);
    forall u
      ensures u in Holders(db) <==> u in Holders(after)
    {
      if u in Holders(db) {
        var d :| d in db.devices && !db.devices[d].revoked && db.devices[d].user == u;
        assert d in after.devices;
      }
      if u in Holders(after) {
        var d :| d in after.devices && !after.devices[d].revoked && after.devices[d].user == u;
        assert d in db.devices;
      }
    }
  }

  /** A device made under the limit leaves at most nine spare ones. */
  lemma CreateUnderLimit(db: Db, id: DeviceId, user: UserId, hash: Hash)
    requires |ActiveDevices(db)| < MAX_ACTIVE_DEVICES && id !in db.devices
    ensures var made := CreateDevice(db, id, user, hash).0;
            DeviceInvariant(made) && |ActiveDevices(made)| <= MAX_ACTIVE_DEVICES
  {
    CreateCounts(db, id, user, hash);
    SubsetSize({user}, Holders(CreateDevice(db, id, user, hash).0));
  }

  lemma BackIn(users: set<UserId>, user: UserId)
    ensures |users - {user} + {user}| == |users| + if user in users then 0 else 1
  {
    assert users - {user} + {user} == users + {user};
  }

  /** A recovery leaves its user exactly one active device, whatever the count was before. */
  lemma RecoveryCounts(db: Db, user: UserId, device: DeviceId, hash: Hash)
    requires AuthModel.RecoveryRedeem(db, user, device, hash).1.Done?
    ensures var after := AuthModel.RecoveryRedeem(db, user, device, hash).0;
            && |ActiveDevices(after)| == |ActiveDevices(db)| - |DevicesOf(db, user)| + 1
            && |Holders(after)| == |Holders(db)| + if DevicesOf(db, user) == {} then 1 else 0
  {
    RevokeAllCounts(db, user);
    CreateCounts(db.(devices := RevokeAll(db.devices, user)), device, user, hash);
    BackIn(Holders(db), user);
  }

  /** So from within the limit it exceeds it exactly when ten devices are active and none is the user's. */
  lemma RecoveryExceedsLimitIff(db: Db, user: UserId, device: DeviceId, hash: Hash)
    requires |ActiveDevices(db)| <= MAX_ACTIVE_DEVICES
    requires AuthModel.RecoveryRedeem(db, user, device, hash).1.Done?
    ensures |ActiveDevices(AuthModel.RecoveryRedeem(db, user, device, hash).0)| > MAX_ACTIVE_DEVICES <==>
            |ActiveDevices(db)| == MAX_ACTIVE_DEVICES && DevicesOf(db, user) == {}
  {
    RecoveryCounts(db, user, device, hash);
  }

  lemma LoginKeepsLimits(db: Db, user: UserId, wanted: DeviceId, generated: DeviceId, hash: Hash)
    requires DeviceInvariant(db)
    ensures var after := AuthModel.Login(db, user, wanted, generated, hash).0;
            && DeviceInvariant(after)
            && (|ActiveDevices(db)| <= MAX_ACTIVE_DEVICES ==> |ActiveDevices(after)| <= MAX_ACTIVE_DEVICES)
  {
    var (after, reply) := AuthModel.Login(db, user, wanted, generated, hash);
    if after != db {
      if wanted != "" && wanted in db.devices && db.devices[wanted].user == user {
        SameActivity(db, after);
      } else {
        CreateUnderLimit(db, if wanted != "" then wanted else generated, user, hash);
      }
    }
  }

  lemma FinishKeepsLimits(db: Db, p: Pending, hash: Hash)
    requires DeviceInvariant(db)
    ensures var after := FinishDb(db, p, hash);
            && DeviceInvariant(after)
            && |ActiveDevices(after)| <= |ActiveDevices(db)|
  {
    match p
    case Rotating(device, user, presented) =>
      SameActivity(db, FinishDb(db, p, hash));
    case RevokingAll(user) =>
      RevokeAllLowers(db, user);
    case LoggingOut(device) =>
      RevokeOneCounts(db, device);
  }

  lemma RevokeAllLowers(db: Db, user: UserId)
    ensures var after := db.(devices := RevokeAll(db.devices, user));
            SpareDevices(after) <= SpareDevices(db) && |ActiveDevices(after)| <= |ActiveDevices(db)|
  {
    RevokeAllCounts(db, user);
    if user in Holders(db) {
      assert Holders(db) == Holders(db) - {user} + {user};
    } else {
      assert Holders(db) == Holders(db) - {user};
    }
  }

  lemma RedeemKeepsLimits(w: World, a: Action)
    requires DeviceInvariant(w.db) && a.RedeemInvite?
    ensures DeviceInvariant(Step(w, a).db)
    ensures |ActiveDevices(w.db)| <= MAX_ACTIVE_DEVICES ==> |ActiveDevices(Step(w, a).db)| <= MAX_ACTIVE_DEVICES
  {
    if AuthModel.RedeemInvite(w.db, a.code, a.login, a.user, a.device, a.hash, w.now).1.Done? {
      var after := Step(w, a).db;
      var base := w.db.(invites := after.invites, users := after.users);
      SameActivity(w.db, base);
      CreateUnderLimit(base, a.device, a.user, a.hash);
    }
  }

  lemma BootstrapKeepsLimits(w: World, a: Action)
    requires DeviceInvariant(w.db) && OwnersExist(w.db) && a.Bootstrap?
    ensures DeviceInvariant(Step(w, a).db)
    ensures |ActiveDevices(w.db)| <= MAX_ACTIVE_DEVICES ==> |ActiveDevices(Step(w, a).db)| <= MAX_ACTIVE_DEVICES
  {
    var db, after := w.db, Step(w, a).db;
    if after != db {
      var base := db.(vault := after.vault, users := after.users);
      assert base.devices == map[];
      assert ActiveDevices(base) == {};
      CreateUnderLimit(base, a.device, a.user, a.hash);
    }
  }

  lemma RemovalKeepsLimits(w: World, target: UserId)
    requires DeviceInvariant(w.db)
    ensures DeviceInvariant(Step(w, RemoveMember(target)).db)
    ensures |ActiveDevices(Step(w, RemoveMember(target)).db)| <= |ActiveDevices(w.db)|
  {
    var db, after := w.db, Step(w, RemoveMember(target)).db;
    if after != db {
      RevokeAllLowers(db, target);
      SameActivity(db.(devices := RevokeAll(db.devices, target)), after);
    }
  }

  lemma RecoveryKeepsSpares(w: World, a: Action)
    requires DeviceInvariant(w.db) && a.RecoveryRedeem?
    ensures DeviceInvariant(Step(w, a).db)
  {
    if AuthModel.RecoveryRedeem(w.db, a.user, a.device, a.hash).1.Done? {
      RecoveryCounts(w.db, a.user, a.device, a.hash);
    }
  }

  lemma StepKeepsLimits(w: World, a: Action)
    requires DeviceInvariant(w.db) && OwnersExist(w.db)
    ensures DeviceInvariant(Step(w, a).db)
    ensures |ActiveDevices(w.db)| <= MAX_ACTIVE_DEVICES && !a.RecoveryRedeem? ==>
              |ActiveDevices(Step(w, a).db)| <= MAX_ACTIVE_DEVICES
  {
    match a
    case Bootstrap(_, _, _, _, _) => BootstrapKeepsLimits(w, a);
    case RedeemInvite(_, _, _, _, _) => RedeemKeepsLimits(w, a);
    case RemoveMember(target) => RemovalKeepsLimits(w, target);
    case Login(user, wanted, generated, hash) => LoginKeepsLimits(w.db, user, wanted, generated, hash);
    case Finish(slot, hash) =>
      if slot in w.pending {
        FinishKeepsLimits(w.db, w.pending[slot], hash);
      }
    case RecoveryRedeem(_, _, _) => RecoveryKeepsSpares(w, a);
    case _ => SameActivity(w.db, Step(w, a).db);
  }

  lemma {:induction false} LimitsHold(now: int, actions: seq<Action>)
    ensures DeviceInvariant(Run(Start(now), actions).db) && OwnersExist(Run(Start(now), actions).db)
    ensures (forall k :: 0 <= k < |actions| ==> !actions[k].RecoveryRedeem?) ==>
              |ActiveDevices(Run(Start(now), actions).db)| <= MAX_ACTIVE_DEVICES
  {
    if actions == [] {
      assert ActiveDevices(EMPTY_DB) == {};
    } else {
      var n := |actions| - 1;
      LimitsHold(now, actions[..n]);
      StepKeepsOwners(Run(Start(now), actions[..n]), actions[n]);
      StepKeepsLimits(Run(Start(now), actions[..n]), actions[n]);
    }
  }

  /**
   Main result: without a recovery the limit of ten holds in every run. A recovery makes its
   device without looking at the limit; with recoveries, what every run keeps is that the devices
   beyond each user's first sum to at most nine, so the active devices number at most nine more
   than the users who have one.
   */
  lemma DeviceLimitHolds(now: int, actions: seq<Action>)
    ensures var db := Run(Start(now), actions).db;
            && SumOfSpares(db, db.users.Keys) <= 9
            && |ActiveDevices(db)| <= 9 + |Holders(db)|
            && ((forall k :: 0 <= k < |actions| ==> !actions[k].RecoveryRedeem?) ==> |ActiveDevices(db)| <= 10)
  {
    var db := Run(Start(now), actions).db;
    LimitsHold(now, actions);
    SparesAddUp(db, db.users.Keys);
    assert ActiveAmong(db, db.users.Keys) == ActiveDevices(db);
    assert Holders(db) * db.users.Keys == Holders(db);
  }
}
