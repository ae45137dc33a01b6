/**
 The authentication and membership endpoints on the tables, updated in place.

 Each method is one step of `AuthRuns`: a request that reads before its transaction has a method
 for either, and between the two any others may be called. So the server is in a reachable state
 at all times, and `Valid` is what such states satisfy.
 */
module AuthServer {
  import opened Wrappers
  import opened AuthModel
  import opened AuthRuns
  import AuthValid
  import Quotas
  import Sessions
  import Ascii

  class AuthTables {
    var vault: Option<VaultRow>
    var users: map<UserId, User>
    var devices: map<DeviceId, Device>
    var invites: map<Code, Invite>
    var retired: map<Hash, UserId>

    /** Requests between their reads and their transaction. */
    var pending: map<nat, Pending>
    var clock: int
    ghost var issued: set<Hash>

    ghost function Rows(): Db
      reads this
    {
      Db(vault, users, devices, invites, retired)
    }

    ghost function World(): World
      reads this
    {
      AuthRuns.World(Rows(), clock, pending, issued)
    }

    ghost predicate Valid()
      reads this
    {
      AuthValid.Valid(World())
    }

    constructor (now: int)
      ensures Valid() && World() == Start(now)
    {
      vault, users, devices, invites, retired := None, map[], map[], map[], map[];
      pending, clock, issued := map[], now, {};
      AuthValid.StartIsValid(now);
    }

    // ---- Rows ----

    method CountActiveUsers() returns (n: nat)
      ensures n == |ActiveUsers(Rows())|
    {
      n := |set u | u in users && !users[u].disabled|;
    }

    method CountActiveDevices() returns (n: nat)
      ensures n == |ActiveDevices(Rows())|
    {
      n := |set d | d in devices && !devices[d].revoked|;
    }

    method CountActiveInvites(now: int) returns (n: nat)
      ensures n == |ActiveInvites(Rows(), now)|
    {
      n := |set c | c in invites && invites[c].usedAt.None? && invites[c].expiresAt > now|;
    }

    method GetUserByLogin(login: string) returns (user: Option<UserId>)
      ensures user.Some? <==> LoginExists(Rows(), login)
      ensures user.Some? ==>
                user.value in users && Ascii.ToLower(users[user.value].login) == Ascii.ToLower(login)
    {
      if exists u :: u in users && Ascii.ToLower(users[u].login) == Ascii.ToLower(login) {
        var u :| u in users && Ascii.ToLower(users[u].login) == Ascii.ToLower(login);
        user := Some(u);
      } else {
        user := None;
      }
    }

    /** At most one device holds a hash, so it is the one. */
    method GetDeviceByRefreshHash(hash: Hash) returns (device: Option<DeviceId>)
      requires Valid()
      ensures forall d :: Holds(Rows(), d, hash) <==> device == Some(d)
    {
      if exists d :: d in devices && devices[d].hash == hash {
        var d :| d in devices && devices[d].hash == hash;
        device := Some(d);
      } else {
        device := None;
      }
    }

    /** A device id already taken violates the primary key, and the insert fails. */
    method InsertDevice(id: DeviceId, user: UserId, hash: Hash) returns (inserted: bool)
      modifies this`devices
      ensures inserted == (id !in old(devices))
      ensures Rows() == CreateDevice(old(Rows()), id, user, hash).0
    {
      inserted := id !in devices;
      if inserted {
        devices := devices[id := Device(user, hash, false)];
      }
    }

    method UpdateDeviceRefreshHash(id: DeviceId, hash: Hash)
      modifies this`devices
      ensures Rows() == SetHash(old(Rows()), id, hash)
    {
      if id in devices {
        devices := devices[id := devices[id].(hash := hash)];
      }
    }

    method RevokeDevice(id: DeviceId)
      modifies this`devices
      ensures Rows() == RevokeOne(old(Rows()), id)
    {
      if id in devices {
        devices := devices[id := devices[id].(revoked := true)];
      }
    }

    method RevokeAllUserDevices(user: UserId)
      modifies this`devices
      ensures devices == RevokeAll(old(devices), user)
    {
      devices := map d | d in devices :: devices[d].(revoked := devices[d].revoked || devices[d].user == user);
    }

    method RetireRefreshHash(user: UserId, hash: Hash)
      modifies this`retired
      ensures Rows() == Retire(old(Rows()), hash, user)
    {
      if hash !in retired {
        retired := retired[hash := user];
      }
    }

    /** Consumes an invite only if nobody has. */
    method MarkInviteUsed(code: Code, now: int) returns (consumed: bool)
      modifies this`invites
      ensures consumed == (code in old(invites) && old(invites)[code].usedAt.None?)
      ensures invites == if consumed then old(invites)[code := old(invites)[code].(usedAt := Some(now))] else old(invites)
    {
      consumed := code in invites && invites[code].usedAt.None?;
      if consumed {
        invites := invites[code := invites[code].(usedAt := Some(now))];
      }
    }

    method InsertUser(id: UserId, login: string) returns (inserted: bool)
      modifies this`users
      ensures inserted == (id !in old(users))
      ensures users == if inserted then old(users)[id := User(login, false)] else old(users)
    {
      inserted := id !in users;
      if inserted {
        users := users[id := User(login, false)];
      }
    }

    // ---- Transactions; an error inside one puts back what it had changed ----

    method BootstrapTransaction(vaultId: VaultId, user: UserId, device: DeviceId, login: string, hash: Hash) returns (reply: Reply)
      modifies this`vault, this`users, this`devices
      ensures (Rows(), reply) == AuthModel.Bootstrap(old(Rows()), vaultId, user, device, login, hash)
    {
      if |users| > 0 {
        return AlreadyBootstrapped;
      }
      var vaultBefore, usersBefore := vault, users;
      vault := Some(VaultRow(vaultId, BOOTSTRAP_MAX_USERS));
      var userMade := InsertUser(user, login);
      var deviceMade := InsertDevice(device, user, hash);
      if !userMade || !deviceMade {
        vault, users := vaultBefore, usersBefore;
        return Internal;
      }
      reply := Done;
    }

    method RedeemTransaction(code: Code, login: string, user: UserId, device: DeviceId, hash: Hash) returns (reply: Reply)
      requires login != ""
      modifies this`invites, this`users, this`devices
      ensures (Rows(), reply) == AuthModel.RedeemInvite(old(Rows()), code, login, user, device, hash, clock)
    {
      if code !in invites {
        return NotFound;
      }
      if invites[code].usedAt.Some? || invites[code].expiresAt <= clock {
        return Gone;
      }
      if vault.None? {
        return Internal;
      }
      var activeUsers := CountActiveUsers();
      if activeUsers >= vault.value.maxUsers {
        return QuotaReached;
      }
      var taken := GetUserByLogin(login);
      if taken.Some? {
        return LoginTaken;
      }
      var activeDevices := CountActiveDevices();
      if activeDevices >= MAX_ACTIVE_DEVICES {
        return DeviceLimit;
      }
      var invitesBefore, usersBefore := invites, users;
      var consumed := MarkInviteUsed(code, clock);
      if !consumed {
        return Gone;
      }
      var userMade := InsertUser(user, login);
      if !userMade {
        invites := invitesBefore;
        return Internal;
      }
      var deviceMade := InsertDevice(device, user, hash);
      if !deviceMade {
        invites, users := invitesBefore, usersBefore;
        return Internal;
      }
      reply := Done;
    }

    method RemoveTransaction(target: UserId) returns (reply: Reply)
      modifies this`users, this`devices
      ensures (Rows(), reply) == AuthModel.RemoveMember(old(Rows()), target)
    {
      if target !in users {
        return NotFound;
      }
      if !users[target].disabled {
        var activeUsers := CountActiveUsers();
        if activeUsers <= 1 {
          return LastMember;
        }
      }
      users := users[target := users[target].(disabled := true)];
      RevokeAllUserDevices(target);
      reply := Done;
    }

    method LoginTransaction(user: UserId, wanted: DeviceId, generated: DeviceId, hash: Hash) returns (reply: Reply)
      requires user in users
      modifies this`devices
      ensures (Rows(), reply) == AuthModel.Login(old(Rows()), user, wanted, generated, hash)
    {
      if wanted != "" && wanted in devices && devices[wanted].user == user {
        UpdateDeviceRefreshHash(wanted, hash);
        return Done;
      }
      var count := CountActiveDevices();
      if count >= MAX_ACTIVE_DEVICES {
        return DeviceLimit;
      }
      var made := InsertDevice(if wanted != "" then wanted else generated, user, hash);
      reply := if made then Done else Internal;
    }

    /** And the reply: the account of a refresh is looked up once more after it. */
    method FinishTransaction(p: Pending, hash: Hash) returns (reply: Reply)
      modifies this`devices, this`retired
      ensures Rows() == FinishDb(old(Rows()), p, hash)
      ensures reply == if p.RevokingAll? || (p.Rotating? && p.user !in users) then Unauthorized else Done
    {
      match p
      case Rotating(device, user, presented) =>
        RetireRefreshHash(user, presented);
        UpdateDeviceRefreshHash(device, hash);
        reply := if user in users then Done else Unauthorized;
      case RevokingAll(user) =>
        RevokeAllUserDevices(user);
        reply := Unauthorized;
      case LoggingOut(device) =>
        RevokeDevice(device);
        reply := Done;
    }

    method RecoveryTransaction(user: UserId, device: DeviceId, hash: Hash) returns (reply: Reply)
      modifies this`devices
      ensures (Rows(), reply) == AuthModel.RecoveryRedeem(old(Rows()), user, device, hash)
    {
      if user !in users {
        return Unauthorized;
      }
      var devicesBefore := devices;
      RevokeAllUserDevices(user);
      var made := InsertDevice(device, user, hash);
      if !made {
        devices := devicesBefore;
        return Internal;
      }
      reply := Done;
    }

    // ---- Membership endpoints ----

    method Tick(seconds: nat)
      requires Valid()
      modifies this`clock
      ensures Valid() && World() == Step(old(World()), AuthRuns.Tick(seconds))
    {
      AuthValid.StepKeepsValid(World(), AuthRuns.Tick(seconds));
      clock := clock + seconds;
    }

    method Bootstrap(vaultId: VaultId, user: UserId, device: DeviceId, login: string, hash: Hash) returns (reply: Reply)
      requires Valid() && hash !in issued
      modifies this
      ensures Valid() && World() == Step(old(World()), AuthRuns.Bootstrap(vaultId, user, device, login, hash))
      ensures Some(reply) == Answer(old(World()), AuthRuns.Bootstrap(vaultId, user, device, login, hash))
    {
      AuthValid.StepKeepsValid(World(), AuthRuns.Bootstrap(vaultId, user, device, login, hash));
      issued := issued + {hash};
      reply := BootstrapTransaction(vaultId, user, device, login, hash);
    }

    /** `sampledAt` is the clock as read before the transaction. */
    method CreateInvite(code: Code, sampledAt: int, ttlHours: int) returns (reply: Reply)
      requires Valid() && sampledAt <= clock
      modifies this`invites
      ensures Valid() && World() == Step(old(World()), AuthRuns.CreateInvite(code, sampledAt, ttlHours))
      ensures Some(reply) == Answer(old(World()), AuthRuns.CreateInvite(code, sampledAt, ttlHours))
    {
      AuthValid.StepKeepsValid(World(), AuthRuns.CreateInvite(code, sampledAt, ttlHours));
      if code == "" || ttlHours <= 0 {
        return BadRequest;
      }
      var expiresAt := sampledAt + ttlHours * 3600;
      if vault.None? {
        return Internal;
      }
      var activeUsers := CountActiveUsers();
      var activeInvites := CountActiveInvites(sampledAt);
      if activeUsers + activeInvites >= vault.value.maxUsers {
        return QuotaReached;
      }
      if code in invites {
        return Internal;
      }
      invites := invites[code := Invite(expiresAt, None)];
      reply := Done;
    }

    /** The quota check is there, and never refuses. */
    method RedeemInvite(code: Code, login: string, user: UserId, device: DeviceId, hash: Hash) returns (reply: Reply)
      requires Valid() && hash !in issued
      modifies this
      ensures Valid() && World() == Step(old(World()), AuthRuns.RedeemInvite(code, login, user, device, hash))
      ensures Some(reply) == Answer(old(World()), AuthRuns.RedeemInvite(code, login, user, device, hash))
      ensures reply != QuotaReached
    {
      AuthValid.StepKeepsValid(World(), AuthRuns.RedeemInvite(code, login, user, device, hash));
      Quotas.NoQuotaRefusal(World(), code, login, user, device, hash);
      issued := issued + {hash};
      if login == "" {
        return BadRequest;
      }
      reply := RedeemTransaction(code, login, user, device, hash);
    }

    method DeleteInvite(code: Code) returns (reply: Reply)
      requires Valid()
      modifies this`invites
      ensures Valid() && World() == Step(old(World()), AuthRuns.DeleteInvite(code))
      ensures Some(reply) == Answer(old(World()), AuthRuns.DeleteInvite(code))
    {
      AuthValid.StepKeepsValid(World(), AuthRuns.DeleteInvite(code));
      if code !in invites {
        return NotFound;
      }
      invites := invites - {code};
      reply := Done;
    }

    method RemoveMember(target: UserId) returns (reply: Reply)
      requires Valid()
      modifies this`users, this`devices
      ensures Valid() && World() == Step(old(World()), AuthRuns.RemoveMember(target))
      ensures Some(reply) == Answer(old(World()), AuthRuns.RemoveMember(target))
      ensures reply.Done? ==> Sessions.Removed(Rows(), target)
    {
      Sessions.RemovalLocksOut(World(), target);
      AuthValid.StepKeepsValid(World(), AuthRuns.RemoveMember(target));
      reply := RemoveTransaction(target);
    }

    // ---- Sessions ----

    /** The account a login is for, or why it is turned away before any device is looked at. */
    method FindAccount(login: string, passwordOk: bool) returns (account: Result<UserId, Reply>)
      ensures !LoginExists(Rows(), login) || !passwordOk ==> account == Err(Unauthorized)
      ensures LoginExists(Rows(), login) && passwordOk ==>
                exists u :: u in users && Ascii.ToLower(users[u].login) == Ascii.ToLower(login) &&
                  account == if users[u].disabled then Err(Forbidden) else Ok(u)
    {
      var found := GetUserByLogin(login);
      if found.None? || !passwordOk {
        return Err(Unauthorized);
      }
      account := if users[found.value].disabled then Err(Forbidden) else Ok(found.value);
    }

    /**
     `passwordOk` is the verdict of the password hash on the account found under the login. The
     account's fields are read before the transaction, which looks at the devices only.
     */
    method Login(login: string, passwordOk: bool, wanted: DeviceId, generated: DeviceId, hash: Hash)
      returns (account: Result<UserId, Reply>, reply: Reply)
      requires Valid() && hash !in issued
      modifies this`devices, this`issued
      ensures Valid()
      ensures !LoginExists(old(Rows()), login) || !passwordOk ==> account == Err(Unauthorized)
      ensures LoginExists(old(Rows()), login) && passwordOk ==>
                exists u :: u in users && Ascii.ToLower(users[u].login) == Ascii.ToLower(login) &&
                  account == if users[u].disabled then Err(Forbidden) else Ok(u)
      ensures account.Err? ==> reply == account.error && World() == old(World())
      ensures account.Ok? ==>
                && World() == Step(old(World()), AuthRuns.Login(account.value, wanted, generated, hash))
                && Some(reply) == Answer(old(World()), AuthRuns.Login(account.value, wanted, generated, hash))
    {
      account := FindAccount(login, passwordOk);
      if account.Err? {
        return account, account.error;
      }
      AuthValid.StepKeepsValid(World(), AuthRuns.Login(account.value, wanted, generated, hash));
      issued := issued + {hash};
      reply := LoginTransaction(account.value, wanted, generated, hash);
    }

    /** The reads of a refresh. */
    method DecideRefresh(presented: Hash) returns (decision: Decision)
      requires Valid()
      ensures Decides(Rows(), presented, decision)
    {
      var found := GetDeviceByRefreshHash(presented);
      if found.None? {
        if presented in retired {
          return Reused(retired[presented]);
        }
        return UnknownToken;
      }
      var device := found.value;
      assert Holds(Rows(), device, presented);
      decision := if devices[device].revoked then DeviceRevoked else ToRotate(device, devices[device].user);
    }

    /** They lead to an answer at once, or to a transaction to come. */
    method ReadRefresh(slot: nat, presented: Hash) returns (reply: Option<Reply>, decision: Decision)
      requires Valid() && slot !in pending
      modifies this`pending
      ensures Valid() && Decides(old(Rows()), presented, decision)
      ensures World() == Step(old(World()), RefreshRead(slot, presented, decision))
      ensures reply == Answer(old(World()), RefreshRead(slot, presented, decision))
      ensures reply.None? <==> slot in pending
      ensures reply.Some? ==> reply == Some(Unauthorized)
    {
      decision := DecideRefresh(presented);
      AuthValid.StepKeepsValid(World(), RefreshRead(slot, presented, decision));
      match decision
      case ToRotate(device, user) =>
        pending := pending[slot := Rotating(device, user, presented)];
        reply := None;
      case Reused(user) =>
        pending := pending[slot := RevokingAll(user)];
        reply := None;
      case DeviceRevoked => reply := Some(Unauthorized);
      case UnknownToken => reply := Some(Unauthorized);
    }

    /** A logout whose token is nobody's does nothing; its answer is the same. */
    method ReadLogout(slot: nat, presented: Hash) returns (found: Option<DeviceId>)
      requires Valid() && slot !in pending
      modifies this`pending
      ensures Valid() && forall d :: Holds(old(Rows()), d, presented) <==> found == Some(d)
      ensures World() == if found.None? then old(World()) else Step(old(World()), LogoutRead(slot, found.value))
    {
      found := GetDeviceByRefreshHash(presented);
      if found.Some? {
        assert Holds(Rows(), found.value, presented);
        AuthValid.StepKeepsValid(World(), LogoutRead(slot, found.value));
        pending := pending[slot := LoggingOut(found.value)];
      }
    }

    /** The transaction of a refresh or logout, whatever has happened since its reads. */
    method FinishRequest(slot: nat, hash: Hash) returns (reply: Reply)
      requires Valid() && slot in pending && hash !in issued
      modifies this`devices, this`retired, this`pending, this`issued
      ensures Valid() && World() == Step(old(World()), Finish(slot, hash))
      ensures Some(reply) == Answer(old(World()), Finish(slot, hash))
      ensures Sessions.Finished(Rows(), old(pending)[slot], hash)
      ensures reply == if old(pending)[slot].RevokingAll? then Unauthorized else Done
    {
      ghost var w := World();
      AuthValid.FinishKeepsValid(w, slot, hash);
      reply := FinishTransaction(pending[slot], hash);
      pending := pending - {slot};
      issued := issued + {hash};
      assert World() == AuthValid.AfterFinish(w, slot, hash);
    }

    /** A recovery whose phrase was accepted. */
    method RecoveryRedeem(user: UserId, device: DeviceId, hash: Hash) returns (reply: Reply)
      requires Valid() && hash !in issued
      modifies this`devices, this`issued
      ensures Valid() && World() == Step(old(World()), AuthRuns.RecoveryRedeem(user, device, hash))
      ensures Some(reply) == Answer(old(World()), AuthRuns.RecoveryRedeem(user, device, hash))
    {
      AuthValid.StepKeepsValid(World(), AuthRuns.RecoveryRedeem(user, device, hash));
      issued := issued + {hash};
      reply := RecoveryTransaction(user, device, hash);
    }
  }
}
