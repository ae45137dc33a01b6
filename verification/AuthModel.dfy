/**
 Users, devices, invites and refresh token hashes of the one vault a server holds, and what each
 authentication and membership transaction does to them.

 A second vault cannot come to be: `Bootstrap` is the only place that makes one, and it refuses
 as soon as a user exists. So rows carry no vault id here, the vault row does.
 */
module AuthModel {
  import opened Wrappers
  import Ascii

  type UserId = string
  type DeviceId = string
  type VaultId = string
  type Hash = string
  type Code = string

  const MAX_ACTIVE_DEVICES := 10
  const BOOTSTRAP_MAX_USERS := 5

  datatype VaultRow = VaultRow(id: VaultId, maxUsers: nat)
  datatype User = User(login: string, disabled: bool)
  datatype Device = Device(user: UserId, hash: Hash, revoked: bool)
  datatype Invite = Invite(expiresAt: int, usedAt: Option<int>)

  datatype Db = Db(
    vault: Option<VaultRow>,
    users: map<UserId, User>,
    devices: map<DeviceId, Device>,
    invites: map<Code, Invite>,
    retired: map<Hash, UserId>)

  const EMPTY_DB := Db(None, map[], map[], map[], map[])

  datatype Reply =
    | Done
    | BadRequest | Unauthorized | Forbidden | NotFound | Gone | Internal
    | AlreadyBootstrapped | QuotaReached | LoginTaken | DeviceLimit | LastMember

  // ---- What the handlers count ----

  function ActiveUsers(db: Db): set<UserId> {
    set u | u in db.users && !db.users[u].disabled
  }

  function ActiveDevices(db: Db): set<DeviceId> {
    set d | d in db.devices && !db.devices[d].revoked
  }

  function ActiveInvites(db: Db, now: int): set<Code> {
    set c | c in db.invites && db.invites[c].usedAt.None? && db.invites[c].expiresAt > now
  }

  /** Logins compare without regard to ASCII case. */
  predicate LoginExists(db: Db, login: string) {
    exists u :: u in db.users && Ascii.ToLower(db.users[u].login) == Ascii.ToLower(login)
  }

  // ---- Row updates ----

  function CreateDevice(db: Db, id: DeviceId, user: UserId, hash: Hash): (Db, Reply) {
    if id in db.devices then (db, Internal)
    else (db.(devices := db.devices[id := Device(user, hash, false)]), Done)
  }

  function RevokeAll(devices: map<DeviceId, Device>, user: UserId): map<DeviceId, Device> {
    map d | d in devices :: if devices[d].user == user then devices[d].(revoked := true) else devices[d]
  }

  function RevokeOne(db: Db, d: DeviceId): Db {
    if d in db.devices then db.(devices := db.devices[d := db.devices[d].(revoked := true)]) else db
  }

  function SetHash(db: Db, d: DeviceId, hash: Hash): Db {
    if d in db.devices then db.(devices := db.devices[d := db.devices[d].(hash := hash)]) else db
  }

  /** INSERT OR IGNORE: a hash keeps the user it was first retired for. */
  function Retire(db: Db, hash: Hash, user: UserId): Db {
    if hash in db.retired then db else db.(retired := db.retired[hash := user])
  }

  // ---- Transactions ----

  function Bootstrap(db: Db, vault: VaultId, user: UserId, device: DeviceId, login: string, hash: Hash): (Db, Reply) {
    if db.users != map[] then (db, AlreadyBootstrapped)
    else
      var (made, reply) := CreateDevice(db.(vault := Some(VaultRow(vault, BOOTSTRAP_MAX_USERS)),
                                            users := map[user := User(login, false)]), device, user, hash);
      if reply.Done? then (made, Done) else (db, reply)
  }

  /** `sampledAt` is the clock as read before the transaction began. */
  function CreateInvite(db: Db, code: Code, sampledAt: int, ttlHours: int): (Db, Reply) {
    if code == "" || ttlHours <= 0 then (db, BadRequest)
    else if db.vault.None? then (db, Internal)
    else if |ActiveUsers(db)| + |ActiveInvites(db, sampledAt)| >= db.vault.value.maxUsers then (db, QuotaReached)
    else if code in db.invites then (db, Internal)
    else (db.(invites := db.invites[code := Invite(sampledAt + ttlHours * 3600, None)]), Done)
  }

  function RedeemInvite(db: Db, code: Code, login: string, user: UserId, device: DeviceId, hash: Hash, now: int): (Db, Reply) {
    if login == "" then (db, BadRequest)
    else if code !in db.invites then (db, NotFound)
    else if db.invites[code].usedAt.Some? || db.invites[code].expiresAt <= now then (db, Gone)
    else if db.vault.None? then (db, Internal)
    else if |ActiveUsers(db)| >= db.vault.value.maxUsers then (db, QuotaReached)
    else if LoginExists(db, login) then (db, LoginTaken)
    else if |ActiveDevices(db)| >= MAX_ACTIVE_DEVICES then (db, DeviceLimit)
    else if user in db.users then (db, Internal)
    else
      var (made, reply) := CreateDevice(db.(invites := db.invites[code := db.invites[code].(usedAt := Some(now))],
                                            users := db.users[user := User(login, false)]), device, user, hash);
      if reply.Done? then (made, Done) else (db, reply)
  }

  function DeleteInvite(db: Db, code: Code): (Db, Reply) {
    if code in db.invites then (db.(invites := db.invites - {code}), Done) else (db, NotFound)
  }

  function RemoveMember(db: Db, target: UserId): (Db, Reply) {
    if target !in db.users then (db, NotFound)
    else if !db.users[target].disabled && |ActiveUsers(db)| <= 1 then (db, LastMember)
    else (db.(users := db.users[target := db.users[target].(disabled := true)],
              devices := RevokeAll(db.devices, target)), Done)
  }

  /** The transaction of a login whose password was accepted: reuse the named device, or make one. */
  function Login(db: Db, user: UserId, wanted: DeviceId, generated: DeviceId, hash: Hash): (Db, Reply) {
    if user !in db.users then (db, Internal)
    else if wanted != "" && wanted in db.devices && db.devices[wanted].user == user then (SetHash(db, wanted, hash), Done)
    else if |ActiveDevices(db)| >= MAX_ACTIVE_DEVICES then (db, DeviceLimit)
    else CreateDevice(db, if wanted != "" then wanted else generated, user, hash)
  }

  /** The transaction of a refresh whose first read found `device` under `presented`. */
  function Rotate(db: Db, device: DeviceId, user: UserId, presented: Hash, hash: Hash): Db {
    SetHash(Retire(db, presented, user), device, hash)
  }

  function RecoveryRedeem(db: Db, user: UserId, device: DeviceId, hash: Hash): (Db, Reply) {
    if user !in db.users then (db, Unauthorized)
    else
      var (made, reply) := CreateDevice(db.(devices := RevokeAll(db.devices, user)), device, user, hash);
      if reply.Done? then (made, Done) else (db, reply)
  }

  // ---- Reads that decide ----

  ghost predicate Holds(db: Db, d: DeviceId, hash: Hash) {
    d in db.devices && db.devices[d].hash == hash
  }

  /** What the reads of a refresh request settle on. */
  datatype Decision =
    | ToRotate(device: DeviceId, user: UserId)
    | DeviceRevoked
    | Reused(user: UserId)
    | UnknownToken

  ghost predicate Decides(db: Db, presented: Hash, decision: Decision) {
    if exists d :: Holds(db, d, presented) then
      exists d :: Holds(db, d, presented) &&
        decision == if db.devices[d].revoked then DeviceRevoked else ToRotate(d, db.devices[d].user)
    else
      decision == if presented in db.retired then Reused(db.retired[presented]) else UnknownToken
  }

  datatype Claims = Claims(user: UserId, vault: VaultId, device: DeviceId)

  /** Whether a request with these (genuine, unexpired) token claims is let through. */
  predicate RequireAuth(db: Db, claims: Claims) {
    && claims.device in db.devices
    && !db.devices[claims.device].revoked
    && db.devices[claims.device].user == claims.user
    && claims.user in db.users
    && !db.users[claims.user].disabled
    && db.vault.Some?
    && db.vault.value.id == claims.vault
  }
}
