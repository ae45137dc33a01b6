/**
 Every run of the authentication and membership endpoints: transactions of any requests in any
 order, a clock that does not go back, and the requests that read before their transaction
 (refresh, logout) split into the two.
 */
module AuthRuns {
  import opened Wrappers
  import opened AuthModel

  /** A request between its reads and its transaction. */
  datatype Pending =
    | Rotating(device: DeviceId, user: UserId, presented: Hash)
    | RevokingAll(user: UserId)
    | LoggingOut(device: DeviceId)

  /** `issued` remembers every refresh token hash ever handed out. */
  datatype World = World(db: Db, now: int, pending: map<nat, Pending>, issued: set<Hash>)

  datatype Action =
    | Tick(seconds: nat)
    | Bootstrap(vault: VaultId, user: UserId, device: DeviceId, login: string, hash: Hash)
    | CreateInvite(code: Code, sampledAt: int, ttlHours: int)
    | RedeemInvite(code: Code, login: string, user: UserId, device: DeviceId, hash: Hash)
    | DeleteInvite(code: Code)
    | RemoveMember(target: UserId)
    | Login(user: UserId, wanted: DeviceId, generated: DeviceId, hash: Hash)
    | RefreshRead(slot: nat, presented: Hash, decision: Decision)
    | LogoutRead(slot: nat, device: DeviceId)
    | Finish(slot: nat, hash: Hash)
    | RecoveryRedeem(user: UserId, device: DeviceId, hash: Hash)

  function Start(now: int): World {
    World(EMPTY_DB, now, map[], {})
  }

  /** Tokens are 256 random bits: a new hash is one never seen before. */
  predicate Fresh(w: World, hash: Hash) {
    hash !in w.issued
  }

  /** What the handler knows when it acts: fresh hashes, a clock read no later than now, reads of the current rows. */
  ghost predicate Admissible(w: World, a: Action) {
    match a
    case Bootstrap(_, _, _, _, hash) => Fresh(w, hash)
    case CreateInvite(_, sampledAt, _) => sampledAt <= w.now
    case RedeemInvite(_, _, _, _, hash) => Fresh(w, hash)
    case Login(_, _, _, hash) => Fresh(w, hash)
    case RefreshRead(slot, presented, decision) => slot !in w.pending && Decides(w.db, presented, decision)
    case LogoutRead(slot, device) => slot !in w.pending && device in w.db.devices
    case Finish(_, hash) => Fresh(w, hash)
    case RecoveryRedeem(_, _, hash) => Fresh(w, hash)
    case _ => true
  }

  function FinishDb(db: Db, p: Pending, hash: Hash): Db {
    match p
    case Rotating(device, user, presented) => Rotate(db, device, user, presented, hash)
    case RevokingAll(user) => db.(devices := RevokeAll(db.devices, user))
    case LoggingOut(device) => RevokeOne(db, device)
  }

  function Step(w: World, a: Action): World {
    match a
    case Tick(seconds) => w.(now := w.now + seconds)
    case Bootstrap(vault, user, device, login, hash) =>
      w.(db := AuthModel.Bootstrap(w.db, vault, user, device, login, hash).0, issued := w.issued + {hash})
    case CreateInvite(code, sampledAt, ttlHours) =>
      w.(db := AuthModel.CreateInvite(w.db, code, sampledAt, ttlHours).0)
    case RedeemInvite(code, login, user, device, hash) =>
      w.(db := AuthModel.RedeemInvite(w.db, code, login, user, device, hash, w.now).0, issued := w.issued + {hash})
    case DeleteInvite(code) => w.(db := AuthModel.DeleteInvite(w.db, code).0)
    case RemoveMember(target) => w.(db := AuthModel.RemoveMember(w.db, target).0)
    case Login(user, wanted, generated, hash) =>
      w.(db := AuthModel.Login(w.db, user, wanted, generated, hash).0, issued := w.issued + {hash})
    case RefreshRead(slot, presented, decision) =>
      (match decision
       case ToRotate(device, user) => w.(pending := w.pending[slot := Rotating(device, user, presented)])
       case Reused(user) => w.(pending := w.pending[slot := RevokingAll(user)])
       case DeviceRevoked => w
       case UnknownToken => w)
    case LogoutRead(slot, device) => w.(pending := w.pending[slot := LoggingOut(device)])
    case Finish(slot, hash) =>
      if slot in w.pending then
        World(FinishDb(w.db, w.pending[slot], hash), w.now, w.pending - {slot}, w.issued + {hash})
      else w
    case RecoveryRedeem(user, device, hash) =>
      w.(db := AuthModel.RecoveryRedeem(w.db, user, device, hash).0, issued := w.issued + {hash})
  }

  /** What the client is told, if the step ends its request. */
  function Answer(w: World, a: Action): Option<Reply> {
    match a
    case Tick(_) => None
    case Bootstrap(vault, user, device, login, hash) =>
      Some(AuthModel.Bootstrap(w.db, vault, user, device, login, hash).1)
    case CreateInvite(code, sampledAt, ttlHours) => Some(AuthModel.CreateInvite(w.db, code, sampledAt, ttlHours).1)
    case RedeemInvite(code, login, user, device, hash) =>
      Some(AuthModel.RedeemInvite(w.db, code, login, user, device, hash, w.now).1)
    case DeleteInvite(code) => Some(AuthModel.DeleteInvite(w.db, code).1)
    case RemoveMember(target) => Some(AuthModel.RemoveMember(w.db, target).1)
    case Login(user, wanted, generated, hash) => Some(AuthModel.Login(w.db, user, wanted, generated, hash).1)
    case RefreshRead(_, _, decision) =>
      if decision.DeviceRevoked? || decision.UnknownToken? then Some(Unauthorized) else None
    case LogoutRead(_, _) => None
    case Finish(slot, _) =>
      if slot !in w.pending then None
      else
        (match w.pending[slot]
         case Rotating(_, user, _) => Some(if user in w.db.users then Done else Unauthorized)
         case RevokingAll(_) => Some(Unauthorized)
         case LoggingOut(_) => Some(Done))
    case RecoveryRedeem(user, device, hash) => Some(AuthModel.RecoveryRedeem(w.db, user, device, hash).1)
  }

  function Run(w: World, actions: seq<Action>): World {
    if actions == [] then w
    else Step(Run(w, actions[..|actions| - 1]), actions[|actions| - 1])
  }

  ghost predicate AdmissibleRun(w: World, actions: seq<Action>) {
    actions != [] ==>
      && AdmissibleRun(w, actions[..|actions| - 1])
      && Admissible(Run(w, actions[..|actions| - 1]), actions[|actions| - 1])
  }
}
