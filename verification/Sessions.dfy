/** Refresh tokens and revocation over every run. */
module Sessions {
  import opened Wrappers
  import opened AuthModel
  import opened AuthRuns
  import Quotas

  /** No two devices share a hash, none holds a retired one, and a refresh in progress still means its device. */
  ghost predicate TokenInvariant(w: World) {
    && (forall d, e :: d in w.db.devices && e in w.db.devices && d != e ==> w.db.devices[d].hash != w.db.devices[e].hash)
    && (forall d :: d in w.db.devices ==> w.db.devices[d].hash in w.issued && w.db.devices[d].hash !in w.db.retired)
    && (forall h :: h in w.db.retired ==> h in w.issued)
    && (forall s :: s in w.pending && w.pending[s].Rotating? ==> PendingMeans(w, w.pending[s]))
  }

  ghost predicate PendingMeans(w: World, p: Pending)
    requires p.Rotating?
  {
    && p.presented in w.issued
    && forall d :: Holds(w.db, d, p.presented) ==> d == p.device
  }

  /** Devices are made under a fresh hash, or change to one, or keep theirs. */
  ghost predicate FreshHashes(w: World, v: World, made: Hash) {
    && v.issued == w.issued + {made}
    && (forall d :: d in v.db.devices ==>
          v.db.devices[d].hash == made || (d in w.db.devices && v.db.devices[d].hash == w.db.devices[d].hash))
    && (forall d, e :: Holds(v.db, d, made) && Holds(v.db, e, made) ==> d == e)
  }

  /** A refresh in progress keeps its meaning: no device takes up the hash it presented. */
  lemma MeaningKept(w: World, v: World, p: Pending)
    requires p.Rotating? && PendingMeans(w, p) && w.issued <= v.issued
    requires forall d :: Holds(v.db, d, p.presented) ==> Holds(w.db, d, p.presented)
    ensures PendingMeans(v, p)
  {
  }

  lemma FreshHashKeepsTokens(w: World, v: World, made: Hash)
    requires TokenInvariant(w) && Fresh(w, made) && FreshHashes(w, v, made)
    requires v.db.retired == w.db.retired && v.pending == w.pending
    ensures TokenInvariant(v)
  {
    forall s | s in v.pending && v.pending[s].Rotating?
      ensures PendingMeans(v, v.pending[s])
    {
      MeaningKept(w, v, w.pending[s]);
    }
    forall d, e | d in v.db.devices && e in v.db.devices && d != e
      ensures v.db.devices[d].hash != v.db.devices[e].hash
    {
      assert !(Holds(v.db, d, made) && Holds(v.db, e, made));
    }
  }

  /** Steps that hand out no token leave every hash where it is. */
  ghost predicate SameHashes(w: World, v: World) {
    && w.issued <= v.issued
    && v.db.retired == w.db.retired
    && v.db.devices.Keys == w.db.devices.Keys
    && forall d :: d in v.db.devices ==> v.db.devices[d].hash == w.db.devices[d].hash
  }

  lemma SameHashesKeepTokens(w: World, v: World)
    requires TokenInvariant(w) && SameHashes(w, v)
    requires forall s :: s in v.pending && v.pending[s].Rotating? ==>
               (s in w.pending && v.pending[s] == w.pending[s]) || PendingMeans(w, v.pending[s])
    ensures TokenInvariant(v)
  {
    forall s | s in v.pending && v.pending[s].Rotating?
      ensures PendingMeans(v, v.pending[s])
    {
      MeaningKept(w, v, v.pending[s]);
    }
  }

  /** What a rotation does to the hashes: the device gets the new one, the presented one is retired. */
  lemma RotateHashes(db: Db, p: Pending, hash: Hash)
    requires p.Rotating?
    ensures var after := Rotate(db, p.device, p.user, p.presented, hash);
            && after.devices.Keys == db.devices.Keys
            && (forall d :: d in db.devices ==> after.devices[d].hash == if d == p.device then hash else db.devices[d].hash)
            && after.retired.Keys == db.retired.Keys + {p.presented}
  {
  }

  lemma RotateKeepsTokens(w: World, slot: nat, hash: Hash)
    requires TokenInvariant(w) && Fresh(w, hash)
    requires slot in w.pending && w.pending[slot].Rotating?
    ensures TokenInvariant(Step(w, Finish(slot, hash)))
  {
    var p, v := w.pending[slot], Step(w, Finish(slot, hash));
    assert PendingMeans(w, p);
    RotateHashes(w.db, p, hash);
    forall d | d in v.db.devices
      ensures v.db.devices[d].hash in v.issued && v.db.devices[d].hash !in v.db.retired
    {
      assert Holds(w.db, d, p.presented) ==> d == p.device;
    }
    forall s | s in v.pending && v.pending[s].Rotating?
      ensures PendingMeans(v, v.pending[s])
    {
      MeaningKept(w, v, w.pending[s]);
    }
  }

  lemma RevokingKeepsHashes(w: World, slot: nat, hash: Hash)
    requires slot in w.pending && !w.pending[slot].Rotating?
    ensures SameHashes(w, Step(w, Finish(slot, hash)))
  {
  }

  lemma FinishKeepsTokens(w: World, slot: nat, hash: Hash)
    requires TokenInvariant(w) && Fresh(w, hash)
    ensures TokenInvariant(Step(w, Finish(slot, hash)))
  {
    if slot in w.pending {
      if w.pending[slot].Rotating? {
        RotateKeepsTokens(w, slot, hash);
      } else {
        RevokingKeepsHashes(w, slot, hash);
        SameHashesKeepTokens(w, Step(w, Finish(slot, hash)));
      }
    }
  }

  lemma RefreshReadKeepsTokens(w: World, a: Action)
    requires TokenInvariant(w) && a.RefreshRead? && Admissible(w, a)
    ensures TokenInvariant(Step(w, a))
  {
    if a.decision.ToRotate? {
      assert PendingMeans(w, Rotating(a.decision.device, a.decision.user, a.presented));
    }
    SameHashesKeepTokens(w, Step(w, a));
  }

  /** The transactions that hand out a token put it on one device and leave the other hashes alone. */
  lemma JoinsUnderFreshHash(w: World, a: Action)
    requires a.Bootstrap? || a.RedeemInvite?
    requires forall d :: d in w.db.devices ==> w.db.devices[d].hash != a.hash
    ensures FreshHashes(w, Step(w, a), a.hash)
  {
  }

  lemma RecoversUnderFreshHash(w: World, a: Action)
    requires a.RecoveryRedeem?
    requires forall d :: d in w.db.devices ==> w.db.devices[d].hash != a.hash
    ensures FreshHashes(w, Step(w, a), a.hash)
  {
  }

  lemma LogsInUnderFreshHash(w: World, a: Action)
    requires a.Login?
    requires forall d :: d in w.db.devices ==> w.db.devices[d].hash != a.hash
    ensures FreshHashes(w, Step(w, a), a.hash)
  {
  }

  lemma HandsOutFresh(w: World, a: Action, made: Hash)
    requires TokenInvariant(w) && Fresh(w, made)
    requires (a.Bootstrap? || a.RedeemInvite? || a.Login? || a.RecoveryRedeem?) && a.hash == made
    ensures TokenInvariant(Step(w, a))
  {
    if a.Login? {
      LogsInUnderFreshHash(w, a);
    } else if a.RecoveryRedeem? {
      RecoversUnderFreshHash(w, a);
    } else {
      JoinsUnderFreshHash(w, a);
    }
    FreshHashKeepsTokens(w, Step(w, a), made);
  }

  lemma RemovalLeavesHashes(w: World, target: UserId)
    ensures SameHashes(w, Step(w, RemoveMember(target)))
  {
  }

  lemma LeavesHashes(w: World, a: Action)
    requires TokenInvariant(w)
    requires a.Tick? || a.CreateInvite? || a.DeleteInvite? || a.RemoveMember? || a.LogoutRead?
    ensures TokenInvariant(Step(w, a))
  {
    if a.RemoveMember? {
      RemovalLeavesHashes(w, a.target);
    }
    SameHashesKeepTokens(w, Step(w, a));
  }

  lemma StepKeepsTokens(w: World, a: Action)
    requires TokenInvariant(w) && Admissible(w, a)
    ensures TokenInvariant(Step(w, a))
  {
    match a
    case Bootstrap(_, _, _, _, hash) => HandsOutFresh(w, a, hash);
    case RedeemInvite(_, _, _, _, hash) => HandsOutFresh(w, a, hash);
    case Login(_, _, _, hash) => HandsOutFresh(w, a, hash);
    case RecoveryRedeem(_, _, hash) => HandsOutFresh(w, a, hash);
    case RefreshRead(_, _, _) => RefreshReadKeepsTokens(w, a);
    case Finish(slot, hash) => FinishKeepsTokens(w, slot, hash);
    case _ => LeavesHashes(w, a);
  }

  lemma {:induction false} RunKeepsTokens(w: World, actions: seq<Action>)
    requires TokenInvariant(w) && AdmissibleRun(w, actions)
    ensures TokenInvariant(Run(w, actions))
  {
    if actions != [] {
      RunKeepsTokens(w, actions[..|actions| - 1]);
      StepKeepsTokens(Run(w, actions[..|actions| - 1]), actions[|actions| - 1]);
    }
  }

  /** Main result: over every run current hashes stay distinct and apart from the retired ones. */
  lemma TokensStayDistinct(now: int, actions: seq<Action>)
    requires AdmissibleRun(Start(now), actions)
    ensures TokenInvariant(Run(Start(now), actions))
  {
    RunKeepsTokens(Start(now), actions);
  }

  // ---- Revocation is for good ----

  ghost predicate Revoked(db: Db, d: DeviceId) {
    d in db.devices && db.devices[d].revoked
  }

  lemma FinishKeepsRevoked(db: Db, p: Pending, hash: Hash, d: DeviceId)
    requires Revoked(db, d)
    ensures Revoked(FinishDb(db, p, hash), d) && FinishDb(db, p, hash).devices[d].user == db.devices[d].user
  {
  }

  lemma StepKeepsRevoked(w: World, a: Action, d: DeviceId)
    requires Revoked(w.db, d)
    ensures Revoked(Step(w, a).db, d) && Step(w, a).db.devices[d].user == w.db.devices[d].user
  {
    if a.Finish? {
      if a.slot in w.pending {
        FinishKeepsRevoked(w.db, w.pending[a.slot], a.hash, d);
      }
    }
  }

  lemma {:induction false} RevokedForever(w: World, actions: seq<Action>, d: DeviceId)
    requires Revoked(w.db, d)
    ensures Revoked(Run(w, actions).db, d)
    ensures Run(w, actions).db.devices[d].user == w.db.devices[d].user
  {
    if actions != [] {
      RevokedForever(w, actions[..|actions| - 1], d);
      StepKeepsRevoked(Run(w, actions[..|actions| - 1]), actions[|actions| - 1], d);
    }
  }

  /**
   What a presented hash leads to: a retired one is recognized as reuse and nothing else is, and it is
   rotated exactly when a device that is not revoked holds it.
   */
  lemma DecisionIff(w: World, presented: Hash, decision: Decision)
    requires TokenInvariant(w) && Decides(w.db, presented, decision)
    ensures decision.Reused? <==> presented in w.db.retired
    ensures presented in w.db.retired ==> decision == Reused(w.db.retired[presented])
    ensures decision.ToRotate? <==> exists d :: Holds(w.db, d, presented) && !w.db.devices[d].revoked
    ensures decision.DeviceRevoked? <==> exists d :: Holds(w.db, d, presented) && w.db.devices[d].revoked
    ensures forall d :: Holds(w.db, d, presented) && !w.db.devices[d].revoked ==> decision == ToRotate(d, w.db.devices[d].user)
  {
    if exists d :: Holds(w.db, d, presented) {
      var d :| Holds(w.db, d, presented);
      assert forall e :: Holds(w.db, e, presented) ==> e == d;
    }
  }

  lemma RetiredMeansReuse(w: World, presented: Hash, decision: Decision)
    requires TokenInvariant(w) && presented in w.db.retired
    requires Decides(w.db, presented, decision)
    ensures decision == Reused(w.db.retired[presented])
  {
    DecisionIff(w, presented, decision);
  }

  /** Neither a refresh nor a request with its access token gets past the server for this device. */
  ghost predicate LockedOut(db: Db, d: DeviceId) {
    && (forall presented: Hash, decision: Decision :: Decides(db, presented, decision) && decision.ToRotate? ==> decision.device != d)
    && (forall claims: Claims :: claims.device == d ==> !RequireAuth(db, claims))
  }

  lemma RevokedIsLockedOut(w: World, d: DeviceId)
    requires Revoked(w.db, d)
    ensures LockedOut(w.db, d)
  {
  }

  /** The revoking transaction locks out every device its user has. */
  lemma RevokingLocksOut(w: World, slot: nat, hash: Hash)
    requires slot in w.pending && w.pending[slot].RevokingAll?
    ensures var db := Step(w, Finish(slot, hash)).db;
            forall d :: d in db.devices && db.devices[d].user == w.pending[slot].user ==> LockedOut(db, d)
  {
    var v := Step(w, Finish(slot, hash));
    forall d | d in v.db.devices && v.db.devices[d].user == w.pending[slot].user
      ensures LockedOut(v.db, d)
    {
      RevokedIsLockedOut(v, d);
    }
  }

  lemma {:induction false} SlotIsKept(w: World, actions: seq<Action>, slot: nat)
    requires slot in w.pending && AdmissibleRun(w, actions)
    requires forall k :: 0 <= k < |actions| && actions[k].Finish? ==> actions[k].slot != slot
    ensures slot in Run(w, actions).pending && Run(w, actions).pending[slot] == w.pending[slot]
  {
    if actions != [] {
      var n := |actions| - 1;
      SlotIsKept(w, actions[..n], slot);
      assert actions[n].Finish? ==> actions[n].slot != slot;
    }
  }

  /** A refresh is turned away at once exactly when its token is neither retired nor a usable device's. */
  lemma ReadAnswersIff(w: World, slot: nat, presented: Hash, decision: Decision)
    requires TokenInvariant(w) && Decides(w.db, presented, decision)
    ensures Answer(w, RefreshRead(slot, presented, decision)) == Some(Unauthorized) <==>
            presented !in w.db.retired && forall d :: Holds(w.db, d, presented) ==> w.db.devices[d].revoked
    ensures Answer(w, RefreshRead(slot, presented, decision)).Some? ==>
            Answer(w, RefreshRead(slot, presented, decision)) == Some(Unauthorized)
  {
    DecisionIff(w, presented, decision);
  }

  // ---- For whom a token is retired ----

  ghost predicate Owns(db: Db, u: UserId, d: DeviceId) {
    d in db.devices && db.devices[d].user == u
  }

  predicate SameToken(w: World, s: nat, t: nat) {
    && s in w.pending && w.pending[s].Rotating?
    && t in w.pending && w.pending[t].Rotating?
    && w.pending[s].presented == w.pending[t].presented
  }

  /** Refreshes under way with the same token are for one user, and so is the token's retirement. */
  ghost predicate OneUserPerToken(w: World) {
    && (forall s, t :: SameToken(w, s, t) ==> w.pending[s].user == w.pending[t].user)
    && (forall s :: s in w.pending && w.pending[s].Rotating? && w.pending[s].presented in w.db.retired ==>
          w.db.retired[w.pending[s].presented] == w.pending[s].user)
  }

  ghost predicate SessionInvariant(w: World) {
    TokenInvariant(w) && PendingOwned(w) && OneUserPerToken(w)
  }

  lemma ToRotateNamesHolder(db: Db, presented: Hash, decision: Decision)
    requires Decides(db, presented, decision) && decision.ToRotate?
    ensures Holds(db, decision.device, presented) && db.devices[decision.device].user == decision.user
  {
  }

  lemma ReadAgrees(w: World, presented: Hash, decision: Decision, s: nat)
    requires SessionInvariant(w) && Decides(w.db, presented, decision) && decision.ToRotate?
    requires s in w.pending && w.pending[s].Rotating? && w.pending[s].presented == presented
    ensures w.pending[s].user == decision.user
  {
    ToRotateNamesHolder(w.db, presented, decision);
    assert PendingMeans(w, w.pending[s]);
  }

  lemma OneMoreRotation(w: World, v: World, slot: nat, p: Pending)
    requires OneUserPerToken(w) && p.Rotating? && p.presented !in w.db.retired
    requires v.db == w.db && v.pending == w.pending[slot := p]
    requires forall s :: s in w.pending && w.pending[s].Rotating? && w.pending[s].presented == p.presented ==> w.pending[s].user == p.user
    ensures OneUserPerToken(v)
  {
    forall s, t | SameToken(v, s, t)
      ensures v.pending[s].user == v.pending[t].user
    {
      assert s != slot && t != slot ==> SameToken(w, s, t);
    }
  }

  lemma ReadKeepsOneUser(w: World, a: Action)
    requires SessionInvariant(w) && a.RefreshRead? && Admissible(w, a)
    ensures OneUserPerToken(Step(w, a))
  {
    if a.decision.ToRotate? {
      ToRotateNamesHolder(w.db, a.presented, a.decision);
      forall s | s in w.pending && w.pending[s].Rotating? && w.pending[s].presented == a.presented
        ensures w.pending[s].user == a.decision.user
      {
        ReadAgrees(w, a.presented, a.decision, s);
      }
      OneMoreRotation(w, Step(w, a), a.slot, Rotating(a.decision.device, a.decision.user, a.presented));
    } else {
      SameRotationsKeepOneUser(w, Step(w, a));
    }
  }

  lemma SameRotationsKeepOneUser(w: World, v: World)
    requires OneUserPerToken(w) && v.db.retired == w.db.retired
    requires forall s :: s in v.pending && v.pending[s].Rotating? ==> s in w.pending && v.pending[s] == w.pending[s]
    ensures OneUserPerToken(v)
  {
    assert forall s, t :: SameToken(v, s, t) ==> SameToken(w, s, t);
  }

  lemma FinishKeepsOneUser(w: World, slot: nat, hash: Hash)
    requires OneUserPerToken(w)
    ensures OneUserPerToken(Step(w, Finish(slot, hash)))
  {
  }

  lemma StepKeepsOneUser(w: World, a: Action)
    requires SessionInvariant(w) && Admissible(w, a)
    ensures OneUserPerToken(Step(w, a))
  {
    if a.RefreshRead? {
      ReadKeepsOneUser(w, a);
    } else if a.Finish? {
      FinishKeepsOneUser(w, a.slot, a.hash);
    } else {
      SameRotationsKeepOneUser(w, Step(w, a));
    }
  }

  lemma {:induction false} RunKeepsSessions(w: World, actions: seq<Action>)
    requires SessionInvariant(w) && AdmissibleRun(w, actions)
    ensures SessionInvariant(Run(w, actions))
  {
    if actions != [] {
      var n := |actions| - 1;
      RunKeepsSessions(w, actions[..n]);
      StepKeepsTokens(Run(w, actions[..n]), actions[n]);
      StepKeepsPendingOwned(Run(w, actions[..n]), actions[n]);
      StepKeepsOneUser(Run(w, actions[..n]), actions[n]);
    }
  }

  /** A refresh that completes retires the token it was given, for the owner of its device. */
  lemma RotationRetiresForOwner(w: World, slot: nat, hash: Hash)
    requires SessionInvariant(w) && slot in w.pending && w.pending[slot].Rotating?
    ensures var p, db := w.pending[slot], Step(w, Finish(slot, hash)).db;
            && p.device in w.db.devices
            && p.presented in db.retired && db.retired[p.presented] == w.db.devices[p.device].user
  {
  }

  /** Retirement is for good, and stays for the same user. */
  lemma {:induction false} RetiredForever(w: World, actions: seq<Action>, h: Hash)
    requires h in w.db.retired
    ensures h in Run(w, actions).db.retired && Run(w, actions).db.retired[h] == w.db.retired[h]
  {
    if actions != [] {
      var n := |actions| - 1;
      RetiredForever(w, actions[..n], h);
      StepKeepsRetired(Run(w, actions[..n]), actions[n], h);
    }
  }

  lemma StepKeepsRetired(w: World, a: Action, h: Hash)
    requires h in w.db.retired
    ensures h in Step(w, a).db.retired && Step(w, a).db.retired[h] == w.db.retired[h]
  {
    if !a.Finish? {
      assert Step(w, a).db.retired == w.db.retired;
    }
  }

  /**
   A refresh has completed at the end of `before`, and with it a token was given up. When the same
   token is presented again after `meanwhile`, the request is decided as a reuse against the owner of
   the refreshed device.
   */
  lemma ReplayIsReuse(now: int, before: seq<Action>, refresh: Action, owner: UserId, meanwhile: seq<Action>, presented: Hash, decision: Decision)
    requires AdmissibleRun(Start(now), before)
    requires var w := Run(Start(now), before);
             && refresh.Finish? && Admissible(w, refresh) && refresh.slot in w.pending
             && w.pending[refresh.slot].Rotating? && w.pending[refresh.slot].presented == presented
             && Owns(w.db, owner, w.pending[refresh.slot].device)
             && AdmissibleRun(Step(w, refresh), meanwhile)
             && Decides(Run(Step(w, refresh), meanwhile).db, presented, decision)
    ensures decision == Reused(owner)
    ensures SessionInvariant(Run(Step(Run(Start(now), before), refresh), meanwhile))
  {
    var w := Run(Start(now), before);
    RunKeepsSessions(Start(now), before);
    RotationRetiresForOwner(w, refresh.slot, refresh.hash);
    var v := Step(w, refresh);
    StepKeepsTokens(w, refresh);
    StepKeepsPendingOwned(w, refresh);
    StepKeepsOneUser(w, refresh);
    RunKeepsSessions(v, meanwhile);
    RetiredForever(v, meanwhile, presented);
    RetiredMeansReuse(Run(v, meanwhile), presented, decision);
  }

  /** Once a reuse against a user has been decided, its transaction locks out every device that user then has, for good. */
  lemma DecidedReuseLocksOut(w: World, slot: nat, presented: Hash, owner: UserId, between: seq<Action>, hash: Hash, later: seq<Action>, d: DeviceId)
    requires slot !in w.pending && AdmissibleRun(Step(w, RefreshRead(slot, presented, Reused(owner))), between)
    requires forall k :: 0 <= k < |between| && between[k].Finish? ==> between[k].slot != slot
    requires Owns(Run(Step(w, RefreshRead(slot, presented, Reused(owner))), between).db, owner, d)
    ensures LockedOut(Run(Step(Run(Step(w, RefreshRead(slot, presented, Reused(owner))), between), Finish(slot, hash)), later).db, d)
  {
    var r := Step(w, RefreshRead(slot, presented, Reused(owner)));
    SlotIsKept(r, between, slot);
    var u := Run(r, between);
    var v := Step(u, Finish(slot, hash));
    assert Revoked(v.db, d);
    RevokedForever(v, later, d);
    RevokedIsLockedOut(Run(v, later), d);
  }

  /**
   Main result: whoever presents a token that a completed refresh gave up, every device that the
   owner of the refreshed device has when the revoking transaction runs is locked out then and ever
   after, whatever else goes on before, in between and later.
   */
  lemma ReuseLocksOutEveryDevice(
      now: int, before: seq<Action>, refresh: Action, owner: UserId, meanwhile: seq<Action>,
      slot: nat, presented: Hash, decision: Decision,
      between: seq<Action>, hash: Hash, later: seq<Action>, d: DeviceId)
    requires AdmissibleRun(Start(now), before)
    requires var w := Run(Start(now), before);
             && refresh.Finish? && Admissible(w, refresh) && refresh.slot in w.pending
             && w.pending[refresh.slot].Rotating? && w.pending[refresh.slot].presented == presented
             && Owns(w.db, owner, w.pending[refresh.slot].device)
             && AdmissibleRun(Step(w, refresh), meanwhile)
    requires var w := Run(Step(Run(Start(now), before), refresh), meanwhile);
             && Admissible(w, RefreshRead(slot, presented, decision))
             && AdmissibleRun(Step(w, RefreshRead(slot, presented, decision)), between)
             && (forall k :: 0 <= k < |between| && between[k].Finish? ==> between[k].slot != slot)
             && Owns(Run(Step(w, RefreshRead(slot, presented, decision)), between).db, owner, d)
    ensures var w := Run(Step(Run(Start(now), before), refresh), meanwhile);
            var u := Run(Step(w, RefreshRead(slot, presented, decision)), between);
            LockedOut(Run(Step(u, Finish(slot, hash)), later).db, d)
  {
    var w := Run(Step(Run(Start(now), before), refresh), meanwhile);
    ReplayIsReuse(now, before, refresh, owner, meanwhile, presented, decision);
    DecidedReuseLocksOut(w, slot, presented, owner, between, hash, later, d);
  }

  // ---- Refreshes that were under way ----

  /** A refresh of device `d` that the client is told has succeeded. */
  predicate RefreshSucceeds(w: World, a: Action, d: DeviceId) {
    && a.Finish? && a.slot in w.pending
    && w.pending[a.slot].Rotating? && w.pending[a.slot].device == d
    && Answer(w, a) == Some(Done)
  }

  /** Once a device is revoked no read of a refresh finds it usable any more. */
  lemma {:induction false} RefreshWasUnderWay(w: World, actions: seq<Action>, d: DeviceId, slot: nat)
    requires Revoked(w.db, d) && AdmissibleRun(w, actions)
    requires var t := Run(w, actions); slot in t.pending && t.pending[slot].Rotating? && t.pending[slot].device == d
    ensures slot in w.pending && w.pending[slot] == Run(w, actions).pending[slot]
  {
    if actions != [] {
      var n := |actions| - 1;
      var t, a := Run(w, actions[..n]), actions[n];
      RevokedForever(w, actions[..n], d);
      assert Revoked(t.db, d);
      RefreshWasUnderWay(w, actions[..n], d, slot);
    }
  }

  /** The hash was issued, and no device but `d` can hold it. */
  ghost predicate OnlyHolder(w: World, hash: Hash, d: DeviceId) {
    hash in w.issued && forall e :: Holds(w.db, e, hash) ==> e == d
  }

  lemma FreshHashKeepsHolder(w: World, v: World, made: Hash, hash: Hash, d: DeviceId)
    requires OnlyHolder(w, hash, d) && Fresh(w, made) && FreshHashes(w, v, made)
    ensures OnlyHolder(v, hash, d)
  {
    assert forall e :: Holds(v.db, e, hash) ==> Holds(w.db, e, hash);
  }

  lemma SameHashesKeepHolder(w: World, v: World, hash: Hash, d: DeviceId)
    requires OnlyHolder(w, hash, d) && SameHashes(w, v)
    ensures OnlyHolder(v, hash, d)
  {
    assert forall e :: Holds(v.db, e, hash) ==> Holds(w.db, e, hash);
  }

  lemma FinishKeepsHolder(w: World, slot: nat, made: Hash, hash: Hash, d: DeviceId)
    requires OnlyHolder(w, hash, d) && Fresh(w, made)
    ensures OnlyHolder(Step(w, Finish(slot, made)), hash, d)
  {
    var v := Step(w, Finish(slot, made));
    if slot in w.pending {
      if w.pending[slot].Rotating? {
        RotateHashes(w.db, w.pending[slot], made);
        assert forall e :: Holds(v.db, e, hash) ==> Holds(w.db, e, hash);
      } else {
        RevokingKeepsHashes(w, slot, made);
        SameHashesKeepHolder(w, v, hash, d);
      }
    }
  }

  lemma HandingOutKeepsHolder(w: World, a: Action, hash: Hash, d: DeviceId)
    requires TokenInvariant(w) && OnlyHolder(w, hash, d) && Admissible(w, a)
    requires a.Bootstrap? || a.RedeemInvite? || a.Login? || a.RecoveryRedeem?
    ensures OnlyHolder(Step(w, a), hash, d)
  {
    if a.Login? {
      LogsInUnderFreshHash(w, a);
    } else if a.RecoveryRedeem? {
      RecoversUnderFreshHash(w, a);
    } else {
      JoinsUnderFreshHash(w, a);
    }
    FreshHashKeepsHolder(w, Step(w, a), a.hash, hash, d);
  }

  lemma StepKeepsHolder(w: World, a: Action, hash: Hash, d: DeviceId)
    requires TokenInvariant(w) && OnlyHolder(w, hash, d) && Admissible(w, a)
    ensures OnlyHolder(Step(w, a), hash, d)
  {
    if a.Bootstrap? || a.RedeemInvite? || a.Login? || a.RecoveryRedeem? {
      HandingOutKeepsHolder(w, a, hash, d);
    } else if a.Finish? {
      FinishKeepsHolder(w, a.slot, a.hash, hash, d);
    } else if a.RemoveMember? {
      RemovalLeavesHashes(w, a.target);
      SameHashesKeepHolder(w, Step(w, a), hash, d);
    } else {
      SameHashesKeepHolder(w, Step(w, a), hash, d);
    }
  }

  lemma {:induction false} RunKeepsHolder(w: World, actions: seq<Action>, hash: Hash, d: DeviceId)
    requires TokenInvariant(w) && OnlyHolder(w, hash, d) && AdmissibleRun(w, actions)
    ensures TokenInvariant(Run(w, actions)) && OnlyHolder(Run(w, actions), hash, d)
  {
    if actions != [] {
      RunKeepsHolder(w, actions[..|actions| - 1], hash, d);
      StepKeepsTokens(Run(w, actions[..|actions| - 1]), actions[|actions| - 1]);
      StepKeepsHolder(Run(w, actions[..|actions| - 1]), actions[|actions| - 1], hash, d);
    }
  }

  /**
   Main result: the only refresh of a revoked device that still succeeds is one whose read came
   before the revocation, and what it hands out is refused from then on: no refresh accepts the new
   token, and nothing accepts the device.
   */
  lemma RefreshAfterRevocationIsFutile(w: World, between: seq<Action>, a: Action, d: DeviceId, later: seq<Action>)
    requires TokenInvariant(w) && Revoked(w.db, d) && AdmissibleRun(w, between)
    requires var t := Run(w, between);
             Admissible(t, a) && RefreshSucceeds(t, a, d) && AdmissibleRun(Step(t, a), later)
    ensures a.slot in w.pending && w.pending[a.slot] == Run(w, between).pending[a.slot]
    ensures var x := Run(Step(Run(w, between), a), later);
            && LockedOut(x.db, d)
            && forall decision :: Decides(x.db, a.hash, decision) ==> !decision.ToRotate?
  {
    var t := Run(w, between);
    RefreshWasUnderWay(w, between, d, a.slot);
    RevokedForever(w, between, d);
    RunKeepsTokens(w, between);
    var v := Step(t, a);
    StepKeepsRevoked(t, a, d);
    StepKeepsTokens(t, a);
    RotateHashes(t.db, t.pending[a.slot], a.hash);
    assert OnlyHolder(v, a.hash, d);
    RunKeepsHolder(v, later, a.hash, d);
    RevokedForever(v, later, d);
    RevokedIsLockedOut(Run(v, later), d);
  }

  // ---- Removal is for good ----

  ghost predicate Disabled(db: Db, u: UserId) {
    u in db.users && db.users[u].disabled
  }

  lemma StepKeepsDisabled(w: World, a: Action, u: UserId)
    requires Disabled(w.db, u)
    ensures Disabled(Step(w, a).db, u)
  {
    if a.Finish? {
      if a.slot in w.pending {
        assert FinishDb(w.db, w.pending[a.slot], a.hash).users == w.db.users;
      }
    }
  }

  lemma {:induction false} DisabledForever(w: World, actions: seq<Action>, u: UserId)
    requires Disabled(w.db, u)
    ensures Disabled(Run(w, actions).db, u)
  {
    if actions != [] {
      DisabledForever(w, actions[..|actions| - 1], u);
      StepKeepsDisabled(Run(w, actions[..|actions| - 1]), actions[|actions| - 1], u);
    }
  }

  /**
   A removed member is never let through again, not even from a device made by a later recovery, and
   every device the member had is locked out for good: its tokens are worth nothing to a refresh either.
   */
  lemma RemovedMemberStaysOut(w: World, target: UserId, later: seq<Action>)
    requires AuthModel.RemoveMember(w.db, target).1.Done?
    ensures var x := Run(Step(w, RemoveMember(target)), later);
            && (forall claims: Claims :: claims.user == target ==> !RequireAuth(x.db, claims))
            && (forall d :: Owns(w.db, target, d) ==> LockedOut(x.db, d))
  {
    var v := Step(w, RemoveMember(target));
    DisabledForever(v, later, target);
    forall d | Owns(w.db, target, d)
      ensures LockedOut(Run(v, later).db, d)
    {
      assert Revoked(v.db, d);
      RevokedForever(v, later, d);
      RevokedIsLockedOut(Run(v, later), d);
    }
  }

  /** No request of the user passes, and all devices of the user are revoked and locked out. */
  ghost predicate Removed(db: Db, u: UserId) {
    && (forall claims: Claims :: claims.user == u ==> !RequireAuth(db, claims))
    && (forall d :: Owns(db, u, d) ==> Revoked(db, d) && LockedOut(db, d))
  }

  lemma RemovalLocksOut(w: World, target: UserId)
    ensures AuthModel.RemoveMember(w.db, target).1.Done? ==> Removed(Step(w, RemoveMember(target)).db, target)
  {
    if AuthModel.RemoveMember(w.db, target).1.Done? {
      var v := Step(w, RemoveMember(target));
      forall d | Owns(v.db, target, d)
        ensures Revoked(v.db, d) && LockedOut(v.db, d)
      {
        RevokedIsLockedOut(v, d);
      }
    }
  }

  /** So is a device that logged out. */
  lemma LogoutLocksOut(w: World, slot: nat, hash: Hash, later: seq<Action>)
    requires slot in w.pending && w.pending[slot].LoggingOut? && w.pending[slot].device in w.db.devices
    ensures LockedOut(Run(Step(w, Finish(slot, hash)), later).db, w.pending[slot].device)
  {
    var v := Step(w, Finish(slot, hash));
    assert Revoked(v.db, w.pending[slot].device);
    RevokedForever(v, later, w.pending[slot].device);
    RevokedIsLockedOut(Run(v, later), w.pending[slot].device);
  }

  /** And so is every device a user had before recovering the account. */
  lemma RecoveryLocksOutOthers(w: World, user: UserId, device: DeviceId, hash: Hash, later: seq<Action>, d: DeviceId)
    requires AuthModel.RecoveryRedeem(w.db, user, device, hash).1.Done? && Owns(w.db, user, d)
    ensures LockedOut(Run(Step(w, RecoveryRedeem(user, device, hash)), later).db, d)
  {
    var v := Step(w, RecoveryRedeem(user, device, hash));
    assert Revoked(v.db, d);
    RevokedForever(v, later, d);
    RevokedIsLockedOut(Run(v, later), d);
  }

  // ---- Whose devices a step touches ----

  /** The step is one on behalf of user `u`, or of somebody removing that user. */
  predicate Concerns(w: World, a: Action, u: UserId) {
    match a
    case Login(user, _, _, _) => user == u
    case RecoveryRedeem(user, _, _) => user == u
    case RemoveMember(target) => target == u
    case Finish(slot, _) =>
      slot in w.pending &&
      (match w.pending[slot]
       case Rotating(_, user, _) => user == u
       case RevokingAll(user) => user == u
       case LoggingOut(device) => device in w.db.devices && w.db.devices[device].user == u)
    case _ => false
  }

  /** A refresh in progress names the owner of its device. */
  ghost predicate PendingOwned(w: World) {
    forall s :: s in w.pending && w.pending[s].Rotating? ==>
      && w.pending[s].device in w.db.devices
      && w.db.devices[w.pending[s].device].user == w.pending[s].user
  }

  /** Devices are never deleted and never change hands. */
  ghost predicate OwnersKept(db: Db, after: Db) {
    forall d :: d in db.devices ==> d in after.devices && after.devices[d].user == db.devices[d].user
  }

  lemma FinishKeepsOwnership(db: Db, p: Pending, hash: Hash)
    ensures OwnersKept(db, FinishDb(db, p, hash))
  {
  }

  lemma StepKeepsOwnership(w: World, a: Action)
    ensures OwnersKept(w.db, Step(w, a).db)
  {
    if a.Finish? && a.slot in w.pending {
      FinishKeepsOwnership(w.db, w.pending[a.slot], a.hash);
    }
  }

  lemma StepKeepsPendingOwned(w: World, a: Action)
    requires PendingOwned(w) && Admissible(w, a)
    ensures PendingOwned(Step(w, a))
  {
    StepKeepsOwnership(w, a);
    var v := Step(w, a);
    forall s | s in v.pending && v.pending[s].Rotating?
      ensures v.pending[s].device in v.db.devices && v.db.devices[v.pending[s].device].user == v.pending[s].user
    {
      if s in w.pending && v.pending[s] == w.pending[s] {
        assert w.pending[s].device in w.db.devices;
      } else {
        assert a.RefreshRead? && a.decision.ToRotate?;
      }
    }
  }

  lemma {:induction false} PendingStaysOwned(now: int, actions: seq<Action>)
    requires AdmissibleRun(Start(now), actions)
    ensures PendingOwned(Run(Start(now), actions))
  {
    if actions != [] {
      PendingStaysOwned(now, actions[..|actions| - 1]);
      StepKeepsPendingOwned(Run(Start(now), actions[..|actions| - 1]), actions[|actions| - 1]);
    }
  }

  /**
   Main result: whatever happened before, a step changes a device only if it concerns the
   device's owner: no login, refresh, reuse, logout or recovery of one user reaches another's.
   */
  lemma OnlyOwnStepsTouchDevice(now: int, actions: seq<Action>, a: Action, d: DeviceId)
    requires AdmissibleRun(Start(now), actions)
    requires var w := Run(Start(now), actions);
             Admissible(w, a) && d in w.db.devices && !Concerns(w, a, w.db.devices[d].user)
    ensures var w := Run(Start(now), actions);
            d in Step(w, a).db.devices && Step(w, a).db.devices[d] == w.db.devices[d]
  {
    PendingStaysOwned(now, actions);
    StepSparesOthers(Run(Start(now), actions), a, d);
  }

  lemma StepSparesOthers(w: World, a: Action, d: DeviceId)
    requires PendingOwned(w) && d in w.db.devices && !Concerns(w, a, w.db.devices[d].user)
    ensures d in Step(w, a).db.devices && Step(w, a).db.devices[d] == w.db.devices[d]
  {
    if a.Finish? && a.slot in w.pending {
      FinishSparesOthers(w, a.slot, a.hash, d);
    }
  }

  lemma FinishSparesOthers(w: World, slot: nat, hash: Hash, d: DeviceId)
    requires PendingOwned(w) && slot in w.pending && d in w.db.devices
    requires !Concerns(w, Finish(slot, hash), w.db.devices[d].user)
    ensures var after := FinishDb(w.db, w.pending[slot], hash);
            d in after.devices && after.devices[d] == w.db.devices[d]
  {
  }

  // ---- What a session is good for ----

  /** The device a login ends up with. */
  function LoginDevice(wanted: DeviceId, generated: DeviceId): DeviceId {
    if wanted != "" then wanted else generated
  }

  /** Requests from device `d` are let through for user `u` in the vault and for nobody else. */
  ghost predicate LetsThroughOnly(db: Db, d: DeviceId, u: UserId, vault: VaultId) {
    forall claims: Claims :: claims.device == d ==> (RequireAuth(db, claims) <==> claims == Claims(u, vault, d))
  }

  /**
   A login that succeeds puts its token on a device of its own user. The session it opens is let
   through if and only if the account is enabled and the named device, when it was there already,
   had not been revoked: logging in does not lift a revocation.
   */
  lemma LoginIsLetThroughIff(db: Db, user: UserId, wanted: DeviceId, generated: DeviceId, hash: Hash)
    requires db.vault.Some? && AuthModel.Login(db, user, wanted, generated, hash).1.Done?
    ensures var after, d := AuthModel.Login(db, user, wanted, generated, hash).0, LoginDevice(wanted, generated);
            && Holds(after, d, hash) && after.devices[d].user == user
            && if !db.users[user].disabled && !Revoked(db, d) then LetsThroughOnly(after, d, user, db.vault.value.id)
               else forall claims: Claims :: claims.device == d ==> !RequireAuth(after, claims)
  {
  }

  /** The first session of a new member is let through, as that member and nobody else. */
  lemma NewMemberIsLetThrough(w: World, a: Action)
    requires w.db.vault.Some? && a.RedeemInvite? && Answer(w, a) == Some(Done)
    ensures var db := Step(w, a).db;
            Holds(db, a.device, a.hash) && LetsThroughOnly(db, a.device, a.user, w.db.vault.value.id)
  {
  }

  lemma FirstMemberIsLetThrough(w: World, a: Action)
    requires a.Bootstrap? && Answer(w, a) == Some(Done)
    ensures var db := Step(w, a).db;
            Holds(db, a.device, a.hash) && LetsThroughOnly(db, a.device, a.user, a.vault)
  {
  }

  /** The session of a recovered account is let through if and only if the account is enabled. */
  lemma RecoveredIsLetThroughIff(w: World, a: Action)
    requires w.db.vault.Some? && a.RecoveryRedeem? && Answer(w, a) == Some(Done)
    ensures var db := Step(w, a).db;
            && Holds(db, a.device, a.hash)
            && if w.db.users[a.user].disabled then forall claims: Claims :: claims.device == a.device ==> !RequireAuth(db, claims)
               else LetsThroughOnly(db, a.device, a.user, w.db.vault.value.id)
  {
  }

  /**
   The request is done with: its device holds the new token and the old one is retired for the
   device's owner; or every device of the user is locked out; or the one that logged out is.
   */
  ghost predicate Finished(db: Db, p: Pending, hash: Hash) {
    match p
    case Rotating(device, user, presented) =>
      Holds(db, device, hash) && presented in db.retired && db.retired[presented] == db.devices[device].user
    case RevokingAll(user) => forall d :: Owns(db, user, d) ==> LockedOut(db, d)
    case LoggingOut(device) => device in db.devices ==> LockedOut(db, device)
  }

  lemma FinishDoes(w: World, slot: nat, hash: Hash)
    requires SessionInvariant(w) && Quotas.OwnersExist(w.db) && slot in w.pending
    ensures Finished(Step(w, Finish(slot, hash)).db, w.pending[slot], hash)
    ensures Answer(w, Finish(slot, hash)) == Some(if w.pending[slot].RevokingAll? then Unauthorized else Done)
  {
    match w.pending[slot]
    case Rotating(device, user, presented) =>
      RotationRetiresForOwner(w, slot, hash);
      RotateHashes(w.db, w.pending[slot], hash);
      FinishKeepsOwnership(w.db, w.pending[slot], hash);
    case RevokingAll(user) =>
      RevokingLocksOut(w, slot, hash);
    case LoggingOut(device) =>
      if device in Step(w, Finish(slot, hash)).db.devices {
        RevokedIsLockedOut(Step(w, Finish(slot, hash)), device);
      }
  }

  /**
   A refresh that completes hands its device over to the new token: unless the device was revoked in
   the meantime, a refresh with the new one is good, and the old one is taken for stolen.
   */
  lemma RotationHandsOver(w: World, slot: nat, hash: Hash)
    requires SessionInvariant(w) && Fresh(w, hash) && slot in w.pending && w.pending[slot].Rotating?
    requires Quotas.OwnersExist(w.db)
    ensures var p, db := w.pending[slot], Step(w, Finish(slot, hash)).db;
            && Answer(w, Finish(slot, hash)) == Some(Done)
            && (forall decision :: Decides(db, hash, decision) ==>
                  decision == if w.db.devices[p.device].revoked then DeviceRevoked else ToRotate(p.device, p.user))
            && (forall decision :: Decides(db, p.presented, decision) ==> decision == Reused(p.user))
  {
    var p, v := w.pending[slot], Step(w, Finish(slot, hash));
    RotateKeepsTokens(w, slot, hash);
    RotateHashes(w.db, p, hash);
    RotationRetiresForOwner(w, slot, hash);
    assert Holds(v.db, p.device, hash) && v.db.devices[p.device].user == p.user;
    forall decision | Decides(v.db, hash, decision)
      ensures decision == if w.db.devices[p.device].revoked then DeviceRevoked else ToRotate(p.device, p.user)
    {
      DecisionIff(v, hash, decision);
    }
    forall decision | Decides(v.db, p.presented, decision)
      ensures decision == Reused(p.user)
    {
      DecisionIff(v, p.presented, decision);
    }
  }
}
