/** Everything that the runs of `AuthRuns` keep, as one invariant. */
module AuthValid {
  import opened Wrappers
  import opened AuthModel
  import opened AuthRuns
  import Quotas
  import Sessions
  import Membership

  ghost predicate Valid(w: World) {
    && Quotas.QuotaInvariant(w)
    && Quotas.DeviceInvariant(w.db)
    && Quotas.OwnersExist(w.db)
    && Sessions.SessionInvariant(w)
    && Membership.LoginsDistinct(w.db)
    && Membership.QuotaIsFive(w.db)
  }

  lemma StartIsValid(now: int)
    ensures Valid(Start(now))
  {
    assert ActiveDevices(EMPTY_DB) == {} && Quotas.Holders(EMPTY_DB) == {};
  }

  lemma StepKeepsValid(w: World, a: Action)
    requires Valid(w) && Admissible(w, a)
    ensures Valid(Step(w, a))
  {
    Quotas.StepKeepsQuota(w, a);
    Quotas.StepKeepsLimits(w, a);
    Quotas.StepKeepsOwners(w, a);
    Sessions.StepKeepsTokens(w, a);
    Sessions.StepKeepsPendingOwned(w, a);
    Sessions.StepKeepsOneUser(w, a);
    Membership.StepKeepsLogins(w, a);
    Membership.StepKeepsFive(w, a);
  }

  /** The world after the transaction of a refresh or logout, part by part. */
  function AfterFinish(w: World, slot: nat, hash: Hash): World
    requires slot in w.pending
  {
    World(FinishDb(w.db, w.pending[slot], hash), w.now, w.pending - {slot}, w.issued + {hash})
  }

  lemma FinishKeepsValid(w: World, slot: nat, hash: Hash)
    requires Valid(w) && slot in w.pending && hash !in w.issued
    ensures Step(w, Finish(slot, hash)) == AfterFinish(w, slot, hash)
    ensures Valid(AfterFinish(w, slot, hash))
    ensures Sessions.Finished(AfterFinish(w, slot, hash).db, w.pending[slot], hash)
    ensures Answer(w, Finish(slot, hash)) == Some(if w.pending[slot].RevokingAll? then Unauthorized else Done)
    ensures w.pending[slot].Rotating? ==> w.pending[slot].user in w.db.users
  {
    StepKeepsValid(w, Finish(slot, hash));
    Sessions.FinishDoes(w, slot, hash);
  }

  lemma {:induction false} RunKeepsValid(w: World, actions: seq<Action>)
    requires Valid(w) && AdmissibleRun(w, actions)
    ensures Valid(Run(w, actions))
  {
    if actions != [] {
      RunKeepsValid(w, actions[..|actions| - 1]);
      StepKeepsValid(Run(w, actions[..|actions| - 1]), actions[|actions| - 1]);
    }
  }
}
