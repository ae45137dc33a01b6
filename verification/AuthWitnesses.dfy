/** Runs that reach the two states the endpoints do not rule out: eleven active devices, and a login that is let in nowhere. */
module AuthWitnesses {
  import opened Wrappers
  import opened AuthModel
  import opened AuthRuns
  import opened Quotas
  import Sessions
  import Ascii

  lemma RunThen(w: World, actions: seq<Action>, a: Action)
    ensures Run(w, actions + [a]) == Step(Run(w, actions), a)
    ensures AdmissibleRun(w, actions + [a]) <==> AdmissibleRun(w, actions) && Admissible(Run(w, actions), a)
  {
    assert (actions + [a])[..|actions|] == actions;
  }

  // ---- Eleven active devices ----

  /** Alice sets the server up, Bob joins, and Bob logs out. */
  function AliceAlone(): seq<Action> {
    [Bootstrap("v", "A", "a", "alice", "a"), CreateInvite("c", 0, 1), RedeemInvite("c", "bob", "B", "b", "b"),
     LogoutRead(0, "b"), Finish(0, "x")]
  }

  /** A device id or hash told from all others by its length. */
  function Name(k: nat): (s: string)
    ensures |s| == k + 1
  {
    seq(k + 1, _ => 'a')
  }

  function AliceLogsIn(k: nat): Action {
    Login("A", Name(k), "", Name(k))
  }

  /** Then Alice logs in on `k` more devices. */
  function ThenLogins(k: nat): seq<Action> {
    if k == 0 then AliceAlone() else ThenLogins(k - 1) + [AliceLogsIn(k)]
  }

  ghost predicate OnlyAliceActive(w: World, k: nat) {
    && "A" in w.db.users && "B" in w.db.users
    && |ActiveDevices(w.db)| == k + 1 && Holders(w.db) == {"A"}
    && (forall d :: d in w.db.devices ==> |d| <= k + 1)
    && (forall h :: h in w.issued ==> |h| <= k + 1)
  }

  lemma BobJoins()
    ensures var joined := AliceAlone()[..3];
            && AdmissibleRun(Start(0), joined)
            && var w := Run(Start(0), joined);
            && w.db.devices == map["a" := Device("A", "a", false), "b" := Device("B", "b", false)]
            && w.db.users == map["A" := User("alice", false), "B" := User("bob", false)]
            && w.issued == {"a", "b"} && w.pending == map[]
  {
    var a, b, c := AliceAlone()[0], AliceAlone()[1], AliceAlone()[2];
    RunThen(Start(0), [], a);
    RunThen(Start(0), [a], b);
    RunThen(Start(0), [a] + [b], c);
    assert [] + [a] == [a] && [a] + [b] + [c] == AliceAlone()[..3];
    var w1 := Step(Start(0), a);
    assert ActiveUsers(w1.db) == {"A"} && ActiveInvites(w1.db, 0) == {};
    var w2 := Step(w1, b);
    assert ActiveUsers(w2.db) == {"A"} && ActiveDevices(w2.db) == {"a"};
    assert !LoginExists(w2.db, "bob") by {
      assert |Ascii.ToLower("alice")| == 5 && |Ascii.ToLower("bob")| == 3;
    }
  }

  lemma BobLogsOutFrom(w: World)
    requires w.db.devices == map["a" := Device("A", "a", false), "b" := Device("B", "b", false)]
    requires w.issued == {"a", "b"} && w.pending == map[]
    ensures var r := Step(w, LogoutRead(0, "b"));
            && Admissible(w, LogoutRead(0, "b")) && Admissible(r, Finish(0, "x"))
            && var u := Step(r, Finish(0, "x"));
            && u.db.devices == map["a" := Device("A", "a", false), "b" := Device("B", "b", true)]
            && u.db.users == w.db.users && u.issued == {"a", "b", "x"}
  {
    var r := Step(w, LogoutRead(0, "b"));
    assert r.pending[0] == LoggingOut("b");
    assert Step(r, Finish(0, "x")).db == RevokeOne(w.db, "b");
  }

  lemma BobLogsOut()
    ensures AdmissibleRun(Start(0), AliceAlone())
    ensures var w := Run(Start(0), AliceAlone());
            && w.db.devices == map["a" := Device("A", "a", false), "b" := Device("B", "b", true)]
            && "A" in w.db.users && "B" in w.db.users
            && w.issued == {"a", "b", "x"}
  {
    var joined := AliceAlone()[..3];
    BobJoins();
    BobLogsOutFrom(Run(Start(0), joined));
    RunThen(Start(0), joined, LogoutRead(0, "b"));
    RunThen(Start(0), joined + [LogoutRead(0, "b")], Finish(0, "x"));
    assert joined + [LogoutRead(0, "b")] + [Finish(0, "x")] == AliceAlone();
  }

  lemma OneActive(db: Db)
    requires db.devices == map["a" := Device("A", "a", false), "b" := Device("B", "b", true)]
    ensures ActiveDevices(db) == {"a"} && Holders(db) == {"A"}
  {
    assert "a" in ActiveDevices(db);
    assert db.devices["a"].user in Holders(db);
  }

  lemma AliceIsAlone()
    ensures AdmissibleRun(Start(0), AliceAlone())
    ensures OnlyAliceActive(Run(Start(0), AliceAlone()), 0)
  {
    BobLogsOut();
    OneActive(Run(Start(0), AliceAlone()).db);
  }

  lemma AliceLogsInAgain(w: World, k: nat)
    requires OnlyAliceActive(w, k) && k < 9
    ensures Admissible(w, AliceLogsIn(k + 1)) && OnlyAliceActive(Step(w, AliceLogsIn(k + 1)), k + 1)
  {
    CreateCounts(w.db, Name(k + 1), "A", Name(k + 1));
  }

  lemma {:induction false} AliceFillsUp(k: nat)
    requires k <= 9
    ensures AdmissibleRun(Start(0), ThenLogins(k)) && OnlyAliceActive(Run(Start(0), ThenLogins(k)), k)
  {
    if k == 0 {
      AliceIsAlone();
    } else {
      AliceFillsUp(k - 1);
      AliceLogsInAgain(Run(Start(0), ThenLogins(k - 1)), k - 1);
      RunThen(Start(0), ThenLogins(k - 1), AliceLogsIn(k));
    }
  }

  /** With ten devices active, none of them Bob's, Bob recovers. */
  function BobRecovers(): Action {
    RecoveryRedeem("B", Name(10), Name(10))
  }

  function ElevenDevices(): seq<Action> {
    ThenLogins(9) + [BobRecovers()]
  }

  lemma BobRecoversFrom(w: World)
    requires OnlyAliceActive(w, 9)
    ensures Admissible(w, BobRecovers())
    ensures var db := Step(w, BobRecovers()).db; |ActiveDevices(db)| == 11 && Holders(db) == {"A", "B"}
  {
    var revoked := w.db.(devices := RevokeAll(w.db.devices, "B"));
    RevokeAllCounts(w.db, "B");
    CreateCounts(revoked, Name(10), "B", Name(10));
    assert {"A"} - {"B"} + {"B"} == {"A", "B"};
  }

  /** A run of admissible steps reaches eleven active devices, which is also the most that two users can have. */
  lemma ElevenDevicesAreReachable()
    ensures AdmissibleRun(Start(0), ElevenDevices())
    ensures var db := Run(Start(0), ElevenDevices()).db;
            |ActiveDevices(db)| == 11 && Holders(db) == {"A", "B"} && |ActiveDevices(db)| == 9 + |Holders(db)|
  {
    AliceFillsUp(9);
    BobRecoversFrom(Run(Start(0), ThenLogins(9)));
    RunThen(Start(0), ThenLogins(9), BobRecovers());
  }

  // ---- A login that is let in nowhere ----

  function AliceLoggedOut(): seq<Action> {
    [Bootstrap("v", "A", "a", "alice", "a"), LogoutRead(0, "a"), Finish(0, "x")]
  }

  /** Alice logs out, logs in again on the same device, is told it worked, and is refused. */
  lemma RevokedLoginIsReachable()
    ensures var w, a := Run(Start(0), AliceLoggedOut()), Login("A", "a", "", "y");
            && AdmissibleRun(Start(0), AliceLoggedOut()) && Admissible(w, a)
            && Answer(w, a) == Some(Done)
            && !RequireAuth(Step(w, a).db, Claims("A", "v", "a"))
            && Sessions.LockedOut(Step(w, a).db, "a")
  {
    var b, read, finish := AliceLoggedOut()[0], AliceLoggedOut()[1], AliceLoggedOut()[2];
    RunThen(Start(0), [], b);
    RunThen(Start(0), [b], read);
    RunThen(Start(0), [b] + [read], finish);
    assert [] + [b] == [b] && [b] + [read] + [finish] == AliceLoggedOut();
    var w := Run(Start(0), AliceLoggedOut());
    assert w.db.devices == map["a" := Device("A", "a", true)];
    Sessions.RevokedIsLockedOut(Step(w, Login("A", "a", "", "y")), "a");
  }
}
