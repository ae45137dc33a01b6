/** What the limiter guarantees over every trace of requests and sweeps. */
module RateLimitRuns {
  import opened RateLimit

  datatype Event =
    | Request(key: string, at: int)
    | SweepAt(at: int)

  /** The clock does not go back. */
  ghost predicate Monotone(trace: seq<Event>) {
    forall i, j :: 0 <= i < j < |trace| ==> trace[i].at <= trace[j].at
  }

  function After(cfg: Config, trace: seq<Event>): Buckets
    requires cfg.Valid()
  {
    if trace == [] then map[]
    else
      var before := After(cfg, trace[..|trace| - 1]);
      match trace[|trace| - 1]
      case Request(key, at) => Allow(cfg, before, key, at).0
      case SweepAt(at) => Sweep(cfg, before, at)
  }

  /** The answers to the requests of a trace, in order. */
  function Answers(cfg: Config, trace: seq<Event>): seq<Answer>
    requires cfg.Valid()
  {
    if trace == [] then []
    else
      var n := |trace| - 1;
      Answers(cfg, trace[..n]) +
      match trace[n]
      case Request(key, at) => [Allow(cfg, After(cfg, trace[..n]), key, at).1]
      case SweepAt(_) => []
  }

  /** The same requests at the same times, and no sweep. */
  function WithoutSweeps(trace: seq<Event>): seq<Event> {
    if trace == [] then []
    else
      var n := |trace| - 1;
      WithoutSweeps(trace[..n]) + if trace[n].Request? then [trace[n]] else []
  }

  lemma TraceThenRequest(cfg: Config, trace: seq<Event>, key: string, at: int)
    requires cfg.Valid()
    ensures var (after, answer) := Allow(cfg, After(cfg, trace), key, at);
            && After(cfg, trace + [Request(key, at)]) == after
            && Answers(cfg, trace + [Request(key, at)]) == Answers(cfg, trace) + [answer]
  {
    assert (trace + [Request(key, at)])[..|trace|] == trace;
  }

  // ---- Sweeping is unobservable ----

  /** Buckets never hold more than the burst or less than nothing, and are not from the future. */
  ghost predicate Sane(cfg: Config, m: Buckets, now: int) {
    forall key :: key in m ==>
      && 0.0 <= m[key].tokens <= cfg.ratePerMinute as real
      && m[key].lastRefill == m[key].lastSeen <= now
  }

  /** Two limiters that answer alike from `now` on: a bucket only one of them remembers is full again by then. */
  ghost predicate Alike(cfg: Config, swept: Buckets, kept: Buckets, now: int) {
    && (forall key :: key in swept ==> key in kept && swept[key] == kept[key])
    && (forall key :: key in kept && key !in swept ==> kept[key].lastRefill + MINUTE <= now)
  }

  lemma RefillIsMonotone(cfg: Config, a: int, b: int)
    requires a <= b
    ensures Refill(cfg, a) <= Refill(cfg, b)
    ensures Refill(cfg, 0) == 0.0
    ensures Refill(cfg, MINUTE) == cfg.ratePerMinute as real
  {
    var x, y, r := a as real / MINUTE as real, b as real / MINUTE as real, cfg.ratePerMinute as real;
    assert x <= y && 0.0 <= r;
    assert x * r <= y * r;
  }

  lemma SameTokens(cfg: Config, swept: Buckets, kept: Buckets, key: string, now: int)
    requires cfg.Valid() && Sane(cfg, kept, now) && Alike(cfg, swept, kept, now)
    ensures Topped(cfg, swept, key, now) == Topped(cfg, kept, key, now)
    ensures 0.0 <= Topped(cfg, kept, key, now) <= cfg.ratePerMinute as real
  {
    if key in kept {
      RefillIsMonotone(cfg, 0, now - kept[key].lastRefill);
      if key !in swept {
        RefillIsMonotone(cfg, MINUTE, now - kept[key].lastRefill);
      }
    }
  }

  lemma SweepKeepsAlike(cfg: Config, swept: Buckets, kept: Buckets, now: int)
    requires Sane(cfg, kept, now) && Alike(cfg, swept, kept, now)
    requires MINUTE <= cfg.idleExpiry + 1
    ensures Alike(cfg, Sweep(cfg, swept, now), kept, now)
  {
  }

  function End(trace: seq<Event>): int {
    if trace == [] then 0 else trace[|trace| - 1].at
  }

  lemma RequestKeepsAlike(cfg: Config, swept: Buckets, kept: Buckets, key: string, now: int)
    requires cfg.Valid() && Sane(cfg, kept, now) && Alike(cfg, swept, kept, now)
    ensures Allow(cfg, swept, key, now).1 == Allow(cfg, kept, key, now).1
    ensures Sane(cfg, Allow(cfg, kept, key, now).0, now)
    ensures Alike(cfg, Allow(cfg, swept, key, now).0, Allow(cfg, kept, key, now).0, now)
  {
    SameTokens(cfg, swept, kept, key, now);
  }

  lemma {:induction false} LimitersStayAlike(cfg: Config, trace: seq<Event>)
    requires cfg.Valid() && Monotone(trace) && MINUTE <= cfg.idleExpiry + 1
    ensures Sane(cfg, After(cfg, WithoutSweeps(trace)), End(trace))
    ensures Alike(cfg, After(cfg, trace), After(cfg, WithoutSweeps(trace)), End(trace))
    ensures Answers(cfg, trace) == Answers(cfg, WithoutSweeps(trace))
  {
    if trace != [] {
      var n := |trace| - 1;
      var before := trace[..n];
      LimitersStayAlike(cfg, before);
      var swept, kept := After(cfg, before), After(cfg, WithoutSweeps(before));
      assert before != [] ==> End(before) == trace[n - 1].at <= trace[n].at;
      match trace[n]
      case Request(key, at) =>
        RequestKeepsAlike(cfg, swept, kept, key, at);
        TraceThenRequest(cfg, WithoutSweeps(before), key, at);
      case SweepAt(at) =>
        assert WithoutSweeps(trace) == WithoutSweeps(before) + [] == WithoutSweeps(before);
        SweepKeepsAlike(cfg, swept, kept, at);
    }
  }

  /** The answers of a trace do not change when its sweeps are left out. */
  ghost predicate SweepUnobservable(cfg: Config)
    requires cfg.Valid()
  {
    forall trace: seq<Event> :: Monotone(trace) ==> Answers(cfg, trace) == Answers(cfg, WithoutSweeps(trace))
  }

  // ---- And with a shorter expiry it is observable ----

  /** `count` requests for one key at one time. */
  function Volley(key: string, at: int, count: nat): seq<Event> {
    if count == 0 then [] else Volley(key, at, count - 1) + [Request(key, at)]
  }

  function Grants(count: nat): seq<Answer> {
    if count == 0 then [] else Grants(count - 1) + [Answer(true, 0)]
  }

  /** A request that meets a token takes it, and leaves the rest to the next one of the same instant. */
  lemma RequestTakesOne(cfg: Config, m: Buckets, key: string, at: int)
    requires cfg.Valid() && 1.0 <= Topped(cfg, m, key, at) <= cfg.ratePerMinute as real
    ensures var (after, answer) := Allow(cfg, m, key, at);
            && answer == Answer(true, 0)
            && key in after && after[key] == Bucket(Topped(cfg, m, key, at) - 1.0, at, at)
            && Topped(cfg, after, key, at) == Topped(cfg, m, key, at) - 1.0
  {
    RefillIsMonotone(cfg, 0, 0);
  }

  /** What `count` requests for one key at one time do to the buckets. */
  function AfterVolley(cfg: Config, m: Buckets, key: string, at: int, count: nat): Buckets
    requires cfg.Valid()
  {
    if count == 0 then m else Allow(cfg, AfterVolley(cfg, m, key, at, count - 1), key, at).0
  }

  function VolleyAnswers(cfg: Config, m: Buckets, key: string, at: int, count: nat): seq<Answer>
    requires cfg.Valid()
  {
    if count == 0 then []
    else VolleyAnswers(cfg, m, key, at, count - 1) + [Allow(cfg, AfterVolley(cfg, m, key, at, count - 1), key, at).1]
  }

  /** A volley takes one token each as long as there are tokens. */
  lemma {:induction false} VolleyDrains(cfg: Config, m: Buckets, key: string, at: int, count: nat)
    requires cfg.Valid()
    requires count as real <= Topped(cfg, m, key, at) <= cfg.ratePerMinute as real
    ensures var after := AfterVolley(cfg, m, key, at, count);
            && VolleyAnswers(cfg, m, key, at, count) == Grants(count)
            && Topped(cfg, after, key, at) == Topped(cfg, m, key, at) - count as real
            && (count > 0 ==> key in after && after[key] == Bucket(Topped(cfg, m, key, at) - count as real, at, at))
  {
    if count > 0 {
      VolleyDrains(cfg, m, key, at, count - 1);
      RequestTakesOne(cfg, AfterVolley(cfg, m, key, at, count - 1), key, at);
    }
  }

  /** And is granted in full only then. */
  lemma {:induction false} VolleyNeedsTokens(cfg: Config, m: Buckets, key: string, at: int, count: nat)
    requires cfg.Valid() && 0.0 <= Topped(cfg, m, key, at) <= cfg.ratePerMinute as real
    requires VolleyAnswers(cfg, m, key, at, count) == Grants(count)
    ensures count as real <= Topped(cfg, m, key, at)
  {
    if count > 0 {
      var earlier := VolleyAnswers(cfg, m, key, at, count - 1);
      assert |earlier| == |Grants(count - 1)| by {
        assert |earlier| + 1 == |VolleyAnswers(cfg, m, key, at, count)| == |Grants(count)|;
      }
      assert earlier == VolleyAnswers(cfg, m, key, at, count)[..|earlier|] == Grants(count - 1);
      VolleyNeedsTokens(cfg, m, key, at, count - 1);
      VolleyDrains(cfg, m, key, at, count - 1);
      assert VolleyAnswers(cfg, m, key, at, count)[|earlier|] == Grants(count)[|earlier|] == Answer(true, 0);
    }
  }

  lemma Append<T>(a: seq<T>, b: seq<T>, x: T)
    ensures a + (b + [x]) == (a + b) + [x]
  {
  }

  lemma {:induction false} TraceThenVolley(cfg: Config, trace: seq<Event>, key: string, at: int, count: nat)
    requires cfg.Valid()
    ensures After(cfg, trace + Volley(key, at, count)) == AfterVolley(cfg, After(cfg, trace), key, at, count)
    ensures Answers(cfg, trace + Volley(key, at, count))
         == Answers(cfg, trace) + VolleyAnswers(cfg, After(cfg, trace), key, at, count)
  {
    if count == 0 {
      assert trace + [] == trace;
      assert Answers(cfg, trace) + [] == Answers(cfg, trace);
    } else {
      var fewer, e := trace + Volley(key, at, count - 1), Request(key, at);
      TraceThenVolley(cfg, trace, key, at, count - 1);
      TraceThenRequest(cfg, fewer, key, at);
      Append(trace, Volley(key, at, count - 1), e);
      Append(Answers(cfg, trace), VolleyAnswers(cfg, After(cfg, trace), key, at, count - 1),
             Allow(cfg, After(cfg, fewer), key, at).1);
    }
  }

  lemma {:induction false} WithoutSweepsConcat(a: seq<Event>, b: seq<Event>)
    ensures WithoutSweeps(a + b) == WithoutSweeps(a) + WithoutSweeps(b)
  {
    if b == [] {
      assert a + b == a;
    } else {
      var n := |b| - 1;
      WithoutSweepsConcat(a, b[..n]);
      assert (a + b)[..|a + b| - 1] == a + b[..n];
    }
  }

  lemma {:induction false} VolleyHasNoSweep(key: string, at: int, count: nat)
    ensures WithoutSweeps(Volley(key, at, count)) == Volley(key, at, count)
  {
    if count > 0 {
      VolleyHasNoSweep(key, at, count - 1);
      assert Volley(key, at, count)[..|Volley(key, at, count)| - 1] == Volley(key, at, count - 1);
    }
  }

  lemma {:induction false} VolleyTimes(key: string, at: int, count: nat)
    ensures |Volley(key, at, count)| == count
    ensures forall i :: 0 <= i < count ==> Volley(key, at, count)[i].at == at
  {
    if count > 0 {
      VolleyTimes(key, at, count - 1);
    }
  }

  /** Spend the whole burst, let the bucket be swept while it is still refilling, and spend again. */
  function TellTale(cfg: Config): seq<Event> {
    Volley("k", 0, cfg.ratePerMinute) + [SweepAt(cfg.idleExpiry + 1)] + Volley("k", cfg.idleExpiry + 1, cfg.ratePerMinute)
  }

  lemma TellTaleIsMonotone(cfg: Config)
    ensures Monotone(TellTale(cfg))
  {
    VolleyTimes("k", 0, cfg.ratePerMinute);
    VolleyTimes("k", cfg.idleExpiry + 1, cfg.ratePerMinute);
  }

  /** Once the burst is spent, the bucket is empty and the sweep at `idleExpiry + 1` drops it. */
  lemma FirstVolley(cfg: Config)
    requires cfg.Valid()
    ensures var m := After(cfg, Volley("k", 0, cfg.ratePerMinute));
            && "k" in m && m["k"] == Bucket(0.0, 0, 0)
            && "k" !in Sweep(cfg, m, cfg.idleExpiry + 1)
  {
    var r := cfg.ratePerMinute;
    TraceThenVolley(cfg, [], "k", 0, r);
    assert [] + Volley("k", 0, r) == Volley("k", 0, r);
    VolleyDrains(cfg, map[], "k", 0, r);
  }

  lemma TellTaleUnswept(cfg: Config)
    ensures WithoutSweeps(TellTale(cfg)) ==
              Volley("k", 0, cfg.ratePerMinute) + Volley("k", cfg.idleExpiry + 1, cfg.ratePerMinute)
  {
    var first, again := Volley("k", 0, cfg.ratePerMinute), Volley("k", cfg.idleExpiry + 1, cfg.ratePerMinute);
    var sweep := [SweepAt(cfg.idleExpiry + 1)];
    WithoutSweepsConcat(first + sweep, again);
    WithoutSweepsConcat(first, sweep);
    VolleyHasNoSweep("k", 0, cfg.ratePerMinute);
    VolleyHasNoSweep("k", cfg.idleExpiry + 1, cfg.ratePerMinute);
    assert WithoutSweeps(sweep) == [];
    assert first + [] == first;
  }

  /** With the bucket swept, the second volley is granted in full. */
  lemma SweptGrantsAll(cfg: Config)
    requires cfg.Valid()
    ensures Answers(cfg, TellTale(cfg)) == Answers(cfg, Volley("k", 0, cfg.ratePerMinute)) + Grants(cfg.ratePerMinute)
  {
    var r, t := cfg.ratePerMinute, cfg.idleExpiry + 1;
    var first := Volley("k", 0, r);
    FirstVolley(cfg);
    var swept := first + [SweepAt(t)];
    assert swept[..|first|] == first;
    assert Answers(cfg, swept) == Answers(cfg, first) + [] == Answers(cfg, first);
    TraceThenVolley(cfg, swept, "k", t, r);
    VolleyDrains(cfg, After(cfg, swept), "k", t, r);
  }

  /** An empty bucket is not full again within less than a minute. */
  lemma EmptyFallsShort(cfg: Config, m: Buckets, key: string, now: nat)
    requires cfg.Valid() && now < MINUTE && key in m && m[key] == Bucket(0.0, 0, 0)
    ensures 0.0 <= Topped(cfg, m, key, now) < cfg.ratePerMinute as real
  {
    RefillIsMonotone(cfg, 0, now);
    RefillFallsShort(cfg, now);
  }

  /** With the bucket kept, it is not: less than a minute has passed. */
  lemma KeptRefusesSome(cfg: Config)
    requires cfg.Valid() && cfg.idleExpiry + 1 < MINUTE
    ensures VolleyAnswers(cfg, After(cfg, Volley("k", 0, cfg.ratePerMinute)), "k", cfg.idleExpiry + 1, cfg.ratePerMinute)
         != Grants(cfg.ratePerMinute)
  {
    var r, t := cfg.ratePerMinute, cfg.idleExpiry + 1;
    var m := After(cfg, Volley("k", 0, r));
    FirstVolley(cfg);
    EmptyFallsShort(cfg, m, "k", t);
    if VolleyAnswers(cfg, m, "k", t, r) == Grants(r) {
      VolleyNeedsTokens(cfg, m, "k", t, r);
    }
  }

  lemma TellTaleDiffers(cfg: Config)
    requires cfg.Valid() && cfg.idleExpiry + 1 < MINUTE
    ensures Answers(cfg, TellTale(cfg)) != Answers(cfg, WithoutSweeps(TellTale(cfg)))
  {
    var r, t := cfg.ratePerMinute, cfg.idleExpiry + 1;
    var first := Volley("k", 0, r);
    TellTaleUnswept(cfg);
    SweptGrantsAll(cfg);
    KeptRefusesSome(cfg);
    TraceThenVolley(cfg, first, "k", t, r);
    SameTail(Answers(cfg, first), Grants(r), VolleyAnswers(cfg, After(cfg, first), "k", t, r));
  }

  lemma SameTail<T>(a: seq<T>, b: seq<T>, c: seq<T>)
    ensures a + b == a + c ==> b == c
  {
    assert (a + b)[|a|..] == b && (a + c)[|a|..] == c;
  }

  /** Less than a minute is worth less than the burst. */
  lemma RefillFallsShort(cfg: Config, elapsed: int)
    requires cfg.Valid() && elapsed < MINUTE
    ensures Refill(cfg, elapsed) < cfg.ratePerMinute as real
  {
    var x, r := elapsed as real / MINUTE as real, cfg.ratePerMinute as real;
    assert x < 1.0 && 1.0 <= r;
    assert x * r < 1.0 * r;
  }

  /** Main result: sweeping goes unnoticed, over every trace and key, if and only if a swept bucket must be full again. */
  lemma SweepUnobservableIff(cfg: Config)
    requires cfg.Valid()
    ensures SweepUnobservable(cfg) <==> MINUTE <= cfg.idleExpiry + 1
  {
    if MINUTE <= cfg.idleExpiry + 1 {
      forall trace: seq<Event> | Monotone(trace)
        ensures Answers(cfg, trace) == Answers(cfg, WithoutSweeps(trace))
      {
        LimitersStayAlike(cfg, trace);
      }
    } else {
      TellTaleIsMonotone(cfg);
      TellTaleDiffers(cfg);
    }
  }
}
