/** How many requests a key gets through in any window, and how long a refused one has to wait. */
module RateLimitBounds {
  import opened RateLimit
  import opened RateLimitRuns

  // ---- What a bucket is worth later ----

  lemma RefillAdds(cfg: Config, a: int, b: int)
    ensures Refill(cfg, a) + Refill(cfg, b) == Refill(cfg, a + b)
  {
    var x, y, r := a as real / MINUTE as real, b as real / MINUTE as real, cfg.ratePerMinute as real;
    assert (a + b) as real / MINUTE as real == x + y;
    assert x * r + y * r == (x + y) * r;
  }

  /** A later top-up of what a request leaves behind. */
  lemma ToppedAfterRequest(cfg: Config, m: Buckets, key: string, other: string, at: int, later: int)
    requires cfg.Valid() && at <= later
    ensures var (after, answer) := Allow(cfg, m, other, at);
            if other == key then
              Topped(cfg, after, key, later) ==
                Min(cfg.ratePerMinute as real,
                    Topped(cfg, m, key, at) - (if answer.allowed then 1.0 else 0.0) + Refill(cfg, later - at))
            else
              Topped(cfg, after, key, later) == Topped(cfg, m, key, later)
  {
  }

  /** A sweep changes no later top-up: what it drops would be full by then. */
  lemma ToppedAfterSweep(cfg: Config, m: Buckets, key: string, at: int, later: int)
    requires Sane(cfg, m, at) && at <= later && MINUTE <= cfg.idleExpiry + 1
    ensures Topped(cfg, Sweep(cfg, m, at), key, later) == Topped(cfg, m, key, later)
  {
    if key in m && m[key].lastSeen < at - cfg.idleExpiry {
      RefillIsMonotone(cfg, MINUTE, later - m[key].lastRefill);
    }
  }

  lemma ToppedIsSane(cfg: Config, m: Buckets, key: string, now: int)
    requires Sane(cfg, m, now)
    ensures 0.0 <= Topped(cfg, m, key, now) <= cfg.ratePerMinute as real
  {
    if key in m {
      RefillIsMonotone(cfg, 0, now - m[key].lastRefill);
    }
  }

  lemma {:induction false} BucketsAreSane(cfg: Config, trace: seq<Event>)
    requires cfg.Valid() && Monotone(trace)
    ensures Sane(cfg, After(cfg, trace), End(trace))
  {
    if trace != [] {
      var n := |trace| - 1;
      BucketsAreSane(cfg, trace[..n]);
      assert n > 0 ==> End(trace[..n]) == trace[n - 1].at <= trace[n].at;
      if trace[n].Request? {
        ToppedIsSane(cfg, After(cfg, trace[..n]), trace[n].key, trace[n].at);
      }
    }
  }

  // ---- The window bound ----

  predicate Granted(cfg: Config, trace: seq<Event>, key: string)
    requires cfg.Valid() && trace != []
  {
    var e := trace[|trace| - 1];
    e.Request? && e.key == key && Allow(cfg, After(cfg, trace[..|trace| - 1]), key, e.at).1.allowed
  }

  /** The requests of `key` let through from `from` to `to`, both included. */
  function GrantedWithin(cfg: Config, trace: seq<Event>, key: string, from: int, to: int): nat
    requires cfg.Valid()
  {
    if trace == [] then 0
    else
      GrantedWithin(cfg, trace[..|trace| - 1], key, from, to) +
      if Granted(cfg, trace, key) && from <= trace[|trace| - 1].at <= to then 1 else 0
  }

  lemma {:induction false} NothingBefore(cfg: Config, trace: seq<Event>, key: string, from: int, to: int)
    requires cfg.Valid() && Monotone(trace)
    requires trace != [] ==> End(trace) < from
    ensures GrantedWithin(cfg, trace, key, from, to) == 0
  {
    if trace != [] {
      var n := |trace| - 1;
      assert n > 0 ==> End(trace[..n]) == trace[n - 1].at <= trace[n].at;
      NothingBefore(cfg, trace[..n], key, from, to);
    }
  }

  /** Grants so far and tokens at hand never exceed one burst plus the refill since the window opened. */
  lemma {:induction false} GrantsAndTokens(cfg: Config, trace: seq<Event>, key: string, from: int, to: int, now: int)
    requires cfg.Valid() && Monotone(trace) && MINUTE <= cfg.idleExpiry + 1
    requires from <= now <= to && (trace != [] ==> End(trace) <= now)
    ensures GrantedWithin(cfg, trace, key, from, to) as real + Topped(cfg, After(cfg, trace), key, now)
         <= cfg.ratePerMinute as real + Refill(cfg, now - from)
  {
    RefillIsMonotone(cfg, 0, now - from);
    if trace != [] {
      var n := |trace| - 1;
      var before, e := trace[..n], trace[n];
      var m := After(cfg, before);
      assert n > 0 ==> End(before) == trace[n - 1].at <= e.at;
      BucketsAreSane(cfg, before);
      if e.at < from {
        NothingBefore(cfg, trace, key, from, to);
      } else if e.Request? && e.key == key {
        GrantsAndTokens(cfg, before, key, from, to, e.at);
        ToppedAfterRequest(cfg, m, key, key, e.at, now);
        RefillAdds(cfg, e.at - from, now - e.at);
      } else {
        GrantsAndTokens(cfg, before, key, from, to, now);
        if e.Request? {
          ToppedAfterRequest(cfg, m, key, e.key, e.at, now);
        } else {
          ToppedAfterSweep(cfg, m, key, e.at, now);
        }
      }
    }
  }

  lemma {:induction false} GrantsWithinRefill(cfg: Config, trace: seq<Event>, key: string, from: int, to: int)
    requires cfg.Valid() && Monotone(trace) && MINUTE <= cfg.idleExpiry + 1 && from <= to
    ensures GrantedWithin(cfg, trace, key, from, to) as real
         <= cfg.ratePerMinute as real + Refill(cfg, to - from)
  {
    if trace == [] || End(trace) <= to {
      GrantsAndTokens(cfg, trace, key, from, to, to);
      if trace != [] {
        BucketsAreSane(cfg, trace);
        SaneLater(cfg, After(cfg, trace), End(trace), to);
      }
      ToppedIsSane(cfg, After(cfg, trace), key, to);
    } else {
      GrantsWithinRefill(cfg, trace[..|trace| - 1], key, from, to);
    }
  }

  /** One burst, and the rate times the window's length in minutes. */
  function Allowance(ratePerMinute: nat, nanoseconds: int): real {
    ratePerMinute as real + nanoseconds as real / 60_000_000_000.0 * ratePerMinute as real
  }

  lemma AllowanceIsRefill(cfg: Config, elapsed: int)
    ensures Allowance(cfg.ratePerMinute, elapsed) == cfg.ratePerMinute as real + Refill(cfg, elapsed)
  {
  }

  /**
   Main result: in any window a key gets through at most one burst plus what the window's length
   refills, whatever other keys do and whenever sweeps run.
   */
  lemma WindowBound(cfg: Config, trace: seq<Event>, key: string, from: int, to: int)
    requires cfg.Valid() && Monotone(trace) && MINUTE <= cfg.idleExpiry + 1 && from <= to
    ensures GrantedWithin(cfg, trace, key, from, to) as real <= Allowance(cfg.ratePerMinute, to - from)
  {
    GrantsWithinRefill(cfg, trace, key, from, to);
    AllowanceIsRefill(cfg, to - from);
  }

  lemma SaneLater(cfg: Config, m: Buckets, now: int, later: int)
    requires Sane(cfg, m, now) && now <= later
    ensures Sane(cfg, m, later)
  {
  }

  // ---- And with a shorter expiry it is exceeded ----

  ghost predicate WindowsBounded(cfg: Config)
    requires cfg.Valid()
  {
    forall trace: seq<Event>, key: string, from: int, to: int :: Monotone(trace) && from <= to ==>
      GrantedWithin(cfg, trace, key, from, to) as real <= Allowance(cfg.ratePerMinute, to - from)
  }

  lemma RequestIsGranted(cfg: Config, trace: seq<Event>, key: string, at: int, from: int, to: int)
    requires cfg.Valid() && from <= at <= to && 1.0 <= Topped(cfg, After(cfg, trace), key, at)
    ensures GrantedWithin(cfg, trace + [Request(key, at)], key, from, to) == GrantedWithin(cfg, trace, key, from, to) + 1
  {
    assert (trace + [Request(key, at)])[..|trace|] == trace;
  }

  lemma VolleyLeavesToken(cfg: Config, trace: seq<Event>, key: string, at: int, count: nat)
    requires cfg.Valid()
    requires count as real + 1.0 <= Topped(cfg, After(cfg, trace), key, at) <= cfg.ratePerMinute as real
    ensures 1.0 <= Topped(cfg, After(cfg, trace + Volley(key, at, count)), key, at)
  {
    TraceThenVolley(cfg, trace, key, at, count);
    VolleyDrains(cfg, After(cfg, trace), key, at, count);
  }

  lemma {:induction false} VolleyIsGranted(cfg: Config, trace: seq<Event>, key: string, at: int, count: nat, from: int, to: int)
    requires cfg.Valid() && from <= at <= to
    requires count as real <= Topped(cfg, After(cfg, trace), key, at) <= cfg.ratePerMinute as real
    ensures GrantedWithin(cfg, trace + Volley(key, at, count), key, from, to) == GrantedWithin(cfg, trace, key, from, to) + count
  {
    if count == 0 {
      assert trace + [] == trace;
    } else {
      VolleyIsGranted(cfg, trace, key, at, count - 1, from, to);
      VolleyLeavesToken(cfg, trace, key, at, count - 1);
      RequestIsGranted(cfg, trace + Volley(key, at, count - 1), key, at, from, to);
      Append(trace, Volley(key, at, count - 1), Request(key, at));
    }
  }

  /** A key never seen before gets through exactly one burst at once. */
  lemma BurstIsExact(cfg: Config, key: string, at: int)
    requires cfg.Valid()
    ensures var r := cfg.ratePerMinute;
            && VolleyAnswers(cfg, map[], key, at, r) == Grants(r)
            && !Allow(cfg, AfterVolley(cfg, map[], key, at, r), key, at).1.allowed
  {
    VolleyDrains(cfg, map[], key, at, cfg.ratePerMinute);
  }

  /** Two bursts within less than a minute. */
  lemma TellTaleIsGranted(cfg: Config)
    requires cfg.Valid()
    ensures GrantedWithin(cfg, TellTale(cfg), "k", 0, cfg.idleExpiry + 1) == 2 * cfg.ratePerMinute
  {
    var r, t := cfg.ratePerMinute, cfg.idleExpiry + 1;
    var first := Volley("k", 0, r);
    VolleyIsGranted(cfg, [], "k", 0, r, 0, t);
    assert [] + first == first;
    FirstVolley(cfg);
    var swept := first + [SweepAt(t)];
    assert swept[..|first|] == first;
    VolleyIsGranted(cfg, swept, "k", t, r, 0, t);
  }

  /** Main result: the bound holds for every trace, key and window if and only if a swept bucket must be full again. */
  lemma WindowBoundIff(cfg: Config)
    requires cfg.Valid()
    ensures WindowsBounded(cfg) <==> MINUTE <= cfg.idleExpiry + 1
  {
    if MINUTE <= cfg.idleExpiry + 1 {
      forall trace: seq<Event>, key: string, from: int, to: int | Monotone(trace) && from <= to
        ensures GrantedWithin(cfg, trace, key, from, to) as real <= Allowance(cfg.ratePerMinute, to - from)
      {
        WindowBound(cfg, trace, key, from, to);
      }
    } else {
      TellTaleIsMonotone(cfg);
      TellTaleIsGranted(cfg);
      RefillFallsShort(cfg, cfg.idleExpiry + 1);
      AllowanceIsRefill(cfg, cfg.idleExpiry + 1 - 0);
      assert GrantedWithin(cfg, TellTale(cfg), "k", 0, cfg.idleExpiry + 1) as real
           > Allowance(cfg.ratePerMinute, cfg.idleExpiry + 1 - 0);
    }
  }

  // ---- Retry-After ----

  /** The key got nothing through after the first `start` events. */
  ghost predicate NothingGrantedSince(cfg: Config, trace: seq<Event>, key: string, start: nat)
    requires cfg.Valid() && start <= |trace|
  {
    forall k :: start < k <= |trace| ==> !Granted(cfg, trace[..k], key)
  }

  /** Topping up in two steps is topping up once. */
  lemma ToppedLater(cfg: Config, m: Buckets, key: string, at: int, now: int)
    requires Sane(cfg, m, at) && at <= now
    ensures Topped(cfg, m, key, now) == Min(cfg.ratePerMinute as real, Topped(cfg, m, key, at) + Refill(cfg, now - at))
  {
    RefillIsMonotone(cfg, 0, now - at);
    if key in m {
      RefillAdds(cfg, at - m[key].lastRefill, now - at);
    }
  }

  lemma RefusedRequestTakesNothing(cfg: Config, m: Buckets, key: string, other: string, at: int, now: int)
    requires cfg.Valid() && Sane(cfg, m, at) && at <= now
    requires other == key ==> !Allow(cfg, m, other, at).1.allowed
    ensures Topped(cfg, Allow(cfg, m, other, at).0, key, now) == Topped(cfg, m, key, now)
  {
    ToppedAfterRequest(cfg, m, key, other, at, now);
    ToppedLater(cfg, m, key, at, now);
  }

  lemma SweepTakesNothing(cfg: Config, m: Buckets, key: string, at: int, now: int)
    requires Sane(cfg, m, now)
    ensures Topped(cfg, m, key, now) <= Topped(cfg, Sweep(cfg, m, at), key, now)
  {
    ToppedIsSane(cfg, m, key, now);
  }

  /** An event that grants a key nothing takes nothing from what it would have later; a sweep may add. */
  lemma RefusalTakesNothing(cfg: Config, trace: seq<Event>, key: string, now: int)
    requires cfg.Valid() && Monotone(trace)
    requires trace != [] && End(trace) <= now && !Granted(cfg, trace, key)
    ensures Topped(cfg, After(cfg, trace[..|trace| - 1]), key, now) <= Topped(cfg, After(cfg, trace), key, now)
  {
    var n := |trace| - 1;
    var before, e := trace[..n], trace[n];
    var m := After(cfg, before);
    assert n > 0 ==> End(before) == trace[n - 1].at <= e.at;
    BucketsAreSane(cfg, before);
    var end := if n > 0 then End(before) else e.at;
    SaneLater(cfg, m, end, e.at);
    SaneLater(cfg, m, end, now);
    if e.Request? {
      RefusedRequestTakesNothing(cfg, m, key, e.key, e.at, now);
    } else {
      SweepTakesNothing(cfg, m, key, e.at, now);
    }
  }

  /** As long as it is refused, a key has at least the tokens it would have had if nobody had asked. */
  lemma {:induction false} RefusedTokensGrow(cfg: Config, trace: seq<Event>, key: string, start: nat, now: int)
    requires cfg.Valid() && Monotone(trace)
    requires 0 < start <= |trace| && !Granted(cfg, trace[..start], key) && NothingGrantedSince(cfg, trace, key, start)
    requires End(trace) <= now
    ensures Topped(cfg, After(cfg, trace[..start - 1]), key, now) <= Topped(cfg, After(cfg, trace), key, now)
  {
    var n := |trace| - 1;
    var before := trace[..n];
    assert trace[..n + 1] == trace;
    assert !Granted(cfg, trace, key);
    RefusalTakesNothing(cfg, trace, key, now);
    if start <= n {
      assert End(before) == trace[n - 1].at <= trace[n].at;
      assert before[..start] == trace[..start] && before[..start - 1] == trace[..start - 1];
      forall k | start < k <= n
        ensures !Granted(cfg, before[..k], key)
      {
        assert before[..k] == trace[..k];
      }
      RefusedTokensGrow(cfg, before, key, start, now);
    }
  }

  /** Truncated to nanoseconds and then to seconds, the header still covers the deficit. */
  lemma WaitCoversDeficit(cfg: Config, tokens: real, elapsed: int)
    requires cfg.Valid() && tokens < 1.0
    requires (Wait(cfg, tokens) / SECOND + 1) * SECOND <= elapsed
    ensures 1.0 <= tokens + Refill(cfg, elapsed)
  {
    var r, minute := cfg.ratePerMinute as real, MINUTE as real;
    var exact := (1.0 - tokens) / r * minute;
    var w := Wait(cfg, tokens);
    assert w == exact.Floor && exact < (w + 1) as real;
    assert w < (w / SECOND + 1) * SECOND;
    assert exact < elapsed as real;
    assert (1.0 - tokens) / r == exact / minute < elapsed as real / minute;
    assert (1.0 - tokens) / r * r < elapsed as real / minute * r;
  }

  /** Within less than the wait not even one token comes in. */
  lemma ShorterIsTooShort(cfg: Config, tokens: real, elapsed: int)
    requires cfg.Valid() && tokens < 1.0 && elapsed < Wait(cfg, tokens)
    ensures tokens + Refill(cfg, elapsed) < 1.0
  {
    var r, minute := cfg.ratePerMinute as real, MINUTE as real;
    var q, x := (1.0 - tokens) / r, elapsed as real / minute;
    assert Wait(cfg, tokens) == (q * minute).Floor;
    assert elapsed as real < q * minute;
    assert x * minute == elapsed as real;
    LessByFactor(x, q, minute);
    TimesFactor(x, q, r);
    assert q * r == 1.0 - tokens;
  }

  lemma LessByFactor(x: real, y: real, factor: real)
    requires 0.0 < factor && x * factor < y * factor
    ensures x < y
  {
    assert (y - x) * factor == y * factor - x * factor;
    assert (y - x) * factor > 0.0;
  }

  lemma TimesFactor(x: real, y: real, factor: real)
    requires 0.0 < factor && x < y
    ensures x * factor < y * factor
  {
  }

  /**
   Main result: the wait a refusal tells is the least one. Until it is over the key has no token
   again; so whenever it has one the header overstates the wait by at most a second.
   */
  lemma RetryAfterIsLeast(cfg: Config, m: Buckets, key: string, at: int, now: int)
    requires cfg.Valid() && Sane(cfg, m, at) && at <= now && !Allow(cfg, m, key, at).1.allowed
    ensures var (after, refusal) := Allow(cfg, m, key, at);
            && 0 <= refusal.retryAfter
            && (now < at + refusal.retryAfter ==> Topped(cfg, after, key, now) < 1.0)
            && (1.0 <= Topped(cfg, after, key, now) ==> RetryAfterSeconds(refusal) * 1_000_000_000 <= now - at + 1_000_000_000)
  {
    var (after, refusal) := Allow(cfg, m, key, at);
    var tokens := Topped(cfg, m, key, at);
    assert tokens < 1.0;
    assert refusal.retryAfter == Wait(cfg, tokens);
    assert after[key] == Bucket(tokens, at, at);
    WaitIsNotNegative(cfg, tokens);
    if now < at + refusal.retryAfter {
      ShorterIsTooShort(cfg, tokens, now - at);
    }
  }

  lemma WaitIsNotNegative(cfg: Config, tokens: real)
    requires cfg.Valid() && tokens < 1.0
    ensures 0 <= Wait(cfg, tokens)
  {
    assert 0.0 <= (1.0 - tokens) / cfg.ratePerMinute as real;
  }

  /** Were nobody to ask in between, the header's seconds would be enough. */
  lemma HeaderCoversDeficit(cfg: Config, m: Buckets, key: string, at: int, now: int)
    requires cfg.Valid() && Sane(cfg, m, at) && at <= now
    requires var refusal := Allow(cfg, m, key, at).1;
             !refusal.allowed && at + RetryAfterSeconds(refusal) * 1_000_000_000 <= now
    ensures 1.0 <= Topped(cfg, m, key, now)
  {
    var tokens := Topped(cfg, m, key, at);
    assert RetryAfterSeconds(Allow(cfg, m, key, at).1) == Wait(cfg, tokens) / SECOND + 1;
    ToppedLater(cfg, m, key, at, now);
    WaitCoversDeficit(cfg, tokens, now - at);
  }

  /**
   Main result: a client that is refused, gets nothing through meanwhile, and comes back no
   earlier than the header's whole seconds later is let through, whatever the expiry.
   */
  lemma RetryAfterSuffices(cfg: Config, trace: seq<Event>, key: string, start: nat, now: int)
    requires cfg.Valid() && Monotone(trace)
    requires 0 < start <= |trace| && trace[start - 1].Request? && trace[start - 1].key == key
    requires !Granted(cfg, trace[..start], key) && NothingGrantedSince(cfg, trace, key, start)
    requires End(trace) <= now
    requires var refusal := Allow(cfg, After(cfg, trace[..start - 1]), key, trace[start - 1].at).1;
             trace[start - 1].at + RetryAfterSeconds(refusal) * 1_000_000_000 <= now
    ensures Allow(cfg, After(cfg, trace), key, now).1.allowed
  {
    var first, at := trace[..start - 1], trace[start - 1].at;
    var m := After(cfg, first);
    assert trace[..start][..start - 1] == first;
    assert !Allow(cfg, m, key, at).1.allowed;
    RefusedTokensGrow(cfg, trace, key, start, now);
    assert start > 1 ==> End(first) == trace[start - 2].at <= at;
    BucketsAreSane(cfg, first);
    SaneLater(cfg, m, if start > 1 then End(first) else at, at);
    assert at <= End(trace);
    HeaderCoversDeficit(cfg, m, key, at, now);
  }
}
