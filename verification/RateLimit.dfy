/**
 The token bucket limiter. Time is in whole nanoseconds, as the server's clock counts it; tokens
 are reals, so the rounding of floating point is not part of this model.
 */
module RateLimit {

  const MINUTE := 60_000_000_000
  const SECOND := 1_000_000_000

  datatype Bucket = Bucket(tokens: real, lastRefill: int, lastSeen: int)

  type Buckets = map<string, Bucket>

  datatype Answer = Answer(allowed: bool, retryAfter: int)

  /** Rate per minute, also the burst; a limiter that grants nothing is not one. */
  datatype Config = Config(ratePerMinute: nat, idleExpiry: nat)
  {
    ghost predicate Valid() { 1 <= ratePerMinute }
  }

  function Min(a: real, b: real): real {
    if a < b then a else b
  }

  /** What `elapsed` nanoseconds are worth in tokens. */
  function Refill(cfg: Config, elapsed: int): real {
    elapsed as real / MINUTE as real * cfg.ratePerMinute as real
  }

  /** The bucket a request meets: topped up to now, before a token is taken. */
  function Topped(cfg: Config, buckets: Buckets, key: string, now: int): real {
    var burst := cfg.ratePerMinute as real;
    if key in buckets then Min(burst, buckets[key].tokens + Refill(cfg, now - buckets[key].lastRefill))
    else burst
  }

  /** A wait in nanoseconds, truncated. */
  function Wait(cfg: Config, tokens: real): int
    requires cfg.Valid()
  {
    ((1.0 - tokens) / cfg.ratePerMinute as real * MINUTE as real).Floor
  }

  function Allow(cfg: Config, buckets: Buckets, key: string, now: int): (Buckets, Answer)
    requires cfg.Valid()
  {
    var tokens := Topped(cfg, buckets, key, now);
    if tokens >= 1.0 then (buckets[key := Bucket(tokens - 1.0, now, now)], Answer(true, 0))
    else (buckets[key := Bucket(tokens, now, now)], Answer(false, Wait(cfg, tokens)))
  }

  function Sweep(cfg: Config, buckets: Buckets, now: int): Buckets {
    map key | key in buckets && !(buckets[key].lastSeen < now - cfg.idleExpiry) :: buckets[key]
  }

  /** The whole seconds of the Retry-After header. */
  function RetryAfterSeconds(a: Answer): int {
    a.retryAfter / SECOND + 1
  }

  class Limiter {
    const cfg: Config
    var buckets: Buckets

    constructor (ratePerMinute: nat, idleExpiry: nat)
      requires 1 <= ratePerMinute
      ensures cfg == Config(ratePerMinute, idleExpiry) && buckets == map[]
    {
      cfg := Config(ratePerMinute, idleExpiry);
      buckets := map[];
    }

    method AllowRequest(key: string, now: int) returns (allowed: bool, retryAfter: int)
      requires cfg.Valid()
      modifies this
      ensures (buckets, Answer(allowed, retryAfter)) == Allow(cfg, old(buckets), key, now)
    {
      var burst := cfg.ratePerMinute as real;
      if key !in buckets {
        buckets := buckets[key := Bucket(burst, now, now)];
      }
      var b := buckets[key].(lastSeen := now);
      var elapsed := (now - b.lastRefill) as real / MINUTE as real;
      b := b.(tokens := Min(burst, b.tokens + elapsed * cfg.ratePerMinute as real));
      assert b.tokens == Topped(cfg, old(buckets), key, now);
      b := b.(lastRefill := now);
      if b.tokens >= 1.0 {
        b := b.(tokens := b.tokens - 1.0);
        buckets := buckets[key := b];
        assert buckets == old(buckets)[key := b];
        return true, 0;
      }
      buckets := buckets[key := b];
      assert buckets == old(buckets)[key := b];
      var deficit := 1.0 - b.tokens;
      var wait := (deficit / cfg.ratePerMinute as real * MINUTE as real).Floor;
      return false, wait;
    }

    method SweepIdle(now: int)
      modifies this
      ensures buckets == Sweep(cfg, old(buckets), now)
    {
      var cutoff := now - cfg.idleExpiry;
      var rest := buckets.Keys;
      while rest != {}
        invariant rest <= old(buckets).Keys
        invariant buckets == map key | key in old(buckets) && (key in rest || !(old(buckets)[key].lastSeen < cutoff)) :: old(buckets)[key]
        decreases rest
      {
        var key :| key in rest;
        if buckets[key].lastSeen < cutoff {
          buckets := buckets - {key};
        }
        rest := rest - {key};
      }
    }
  }
}
