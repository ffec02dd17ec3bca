/** The token-bucket rate limiter: integer-scaled tokens, a floor at every refill, saturating
    64-bit arithmetic. Time is a natural number of nanoseconds passed in by the caller. */
module Quota {
  import opened Wrappers

  const SCALE: nat := 1_000_000
  const U64_MAX: nat := 0xFFFF_FFFF_FFFF_FFFF

  function SaturatingMul(a: nat, b: nat): nat { Min(a * b, U64_MAX) }

  function SaturatingAdd(a: nat, b: nat): nat { Min(a + b, U64_MAX) }

  datatype RateLimit = RateLimit(maxCalls: nat, windowSecs: nat)

  datatype BucketState = BucketState(tokens: nat, maxTokens: nat, refillRate: nat, lastRefill: nat)

  ghost predicate Bounded(s: BucketState) {
    s.tokens <= s.maxTokens <= U64_MAX && s.refillRate <= U64_MAX
  }

  function FreshBucket(limit: RateLimit, now: nat): BucketState
    requires limit.windowSecs > 0
  {
    var max := SaturatingMul(limit.maxCalls, SCALE);
    BucketState(max, max, max / limit.windowSecs, now)
  }

  // Whole microseconds since the last refill, kept to 64 bits; a clock that stands back counts as 0.
  function ElapsedMicros(last: nat, now: nat): nat {
    if now < last then 0 else (now - last) / 1000 % (U64_MAX + 1)
  }

  /** Time is counted in whole microseconds, in 64 bits, and never runs backwards. */
  lemma ElapsedMeans(last: nat, now: nat)
    ensures now <= last ==> ElapsedMicros(last, now) == 0
    ensures last <= now && now - last < 1000 * (U64_MAX + 1) ==>
              1000 * ElapsedMicros(last, now) <= now - last < 1000 * ElapsedMicros(last, now) + 1000
    ensures ElapsedMicros(last, last + 1000 * (U64_MAX + 1)) == 0
  {
  }

  function Refilled(s: BucketState, now: nat): BucketState {
    var added := SaturatingMul(ElapsedMicros(s.lastRefill, now), s.refillRate) / SCALE;
    s.(tokens := Min(SaturatingAdd(s.tokens, added), s.maxTokens), lastRefill := now)
  }

  function Consumed(s: BucketState, now: nat): (BucketState, bool) {
    var r := Refilled(s, now);
    if r.tokens >= SCALE then (r.(tokens := r.tokens - SCALE), true) else (r, false)
  }

  class Bucket {
    var tokens: nat
    var maxTokens: nat
    var refillRate: nat
    var lastRefill: nat

    function State(): BucketState
      reads this
    {
      BucketState(tokens, maxTokens, refillRate, lastRefill)
    }

    constructor (limit: RateLimit, now: nat)
      requires limit.windowSecs > 0
      ensures State() == FreshBucket(limit, now)
    {
      var max := SaturatingMul(limit.maxCalls, SCALE);
      tokens := max;
      maxTokens := max;
      refillRate := max / limit.windowSecs;
      lastRefill := now;
    }

    method Refill(now: nat)
      modifies this
      ensures State() == Refilled(old(State()), now)
    {
      var elapsed := ElapsedMicros(lastRefill, now);
      tokens := Min(SaturatingAdd(tokens, SaturatingMul(elapsed, refillRate) / SCALE), maxTokens);
      lastRefill := now;
    }

    method TryConsume(now: nat) returns (allowed: bool)
      modifies this
      ensures (State(), allowed) == Consumed(old(State()), now)
    {
      Refill(now);
      if tokens >= SCALE {
        tokens := tokens - SCALE;
        allowed := true;
      } else {
        allowed := false;
      }
    }

    method Remaining(now: nat) returns (n: nat)
      modifies this
      ensures State() == Refilled(old(State()), now) && n == State().tokens / SCALE
    {
      Refill(now);
      n := tokens / SCALE;
    }
  }

  type Limits = map<string, RateLimit>

  type States = map<string, BucketState>

  ghost predicate PositiveWindows(limits: Limits) {
    forall p :: p in limits ==> limits[p].windowSecs > 0
  }

  // The agent's bucket as a limited call finds it: the first such call creates it.
  ghost function Found(limits: Limits, states: States, agent: string, permissionSet: string, now: nat): BucketState
    requires PositiveWindows(limits) && permissionSet in limits
  {
    if agent in states then states[agent] else FreshBucket(limits[permissionSet], now)
  }

  // One call to the engine.
  ghost function Checked(limits: Limits, states: States, agent: string, permissionSet: string, now: nat): (States, bool)
    requires PositiveWindows(limits)
  {
    if permissionSet !in limits then (states, true)
    else
      var (after, allowed) := Consumed(Found(limits, states, agent, permissionSet, now), now);
      (states[agent := after], allowed)
  }

  // One status query: it refills the agent's bucket, if there is one.
  function Asked(limits: Limits, states: States, agent: string, permissionSet: string, now: nat): States {
    if permissionSet in limits && agent in states then states[agent := Refilled(states[agent], now)] else states
  }

  class QuotaEngine {
    var limits: map<string, RateLimit>
    var buckets: map<string, Bucket>

    // One bucket object per agent.
    ghost predicate Valid()
      reads this
    {
      && (forall a, b :: a in buckets && b in buckets && buckets[a] == buckets[b] ==> a == b)
      && PositiveWindows(limits)
    }

    ghost function AgentStates(): States
      reads this, buckets.Values
    {
      map a | a in buckets :: buckets[a].State()
    }

    constructor (limits: map<string, RateLimit>)
      requires PositiveWindows(limits)
      ensures Valid() && this.limits == limits && AgentStates() == map[]
    {
      this.limits := limits;
      buckets := map[];
    }

    /** Charges one call to an agent's bucket, which its first limited call creates. The limit of
        that first call stays with the bucket; an unlimited permission set is never charged. */
    method Check(agent: string, permissionSet: string, now: nat) returns (allowed: bool)
      requires Valid()
      modifies this, buckets.Values
      ensures Valid() && limits == old(limits)
      ensures permissionSet !in limits ==> allowed && AgentStates() == old(AgentStates())
      ensures (AgentStates(), allowed) == Checked(limits, old(AgentStates()), agent, permissionSet, now)
      ensures fresh(buckets.Values - old(buckets.Values))
    {
      if permissionSet !in limits {
        return true;
      }
      ghost var found := Found(limits, AgentStates(), agent, permissionSet, now);
      if agent !in buckets {
        var bucket := new Bucket(limits[permissionSet], now);
        buckets := buckets[agent := bucket];
      }
      assert buckets[agent].State() == found;
      hide Consumed, FreshBucket;
      allowed := buckets[agent].TryConsume(now);
      assert AgentStates() == old(AgentStates())[agent := Consumed(found, now).0];
    }

    method Remaining(agent: string, permissionSet: string, now: nat) returns (known: bool, n: nat)
      requires Valid()
      modifies buckets.Values
      ensures Valid() && limits == old(limits) && buckets == old(buckets)
      ensures known <==> permissionSet in limits && agent in buckets
      ensures AgentStates() == Asked(limits, old(AgentStates()), agent, permissionSet, now)
      ensures known ==> n == AgentStates()[agent].tokens / SCALE
    {
      known, n := false, 0;
      if permissionSet !in limits || agent !in buckets {
        return;
      }
      known := true;
      n := buckets[agent].Remaining(now);
    }
  }
}
