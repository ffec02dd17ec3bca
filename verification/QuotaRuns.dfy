/** The quota engine over whole runs of calls by many agents: every agent is metered as if it were
    alone, and by the limit of its first limited call. */
module QuotaRuns {
  import opened Quota
  import opened QuotaBounds
  import opened Wrappers

  // A call to be checked, or a query for what remains.
  datatype Call =
    | Check(agent: string, permissionSet: string, now: nat)
    | Ask(agent: string, permissionSet: string, now: nat)

  ghost function Stepped(limits: Limits, states: States, c: Call): (States, bool)
    requires PositiveWindows(limits)
  {
    match c
    case Check(a, p, now) => Checked(limits, states, a, p, now)
    case Ask(a, p, now) => (Asked(limits, states, a, p, now), false)
  }

  ghost function After(limits: Limits, run: seq<Call>): States
    requires PositiveWindows(limits)
  {
    if run == [] then map[] else Stepped(limits, After(limits, run[..|run| - 1]), run[|run| - 1]).0
  }

  // It concerns the agent's bucket.
  predicate Concerns(limits: Limits, c: Call, agent: string) {
    c.agent == agent && c.permissionSet in limits
  }

  predicate Charges(limits: Limits, c: Call, agent: string) {
    Concerns(limits, c, agent) && c.Check?
  }

  // Limited calls of one agent that the engine allowed.
  ghost function AllowedTo(limits: Limits, run: seq<Call>, agent: string): nat
    requires PositiveWindows(limits)
  {
    if run == [] then 0
    else
      var init, c := run[..|run| - 1], run[|run| - 1];
      AllowedTo(limits, init, agent)
      + if Charges(limits, c, agent) && Stepped(limits, After(limits, init), c).1 then 1 else 0
  }

  // The limited calls and the queries of one agent, from its first call on, as operations on a bucket.
  function OpsOf(limits: Limits, run: seq<Call>, agent: string): seq<Op> {
    if run == [] then []
    else
      var before, c := OpsOf(limits, run[..|run| - 1], agent), run[|run| - 1];
      if Charges(limits, c, agent) then before + [Consume(c.now)]
      else if Concerns(limits, c, agent) && before != [] then before + [Query(c.now)]
      else before
  }

  // The first limited call of one agent.
  function First(limits: Limits, run: seq<Call>, agent: string): (r: Option<Call>)
    ensures r.Some? ==> Charges(limits, r.value, agent)
  {
    if run == [] then None
    else
      var before, c := First(limits, run[..|run| - 1], agent), run[|run| - 1];
      if before.Some? then before else if Charges(limits, c, agent) then Some(c) else None
  }

  ghost function Initial(limits: Limits, first: Call): BucketState
    requires PositiveWindows(limits) && first.permissionSet in limits
  {
    FreshBucket(limits[first.permissionSet], first.now)
  }

  lemma OneCall(limits: Limits, states: States, c: Call, agent: string)
    requires PositiveWindows(limits)
    ensures var (after, allowed) := Stepped(limits, states, c);
            if Charges(limits, c, agent) then
              var b := if agent in states then states[agent] else Initial(limits, c);
              agent in after && after[agent] == Consumed(b, c.now).0 && allowed == Consumed(b, c.now).1
            else if Concerns(limits, c, agent) && agent in states then
              agent in after && after[agent] == Refilled(states[agent], c.now)
            else (agent in after <==> agent in states) && (agent in states ==> after[agent] == states[agent])
  {
    hide Consumed, Refilled, FreshBucket;
  }

  lemma NoOps(s: BucketState)
    ensures Final(s, []) == s && Admitted(s, []) == 0
  {
  }

  lemma SnocOp(s: BucketState, ops: seq<Op>, op: Op)
    ensures var b := Final(s, ops);
            && Final(s, ops + [op]) == StepOp(b, op).0
            && Admitted(s, ops + [op]) == Admitted(s, ops) + if StepOp(b, op).1 then 1 else 0
  {
    hide StepOp;
    assert (ops + [op])[..|ops|] == ops;
  }

  // The agent's part of a run, taken alone.
  ghost predicate Alone(limits: Limits, run: seq<Call>, agent: string)
    requires PositiveWindows(limits)
  {
    var first, ops := First(limits, run, agent), OpsOf(limits, run, agent);
    && (agent in After(limits, run) <==> first.Some?) && (first.Some? <==> ops != [])
    && (first.Some? ==>
          && After(limits, run)[agent] == Final(Initial(limits, first.value), ops)
          && AllowedTo(limits, run, agent) == Admitted(Initial(limits, first.value), ops))
    && (first.None? ==> AllowedTo(limits, run, agent) == 0)
  }

  lemma RunStep(limits: Limits, run: seq<Call>, agent: string)
    requires PositiveWindows(limits) && run != []
    ensures var init, c := run[..|run| - 1], run[|run| - 1];
            var (after, allowed) := Stepped(limits, After(limits, init), c);
            var first, ops := First(limits, init, agent), OpsOf(limits, init, agent);
            && After(limits, run) == after
            && OpsOf(limits, run, agent) == (if Charges(limits, c, agent) then ops + [Consume(c.now)]
                                             else if Concerns(limits, c, agent) && ops != [] then ops + [Query(c.now)]
                                             else ops)
            && First(limits, run, agent) == (if first.None? && Charges(limits, c, agent) then Some(c) else first)
            && AllowedTo(limits, run, agent)
               == AllowedTo(limits, init, agent) + (if Charges(limits, c, agent) && allowed then 1 else 0)
  {
    hide Stepped, Charges, Concerns;
  }

  lemma AloneStep(limits: Limits, run: seq<Call>, agent: string)
    requires PositiveWindows(limits) && run != [] && Alone(limits, run[..|run| - 1], agent)
    ensures Alone(limits, run, agent)
  {
    var init, c := run[..|run| - 1], run[|run| - 1];
    var first, ops := First(limits, init, agent), OpsOf(limits, init, agent);
    RunStep(limits, run, agent);
    OneCall(limits, After(limits, init), c, agent);
    if Charges(limits, c, agent) {
      var b := Initial(limits, if first.Some? then first.value else c);
      NoOps(b);
      SnocOp(b, ops, Consume(c.now));
    } else if first.Some? {
      SnocOp(Initial(limits, first.value), ops, Query(c.now));
    }
    hide After, AllowedTo, OpsOf, First, Final, Admitted, Stepped, Consumed, Refilled, FreshBucket, Charges, Concerns;
  }

  /** Whatever other agents do, and whatever unlimited permission sets are used in between, an
      agent's bucket and the calls it is allowed are those of a bucket of its own, created by its
      first limited call and fed only its own limited calls and queries. Later calls under another
      permission set do not change the limit. */
  lemma {:induction false} AgentsAreMeteredAlone(limits: Limits, run: seq<Call>, agent: string)
    requires PositiveWindows(limits)
    ensures Alone(limits, run, agent)
    decreases |run|
  {
    if run == [] {
      assert Alone(limits, [], agent);
    } else {
      hide Alone;
      AgentsAreMeteredAlone(limits, run[..|run| - 1], agent);
      AloneStep(limits, run, agent);
    }
  }

  // ---- windows of an engine run ----

  ghost predicate Chronological(run: seq<Call>) {
    forall i, j :: 0 <= i < j < |run| ==> run[i].now <= run[j].now
  }

  // From call `k` on: the operations go on where those before ended, and none is earlier.
  lemma {:induction false} LaterOps(limits: Limits, run: seq<Call>, k: nat, agent: string)
    requires Chronological(run) && k < |run|
    ensures var before, ops := OpsOf(limits, run[..k], agent), OpsOf(limits, run, agent);
            && before <= ops && InOrder(ops)
            && (forall i :: 0 <= i < |ops| ==> ops[i].now <= run[|run| - 1].now)
            && (forall i :: |before| <= i < |ops| ==> run[k].now <= ops[i].now)
    decreases |run|
  {
    var init, c := run[..|run| - 1], run[|run| - 1];
    hide Charges, Concerns;
    if k < |run| - 1 {
      LaterOps(limits, init, k, agent);
      assert init[..k] == run[..k];
    } else {
      assert run[..k] == init;
      if init != [] {
        LaterOps(limits, init, 0, agent);
      }
    }
  }

  lemma {:induction false} FirstCallOpens(limits: Limits, run: seq<Call>, agent: string)
    requires First(limits, run, agent).Some?
    ensures OpsOf(limits, run, agent) != [] && OpsOf(limits, run, agent)[0].now == First(limits, run, agent).value.now
    decreases |run|
  {
    var init := run[..|run| - 1];
    if First(limits, init, agent).Some? {
      FirstCallOpens(limits, init, agent);
    } else {
      NoOpsBeforeFirst(limits, init, agent);
    }
  }

  lemma {:induction false} NoOpsBeforeFirst(limits: Limits, run: seq<Call>, agent: string)
    requires First(limits, run, agent).None?
    ensures OpsOf(limits, run, agent) == []
    decreases |run|
  {
    if run != [] {
      NoOpsBeforeFirst(limits, run[..|run| - 1], agent);
    }
  }

  lemma {:induction false} AdmittedSplits(s: BucketState, a: seq<Op>, b: seq<Op>)
    ensures Admitted(s, a + b) == Admitted(s, a) + Admitted(Final(s, a), b)
    ensures Final(s, a + b) == Final(Final(s, a), b)
    decreases |b|
  {
    hide StepOp;
    if b == [] {
      assert a + b == a;
    } else {
      AdmittedSplits(s, a, b[..|b| - 1]);
      assert (a + b)[..|a + b| - 1] == a + b[..|b| - 1];
    }
  }

  lemma {:induction false} FirstIsStable(limits: Limits, run: seq<Call>, k: nat, agent: string)
    requires k <= |run|
    ensures First(limits, run[..k], agent).Some? ==> First(limits, run, agent) == First(limits, run[..k], agent)
    decreases |run|
  {
    if k == |run| {
      assert run[..k] == run;
    } else {
      FirstIsStable(limits, run[..|run| - 1], k, agent);
      assert run[..|run| - 1][..k] == run[..k];
    }
  }

  lemma SpanWithin(a: nat, b: nat, c: nat, d: nat)
    requires a <= b <= c <= d
    ensures Span(b, c) <= Span(a, d)
  {
    SpansAdd(a, b, d);
    SpansAdd(b, c, d);
  }

  // The same for the operations on one bucket.
  lemma LaterWindow(limit: RateLimit, start: nat, before: seq<Op>, within: seq<Op>)
    requires limit.windowSecs > 0 && InOrder(before + within) && InOrder(within)
    requires before + within != [] ==> start <= (before + within)[0].now
    requires within != [] ==> Span(within[0].now, within[|within| - 1].now) <= limit.windowSecs * SCALE
    ensures var s := FreshBucket(limit, start);
            Admitted(s, before + within) <= Admitted(s, before) + 2 * limit.maxCalls
  {
    var s, all := FreshBucket(limit, start), before + within;
    assert before == all[..|before|] && within == all[|before|..];
    var b := Final(s, before);
    assert before == [] ==> b == s;
    ServesForever(limit, start, before);
    AdmittedSplits(s, before, within);
    if within != [] {
      assert b.lastRefill <= within[0].now;
      hide Admitted, Final;
      WindowBound(b, limit, within);
    }
  }

  /** In any run of the engine, from call `k` on and for as long as the window of its limit lasts,
      an agent is allowed at most twice the calls that limit names. */
  lemma AgentWindowBound(limits: Limits, run: seq<Call>, k: nat, agent: string)
    requires PositiveWindows(limits) && Chronological(run) && k < |run|
    requires First(limits, run, agent).Some?
    requires var limit := limits[First(limits, run, agent).value.permissionSet];
             Span(run[k].now, run[|run| - 1].now) <= limit.windowSecs * SCALE
    ensures var limit := limits[First(limits, run, agent).value.permissionSet];
            AllowedTo(limits, run, agent) <= AllowedTo(limits, run[..k], agent) + 2 * limit.maxCalls
  {
    var first := First(limits, run, agent).value;
    var limit, s := limits[first.permissionSet], Initial(limits, first);
    var before, ops := OpsOf(limits, run[..k], agent), OpsOf(limits, run, agent);
    AgentsAreMeteredAlone(limits, run, agent);
    AgentsAreMeteredAlone(limits, run[..k], agent);
    FirstIsStable(limits, run, k, agent);
    NoOps(s);
    FirstCallOpens(limits, run, agent);
    hide First, OpsOf, AllowedTo, Admitted, Final, After, FreshBucket, InOrder, Chronological, Charges, Concerns, Span;
    var within := LaterPart(limits, run, k, agent);
    LaterWindow(limit, first.now, before, within);
  }

  lemma LaterPart(limits: Limits, run: seq<Call>, k: nat, agent: string) returns (within: seq<Op>)
    requires Chronological(run) && k < |run|
    ensures OpsOf(limits, run, agent) == OpsOf(limits, run[..k], agent) + within
    ensures InOrder(OpsOf(limits, run, agent)) && InOrder(within)
    ensures within != [] ==> within[0].now <= within[|within| - 1].now
                             && Span(within[0].now, within[|within| - 1].now) <= Span(run[k].now, run[|run| - 1].now)
  {
    hide OpsOf, Chronological, Charges, Concerns, Span;
    var before, ops := OpsOf(limits, run[..k], agent), OpsOf(limits, run, agent);
    LaterOps(limits, run, k, agent);
    within := ops[|before|..];
    assert ops == before + within && (within != [] ==> run[k].now <= within[0].now);
    LaterSpan(run[k].now, within, run[|run| - 1].now);
  }

  lemma LaterSpan(from: nat, ops: seq<Op>, to: nat)
    requires ops != [] ==> from <= ops[0].now <= ops[|ops| - 1].now <= to
    ensures ops != [] ==> Span(ops[0].now, ops[|ops| - 1].now) <= Span(from, to)
  {
    if ops != [] {
      SpanWithin(from, ops[0].now, ops[|ops| - 1].now, to);
    }
  }
}
