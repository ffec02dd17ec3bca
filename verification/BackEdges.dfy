/** Conditional back-edges of a flow: the tracker that counts activations, and why every
    re-queue loop ends. Scores are exact numbers. */
module BackEdges {
  import opened Wrappers

  datatype Condition =
    | ScoreBelow(threshold: real)
    | CriteriaMissing
    | OutputContains(pattern: string)
    | Always

  datatype TaskResult = TaskResult(output: string, validationScore: Option<real>, validationNotes: seq<string>)

  datatype Edge = Edge(from: string, to: string, condition: Condition, maxIterations: nat)

  type Pair = (string, string)

  function Ends(e: Edge): Pair { (e.from, e.to) }

  predicate Contains(s: string, pattern: string) {
    exists i :: 0 <= i <= |s| - |pattern| && pattern <= s[i..]
  }

  predicate EvaluateCondition(c: Condition, r: TaskResult) {
    match c
    case ScoreBelow(t) => r.validationScore.Some? ==> r.validationScore.value < t
    case CriteriaMissing => r.validationNotes != []
    case OutputContains(p) => Contains(r.output, p)
    case Always => true
  }

  function CountOf(counts: map<Pair, nat>, p: Pair): nat {
    if p in counts then counts[p] else 0
  }

  // ---- sums over maps ----

  ghost function Sum(m: map<Pair, nat>): nat {
    if m == map[] then 0
    else
      assert m.Keys != {};
      var k :| k in m;
      m[k] + Sum(m - {k})
  }

  lemma {:induction false} SumWithout(m: map<Pair, nat>, k: Pair)
    requires k in m
    ensures Sum(m) == m[k] + Sum(m - {k})
    decreases |m|
  {
    assert m.Keys != {};
    var j :| j in m && Sum(m) == m[j] + Sum(m - {j});
    if j != k {
      assert |m - {j}| < |m| && |m - {k}| < |m| by {
        assert (m - {j}).Keys == m.Keys - {j} && (m - {k}).Keys == m.Keys - {k};
      }
      SumWithout(m - {j}, k);
      SumWithout(m - {k}, j);
      assert m - {j} - {k} == m - {k} - {j};
    }
  }

  lemma SumOfUpdate(m: map<Pair, nat>, k: Pair, v: nat)
    ensures Sum(m[k := v]) + CountOf(m, k) == Sum(m) + v
  {
    SumWithout(m[k := v], k);
    assert m[k := v] - {k} == m - {k};
    if k in m {
      SumWithout(m, k);
    } else {
      assert m - {k} == m;
    }
  }

  lemma {:induction false} SumMonotone(m: map<Pair, nat>, n: map<Pair, nat>)
    requires forall k :: k in m ==> k in n && m[k] <= n[k]
    ensures Sum(m) <= Sum(n)
    decreases |m|
  {
    if m != map[] {
      assert m.Keys != {};
      var k :| k in m;
      assert (m - {k}).Keys == m.Keys - {k};
      SumWithout(m, k);
      SumWithout(n, k);
      SumMonotone(m - {k}, n - {k});
    }
  }

  // ---- the tracker ----

  class BackEdgeTracker {
    var counts: map<Pair, nat>
    var globalActivations: nat
    const globalMax: nat

    /** Global activations are the sum of the per-edge counts. */
    ghost predicate Valid()
      reads this
    {
      Sum(counts) == globalActivations
    }

    constructor (max: nat)
      ensures Valid() && Tracked() == Fresh(max)
    {
      counts := map[];
      globalActivations := 0;
      globalMax := max;
    }

    function Tracked(): Tracker
      reads this
    {
      Tracker(counts, globalActivations, globalMax)
    }

    function IterationCount(from: string, to: string): nat
      reads this
    {
      CountOf(counts, (from, to))
    }

    predicate ShouldActivate(edge: Edge, result: TaskResult)
      reads this
    {
      && EvaluateCondition(edge.condition, result)
      && IterationCount(edge.from, edge.to) < edge.maxIterations
      && globalActivations < globalMax
    }

    method RecordActivation(from: string, to: string) returns (count: nat)
      requires Valid()
      modifies this
      ensures Valid() && Tracked() == Recorded(old(Tracked()), (from, to))
      ensures count == IterationCount(from, to) == old(IterationCount(from, to)) + 1
    {
      SumOfUpdate(counts, (from, to), CountOf(counts, (from, to)) + 1);
      globalActivations := globalActivations + 1;
      count := CountOf(counts, (from, to)) + 1;
      counts := counts[(from, to) := count];
    }

    /** How the executor uses the two: an edge is recorded only if it should activate. */
    method Attempt(edge: Edge, result: TaskResult) returns (requeued: bool)
      requires Valid()
      modifies this
      ensures Valid() && (Tracked(), requeued) == Attempted(old(Tracked()), edge, result)
    {
      requeued := ShouldActivate(edge, result);
      if requeued {
        var _ := RecordActivation(edge.from, edge.to);
      }
    }
  }

  // ---- runs ----

  datatype Tracker = Tracker(counts: map<Pair, nat>, total: nat, max: nat)

  function Fresh(max: nat): Tracker { Tracker(map[], 0, max) }

  function Recorded(t: Tracker, p: Pair): Tracker {
    t.(counts := t.counts[p := CountOf(t.counts, p) + 1], total := t.total + 1)
  }

  function Attempted(t: Tracker, e: Edge, r: TaskResult): (Tracker, bool) {
    if EvaluateCondition(e.condition, r) && CountOf(t.counts, Ends(e)) < e.maxIterations && t.total < t.max
    then (Recorded(t, Ends(e)), true) else (t, false)
  }

  type Run = seq<(Edge, TaskResult)>

  function After(max: nat, run: Run): Tracker {
    if run == [] then Fresh(max)
    else Attempted(After(max, run[..|run| - 1]), run[|run| - 1].0, run[|run| - 1].1).0
  }

  // How many attempts of the run re-queued something.
  function Requeues(max: nat, run: Run): nat {
    if run == [] then 0
    else
      var init := run[..|run| - 1];
      Requeues(max, init) + if Attempted(After(max, init), run[|run| - 1].0, run[|run| - 1].1).1 then 1 else 0
  }

  /** The largest iteration limit declared for each pair of tasks. */
  function Limits(edges: seq<Edge>): map<Pair, nat> {
    if edges == [] then map[]
    else
      var m, e := Limits(edges[..|edges| - 1]), edges[|edges| - 1];
      m[Ends(e) := if CountOf(m, Ends(e)) >= e.maxIterations then CountOf(m, Ends(e)) else e.maxIterations]
  }

  lemma {:induction false} LimitsAreUpperBounds(edges: seq<Edge>)
    ensures forall e :: e in edges ==> Ends(e) in Limits(edges) && e.maxIterations <= Limits(edges)[Ends(e)]
  {
    if edges != [] {
      var init := edges[..|edges| - 1];
      LimitsAreUpperBounds(init);
      assert edges == init + [edges[|edges| - 1]];
    }
  }

  // How many of those were along edges between one pair of tasks.
  function RequeuesOf(max: nat, run: Run, p: Pair): nat {
    if run == [] then 0
    else
      var init, a := run[..|run| - 1], run[|run| - 1];
      RequeuesOf(max, init, p) + if Ends(a.0) == p && Attempted(After(max, init), a.0, a.1).1 then 1 else 0
  }

  lemma {:induction false} CountsAreRequeues(max: nat, run: Run, p: Pair)
    ensures var t := After(max, run);
            CountOf(t.counts, p) == RequeuesOf(max, run, p) && t.total == Requeues(max, run) && t.max == max
    decreases |run|
  {
    if run != [] {
      CountsAreRequeues(max, run[..|run| - 1], p);
    }
  }

  /** At any point of any run an edge re-queues exactly when its condition holds of the result, its
      pair of tasks was re-queued less often than the edge allows, and all pairs together less often
      than the global maximum. */
  lemma RequeuedIff(max: nat, run: Run, e: Edge, r: TaskResult)
    ensures Attempted(After(max, run), e, r).1
            <==> EvaluateCondition(e.condition, r)
                 && RequeuesOf(max, run, Ends(e)) < e.maxIterations && Requeues(max, run) < max
  {
    CountsAreRequeues(max, run, Ends(e));
  }

  // Every count stays under its pair's limit, and the counts add up to the total.
  lemma {:induction false} CountsStayLimited(max: nat, run: Run, edges: seq<Edge>)
    requires forall a :: a in run ==> a.0 in edges
    ensures var t := After(max, run);
            && t.max == max && t.total <= max
            && Sum(t.counts) == t.total == Requeues(max, run)
            && forall p :: p in t.counts ==> p in Limits(edges) && t.counts[p] <= Limits(edges)[p]
    decreases |run|
  {
    if run != [] {
      var init, a := run[..|run| - 1], run[|run| - 1];
      CountsStayLimited(max, init, edges);
      assert a in run;
      hide Limits, Sum, EvaluateCondition;
      OneAttempt(After(max, init), a.0, a.1, edges);
    }
  }

  lemma OneAttempt(t: Tracker, e: Edge, r: TaskResult, edges: seq<Edge>)
    requires e in edges && t.total <= t.max && Sum(t.counts) == t.total
    requires forall p :: p in t.counts ==> p in Limits(edges) && t.counts[p] <= Limits(edges)[p]
    ensures var (u, requeued) := Attempted(t, e, r);
            && u.max == t.max && u.total <= u.max && u.total == t.total + (if requeued then 1 else 0)
            && Sum(u.counts) == u.total
            && forall p :: p in u.counts ==> p in Limits(edges) && u.counts[p] <= Limits(edges)[p]
  {
    LimitsAreUpperBounds(edges);
    SumOfUpdate(t.counts, Ends(e), CountOf(t.counts, Ends(e)) + 1);
    hide Limits, Sum, EvaluateCondition;
  }

  /** However long a flow runs, what it re-queues is bounded by the global maximum and by the sum,
      over distinct task pairs, of their largest limits. So every loop of back-edges ends. */
  lemma RequeuesAreBounded(max: nat, run: Run, edges: seq<Edge>)
    requires forall a :: a in run ==> a.0 in edges
    ensures Requeues(max, run) <= max && Requeues(max, run) <= Sum(Limits(edges))
  {
    CountsStayLimited(max, run, edges);
    SumMonotone(After(max, run).counts, Limits(edges));
  }

  /** The bound is met: one edge whose condition keeps holding re-queues exactly until the first
      of its two limits. */
  lemma {:induction false} LoopRunsToItsLimit(max: nat, e: Edge, run: Run)
    requires forall a :: a in run ==> a.0 == e && EvaluateCondition(e.condition, a.1)
    ensures var n := if e.maxIterations <= max then e.maxIterations else max;
            Requeues(max, run) == if |run| <= n then |run| else n
    decreases |run|
  {
    LoopState(max, e, run);
    if run != [] {
      var init := run[..|run| - 1];
      LoopState(max, e, init);
      LoopRunsToItsLimit(max, e, init);
      assert run[|run| - 1] in run;
    }
  }

  lemma {:induction false} LoopState(max: nat, e: Edge, run: Run)
    requires forall a :: a in run ==> a.0 == e
    ensures var t := After(max, run);
            t.max == max && t.total == Requeues(max, run) == CountOf(t.counts, Ends(e))
    decreases |run|
  {
    if run != [] {
      LoopState(max, e, run[..|run| - 1]);
      assert run[|run| - 1] in run;
    }
  }

  /** The limit of a pair is one that some edge declares, so the bound is not loose. */
  lemma {:induction false} LimitsAreDeclared(edges: seq<Edge>, p: Pair)
    requires p in Limits(edges)
    ensures exists e :: e in edges && Ends(e) == p && Limits(edges)[p] == e.maxIterations
    decreases |edges|
  {
    var init, last := edges[..|edges| - 1], edges[|edges| - 1];
    assert last in edges;
    if p in Limits(init) {
      LimitsAreDeclared(init, p);
      var e :| e in init && Ends(e) == p && Limits(init)[p] == e.maxIterations;
      assert e in edges;
    }
  }

  /** What each condition asks of a result: a score below the threshold, or none at all; some note;
      the pattern anywhere in the output; nothing. */
  lemma ConditionsMean(r: TaskResult, threshold: real, pattern: string)
    ensures r.validationScore == None ==> EvaluateCondition(ScoreBelow(threshold), r)
    ensures forall score :: r.validationScore == Some(score) ==>
              (EvaluateCondition(ScoreBelow(threshold), r) <==> score < threshold)
    ensures EvaluateCondition(CriteriaMissing, r) <==> |r.validationNotes| > 0
    ensures EvaluateCondition(OutputContains(pattern), r) <==>
            exists before: string, after: string :: r.output == before + pattern + after
    ensures EvaluateCondition(Always, r)
  {
    var s := r.output;
    if i :| 0 <= i <= |s| - |pattern| && pattern <= s[i..] {
      assert s == s[..i] + pattern + s[i + |pattern|..];
    }
    if before: string, after: string :| s == before + pattern + after {
      assert s[|before|..] == pattern + after;
    }
  }
}
