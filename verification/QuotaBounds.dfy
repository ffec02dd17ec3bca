/** What the token bucket guarantees over whole runs: how much any interval admits, what splitting
    a wait into many refills costs, and who is ever admitted again. */
module QuotaBounds {
  import opened Quota
  import opened Wrappers

  // ---- floors ----

  lemma FloorOfSum(a: nat, b: nat, s: nat)
    requires s > 0
    ensures a / s + b / s <= (a + b) / s <= a / s + b / s + 1
  {
    DivMod(a, s);
    DivMod(b, s);
    FloorOfParts(a + b, s, a / s, a % s, b / s, b % s);
  }

  lemma DivMod(n: nat, s: nat)
    requires s > 0
    ensures n == s * (n / s) + n % s && n % s < s
  {
  }

  lemma FloorOfParts(n: nat, s: nat, p: nat, x: nat, q: nat, y: nat)
    requires x < s && y < s && n == s * p + x + (s * q + y)
    ensures p + q <= n / s <= p + q + 1
  {
    Distribute(s, p, q);
    if x + y < s {
      DivUnique(n, s, p + q, x + y);
    } else {
      Distribute(s, p + q, 1);
      DivUnique(n, s, p + q + 1, x + y - s);
    }
  }

  lemma Distribute(s: nat, p: nat, q: nat)
    ensures s * (p + q) == s * p + s * q
  {
  }

  lemma DivUnique(n: nat, s: nat, q: nat, r: nat)
    requires s > 0 && n == s * q + r && r < s
    ensures n / s == q
  {
    var p := n / s;
    assert n == s * p + n % s;
    MultiplesApart(s, p, q);
    MultiplesApart(s, q, p);
  }

  lemma MultiplesApart(s: nat, p: nat, q: nat)
    ensures p < q ==> s * p + s <= s * q
  {
    if p < q {
      assert s * q == s * p + s * (q - p);
      AtLeastItself(q - p, s);
    }
  }

  lemma AtLeastItself(n: nat, s: nat)
    requires n >= 1
    ensures s * n >= s
  {
    assert s * n == s + s * (n - 1);
  }

  lemma FloorMonotone(a: nat, b: nat, s: nat)
    requires s > 0 && a <= b
    ensures a / s <= b / s
  {
    FloorOfSum(a, b - a, s);
  }

  // What `micros` microseconds are worth at a rate, before the cap.
  function Worth(rate: nat, micros: nat): nat { rate * micros / SCALE }

  lemma WorthOfSum(rate: nat, m: nat, n: nat)
    ensures Worth(rate, m) + Worth(rate, n) <= Worth(rate, m + n) <= Worth(rate, m) + Worth(rate, n) + 1
  {
    assert rate * (m + n) == rate * m + rate * n;
    FloorOfSum(rate * m, rate * n, SCALE);
  }

  lemma WorthMonotone(rate: nat, m: nat, n: nat)
    requires m <= n
    ensures Worth(rate, m) <= Worth(rate, n)
  {
    WorthOfSum(rate, m, n - m);
  }

  // ---- runs of one bucket ----

  datatype Op = Consume(now: nat) | Query(now: nat)

  function StepOp(s: BucketState, op: Op): (BucketState, bool) {
    match op
    case Consume(now) => Consumed(s, now)
    case Query(now) => (Refilled(s, now), false)
  }

  function Final(s: BucketState, run: seq<Op>): BucketState {
    if run == [] then s else StepOp(Final(s, run[..|run| - 1]), run[|run| - 1]).0
  }

  // Calls admitted in the run.
  function Admitted(s: BucketState, run: seq<Op>): nat {
    if run == [] then 0
    else
      var init := run[..|run| - 1];
      Admitted(s, init) + if StepOp(Final(s, init), run[|run| - 1]).1 then 1 else 0
  }

  ghost predicate InOrder(run: seq<Op>) {
    forall i, j :: 0 <= i < j < |run| ==> run[i].now <= run[j].now
  }

  // Microseconds between two clock readings, rounded down.
  function Span(from: nat, to: nat): nat
    requires from <= to
  {
    (to - from) / 1000
  }

  lemma SpansAdd(a: nat, b: nat, c: nat)
    requires a <= b <= c
    ensures Span(a, b) + Span(b, c) <= Span(a, c) <= Span(a, b) + Span(b, c) + 1
  {
    FloorOfSum(b - a, c - b, 1000);
  }

  lemma RefillAddsAtMost(s: BucketState, now: nat)
    requires Bounded(s) && s.lastRefill <= now
    ensures Bounded(Refilled(s, now))
    ensures Refilled(s, now).tokens <= s.tokens + Worth(s.refillRate, Span(s.lastRefill, now))
  {
    var m, span := ElapsedMicros(s.lastRefill, now), Span(s.lastRefill, now);
    assert m <= span;
    WorthMonotone(s.refillRate, m, span);
    assert m * s.refillRate == s.refillRate * m;
    FloorMonotone(SaturatingMul(m, s.refillRate), s.refillRate * m, SCALE);
  }

  // Tokens spent plus tokens left never exceed a full bucket plus what the time since the first
  // call was worth.
  lemma {:induction false} SpentPlusLeft(s: BucketState, run: seq<Op>)
    requires Bounded(s) && run != [] && InOrder(run) && s.lastRefill <= run[0].now
    ensures var f := Final(s, run);
            && Bounded(f) && f.lastRefill == run[|run| - 1].now
            && f.maxTokens == s.maxTokens && f.refillRate == s.refillRate
            && Admitted(s, run) * SCALE + f.tokens <= s.maxTokens + Worth(s.refillRate, Span(run[0].now, f.lastRefill))
    decreases |run|
  {
    var init, op := run[..|run| - 1], run[|run| - 1];
    var b := Final(s, init);
    if init == [] {
      assert b == s && Admitted(s, init) == 0;
      OneOperation(s, op);
    } else {
      assert init[0] == run[0] && init[|init| - 1] == run[|run| - 2];
      SpentPlusLeft(s, init);
      OneOperation(b, op);
      WorthOfSpans(s.refillRate, run[0].now, b.lastRefill, op.now);
    }
    hide InOrder, Worth, Span, StepOp, Bounded;
  }

  // One operation spends what it admits, and gains at most what the time before it was worth.
  lemma OneOperation(b: BucketState, op: Op)
    requires Bounded(b) && b.lastRefill <= op.now
    ensures var (after, admitted) := StepOp(b, op);
            && Bounded(after) && after.lastRefill == op.now
            && after.maxTokens == b.maxTokens && after.refillRate == b.refillRate
            && (if admitted then SCALE else 0) + after.tokens
               <= b.tokens + Worth(b.refillRate, Span(b.lastRefill, op.now))
  {
    hide Worth, Span;
    RefillAddsAtMost(b, op.now);
  }

  lemma WorthOfSpans(rate: nat, a: nat, b: nat, c: nat)
    requires a <= b <= c
    ensures Worth(rate, Span(a, b)) + Worth(rate, Span(b, c)) <= Worth(rate, Span(a, c))
  {
    hide Worth;
    SpansAdd(a, b, c);
    hide Span;
    WorthOfSum(rate, Span(a, b), Span(b, c));
    WorthMonotone(rate, Span(a, b) + Span(b, c), Span(a, c));
  }

  /** Over any stretch of any run that lasts T microseconds, the calls admitted, in scaled tokens,
      are at most one full bucket plus what T is worth. */
  lemma IntervalBound(s: BucketState, run: seq<Op>)
    requires Bounded(s) && run != [] && InOrder(run) && s.lastRefill <= run[0].now
    ensures Admitted(s, run) * SCALE <= s.maxTokens + Worth(s.refillRate, Span(run[0].now, run[|run| - 1].now))
  {
    SpentPlusLeft(s, run);
  }

  // A bucket as some limit creates it, at any later moment of its life.
  ghost predicate Serves(s: BucketState, limit: RateLimit) {
    && limit.windowSecs > 0 && Bounded(s)
    && s.maxTokens == SaturatingMul(limit.maxCalls, SCALE)
    && s.refillRate == s.maxTokens / limit.windowSecs
  }

  lemma RateFits(max: nat, w: nat)
    requires w > 0
    ensures max / w <= max
  {
    var q := max / w;
    assert max == w * q + max % w && w * q == q * w;
    AtLeastItself(w, q);
  }

  lemma {:induction false} ServesForever(limit: RateLimit, start: nat, run: seq<Op>)
    requires limit.windowSecs > 0 && InOrder(run) && (run != [] ==> start <= run[0].now)
    ensures Serves(Final(FreshBucket(limit, start), run), limit)
    ensures run != [] ==> Final(FreshBucket(limit, start), run).lastRefill == run[|run| - 1].now
  {
    var s := FreshBucket(limit, start);
    RateFits(s.maxTokens, limit.windowSecs);
    if run != [] {
      SpentPlusLeft(s, run);
    }
  }

  // A window's worth of refill is at most one full bucket.
  lemma WindowIsWorthABucket(s: BucketState, limit: RateLimit, micros: nat)
    requires Serves(s, limit) && micros <= limit.windowSecs * SCALE
    ensures Worth(s.refillRate, micros) <= s.maxTokens
  {
    var w := limit.windowSecs;
    WorthMonotone(s.refillRate, micros, w * SCALE);
    assert s.refillRate * (w * SCALE) == SCALE * (s.refillRate * w);
    DivUnique(s.refillRate * (w * SCALE), SCALE, s.refillRate * w, 0);
    assert s.refillRate * w <= s.maxTokens by {
      assert s.maxTokens == w * (s.maxTokens / w) + s.maxTokens % w;
    }
  }

  /** One window admits at most twice the configured number of calls. */
  lemma WindowBound(s: BucketState, limit: RateLimit, run: seq<Op>)
    requires Serves(s, limit) && run != [] && InOrder(run) && s.lastRefill <= run[0].now
    requires Span(run[0].now, run[|run| - 1].now) <= limit.windowSecs * SCALE
    ensures Admitted(s, run) <= 2 * limit.maxCalls
  {
    IntervalBound(s, run);
    WindowIsWorthABucket(s, limit, Span(run[0].now, run[|run| - 1].now));
    assert Admitted(s, run) * SCALE <= 2 * limit.maxCalls * SCALE;
  }

  // ---- how tight the window bound is ----

  function Burst(start: nat, n: nat): seq<Op> {
    seq(n, _ => Consume(start))
  }

  // A full bucket hands out its calls at once.
  lemma {:induction false} BurstDrains(limit: RateLimit, start: nat, n: nat)
    requires limit.windowSecs > 0 && limit.maxCalls * SCALE <= U64_MAX && n <= limit.maxCalls
    ensures var s := FreshBucket(limit, start);
            && Admitted(s, Burst(start, n)) == n
            && Final(s, Burst(start, n)) == s.(tokens := (limit.maxCalls - n) * SCALE)
  {
    RateFits(limit.maxCalls * SCALE, limit.windowSecs);
    if n > 0 {
      BurstDrains(limit, start, n - 1);
      var run := Burst(start, n);
      assert run[..|run| - 1] == Burst(start, n - 1);
      var b := Final(FreshBucket(limit, start), Burst(start, n - 1));
      assert b.tokens == (limit.maxCalls - n) * SCALE + SCALE;
      ImmediateCall(b);
      hide Consumed;
    }
  }

  // No time passes, so the next call just takes its token.
  lemma ImmediateCall(b: BucketState)
    requires Bounded(b) && b.tokens >= SCALE
    ensures Consumed(b, b.lastRefill) == (b.(tokens := b.tokens - SCALE), true)
  {
    assert ElapsedMicros(b.lastRefill, b.lastRefill) == 0;
    assert SaturatingMul(0, b.refillRate) == 0;
  }

  ghost predicate ExceedsWithinWindow(limit: RateLimit, start: nat, run: seq<Op>)
    requires limit.windowSecs > 0
  {
    && run != [] && InOrder(run) && start <= run[0].now
    && Span(run[0].now, run[|run| - 1].now) < limit.windowSecs * SCALE
    && Admitted(FreshBucket(limit, start), run) > limit.maxCalls
  }

  /** A stretch shorter than one window can admit more than the configured calls exactly when
      the refill of a wait one microsecond shorter than the window is worth a whole call. */
  lemma WindowCanBeExceededIff(limit: RateLimit, start: nat)
    requires limit.windowSecs > 0 && limit.maxCalls * SCALE <= U64_MAX && limit.windowSecs * SCALE <= U64_MAX
    requires limit.maxCalls >= 1
    ensures (exists run :: ExceedsWithinWindow(limit, start, run)) <==>
            Worth(FreshBucket(limit, start).refillRate, limit.windowSecs * SCALE - 1) >= SCALE
  {
    var m := limit.windowSecs * SCALE - 1;
    if run: seq<Op> :| ExceedsWithinWindow(limit, start, run) {
      ExceedingNeedsRefill(limit, start, run);
    }
    if Worth(FreshBucket(limit, start).refillRate, m) >= SCALE {
      BurstThenLateCallExceeds(limit, start, m);
    }
  }

  lemma ExceedingNeedsRefill(limit: RateLimit, start: nat, run: seq<Op>)
    requires limit.windowSecs > 0 && limit.maxCalls * SCALE <= U64_MAX
    ensures ExceedsWithinWindow(limit, start, run) ==>
              Worth(FreshBucket(limit, start).refillRate, limit.windowSecs * SCALE - 1) >= SCALE
  {
    if ExceedsWithinWindow(limit, start, run) {
      var s := FreshBucket(limit, start);
      RateFits(s.maxTokens, limit.windowSecs);
      IntervalBound(s, run);
      WorthMonotone(s.refillRate, Span(run[0].now, run[|run| - 1].now), limit.windowSecs * SCALE - 1);
      hide Worth, Span, Admitted;
    }
  }

  lemma BurstThenLateCallExceeds(limit: RateLimit, start: nat, m: nat)
    requires limit.windowSecs > 0 && limit.maxCalls >= 1 && limit.maxCalls * SCALE <= U64_MAX
    requires m == limit.windowSecs * SCALE - 1 && m <= U64_MAX
    requires Worth(FreshBucket(limit, start).refillRate, m) >= SCALE
    ensures exists run :: ExceedsWithinWindow(limit, start, run)
  {
    var s := FreshBucket(limit, start);
    var burst := Burst(start, limit.maxCalls);
    BurstDrains(limit, start, limit.maxCalls);
    var run := burst + [Consume(start + m * 1000)];
    assert run[..|run| - 1] == burst;
    LateCallIsAdmitted(Final(s, burst), m);
    assert Admitted(s, run) == limit.maxCalls + 1;
    DivUnique(m * 1000, 1000, m, 0);
    assert Span(start, start + m * 1000) == m;
    assert ExceedsWithinWindow(limit, start, run);
  }

  lemma LateCallIsAdmitted(b: BucketState, m: nat)
    requires b.maxTokens >= SCALE && m <= U64_MAX && Worth(b.refillRate, m) >= SCALE
    ensures Consumed(b, b.lastRefill + m * 1000).1
  {
    DivUnique(m * 1000, 1000, m, 0);
    assert ElapsedMicros(b.lastRefill, b.lastRefill + m * 1000) == m;
    assert m * b.refillRate == b.refillRate * m;
  }

  // ---- splitting a wait ----

  // The tokens after one refill of `m` microseconds.
  function Wait(tokens: nat, rate: nat, max: nat, m: nat): nat {
    Min(tokens + Worth(rate, m), max)
  }

  function Sum(gaps: seq<nat>): nat {
    if gaps == [] then 0 else Sum(gaps[..|gaps| - 1]) + gaps[|gaps| - 1]
  }

  function Waits(tokens: nat, rate: nat, max: nat, gaps: seq<nat>): nat {
    if gaps == [] then tokens
    else Wait(Waits(tokens, rate, max, gaps[..|gaps| - 1]), rate, max, gaps[|gaps| - 1])
  }

  /** While products stay inside 64 bits, a refill is a wait of whole microseconds. */
  lemma RefillIsWait(s: BucketState, now: nat)
    requires Bounded(s) && s.lastRefill <= now
    requires s.refillRate * Span(s.lastRefill, now) <= U64_MAX && Span(s.lastRefill, now) <= U64_MAX
    ensures Refilled(s, now).tokens == Wait(s.tokens, s.refillRate, s.maxTokens, Span(s.lastRefill, now))
  {
    assert ElapsedMicros(s.lastRefill, now) == Span(s.lastRefill, now);
    assert Span(s.lastRefill, now) * s.refillRate == s.refillRate * Span(s.lastRefill, now);
  }

  /** Splitting one wait into k refills never gives more tokens than a single refill of the whole
      wait, and loses at most k - 1 scaled units. */
  lemma {:induction false} RefillDrift(tokens: nat, rate: nat, max: nat, gaps: seq<nat>)
    requires gaps != [] && tokens <= max
    ensures var one, many := Wait(tokens, rate, max, Sum(gaps)), Waits(tokens, rate, max, gaps);
            many <= one <= many + (|gaps| - 1)
    decreases |gaps|
  {
    var init, last := gaps[..|gaps| - 1], gaps[|gaps| - 1];
    if init == [] {
      assert Waits(tokens, rate, max, init) == tokens && Sum(gaps) == last;
    } else {
      RefillDrift(tokens, rate, max, init);
      WorthOfSum(rate, Sum(init), last);
    }
  }

  // The whole microseconds that each refill of a run sees.
  function Gaps(from: nat, run: seq<Op>): seq<nat>
    requires InOrder(run) && (run != [] ==> from <= run[0].now)
  {
    if run == [] then []
    else
      var init, to := run[..|run| - 1], run[|run| - 1].now;
      Gaps(from, init) + [Span(if init == [] then from else init[|init| - 1].now, to)]
  }

  // The products of a refill over the whole stretch stay inside 64 bits.
  ghost predicate InRange(s: BucketState, to: nat) {
    s.lastRefill <= to && Span(s.lastRefill, to) <= U64_MAX && s.refillRate * Span(s.lastRefill, to) <= U64_MAX
  }

  lemma InRangeOfPart(s: BucketState, b: BucketState, to: nat)
    requires InRange(s, to) && b.refillRate == s.refillRate && s.lastRefill <= b.lastRefill <= to
    ensures InRange(s, b.lastRefill) && InRange(b, to)
  {
    SpansAdd(s.lastRefill, b.lastRefill, to);
    var p, q, n := Span(s.lastRefill, b.lastRefill), Span(b.lastRefill, to), Span(s.lastRefill, to);
    hide Span;
    Distribute(s.refillRate, p, n - p);
    Distribute(s.refillRate, q, n - q);
  }

  lemma {:induction false} QueriesAreWaits(s: BucketState, run: seq<Op>)
    requires Bounded(s) && run != [] && InOrder(run) && s.lastRefill <= run[0].now
    requires InRange(s, run[|run| - 1].now) && forall op :: op in run ==> op.Query?
    ensures var gaps := Gaps(s.lastRefill, run);
            && |gaps| == |run|
            && Sum(gaps) <= Span(s.lastRefill, run[|run| - 1].now) <= Sum(gaps) + (|run| - 1)
            && Final(s, run).tokens == Waits(s.tokens, s.refillRate, s.maxTokens, gaps)
    decreases |run|
  {
    var init, last := run[..|run| - 1], run[|run| - 1];
    var gaps := Gaps(s.lastRefill, run);
    assert gaps[..|gaps| - 1] == Gaps(s.lastRefill, init);
    assert last in run;
    hide Span, Worth, Wait, Refilled, Consumed;
    if init == [] {
      RefillIsWait(s, last.now);
    } else {
      var b := Final(s, init);
      SpentPlusLeft(s, init);
      assert init[|init| - 1] == run[|run| - 2];
      InRangeOfPart(s, b, last.now);
      QueriesAreWaits(s, init);
      RefillIsWait(b, last.now);
      SpansAdd(s.lastRefill, b.lastRefill, last.now);
    }
  }

  lemma OneQuestion(s: BucketState, now: nat)
    requires Bounded(s) && InRange(s, now)
    ensures Refilled(s, now).tokens == Wait(s.tokens, s.refillRate, s.maxTokens, Span(s.lastRefill, now))
  {
    RefillIsWait(s, now);
  }

  lemma WaitGrows(tokens: nat, rate: nat, max: nat, m: nat, n: nat)
    requires m <= n
    ensures Wait(tokens, rate, max, m) <= Wait(tokens, rate, max, n)
            <= Wait(tokens, rate, max, m) + (if n == m then 0 else Worth(rate, n - m) + 1)
  {
    WorthOfSum(rate, m, n - m);
    hide Worth;
  }

  // What extra refills and dropped microseconds may cost.
  function Loss(rate: nat, extra: nat, lost: nat): nat {
    extra + if lost == 0 then 0 else Worth(rate, lost) + 1
  }

  lemma DriftWithFractions(tokens: nat, rate: nat, max: nat, gaps: seq<nat>, total: nat)
    requires gaps != [] && tokens <= max && Sum(gaps) <= total
    ensures var one, many := Wait(tokens, rate, max, total), Waits(tokens, rate, max, gaps);
            many <= one <= many + Loss(rate, |gaps| - 1, total - Sum(gaps))
  {
    hide Worth, Wait, Waits, Sum;
    RefillDrift(tokens, rate, max, gaps);
    WaitGrows(tokens, rate, max, Sum(gaps), total);
  }

  /** The same of the bucket itself: asking it often while waiting never leaves it with more
      tokens than asking once at the end. Every extra question costs at most one scaled unit and
      one microsecond, for the fraction its refill drops; `lost` counts those microseconds. */
  lemma AskingOftenCostsTokens(s: BucketState, run: seq<Op>)
    requires Bounded(s) && run != [] && InOrder(run) && s.lastRefill <= run[0].now
    requires InRange(s, run[|run| - 1].now) && forall op :: op in run ==> op.Query?
    ensures var now := run[|run| - 1].now;
            var one, many := Refilled(s, now).tokens, Final(s, run).tokens;
            var lost := Span(s.lastRefill, now) - Sum(Gaps(s.lastRefill, run));
            0 <= lost <= |run| - 1 && many <= one <= many + Loss(s.refillRate, |run| - 1, lost)
  {
    var now := run[|run| - 1].now;
    QueriesAreWaits(s, run);
    OneQuestion(s, now);
    hide InOrder, Worth, Wait, Waits, Gaps, Sum, Refilled, Final, Loss, Span;
    DriftWithFractions(s.tokens, s.refillRate, s.maxTokens, Gaps(s.lastRefill, run), Span(s.lastRefill, now));
  }

  // ---- starvation ----

  ghost predicate Worthless(rate: nat, gaps: seq<nat>) {
    forall i :: 0 <= i < |gaps| ==> rate * gaps[i] < SCALE
  }

  lemma WorthlessSnoc(rate: nat, gaps: seq<nat>, gap: nat)
    ensures Worthless(rate, gaps + [gap]) <==> Worthless(rate, gaps) && rate * gap < SCALE
  {
    assert forall i :: 0 <= i < |gaps| ==> (gaps + [gap])[i] == gaps[i];
    assert (gaps + [gap])[|gaps|] == gap;
  }

  // One operation on a bucket without a whole token: it gains nothing exactly when the gap is
  // worth nothing, and is refused unless it gained.
  lemma OneGap(b: BucketState, op: Op)
    requires Bounded(b) && b.tokens < SCALE && b.tokens < b.maxTokens && InRange(b, op.now)
    ensures var gap := Span(b.lastRefill, op.now);
            var (after, admitted) := StepOp(b, op);
            if b.refillRate * gap < SCALE then after.tokens == b.tokens && !admitted
            else admitted || after.tokens > b.tokens
  {
    OneQuestion(b, op.now);
    var gap := Span(b.lastRefill, op.now);
    hide Span;
    assert b.refillRate * gap < SCALE <==> Worth(b.refillRate, gap) == 0;
    hide Worth, Refilled;
  }

  lemma RefusedNeverLoses(b: BucketState, op: Op)
    requires Bounded(b)
    ensures StepOp(b, op).1 || StepOp(b, op).0.tokens >= b.tokens
  {
  }

  /** A bucket without a whole token stays exactly as it is, and refuses every call, over a run of
      calls and queries of any length, if and only if no single gap between two of them is worth one
      scaled unit, however long the run lasts in all. */
  lemma {:induction false} PollingStarvesIffGapsAreWorthless(s: BucketState, run: seq<Op>)
    requires Bounded(s) && s.tokens < SCALE && s.tokens < s.maxTokens
    requires InOrder(run) && (run != [] ==> s.lastRefill <= run[0].now && InRange(s, run[|run| - 1].now))
    ensures Final(s, run).tokens >= s.tokens || Admitted(s, run) > 0
    ensures Final(s, run).tokens == s.tokens && Admitted(s, run) == 0
            <==> Worthless(s.refillRate, Gaps(s.lastRefill, run))
    decreases |run|
  {
    if run != [] {
      var init, last := run[..|run| - 1], run[|run| - 1];
      var b := Final(s, init);
      AfterInit(s, run);
      PollingStarvesIffGapsAreWorthless(s, init);
      hide InRange, Bounded, InOrder, Worthless, Gaps, Span, StepOp;
      if b.tokens == s.tokens && Admitted(s, init) == 0 {
        OneGap(b, last);
      } else {
        RefusedNeverLoses(b, last);
      }
      WorthlessSnoc(s.refillRate, Gaps(s.lastRefill, init), Span(b.lastRefill, last.now));
    }
  }

  lemma AfterInit(s: BucketState, run: seq<Op>)
    requires Bounded(s) && run != [] && InOrder(run) && s.lastRefill <= run[0].now && InRange(s, run[|run| - 1].now)
    ensures var init, b, last := run[..|run| - 1], Final(s, run[..|run| - 1]), run[|run| - 1];
            && Bounded(b) && b.refillRate == s.refillRate && b.maxTokens == s.maxTokens
            && InOrder(init) && (init != [] ==> s.lastRefill <= init[0].now && InRange(s, init[|init| - 1].now))
            && b.lastRefill <= last.now && InRange(b, last.now)
            && Gaps(s.lastRefill, run) == Gaps(s.lastRefill, init) + [Span(b.lastRefill, last.now)]
  {
    var init, b, last := run[..|run| - 1], Final(s, run[..|run| - 1]), run[|run| - 1];
    if init != [] {
      SpentPlusLeft(s, init);
      assert init[|init| - 1] == run[|run| - 2] && init[0] == run[0];
    }
    hide Span, Worth;
    InRangeOfPart(s, b, last.now);
  }

  // ---- admission ----

  // A wait in microseconds after which one call is certainly affordable.
  function LongEnough(rate: nat): nat
    requires rate > 0
  {
    (SCALE * SCALE + rate - 1) / rate
  }

  lemma LongEnoughIsWorthACall(rate: nat, m: nat)
    requires rate > 0 && m >= LongEnough(rate)
    ensures rate * m >= SCALE * SCALE
  {
    var n := SCALE * SCALE + rate - 1;
    assert n == rate * (n / rate) + n % rate;
    assert rate * m >= rate * (n / rate);
  }

  lemma AdmittedAfterLongWait(s: BucketState, now: nat)
    requires Bounded(s) && s.refillRate > 0 && s.maxTokens >= SCALE
    requires s.lastRefill <= now && LongEnough(s.refillRate) <= Span(s.lastRefill, now) <= U64_MAX
    ensures Consumed(s, now).1
  {
    var m := Span(s.lastRefill, now);
    LongEnoughIsWorthACall(s.refillRate, m);
    assert m * s.refillRate == s.refillRate * m;
    FloorMonotone(SCALE * SCALE, SaturatingMul(m, s.refillRate), SCALE);
    assert SCALE * SCALE / SCALE == SCALE;
  }

  lemma LongEnoughFits(rate: nat)
    requires rate > 0
    ensures LongEnough(rate) <= SCALE * SCALE
  {
    var n, m := SCALE * SCALE + rate - 1, SCALE * SCALE;
    var q := n / rate;
    assert n == rate * q + n % rate && rate * m == m * rate;
    MultiplesApart(rate, m, q);
    AtLeastItself(rate, m);
  }

  lemma RateIsPositiveIff(max: nat, w: nat)
    requires w > 0
    ensures max / w > 0 <==> w <= max
  {
    if w <= max {
      FloorMonotone(w, max, w);
    }
  }

  // With a zero rate the tokens never grow.
  lemma ZeroRateNeverRefills(s: BucketState, now: nat)
    requires Bounded(s) && s.refillRate == 0 && s.lastRefill <= now && s.tokens < SCALE
    ensures !Consumed(s, now).1
  {
    assert SaturatingMul(ElapsedMicros(s.lastRefill, now), 0) == 0;
  }

  /** A drained bucket ever admits another call exactly when its limit allows a call at all and
      its window is not so long that the refill rate rounds down to zero. */
  lemma DrainedBucketRecoversIff(s: BucketState, limit: RateLimit)
    requires Serves(s, limit) && s.tokens < SCALE
    ensures (exists now :: s.lastRefill <= now && Consumed(s, now).1) <==>
            limit.maxCalls >= 1 && limit.windowSecs <= s.maxTokens
  {
    RateIsPositiveIff(s.maxTokens, limit.windowSecs);
    if limit.maxCalls >= 1 && limit.windowSecs <= s.maxTokens {
      LongEnoughFits(s.refillRate);
      var now := s.lastRefill + LongEnough(s.refillRate) * 1000;
      AdmittedAfterLongWait(s, now);
    }
    if now :| s.lastRefill <= now && Consumed(s, now).1 {
      if s.refillRate == 0 {
        ZeroRateNeverRefills(s, now);
      }
      assert s.maxTokens >= SCALE;
    }
  }
}
