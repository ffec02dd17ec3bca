/** The trust score of a session, for calls in sequence: successes raise it under a per-minute
    cap, denials and safety triggers lower it, and idle time lowers the score that is shown.
    Time is a natural number of nanoseconds. */
module TrustScore {
  import opened Wrappers

  const I64_MAX: int := 0x7FFF_FFFF_FFFF_FFFF
  const I64_MIN: int := -0x8000_0000_0000_0000
  const SECOND: nat := 1_000_000_000

  function Clamp(n: int): int {
    if n > I64_MAX then I64_MAX else if n < I64_MIN then I64_MIN else n
  }

  datatype Config = Config(
    baseline: int,
    maxScore: int,
    positiveDelta: int,
    denialPenalty: int,
    safetyPenalty: int,
    decayPerMinute: int,
    readOnlyThreshold: int,
    suspendThreshold: int,
    maxGainPerMinute: int)

  datatype TrustState = Normal | ReadOnly | Suspended

  datatype Score = Score(score: int, lastActivity: nat, gainStart: nat, gain: int)

  function ElapsedSecs(since: nat, now: nat): nat {
    if now < since then 0 else (now - since) / SECOND
  }

  // ---- steps ----

  function Created(c: Config, now: nat): Score {
    Score(c.baseline, now, now, 0)
  }

  function Raised(c: Config, s: Score, now: nat): Score {
    s.(score := Min(Clamp(s.score + c.positiveDelta), c.maxScore), lastActivity := now)
  }

  function Succeeded(c: Config, s: Score, now: nat): Score {
    if c.maxGainPerMinute <= 0 then Raised(c, s, now)
    else
      var s' := if ElapsedSecs(s.gainStart, now) >= 60 then s.(gainStart := now, gain := 0) else s;
      if s'.gain >= c.maxGainPerMinute then s'.(lastActivity := now)
      else Raised(c, s'.(gain := s'.gain + c.positiveDelta), now)
  }

  function Penalized(s: Score, penalty: int, now: nat): Score {
    s.(score := Max(Clamp(s.score - penalty), 0), lastActivity := now)
  }

  function CurrentScore(c: Config, s: Score, now: nat): int {
    Max(s.score - ElapsedSecs(s.lastActivity, now) / 60 * c.decayPerMinute, 0)
  }

  function StateOf(c: Config, score: int): TrustState {
    if score < c.suspendThreshold then Suspended else if score < c.readOnlyThreshold then ReadOnly else Normal
  }

  class Session {
    const config: Config
    var score: int
    var lastActivity: nat
    var gainStart: nat
    var gain: int

    function State(): Score
      reads this
    {
      Score(score, lastActivity, gainStart, gain)
    }

    constructor (config: Config, now: nat)
      ensures this.config == config && State() == Created(config, now)
    {
      this.config := config;
      score := config.baseline;
      lastActivity, gainStart, gain := now, now, 0;
    }

    method RecordSuccess(now: nat)
      modifies this
      ensures State() == Succeeded(config, old(State()), now) == Step(config, old(State()), Success(now))
    {
      if config.maxGainPerMinute > 0 {
        if ElapsedSecs(gainStart, now) >= 60 {
          gainStart, gain := now, 0;
        }
        if gain >= config.maxGainPerMinute {
          lastActivity := now;
          return;
        }
        gain := gain + config.positiveDelta;
      }
      score := Min(Clamp(score + config.positiveDelta), config.maxScore);
      lastActivity := now;
    }

    method RecordDenial(now: nat)
      modifies this
      ensures State() == Penalized(old(State()), config.denialPenalty, now) == Step(config, old(State()), Denial(now))
    {
      score := Max(Clamp(score - config.denialPenalty), 0);
      lastActivity := now;
    }

    method RecordSafetyTrigger(now: nat)
      modifies this
      ensures State() == Penalized(old(State()), config.safetyPenalty, now) == Step(config, old(State()), SafetyTrigger(now))
    {
      score := Max(Clamp(score - config.safetyPenalty), 0);
      lastActivity := now;
    }

    method CurrentState(now: nat) returns (shown: int, state: TrustState)
      ensures shown == CurrentScore(config, State(), now) && state == StateOf(config, shown)
      ensures state == Suspended <==> shown < config.suspendThreshold
      ensures state == ReadOnly <==> config.suspendThreshold <= shown < config.readOnlyThreshold
    {
      var minutes := ElapsedSecs(lastActivity, now) / 60;
      shown := Max(score - minutes * config.decayPerMinute, 0);
      if shown < config.suspendThreshold {
        state := Suspended;
      } else if shown < config.readOnlyThreshold {
        state := ReadOnly;
      } else {
        state := Normal;
      }
    }
  }

  // ---- runs ----

  datatype Signal = Success(now: nat) | Denial(now: nat) | SafetyTrigger(now: nat)

  function Step(c: Config, s: Score, e: Signal): Score {
    match e
    case Success(now) => Succeeded(c, s, now)
    case Denial(now) => Penalized(s, c.denialPenalty, now)
    case SafetyTrigger(now) => Penalized(s, c.safetyPenalty, now)
  }

  function After(c: Config, start: nat, run: seq<Signal>): Score {
    if run == [] then Created(c, start) else Step(c, After(c, start, run[..|run| - 1]), run[|run| - 1])
  }

  predicate InOrder(start: nat, run: seq<Signal>) {
    && (forall i :: 0 <= i < |run| ==> start <= run[i].now)
    && (forall i, j :: 0 <= i < j < |run| ==> run[i].now <= run[j].now)
  }

  predicate Sane(c: Config) {
    && 0 <= c.baseline <= c.maxScore <= I64_MAX
    && c.maxGainPerMinute > 0 && c.positiveDelta > 0
    && c.maxGainPerMinute + c.positiveDelta <= I64_MAX
    && c.denialPenalty >= 0 && c.safetyPenalty >= 0
  }

  // Successes that count in one gain window: the gain is raised as long as it is below the cap.
  function Steps(c: Config): nat
    requires Sane(c)
  {
    (c.maxGainPerMinute + c.positiveDelta - 1) / c.positiveDelta
  }

  // The most one gain window can add.
  function WindowCap(c: Config): nat
    requires Sane(c)
  {
    Steps(c) * c.positiveDelta
  }

  lemma StepsBounds(c: Config)
    requires Sane(c)
    ensures Steps(c) >= 1 && c.maxGainPerMinute <= WindowCap(c) <= c.maxGainPerMinute + c.positiveDelta - 1
  {
    var d := c.positiveDelta;
    var n := c.maxGainPerMinute + d - 1;
    DivMod(n, d);
    assert n >= d;
  }

  lemma DivMod(n: nat, d: nat)
    requires d > 0
    ensures n == n / d * d + n % d && n % d < d
    ensures n >= d ==> n / d >= 1
  {
  }

  // The gain of a window is a whole number of steps.
  ghost predicate OnGrid(c: Config, gain: int)
    requires Sane(c)
  {
    exists j: nat :: j <= Steps(c) && gain == j * c.positiveDelta
  }

  lemma StepBelowCap(c: Config, j: nat)
    requires Sane(c)
    ensures j * c.positiveDelta < c.maxGainPerMinute <==> j < Steps(c)
    ensures j <= Steps(c) ==> j * c.positiveDelta <= WindowCap(c)
    ensures (j + 1) * c.positiveDelta == j * c.positiveDelta + c.positiveDelta
  {
    StepsBounds(c);
    if j < Steps(c) {
      ScaleUp(j + 1, Steps(c), c.positiveDelta);
    } else {
      ScaleUp(Steps(c), j, c.positiveDelta);
    }
  }

  // How many times the gain window was restarted.
  function Restarts(c: Config, start: nat, run: seq<Signal>): nat {
    if run == [] then 0
    else
      var init, e := run[..|run| - 1], run[|run| - 1];
      Restarts(c, start, init)
      + if Restarted(c, After(c, start, init), e) then 1 else 0
  }

  // What one signal can do to the score and the gain window.
  lemma StepCases(c: Config, s: Score, e: Signal)
    requires Sane(c) && 0 <= s.score <= c.maxScore && OnGrid(c, s.gain)
    ensures var t := Step(c, s, e);
            var restarted := Restarted(c, s, e);
            && 0 <= t.score <= c.maxScore && OnGrid(c, t.gain) && 0 <= t.gain <= WindowCap(c)
            && t.gainStart == (if restarted then e.now else s.gainStart)
            && t.score - t.gain <= s.score - (if restarted then 0 else s.gain)
  {
    var j: nat :| j <= Steps(c) && s.gain == j * c.positiveDelta;
    StepBelowCap(c, 0);
    StepBelowCap(c, j);
    StepBelowCap(c, 1);
    StepBelowCap(c, j + 1);
    hide Steps, WindowCap;
    assert Step(c, s, e).gain in {0, s.gain, s.gain + c.positiveDelta, c.positiveDelta};
    assert OnGrid(c, 0 * c.positiveDelta) && OnGrid(c, j * c.positiveDelta) && OnGrid(c, 1 * c.positiveDelta);
  }

  predicate Restarted(c: Config, s: Score, e: Signal) {
    e.Success? && ElapsedSecs(s.gainStart, e.now) >= 60
  }

  /** Every signal, whatever it does to the score, ends the idling. */
  lemma EverySignalEndsIdling(c: Config, s: Score, e: Signal)
    ensures Step(c, s, e).lastActivity == e.now
  {
  }

  lemma {:induction false} ScoreAndGainInRange(c: Config, start: nat, run: seq<Signal>)
    requires Sane(c)
    ensures var s := After(c, start, run);
            0 <= s.score <= c.maxScore && OnGrid(c, s.gain) && 0 <= s.gain <= WindowCap(c)
    decreases |run|
  {
    hide OnGrid, Step, WindowCap;
    if run == [] {
      NoGain(c);
    } else {
      ScoreAndGainInRange(c, start, run[..|run| - 1]);
      StepCases(c, After(c, start, run[..|run| - 1]), run[|run| - 1]);
    }
  }

  lemma NoGain(c: Config)
    requires Sane(c)
    ensures OnGrid(c, 0)
  {
    assert 0 == 0 * c.positiveDelta;
  }

  // Every restart of the gain window costs a minute.
  lemma {:induction false} RestartsTakeMinutes(c: Config, start: nat, run: seq<Signal>)
    requires Sane(c) && InOrder(start, run)
    ensures var s := After(c, start, run);
            && start + Restarts(c, start, run) * (60 * SECOND) <= s.gainStart
            && (s.gainStart <= if run == [] then start else run[|run| - 1].now)
    decreases |run|
  {
    if run != [] {
      var init, e := run[..|run| - 1], run[|run| - 1];
      RestartsTakeMinutes(c, start, init);
      ScoreAndGainInRange(c, start, init);
      StepCases(c, After(c, start, init), e);
      hide Step;
      assert init != [] ==> init[|init| - 1].now <= e.now;
    }
  }

  // Between restarts the gain is capped.
  lemma {:induction false} RestartsBoundScore(c: Config, start: nat, run: seq<Signal>)
    requires Sane(c)
    ensures var s := After(c, start, run);
            s.score <= c.baseline + Restarts(c, start, run) * WindowCap(c) + s.gain
    decreases |run|
  {
    if run != [] {
      var init, e := run[..|run| - 1], run[|run| - 1];
      RestartsBoundScore(c, start, init);
      ScoreAndGainInRange(c, start, init);
      var w := Restarts(c, start, init);
      StepCases(c, After(c, start, init), e);
      OneMore(w, WindowCap(c));
      hide Step, WindowCap, Sane, ElapsedSecs;
    }
  }

  lemma OneMore(w: nat, x: int)
    ensures (w + 1) * x == w * x + x
  {
  }

  // The highest score within `minutes` whole minutes of creation.
  function Ceiling(c: Config, minutes: nat): int
    requires Sane(c)
  {
    Min(c.maxScore, c.baseline + (minutes + 1) * WindowCap(c))
  }

  /** Whatever mix of signals arrives, the stored score stays in range, and T seconds after
      creation it is at most the baseline plus one window's cap for every minute begun. The cap is
      the configured gain rounded up to whole steps. */
  lemma RampBound(c: Config, start: nat, run: seq<Signal>, now: nat)
    requires Sane(c) && InOrder(start, run) && start <= now && (run != [] ==> run[|run| - 1].now <= now)
    ensures var s := After(c, start, run).score;
            0 <= s <= Ceiling(c, ElapsedSecs(start, now) / 60)
    ensures WindowCap(c) <= c.maxGainPerMinute + c.positiveDelta - 1
  {
    StepsBounds(c);
    ScoreAndGainInRange(c, start, run);
    RestartsTakeMinutes(c, start, run);
    RestartsBoundScore(c, start, run);
    hide After, Restarts;
    var w, minutes := Restarts(c, start, run), ElapsedSecs(start, now) / 60;
    WholeMinutes(now - start, w);
    var s := After(c, start, run);
    hide ElapsedSecs;
    RampArithmetic(s.score, c.baseline, w, minutes, WindowCap(c), s.gain);
  }

  lemma RampArithmetic(score: int, baseline: int, w: nat, minutes: nat, cap: nat, gain: int)
    requires score <= baseline + w * cap + gain && gain <= cap && w <= minutes
    ensures score <= baseline + (minutes + 1) * cap
  {
    ScaleUp(w + 1, minutes + 1, cap);
    assert (w + 1) * cap == w * cap + cap;
  }

  lemma WholeMinutes(t: nat, w: nat)
    requires w * (60 * SECOND) <= t
    ensures w <= t / SECOND / 60
  {
    assert t / SECOND >= w * 60;
  }

  lemma ScaleUp(m: nat, n: nat, x: nat)
    requires m <= n
    ensures m * x <= n * x
  {
    assert n * x == m * x + (n - m) * x;
  }

  /** The shown score is never above the stored one, nor negative, when idling costs anything. */
  lemma ShownScoreIsBelowStored(c: Config, s: Score, now: nat)
    requires s.score >= 0 && c.decayPerMinute >= 0
    ensures 0 <= CurrentScore(c, s, now) <= s.score
  {
    assert ElapsedSecs(s.lastActivity, now) / 60 * c.decayPerMinute >= 0;
  }

  // ---- without a cap on gains ----

  /** With the cap turned off every success counts: the score is the baseline and one step for each,
      up to the maximum. */
  lemma {:induction false} UncappedClimb(c: Config, start: nat, run: seq<Signal>)
    requires c.maxGainPerMinute <= 0 && c.positiveDelta >= 0
    requires 0 <= c.baseline <= c.maxScore && c.maxScore + c.positiveDelta <= I64_MAX
    requires forall i :: 0 <= i < |run| ==> run[i].Success?
    ensures After(c, start, run).score == Min(c.baseline + |run| * c.positiveDelta, c.maxScore)
    decreases |run|
  {
    if run != [] {
      var init := run[..|run| - 1];
      UncappedClimb(c, start, init);
      OneMore(|init|, c.positiveDelta);
      NonNegative(|init|, c.positiveDelta);
      hide After;
      assert run[|run| - 1].Success?;
      assert After(c, start, run) == Step(c, After(c, start, init), run[|run| - 1]) by { AfterLast(c, start, run); }
    }
  }

  lemma AfterLast(c: Config, start: nat, run: seq<Signal>)
    requires run != []
    ensures After(c, start, run) == Step(c, After(c, start, run[..|run| - 1]), run[|run| - 1])
  {
  }

  // ---- the ramp is reached ----

  // `n` successes at one instant.
  function Burst(at: nat, n: nat): seq<Signal> {
    seq(n, _ => Success(at))
  }

  function MinuteStart(start: nat, minutes: nat): nat {
    start + minutes * (60 * SECOND)
  }

  lemma Minutes(start: nat, minutes: nat)
    ensures MinuteStart(start, 0) == start <= MinuteStart(start, minutes)
    ensures minutes > 0 ==> MinuteStart(start, minutes) == MinuteStart(start, minutes - 1) + 60 * SECOND
  {
  }

  // In every minute, as many successes as count, at its start.
  function Climb(c: Config, start: nat, minutes: nat): seq<Signal>
    requires Sane(c)
  {
    (if minutes == 0 then [] else Climb(c, start, minutes - 1)) + Burst(MinuteStart(start, minutes), Steps(c))
  }

  // A window that starts, or has just started, at `at`.
  predicate FreshWindow(s: Score, at: nat) {
    s.gainStart <= at && (at - s.gainStart >= 60 * SECOND || (s.gain == 0 && s.gainStart == at))
  }

  lemma OneSuccess(c: Config, s: Score, at: nat, j: nat)
    requires Sane(c) && 0 <= s.score <= c.maxScore && j < Steps(c)
    requires if j == 0 then FreshWindow(s, at) else s.gainStart == at && s.gain == j * c.positiveDelta
    ensures Step(c, s, Success(at))
            == Score(Min(c.maxScore, s.score + c.positiveDelta), at, at, (j + 1) * c.positiveDelta)
  {
    StepBelowCap(c, j);
    SixtySeconds(s.gainStart, at);
    hide Steps, ElapsedSecs;
  }

  lemma SixtySeconds(since: nat, now: nat)
    ensures since <= now && now - since >= 60 * SECOND <==> ElapsedSecs(since, now) >= 60
  {
  }

  lemma AfterSnoc(c: Config, start: nat, run: seq<Signal>, e: Signal)
    ensures After(c, start, run + [e]) == Step(c, After(c, start, run), e)
  {
    assert (run + [e])[..|run|] == run;
  }

  lemma BurstSnoc(run: seq<Signal>, at: nat, n: nat)
    ensures run + Burst(at, 0) == run
    ensures run + Burst(at, n + 1) == (run + Burst(at, n)) + [Success(at)]
  {
    assert Burst(at, n + 1) == Burst(at, n) + [Success(at)];
  }

  lemma {:induction false} BurstCounts(c: Config, start: nat, run: seq<Signal>, at: nat, n: nat)
    requires Sane(c) && 1 <= n <= Steps(c)
    requires var s := After(c, start, run); 0 <= s.score <= c.maxScore && FreshWindow(s, at)
    ensures var s := After(c, start, run);
            After(c, start, run + Burst(at, n))
            == Score(Min(c.maxScore, s.score + n * c.positiveDelta), at, at, n * c.positiveDelta)
    decreases n
  {
    assert c.positiveDelta > 0;
    hide Sane, Steps, WindowCap, Step, FreshWindow, Burst, After;
    BurstSnoc(run, at, n - 1);
    if n > 1 {
      BurstCounts(c, start, run, at, n - 1);
    }
    var s, before := After(c, start, run), run + Burst(at, n - 1);
    AfterSnoc(c, start, before, Success(at));
    OneMore(n - 1, c.positiveDelta);
    BurstStep(c, s, After(c, start, before), at, n - 1);
  }

  lemma BurstStep(c: Config, s: Score, t: Score, at: nat, j: nat)
    requires Sane(c) && 0 <= s.score <= c.maxScore && FreshWindow(s, at) && j < Steps(c)
    requires if j == 0 then t == s
             else t == Score(Min(c.maxScore, s.score + j * c.positiveDelta), at, at, j * c.positiveDelta)
    ensures Step(c, t, Success(at))
            == Score(Min(c.maxScore, s.score + (j + 1) * c.positiveDelta), at, at, (j + 1) * c.positiveDelta)
  {
    NonNegative(j, c.positiveDelta);
    OneMore(j, c.positiveDelta);
    assert j == 0 ==> j * c.positiveDelta == 0;
    OneSuccess(c, t, at, j);
    hide Step, Steps, WindowCap, FreshWindow;
  }

  lemma ClimbSplits(c: Config, start: nat, minutes: nat)
    requires Sane(c)
    ensures Climb(c, start, minutes)
            == (if minutes == 0 then [] else Climb(c, start, minutes - 1))
               + Burst(MinuteStart(start, minutes), Steps(c))
  {
  }

  // Where the climb stands in a minute.
  function Summit(c: Config, start: nat, minutes: nat): Score
    requires Sane(c)
  {
    Score(Ceiling(c, minutes), MinuteStart(start, minutes), MinuteStart(start, minutes), WindowCap(c))
  }

  lemma ClimbStarts(c: Config, start: nat)
    requires Sane(c)
    ensures After(c, start, Climb(c, start, 0)) == Summit(c, start, 0)
  {
    assert After(c, start, []) == Created(c, start) && 0 <= c.baseline <= c.maxScore;
    StepsBounds(c);
    ClimbSplits(c, start, 0);
    CeilingStep(c, 0);
    assert WindowCap(c) == Steps(c) * c.positiveDelta;
    hide Sane, Steps, WindowCap, Climb, Burst, After, Ceiling, FreshWindow, Min, MinuteStart;
    Minutes(start, 0);
    NextWindowIsFresh(start, 0, After(c, start, []));
    BurstCounts(c, start, [], MinuteStart(start, 0), Steps(c));
  }

  lemma ClimbGoesOn(c: Config, start: nat, minutes: nat)
    requires Sane(c) && minutes > 0
    requires After(c, start, Climb(c, start, minutes - 1)) == Summit(c, start, minutes - 1)
    ensures After(c, start, Climb(c, start, minutes)) == Summit(c, start, minutes)
  {
    StepsBounds(c);
    ClimbSplits(c, start, minutes);
    CeilingStep(c, minutes);
    assert WindowCap(c) == Steps(c) * c.positiveDelta;
    hide Sane, Steps, WindowCap, Climb, Burst, After, Ceiling, FreshWindow, Min, MinuteStart;
    var before := Climb(c, start, minutes - 1);
    NextWindowIsFresh(start, minutes, After(c, start, before));
    BurstCounts(c, start, before, MinuteStart(start, minutes), Steps(c));
  }

  lemma {:induction false} ClimbReaches(c: Config, start: nat, minutes: nat)
    requires Sane(c)
    ensures After(c, start, Climb(c, start, minutes))
            == Score(Ceiling(c, minutes), MinuteStart(start, minutes), MinuteStart(start, minutes), WindowCap(c))
    decreases minutes
  {
    hide Sane, WindowCap, Climb, After, Ceiling, MinuteStart;
    if minutes == 0 {
      ClimbStarts(c, start);
    } else {
      ClimbReaches(c, start, minutes - 1);
      ClimbGoesOn(c, start, minutes);
    }
  }

  lemma NextWindowIsFresh(start: nat, minutes: nat, s: Score)
    requires if minutes == 0 then s.gainStart == start && s.gain == 0
             else s.gainStart == MinuteStart(start, minutes - 1)
    ensures FreshWindow(s, MinuteStart(start, minutes))
  {
    Minutes(start, minutes);
    hide MinuteStart;
  }

  lemma CeilingStep(c: Config, minutes: nat)
    requires Sane(c)
    ensures Ceiling(c, minutes)
            == Min(c.maxScore, (if minutes == 0 then c.baseline else Ceiling(c, minutes - 1)) + WindowCap(c))
    ensures minutes > 0 ==> 0 <= Ceiling(c, minutes - 1) <= c.maxScore
  {
    OneMore(minutes, WindowCap(c));
    NonNegative(minutes, WindowCap(c));
    hide WindowCap;
    assert minutes == 0 ==> minutes * WindowCap(c) == 0;
  }

  lemma NonNegative(m: nat, n: nat)
    ensures m * n >= 0
  {
  }

  ghost predicate InOrderUntil(start: nat, run: seq<Signal>, at: nat) {
    InOrder(start, run) && run != [] && run[|run| - 1].now == at
  }

  lemma InOrderThenBurst(start: nat, run: seq<Signal>, before: nat, at: nat, n: nat)
    requires start <= before <= at && n > 0 && (run == [] || InOrderUntil(start, run, before))
    ensures InOrderUntil(start, run + Burst(at, n), at)
  {
    assert forall i :: 0 <= i < |run| ==> run[i].now <= at;
  }

  lemma {:induction false} ClimbInOrder(c: Config, start: nat, minutes: nat)
    requires Sane(c)
    ensures InOrderUntil(start, Climb(c, start, minutes), MinuteStart(start, minutes))
    decreases minutes
  {
    StepsBounds(c);
    ClimbSplits(c, start, minutes);
    hide Sane, Steps, WindowCap, Climb, Burst, InOrder, InOrderUntil, MinuteStart;
    Minutes(start, minutes);
    if minutes == 0 {
      InOrderThenBurst(start, [], start, MinuteStart(start, 0), Steps(c));
    } else {
      ClimbInOrder(c, start, minutes - 1);
      Minutes(start, minutes - 1);
      InOrderThenBurst(start, Climb(c, start, minutes - 1), MinuteStart(start, minutes - 1), MinuteStart(start, minutes), Steps(c));
    }
  }

  ghost predicate CanShowNormal(c: Config, start: nat, now: nat) {
    exists run: seq<Signal> :: InOrder(start, run) && (run != [] ==> run[|run| - 1].now <= now)
                  && StateOf(c, CurrentScore(c, After(c, start, run), now)) == Normal
  }

  /** When a session can be back to normal: some run of signals shows `Normal` at `now` exactly
      when the ramp, by the whole minutes since creation, has reached both thresholds. */
  lemma NormalReachableIff(c: Config, start: nat, now: nat)
    requires Sane(c) && c.decayPerMinute >= 0 && start <= now
    ensures CanShowNormal(c, start, now)
            <==> Ceiling(c, ElapsedSecs(start, now) / 60) >= Max(c.readOnlyThreshold, c.suspendThreshold)
  {
    hide Sane, InOrder, After, CurrentScore, StateOf, Ceiling, ElapsedSecs;
    if run: seq<Signal> :| InOrder(start, run) && (run != [] ==> run[|run| - 1].now <= now)
                           && StateOf(c, CurrentScore(c, After(c, start, run), now)) == Normal {
      NormalNeedsCeiling(c, start, run, now);
    }
    if Ceiling(c, ElapsedSecs(start, now) / 60) >= Max(c.readOnlyThreshold, c.suspendThreshold) {
      ClimbShowsNormal(c, start, now);
    }
  }

  lemma NormalNeedsCeiling(c: Config, start: nat, run: seq<Signal>, now: nat)
    requires Sane(c) && c.decayPerMinute >= 0 && start <= now
    requires InOrder(start, run) && (run != [] ==> run[|run| - 1].now <= now)
    requires StateOf(c, CurrentScore(c, After(c, start, run), now)) == Normal
    ensures Ceiling(c, ElapsedSecs(start, now) / 60) >= Max(c.readOnlyThreshold, c.suspendThreshold)
  {
    hide InOrder, After, CurrentScore, Ceiling, ElapsedSecs;
    RampBound(c, start, run, now);
    ShownScoreIsBelowStored(c, After(c, start, run), now);
  }

  lemma ClimbShowsNormal(c: Config, start: nat, now: nat)
    requires Sane(c) && start <= now
    requires Ceiling(c, ElapsedSecs(start, now) / 60) >= Max(c.readOnlyThreshold, c.suspendThreshold)
    ensures CanShowNormal(c, start, now)
  {
    hide Sane, InOrder, After, Climb, CurrentScore, Ceiling, ElapsedSecs, WindowCap;
    var minutes := ElapsedSecs(start, now) / 60;
    var run := Climb(c, start, minutes);
    ClimbReaches(c, start, minutes);
    ClimbInOrder(c, start, minutes);
    NoDecayYet(c, start, now, Ceiling(c, minutes), WindowCap(c));
    assert StateOf(c, CurrentScore(c, After(c, start, run), now)) == Normal;
  }

  lemma NoDecayYet(c: Config, start: nat, now: nat, score: int, gain: int)
    requires start <= now
    ensures var at := MinuteStart(start, ElapsedSecs(start, now) / 60);
            at <= now && CurrentScore(c, Score(score, at, at, gain), now) == Max(score, 0)
  {
    var at := MinuteStart(start, ElapsedSecs(start, now) / 60);
    assert ElapsedSecs(at, now) / 60 == 0;
    assert 0 * c.decayPerMinute == 0;
  }

  /** Decay is only shown, never stored, and every signal ends it. So a penalty raises the shown
      score exactly when the decay it ends was larger than the penalty and the score can bear the
      penalty. */
  lemma PenaltyRaisesShownScoreIff(c: Config, s: Score, penalty: nat, now: nat)
    requires 0 <= s.score <= I64_MAX && penalty <= I64_MAX
    ensures CurrentScore(c, Penalized(s, penalty, now), now) > CurrentScore(c, s, now) <==>
            ElapsedSecs(s.lastActivity, now) / 60 * c.decayPerMinute > penalty && s.score > penalty
  {
    assert ElapsedSecs(now, now) == 0;
    assert ElapsedSecs(now, now) / 60 * c.decayPerMinute == 0;
  }

  /** For instance with the default configuration: after two idle hours a denial takes the shown
      score from 380 to 450. */
  lemma DenialCanRaiseShownScore()
    ensures var c := Config(500, 1000, 10, 50, 100, 1, 300, 100, 50);
            var s := Created(c, 0);
            CurrentScore(c, s, 7200 * SECOND) == 380
            && CurrentScore(c, Penalized(s, c.denialPenalty, 7200 * SECOND), 7200 * SECOND) == 450
  {
    assert 7200 * SECOND / SECOND == 7200;
  }
}
