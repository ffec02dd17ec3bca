/** The refresh loop of an upstream connection: events queue up while it blocks, sleeps, drains
    and refreshes. The environment is a list of batches: batch `k` holds the notifications that
    reach the handler after the loop's poll number `k - 1` and before poll number `k`, so every
    interleaving of sends with the loop's receives is some list of batches. When the batches are
    used up the channel is closed. */
module UpstreamWatcher {
  import opened Utf8
  import opened Wrappers

  const MAX_URI: nat := 4096

  datatype Kind = Tools | Prompts | Resources

  datatype Event = ListChanged(kind: Kind) | ResourceUpdated(uri: string)

  // Which listings of one refresh succeed.
  datatype Outcome = Outcome(toolsOk: bool, promptsOk: bool, resourcesOk: bool) {
    predicate Ok(k: Kind) {
      match k
      case Tools => toolsOk
      case Prompts => promptsOk
      case Resources => resourcesOk
    }
  }

  function Rank(k: Kind): nat {
    match k
    case Tools => 0
    case Prompts => 1
    case Resources => 2
  }

  // A flagged registry is replaced when no flagged listing up to its own fails.
  ghost predicate Replaces(flags: set<Kind>, outcome: Outcome, k: Kind) {
    k in flags && forall j :: j in flags && Rank(j) <= Rank(k) ==> outcome.Ok(j)
  }

  lemma ReplacesByCases(flags: set<Kind>, outcome: Outcome)
    ensures Replaces(flags, outcome, Tools) <==> Tools in flags && outcome.toolsOk
    ensures Replaces(flags, outcome, Prompts) <==>
            Prompts in flags && outcome.promptsOk && (Tools in flags ==> outcome.toolsOk)
    ensures Replaces(flags, outcome, Resources) <==>
            && Resources in flags && outcome.resourcesOk
            && (Tools in flags ==> outcome.toolsOk) && (Prompts in flags ==> outcome.promptsOk)
  {
    assert outcome.Ok(Tools) == outcome.toolsOk && outcome.Ok(Prompts) == outcome.promptsOk;
    assert outcome.Ok(Resources) == outcome.resourcesOk;
    assert Rank(Tools) == 0 && Rank(Prompts) == 1 && Rank(Resources) == 2;
  }

  // What the loop does, in the order it does it.
  datatype Action =
    | Blocked  // about to wait for the next event
    | Took(event: Event)  // received an event, blocking or draining
    | Forwarded(uri: string)  // passed a resource update on
    | Refreshing(flags: set<Kind>, outcome: Outcome)  // started a refresh, whose listings go so
    | Swapped(kind: Kind)  // replaced a registry

  // The handler drops oversized URIs before they reach the queue.
  predicate Accepted(e: Event) {
    e.ResourceUpdated? ==> ByteLen(e.uri) <= MAX_URI
  }

  function Filter(es: seq<Event>): seq<Event> {
    if es == [] then []
    else Filter(es[..|es| - 1]) + if Accepted(es[|es| - 1]) then [es[|es| - 1]] else []
  }

  // Everything accepted in the first batches.
  function Sent(batches: seq<seq<Event>>): seq<Event> {
    if batches == [] then [] else Sent(batches[..|batches| - 1]) + Filter(batches[|batches| - 1])
  }

  function UriIn(e: Event): seq<string> {
    if e.ResourceUpdated? then [e.uri] else []
  }

  function KindIn(e: Event): set<Kind> {
    if e.ListChanged? then {e.kind} else {}
  }

  function Uris(es: seq<Event>): seq<string> {
    if es == [] then [] else Uris(es[..|es| - 1]) + UriIn(es[|es| - 1])
  }

  // ---- reading the log ----

  function Taken(log: seq<Action>): seq<Event> {
    if log == [] then []
    else
      var a := log[|log| - 1];
      Taken(log[..|log| - 1]) + if a.Took? then [a.event] else []
  }

  function Forwards(log: seq<Action>): seq<string> {
    if log == [] then []
    else
      var a := log[|log| - 1];
      Forwards(log[..|log| - 1]) + if a.Forwarded? then [a.uri] else []
  }

  function PendingAfter(before: set<Kind>, a: Action): set<Kind> {
    if a.Took? then before + KindIn(a.event) else if a.Refreshing? then before - a.flags else before
  }

  // Kinds of list changes taken since the last refresh that was started for them.
  function Pending(log: seq<Action>): set<Kind> {
    if log == [] then {} else PendingAfter(Pending(log[..|log| - 1]), log[|log| - 1])
  }

  function StaleAfter(before: set<Kind>, a: Action): set<Kind> {
    if a.Took? then before + KindIn(a.event) else if a.Swapped? then before - {a.kind} else before
  }

  // Kinds whose registry was last replaced before the latest change of it was taken.
  function Stale(log: seq<Action>): set<Kind> {
    if log == [] then {} else StaleAfter(Stale(log[..|log| - 1]), log[|log| - 1])
  }

  ghost function FailedAfter(before: set<Kind>, a: Action): set<Kind> {
    if a.Refreshing? then before - a.flags + (set k | k in a.flags && !Replaces(a.flags, a.outcome, k)) else before
  }

  // Kinds whose last refresh failed at their own listing or at a flagged one before it.
  ghost function Failed(log: seq<Action>): set<Kind> {
    if log == [] then {} else FailedAfter(Failed(log[..|log| - 1]), log[|log| - 1])
  }

  // The loop blocks only with nothing pending and nothing stale but what its refreshes failed at,
  // and a refresh is started for exactly what is pending.
  ghost predicate Allowed(log: seq<Action>, a: Action) {
    && (a.Blocked? ==> Pending(log) == {} && Stale(log) == Failed(log))
    && (a.Refreshing? ==> a.flags == Pending(log) != {})
  }

  ghost predicate Disciplined(log: seq<Action>) {
    log != [] ==> Disciplined(log[..|log| - 1]) && Allowed(log[..|log| - 1], log[|log| - 1])
  }

  lemma Snoc(log: seq<Action>, a: Action)
    ensures Taken(log + [a]) == if a.Took? then Taken(log) + [a.event] else Taken(log)
    ensures Forwards(log + [a]) == if a.Forwarded? then Forwards(log) + [a.uri] else Forwards(log)
    ensures Pending(log + [a]) == PendingAfter(Pending(log), a)
    ensures Stale(log + [a]) == StaleAfter(Stale(log), a)
    ensures Failed(log + [a]) == FailedAfter(Failed(log), a)
    ensures Disciplined(log + [a]) <==> Disciplined(log) && Allowed(log, a)
  {
    assert (log + [a])[..|log|] == log;
  }

  lemma UrisSnoc(es: seq<Event>, e: Event)
    ensures Uris(es + [e]) == if e.ResourceUpdated? then Uris(es) + [e.uri] else Uris(es)
  {
    assert (es + [e])[..|es|] == es;
  }

  /** Read over the whole log: before the loop blocks again, every list change it took has had a
      refresh started with its kind flagged, after it was taken. */
  lemma {:induction false} ChangeIsRefreshedBeforeBlocking(log: seq<Action>, i: nat, b: nat)
    requires Disciplined(log) && i < b < |log|
    requires log[i].Took? && log[i].event.ListChanged? && log[b].Blocked?
    ensures exists j :: i < j < b && log[j].Refreshing? && log[i].event.kind in log[j].flags
  {
    DisciplinedPrefix(log, b + 1);
    assert log[..b + 1][..b] == log[..b];
    PendingUntilRefreshed(log, i, b);
  }

  lemma {:induction false} DisciplinedPrefix(log: seq<Action>, n: nat)
    requires Disciplined(log) && n <= |log|
    ensures Disciplined(log[..n])
    decreases |log|
  {
    if n < |log| {
      var init := log[..|log| - 1];
      DisciplinedPrefix(init, n);
      assert init[..n] == log[..n];
    } else {
      assert log[..n] == log;
    }
  }

  lemma {:induction false} PendingUntilRefreshed(log: seq<Action>, i: nat, n: nat)
    requires i < n <= |log| && log[i].Took? && log[i].event.ListChanged?
    ensures log[i].event.kind in Pending(log[..n])
            || exists j :: i < j < n && log[j].Refreshing? && log[i].event.kind in log[j].flags
    decreases n
  {
    assert log[..n][..n - 1] == log[..n - 1];
    if i < n - 1 {
      PendingUntilRefreshed(log, i, n - 1);
    }
  }

  /** `k` is among the kinds whose last refresh failed: spelled out over positions in the log. */
  ghost predicate LastRefreshFailed(log: seq<Action>, n: nat, k: Kind)
    requires n <= |log|
  {
    exists j :: 0 <= j < n && log[j].Refreshing? && k in log[j].flags && !Replaces(log[j].flags, log[j].outcome, k)
                && NoneFlaggedWith(log, j + 1, n, k)
  }

  predicate NoneFlaggedWith(log: seq<Action>, m: nat, n: nat, k: Kind)
    requires n <= |log|
  {
    forall i :: m <= i < n && log[i].Refreshing? ==> k !in log[i].flags
  }

  lemma {:induction false} FailedIsLastRefreshFailed(log: seq<Action>, n: nat, k: Kind)
    requires n <= |log|
    ensures k in Failed(log[..n]) <==> LastRefreshFailed(log, n, k)
    decreases n
  {
    if n > 0 {
      FailedIsLastRefreshFailed(log, n - 1, k);
      assert log[..n][..n - 1] == log[..n - 1];
      var a := log[n - 1];
      hide Failed, Replaces;
      if a.Refreshing? && k in a.flags {
        assert NoneFlaggedWith(log, n, n, k);
        if j :| 0 <= j < n && log[j].Refreshing? && k in log[j].flags && NoneFlaggedWith(log, j + 1, n, k) {
          assert j == n - 1;
        }
      } else {
        forall m: nat ensures NoneFlaggedWith(log, m, n, k) <==> NoneFlaggedWith(log, m, n - 1, k) {
        }
      }
    }
  }

  /** Whenever the loop blocks, a registry is behind its latest change exactly when the last refresh
      flagged with its kind had a failing flagged listing at or before its own. */
  lemma StaleWhenBlockedIffLastRefreshFailed(log: seq<Action>, b: nat, k: Kind)
    requires Disciplined(log) && b < |log| && log[b].Blocked?
    ensures k in Stale(log[..b]) <==> LastRefreshFailed(log, b, k)
  {
    DisciplinedPrefix(log, b + 1);
    assert log[..b + 1][..b] == log[..b];
    FailedIsLastRefreshFailed(log, b, k);
  }

  lemma {:induction false} NothingHappensWithoutChange(log: seq<Action>, m: nat, n: nat, k: Kind)
    requires Disciplined(log) && m <= n <= |log| && k !in Pending(log[..m])
    requires forall i :: m <= i < n ==> log[i] != Took(ListChanged(k))
    ensures k !in Pending(log[..n]) && (k in Failed(log[..m]) ==> k in Failed(log[..n]))
    decreases n
  {
    if m < n {
      NothingHappensWithoutChange(log, m, n - 1, k);
      assert log[..n][..n - 1] == log[..n - 1];
      DisciplinedPrefix(log, n);
    }
  }

  /** A registry that such a failure left behind stays so, at every later block, until the loop
      takes another change of its kind. */
  lemma StaleUntilNextChange(log: seq<Action>, m: nat, b: nat, k: Kind)
    requires Disciplined(log) && m < b < |log| && log[m].Blocked? && log[b].Blocked?
    requires k in Stale(log[..m]) && forall i :: m <= i < b ==> log[i] != Took(ListChanged(k))
    ensures k in Stale(log[..b])
  {
    DisciplinedPrefix(log, m + 1);
    DisciplinedPrefix(log, b + 1);
    assert log[..m + 1][..m] == log[..m] && log[..b + 1][..b] == log[..b];
    NothingHappensWithoutChange(log, m, b, k);
  }

  lemma {:induction false} SentGrows(batches: seq<seq<Event>>, n: nat)
    requires n <= |batches|
    ensures Sent(batches[..n]) <= Sent(batches)
    ensures n < |batches| ==> Sent(batches[..n + 1]) == Sent(batches[..n]) + Filter(batches[n])
    decreases |batches| - n
  {
    if n < |batches| {
      assert batches[..n + 1][..n] == batches[..n];
      SentGrows(batches, n + 1);
    } else {
      assert batches[..n] == batches;
    }
  }

  class Watcher {
    const batches: seq<seq<Event>>
    const outcomes: nat -> Outcome
    var queue: seq<Event>
    var poll: nat
    var refreshes: nat
    ghost var log: seq<Action>

    constructor (batches: seq<seq<Event>>, outcomes: nat -> Outcome)
      ensures this.batches == batches && this.outcomes == outcomes
      ensures queue == [] && poll == 0 && refreshes == 0 && log == []
    {
      this.batches := batches;
      this.outcomes := outcomes;
      queue, poll, refreshes := [], 0, 0;
      log := [];
    }

    // Nothing is lost or reordered between the handler and the log.
    ghost predicate Conserves()
      reads this
    {
      poll <= |batches| && Taken(log) + queue == Sent(batches[..poll])
    }

    ghost function Left(): int
      reads this
    {
      |Sent(batches)| - |Taken(log)|
    }

    // Notifications that arrived since the last poll join the queue.
    method Deliver()
      requires Conserves()
      modifies this
      ensures Conserves() && log == old(log) && refreshes == old(refreshes)
      ensures old(poll) == |batches| ==> poll == old(poll) && queue == old(queue)
      ensures old(poll) < |batches| ==> poll == old(poll) + 1
    {
      hide Taken, Sent, Filter;
      if poll < |batches| {
        SentGrows(batches, poll);
        Reassociate(Taken(log), queue, Filter(batches[poll]));
        queue := queue + Filter(batches[poll]);
        poll := poll + 1;
      }
    }

    method Take() returns (e: Event)
      requires Conserves() && queue != []
      modifies this
      ensures e == old(queue[0]) && log == old(log) + [Took(e)]
      ensures Conserves() && refreshes == old(refreshes) && poll == old(poll)
      ensures 0 <= Left() < old(Left())
    {
      hide Taken, Sent, Filter;
      e := queue[0];
      assert queue == [e] + queue[1..];
      Reassociate(Taken(log), [e], queue[1..]);
      queue := queue[1..];
      Snoc(log, Took(e));
      log := log + [Took(e)];
      SentGrows(batches, poll);
    }

    // Between two turns of the loop, or while it drains with `flags` raised.
    ghost predicate InStep(flags: set<Kind>)
      reads this
    {
      && Conserves() && Disciplined(log) && Pending(log) == flags
      && Forwards(log) == Uris(Taken(log))
      && Stale(log) == flags + Failed(log)
    }

    // Just after taking `e`: it is the one event not yet forwarded or flagged.
    ghost predicate Holding(flags: set<Kind>, e: Event)
      reads this
    {
      && Conserves() && Disciplined(log) && Pending(log) == flags + KindIn(e)
      && Uris(Taken(log)) == (if e.ResourceUpdated? then Forwards(log) + [e.uri] else Forwards(log))
      && Stale(log) == flags + KindIn(e) + Failed(log)
    }

    /** Waits for an event; None once the channel is closed and empty. */
    method Recv() returns (r: Option<Event>)
      requires InStep({})
      modifies this
      ensures refreshes == old(refreshes)
      ensures r.None? ==> InStep({}) && log == old(log) + [Blocked] && queue == [] && poll == |batches|
      ensures r.Some? ==> Holding({}, r.value) && 0 <= Left() < old(Left())
    {
      hide Taken, Forwards, Pending, Stale, Failed, Disciplined, Uris, Sent, Filter;
      Snoc(log, Blocked);
      log := log + [Blocked];
      Deliver();
      while queue == [] && poll < |batches|
        invariant Conserves() && refreshes == old(refreshes) && log == old(log) + [Blocked]
        decreases |batches| - poll
      {
        Deliver();
      }
      if queue == [] {
        return None;
      }
      UrisSnoc(Taken(log), queue[0]);
      Snoc(log, Took(queue[0]));
      var e := Take();
      r := Some(e);
    }

    /** Takes an event that is already there. */
    method TryRecv(ghost flags: set<Kind>) returns (r: Option<Event>)
      requires InStep(flags)
      modifies this
      ensures refreshes == old(refreshes)
      ensures r.None? ==> InStep(flags) && Left() == old(Left())
      ensures r.Some? ==> Holding(flags, r.value) && 0 <= Left() < old(Left())
    {
      hide Taken, Forwards, Pending, Stale, Failed, Disciplined, Uris, Sent, Filter;
      Deliver();
      if queue == [] {
        return None;
      }
      UrisSnoc(Taken(log), queue[0]);
      Snoc(log, Took(queue[0]));
      var e := Take();
      r := Some(e);
    }

    method Forward(uri: string, ghost flags: set<Kind>)
      requires Holding(flags, ResourceUpdated(uri))
      modifies this
      ensures InStep(flags) && Left() == old(Left()) && refreshes == old(refreshes)
    {
      hide Taken, Forwards, Pending, Stale, Failed, Disciplined, Uris, Sent, Filter;
      Snoc(log, Forwarded(uri));
      log := log + [Forwarded(uri)];
    }

    // Lists one registry and, if that works, replaces it.
    method Replace(k: Kind, listed: bool)
      requires Conserves()
      modifies this
      ensures Conserves() && refreshes == old(refreshes) && Taken(log) == old(Taken(log))
      ensures Forwards(log) == old(Forwards(log)) && Pending(log) == old(Pending(log))
      ensures Disciplined(log) == old(Disciplined(log)) && Failed(log) == old(Failed(log))
      ensures Stale(log) == if listed then old(Stale(log)) - {k} else old(Stale(log))
    {
      if listed {
        Snoc(log, Swapped(k));
        log := log + [Swapped(k)];
      }
    }

    /** One refresh. The flagged registries are replaced in order until a listing fails; the ones
        after it are not even tried. So a flagged registry is replaced exactly when its own listing
        and every flagged one before it succeed, and then it is no longer stale. */
    method RefreshOnce(flags: set<Kind>, outcome: Outcome) returns (ok: bool)
      requires Conserves() && Disciplined(log) && flags == Pending(log) != {}
      modifies this
      ensures Conserves() && refreshes == old(refreshes) && Left() == old(Left())
      ensures Disciplined(log) && Pending(log) == {}
      ensures Failed(log) == FailedAfter(old(Failed(log)), Refreshing(flags, outcome))
      ensures Taken(log) == old(Taken(log)) && Forwards(log) == old(Forwards(log))
      ensures ok <==> forall k :: k in flags ==> outcome.Ok(k)
      ensures forall k :: k in Stale(log) <==> k in old(Stale(log)) && !Replaces(flags, outcome, k)
    {
      hide Taken, Forwards, Pending, Stale, Failed, Disciplined, Sent;
      Snoc(log, Refreshing(flags, outcome));
      log := log + [Refreshing(flags, outcome)];
      ok := true;
      if Tools in flags {
        ok := outcome.toolsOk;
        Replace(Tools, outcome.toolsOk);
      }
      if ok && Prompts in flags {
        ok := outcome.promptsOk;
        Replace(Prompts, outcome.promptsOk);
      }
      if ok && Resources in flags {
        ok := outcome.resourcesOk;
        Replace(Resources, outcome.resourcesOk);
      }
      AllKinds(flags, outcome);
      ReplacesByCases(flags, outcome);
      forall k ensures k in Stale(log) <==> k in old(Stale(log)) && !Replaces(flags, outcome, k) {
        match k {
          case Tools =>
          case Prompts =>
          case Resources =>
        }
      }
    }

    // After the debounce sleep: takes whatever is there, raising flags and forwarding updates.
    method Drain(first: Kind) returns (flags: set<Kind>)
      requires InStep({first})
      modifies this
      ensures InStep(flags) && flags != {} && refreshes == old(refreshes) && Left() <= old(Left())
    {
      hide Taken, Forwards, Pending, Stale, Failed, Disciplined, Uris, Sent, Filter;
      flags := {first};
      while true
        invariant InStep(flags) && flags != {}
        invariant refreshes == old(refreshes) && Left() <= old(Left())
        decreases Left()
      {
        var next := TryRecv(flags);
        if next.None? {
          return;
        }
        match next.value {
          case ResourceUpdated(uri) => Forward(uri, flags);
          case ListChanged(kind) => flags := flags + {kind};
        }
      }
    }

    /** Runs until the channel closes. Every accepted event is taken, in arrival order; the
        resource updates among them are forwarded exactly once each, in that order; the loop never
        blocks with a list change it has not started a refresh for; and a registry is left stale
        exactly when the last refresh for it failed at its own listing or at one before it. */
    method Run()
      requires queue == [] && poll == 0 && refreshes == 0 && log == []
      modifies this
      ensures Taken(log) == Sent(batches)
      ensures Forwards(log) == Uris(Sent(batches))
      ensures Disciplined(log) && Pending(log) == {} && log != [] && log[|log| - 1] == Blocked
      ensures Stale(log) == Failed(log)
    {
      assert batches[..0] == [] && InStep({});
      hide Taken, Forwards, Pending, Stale, Failed, Disciplined, Uris, Sent, Filter;
      while true
        invariant InStep({})
        decreases Left()
      {
        var event := Recv();
        if event.None? {
          assert batches[..poll] == batches;
          assert Taken(log) + queue == Taken(log);
          return;
        }
        if event.value.ResourceUpdated? {
          Forward(event.value.uri, {});
          continue;
        }
        var flags := Drain(event.value.kind);
        RefreshNow(flags);
      }
    }

    // Starts the refresh; a failure is logged and the loop goes on.
    method RefreshNow(flags: set<Kind>)
      requires InStep(flags) && flags != {}
      modifies this
      ensures InStep({}) && Left() == old(Left())
    {
      hide Taken, Forwards, Pending, Stale, Failed, Disciplined, Uris, Sent, Filter;
      var ok := RefreshOnce(flags, outcomes(refreshes));
      refreshes := refreshes + 1;
    }
  }

  lemma AllKinds(flags: set<Kind>, outcome: Outcome)
    ensures (forall k :: k in flags ==> outcome.Ok(k)) <==>
            && (Tools in flags ==> outcome.toolsOk)
            && (Prompts in flags ==> outcome.promptsOk)
            && (Resources in flags ==> outcome.resourcesOk)
  {
    if forall k :: k in flags ==> outcome.Ok(k) {
      assert Tools in flags ==> outcome.Ok(Tools);
      assert Prompts in flags ==> outcome.Ok(Prompts);
      assert Resources in flags ==> outcome.Ok(Resources);
    } else {
      var k :| k in flags && !outcome.Ok(k);
      match k {
        case Tools =>
        case Prompts =>
        case Resources =>
      }
    }
  }

  // ---- what the handler lets through ----

  /** Lists are let through one by one, in order. */
  lemma {:induction false} FilterKeepsOrder(es: seq<Event>, fs: seq<Event>)
    ensures Filter(es + fs) == Filter(es) + Filter(fs)
    decreases |fs|
  {
    hide Accepted;
    if fs == [] {
      assert es + fs == es;
    } else {
      FilterKeepsOrder(es, fs[..|fs| - 1]);
      assert (es + fs)[..|es + fs| - 1] == es + fs[..|fs| - 1];
    }
  }

  /** List changes always, resource updates with a URI of up to 4096 bytes. */
  lemma LetThrough(e: Event)
    ensures Filter([e]) == if e.ResourceUpdated? && ByteLen(e.uri) > 4096 then [] else [e]
  {
    hide ByteLen;
    assert [e][..0] == [];
  }
}
