/** The file behind the scanners' stores. Every upstream has a scanner of its own; it loads the file
    once, when it is opened, and writes its whole store over the file after every scan. So what a
    reopened scanner knows depends on who wrote the file last, and from which copy. */
module HashFile {
  import opened RugPull
  import opened Wrappers

  type Store = map<string, Bytes>

  /** Opening a scanner for an upstream, and scanning a list of its tools with it. */
  datatype Event =
    | Opened(upstream: string)
    | Scanned(upstream: string, tools: seq<(string, string)>)

  datatype World = World(file: Store, scanners: map<string, Store>)

  function Step(hash: Digest, w: World, e: Event): World {
    match e
    case Opened(u) => w.(scanners := w.scanners[u := w.file])
    case Scanned(u, tools) =>
      if u in w.scanners then
        var store := StoredAfter(hash, w.scanners[u], u, tools);
        World(store, w.scanners[u := store])
      else w
  }

  // After the first `n` events, from a missing file.
  function After(hash: Digest, events: seq<Event>, n: nat): World
    requires n <= |events|
  {
    if n == 0 then World(map[], map[]) else Step(hash, After(hash, events, n - 1), events[n - 1])
  }

  // The definition a tool has in a scanned list; of two the later one is stored.
  function DefinitionIn(tools: seq<(string, string)>, tool: string): Option<string> {
    if tools == [] then None
    else if tools[|tools| - 1].0 == tool then Some(tools[|tools| - 1].1)
    else DefinitionIn(tools[..|tools| - 1], tool)
  }

  // ---- which scan a copy of the store stems from ----

  predicate Holds(e: Event, upstream: string, tool: string) {
    e.Scanned? && e.upstream == upstream && DefinitionIn(e.tools, tool).Some?
  }

  /** For one tool: the scan that the file, and each open scanner, has its hash from. Only the order
      of openings and writings enters, not what was scanned. */
  datatype Origins = Origins(file: Option<nat>, held: map<string, Option<nat>>)

  function OriginsAfter(events: seq<Event>, n: nat, upstream: string, tool: string): Origins
    requires n <= |events|
  {
    if n == 0 then Origins(None, map[])
    else
      var o, e := OriginsAfter(events, n - 1, upstream, tool), events[n - 1];
      match e
      case Opened(v) => o.(held := o.held[v := o.file])
      case Scanned(v, tools) =>
        if v in o.held then
          var origin := if Holds(e, upstream, tool) then Some(n - 1) else o.held[v];
          Origins(origin, o.held[v := origin])
        else o
  }

  // The last scan of the tool itself.
  function LastScan(events: seq<Event>, n: nat, upstream: string, tool: string): Option<nat>
    requires n <= |events|
  {
    if n == 0 then None
    else if Holds(events[n - 1], upstream, tool) && upstream in OriginsAfter(events, n - 1, upstream, tool).held
    then Some(n - 1)
    else LastScan(events, n - 1, upstream, tool)
  }

  // The store has the tool's hash from that scan, or not at all.
  ghost predicate StemsFrom(hash: Digest, store: Store, origin: Option<nat>, events: seq<Event>, n: nat,
                            upstream: string, tool: string)
    requires n <= |events|
  {
    if origin.None? then Key(upstream, tool) !in store
    else
      && origin.value < n && Holds(events[origin.value], upstream, tool)
      && Key(upstream, tool) in store
      && store[Key(upstream, tool)] == hash(DefinitionIn(events[origin.value].tools, tool).value)
  }

  ghost predicate SeparateFrom(events: seq<Event>, upstream: string) {
    forall e :: e in events ==> e.upstream == upstream || Separate(e.upstream, upstream)
  }

  lemma {:induction false} ListStores(hash: Digest, store: Store, tools: seq<(string, string)>, u: string,
                                      upstream: string, tool: string)
    requires u == upstream || Separate(u, upstream)
    ensures var after, key := StoredAfter(hash, store, u, tools), Key(upstream, tool);
            if u == upstream && DefinitionIn(tools, tool).Some?
            then key in after && after[key] == hash(DefinitionIn(tools, tool).value)
            else (key in after <==> key in store) && (key in store ==> after[key] == store[key])
    decreases |tools|
  {
    if tools != [] {
      var last := tools[|tools| - 1];
      ListStores(hash, store, tools[..|tools| - 1], u, upstream, tool);
      if u == upstream {
        assert Key(u, last.0)[|u| + 1..] == last.0 && Key(upstream, tool)[|u| + 1..] == tool;
      } else {
        KeysApartIffSeparate(u, upstream);
        assert Key(u, last.0) != Key(upstream, tool);
      }
    }
  }

  lemma {:induction false} StoresStemFromOrigins(hash: Digest, events: seq<Event>, n: nat, upstream: string, tool: string)
    requires n <= |events| && SeparateFrom(events, upstream)
    ensures var w, o := After(hash, events, n), OriginsAfter(events, n, upstream, tool);
            && w.scanners.Keys == o.held.Keys
            && StemsFrom(hash, w.file, o.file, events, n, upstream, tool)
            && forall v :: v in o.held ==> StemsFrom(hash, w.scanners[v], o.held[v], events, n, upstream, tool)
    decreases n
  {
    if n > 0 {
      StoresStemFromOrigins(hash, events, n - 1, upstream, tool);
      var w, e := After(hash, events, n - 1), events[n - 1];
      assert e in events;
      if e.Scanned? && e.upstream in w.scanners {
        ListStores(hash, w.scanners[e.upstream], e.tools, e.upstream, upstream, tool);
      }
      hide Key, StoredAfter, DefinitionIn, Separate;
    }
  }

  // ---- what is reported ----

  predicate IsOpen(events: seq<Event>, upstream: string) {
    exists i :: 0 <= i < |events| && events[i] == Opened(upstream)
  }

  lemma {:induction false} OpenHolds(events: seq<Event>, n: nat, upstream: string, tool: string, v: string)
    requires n <= |events|
    ensures v in OriginsAfter(events, n, upstream, tool).held <==> exists i :: 0 <= i < n && events[i] == Opened(v)
    decreases n
  {
    if n > 0 {
      OpenHolds(events, n - 1, upstream, tool, v);
    }
  }

  // The scanner of the upstream, scanning the tool next, finds a change.
  ghost predicate Reports(hash: Digest, events: seq<Event>, upstream: string, tool: string, definition: string) {
    var w := After(hash, events, |events|);
    upstream in w.scanners && ReportedBy(hash, w.scanners[upstream], Scan(upstream, tool, definition))
  }

  ghost predicate Changed(hash: Digest, events: seq<Event>, upstream: string, tool: string, definition: string) {
    var last := LastScan(events, |events|, upstream, tool);
    last.Some? && last.value < |events| && Holds(events[last.value], upstream, tool)
    && hash(DefinitionIn(events[last.value].tools, tool).value) != hash(definition)
  }

  lemma {:induction false} LastScanIsScan(events: seq<Event>, n: nat, upstream: string, tool: string)
    requires n <= |events|
    ensures var last := LastScan(events, n, upstream, tool);
            last.Some? ==> last.value < n && Holds(events[last.value], upstream, tool)
    decreases n
  {
    if n > 0 {
      LastScanIsScan(events, n - 1, upstream, tool);
    }
  }

  /** Whatever was opened, scanned and written in which order: a scan is reported exactly when the
      tool's hash was different at the scan its scanner's copy stems from. */
  lemma ReportsIffOriginDiffers(hash: Digest, events: seq<Event>, upstream: string, tool: string, definition: string)
    requires SeparateFrom(events, upstream) && IsOpen(events, upstream)
    ensures var o := OriginsAfter(events, |events|, upstream, tool);
            && upstream in o.held
            && (o.held[upstream].Some? ==>
                  o.held[upstream].value < |events| && Holds(events[o.held[upstream].value], upstream, tool))
            && (Reports(hash, events, upstream, tool, definition) <==>
                o.held[upstream].Some?
                && hash(DefinitionIn(events[o.held[upstream].value].tools, tool).value) != hash(definition))
  {
    OpenHolds(events, |events|, upstream, tool, upstream);
    StoresStemFromOrigins(hash, events, |events|, upstream, tool);
  }

  /** With a collision-free hash, exactly the changes since the last scan are reported, whatever
      comes next, if and only if the copy stems from a scan with the definition of the last one. */
  lemma ReliableIff(hash: Digest, events: seq<Event>, upstream: string, tool: string)
    requires SeparateFrom(events, upstream) && IsOpen(events, upstream)
    requires forall x, y :: hash(x) == hash(y) ==> x == y
    requires LastScan(events, |events|, upstream, tool).Some?
    ensures (forall d :: Reports(hash, events, upstream, tool, d) <==> Changed(hash, events, upstream, tool, d))
            <==> StemsFromLastDefinition(events, upstream, tool)
  {
    LastScanIsScan(events, |events|, upstream, tool);
    var last := events[LastScan(events, |events|, upstream, tool).value];
    forall d
      ensures Reports(hash, events, upstream, tool, d) <==>
              var o := OriginsAfter(events, |events|, upstream, tool).held;
              upstream in o && o[upstream].Some? && o[upstream].value < |events|
              && Holds(events[o[upstream].value], upstream, tool)
              && DefinitionIn(events[o[upstream].value].tools, tool).value != d
    {
      ReportsIffOriginDiffers(hash, events, upstream, tool, d);
    }
    var d := DefinitionIn(last.tools, tool).value;
    ReportsIffOriginDiffers(hash, events, upstream, tool, d);
    assert !Changed(hash, events, upstream, tool, d);
    assert Changed(hash, events, upstream, tool, d + "x");
    hide Reports, OriginsAfter, LastScan, DefinitionIn;
  }

  ghost predicate StemsFromLastDefinition(events: seq<Event>, upstream: string, tool: string) {
    var o, last := OriginsAfter(events, |events|, upstream, tool).held, LastScan(events, |events|, upstream, tool);
    && upstream in o && o[upstream].Some? && last.Some?
    && o[upstream].value < |events| && last.value < |events|
    && Holds(events[o[upstream].value], upstream, tool) && Holds(events[last.value], upstream, tool)
    && DefinitionIn(events[o[upstream].value].tools, tool) == DefinitionIn(events[last.value].tools, tool)
  }

  // ---- when the last scan is what is compared with ----

  // Since event `last`, nobody but the upstream's own scanner wrote the file from a copy loaded before.
  ghost predicate NoStaleWriter(events: seq<Event>, n: nat, last: nat, upstream: string)
    requires n <= |events|
  {
    forall j :: last < j < n && events[j].Scanned? && events[j].upstream != upstream ==>
      OpenedBetween(events, last, j, events[j].upstream)
  }

  ghost predicate OpenedBetween(events: seq<Event>, m: nat, n: nat, v: string)
    requires n <= |events|
  {
    exists i :: m < i < n && events[i] == Opened(v)
  }

  /** Then every copy loaded since, and the scanner's own, stems from the last scan, so changes are
      reported exactly. In particular it is so when the scanner has a file of its own. */
  lemma {:induction false} NoStaleWriterKeepsLastScan(events: seq<Event>, n: nat, upstream: string, tool: string)
    requires n <= |events| && LastScan(events, n, upstream, tool).Some?
    requires NoStaleWriter(events, n, LastScan(events, n, upstream, tool).value, upstream)
    ensures var o, last := OriginsAfter(events, n, upstream, tool), LastScan(events, n, upstream, tool);
            && o.file == last && upstream in o.held && o.held[upstream] == last
            && forall v :: OpenedBetween(events, last.value, n, v) ==> v in o.held && o.held[v] == last
    decreases n
  {
    var o := OriginsAfter(events, n - 1, upstream, tool);
    LastScanIsScan(events, n, upstream, tool);
    if !(Holds(events[n - 1], upstream, tool) && upstream in o.held) {
      var last := LastScan(events, n, upstream, tool).value;
      LastScanIsScan(events, n - 1, upstream, tool);
      NoStaleWriterKeepsLastScan(events, n - 1, upstream, tool);
      hide DefinitionIn;
      forall v ensures OpenedBetween(events, last, n, v) <==>
                       OpenedBetween(events, last, n - 1, v) || events[n - 1] == Opened(v) {
      }
    }
  }

  /** A scanner that was not reopened since its last scan of a tool compares with that scan, whoever
      wrote the file. */
  lemma {:induction false} NotReopenedKeepsLastScan(events: seq<Event>, n: nat, upstream: string, tool: string)
    requires n <= |events| && LastScan(events, n, upstream, tool).Some?
    requires !OpenedBetween(events, LastScan(events, n, upstream, tool).value, n, upstream)
    ensures var o := OriginsAfter(events, n, upstream, tool).held;
            upstream in o && o[upstream] == LastScan(events, n, upstream, tool)
    decreases n
  {
    var o := OriginsAfter(events, n - 1, upstream, tool);
    LastScanIsScan(events, n, upstream, tool);
    if !(Holds(events[n - 1], upstream, tool) && upstream in o.held) {
      var last := LastScan(events, n, upstream, tool).value;
      LastScanIsScan(events, n - 1, upstream, tool);
      assert !OpenedBetween(events, last, n - 1, upstream);
      assert events[n - 1] != Opened(upstream);
      NotReopenedKeepsLastScan(events, n - 1, upstream, tool);
    }
  }

  /** Two upstreams on one file are enough to lose a scan: `a` is open when `b` is opened and
      scanned, scans again, unchanged, and so writes the file back without `b`. After a restart no
      change of `b` is reported, whatever it is. */
  lemma OverwrittenScanIsForgotten(hash: Digest, a: string, b: string, tool: string, d: string, e: string, f: string)
    requires a != b && Separate(a, b) && hash(e) != hash(f)
    ensures var events := [Opened(a), Scanned(a, [(tool, d)]), Opened(b), Scanned(b, [(tool, e)]),
                           Scanned(a, [(tool, d)]), Opened(b)];
            Changed(hash, events, b, tool, f) && !Reports(hash, events, b, tool, f)
  {
    var events := [Opened(a), Scanned(a, [(tool, d)]), Opened(b), Scanned(b, [(tool, e)]),
                   Scanned(a, [(tool, d)]), Opened(b)];
    assert IsOpen(events, b) by { assert events[5] == Opened(b); }
    ReportsIffOriginDiffers(hash, events, b, tool, f);
    assert [(tool, e)][..0] == [];
    assert DefinitionIn([(tool, e)], tool) == Some(e);
    assert OriginsAfter(events, 1, b, tool) == Origins(None, map[a := None]);
    assert OriginsAfter(events, 2, b, tool) == Origins(None, map[a := None]);
    assert OriginsAfter(events, 3, b, tool) == Origins(None, map[a := None, b := None]);
    assert OriginsAfter(events, 4, b, tool) == Origins(Some(3), map[a := None, b := Some(3)]);
    assert OriginsAfter(events, 5, b, tool) == Origins(None, map[a := None, b := Some(3)]);
    assert OriginsAfter(events, 6, b, tool) == Origins(None, map[a := None, b := None]);
    assert LastScan(events, 4, b, tool) == Some(3);
    assert LastScan(events, 5, b, tool) == Some(3);
  }
}
