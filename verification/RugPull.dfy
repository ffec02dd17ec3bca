/** Noticing that a tool definition changed since it was last scanned. Hashes are texts given by
    their UTF-8 bytes; the one-way hash is a parameter. */
module RugPull {
  import opened Utf8
  import opened Wrappers

  type Bytes = seq<bv8>

  // `hex(sha256(text))`: 64 ASCII characters.
  type Digest = string -> Bytes

  ghost predicate IsDigest(hash: Digest) {
    forall text :: |hash(text)| == 64 && Sliceable(hash(text))
  }

  // The first 8 bytes are whole characters, so that the text may be cut there.
  predicate Sliceable(text: Bytes) {
    |text| == 8 || (|text| > 8 && text[8] & 0xC0 != 0x80)
  }

  lemma ContinuationByte(x: bv8)
    ensures x & 0xC0 == 0x80 <==> 0x80 <= x as int < 0xC0
  {
  }

  /** The cut after 8 bytes does not panic exactly when they end at a character boundary. */
  lemma SliceableIffBoundary(text: string, bytes: Bytes)
    requires |bytes| == |Encode(text)| && forall i :: 0 <= i < |bytes| ==> bytes[i] as int == Encode(text)[i]
    ensures Sliceable(bytes) <==> |bytes| >= 8 && IsCharBoundary(text, 8)
  {
    if |bytes| >= 8 {
      BoundaryIffNoContinuation(text, 8);
      if |bytes| > 8 {
        ContinuationByte(bytes[8]);
      }
    }
  }

  ghost predicate WholeHashes(store: map<string, Bytes>) {
    forall k :: k in store ==> Sliceable(store[k])
  }

  function Key(upstream: string, tool: string): string {
    upstream + ":" + tool
  }

  datatype Scan = Scan(upstream: string, tool: string, definition: string)

  function KeyOf(s: Scan): string { Key(s.upstream, s.tool) }

  class Scanner {
    var previousHashes: map<string, Bytes>

    constructor (loaded: map<string, Bytes>)
      ensures previousHashes == loaded
    {
      previousHashes := loaded;
    }

    /** Compares with the stored hash in constant time, then stores the new one. No result is a
        slice of the stored hash out of bounds: it happens only for a changed hash, before the
        store is updated. */
    method CheckRugPull(s: Scan, hash: Digest) returns (finding: Option<bool>)
      requires IsDigest(hash)
      modifies this
      ensures var key, new_ := KeyOf(s), hash(s.definition);
              var changed := key in old(previousHashes) && old(previousHashes)[key] != new_;
              if changed && !Sliceable(old(previousHashes)[key])
              then finding == None && previousHashes == old(previousHashes)
              else finding == Some(changed) && previousHashes == old(previousHashes)[key := new_]
    {
      var key, new_ := KeyOf(s), hash(s.definition);
      var found := false;
      if key in previousHashes {
        var prev := previousHashes[key];
        var same := SameBytes(prev, new_);
        if !same {
          if !Sliceable(prev) {
            return None;
          }
          assert Sliceable(new_);
          found := true;
        }
      }
      previousHashes := previousHashes[key := new_];
      finding := Some(found);
    }

    /** Scans the tools of an upstream one after the other. No result stands for a scan that was
        cut short, which a store of whole hashes never causes. */
    method ScanTools(upstream: string, tools: seq<(string, string)>, hash: Digest) returns (findings: Option<seq<bool>>)
      requires IsDigest(hash)
      modifies this
      ensures WholeHashes(old(previousHashes)) ==> findings.Some? && WholeHashes(previousHashes)
      ensures findings.Some? ==>
                && previousHashes == StoredAfter(hash, old(previousHashes), upstream, tools)
                && findings.value == FindingsOf(hash, old(previousHashes), upstream, tools)
    {
      hide IsDigest, WholeHashes, Sliceable;
      var found := [];
      for i := 0 to |tools|
        invariant previousHashes == StoredAfter(hash, old(previousHashes), upstream, tools[..i])
        invariant WholeHashes(old(previousHashes)) ==> WholeHashes(previousHashes)
        invariant found == FindingsOf(hash, old(previousHashes), upstream, tools[..i])
      {
        assert tools[..i + 1][..i] == tools[..i];
        var s := Scan(upstream, tools[i].0, tools[i].1);
        WholeHashesStay(hash, previousHashes, s);
        var finding := CheckRugPull(s, hash);
        if finding.None? {
          return None;
        }
        found := found + [finding.value];
      }
      assert tools[..|tools|] == tools;
      findings := Some(found);
    }
  }

  lemma WholeHashesStay(hash: Digest, store: map<string, Bytes>, s: Scan)
    requires IsDigest(hash)
    ensures WholeHashes(store) ==> WholeHashes(store[KeyOf(s) := hash(s.definition)])
    ensures WholeHashes(store) && KeyOf(s) in store ==> Sliceable(store[KeyOf(s)])
  {
  }

  // Which of the tools are found changed, each against the store its predecessors left.
  function FindingsOf(hash: Digest, store: map<string, Bytes>, upstream: string, tools: seq<(string, string)>): seq<bool> {
    if tools == [] then []
    else
      var init, last := tools[..|tools| - 1], tools[|tools| - 1];
      FindingsOf(hash, store, upstream, init)
      + [ReportedBy(hash, StoredAfter(hash, store, upstream, init), Scan(upstream, last.0, last.1))]
  }

  // The store after a list of tools of one upstream was scanned, in order.
  function StoredAfter(hash: Digest, store: map<string, Bytes>, upstream: string, tools: seq<(string, string)>):
      map<string, Bytes>
  {
    if tools == [] then store
    else
      var last := tools[|tools| - 1];
      StoredAfter(hash, store, upstream, tools[..|tools| - 1])[Key(upstream, last.0) := hash(last.1)]
  }

  predicate ReportedBy(hash: Digest, store: map<string, Bytes>, s: Scan) {
    KeyOf(s) in store && store[KeyOf(s)] != hash(s.definition)
  }

  /** No early exit: the differences of all byte pairs are gathered first. */
  method SameBytes(a: Bytes, b: Bytes) returns (same: bool)
    ensures same <==> a == b
  {
    var acc: bv8 := 0;
    var n := if |a| <= |b| then |a| else |b|;
    for i := 0 to n
      invariant acc == 0 <==> a[..i] == b[..i]
    {
      OrXorIsZero(acc, a[i], b[i]);
      assert a[..i + 1] == a[..i] + [a[i]] && b[..i + 1] == b[..i] + [b[i]];
      acc := acc | (a[i] ^ b[i]);
    }
    assert |a| == |b| ==> a[..n] == a && b[..n] == b;
    same := |a| == |b| && acc == 0;
  }

  lemma OrXorIsZero(acc: bv8, x: bv8, y: bv8)
    ensures acc | (x ^ y) == 0 <==> acc == 0 && x == y
  {
  }

  // ---- histories ----

  function Stored(hash: Digest, history: seq<Scan>): map<string, Bytes> {
    if history == [] then map[]
    else
      var s := history[|history| - 1];
      Stored(hash, history[..|history| - 1])[KeyOf(s) := hash(s.definition)]
  }

  /** A store that scanning filled never stops a scan; only a loaded one can. */
  lemma {:induction false} OwnHashesAreSliceable(hash: Digest, history: seq<Scan>)
    requires IsDigest(hash)
    ensures forall k :: k in Stored(hash, history) ==> Sliceable(Stored(hash, history)[k])
  {
    if history != [] {
      OwnHashesAreSliceable(hash, history[..|history| - 1]);
    }
  }

  /** The definition this tool of this upstream had when it was last scanned. */
  function LastDefinition(history: seq<Scan>, upstream: string, tool: string): Option<string> {
    if history == [] then None
    else
      var s := history[|history| - 1];
      if s.upstream == upstream && s.tool == tool then Some(s.definition)
      else LastDefinition(history[..|history| - 1], upstream, tool)
  }

  // What one scanner finds after a history of its own that started with an empty store.
  predicate Reported(hash: Digest, history: seq<Scan>, s: Scan) {
    ReportedBy(hash, Stored(hash, history), s)
  }

  predicate Changed(hash: Digest, history: seq<Scan>, s: Scan) {
    var last := LastDefinition(history, s.upstream, s.tool);
    last.Some? && hash(last.value) != hash(s.definition)
  }

  /** Neither upstream name continues the other one after a colon. */
  predicate Separate(u: string, v: string) {
    !(u + ":" <= v) && !(v + ":" <= u)
  }

  /** Two upstreams never share a key, whatever their tools are called, exactly when they are
      separate and different; so colon-free names never do. */
  lemma KeysApartIffSeparate(u: string, v: string)
    ensures (forall s: string, t: string :: Key(u, s) != Key(v, t)) <==> u != v && Separate(u, v)
  {
    if u == v {
      assert Key(u, "") == Key(v, "");
    } else if u + ":" <= v {
      SharedKey(u, v, "");
    } else if v + ":" <= u {
      SharedKey(v, u, "");
    } else {
      forall s: string, t: string ensures Key(u, s) != Key(v, t) {
        if Key(u, s) == Key(v, t) {
          SharedKeyContinues(u, v, s, t);
        }
      }
    }
  }

  lemma SharedKey(u: string, v: string, tool: string)
    requires u + ":" <= v
    ensures Key(u, v[|u| + 1..] + ":" + tool) == Key(v, tool)
  {
    assert v == u + ":" + v[|u| + 1..];
  }

  lemma SharedKeyContinues(u: string, v: string, s: string, t: string)
    requires Key(u, s) == Key(v, t) && u != v
    ensures u + ":" <= v || v + ":" <= u
  {
    var k := Key(u, s);
    assert k[..|u|] == u && k[|u|] == ':' && k[..|v|] == v && k[|v|] == ':';
    if |u| < |v| {
      assert v[..|u| + 1] == k[..|u| + 1] == u + ":";
    } else if |v| < |u| {
      assert u[..|v| + 1] == k[..|v| + 1] == v + ":";
    }
  }

  /** Over any history of one scanner, of upstreams with separate names, a scan is reported exactly
      when the hash of the same tool of the same upstream was different at its last scan. */
  lemma {:induction false} ReportedIffChanged(hash: Digest, history: seq<Scan>, s: Scan)
    requires forall e :: e in history ==> e.upstream == s.upstream || Separate(e.upstream, s.upstream)
    ensures Reported(hash, history, s) <==> Changed(hash, history, s)
    decreases |history|
  {
    if history != [] {
      var init, e := history[..|history| - 1], history[|history| - 1];
      assert e in history;
      ReportedIffChanged(hash, init, s);
      if e.upstream == s.upstream {
        assert KeyOf(e) == KeyOf(s) ==> e.tool == s.tool by {
          assert KeyOf(e)[|s.upstream| + 1..] == e.tool && KeyOf(s)[|s.upstream| + 1..] == s.tool;
        }
      } else {
        KeysApartIffSeparate(e.upstream, s.upstream);
        assert Key(e.upstream, e.tool) != Key(s.upstream, s.tool);
      }
    }
  }

  /** Without separate names, for every tool of `v` there is one of `u` with its key, and a change of
      that one goes unreported when `v` was seen, in between, with the very definition that it
      changes to. Two scanners share a store only through its file, so the second must have been
      opened after the first scan, and the first again after the second. */
  lemma SharedKeyHidesChange(hash: Digest, u: string, v: string, tool: string, d: string, e: string)
    requires u + ":" <= v && hash(d) != hash(e)
    ensures var other := v[|u| + 1..] + ":" + tool;
            var history := [Scan(u, other, d), Scan(v, tool, e)];
            Changed(hash, history, Scan(u, other, e)) && !Reported(hash, history, Scan(u, other, e))
  {
    var other := v[|u| + 1..] + ":" + tool;
    var first, second := Scan(u, other, d), Scan(v, tool, e);
    SharedKey(u, v, tool);
    assert |u| < |v|;
    assert [first, second][..1] == [first] && [first][..0] == [];
    assert Stored(hash, [first, second])[KeyOf(second)] == hash(e);
    assert LastDefinition([first], u, other) == Some(d);
  }

  /** Nor is it only that: any tool of `v` can be reported although it was never scanned before. */
  lemma SharedKeyIsReported(hash: Digest, u: string, v: string, tool: string, d: string, e: string)
    requires u + ":" <= v && hash(d) != hash(e)
    ensures var s := Scan(v, tool, e);
            var history := [Scan(u, v[|u| + 1..] + ":" + tool, d)];
            Reported(hash, history, s) && !Changed(hash, history, s)
  {
    var first := Scan(u, v[|u| + 1..] + ":" + tool, d);
    SharedKey(u, v, tool);
    assert |u| < |v|;
    assert [first][..0] == [];
    assert Stored(hash, [first]) == map[KeyOf(first) := hash(d)];
    assert LastDefinition([], v, tool) == None;
  }
}
