/** The audit blackbox: rows chained by a hash of their contents, the recorder that appends
    them, and the verifier that walks the chain. The hash is a parameter; nothing is assumed of
    it except where a lemma says so, and the binding results name the colliding texts instead of
    assuming there are none. */
module AuditChain {
  import opened Decimal
  import opened Utf8

  // Sixty-four zeros stand before the first row.
  const GENESIS := Zeros(64)

  function Zeros(n: nat): (s: string)
    ensures |s| == n && forall i :: 0 <= i < n ==> s[i] == '0'
  {
    if n == 0 then [] else ['0'] + Zeros(n - 1)
  }

  // The columns the hash covers.
  datatype Entry = Entry(agent: string, tool: string, args: string, result: string, outcome: string)

  // The columns it does not.
  datatype Meta = Meta(timestampMs: int, permissions: string, sessionId: string, durationUs: nat,
                       ifcLabel: string, oboSub: string, traceId: string, actChain: string)

  datatype Row = Row(seqNo: nat, prevHash: string, entry: Entry, hash: string, meta: Meta)

  function Preimage(seqNo: nat, prevHash: string, e: Entry): string {
    Digits(seqNo) + "|" + prevHash + "|" + e.agent + "|" + e.tool + "|" + e.args + "|" + e.result + "|" + e.outcome
  }

  // ---- the recorder ----

  type Hash = string -> string

  // Inputs of one call to the recorder.
  datatype Call = Call(entry: Entry, meta: Meta)

  function Stored(e: Entry, sanitize: string -> string): Entry {
    e.(args := Truncated(sanitize(e.args), 4096), result := Truncated(sanitize(e.result), 4096))
  }

  // The row a call produces from the chain state.
  function NextRow(seqNo: nat, prevHash: string, c: Call, sanitize: string -> string, sha: Hash): Row {
    var e := Stored(c.entry, sanitize);
    Row(seqNo + 1, prevHash, e, sha(Preimage(seqNo + 1, prevHash, e)), c.meta)
  }

  // ---- what a row must hold of a call ----

  // All of a text that fits in 4096 bytes, else as many whole characters as do.
  ghost predicate KeptOf(kept: string, full: string) {
    && kept <= full && ByteLen(kept) <= 4096
    && (if ByteLen(full) <= 4096 then kept == full
        else |kept| < |full| && ByteLen(kept) + Width(full[|kept|]) > 4096)
  }

  /** The call's own columns as they were, and its arguments and result as the filter leaves them. */
  ghost predicate HoldsCall(row: Row, c: Call, sanitize: string -> string) {
    && row.entry.agent == c.entry.agent && row.entry.tool == c.entry.tool && row.entry.outcome == c.entry.outcome
    && row.meta == c.meta
    && KeptOf(row.entry.args, sanitize(c.entry.args))
    && KeptOf(row.entry.result, sanitize(c.entry.result))
  }

  lemma StoredIsKept(c: Call, sanitize: string -> string)
    ensures forall row: Row :: row.entry == Stored(c.entry, sanitize) && row.meta == c.meta ==>
              HoldsCall(row, c, sanitize)
  {
    TruncatedIsLongestPrefix(sanitize(c.entry.args), 4096);
    TruncatedIsLongestPrefix(sanitize(c.entry.result), 4096);
  }

  class Blackbox {
    var table: seq<Row>
    var seqNo: nat
    var prevHash: string
    const sanitize: string -> string
    const sha: Hash

    function Snapshot(): State
      reads this
    {
      State(table, seqNo, prevHash)
    }

    /** Opens a table, resuming from its last row. */
    constructor (table: seq<Row>, sanitize: string -> string, sha: Hash)
      ensures this.sanitize == sanitize && this.sha == sha
      ensures Snapshot() == Resume(table)
    {
      this.table := table;
      this.sanitize := sanitize;
      this.sha := sha;
      if table == [] {
        seqNo, prevHash := 0, GENESIS;
      } else {
        seqNo, prevHash := table[|table| - 1].seqNo, table[|table| - 1].hash;
      }
    }

    /** Records a call. A failed insert is logged and otherwise ignored: the chain state moves on
        although the row is missing from the table. */
    method Record(c: Call, insertSucceeds: bool)
      modifies this
      ensures Snapshot() == Step(old(Snapshot()), Recorded(c, insertSucceeds), sanitize, sha)
      ensures seqNo == old(seqNo) + 1
      ensures !insertSucceeds ==> table == old(table)
      ensures insertSucceeds ==>
                && |table| == |old(table)| + 1 && old(table) <= table
                && var row := table[|table| - 1];
                   && row.seqNo == seqNo && row.prevHash == old(prevHash) && HoldsCall(row, c, sanitize)
                   && row.hash == prevHash == sha(Preimage(row.seqNo, row.prevHash, row.entry))
    {
      seqNo := seqNo + 1;
      var args := TruncateStr(sanitize(c.entry.args), 4096);
      var result := TruncateStr(sanitize(c.entry.result), 4096);
      var e := c.entry.(args := args, result := result);
      var preimage := Preimage(seqNo, prevHash, e);
      var hash := sha(preimage);
      if insertSucceeds {
        table := table + [Row(seqNo, prevHash, e, hash, c.meta)];
      }
      prevHash := hash;
      StoredIsKept(c, sanitize);
    }

    /** Counts the good links from the start and names the first bad row, if there is one. */
    method VerifyChain() returns (valid: nat, broken: Broken)
      ensures valid <= |table| && forall i :: 0 <= i < valid ==> LinkOk(table, i, sha)
      ensures broken == None <==> valid == |table|
      ensures valid < |table| ==> broken == FirstBroken(table[valid].seqNo) && !LinkOk(table, valid, sha)
      ensures broken == None <==> Verifies(table, sha)
    {
      hide Preimage, Zeros;
      var expectedPrev := GENESIS;
      valid := 0;
      for i := 0 to |table|
        invariant valid == i
        invariant expectedPrev == Head(table[..i])
        invariant forall k :: 0 <= k < i ==> LinkOk(table, k, sha)
      {
        var row := table[i];
        assert expectedPrev == ExpectedPrev(table, i);
        if row.prevHash != expectedPrev {
          return valid, FirstBroken(row.seqNo);
        }
        var computed := sha(Preimage(row.seqNo, row.prevHash, row.entry));
        if computed != row.hash {
          return valid, FirstBroken(row.seqNo);
        }
        expectedPrev := row.hash;
        valid := valid + 1;
      }
      broken := None;
    }
  }

  datatype Broken = None | FirstBroken(seqNo: nat)

  // ---- what a good chain is ----

  function LastSeq(table: seq<Row>): nat {
    if table == [] then 0 else table[|table| - 1].seqNo
  }

  /** The hash a log ends in; an empty log ends in the genesis value. */
  function Head(table: seq<Row>): string {
    if table == [] then GENESIS else table[|table| - 1].hash
  }

  function ExpectedPrev(table: seq<Row>, i: nat): string
    requires i < |table|
  {
    if i == 0 then GENESIS else table[i - 1].hash
  }

  predicate VerifyChainLink(row: Row, expectedPrev: string, sha: Hash) {
    row.prevHash == expectedPrev && sha(Preimage(row.seqNo, row.prevHash, row.entry)) == row.hash
  }

  predicate LinkOk(table: seq<Row>, i: nat, sha: Hash)
    requires i < |table|
  {
    VerifyChainLink(table[i], ExpectedPrev(table, i), sha)
  }

  predicate Verifies(table: seq<Row>, sha: Hash) {
    forall i :: 0 <= i < |table| ==> LinkOk(table, i, sha)
  }

  lemma VerifiesPrefix(table: seq<Row>, n: nat, sha: Hash)
    requires n <= |table| && Verifies(table, sha)
    ensures Verifies(table[..n], sha)
  {
    forall i | 0 <= i < n ensures LinkOk(table[..n], i, sha) {
      assert LinkOk(table, i, sha);
    }
  }

  lemma VerifiesAppend(table: seq<Row>, row: Row, sha: Hash)
    ensures Verifies(table + [row], sha) <==> Verifies(table, sha) && VerifyChainLink(row, Head(table), sha)
  {
    var longer := table + [row];
    forall i | 0 <= i < |table| ensures LinkOk(longer, i, sha) <==> LinkOk(table, i, sha) {
    }
    assert LinkOk(longer, |table|, sha) <==> VerifyChainLink(row, Head(table), sha);
    assert longer[..|table|] == table;
    if Verifies(longer, sha) {
      VerifiesPrefix(longer, |table|, sha);
    }
  }

  // ---- taking a preimage apart ----

  predicate NoPipe(s: string) {
    '|' !in s
  }

  lemma SplitAtFirstPipe(a: string, x: string, b: string, y: string)
    requires NoPipe(a) && NoPipe(b) && a + "|" + x == b + "|" + y
    ensures a == b && x == y
  {
    var s := a + "|" + x;
    assert s[|a|] == '|' && s[|b|] == '|';
    assert forall i :: 0 <= i < |a| ==> s[i] == a[i] && s[i] != '|';
    assert forall i :: 0 <= i < |b| ==> s[i] == b[i] && s[i] != '|';
    assert a == s[..|a|] && b == s[..|b|];
    assert x == s[|a| + 1..] && y == s[|b| + 1..];
  }

  lemma SplitAtLastPipe(a: string, x: string, b: string, y: string)
    requires NoPipe(x) && NoPipe(y) && a + "|" + x == b + "|" + y
    ensures a == b && x == y
  {
    var s := a + "|" + x;
    assert s[|a|] == '|' && s[|b|] == '|';
    assert forall i :: |a| < i < |s| ==> s[i] == x[i - |a| - 1] && s[i] != '|';
    assert forall i :: |b| < i < |s| ==> s[i] == y[i - |b| - 1] && s[i] != '|';
    assert a == s[..|a|] && b == s[..|b|];
    assert x == s[|a| + 1..] && y == s[|b| + 1..];
  }

  function Tail(e: Entry): string {
    e.agent + "|" + e.tool + "|" + e.args + "|" + e.result + "|" + e.outcome
  }

  lemma PreimageSplit(n: nat, p: string, e: Entry)
    ensures Preimage(n, p, e) == Digits(n) + "|" + (p + "|" + Tail(e))
    ensures NoPipe(Digits(n))
  {
  }

  /** Sequence number and previous hash can always be read back from a preimage. */
  lemma PreimageHeader(m: nat, p: string, d: Entry, n: nat, q: string, e: Entry)
    requires NoPipe(p) && NoPipe(q) && Preimage(m, p, d) == Preimage(n, q, e)
    ensures m == n && p == q && Tail(d) == Tail(e)
  {
    hide Preimage, Tail, Digits;
    PreimageSplit(m, p, d);
    PreimageSplit(n, q, e);
    SplitAtFirstPipe(Digits(m), p + "|" + Tail(d), Digits(n), q + "|" + Tail(e));
    DigitsInjective(m, n);
    SplitAtFirstPipe(p, Tail(d), q, Tail(e));
  }

  // Only the result may hold the separator.
  predicate Separable(e: Entry) {
    NoPipe(e.agent) && NoPipe(e.tool) && NoPipe(e.args) && NoPipe(e.outcome)
  }

  lemma SeparableTail(d: Entry, e: Entry)
    requires Separable(d) && Separable(e) && Tail(d) == Tail(e)
    ensures d == e
  {
    var x, y := d.result + "|" + d.outcome, e.result + "|" + e.outcome;
    var v, w := d.args + "|" + x, e.args + "|" + y;
    var t, u := d.tool + "|" + v, e.tool + "|" + w;
    assert Tail(d) == d.agent + "|" + t && Tail(e) == e.agent + "|" + u;
    SplitAtFirstPipe(d.agent, t, e.agent, u);
    SplitAtFirstPipe(d.tool, v, e.tool, w);
    SplitAtFirstPipe(d.args, x, e.args, y);
    SplitAtLastPipe(d.result, d.outcome, e.result, e.outcome);
  }

  /** Rows whose agent, tool, args and outcome are free of '|' are told apart by their preimages. */
  lemma PreimageInjective(m: nat, p: string, d: Entry, n: nat, q: string, e: Entry)
    requires NoPipe(p) && NoPipe(q) && Separable(d) && Separable(e)
    requires Preimage(m, p, d) == Preimage(n, q, e)
    ensures m == n && p == q && d == e
  {
    PreimageHeader(m, p, d, n, q, e);
    SeparableTail(d, e);
  }

  ghost predicate PipeFree(e: Entry) {
    Separable(e) && NoPipe(e.result)
  }

  // Another entry with the same text: the first '|' inside a field can pass for a separator.
  lemma Reading(e: Entry) returns (d: Entry)
    requires !PipeFree(e)
    ensures d != e && Tail(d) == Tail(e)
  {
    if !NoPipe(e.agent) {
      var x, y := Cut(e.agent);
      d := e.(agent := x, tool := y + "|" + e.tool);
    } else if !NoPipe(e.tool) {
      var x, y := Cut(e.tool);
      d := e.(tool := x, args := y + "|" + e.args);
    } else if !NoPipe(e.args) {
      var x, y := Cut(e.args);
      d := e.(args := x, result := y + "|" + e.result);
    } else if !NoPipe(e.result) {
      var x, y := Cut(e.result);
      d := e.(result := x, outcome := y + "|" + e.outcome);
    } else {
      var x, y := Cut(e.outcome);
      d := e.(result := e.result + "|" + x, outcome := y);
    }
  }

  lemma Cut(s: string) returns (x: string, y: string)
    requires !NoPipe(s)
    ensures s == x + "|" + y && |x| < |s|
  {
    var i :| 0 <= i < |s| && s[i] == '|';
    x, y := s[..i], s[i + 1..];
  }

  lemma {:induction false} PipeCountOfTail(d: Entry, e: Entry)
    requires PipeFree(e) && Tail(d) == Tail(e)
    ensures PipeFree(d)
  {
    CountConcat(d);
    CountConcat(e);
    CountZero(e.agent);
    CountZero(e.tool);
    CountZero(e.args);
    CountZero(e.result);
    CountZero(e.outcome);
    CountZero(d.agent);
    CountZero(d.tool);
    CountZero(d.args);
    CountZero(d.result);
    CountZero(d.outcome);
  }

  function Pipes(s: string): nat {
    if s == [] then 0 else (if s[0] == '|' then 1 else 0) + Pipes(s[1..])
  }

  lemma {:induction false} PipesConcat(s: string, t: string)
    ensures Pipes(s + t) == Pipes(s) + Pipes(t)
  {
    if s == [] {
      assert s + t == t;
    } else {
      PipesConcat(s[1..], t);
      assert (s + t)[1..] == s[1..] + t;
    }
  }

  lemma {:induction false} CountZero(s: string)
    ensures Pipes(s) == 0 <==> NoPipe(s)
  {
    if s != [] {
      CountZero(s[1..]);
      assert s == [s[0]] + s[1..];
    }
  }

  lemma CountConcat(e: Entry)
    ensures Pipes(Tail(e)) == Pipes(e.agent) + Pipes(e.tool) + Pipes(e.args) + Pipes(e.result) + Pipes(e.outcome) + 4
  {
    var a, b, c, d := e.agent + "|", e.agent + "|" + e.tool + "|",
      e.agent + "|" + e.tool + "|" + e.args + "|", e.agent + "|" + e.tool + "|" + e.args + "|" + e.result + "|";
    assert Pipes("|") == 1 by { assert "|"[1..] == []; }
    PipesConcat(e.agent, "|");
    PipesConcat(a, e.tool);
    PipesConcat(a + e.tool, "|");
    PipesConcat(b, e.args);
    PipesConcat(b + e.args, "|");
    PipesConcat(c, e.result);
    PipesConcat(c + e.result, "|");
    PipesConcat(d, e.outcome);
  }

  /** The hashed text of an entry has one reading exactly when no field holds the separator. */
  lemma OneReadingIffPipeFree(e: Entry)
    ensures (forall d :: Tail(d) == Tail(e) ==> d == e) <==> PipeFree(e)
  {
    if PipeFree(e) {
      forall d | Tail(d) == Tail(e) ensures d == e {
        PipeCountOfTail(d, e);
        SeparableTail(d, e);
      }
    } else {
      var d := Reading(e);
    }
  }

  // ---- the last hash binds the log ----

  function RowText(r: Row): string {
    Preimage(r.seqNo, r.prevHash, r.entry)
  }

  // Two different texts, one hashed in each log, with the same hash.
  ghost predicate CollisionBetween(a: seq<Row>, b: seq<Row>, sha: Hash) {
    exists i, j :: 0 <= i < |a| && 0 <= j < |b| && RowText(a[i]) != RowText(b[j]) && sha(RowText(a[i])) == sha(RowText(b[j]))
  }

  ghost predicate HitsGenesis(a: seq<Row>, sha: Hash) {
    exists i :: 0 <= i < |a| && sha(RowText(a[i])) == GENESIS
  }

  ghost predicate SameTexts(a: seq<Row>, b: seq<Row>) {
    && |a| == |b|
    && forall i :: 0 <= i < |a| ==>
         a[i].seqNo == b[i].seqNo && a[i].prevHash == b[i].prevHash && a[i].hash == b[i].hash
         && Tail(a[i].entry) == Tail(b[i].entry)
  }

  lemma LinkedPrevIsHex(a: seq<Row>, i: nat, sha: Hash)
    requires i < |a| && Verifies(a, sha) && forall x :: NoPipe(sha(x))
    ensures NoPipe(a[i].prevHash)
  {
    assert LinkOk(a, i, sha);
    if i == 0 {
      assert NoPipe(GENESIS);
    } else {
      assert LinkOk(a, i - 1, sha);
    }
  }

  // The last rows of two such logs: a collision, or the same row on logs with the same head.
  lemma LastRowsAgree(a: seq<Row>, b: seq<Row>, sha: Hash)
    requires forall x :: NoPipe(sha(x))
    requires Verifies(a, sha) && Verifies(b, sha) && Head(a) == Head(b) && a != [] && b != []
    ensures var x, y := a[|a| - 1], b[|b| - 1];
            || CollisionBetween(a, b, sha)
            || (x.seqNo == y.seqNo && x.prevHash == y.prevHash && x.hash == y.hash && Tail(x.entry) == Tail(y.entry)
                && Head(a[..|a| - 1]) == Head(b[..|b| - 1]))
  {
    var m, n := |a| - 1, |b| - 1;
    assert LinkOk(a, m, sha) && LinkOk(b, n, sha);
    assert sha(RowText(a[m])) == sha(RowText(b[n]));
    if RowText(a[m]) == RowText(b[n]) {
      LinkedPrevIsHex(a, m, sha);
      LinkedPrevIsHex(b, n, sha);
      PreimageHeader(a[m].seqNo, a[m].prevHash, a[m].entry, b[n].seqNo, b[n].prevHash, b[n].entry);
      assert Head(a[..m]) == ExpectedPrev(a, m) && Head(b[..n]) == ExpectedPrev(b, n);
    }
  }

  lemma LastHashIsOfText(a: seq<Row>, sha: Hash)
    requires Verifies(a, sha)
    ensures a != [] && Head(a) == GENESIS ==> HitsGenesis(a, sha)
  {
    if a != [] {
      assert LinkOk(a, |a| - 1, sha);
    }
  }

  /** Two logs that verify and end in the same hash are the same log, row by row, unless they
      exhibit a collision of the hash or a text that hashes to the genesis value. */
  lemma {:induction false} LastHashBindsLog(a: seq<Row>, b: seq<Row>, sha: Hash)
    requires forall x :: NoPipe(sha(x))
    requires Verifies(a, sha) && Verifies(b, sha) && Head(a) == Head(b)
    ensures SameTexts(a, b) || CollisionBetween(a, b, sha) || HitsGenesis(a, sha) || HitsGenesis(b, sha)
    decreases |a|
  {
    LastHashIsOfText(a, sha);
    LastHashIsOfText(b, sha);
    if a != [] && b != [] && !CollisionBetween(a, b, sha) {
      var m, n := |a| - 1, |b| - 1;
      LastRowsAgree(a, b, sha);
      VerifiesPrefix(a, m, sha);
      VerifiesPrefix(b, n, sha);
      hide Verifies, Head, CollisionBetween, HitsGenesis, Tail, SameTexts;
      LastHashBindsLog(a[..m], b[..n], sha);
      ShorterWitness(a, b, m, n, sha);
      SameTextsExtend(a, b);
    }
  }

  lemma SameTextsExtend(a: seq<Row>, b: seq<Row>)
    requires a != [] && b != []
    ensures var x, y := a[|a| - 1], b[|b| - 1];
            (SameTexts(a[..|a| - 1], b[..|b| - 1])
             && x.seqNo == y.seqNo && x.prevHash == y.prevHash && x.hash == y.hash && Tail(x.entry) == Tail(y.entry))
            ==> SameTexts(a, b)
  {
    hide Tail;
    var p, q := a[..|a| - 1], b[..|b| - 1];
    assert forall i :: 0 <= i < |p| ==> a[i] == p[i];
    assert forall i :: 0 <= i < |q| ==> b[i] == q[i];
  }

  lemma ShorterWitness(a: seq<Row>, b: seq<Row>, m: nat, n: nat, sha: Hash)
    requires m <= |a| && n <= |b|
    ensures CollisionBetween(a[..m], b[..n], sha) ==> CollisionBetween(a, b, sha)
    ensures HitsGenesis(a[..m], sha) ==> HitsGenesis(a, sha)
    ensures HitsGenesis(b[..n], sha) ==> HitsGenesis(b, sha)
  {
    hide RowText;
    assert forall i :: 0 <= i < m ==> a[..m][i] == a[i];
    assert forall j :: 0 <= j < n ==> b[..n][j] == b[j];
  }

  /** When no agent, tool, argument or outcome holds a separator, that means every hashed field. */
  lemma LastHashBindsFields(a: seq<Row>, b: seq<Row>, sha: Hash)
    requires forall x :: NoPipe(sha(x)) && sha(x) != GENESIS
    requires forall x, y :: sha(x) == sha(y) ==> x == y
    requires Verifies(a, sha) && Verifies(b, sha) && Head(a) == Head(b)
    requires forall r :: r in a || r in b ==> Separable(r.entry)
    ensures |a| == |b|
    ensures forall i :: 0 <= i < |a| ==> a[i] == b[i].(meta := a[i].meta)
  {
    LastHashBindsLog(a, b, sha);
    forall i | 0 <= i < |a| ensures a[i].entry == b[i].entry {
      assert a[i] in a && b[i] in b;
      SeparableTail(a[i].entry, b[i].entry);
    }
  }

  // ---- what tampering can hide ----

  ghost predicate Collisionless(sha: Hash) {
    && (forall x :: NoPipe(sha(x)) && sha(x) != GENESIS)
    && (forall x, y :: sha(x) == sha(y) ==> x == y)
  }

  /** Rows are keyed by their number and read in its order: every table the verifier can meet has
      strictly increasing numbers. */
  ghost predicate InOrder(table: seq<Row>) {
    forall i, j :: 0 <= i < j < |table| ==> table[i].seqNo < table[j].seqNo
  }

  // It is read as this sequence, and it verifies.
  ghost predicate Unnoticed(table: seq<Row>, sha: Hash) {
    InOrder(table) && Verifies(table, sha)
  }

  lemma SameTextsInOrder(a: seq<Row>, b: seq<Row>)
    requires SameTexts(a, b)
    ensures InOrder(a) <==> InOrder(b)
  {
    hide Tail;
  }

  /** One hash that was kept, anywhere, pins everything up to it: in a log that verifies its row
      stands where it stood, after rows with the same texts as before. */
  lemma KeptHashPinsPrefix(table: seq<Row>, tampered: seq<Row>, m: nat, k: nat, sha: Hash)
    requires Collisionless(sha) && Verifies(table, sha) && Verifies(tampered, sha)
    requires m < |table| && k < |tampered| && tampered[k].hash == table[m].hash
    ensures k == m && SameTexts(table[..m + 1], tampered[..k + 1])
  {
    VerifiesPrefix(table, m + 1, sha);
    VerifiesPrefix(tampered, k + 1, sha);
    LastHashBindsLog(table[..m + 1], tampered[..k + 1], sha);
  }

  // None of these rows carries a hash of the log.
  ghost predicate FreshlyHashed(rows: seq<Row>, table: seq<Row>) {
    forall k, m :: 0 <= k < |rows| && 0 <= m < |table| ==> rows[k].hash != table[m].hash
  }

  // The first `k` rows have the old texts; the rest is chained after them with new hashes.
  ghost predicate Forged(table: seq<Row>, tampered: seq<Row>, k: nat, sha: Hash) {
    && k <= |table| && k <= |tampered|
    && SameTexts(table[..k], tampered[..k])
    && FreshlyHashed(tampered[k..], table)
    && VerifiesFrom(Head(table[..k]), tampered[k..], sha)
  }

  /** Any tampering whatever: the result verifies exactly when it is a part of the log from its
      start, with the same texts, followed by rows that were all hashed afresh and link up. */
  lemma TamperedLogVerifiesIffForged(table: seq<Row>, tampered: seq<Row>, sha: Hash)
    requires Collisionless(sha) && Verifies(table, sha)
    ensures Verifies(tampered, sha) <==> exists k: nat :: Forged(table, tampered, k, sha)
  {
    hide Tail, Collisionless, VerifiesFrom;
    if Verifies(tampered, sha) {
      var k := KeptPart(table, tampered, sha);
      hide Verifies, SameTexts, FreshlyHashed, Head;
      SameTextsHead(table[..k], tampered[..k]);
      assert tampered == tampered[..k] + tampered[k..];
      VerifiesConcat(tampered[..k], tampered[k..], sha);
      assert Forged(table, tampered, k, sha);
    }
    if k: nat :| Forged(table, tampered, k, sha) {
      VerifiesPrefix(table, k, sha);
      SameTextsVerify(table[..k], tampered[..k], sha);
      SameTextsHead(table[..k], tampered[..k]);
      assert tampered == tampered[..k] + tampered[k..];
      VerifiesConcat(tampered[..k], tampered[k..], sha);
    }
  }

  lemma KeptPart(table: seq<Row>, tampered: seq<Row>, sha: Hash) returns (k: nat)
    requires Collisionless(sha) && Verifies(table, sha) && Verifies(tampered, sha)
    ensures k <= |table| && k <= |tampered| && SameTexts(table[..k], tampered[..k])
    ensures FreshlyHashed(tampered[k..], table)
  {
    hide Collisionless, Verifies;
    k := LastKept(table, tampered, |tampered|);
    if k > 0 {
      var m :| 0 <= m < |table| && tampered[k - 1].hash == table[m].hash;
      KeptHashPinsPrefix(table, tampered, m, k - 1, sha);
    }
  }

  lemma SameTextsHead(a: seq<Row>, b: seq<Row>)
    requires SameTexts(a, b)
    ensures Head(a) == Head(b)
  {
    hide Tail;
  }

  // One past the last of the first `n` rows that carries a hash of the log.
  lemma {:induction false} LastKept(table: seq<Row>, tampered: seq<Row>, n: nat) returns (k: nat)
    requires n <= |tampered|
    ensures k <= n
    ensures k > 0 ==> exists m :: 0 <= m < |table| && tampered[k - 1].hash == table[m].hash
    ensures forall j, m :: k <= j < n && 0 <= m < |table| ==> tampered[j].hash != table[m].hash
    decreases n
  {
    if n == 0 || exists m :: 0 <= m < |table| && tampered[n - 1].hash == table[m].hash {
      k := n;
    } else {
      k := LastKept(table, tampered, n - 1);
    }
  }

  // The part of `table` from `i` to `j` replaced by other rows: an edit, an insertion (`i == j`),
  // a deletion (no rows), a reordering, or any of these together.
  function Spliced(table: seq<Row>, i: nat, rows: seq<Row>, j: nat): seq<Row>
    requires i <= j <= |table|
  {
    table[..i] + rows + table[j..]
  }

  lemma {:induction false} VerifiesConcat(a: seq<Row>, b: seq<Row>, sha: Hash)
    ensures Verifies(a + b, sha) <==> Verifies(a, sha) && VerifiesFrom(Head(a), b, sha)
    decreases |b|
  {
    if b == [] {
      assert a + b == a;
    } else {
      var init, last := b[..|b| - 1], b[|b| - 1];
      VerifiesConcat(a, init, sha);
      assert a + b == (a + init) + [last];
      VerifiesAppend(a + init, last, sha);
      assert Head(a + init) == Latest(Head(a), init);
      VerifiesFromAppend(Head(a), init, last, sha);
      assert init + [last] == b;
    }
  }

  // The hash that rows chained after `head` end in.
  function Latest(head: string, rows: seq<Row>): string {
    if rows == [] then head else rows[|rows| - 1].hash
  }

  ghost predicate LinkFrom(head: string, rows: seq<Row>, k: nat, sha: Hash)
    requires k < |rows|
  {
    VerifyChainLink(rows[k], if k == 0 then head else rows[k - 1].hash, sha)
  }

  // Good links, the first one from `head`.
  ghost predicate VerifiesFrom(head: string, rows: seq<Row>, sha: Hash) {
    forall k :: 0 <= k < |rows| ==> LinkFrom(head, rows, k, sha)
  }

  lemma VerifiesFromAppend(head: string, rows: seq<Row>, row: Row, sha: Hash)
    ensures VerifiesFrom(head, rows + [row], sha) <==>
            VerifiesFrom(head, rows, sha) && VerifyChainLink(row, Latest(head, rows), sha)
  {
    hide VerifyChainLink;
    var longer := rows + [row];
    assert forall k :: 0 <= k < |rows| ==> (LinkFrom(head, longer, k, sha) <==> LinkFrom(head, rows, k, sha));
    assert LinkFrom(head, longer, |rows|, sha) <==> VerifyChainLink(row, Latest(head, rows), sha);
  }

  // Only the first link depends on what went before.
  lemma SameHeadSameRest(head: string, other: string, rows: seq<Row>, sha: Hash)
    requires VerifiesFrom(head, rows, sha)
    ensures VerifiesFrom(other, rows, sha) <==> (rows == [] || other == head)
  {
    if rows != [] {
      assert LinkFrom(head, rows, 0, sha);
      assert LinkFrom(other, rows, 0, sha) <==> other == head;
      assert forall k :: 0 < k < |rows| ==> (LinkFrom(other, rows, k, sha) <==> LinkFrom(head, rows, k, sha));
    }
  }

  /** Whatever the hash is: a good log with a part replaced verifies exactly when the new part
      links up with what is kept before it and ends in the hash the kept rest links to. */
  lemma SplicedLogVerifiesIff(table: seq<Row>, i: nat, rows: seq<Row>, j: nat, sha: Hash)
    requires i <= j <= |table| && Verifies(table, sha)
    ensures Verifies(Spliced(table, i, rows, j), sha) <==>
            Verifies(table[..i] + rows, sha)
            && (j < |table| ==> Head(table[..i] + rows) == Head(table[..j]))
  {
    assert table == table[..j] + table[j..];
    VerifiesConcat(table[..j], table[j..], sha);
    VerifiesConcat(table[..i] + rows, table[j..], sha);
    SameHeadSameRest(Head(table[..j]), Head(table[..i] + rows), table[j..], sha);
  }

  lemma SameTextsVerify(a: seq<Row>, b: seq<Row>, sha: Hash)
    requires Verifies(a, sha) && SameTexts(a, b)
    ensures Verifies(b, sha)
  {
    hide Preimage, Tail;
    forall i | 0 <= i < |b| ensures LinkOk(b, i, sha) {
      assert LinkOk(a, i, sha);
      PreimageTail(a[i].seqNo, a[i].prevHash, a[i].entry, b[i].entry);
    }
  }

  lemma PreimageTail(n: nat, p: string, d: Entry, e: Entry)
    ensures Preimage(n, p, d) == Preimage(n, p, e) <==> Tail(d) == Tail(e)
  {
    var h := Digits(n) + "|" + p + "|";
    assert Preimage(n, p, d) == h + Tail(d) && Preimage(n, p, e) == h + Tail(e);
    assert (h + Tail(d))[|h|..] == Tail(d) && (h + Tail(e))[|h|..] == Tail(e);
  }

  /** Any tampering at all that leaves the hash the log ends in: it goes unnoticed exactly when
      every row keeps its number, its two hashes and its text between the separators. */
  lemma TamperingIsSilentIffSameTexts(table: seq<Row>, tampered: seq<Row>, sha: Hash)
    requires Collisionless(sha) && Verifies(table, sha) && Head(tampered) == Head(table)
    ensures Verifies(tampered, sha) <==> SameTexts(table, tampered)
  {
    if Verifies(tampered, sha) {
      LastHashBindsLog(table, tampered, sha);
    }
    if SameTexts(table, tampered) {
      SameTextsVerify(table, tampered, sha);
    }
  }

  /** Replacing, inserting, deleting or reordering rows before a kept rest goes unnoticed exactly
      when the new rows have the same texts as the old. With nothing kept after it, the end of a
      log can be replaced by any rows that link up and are numbered on. */
  lemma SpliceIsSilentIff(table: seq<Row>, i: nat, rows: seq<Row>, j: nat, sha: Hash)
    requires Collisionless(sha) && Unnoticed(table, sha) && i <= j <= |table|
    ensures Unnoticed(Spliced(table, i, rows, j), sha) <==>
            if j < |table| then SameTexts(table[i..j], rows) else Unnoticed(table[..i] + rows, sha)
  {
    SpliceVerifiesIff(table, i, rows, j, sha);
    if j < |table| {
      if SameTexts(table[i..j], rows) {
        SameTextsAfter(table[..i], table[i..j], rows);
        SameTextsBefore(table[..i] + table[i..j], table[..i] + rows, table[j..]);
        assert table == table[..i] + table[i..j] + table[j..];
        SameTextsInOrder(table, Spliced(table, i, rows, j));
      }
    } else {
      assert Spliced(table, i, rows, j) == table[..i] + rows;
    }
  }

  lemma SameTextsBefore(a: seq<Row>, b: seq<Row>, rest: seq<Row>)
    requires SameTexts(a, b)
    ensures SameTexts(a + rest, b + rest)
  {
    hide Tail;
  }

  lemma SpliceVerifiesIff(table: seq<Row>, i: nat, rows: seq<Row>, j: nat, sha: Hash)
    requires Collisionless(sha) && Verifies(table, sha) && i <= j <= |table|
    ensures Verifies(Spliced(table, i, rows, j), sha) <==>
            if j < |table| then SameTexts(table[i..j], rows) else Verifies(table[..i] + rows, sha)
  {
    if j < |table| {
      SplicedLogVerifiesIff(table, i, rows, j, sha);
      VerifiesPrefix(table, j, sha);
      var old_, new_ := table[..j], table[..i] + rows;
      assert old_ == table[..i] + table[i..j];
      if Head(new_) == Head(old_) {
        TamperingIsSilentIffSameTexts(old_, new_, sha);
      }
      SameTextsAfter(table[..i], table[i..j], rows);
      assert SameTexts(old_, new_) ==> Head(new_) == Head(old_);
    } else {
      assert table[j..] == [];
      assert Spliced(table, i, rows, j) == table[..i] + rows;
    }
  }

  lemma SameTextsAfter(p: seq<Row>, a: seq<Row>, b: seq<Row>)
    ensures SameTexts(p + a, p + b) <==> SameTexts(a, b)
  {
    hide Tail;
    assert forall k :: 0 <= k < |a| ==> (p + a)[|p| + k] == a[k];
    assert forall k :: 0 <= k < |b| ==> (p + b)[|p| + k] == b[k];
    assert forall k :: 0 <= k < |p| ==> (p + a)[k] == (p + b)[k];
  }

  /** Deleting rows goes unnoticed exactly when they are the last ones. */
  lemma DeletionIsSilentIffAtEnd(table: seq<Row>, i: nat, j: nat, sha: Hash)
    requires Collisionless(sha) && Unnoticed(table, sha) && i < j <= |table|
    ensures Unnoticed(table[..i] + table[j..], sha) <==> j == |table|
  {
    SpliceIsSilentIff(table, i, [], j, sha);
    assert Spliced(table, i, [], j) == table[..i] + table[j..];
    if j == |table| {
      VerifiesPrefix(table, i, sha);
      assert table[..i] + [] == table[..i];
    } else {
      assert |table[i..j]| != 0;
    }
  }

  /** Inserting rows, the others left as they are, goes unnoticed exactly when they are appended,
      numbered on and link up. */
  lemma InsertionIsSilentIffAppended(table: seq<Row>, i: nat, rows: seq<Row>, sha: Hash)
    requires Collisionless(sha) && Unnoticed(table, sha) && i <= |table| && rows != []
    ensures Unnoticed(table[..i] + rows + table[i..], sha) <==>
            i == |table| && InOrder(table + rows) && VerifiesFrom(Head(table), rows, sha)
  {
    SpliceIsSilentIff(table, i, rows, i, sha);
    assert table[i..i] == [];
    if i == |table| {
      assert table[..i] == table;
      VerifiesConcat(table, rows, sha);
    }
  }

  // Rows that differ from those of the log in their numbers at most.
  ghost predicate Renumbered(rows: seq<Row>, original: seq<Row>) {
    |rows| == |original| && forall k :: 0 <= k < |rows| ==> rows[k] == original[k].(seqNo := rows[k].seqNo)
  }

  /** To make room in the middle the rows after it must be renumbered; that is always noticed. */
  lemma RenumberedInsertionIsNoticed(table: seq<Row>, i: nat, rows: seq<Row>, rest: seq<Row>, sha: Hash)
    requires Collisionless(sha) && Verifies(table, sha) && i < |table| && rows != []
    requires Renumbered(rest, table[i..])
    ensures !Verifies(table[..i] + rows + rest, sha)
  {
    var tampered := table[..i] + rows + rest;
    var m, k := |table| - 1, |tampered| - 1;
    assert tampered[k] == rest[m - i] && table[i..][m - i] == table[m];
    if Verifies(tampered, sha) {
      KeptHashPinsPrefix(table, tampered, m, k, sha);
    }
  }

  // Every row is one of the log's, with any number.
  ghost predicate Rearranged(moved: seq<Row>, table: seq<Row>, place: seq<nat>) {
    && |place| == |moved|
    && forall k :: 0 <= k < |moved| ==> place[k] < |table| && moved[k] == table[place[k]].(seqNo := moved[k].seqNo)
  }

  /** Rows exchanged, repeated or left out, and renumbered at will: it verifies exactly when what
      there is is the log up to some row, unchanged. */
  lemma RearrangementIsSilentIffPrefix(table: seq<Row>, moved: seq<Row>, place: seq<nat>, sha: Hash)
    requires Collisionless(sha) && Verifies(table, sha) && Rearranged(moved, table, place)
    ensures Verifies(moved, sha) <==> moved <= table
  {
    if Verifies(moved, sha) {
      forall k | 0 <= k < |moved| ensures k < |table| && moved[k] == table[k] {
        assert moved[k].hash == table[place[k]].hash;
        KeptHashPinsPrefix(table, moved, place[k], k, sha);
        assert table[..k + 1][k] == table[k] && moved[..k + 1][k] == moved[k];
      }
      var n := |moved|;
      if n > 0 {
        KeptHashPinsPrefix(table, moved, place[n - 1], n - 1, sha);
      }
      assert moved == table[..n];
    }
    if moved <= table {
      VerifiesPrefix(table, |moved|, sha);
      assert table[..|moved|] == moved;
    }
  }

  /** So exchanging the contents of rows, each position keeping its number, is always noticed. */
  lemma ReorderingIsNoticed(table: seq<Row>, moved: seq<Row>, place: seq<nat>, sha: Hash)
    requires Collisionless(sha) && Verifies(table, sha) && |moved| == |place| == |table|
    requires forall k :: 0 <= k < |table| ==> place[k] < |table| && moved[k] == table[place[k]].(seqNo := table[k].seqNo)
    ensures Verifies(moved, sha) <==> moved == table
  {
    RearrangementIsSilentIffPrefix(table, moved, place, sha);
  }

  /** One row replaced by any other that is read at the same place, every column included. Before
      the last row it goes unnoticed exactly when number, hashes and text stay; the last row can be
      replaced by any row that is numbered on, carries the old previous hash and is hashed afresh. */
  lemma ReplacedRowIsSilentIff(table: seq<Row>, i: nat, row: Row, sha: Hash)
    requires Collisionless(sha) && Unnoticed(table, sha) && i < |table|
    ensures Unnoticed(table[i := row], sha) <==>
            if i + 1 < |table| then SameTexts([table[i]], [row])
            else InOrder(table[..i] + [row]) && VerifyChainLink(row, table[i].prevHash, sha)
  {
    SpliceIsSilentIff(table, i, [row], i + 1, sha);
    assert table[i := row] == Spliced(table, i, [row], i + 1);
    assert table[i..i + 1] == [table[i]];
    if i + 1 == |table| {
      VerifiesPrefix(table, i, sha);
      VerifiesAppend(table[..i], row, sha);
      assert LinkOk(table, i, sha);
      assert Head(table[..i]) == ExpectedPrev(table, i);
    }
  }

  /** A row replaced by one whose number puts it elsewhere is always noticed. */
  lemma MovedRowIsNoticed(table: seq<Row>, i: nat, row: Row, p: nat, sha: Hash)
    requires Collisionless(sha) && Verifies(table, sha) && i < |table| && p < |table| && p != i
    ensures var rest := table[..i] + table[i + 1..];
            !Verifies(rest[..p] + [row] + rest[p..], sha)
  {
    var rest := table[..i] + table[i + 1..];
    var tampered := rest[..p] + [row] + rest[p..];
    var m, k := if p < i then p else i + 1, if p < i then p + 1 else i;
    assert tampered[k] == table[m];
    if Verifies(tampered, sha) {
      KeptHashPinsPrefix(table, tampered, m, k, sha);
    }
  }

  lemma SameTextRow(a: Row, b: Row)
    ensures SameTexts([a], [b]) <==>
            a.seqNo == b.seqNo && a.prevHash == b.prevHash && a.hash == b.hash && Tail(a.entry) == Tail(b.entry)
  {
    assert SameTexts([a], [b]) ==> [a][0] == a && [b][0] == b;
  }

  // Something the hash covers is different.
  predicate HashedPartDiffers(a: Row, b: Row) {
    a != b.(meta := a.meta)
  }

  /** Every change of a row in a hashed column is noticed exactly when the row is not the last and
      is free of separators. Changes of the other columns never are. */
  lemma EveryEditIsNoticedIff(table: seq<Row>, i: nat, sha: Hash)
    requires Collisionless(sha) && Unnoticed(table, sha) && i < |table|
    ensures (forall row :: HashedPartDiffers(table[i], row) ==> !Unnoticed(table[i := row], sha))
            <==> i + 1 < |table| && PipeFree(table[i].entry)
    ensures forall meta :: Unnoticed(table[i := table[i].(meta := meta)], sha)
  {
    var old_ := table[i];
    OneReadingIffPipeFree(old_.entry);
    assert LinkOk(table, i, sha);
    forall row ensures Unnoticed(table[i := row], sha) <==>
        if i + 1 < |table| then SameTexts([old_], [row])
        else InOrder(table[..i] + [row]) && VerifyChainLink(row, old_.prevHash, sha)
    {
      ReplacedRowIsSilentIff(table, i, row, sha);
    }
    forall row: Row | row.seqNo == old_.seqNo ensures InOrder(table[..i] + [row]) {
      assert forall k :: 0 <= k < i ==> (table[..i] + [row])[k] == table[k];
    }
    forall meta ensures Unnoticed(table[i := old_.(meta := meta)], sha) {
      var row := old_.(meta := meta);
      assert SameTexts([old_], [row]) && VerifyChainLink(row, old_.prevHash, sha);
    }
    hide Verifies, Unnoticed, InOrder, Tail;
    if i + 1 == |table| {
      var e := old_.entry.(agent := old_.entry.agent + "x");
      var row := old_.(entry := e, hash := sha(Preimage(old_.seqNo, old_.prevHash, e)));
      assert HashedPartDiffers(old_, row) && VerifyChainLink(row, old_.prevHash, sha);
    } else if !PipeFree(old_.entry) {
      var d :| Tail(d) == Tail(old_.entry) && d != old_.entry;
      var row := old_.(entry := d);
      assert HashedPartDiffers(old_, row) && SameTexts([old_], [row]);
    } else {
      forall row | HashedPartDiffers(old_, row) ensures !SameTexts([old_], [row]) {
        SameTextRow(old_, row);
      }
    }
  }

  // ---- runs of records, failed inserts and reopenings ----

  datatype Event = Recorded(call: Call, inserted: bool) | Reopened

  datatype State = State(table: seq<Row>, seqNo: nat, prevHash: string)

  function Resume(table: seq<Row>): State {
    State(table, LastSeq(table), Head(table))
  }

  // What the recorder and the constructor do to the state.
  function Step(s: State, e: Event, sanitize: string -> string, sha: Hash): State {
    match e
    case Recorded(c, inserted) =>
      var row := NextRow(s.seqNo, s.prevHash, c, sanitize, sha);
      State(if inserted then s.table + [row] else s.table, row.seqNo, row.hash)
    case Reopened => Resume(s.table)
  }

  function After(run: seq<Event>, sanitize: string -> string, sha: Hash): State {
    if run == [] then Resume([])
    else Step(After(run[..|run| - 1], sanitize, sha), run[|run| - 1], sanitize, sha)
  }

  // A row was lost and neither stored over nor forgotten by a reopening.
  predicate Ahead(run: seq<Event>) {
    run != [] && run[|run| - 1].Recorded? && !run[|run| - 1].inserted
  }

  // No insert succeeds right after one that failed, unless the log was reopened in between.
  predicate NoInsertAfterLoss(run: seq<Event>) {
    forall i :: 0 < i < |run| ==> run[i - 1].Recorded? && !run[i - 1].inserted ==>
      run[i].Reopened? || !run[i].inserted
  }

  // The calls whose insert succeeded, in order.
  function InsertedCalls(run: seq<Event>): seq<Call> {
    if run == [] then []
    else
      var e := run[|run| - 1];
      InsertedCalls(run[..|run| - 1]) + if e.Recorded? && e.inserted then [e.call] else []
  }

  /** Over every run the table is the calls that were inserted, one row each, in order: their own
      columns unchanged, their arguments and results filtered first and cut to 4096 bytes after. */
  lemma {:induction false} RunHoldsItsCalls(run: seq<Event>, sanitize: string -> string, sha: Hash)
    ensures var table, calls := After(run, sanitize, sha).table, InsertedCalls(run);
            |table| == |calls| && forall i :: 0 <= i < |table| ==> HoldsCall(table[i], calls[i], sanitize)
    decreases |run|
  {
    if run != [] {
      var e := run[|run| - 1];
      RunHoldsItsCalls(run[..|run| - 1], sanitize, sha);
      if e.Recorded? {
        StoredIsKept(e.call, sanitize);
      }
      hide Stored, HoldsCall, Preimage;
    }
  }

  /** The hashed text of a row, for one row, and the length of the value before the first. */
  lemma PreimageSpelledOut()
    ensures Preimage(17, "ab", Entry("alice", "read", "x", "y", "ok")) == "17|ab|alice|read|x|y|ok"
    ensures |GENESIS| == 64
  {
    assert Digits(17) == Digits(1) + "7" == "17";
  }

  lemma {:induction false} HealthyRunVerifies(run: seq<Event>, sanitize: string -> string, sha: Hash)
    requires NoInsertAfterLoss(run)
    ensures var s := After(run, sanitize, sha);
            && Verifies(s.table, sha)
            && (forall i :: 0 <= i < |s.table| ==> s.table[i].seqNo == i + 1)
            && LastSeq(s.table) == |s.table|
            && (!Ahead(run) ==> s == Resume(s.table))
    decreases |run|
  {
    if run != [] {
      var init, e := run[..|run| - 1], run[|run| - 1];
      HealthyRunVerifies(init, sanitize, sha);
      var s := After(init, sanitize, sha);
      if e.Recorded? && e.inserted {
          VerifiesAppend(s.table, NextRow(s.seqNo, s.prevHash, e.call, sanitize, sha), sha);
      }
    }
  }

  // The chain state of a run, whatever was lost in it: the last row stored and the last row
  // hashed carry the hashes of texts with their own sequence numbers.
  ghost predicate TracksHashes(s: State, sha: Hash) {
    && LastSeq(s.table) <= s.seqNo
    && (s.table != [] ==>
          var r := s.table[|s.table| - 1];
          r.hash == sha(RowText(r)) && NoPipe(r.prevHash))
    && NoPipe(s.prevHash)
  }

  // The pending hash is of a row the table does not hold.
  ghost predicate PendingHash(s: State, p: string, e: Entry, sha: Hash) {
    NoPipe(p) && s.prevHash == sha(Preimage(s.seqNo, p, e)) && LastSeq(s.table) < s.seqNo
  }

  lemma {:induction false} RunTracksHashes(run: seq<Event>, sanitize: string -> string, sha: Hash)
    requires forall x :: NoPipe(sha(x))
    ensures var s := After(run, sanitize, sha);
            TracksHashes(s, sha) && (Ahead(run) ==> exists p, e :: PendingHash(s, p, e, sha))
    decreases |run|
  {
    assert NoPipe(GENESIS);
    if run != [] {
      var init, e := run[..|run| - 1], run[|run| - 1];
      RunTracksHashes(init, sanitize, sha);
      var s, t := After(init, sanitize, sha), After(run, sanitize, sha);
      if e.Recorded? {
        var row := NextRow(s.seqNo, s.prevHash, e.call, sanitize, sha);
        assert row.hash == sha(RowText(row));
        if !e.inserted {
          assert PendingHash(t, s.prevHash, row.entry, sha);
        }
      }
    }
  }

  // The hash of a lost row is not the hash the table ends in.
  lemma LostRowBreaksLink(s: State, p: string, e: Entry, sha: Hash)
    requires forall x :: sha(x) != GENESIS
    requires forall x, y :: sha(x) == sha(y) ==> x == y
    requires TracksHashes(s, sha) && PendingHash(s, p, e, sha)
    ensures s.prevHash != Head(s.table)
  {
    if s.table != [] && s.prevHash == Head(s.table) {
      var r := s.table[|s.table| - 1];
      PreimageHeader(s.seqNo, p, e, r.seqNo, r.prevHash, r.entry);
    }
  }

  lemma {:induction false} UnhealthyRunFails(run: seq<Event>, sanitize: string -> string, sha: Hash)
    requires forall x :: NoPipe(sha(x)) && sha(x) != GENESIS
    requires forall x, y :: sha(x) == sha(y) ==> x == y
    requires !NoInsertAfterLoss(run)
    ensures !Verifies(After(run, sanitize, sha).table, sha)
    decreases |run|
  {
    var init, e := run[..|run| - 1], run[|run| - 1];
    var s := After(init, sanitize, sha);
    if !NoInsertAfterLoss(init) {
      UnhealthyRunFails(init, sanitize, sha);
      if e.Recorded? && e.inserted {
        VerifiesAppend(s.table, NextRow(s.seqNo, s.prevHash, e.call, sanitize, sha), sha);
      }
    } else {
      var i :| 0 < i < |run| && run[i - 1].Recorded? && !run[i - 1].inserted && run[i].Recorded? && run[i].inserted;
      assert forall k :: 0 <= k < |init| ==> init[k] == run[k];
      assert i == |run| - 1;
      assert init[|init| - 1] == run[i - 1];
      RunTracksHashes(init, sanitize, sha);
      var p, d :| PendingHash(s, p, d, sha);
      LostRowBreaksLink(s, p, d, sha);
      VerifiesAppend(s.table, NextRow(s.seqNo, s.prevHash, e.call, sanitize, sha), sha);
    }
  }

  /** Whatever inserts fail, the numbers of a run's log increase. */
  lemma {:induction false} RunKeepsOrder(run: seq<Event>, sanitize: string -> string, sha: Hash)
    ensures var s := After(run, sanitize, sha);
            InOrder(s.table) && LastSeq(s.table) <= s.seqNo
    decreases |run|
  {
    if run != [] {
      RunKeepsOrder(run[..|run| - 1], sanitize, sha);
      StepKeepsOrder(After(run[..|run| - 1], sanitize, sha), run[|run| - 1], sanitize, sha);
      hide InOrder, LastSeq, Step;
    }
  }

  lemma StepKeepsOrder(s: State, e: Event, sanitize: string -> string, sha: Hash)
    requires InOrder(s.table) && LastSeq(s.table) <= s.seqNo
    ensures var t := Step(s, e, sanitize, sha); InOrder(t.table) && LastSeq(t.table) <= t.seqNo
  {
    hide Stored, Preimage;
    assert forall i :: 0 <= i < |s.table| ==> s.table[i].seqNo <= LastSeq(s.table);
  }

  /** A run of records, failed inserts and reopenings from an empty table leaves a log that
      verifies exactly when no insert succeeded right after a failed one. When every insert
      succeeds it therefore always does, and its sequence numbers are 1, 2, 3, ... */
  lemma RunVerifiesIffNoInsertAfterLoss(run: seq<Event>, sanitize: string -> string, sha: Hash)
    requires forall x :: NoPipe(sha(x)) && sha(x) != GENESIS
    requires forall x, y :: sha(x) == sha(y) ==> x == y
    ensures Verifies(After(run, sanitize, sha).table, sha) <==> NoInsertAfterLoss(run)
    ensures NoInsertAfterLoss(run) ==>
              var table := After(run, sanitize, sha).table;
              forall i :: 0 <= i < |table| ==> table[i].seqNo == i + 1
  {
    if NoInsertAfterLoss(run) {
      HealthyRunVerifies(run, sanitize, sha);
    } else {
      UnhealthyRunFails(run, sanitize, sha);
    }
  }
}
