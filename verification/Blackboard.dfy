/** The labelled blackboard that the agents of a flow share: publishing, and reading with taint.
    Its state is compared with the history of operations that produced it. */
module Blackboard {
  import opened CanonicalJson
  import opened Wrappers

  datatype Integrity = Trusted | Untrusted

  datatype Confidentiality = Public | Sensitive | Pii | Secret

  datatype Label = Label(integrity: Integrity, confidentiality: Confidentiality)

  function IntegrityRank(i: Integrity): nat {
    match i
    case Trusted => 0
    case Untrusted => 1
  }

  function ConfidentialityRank(c: Confidentiality): nat {
    match c
    case Public => 0
    case Sensitive => 1
    case Pii => 2
    case Secret => 3
  }

  /** `b` is at least as restrictive as `a`. */
  predicate Below(a: Label, b: Label) {
    && IntegrityRank(a.integrity) <= IntegrityRank(b.integrity)
    && ConfidentialityRank(a.confidentiality) <= ConfidentialityRank(b.confidentiality)
  }

  function Join(a: Label, b: Label): Label {
    Label(if IntegrityRank(a.integrity) > IntegrityRank(b.integrity) then a.integrity else b.integrity,
          if ConfidentialityRank(a.confidentiality) > ConfidentialityRank(b.confidentiality)
          then a.confidentiality else b.confidentiality)
  }

  predicate PrivateAtLeast(l: Label) { l.confidentiality.Pii? || l.confidentiality.Secret? }

  /** What one label does to a taint, by name: untrusted stays untrusted, and the more confidential
      of the two remains. */
  ghost predicate Raised(before: Label, l: Label, after: Label) {
    && (after.integrity.Untrusted? <==> before.integrity.Untrusted? || l.integrity.Untrusted?)
    && (after.confidentiality.Secret? <==> before.confidentiality.Secret? || l.confidentiality.Secret?)
    && (PrivateAtLeast(after) <==> PrivateAtLeast(before) || PrivateAtLeast(l))
    && (after.confidentiality.Public? <==> before.confidentiality.Public? && l.confidentiality.Public?)
  }

  datatype Entry = Entry(
    key: string,
    value: Value,
    dataLabel: Label,
    author: string,
    version: nat,
    updatedAt: nat,
    provenance: seq<(string, nat)>)

  // One accepted or rejected publication.
  datatype Publication = Publication(author: string, key: string, value: Value, dataLabel: Label, now: nat)

  type Entries = map<string, Entry>

  function Publishes(entries: Entries, max: nat, p: Publication): bool {
    p.key in entries || |entries| < max
  }

  function Published(entries: Entries, p: Publication): Entries {
    var version := if p.key in entries then entries[p.key].version + 1 else 1;
    var provenance := if p.key in entries then entries[p.key].provenance else [];
    entries[p.key := Entry(p.key, p.value, p.dataLabel, p.author, version, p.now, provenance + [(p.author, p.now)])]
  }

  class TaintTracker {
    var current: Label

    constructor ()
      ensures current == Label(Trusted, Public)
    {
      current := Label(Trusted, Public);
    }

    method Absorb(dataLabel: Label)
      modifies this
      ensures forall bound :: Below(current, bound) <==> Below(old(current), bound) && Below(dataLabel, bound)
      ensures current == Join(old(current), dataLabel)
      ensures Raised(old(current), dataLabel, current)
    {
      current := Join(current, dataLabel);
    }
  }

  class Blackboard {
    var entries: Entries
    const maxEntries: nat

    constructor (maxEntries: nat)
      ensures entries == map[] && this.maxEntries == maxEntries
    {
      this.maxEntries := maxEntries;
      entries := map[];
    }

    /** Publishes a value; refused exactly when the key is new and the board is full. */
    method Publish(p: Publication) returns (r: Option<nat>)
      modifies this
      ensures r.Some? <==> Publishes(old(entries), maxEntries, p)
      ensures entries == if r.Some? then Published(old(entries), p) else old(entries)
      ensures r.Some? ==> r.value == entries[p.key].version
      ensures r.None? <==> p.key !in old(entries) && |old(entries)| >= maxEntries
    {
      var version := 1;
      var provenance := [];
      if p.key in entries {
        version := entries[p.key].version + 1;
        provenance := entries[p.key].provenance;
      } else if |entries| >= maxEntries {
        return None;
      }
      provenance := provenance + [(p.author, p.now)];
      entries := entries[p.key := Entry(p.key, p.value, p.dataLabel, p.author, version, p.now, provenance)];
      r := Some(version);
    }

    /** Reads an entry and taints the reader with its label; a missing key taints nothing. */
    method Read(key: string, reader: TaintTracker) returns (r: Option<Entry>)
      modifies reader
      ensures r == if key in entries then Some(entries[key]) else None
      ensures if r.Some? then Raised(old(reader.current), entries[key].dataLabel, reader.current)
              else reader.current == old(reader.current)
      ensures reader.current == if r.Some? then Join(old(reader.current), r.value.dataLabel) else old(reader.current)
    {
      if key !in entries {
        return None;
      }
      reader.Absorb(entries[key].dataLabel);
      r := Some(entries[key]);
    }
  }

  // ---- histories ----

  datatype Op = Publish(publication: Publication) | Read(reader: string, key: string)

  // The board after a history, from an empty board.
  function Board(max: nat, history: seq<Op>): Entries {
    if history == [] then map[]
    else
      var before, op := Board(max, history[..|history| - 1]), history[|history| - 1];
      if op.Publish? && Publishes(before, max, op.publication) then Published(before, op.publication) else before
  }

  // A reader's taint after a history, from the label it started with.
  function Taint(max: nat, history: seq<Op>, reader: string, initial: Label): Label {
    if history == [] then initial
    else
      var init, op := history[..|history| - 1], history[|history| - 1];
      var before := Taint(max, init, reader, initial);
      if op.Read? && op.reader == reader && op.key in Board(max, init)
      then Join(before, Board(max, init)[op.key].dataLabel) else before
  }

  // The accepted publications of one key, oldest first.
  function Accepted(max: nat, history: seq<Op>, key: string): seq<Publication> {
    if history == [] then []
    else
      var init, op := history[..|history| - 1], history[|history| - 1];
      Accepted(max, init, key)
      + if op.Publish? && op.publication.key == key && Publishes(Board(max, init), max, op.publication)
        then [op.publication] else []
  }

  function Authors(ps: seq<Publication>): seq<(string, nat)> {
    seq(|ps|, i requires 0 <= i < |ps| => (ps[i].author, ps[i].now))
  }

  // What an entry must be, given the accepted publications of its key.
  ghost predicate Summarizes(e: Entry, ps: seq<Publication>) {
    && ps != []
    && var last := ps[|ps| - 1];
       e == Entry(last.key, last.value, last.dataLabel, last.author, |ps|, last.now, Authors(ps))
  }

  lemma AuthorsSnoc(ps: seq<Publication>, p: Publication)
    ensures Authors(ps + [p]) == Authors(ps) + [(p.author, p.now)]
    ensures Authors([]) == []
  {
  }

  /** The board is its history: a key is there exactly when a publication of it was accepted; its
      version counts them, its provenance lists their authors and times in order, and its value,
      label and author are the last one's. The board never holds more keys than its limit. */
  lemma {:induction false} BoardAgreesWithHistory(max: nat, history: seq<Op>, key: string)
    ensures var board, ps := Board(max, history), Accepted(max, history, key);
            && (key in board <==> ps != [])
            && (key in board ==> Summarizes(board[key], ps) && board[key].key == key)
            && |board| <= max
    decreases |history|
  {
    if history != [] {
      var init, op := history[..|history| - 1], history[|history| - 1];
      BoardAgreesWithHistory(max, init, key);
      var ps := Accepted(max, init, key);
      if op.Publish? && Publishes(Board(max, init), max, op.publication) {
        var p := op.publication;
        var board := Board(max, init);
        assert Published(board, p).Keys == board.Keys + {p.key};
        AuthorsSnoc(ps, p);
        hide Authors, Publishes;
      }
    }
  }

  // The labels a reader met: of each entry it read, as it was at that moment.
  function LabelsRead(max: nat, history: seq<Op>, reader: string): seq<Label> {
    if history == [] then []
    else
      var init, op := history[..|history| - 1], history[|history| - 1];
      var ps := if op.Read? then Accepted(max, init, op.key) else [];
      LabelsRead(max, init, reader) + if op.Read? && op.reader == reader && ps != [] then [ps[|ps| - 1].dataLabel] else []
  }

  lemma JoinIsLeastUpperBound(a: Label, b: Label, bound: Label)
    ensures Below(Join(a, b), bound) <==> Below(a, bound) && Below(b, bound)
    ensures Below(a, bound) && Below(bound, a) ==> a == bound
    ensures Below(a, a)
  {
  }

  /** A reader's taint is the least label above its initial one and the labels of everything it
      read, where what it read is the last publication accepted before the read. */
  lemma {:induction false} TaintIsJoinOfReads(max: nat, history: seq<Op>, reader: string, initial: Label, bound: Label)
    ensures Below(Taint(max, history, reader, initial), bound) <==>
            Below(initial, bound) && forall l :: l in LabelsRead(max, history, reader) ==> Below(l, bound)
    decreases |history|
  {
    if history != [] {
      var init, op := history[..|history| - 1], history[|history| - 1];
      TaintIsJoinOfReads(max, init, reader, initial, bound);
      if op.Read? && op.reader == reader {
        BoardAgreesWithHistory(max, init, op.key);
        var ps := Accepted(max, init, op.key);
        if ps != [] {
          JoinIsLeastUpperBound(Taint(max, init, reader, initial), ps[|ps| - 1].dataLabel, bound);
          var ls := LabelsRead(max, init, reader);
          assert forall l :: l in ls + [ps[|ps| - 1].dataLabel] <==> l in ls || l == ps[|ps| - 1].dataLabel;
        }
        hide Below, Join, Board, Accepted;
      }
    }
  }

  /** So taint only rises as a history goes on, whatever is published in the meantime. */
  lemma {:induction false} TaintOnlyRises(max: nat, history: seq<Op>, n: nat, reader: string, initial: Label)
    requires n <= |history|
    ensures Below(Taint(max, history[..n], reader, initial), Taint(max, history, reader, initial))
    decreases |history| - n
  {
    JoinIsLeastUpperBound(Taint(max, history, reader, initial), initial, initial);
    if n == |history| {
      assert history[..n] == history;
    } else {
      TaintOnlyRises(max, history, n + 1, reader, initial);
      assert history[..n + 1][..n] == history[..n];
      var before, after := Taint(max, history[..n], reader, initial), Taint(max, history[..n + 1], reader, initial);
      assert Below(before, after);
      hide Taint;
    }
  }

  // By name, what a taint owes to the label it started from and those it met.
  ghost predicate StemsFrom(t: Label, initial: Label, ls: seq<Label>) {
    && (t.integrity.Untrusted? <==> initial.integrity.Untrusted? || exists l :: l in ls && l.integrity.Untrusted?)
    && (t.confidentiality.Secret? <==> initial.confidentiality.Secret? || exists l :: l in ls && l.confidentiality.Secret?)
    && (PrivateAtLeast(t) <==> PrivateAtLeast(initial) || exists l :: l in ls && PrivateAtLeast(l))
    && (t.confidentiality.Public? <==>
        initial.confidentiality.Public? && forall l :: l in ls ==> l.confidentiality.Public?)
  }

  lemma OneMoreLabel(t: Label, initial: Label, ls: seq<Label>, l: Label)
    requires StemsFrom(t, initial, ls)
    ensures StemsFrom(Join(t, l), initial, ls + [l])
  {
    JoinRaises(t, l);
    assert forall x :: x in ls + [l] <==> x in ls || x == l;
    hide Join;
  }

  lemma JoinRaises(a: Label, b: Label)
    ensures Raised(a, b, Join(a, b))
  {
  }

  /** After any history a reader is untrusted exactly when it started so or read something untrusted;
      it is at Secret, or at Pii or above, exactly when its initial label or one it read is; and it
      is at Public exactly when all of them are. */
  lemma {:induction false} TaintByName(max: nat, history: seq<Op>, reader: string, initial: Label)
    ensures StemsFrom(Taint(max, history, reader, initial), initial, LabelsRead(max, history, reader))
    decreases |history|
  {
    if history != [] {
      var init, op := history[..|history| - 1], history[|history| - 1];
      TaintByName(max, init, reader, initial);
      hide StemsFrom, Join, Board, Accepted;
      if op.Read? && op.reader == reader {
        BoardAgreesWithHistory(max, init, op.key);
        var ps := Accepted(max, init, op.key);
        if ps != [] {
          OneMoreLabel(Taint(max, init, reader, initial), initial, LabelsRead(max, init, reader), ps[|ps| - 1].dataLabel);
        }
      }
    }
  }
}
