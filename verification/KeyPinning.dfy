/** Signed manifests and trust on first use: the store that pins one signing key per server,
    and what holds of it over every run of verifications. */
module KeyPinning {
  import opened Utf8
  import opened CanonicalJson
  import CanonicalParser
  import CanonicalPrinter
  import opened Wrappers

  /** A manifest holds serialized tool definitions; the timestamp is its decimal digits. */
  datatype ToolManifest = ToolManifest(tools: seq<Value>, serverName: string, timestamp: string)

  datatype SignedManifest = SignedManifest(manifest: ToolManifest, signature: string, signerDid: string)

  // The manifest as a JSON value, field by field in declaration order.
  function Serialized(m: ToolManifest): Value {
    Object([("tools", Array(m.tools)), ("server_name", Str(m.serverName)), ("timestamp", Number(m.timestamp))])
  }

  ghost predicate ValidManifest(m: ToolManifest) {
    NumberToken(m.timestamp) && forall i :: 0 <= i < |m.tools| ==> WellFormed(m.tools[i])
  }

  lemma SerializedIsWellFormed(m: ToolManifest)
    requires ValidManifest(m)
    ensures WellFormed(Serialized(m))
  {
    var ms := Serialized(m).members;
    assert WellFormed(ms[0].1) && WellFormed(ms[1].1) && WellFormed(ms[2].1);
  }

  // The same server, time and tools, however the definitions are laid out.
  ghost predicate SameContents(m: ToolManifest, n: ToolManifest) {
    && m.serverName == n.serverName && m.timestamp == n.timestamp && |m.tools| == |n.tools|
    && forall i :: 0 <= i < |m.tools| ==> Meaning(m.tools[i]) == Meaning(n.tools[i])
  }

  lemma SerializedContents(m: ToolManifest, n: ToolManifest)
    requires ValidManifest(m) && ValidManifest(n)
    ensures Meaning(Serialized(m)) == Meaning(Serialized(n)) <==> SameContents(m, n)
  {
    SerializedMembers(m);
    SerializedMembers(n);
    var x, y := Meaning(Serialized(m)).members, Meaning(Serialized(n)).members;
    if x == y {
      assert |m.tools| == |x["tools"].items| == |n.tools|;
      forall i | 0 <= i < |m.tools| ensures Meaning(m.tools[i]) == Meaning(n.tools[i]) {
        assert x["tools"].items[i] == y["tools"].items[i];
      }
    }
    if SameContents(m, n) {
      assert x["tools"].items == y["tools"].items;
      assert x == y;
    }
  }

  lemma SerializedMembers(m: ToolManifest)
    requires ValidManifest(m)
    ensures Meaning(Serialized(m)).JObject?
    ensures var x := Meaning(Serialized(m)).members;
            && x.Keys == {"tools", "server_name", "timestamp"}
            && x["tools"] == Meaning(Array(m.tools))
            && x["server_name"] == JString(m.serverName)
            && x["timestamp"] == JNumber(m.timestamp)
  {
    var v := Serialized(m);
    SerializedIsWellFormed(m);
    MemberKeys(v, 3);
    MemberMeaning(v, 3, 0);
    MemberMeaning(v, 3, 1);
    MemberMeaning(v, 3, 2);
  }

  datatype Verification =
    | Trusted
    | FirstUse
    | KeyChanged(pinned: string, presented: string)
    | InvalidSignature

  datatype TofuResult = TofuTrusted | TofuFirstUse | TofuKeyChanged

  /** The cryptography, as functions nothing is assumed about unless a lemma says so. */
  datatype Crypto = Crypto(
    decodeHex: string -> Option<seq<Byte>>,
    usableDid: string -> bool,
    verify: (string, seq<Byte>, seq<Byte>) -> bool)

  ghost function SignedBytes(m: SignedManifest): seq<Byte> {
    Encode(Print(Meaning(Serialized(m.manifest))))
  }

  ghost predicate SignatureOk(m: SignedManifest, crypto: Crypto) {
    && crypto.decodeHex(m.signature).Some?
    && crypto.usableDid(m.signerDid)
    && crypto.verify(m.signerDid, SignedBytes(m), crypto.decodeHex(m.signature).value)
  }

  type Pins = map<string, string>

  // One verification: the outcome and the pins it leaves.
  ghost function Step(pins: Pins, m: SignedManifest, crypto: Crypto): (Verification, Pins) {
    if !SignatureOk(m, crypto) then (InvalidSignature, pins)
    else if m.manifest.serverName !in pins then (FirstUse, pins[m.manifest.serverName := m.signerDid])
    else if pins[m.manifest.serverName] == m.signerDid then (Trusted, pins)
    else (KeyChanged(pins[m.manifest.serverName], m.signerDid), pins)
  }

  class ManifestKeyStore {
    var knownKeys: Pins

    constructor ()
      ensures knownKeys == map[]
    {
      knownKeys := map[];
    }

    method Check(serverName: string, signerDid: string) returns (r: TofuResult)
      modifies this
      ensures r == TofuFirstUse <==> serverName !in old(knownKeys)
      ensures r == TofuTrusted <==> serverName in old(knownKeys) && old(knownKeys)[serverName] == signerDid
      ensures knownKeys == if r == TofuFirstUse then old(knownKeys)[serverName := signerDid] else old(knownKeys)
    {
      if serverName !in knownKeys {
        knownKeys := knownKeys[serverName := signerDid];
        r := TofuFirstUse;
      } else if knownKeys[serverName] == signerDid {
        r := TofuTrusted;
      } else {
        r := TofuKeyChanged;
      }
    }

    method VerifySignedManifest(signed: SignedManifest, crypto: Crypto) returns (r: Verification)
      requires ValidManifest(signed.manifest)
      modifies this
      ensures (r, knownKeys) == Step(old(knownKeys), signed, crypto)
      ensures r == InvalidSignature <==>
              var sig := crypto.decodeHex(signed.signature);
              || sig.None? || !crypto.usableDid(signed.signerDid)
              || !crypto.verify(signed.signerDid, Encode(Print(Meaning(Serialized(signed.manifest)))), sig.value)
      ensures var server := signed.manifest.serverName;
              r != InvalidSignature ==>
                && (r.FirstUse? <==> server !in old(knownKeys))
                && (r.Trusted? <==> server in old(knownKeys) && old(knownKeys)[server] == signed.signerDid)
                && (r.KeyChanged? ==> r.pinned == old(knownKeys)[server] && r.presented == signed.signerDid)
    {
      var sig := crypto.decodeHex(signed.signature);
      if sig.None? {
        return InvalidSignature;
      }
      if !crypto.usableDid(signed.signerDid) {
        return InvalidSignature;
      }
      SerializedIsWellFormed(signed.manifest);
      var bytes := CanonicalPrinter.CanonicalBytes(Serialized(signed.manifest));
      if !crypto.verify(signed.signerDid, bytes, sig.value) {
        return InvalidSignature;
      }
      var tofu := Check(signed.manifest.serverName, signed.signerDid);
      match tofu {
        case TofuTrusted => r := Trusted;
        case TofuFirstUse => r := FirstUse;
        case TofuKeyChanged => r := KeyChanged(knownKeys[signed.manifest.serverName], signed.signerDid);
      }
    }
  }

  // ---- runs ----

  ghost function PinsAfter(pins: Pins, run: seq<SignedManifest>, crypto: Crypto): Pins {
    if run == [] then pins
    else Step(PinsAfter(pins, run[..|run| - 1], crypto), run[|run| - 1], crypto).1
  }

  ghost function OutcomeAt(pins: Pins, run: seq<SignedManifest>, i: nat, crypto: Crypto): Verification
    requires i < |run|
  {
    Step(PinsAfter(pins, run[..i], crypto), run[i], crypto).0
  }

  // Position of the first validly signed manifest of a server, or the length of the run.
  ghost function FirstValid(run: seq<SignedManifest>, server: string, crypto: Crypto): (i: nat)
    ensures i <= |run|
    ensures i < |run| ==> run[i].manifest.serverName == server && SignatureOk(run[i], crypto)
    ensures forall k :: 0 <= k < i ==> !(run[k].manifest.serverName == server && SignatureOk(run[k], crypto))
  {
    if run == [] then 0
    else if run[0].manifest.serverName == server && SignatureOk(run[0], crypto) then 0
    else 1 + FirstValid(run[1..], server, crypto)
  }

  lemma PrefixFirstValid(run: seq<SignedManifest>, j: nat, server: string, crypto: Crypto)
    requires j <= |run|
    ensures FirstValid(run, server, crypto) < j ==> FirstValid(run[..j], server, crypto) == FirstValid(run, server, crypto)
    ensures FirstValid(run, server, crypto) >= j ==> FirstValid(run[..j], server, crypto) == j
  {
    hide SignatureOk;
    var i, i' := FirstValid(run, server, crypto), FirstValid(run[..j], server, crypto);
    assert forall k :: 0 <= k < j ==> run[..j][k] == run[k];
  }

  /** The store is a function of its history: a server is pinned to the key it started with, or
      else to the signer of its first validly signed manifest, and to nothing otherwise. */
  lemma {:induction false} PinsAreFirstSigners(pins: Pins, run: seq<SignedManifest>, server: string, crypto: Crypto)
    ensures var after := PinsAfter(pins, run, crypto);
            var i := FirstValid(run, server, crypto);
            && (server in pins ==> server in after && after[server] == pins[server])
            && (server !in pins && i < |run| ==> server in after && after[server] == run[i].signerDid)
            && (server !in pins && i == |run| ==> server !in after)
    decreases |run|
  {
    if run != [] {
      var init, last := run[..|run| - 1], run[|run| - 1];
      PinsAreFirstSigners(pins, init, server, crypto);
      hide FirstValid, SignatureOk, Step;
      NextFirstValid(run, server, crypto);
      PinOfStep(PinsAfter(pins, init, crypto), last, server, crypto);
    }
  }

  lemma NextFirstValid(run: seq<SignedManifest>, server: string, crypto: Crypto)
    requires run != []
    ensures var init, last := run[..|run| - 1], run[|run| - 1];
            var i := FirstValid(init, server, crypto);
            if i < |init| then FirstValid(run, server, crypto) == i && init[i] == run[i]
            else FirstValid(run, server, crypto)
                 == if last.manifest.serverName == server && SignatureOk(last, crypto) then |init| else |run|
  {
    hide SignatureOk;
    PrefixFirstValid(run, |run| - 1, server, crypto);
  }

  lemma PinOfStep(pins: Pins, m: SignedManifest, server: string, crypto: Crypto)
    ensures var after := Step(pins, m, crypto).1;
            if server in pins then server in after && after[server] == pins[server]
            else if m.manifest.serverName == server && SignatureOk(m, crypto)
            then server in after && after[server] == m.signerDid
            else server !in after
  {
    hide SignatureOk;
  }

  /** Each outcome, read off the whole run: invalid signatures are rejected; the first valid
      manifest of an unpinned server is the one and only first use; after that the same key is
      trusted and any other key is reported against the pin. */
  lemma OutcomeFromHistory(pins: Pins, run: seq<SignedManifest>, i: nat, crypto: Crypto)
    requires i < |run|
    ensures var m := run[i];
            var first := FirstValid(run, m.manifest.serverName, crypto);
            OutcomeAt(pins, run, i, crypto) ==
              if !SignatureOk(m, crypto) then InvalidSignature
              else if m.manifest.serverName !in pins && i == first then FirstUse
              else
                var pinned := if m.manifest.serverName in pins then pins[m.manifest.serverName] else run[first].signerDid;
                if pinned == m.signerDid then Trusted else KeyChanged(pinned, m.signerDid)
  {
    hide SignatureOk;
    var server := run[i].manifest.serverName;
    PinsAreFirstSigners(pins, run[..i], server, crypto);
    PrefixFirstValid(run, i, server, crypto);
    var first := FirstValid(run, server, crypto);
    if SignatureOk(run[i], crypto) {
      assert first <= i;
    }
  }

  /** Once a server is pinned no run changes or removes the pin. */
  lemma {:induction false} PinsNeverChange(pins: Pins, run: seq<SignedManifest>, crypto: Crypto)
    ensures forall s :: s in pins ==> s in PinsAfter(pins, run, crypto) && PinsAfter(pins, run, crypto)[s] == pins[s]
  {
    forall s | s in pins
      ensures s in PinsAfter(pins, run, crypto) && PinsAfter(pins, run, crypto)[s] == pins[s]
    {
      PinsAreFirstSigners(pins, run, s, crypto);
    }
  }

  ghost predicate Accepted(v: Verification) {
    v.Trusted? || v.FirstUse?
  }

  /** At most one first use per server, and everything accepted at any time was signed, validly,
      by the one key that is pinned for its server at the end. */
  lemma AcceptedOnlyUnderThePin(pins: Pins, run: seq<SignedManifest>, i: nat, j: nat, crypto: Crypto)
    requires i < |run| && j < |run|
    ensures (OutcomeAt(pins, run, i, crypto).FirstUse? && OutcomeAt(pins, run, j, crypto).FirstUse?
             && run[i].manifest.serverName == run[j].manifest.serverName) ==> i == j
    ensures Accepted(OutcomeAt(pins, run, i, crypto)) ==>
              && SignatureOk(run[i], crypto)
              && run[i].manifest.serverName in PinsAfter(pins, run, crypto)
              && PinsAfter(pins, run, crypto)[run[i].manifest.serverName] == run[i].signerDid
  {
    OutcomeFromHistory(pins, run, i, crypto);
    OutcomeFromHistory(pins, run, j, crypto);
    hide SignatureOk;
    PinsAreFirstSigners(pins, run, run[i].manifest.serverName, crypto);
  }

  ghost function Outcomes(pins: Pins, run: seq<SignedManifest>, crypto: Crypto): (r: seq<Verification>)
    ensures |r| == |run|
  {
    if run == [] then []
    else
      var init := run[..|run| - 1];
      Outcomes(pins, init, crypto) + [Step(PinsAfter(pins, init, crypto), run[|run| - 1], crypto).0]
  }

  lemma {:induction false} RunConcat(pins: Pins, a: seq<SignedManifest>, b: seq<SignedManifest>, crypto: Crypto)
    ensures PinsAfter(pins, a + b, crypto) == PinsAfter(PinsAfter(pins, a, crypto), b, crypto)
    ensures Outcomes(pins, a + b, crypto)
            == Outcomes(pins, a, crypto) + Outcomes(PinsAfter(pins, a, crypto), b, crypto)
    decreases |b|
  {
    hide Step;
    if b == [] {
      assert a + b == a;
    } else {
      RunConcat(pins, a, b[..|b| - 1], crypto);
      assert (a + b)[..|a + b| - 1] == a + b[..|b| - 1];
    }
  }

  /** A rejected manifest leaves no trace: deleting it from a run changes no earlier or later
      outcome and no pin, then or at the end. So all of them can be deleted, one by one. */
  lemma RejectedLeavesNoTrace(pins: Pins, a: seq<SignedManifest>, m: SignedManifest, b: seq<SignedManifest>,
                              crypto: Crypto)
    requires !Accepted(Step(PinsAfter(pins, a, crypto), m, crypto).0)
    ensures PinsAfter(pins, a + [m] + b, crypto) == PinsAfter(pins, a + b, crypto)
    ensures var with, without := Outcomes(pins, a + [m] + b, crypto), Outcomes(pins, a + b, crypto);
            without == with[..|a|] + with[|a| + 1..]
  {
    hide Outcomes, PinsAfter, Step;
    var p := PinsAfter(pins, a, crypto);
    OneRejected(p, m, crypto);
    RunConcat(pins, a, [m], crypto);
    RunConcat(pins, a + [m], b, crypto);
    RunConcat(pins, a, b, crypto);
    WithoutMiddle(Outcomes(pins, a, crypto), Step(p, m, crypto).0, Outcomes(p, b, crypto));
  }

  lemma OneRejected(pins: Pins, m: SignedManifest, crypto: Crypto)
    requires !Accepted(Step(pins, m, crypto).0)
    ensures PinsAfter(pins, [m], crypto) == pins && Outcomes(pins, [m], crypto) == [Step(pins, m, crypto).0]
  {
    assert [m][..0] == [] && PinsAfter(pins, [], crypto) == pins;
  }

  lemma WithoutMiddle(x: seq<Verification>, v: Verification, y: seq<Verification>)
    ensures var all := x + [v] + y; all[..|x|] + all[|x| + 1..] == x + y
  {
  }

  /** If one key's signature fits at most one message, then changing anything the manifest says,
      and not just how it is laid out, is exactly what makes its signature invalid. */
  lemma TamperedContentIsRejected(pins: Pins, m: SignedManifest, tampered: ToolManifest, crypto: Crypto)
    requires forall did, sig, x, y :: crypto.verify(did, x, sig) && crypto.verify(did, y, sig) ==> x == y
    requires ValidManifest(m.manifest) && ValidManifest(tampered)
    requires SignatureOk(m, crypto)
    ensures Step(pins, m.(manifest := tampered), crypto).0 == InvalidSignature
            <==> !SameContents(m.manifest, tampered)
  {
    var n := m.(manifest := tampered);
    SerializedIsWellFormed(m.manifest);
    SerializedIsWellFormed(tampered);
    SerializedContents(m.manifest, tampered);
    CanonicalParser.BytesDetermineContents(Serialized(m.manifest), Serialized(tampered));
    var sig := crypto.decodeHex(m.signature).value;
    assert SignedBytes(n) == SignedBytes(m) <==> SameContents(m.manifest, tampered);
    assert crypto.verify(m.signerDid, SignedBytes(m), sig);
  }
}
