/** The bytes hashed into a tool-set fingerprint: each tool's name and canonical definition,
    sorted by name and run together without separators. What they determine, and when the
    order the tools arrived in can still be seen in them. */
module Fingerprint {
  import opened Utf8
  import opened CanonicalJson
  import opened Wrappers
  import CanonicalPrinter
  import CanonicalParser
  import ObjectScan

  datatype Tool = Tool(name: string, definition: Value)

  /** A serialized definition is a JSON object that carries the tool's name. */
  ghost predicate IsTool(t: Tool) {
    && WellFormed(t.definition)
    && Meaning(t.definition).JObject?
    && "name" in Meaning(t.definition).members
    && Meaning(t.definition).members["name"] == JString(t.name)
  }

  ghost predicate AreTools(ts: seq<Tool>) {
    forall i :: 0 <= i < |ts| ==> IsTool(ts[i])
  }

  // ---- the stable sort by name ----

  function Insert(sorted: seq<Tool>, t: Tool): seq<Tool> {
    if sorted == [] || !Leq(sorted[0].name, t.name) then [t] + sorted
    else [sorted[0]] + Insert(sorted[1..], t)
  }

  function SortByName(ts: seq<Tool>): seq<Tool> {
    if ts == [] then [] else Insert(SortByName(ts[..|ts| - 1]), ts[|ts| - 1])
  }

  ghost predicate SortedByName(ts: seq<Tool>) {
    forall i, j :: 0 <= i < j < |ts| ==> Leq(ts[i].name, ts[j].name)
  }

  // The definitions filed under one name, in list order.
  ghost function Named(ts: seq<Tool>, n: string): seq<Json> {
    if ts == [] then [] else NamedOne(ts[0], n) + Named(ts[1..], n)
  }

  ghost function NamedOne(t: Tool, n: string): seq<Json> {
    if t.name == n then [Meaning(t.definition)] else []
  }

  lemma NamedCons(t: Tool, ts: seq<Tool>, n: string)
    ensures Named([t] + ts, n) == NamedOne(t, n) + Named(ts, n)
  {
    hide NamedOne;
    assert ([t] + ts)[1..] == ts;
  }

  lemma {:induction false} NamedConcat(ts: seq<Tool>, us: seq<Tool>, n: string)
    ensures Named(ts + us, n) == Named(ts, n) + Named(us, n)
  {
    if ts == [] {
      assert ts + us == us;
    } else {
      hide Named, NamedOne;
      NamedConcat(ts[1..], us, n);
      assert Named(ts + us, n) == NamedOne(ts[0], n) + Named(ts[1..] + us, n) by {
        NamedCons(ts[0], ts[1..] + us, n);
        assert ts + us == [ts[0]] + (ts[1..] + us);
      }
      assert Named(ts, n) == NamedOne(ts[0], n) + Named(ts[1..], n) by {
        NamedCons(ts[0], ts[1..], n);
        assert ts == [ts[0]] + ts[1..];
      }
      Reassociate(NamedOne(ts[0], n), Named(ts[1..], n), Named(us, n));
    }
  }

  lemma {:induction false} NoneNamed(ts: seq<Tool>, n: string)
    requires forall i :: 0 <= i < |ts| ==> ts[i].name != n
    ensures Named(ts, n) == []
  {
    if ts != [] {
      NoneNamed(ts[1..], n);
    }
  }

  lemma {:induction false} InsertKeepsOrder(sorted: seq<Tool>, t: Tool)
    requires SortedByName(sorted)
    ensures SortedByName(Insert(sorted, t))
    ensures multiset(Insert(sorted, t)) == multiset(sorted) + multiset{t}
  {
    hide Leq;
    if sorted == [] || !Leq(sorted[0].name, t.name) {
      forall i | 0 <= i < |sorted| ensures Leq(t.name, sorted[i].name) {
        LeqOrder(t.name, sorted[0].name, sorted[i].name);
      }
    } else {
      var rest := Insert(sorted[1..], t);
      InsertKeepsOrder(sorted[1..], t);
      assert sorted == [sorted[0]] + sorted[1..];
      forall i | 0 <= i < |rest| ensures Leq(sorted[0].name, rest[i].name) {
        assert rest[i] in multiset(rest);
        assert rest[i] == t || rest[i] in sorted[1..];
      }
    }
  }

  lemma {:induction false} InsertIsStable(sorted: seq<Tool>, t: Tool, n: string)
    requires SortedByName(sorted)
    ensures Named(Insert(sorted, t), n) == Named(sorted, n) + Named([t], n)
  {
    hide Leq, Meaning;
    if sorted == [] || !Leq(sorted[0].name, t.name) {
      NamedConcat([t], sorted, n);
      if n == t.name {
        forall i | 0 <= i < |sorted| ensures sorted[i].name != n {
          LeqOrder(sorted[0].name, sorted[i].name, t.name);
        }
        NoneNamed(sorted, n);
      }
    } else {
      InsertIsStable(sorted[1..], t, n);
      var rest := Insert(sorted[1..], t);
      assert ([sorted[0]] + rest)[1..] == rest;
    }
  }

  /** The sort is a sort, loses nothing, and keeps tools of one name in arrival order. */
  lemma {:induction false} SortIsStableSort(ts: seq<Tool>, n: string)
    ensures SortedByName(SortByName(ts))
    ensures multiset(SortByName(ts)) == multiset(ts)
    ensures Named(SortByName(ts), n) == Named(ts, n)
  {
    if ts != [] {
      var init, last := ts[..|ts| - 1], ts[|ts| - 1];
      SortIsStableSort(init, n);
      InsertKeepsOrder(SortByName(init), last);
      InsertIsStable(SortByName(init), last, n);
      NamedConcat(init, [last], n);
      assert ts == init + [last];
    }
  }

  // ---- the hashed text ----

  ghost function Piece(t: Tool): string {
    t.name + Print(Meaning(t.definition))
  }

  ghost function HashedText(ts: seq<Tool>): string {
    if ts == [] then [] else HashedText(ts[..|ts| - 1]) + Piece(ts[|ts| - 1])
  }

  method SortTools(tools: seq<Tool>) returns (sorted: seq<Tool>)
    ensures sorted == SortByName(tools)
  {
    sorted := [];
    for i := 0 to |tools|
      invariant sorted == SortByName(tools[..i])
    {
      assert tools[..i + 1][..i] == tools[..i];
      sorted := InsertTool(sorted, tools[i]);
    }
    assert tools[..|tools|] == tools;
  }

  lemma InsertFrom(sorted: seq<Tool>, t: Tool, p: nat)
    requires p <= |sorted|
    ensures sorted[..0] + Insert(sorted[0..], t) == Insert(sorted, t)
    ensures p < |sorted| && Leq(sorted[p].name, t.name) ==>
              sorted[..p] + Insert(sorted[p..], t) == sorted[..p + 1] + Insert(sorted[p + 1..], t)
    ensures !(p < |sorted| && Leq(sorted[p].name, t.name)) ==>
              Insert(sorted[p..], t) == [t] + sorted[p..]
  {
    hide Leq;
    assert sorted[0..] == sorted;
    if p < |sorted| {
      assert sorted[p..][1..] == sorted[p + 1..];
    }
  }

  method InsertTool(sorted: seq<Tool>, t: Tool) returns (r: seq<Tool>)
    ensures r == Insert(sorted, t)
  {
    hide Leq, Insert;
    var p := 0;
    InsertFrom(sorted, t, 0);
    while p < |sorted| && Leq(sorted[p].name, t.name)
      invariant 0 <= p <= |sorted|
      invariant Insert(sorted, t) == sorted[..p] + Insert(sorted[p..], t)
    {
      InsertFrom(sorted, t, p);
      p := p + 1;
    }
    InsertFrom(sorted, t, p);
    r := sorted[..p] + ([t] + sorted[p..]);
  }

  /** What the hasher is fed, update by update. */
  method FingerprintInput(tools: seq<Tool>) returns (hashed: seq<Byte>)
    requires AreTools(tools)
    ensures hashed == Hashed(tools)
  {
    var sorted := SortTools(tools);
    SortKeepsTools(tools);
    hashed := [];
    hide Encode, IsTool, SortByName, Meaning, Print, WellFormed, HashedText;
    FeedStep(sorted, 0);
    for i := 0 to |sorted|
      invariant hashed == Encode(HashedText(sorted[..i]))
    {
      FeedStep(sorted, i);
      hashed := hashed + Encode(sorted[i].name);
      ToolIsWellFormed(sorted[i]);
      var value := CanonicalPrinter.CanonicalBytes(sorted[i].definition);
      hashed := hashed + value;
    }
    assert sorted[..|sorted|] == sorted;
  }

  lemma FeedStep(ts: seq<Tool>, i: nat)
    requires i <= |ts|
    ensures i == 0 ==> Encode(HashedText(ts[..i])) == []
    ensures i < |ts| ==>
              Encode(HashedText(ts[..i + 1])) ==
              Encode(HashedText(ts[..i])) + Encode(ts[i].name) + Encode(Print(Meaning(ts[i].definition)))
  {
    if i == 0 {
      assert ts[..0] == [] && Encode([]) == [];
    } else {
      hide Encode, HashedText, Meaning, Print;
    }
    if i < |ts| {
      hide Encode, HashedText, Meaning, Print, Piece;
      HashedTextStep(ts, i);
      PieceBytes(ts[i]);
      EncodeConcat(HashedText(ts[..i]), Piece(ts[i]));
      Reassociate(Encode(HashedText(ts[..i])), Encode(ts[i].name), Encode(Print(Meaning(ts[i].definition))));
    }
  }

  lemma HashedTextStep(ts: seq<Tool>, i: nat)
    requires i < |ts|
    ensures HashedText(ts[..i + 1]) == HashedText(ts[..i]) + Piece(ts[i])
  {
    hide Piece;
    assert ts[..i + 1][..i] == ts[..i];
  }

  lemma PieceBytes(t: Tool)
    ensures Encode(Piece(t)) == Encode(t.name) + Encode(Print(Meaning(t.definition)))
  {
    hide Encode, Meaning, Print;
    EncodeConcat(t.name, Print(Meaning(t.definition)));
  }

  ghost function Hashed(ts: seq<Tool>): seq<Byte> {
    Encode(HashedText(SortByName(ts)))
  }

  lemma SortKeepsTools(ts: seq<Tool>)
    requires AreTools(ts)
    ensures AreTools(SortByName(ts))
  {
    SortIsStableSort(ts, "");
    var sorted := SortByName(ts);
    forall i | 0 <= i < |sorted| ensures IsTool(sorted[i]) {
      assert sorted[i] in multiset(ts);
    }
  }

  lemma ToolIsWellFormed(t: Tool)
    requires IsTool(t)
    ensures WellFormed(t.definition)
  {
  }

  // ---- the hashed text determines the tools ----

  ghost predicate SameTools(ts: seq<Tool>, us: seq<Tool>) {
    && |ts| == |us|
    && forall i :: 0 <= i < |ts| ==>
         ts[i].name == us[i].name && Meaning(ts[i].definition) == Meaning(us[i].definition)
  }

  // Of two objects that end the same text, neither is shorter than the other.
  lemma LastObjectIsDetermined(p: string, q: string, x: Json, y: Json)
    requires x.JObject? && y.JObject? && ValidNumbers(x) && ValidNumbers(y)
    requires p + Print(x) == q + Print(y)
    ensures x == y && p == q
  {
    var s, t := Print(x), Print(y);
    assert s == Print(x) && t == Print(y);
    EqualEnds(p, q, s, t);
    if |s| >= |t| {
      ObjectScan.ObjectsAreSuffixFree(s[..|s| - |t|], x, y);
    } else {
      ObjectScan.ObjectsAreSuffixFree(t[..|t| - |s|], y, x);
    }
    CanonicalParser.RoundTrip(x);
    CanonicalParser.RoundTrip(y);
  }

  lemma EqualEnds(p: string, q: string, s: string, t: string)
    requires p + s == q + t
    ensures |s| >= |t| ==> s == s[..|s| - |t|] + t
    ensures |t| >= |s| ==> t == t[..|t| - |s|] + s
    ensures |s| == |t| ==> p == q && s == t
  {
    var whole := p + s;
    assert s == whole[|p|..] && t == whole[|q|..];
    assert p == whole[..|p|] && q == whole[..|q|];
    if |s| >= |t| {
      assert whole[|p|..][|q| - |p|..] == whole[|q|..];
    } else {
      assert whole[|q|..][|p| - |q|..] == whole[|p|..];
    }
  }

  lemma DefinitionIsObject(t: Tool)
    requires IsTool(t)
    ensures Meaning(t.definition).JObject? && ValidNumbers(Meaning(t.definition))
    ensures "name" in Meaning(t.definition).members
    ensures Meaning(t.definition).members["name"] == JString(t.name)
  {
    WellFormedHasValidNumbers(t.definition);
  }

  lemma LastPieceIsDetermined(p: string, q: string, t: Tool, u: Tool)
    requires IsTool(t) && IsTool(u) && p + Piece(t) == q + Piece(u)
    ensures p == q && t.name == u.name && Meaning(t.definition) == Meaning(u.definition)
  {
    DefinitionIsObject(t);
    DefinitionIsObject(u);
    hide IsTool, Meaning, Print, ValidNumbers;
    var x, y := Meaning(t.definition), Meaning(u.definition);
    Regroup(p, t.name, Print(x), q, u.name, Print(y));
    LastObjectIsDetermined(p + t.name, q + u.name, x, y);
    EqualEnds(p, q, t.name, u.name);
  }

  lemma Regroup(p: string, n: string, x: string, q: string, m: string, y: string)
    requires p + (n + x) == q + (m + y)
    ensures (p + n) + x == (q + m) + y
  {
    assert p + (n + x) == (p + n) + x && q + (m + y) == (q + m) + y;
  }

  lemma PieceIsNotEmpty(t: Tool)
    requires IsTool(t)
    ensures Piece(t) != []
  {
  }

  lemma {:induction false} TextDeterminesTools(ts: seq<Tool>, us: seq<Tool>)
    requires AreTools(ts) && AreTools(us)
    ensures HashedText(ts) == HashedText(us) ==> SameTools(ts, us)
    decreases |ts|
  {
    hide IsTool, Piece, Meaning;
    if ts != [] {
      PieceIsNotEmpty(ts[|ts| - 1]);
    }
    if us != [] {
      PieceIsNotEmpty(us[|us| - 1]);
    }
    if ts != [] && us != [] && HashedText(ts) == HashedText(us) {
      var ts', us' := ts[..|ts| - 1], us[..|us| - 1];
      LastPieceIsDetermined(HashedText(ts'), HashedText(us'), ts[|ts| - 1], us[|us| - 1]);
      TextDeterminesTools(ts', us');
    }
  }

  lemma {:induction false} SameToolsSameText(ts: seq<Tool>, us: seq<Tool>)
    requires SameTools(ts, us)
    ensures HashedText(ts) == HashedText(us)
    decreases |ts|
  {
    if ts != [] {
      SameToolsSameText(ts[..|ts| - 1], us[..|us| - 1]);
    }
  }

  /** Two tool sets feed the hasher the same bytes exactly when they hold the same tools: same
      names, same definitions up to member order, in the order the sort leaves them. */
  lemma HashedBytesDetermineTools(ts: seq<Tool>, us: seq<Tool>)
    requires AreTools(ts) && AreTools(us)
    ensures Hashed(ts) == Hashed(us) <==> SameTools(SortByName(ts), SortByName(us))
  {
    SortKeepsTools(ts);
    SortKeepsTools(us);
    if Hashed(ts) == Hashed(us) {
      EncodeInjective(HashedText(SortByName(ts)), HashedText(SortByName(us)));
      TextDeterminesTools(SortByName(ts), SortByName(us));
    }
    if SameTools(SortByName(ts), SortByName(us)) {
      SameToolsSameText(SortByName(ts), SortByName(us));
    }
  }

  // ---- arrival order ----

  // Tools with the same name have the same definition.
  ghost predicate NamesAreKeys(ts: seq<Tool>) {
    forall i, j :: 0 <= i < |ts| && 0 <= j < |ts| && ts[i].name == ts[j].name ==>
      Meaning(ts[i].definition) == Meaning(ts[j].definition)
  }

  // A definition filed under its name, with its member order forgotten.
  ghost function Contents(ts: seq<Tool>): seq<(string, Json)> {
    seq(|ts|, i requires 0 <= i < |ts| => (ts[i].name, Meaning(ts[i].definition)))
  }

  lemma RemoveOne<T>(s: seq<T>, i: nat)
    requires i < |s|
    ensures multiset(s[..i] + s[i + 1..]) == multiset(s) - multiset{s[i]}
  {
    assert s == s[..i] + [s[i]] + s[i + 1..];
  }

  lemma ContentsWithout(ts: seq<Tool>, k: nat)
    requires k < |ts|
    ensures Contents(ts)[..k] + Contents(ts)[k + 1..] == Contents(ts[..k] + ts[k + 1..])
  {
    hide Meaning;
  }

  lemma {:induction false} ContentsOfPermutation(ts: seq<Tool>, us: seq<Tool>)
    requires multiset(ts) == multiset(us)
    ensures multiset(Contents(ts)) == multiset(Contents(us))
    decreases |ts|
  {
    hide Meaning;
    if ts == [] {
      assert |us| == |multiset(us)| == |multiset(ts)| == 0;
    } else {
      assert ts[0] in multiset(us);
      var k :| 0 <= k < |us| && us[k] == ts[0];
      RemoveOne(ts, 0);
      RemoveOne(us, k);
      ContentsWithout(ts, 0);
      ContentsWithout(us, k);
      RemoveOne(Contents(ts), 0);
      RemoveOne(Contents(us), k);
      assert Contents(us)[k] == Contents(ts)[0];
      hide Contents;
      ContentsOfPermutation(ts[..0] + ts[1..], us[..k] + us[k + 1..]);
      PutBack(multiset(Contents(ts)), multiset(Contents(us)), Contents(ts)[0]);
    }
  }

  lemma PutBack<T>(m: multiset<T>, n: multiset<T>, x: T)
    requires x in m && x in n && m - multiset{x} == n - multiset{x}
    ensures m == n
  {
    assert m == (m - multiset{x}) + multiset{x};
    assert n == (n - multiset{x}) + multiset{x};
  }

  ghost predicate SortedContents(cs: seq<(string, Json)>) {
    forall i, j :: 0 <= i < j < |cs| ==> Leq(cs[i].0, cs[j].0)
  }

  ghost predicate KeyedContents(cs: seq<(string, Json)>) {
    forall i, j :: 0 <= i < |cs| && 0 <= j < |cs| && cs[i].0 == cs[j].0 ==> cs[i] == cs[j]
  }

  // Sorted lists of the same contents are equal when names are keys.
  lemma {:induction false} SortedContentsAreUnique(cs: seq<(string, Json)>, ds: seq<(string, Json)>)
    requires multiset(cs) == multiset(ds)
    requires SortedContents(cs) && SortedContents(ds) && KeyedContents(cs)
    ensures cs == ds
    decreases |cs|
  {
    if cs == [] {
      assert |ds| == |multiset(ds)| == |multiset(cs)| == 0;
    } else {
      HeadsAgree(cs, ds);
      Tail(cs);
      Tail(ds);
      RemoveOne(cs, 0);
      RemoveOne(ds, 0);
      hide SortedContents, KeyedContents;
      assert cs[..0] + cs[1..] == cs[1..] && ds[..0] + ds[1..] == ds[1..];
      SortedContentsAreUnique(cs[1..], ds[1..]);
    }
  }

  lemma Tail(cs: seq<(string, Json)>)
    requires cs != [] && SortedContents(cs)
    ensures SortedContents(cs[1..])
    ensures KeyedContents(cs) ==> KeyedContents(cs[1..])
    ensures cs == [cs[0]] + cs[1..]
  {
    hide Leq;
  }

  lemma HeadsAgree(cs: seq<(string, Json)>, ds: seq<(string, Json)>)
    requires multiset(cs) == multiset(ds) && cs != []
    requires SortedContents(cs) && SortedContents(ds) && KeyedContents(cs)
    ensures ds != [] && cs[0] == ds[0]
  {
    hide Leq;
    assert cs[0] in multiset(ds);
    var k :| 0 <= k < |ds| && ds[k] == cs[0];
    assert ds[0] in multiset(cs);
    var n :| 0 <= n < |cs| && cs[n] == ds[0];
    LeqOrder(cs[0].0, ds[0].0, cs[0].0);
  }

  lemma SortedKeepsKeys(ts: seq<Tool>, s: seq<Tool>)
    requires NamesAreKeys(ts) && multiset(s) == multiset(ts)
    ensures NamesAreKeys(s)
  {
    hide Meaning;
    forall i, j | 0 <= i < |s| && 0 <= j < |s| && s[i].name == s[j].name
      ensures Meaning(s[i].definition) == Meaning(s[j].definition)
    {
      assert s[i] in multiset(ts) && s[j] in multiset(ts);
      var m :| 0 <= m < |ts| && ts[m] == s[i];
      var n :| 0 <= n < |ts| && ts[n] == s[j];
    }
  }

  lemma PermutationHashesAlike(ts: seq<Tool>, us: seq<Tool>)
    requires NamesAreKeys(ts) && multiset(ts) == multiset(us)
    ensures Hashed(ts) == Hashed(us)
  {
    var s, t := SortByName(ts), SortByName(us);
    SortIsStableSort(ts, "");
    SortIsStableSort(us, "");
    hide Meaning, Leq, SortByName, HashedText;
    SortedKeepsKeys(ts, s);
    ContentsOfPermutation(s, t);
    SortedContentsAreUnique(Contents(s), Contents(t));
    ContentsAreTools(s, t);
    SameToolsSameText(s, t);
  }

  lemma ContentsAreTools(s: seq<Tool>, t: seq<Tool>)
    requires Contents(s) == Contents(t)
    ensures SameTools(s, t)
  {
    hide Meaning;
    assert |s| == |Contents(s)| == |Contents(t)| == |t|;
    forall i | 0 <= i < |s|
      ensures s[i].name == t[i].name && Meaning(s[i].definition) == Meaning(t[i].definition)
    {
      assert Contents(s)[i] == Contents(t)[i];
    }
  }

  lemma {:induction false} SameToolsNamed(ts: seq<Tool>, us: seq<Tool>, n: string)
    requires SameTools(ts, us)
    ensures Named(ts, n) == Named(us, n)
    decreases |ts|
  {
    if ts != [] {
      SameToolsNamed(ts[1..], us[1..], n);
    }
  }

  // Two lists that start with different definitions of one name hash differently.
  lemma FirstDefinitionShows(t: Tool, u: Tool, rest: seq<Tool>)
    requires AreTools([t, u] + rest)
    requires t.name == u.name && Meaning(t.definition) != Meaning(u.definition)
    ensures Hashed([t, u] + rest) != Hashed([u, t] + rest)
  {
    var ts, us := [t, u] + rest, [u, t] + rest;
    var n := t.name;
    assert AreTools(us) by {
      forall i | 0 <= i < |us| ensures IsTool(us[i]) {
        assert us[i] == if i == 0 then ts[1] else if i == 1 then ts[0] else ts[i];
      }
    }
    hide Meaning, IsTool, SortByName, HashedText;
    assert Named(ts, n)[0] == Meaning(t.definition);
    assert Named(us, n)[0] == Meaning(u.definition);
    SortIsStableSort(ts, n);
    SortIsStableSort(us, n);
    HashedBytesDetermineTools(ts, us);
    if SameTools(SortByName(ts), SortByName(us)) {
      SameToolsNamed(SortByName(ts), SortByName(us), n);
    }
  }

  /** The fingerprint does not depend on arrival order exactly when no name stands for two
      different definitions. With distinct names, in particular, it never does. */
  lemma OrderIsIrrelevantIffNamesAreKeys(ts: seq<Tool>)
    requires AreTools(ts)
    ensures (forall us :: multiset(us) == multiset(ts) ==> Hashed(us) == Hashed(ts)) <==> NamesAreKeys(ts)
  {
    hide Meaning, IsTool, Hashed;
    if NamesAreKeys(ts) {
      forall us | multiset(us) == multiset(ts) ensures Hashed(us) == Hashed(ts) {
        PermutationHashesAlike(ts, us);
      }
    } else {
      var a, b :| 0 <= a < |ts| && 0 <= b < |ts| && ts[a].name == ts[b].name
                  && Meaning(ts[a].definition) != Meaning(ts[b].definition);
      var i, j := if a < b then a else b, if a < b then b else a;
      var p, q := TwoFirst(ts, i, j);
      SamePool(ts, p);
      FirstDefinitionShows(ts[i], ts[j], p[2..]);
    }
  }

  lemma SamePool(ts: seq<Tool>, p: seq<Tool>)
    requires AreTools(ts) && multiset(p) == multiset(ts)
    ensures AreTools(p)
  {
    hide IsTool;
    forall k | 0 <= k < |p| ensures IsTool(p[k]) {
      assert p[k] in multiset(ts);
    }
  }

  // Two arrangements of the same tools that differ in which of the two comes first.
  lemma TwoFirst<T>(ts: seq<T>, i: nat, j: nat) returns (p: seq<T>, q: seq<T>)
    requires i < j < |ts|
    ensures multiset(p) == multiset(ts) && multiset(q) == multiset(ts)
    ensures |p| >= 2 && p == [ts[i], ts[j]] + p[2..] && q == [ts[j], ts[i]] + p[2..]
  {
    var rest := ts[..i] + ts[i + 1..j] + ts[j + 1..];
    assert ts == ts[..i] + [ts[i]] + ts[i + 1..j] + [ts[j]] + ts[j + 1..];
    p, q := [ts[i], ts[j]] + rest, [ts[j], ts[i]] + rest;
  }

  // ---- the order tools are hashed in ----

  ghost predicate Within(text: string, piece: string) {
    exists x: string, y: string :: text == x + piece + y
  }

  lemma WithinLonger(text: string, piece: string, more: string)
    ensures Within(text, piece) ==> Within(text + more, piece)
    ensures Within(text + more, more)
  {
    if Within(text, piece) {
      var x: string, y: string :| text == x + piece + y;
      assert text + more == x + piece + (y + more);
    }
    assert text + more == text + more + [];
  }

  lemma {:induction false} TextAround(ts: seq<Tool>, m: nat) returns (after: string)
    requires m < |ts|
    ensures HashedText(ts) == HashedText(ts[..m]) + Piece(ts[m]) + after
    ensures forall n :: m < n < |ts| ==> Within(after, Piece(ts[n]))
    decreases |ts|
  {
    var init, last := ts[..|ts| - 1], ts[|ts| - 1];
    assert HashedText(ts) == HashedText(init) + Piece(last);
    hide Piece, HashedText, Within;
    if m == |ts| - 1 {
      after := [];
    } else {
      var before := TextAround(init, m);
      assert init[..m] == ts[..m];
      after := before + Piece(last);
      Reassociate(HashedText(ts[..m]) + Piece(ts[m]), before, Piece(last));
      forall n | m < n < |ts| ensures Within(after, Piece(ts[n])) {
        WithinLonger(before, Piece(ts[n]), Piece(last));
        assert n < |ts| - 1 ==> init[n] == ts[n];
      }
    }
  }

  lemma SortedPositions(ts: seq<Tool>, t: Tool, u: Tool) returns (m: nat, n: nat)
    requires t in ts && u in ts && t.name != u.name && AtMost(t.name, u.name)
    ensures m < n < |SortByName(ts)| && SortByName(ts)[m] == t && SortByName(ts)[n] == u
  {
    hide Leq, AtMost, SortByName, Meaning;
    var sorted := SortByName(ts);
    SortIsStableSort(ts, "");
    assert t in multiset(sorted) && u in multiset(sorted);
    m :| m < |sorted| && sorted[m] == t;
    n :| n < |sorted| && sorted[n] == u;
    if n < m {
      LeqIsCodePointOrder(t.name, u.name);
      LeqOrder(t.name, u.name, t.name);
    }
  }

  /** Of two tools, the one whose name is smaller by code points is hashed first. */
  lemma ToolsHashInCodePointOrder(ts: seq<Tool>, t: Tool, u: Tool) returns (before: string, between: string, after: string)
    requires t in ts && u in ts && t.name != u.name && AtMost(t.name, u.name)
    ensures Hashed(ts) == Encode(before + (t.name + Print(Meaning(t.definition))) + between
                                 + (u.name + Print(Meaning(u.definition))) + after)
  {
    hide SortByName, HashedText, Encode, AtMost, Meaning, Print;
    var m, n := SortedPositions(ts, t, u);
    var sorted := SortByName(ts);
    var rest := TextAround(sorted, m);
    var x: string, y: string :| rest == x + Piece(sorted[n]) + y;
    before, between, after := HashedText(sorted[..m]), x, y;
    FourTexts(before, Piece(t), x, Piece(u), y);
  }

  lemma FourTexts(p: string, t: string, x: string, u: string, y: string)
    ensures p + t + (x + u + y) == p + t + x + u + y
  {
  }
}
