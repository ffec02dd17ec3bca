/** The printer itself: a recursive method that appends to a byte buffer in loops and sorts the
    keys of every object, proved to produce the UTF-8 bytes of the canonical text. */
module CanonicalPrinter {
  import opened Utf8
  import opened CanonicalJson

  // The keys of an object in byte order, by insertion.
  method SortKeys(keys: seq<string>) returns (sorted: seq<string>)
    requires Distinct(keys)
    ensures Sorted(sorted) && Distinct(sorted)
    ensures Ascending(sorted)
    ensures forall k :: k in sorted <==> k in keys
  {
    hide Leq, AtMost;
    sorted := [];
    for i := 0 to |keys|
      invariant Sorted(sorted) && Distinct(sorted)
      invariant forall k :: k in sorted <==> k in keys[..i]
    {
      assert keys[..i + 1] == keys[..i] + [keys[i]];
      sorted := InsertKey(sorted, keys[i]);
    }
    assert keys[..|keys|] == keys;
    forall i, j | 0 <= i < j < |sorted| ensures AtMost(sorted[i], sorted[j]) {
      LeqIsCodePointOrder(sorted[i], sorted[j]);
    }
  }

  method InsertKey(sorted: seq<string>, key: string) returns (r: seq<string>)
    requires Sorted(sorted) && Distinct(sorted) && key !in sorted
    ensures Sorted(r) && Distinct(r)
    ensures forall k :: k in r <==> k == key || k in sorted
  {
    hide Leq;
    var p := 0;
    while p < |sorted| && Leq(sorted[p], key)
      invariant 0 <= p <= |sorted|
      invariant forall i :: 0 <= i < p ==> Leq(sorted[i], key)
    {
      p := p + 1;
    }
    forall i | p <= i < |sorted| ensures Leq(key, sorted[i]) {
      LeqOrder(key, sorted[p], sorted[i]);
    }
    r := sorted[..p] + [key] + sorted[p..];
  }

  // The position of a key in an object's member list.
  function Find(ms: seq<(string, Value)>, key: string): (i: nat)
    requires exists i :: 0 <= i < |ms| && ms[i].0 == key
    ensures i < |ms| && ms[i].0 == key
  {
    if ms[0].0 == key then 0 else 1 + Find(ms[1..], key)
  }

  lemma ItemsStep(js: seq<Json>, i: nat)
    requires i <= |js|
    ensures i == |js| ==> PrintItems(js[i..], i == 0) == ""
    ensures i < |js| ==>
              PrintItems(js[i..], i == 0) == Comma(i) + Print(js[i]) + PrintItems(js[i + 1..], false)
  {
    assert i < |js| ==> js[i..][1..] == js[i + 1..];
  }

  function Comma(i: nat): string {
    if i == 0 then "" else ","
  }

  lemma MembersStep(j: Json, keys: seq<string>, i: nat)
    requires j.JObject? && forall k :: k in keys ==> k in j.members
    requires i <= |keys|
    ensures i == |keys| ==> PrintMembers(j, keys[i..], i == 0) == ""
    ensures i < |keys| ==>
              PrintMembers(j, keys[i..], i == 0) == Comma(i) + Entry(j, keys[i]) + PrintMembers(j, keys[i + 1..], false)
  {
    assert i < |keys| ==> keys[i..][1..] == keys[i + 1..];
  }

  lemma EscapeStep(s: string, i: nat)
    requires i <= |s|
    ensures i == |s| ==> EscapeAll(s[i..]) == ""
    ensures i < |s| ==> EscapeAll(s[i..]) == Escape(s[i]) + EscapeAll(s[i + 1..])
  {
    assert i < |s| ==> s[i..][1..] == s[i + 1..];
  }

  // A printing loop appends `piece` to the text so far; the rest of the text stays ahead of it.
  lemma Appended(text: string, piece: string, rest: string, end: string, whole: string)
    requires text + (piece + rest) + end == whole
    ensures (text + piece) + rest + end == whole
    ensures Encode(text + piece) == Encode(text) + Encode(piece)
  {
    hide Encode;
    EncodeConcat(text, piece);
    assert (text + piece) + rest + end == text + (piece + rest) + end;
  }

  lemma Turn(text: string, i: nat, body: string, rest: string, end: string, whole: string)
    requires text + (Comma(i) + body + rest) + end == whole
    ensures (text + Comma(i) + body) + rest + end == whole
    ensures Encode(text + Comma(i) + body) ==
            (if i == 0 then Encode(text) else Encode(text) + Encode(",")) + Encode(body)
  {
    hide Encode;
    assert (text + Comma(i) + body) + rest + end == text + (Comma(i) + body + rest) + end;
    EncodeConcat(text + Comma(i), body);
    EncodeConcat(text, Comma(i));
    assert text + "" == text;
  }

  lemma Finished(text: string, end: string, whole: string)
    requires text + "" + end == whole
    ensures Encode(whole) == Encode(text) + Encode(end)
  {
    assert text + "" == text;
    EncodeConcat(text, end);
  }

  method CanonicalBytes(v: Value) returns (buf: seq<Byte>)
    requires WellFormed(v)
    ensures buf == Encode(Print(Meaning(v)))
    decreases if v.Array? || v.Object? then 1 else 0, v
  {
    match v {
      case Null =>
        buf := Encode("null");
      case Bool(b) =>
        buf := Encode(if b then "true" else "false");
      case Number(token) =>
        buf := Encode(token);
      case Str(s) =>
        buf := QuotedBytes(s);
      case Array(items) =>
        buf := ArrayBytes(v);
      case Object(members) =>
        buf := ObjectBytes(v);
    }
  }

  lemma ArrayMeaning(v: Value)
    requires WellFormed(v) && v.Array?
    ensures Meaning(v).JArray?
    ensures var js := Meaning(v).items;
            && |js| == |v.items| && Print(Meaning(v)) == "[" + PrintItems(js[0..], true) + "]"
            && forall i :: 0 <= i < |js| ==> js[i] == Meaning(v.items[i]) && WellFormed(v.items[i])
  {
    hide Print, PrintItems;
    var js := Meaning(v).items;
    assert js[0..] == js;
    ArrayText(Meaning(v));
  }

  lemma ArrayText(j: Json)
    requires j.JArray?
    ensures Print(j) == "[" + PrintItems(j.items, true) + "]"
  {
  }

  method ArrayBytes(v: Value) returns (buf: seq<Byte>)
    requires WellFormed(v) && v.Array?
    ensures buf == Encode(Print(Meaning(v)))
    decreases 1, v, 0
  {
    ArrayMeaning(v);
    ghost var js := Meaning(v).items;
    ghost var whole := Print(Meaning(v));
    ghost var text := "[";
    hide Encode, Print, PrintItems, Meaning, WellFormed, Comma;
    buf := Encode("[");
    for i := 0 to |v.items|
      invariant buf == Encode(text)
      invariant text + PrintItems(js[i..], i == 0) + "]" == whole
    {
      ItemsStep(js, i);
      Turn(text, i, Print(js[i]), PrintItems(js[i + 1..], false), "]", whole);
      text := text + Comma(i) + Print(js[i]);
      if i > 0 {
        buf := buf + Encode(",");
      }
      var item := CanonicalBytes(v.items[i]);
      buf := buf + item;
    }
    buf := buf + Encode("]");
    ItemsStep(js, |js|);
    Finished(text, "]", whole);
  }

  method ObjectBytes(v: Value) returns (buf: seq<Byte>)
    requires WellFormed(v) && v.Object?
    ensures buf == Encode(Print(Meaning(v)))
    decreases 1, v, 2
  {
    var ms := v.members;
    assert DistinctKeys(ms);
    hide Encode, Print, Meaning, PrintMembers, WellFormed, SortedKeys;
    var unsorted := seq(|ms|, i requires 0 <= i < |ms| => ms[i].0);
    var keys := SortKeys(unsorted);
    ObjectKeys(v, unsorted, keys);
    buf := MembersBytes(v, keys);
    buf := Encode("{") + buf + Encode("}");
  }

  lemma MembersReady(v: Value, keys: seq<string>)
    requires WellFormed(v) && v.Object?
    requires forall k :: k in keys ==> k in Meaning(v).members
    ensures "" + PrintMembers(Meaning(v), keys[0..], true) + "" == PrintMembers(Meaning(v), keys, true)
    ensures DistinctKeys(v.members) && forall i :: 0 <= i < |v.members| ==> WellFormed(v.members[i].1)
    ensures Encode("") == []
  {
    hide PrintMembers, Meaning;
    assert keys[0..] == keys;
  }

  // The members between the braces, in the order of `keys`.
  method MembersBytes(v: Value, keys: seq<string>) returns (buf: seq<Byte>)
    requires WellFormed(v) && v.Object?
    requires forall k :: k in keys ==> k in Meaning(v).members
    ensures buf == Encode(PrintMembers(Meaning(v), keys, true))
    decreases 1, v, 1
  {
    ghost var j := Meaning(v);
    ghost var whole := PrintMembers(j, keys, true);
    ghost var text := "";
    hide Encode, PrintMembers, Entry, Meaning, WellFormed, DistinctKeys, Comma;
    MembersReady(v, keys);
    buf := [];
    for i := 0 to |keys|
      invariant buf == Encode(text)
      invariant text + PrintMembers(j, keys[i..], i == 0) + "" == whole
    {
      MembersStep(j, keys, i);
      Turn(text, i, Entry(j, keys[i]), PrintMembers(j, keys[i + 1..], false), "", whole);
      text := text + Comma(i) + Entry(j, keys[i]);
      if i > 0 {
        buf := buf + Encode(",");
      }
      var entry := EntryBytes(v, keys[i]);
      buf := buf + entry;
    }
    MembersStep(j, keys, |keys|);
    assert text + "" + "" == text;
  }

  method EntryBytes(v: Value, key: string) returns (buf: seq<Byte>)
    requires v.Object? && DistinctKeys(v.members)
    requires forall i :: 0 <= i < |v.members| ==> WellFormed(v.members[i].1)
    requires key in Meaning(v).members
    ensures buf == Encode(Entry(Meaning(v), key))
    decreases 1, v, 0
  {
    assert Print(Meaning(Str(key))) == Quote(key) && WellFormed(Str(key));
    MemberKeys(v, |v.members|);
    hide Encode, WellFormed, Quote, Print;
    var i := Find(v.members, key);
    ObjectMember(v, i);
    EntryEncoding(Meaning(v), key);
    buf := CanonicalBytes(Str(key));
    buf := buf + Encode(":");
    var value := CanonicalBytes(v.members[i].1);
    buf := buf + value;
  }

  lemma ObjectMember(v: Value, p: nat)
    requires v.Object? && p < |v.members| && DistinctKeys(v.members)
    ensures Meaning(v).JObject? && v.members[p].0 in Meaning(v).members
    ensures Meaning(v).members[v.members[p].0] == Meaning(v.members[p].1)
  {
    MemberMeaning(v, |v.members|, p);
  }

  lemma EntryEncoding(j: Json, key: string)
    requires j.JObject? && key in j.members
    ensures Encode(Entry(j, key)) == Encode(Quote(key)) + Encode(":") + Encode(Print(j.members[key]))
  {
    hide Encode;
    EncodeConcat(Quote(key), ":");
    EncodeConcat(Quote(key) + ":", Print(j.members[key]));
  }

  lemma ObjectKeys(v: Value, unsorted: seq<string>, keys: seq<string>)
    requires v.Object? && |unsorted| == |v.members|
    requires forall i :: 0 <= i < |unsorted| ==> unsorted[i] == v.members[i].0
    requires Sorted(keys) && Distinct(keys) && forall k :: k in keys <==> k in unsorted
    ensures Meaning(v).JObject?
    ensures forall k :: k in keys ==> k in Meaning(v).members
    ensures Encode(Print(Meaning(v))) ==
            Encode("{") + Encode(PrintMembers(Meaning(v), keys, true)) + Encode("}")
  {
    hide Encode, PrintMembers;
    var m := MeaningMembers(v, |v.members|);
    MemberKeys(v, |v.members|);
    forall k ensures k in keys <==> k in m.Keys {
      if k in m {
        var i :| 0 <= i < |v.members| && v.members[i].0 == k;
        assert unsorted[i] == k;
      }
    }
    SortedListIsUnique(keys, m.Keys);
    var text := PrintMembers(Meaning(v), keys, true);
    EncodeConcat("{", text);
    EncodeConcat("{" + text, "}");
  }

  method QuotedBytes(s: string) returns (buf: seq<Byte>)
    ensures buf == Encode(Quote(s))
    decreases 0, 0
  {
    ghost var text := "\"";
    buf := Encode("\"");
    assert s[0..] == s;
    for i := 0 to |s|
      invariant buf == Encode(text)
      invariant text + EscapeAll(s[i..]) + "\"" == Quote(s)
    {
      EscapeStep(s, i);
      Appended(text, Escape(s[i]), EscapeAll(s[i + 1..]), "\"", Quote(s));
      text := text + Escape(s[i]);
      buf := buf + Encode(Escape(s[i]));
    }
    buf := buf + Encode("\"");
    EscapeStep(s, |s|);
    Finished(text, "\"", Quote(s));
  }
}
