/** A reader for canonical JSON text, and what its existence proves about the printer: the
    text of a value gives the value back, so two values with the same bytes have the same
    contents. String escapes follow section 7 of RFC 8259. */
module CanonicalParser {
  import opened Utf8
  import opened CanonicalJson
  import opened Wrappers

  function HexValue(c: char): (n: int)
    ensures -1 <= n < 16
  {
    if '0' <= c <= '9' then (c as int) - ('0' as int)
    else if 'a' <= c <= 'f' then (c as int) - ('a' as int) + 10
    else if 'A' <= c <= 'F' then (c as int) - ('A' as int) + 10
    else -1
  }

  // The character of a `\uXXXX` escape; surrogate halves are not characters.
  function ParseHex(s: string): Option<char> {
    if |s| < 4 || exists i :: 0 <= i < 4 && HexValue(s[i]) == -1 then None
    else
      var n := ((HexValue(s[0]) * 16 + HexValue(s[1])) * 16 + HexValue(s[2])) * 16 + HexValue(s[3]);
      if 0xD800 <= n < 0xE000 then None else Some(n as char)
  }

  // One possibly escaped character of a string body.
  function ParseChar(s: string): (r: Option<(char, string)>)
    ensures r.Some? ==> |r.value.1| < |s|
  {
    if s == [] || s[0] < ' ' || s[0] == '"' then None
    else if s[0] != '\\' then Some((s[0], s[1..]))
    else if |s| < 2 then None
    else
      match s[1]
      case '"' => Some(('"', s[2..]))
      case '\\' => Some(('\\', s[2..]))
      case '/' => Some(('/', s[2..]))
      case 'b' => Some((8 as char, s[2..]))
      case 'f' => Some((12 as char, s[2..]))
      case 'n' => Some(('\n', s[2..]))
      case 'r' => Some(('\r', s[2..]))
      case 't' => Some(('\t', s[2..]))
      case 'u' =>
        var c :- ParseHex(s[2..]);
        Some((c, s[6..]))
      case _ => None
  }

  // A string body up to and including its closing quote.
  function ParseString(s: string): (r: Option<(string, string)>)
    ensures r.Some? ==> |r.value.1| < |s|
    decreases |s|
  {
    if s != [] && s[0] == '"' then Some(([], s[1..]))
    else
      var (c, rest) :- ParseChar(s);
      var (cs, rest') :- ParseString(rest);
      Some(([c] + cs, rest'))
  }

  function NumberLength(s: string): (n: nat)
    ensures n <= |s|
  {
    if s != [] && NumberChar(s[0]) then 1 + NumberLength(s[1..]) else 0
  }

  function ParseValue(s: string): (r: Option<(Json, string)>)
    ensures r.Some? ==> |r.value.1| < |s|
    decreases |s|, 0
  {
    if s == [] then None
    else if s[0] == '"' then
      var (text, rest) :- ParseString(s[1..]);
      Some((JString(text), rest))
    else if s[0] == '[' then
      if |s| > 1 && s[1] == ']' then Some((JArray([]), s[2..]))
      else
        var (items, rest) :- ParseItems(s[1..]);
        Some((JArray(items), rest))
    else if s[0] == '{' then
      if |s| > 1 && s[1] == '}' then Some((JObject(map[]), s[2..]))
      else
        var (members, rest) :- ParseMembers(s[1..]);
        Some((JObject(members), rest))
    else if NumberChar(s[0]) then
      var n := NumberLength(s);
      Some((JNumber(s[..n]), s[n..]))
    else if "null" <= s then Some((JNull, s[4..]))
    else if "true" <= s then Some((JBool(true), s[4..]))
    else if "false" <= s then Some((JBool(false), s[5..]))
    else None
  }

  // A nonempty item list up to and including `]`.
  function ParseItems(s: string): (r: Option<(seq<Json>, string)>)
    ensures r.Some? ==> |r.value.1| < |s|
    decreases |s|, 1
  {
    var (item, rest) :- ParseValue(s);
    if rest == [] then None
    else if rest[0] == ']' then Some(([item], rest[1..]))
    else if rest[0] == ',' then
      var (items, rest') :- ParseItems(rest[1..]);
      Some(([item] + items, rest'))
    else None
  }

  // A nonempty member list up to and including `}`; a key may appear once.
  function ParseMembers(s: string): (r: Option<(map<string, Json>, string)>)
    ensures r.Some? ==> |r.value.1| < |s|
    decreases |s|, 1
  {
    if s == [] || s[0] != '"' then None
    else
      var (key, rest) :- ParseString(s[1..]);
      if rest == [] || rest[0] != ':' then None
      else
        var (value, rest') :- ParseValue(rest[1..]);
        if rest' == [] then None
        else if rest'[0] == '}' then Some((map[key := value], rest'[1..]))
        else if rest'[0] == ',' then
          var (members, rest'') :- ParseMembers(rest'[1..]);
          if key in members then None else Some((members[key := value], rest''))
        else None
  }

  /** A whole document: one value and nothing after it. */
  function Parse(s: string): Option<Json> {
    var (j, rest) :- ParseValue(s);
    if rest == [] then Some(j) else None
  }

  // ---- round trip ----

  lemma ParseEscape(c: char, rest: string)
    ensures ParseChar(Escape(c) + rest) == Some((c, rest))
    ensures Escape(c)[0] != '"'
  {
    var s := Escape(c) + rest;
    if |Escape(c)| == 1 {
      assert s[1..] == rest;
    } else if |Escape(c)| == 2 {
      assert s[2..] == rest;
    } else {
      assert s[6..] == rest;
      assert s[2] == '0' && s[3] == '0';
      assert s[4] == HexDigit(c as int / 16) && s[5] == HexDigit(c as int % 16);
      assert s[2..][0] == s[2] && s[2..][1] == s[3] && s[2..][2] == s[4] && s[2..][3] == s[5];
      assert HexValue(s[4]) == c as int / 16 && HexValue(s[5]) == c as int % 16;
      assert ParseHex(s[2..]) == Some(c);
    }
  }

  lemma {:induction false} ParseQuoted(text: string, rest: string)
    ensures ParseString(EscapeAll(text) + "\"" + rest) == Some((text, rest))
  {
    if text == [] {
      assert (EscapeAll(text) + "\"" + rest)[1..] == rest;
    } else {
      var tail := EscapeAll(text[1..]) + "\"" + rest;
      EscapeFirst(text, rest);
      hide EscapeAll, Escape, ParseChar;
      ParseQuoted(text[1..], rest);
      ParseEscape(text[0], tail);
      StringStepOn(Escape(text[0]), tail, text[0], text[1..], rest);
      assert text == [text[0]] + text[1..];
    }
  }

  lemma EscapeFirst(text: string, rest: string)
    requires text != []
    ensures EscapeAll(text) + "\"" + rest == Escape(text[0]) + (EscapeAll(text[1..]) + "\"" + rest)
  {
    hide Escape;
    assert EscapeAll(text) == Escape(text[0]) + EscapeAll(text[1..]);
  }

  lemma StringStepOn(e: string, tail: string, c: char, cs: string, rest: string)
    requires e != [] && e[0] != '"' && ParseChar(e + tail) == Some((c, tail))
    requires ParseString(tail) == Some((cs, rest))
    ensures ParseString(e + tail) == Some(([c] + cs, rest))
  {
    hide ParseChar;
    assert (e + tail)[0] == e[0];
  }

  lemma {:induction false} NumberLengthOf(t: string, rest: string)
    requires forall i :: 0 <= i < |t| ==> NumberChar(t[i])
    requires rest == [] || !NumberChar(rest[0])
    ensures NumberLength(t + rest) == |t|
  {
    if t == [] {
      assert t + rest == rest;
    } else {
      NumberLengthOf(t[1..], rest);
      assert (t + rest)[1..] == t[1..] + rest;
    }
  }

  // What may follow a value: the end, or a character no number contains.
  predicate Ends(rest: string) {
    rest == [] || !NumberChar(rest[0])
  }

  lemma FirstCharOfValue(j: Json)
    requires ValidNumbers(j)
    ensures Print(j) != [] && Print(j)[0] != ']' && Print(j)[0] != '}'
  {
  }

  // One step of each parser, with the text it meets given.

  lemma ArrayStep(inner: string, items: seq<Json>, rest: string)
    requires inner != [] && inner[0] != ']' && ParseItems(inner) == Some((items, rest))
    ensures ParseValue("[" + inner) == Some((JArray(items), rest))
  {
    assert ("[" + inner)[1..] == inner;
  }

  lemma ObjectStep(inner: string, members: map<string, Json>, rest: string)
    requires inner != [] && inner[0] != '}' && ParseMembers(inner) == Some((members, rest))
    ensures ParseValue("{" + inner) == Some((JObject(members), rest))
  {
    assert ("{" + inner)[1..] == inner;
  }

  lemma ItemsStep(s: string, item: Json, after: string, items: seq<Json>, rest: string)
    requires ParseValue(s) == Some((item, after)) && after != []
    requires if items == [] then after == "]" + rest
             else after[0] == ',' && ParseItems(after[1..]) == Some((items, rest))
    ensures ParseItems(s) == Some(([item] + items, rest))
  {
    if items == [] {
      assert after[1..] == rest && [item] + items == [item];
    }
  }

  lemma MembersStep(s: string, key: string, value: Json, body: string, after: string,
                    members: map<string, Json>, rest: string)
    requires s != [] && s[0] == '"' && ParseString(s[1..]) == Some((key, ":" + body))
    requires ParseValue(body) == Some((value, after)) && after != []
    requires if members == map[] then after == "}" + rest
             else after[0] == ',' && ParseMembers(after[1..]) == Some((members, rest)) && key !in members
    ensures ParseMembers(s) == Some((members[key := value], rest))
  {
    assert (":" + body)[1..] == body;
    if members == map[] {
      assert after[1..] == rest;
    }
  }

  lemma {:induction false} ParsePrinted(j: Json, rest: string)
    requires ValidNumbers(j) && Ends(rest)
    ensures ParseValue(Print(j) + rest) == Some((j, rest))
    decreases j, 2, 0
  {
    match j {
      case JArray(items) => ParsePrintedArray(j, rest);
      case JObject(m) => ParsePrintedObject(j, rest);
      case _ => ParsePrintedScalar(j, rest);
    }
  }

  lemma ParsePrintedScalar(j: Json, rest: string)
    requires ValidNumbers(j) && Ends(rest) && !j.JArray? && !j.JObject?
    ensures ParseValue(Print(j) + rest) == Some((j, rest))
  {
    hide EscapeAll, ParseString, ParseValue, NumberToken;
    match j {
      case JNumber(t) =>
        NumberStep(t, rest);
      case JString(text) =>
        ParseQuoted(text, rest);
        StringStep(EscapeAll(text) + "\"" + rest, text, rest);
        assert Quote(text) + rest == "\"" + (EscapeAll(text) + "\"" + rest);
      case _ =>
        LiteralSteps(rest);
    }
  }

  lemma LiteralSteps(rest: string)
    ensures ParseValue("null" + rest) == Some((JNull, rest))
    ensures ParseValue("true" + rest) == Some((JBool(true), rest))
    ensures ParseValue("false" + rest) == Some((JBool(false), rest))
  {
    assert ("null" + rest)[4..] == rest;
    assert ("true" + rest)[4..] == rest;
    assert ("false" + rest)[5..] == rest;
  }

  lemma NumberStep(t: string, rest: string)
    requires NumberToken(t) && Ends(rest)
    ensures ParseValue(t + rest) == Some((JNumber(t), rest))
  {
    NumberLengthOf(t, rest);
    assert (t + rest)[..|t|] == t && (t + rest)[|t|..] == rest;
  }

  lemma StringStep(inner: string, text: string, rest: string)
    requires ParseString(inner) == Some((text, rest))
    ensures ParseValue("\"" + inner) == Some((JString(text), rest))
  {
    assert ("\"" + inner)[1..] == inner;
  }

  lemma ParsePrintedArray(j: Json, rest: string)
    requires ValidNumbers(j) && Ends(rest) && j.JArray?
    ensures ParseValue(Print(j) + rest) == Some((j, rest))
    decreases j, 1, 0
  {
    var inner := PrintItems(j.items, true) + "]" + rest;
    assert Print(j) == "[" + PrintItems(j.items, true) + "]";
    assert Print(j) + rest == "[" + inner;
    assert forall i :: 0 <= i < |j.items| ==> ValidNumbers(j.items[i]);
    if j.items == [] {
      assert inner == "]" + rest && ("[" + inner)[2..] == rest;
    } else {
      hide ParseItems, ParseValue, Print, PrintItems, ValidNumbers;
      ParseItemsPrinted(j.items, rest);
      var after := ItemsText(j.items, rest);
      FirstCharOfValue(j.items[0]);
      ArrayStep(inner, j.items, rest);
    }
  }

  lemma ParsePrintedObject(j: Json, rest: string)
    requires ValidNumbers(j) && Ends(rest) && j.JObject?
    ensures ParseValue(Print(j) + rest) == Some((j, rest))
    decreases j, 1, 0
  {
    var keys := SortedKeys(j.members.Keys);
    ObjectText(j, keys, rest);
    if j.members == map[] {
      assert ("{" + ("}" + rest))[2..] == rest;
    } else {
      hide ParseMembers, ParseValue, Print, PrintMembers, SortedKeys, ValidNumbers;
      ParseMembersPrinted(j, keys, rest);
      ObjectStep(PrintMembers(j, keys, true) + "}" + rest, j.members, rest);
    }
  }

  lemma ObjectText(j: Json, keys: seq<string>, rest: string)
    requires j.JObject? && keys == SortedKeys(j.members.Keys)
    ensures j.members == map[] <==> keys == []
    ensures j.members == map k | k in keys :: j.members[k]
    ensures Print(j) + rest == "{" + (PrintMembers(j, keys, true) + "}" + rest)
    ensures keys == [] ==> PrintMembers(j, keys, true) + "}" + rest == "}" + rest
    ensures keys != [] ==> PrintMembers(j, keys, true) != [] && PrintMembers(j, keys, true)[0] == '"'
  {
    var text := PrintMembers(j, keys, true);
    assert Print(j) == "{" + text + "}";
    hide Print, SortedKeys;
    if keys == [] {
      assert j.members.Keys == {};
    } else {
      assert keys[0] in j.members;
      hide PrintMembers;
      var after := MembersText(j, keys, rest);
      StartsWithQuote(text, rest);
    }
    hide PrintMembers;
    Braced(text, rest);
  }

  lemma Braced(text: string, rest: string)
    ensures "{" + text + "}" + rest == "{" + (text + "}" + rest)
    ensures text == "" ==> text + "}" + rest == "}" + rest
  {
  }

  lemma StartsWithQuote(text: string, rest: string)
    requires (text + "}" + rest)[0] == '"'
    ensures text != [] && text[0] == '"'
  {
  }

  lemma {:induction false} ParseItemsPrinted(items: seq<Json>, rest: string)
    requires items != [] && forall i :: 0 <= i < |items| ==> ValidNumbers(items[i])
    ensures ParseItems(PrintItems(items, true) + "]" + rest) == Some((items, rest))
    decreases items, 0, 0
  {
    hide ParseItems, ParseValue, Print, PrintItems, ValidNumbers;
    var after := ItemsText(items, rest);
    if |items| > 1 {
      ParseItemsPrinted(items[1..], rest);
    }
    ParsePrinted(items[0], after);
    ItemsStep(PrintItems(items, true) + "]" + rest, items[0], after, items[1..], rest);
  }

  // The text of a list is its first item, then the text of the others after a comma, or the end.
  lemma ItemsText(items: seq<Json>, rest: string) returns (after: string)
    requires items != []
    ensures PrintItems(items, true) + "]" + rest == Print(items[0]) + after
    ensures after != [] && !NumberChar(after[0])
    ensures if |items| == 1 then after == "]" + rest
            else after[0] == ',' && after[1..] == PrintItems(items[1..], true) + "]" + rest
    ensures items == [items[0]] + items[1..]
  {
    hide Print;
    after := PrintItems(items[1..], false) + "]" + rest;
    if |items| > 1 {
      LeadingCommaOfItems(items[1..]);
    }
  }

  lemma LeadingCommaOfItems(items: seq<Json>)
    requires items != []
    ensures PrintItems(items, false) == "," + PrintItems(items, true)
  {
  }

  lemma {:induction false} ParseMembersPrinted(j: Json, keys: seq<string>, rest: string)
    requires j.JObject? && ValidNumbers(j) && keys != [] && Distinct(keys)
    requires forall k :: k in keys ==> k in j.members
    ensures ParseMembers(PrintMembers(j, keys, true) + "}" + rest)
            == Some((map k | k in keys :: j.members[k], rest))
    decreases j, 0, |keys|
  {
    var key, value := keys[0], j.members[keys[0]];
    var m := map k | k in keys[1..] :: j.members[k];
    assert ValidNumbers(value);
    hide ParseMembers, ParseValue, Print, PrintMembers, ParseString, EscapeAll, ValidNumbers;
    var after := MembersText(j, keys, rest);
    if |keys| > 1 {
      assert keys[1] in m;
      ParseMembersPrinted(j, keys[1..], rest);
    } else {
      assert m == map[];
    }
    ParseQuoted(key, ":" + (Print(value) + after));
    ParsePrinted(value, after);
    MembersStep(PrintMembers(j, keys, true) + "}" + rest, key, value, Print(value) + after, after, m, rest);
    assert m[key := value] == map k | k in keys :: j.members[k];
  }

  lemma MembersText(j: Json, keys: seq<string>, rest: string) returns (after: string)
    requires j.JObject? && keys != [] && forall k :: k in keys ==> k in j.members
    ensures var s := PrintMembers(j, keys, true) + "}" + rest;
            s != [] && s[0] == '"'
            && s[1..] == EscapeAll(keys[0]) + "\"" + (":" + (Print(j.members[keys[0]]) + after))
    ensures after != [] && !NumberChar(after[0])
    ensures if |keys| == 1 then after == "}" + rest
            else after[0] == ',' && after[1..] == PrintMembers(j, keys[1..], true) + "}" + rest
  {
    var others := PrintMembers(j, keys[1..], false) + "}";
    after := others + rest;
    hide PrintMembers, Entry, Print, EscapeAll;
    FirstMember(j, keys, rest);
    EntryThen(j, keys[0], others, rest, PrintMembers(j, keys, true) + "}" + rest);
    if |keys| == 1 {
      LastMember(j, keys);
    } else {
      LeadingCommaOfMembers(j, keys[1..]);
      CommaThen(PrintMembers(j, keys[1..], true), rest);
    }
  }

  lemma LastMember(j: Json, keys: seq<string>)
    requires j.JObject? && |keys| == 1 && forall k :: k in keys ==> k in j.members
    ensures PrintMembers(j, keys[1..], false) == ""
  {
  }

  lemma CommaThen(text: string, rest: string)
    ensures ("," + text) + "}" + rest == "," + (text + "}" + rest)
  {
  }

  lemma FirstMember(j: Json, keys: seq<string>, rest: string)
    requires j.JObject? && keys != [] && forall k :: k in keys ==> k in j.members
    ensures PrintMembers(j, keys, true) + "}" + rest
            == Entry(j, keys[0]) + (PrintMembers(j, keys[1..], false) + "}") + rest
  {
    hide Entry;
    assert PrintMembers(j, keys, true) == Entry(j, keys[0]) + PrintMembers(j, keys[1..], false);
  }

  lemma LeadingCommaOfMembers(j: Json, keys: seq<string>)
    requires keys != [] && j.JObject? && forall k :: k in keys ==> k in j.members
    ensures PrintMembers(j, keys, false) == "," + PrintMembers(j, keys, true)
  {
    hide Entry;
    var first, others := Entry(j, keys[0]), PrintMembers(j, keys[1..], false);
    assert "" + first == first;
    assert ("," + first) + others == "," + (first + others);
  }

  lemma EntryThen(j: Json, key: string, more: string, rest: string, s: string)
    requires j.JObject? && key in j.members
    requires s == Entry(j, key) + more + rest
    ensures s != [] && s[0] == '"'
    ensures s[1..] == EscapeAll(key) + "\"" + (":" + (Print(j.members[key]) + (more + rest)))
  {
    hide Print, EscapeAll;
    assert s == "\"" + (EscapeAll(key) + "\"" + (":" + (Print(j.members[key]) + (more + rest))));
  }

  /** Reading back what was printed gives the contents that were printed. */
  lemma RoundTrip(j: Json)
    requires ValidNumbers(j)
    ensures Parse(Print(j)) == Some(j)
  {
    ParsePrinted(j, []);
    assert Print(j) + [] == Print(j);
  }

  /** The signed bytes of two values are equal exactly when their contents are: the bytes are
      unambiguous, and member order at any level leaves no trace in them. */
  lemma BytesDetermineContents(u: Value, v: Value)
    requires WellFormed(u) && WellFormed(v)
    ensures Encode(Print(Meaning(u))) == Encode(Print(Meaning(v))) <==> Meaning(u) == Meaning(v)
  {
    if Encode(Print(Meaning(u))) == Encode(Print(Meaning(v))) {
      EncodeInjective(Print(Meaning(u)), Print(Meaning(v)));
      WellFormedHasValidNumbers(u);
      WellFormedHasValidNumbers(v);
      RoundTrip(Meaning(u));
      RoundTrip(Meaning(v));
    }
  }

  /** In particular, listing the members of an object in another order changes nothing. */
  lemma MemberOrderIsIrrelevant(u: Value, v: Value)
    requires u.Object? && v.Object? && WellFormed(u) && WellFormed(v)
    requires multiset(u.members) == multiset(v.members)
    ensures Encode(Print(Meaning(u))) == Encode(Print(Meaning(v)))
  {
    var mu, mv := MeaningMembers(u, |u.members|), MeaningMembers(v, |v.members|);
    SameMembers(u, v);
    SameMembers(v, u);
    assert mu == mv;
  }

  lemma SameMembers(u: Value, v: Value)
    requires u.Object? && v.Object? && DistinctKeys(u.members) && DistinctKeys(v.members)
    requires multiset(u.members) == multiset(v.members)
    ensures forall k :: k in MeaningMembers(u, |u.members|) ==>
              && k in MeaningMembers(v, |v.members|)
              && MeaningMembers(u, |u.members|)[k] == MeaningMembers(v, |v.members|)[k]
  {
    var mu, mv := MeaningMembers(u, |u.members|), MeaningMembers(v, |v.members|);
    MemberKeys(u, |u.members|);
    forall k | k in mu ensures k in mv && mu[k] == mv[k] {
      var i :| 0 <= i < |u.members| && u.members[i].0 == k;
      MemberMeaning(u, |u.members|, i);
      assert u.members[i] in multiset(v.members);
      var n :| 0 <= n < |v.members| && v.members[n] == u.members[i];
      MemberMeaning(v, |v.members|, n);
    }
  }

  /** So two values are signed alike exactly when they are the same but for the order in which
      their objects list their members. */
  lemma SignedAlikeIffEquivalent(u: Value, v: Value)
    requires WellFormed(u) && WellFormed(v)
    ensures Encode(Print(Meaning(u))) == Encode(Print(Meaning(v))) <==> Equivalent(u, v)
  {
    BytesDetermineContents(u, v);
    SameContentsIffEquivalent(u, v);
  }
}
