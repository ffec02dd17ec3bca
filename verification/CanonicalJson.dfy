/** The canonical JSON that manifests are signed over: the printer, a parser for its output,
    and the proof that the signed bytes determine the contents and nothing but the contents. */
module CanonicalJson {
  import opened Utf8
  import opened Wrappers

  /** A value as the printer receives it. An object is a list of members in whatever order the
      map iterates; a number is the token its `to_string` gives. */
  datatype Value =
    | Null
    | Bool(b: bool)
    | Number(token: string)
    | Str(s: string)
    | Array(items: seq<Value>)
    | Object(members: seq<(string, Value)>)

  /** The contents of a value: an object is a map, so member order is gone. */
  datatype Json =
    | JNull
    | JBool(b: bool)
    | JNumber(token: string)
    | JString(s: string)
    | JArray(items: seq<Json>)
    | JObject(members: map<string, Json>)

  predicate NumberChar(c: char) {
    '0' <= c <= '9' || c == '-' || c == '+' || c == '.' || c == 'e' || c == 'E'
  }

  predicate NumberToken(t: string) {
    t != [] && forall i :: 0 <= i < |t| ==> NumberChar(t[i])
  }

  /** What the JSON library's types guarantee: number tokens, and no key twice in one object. */
  ghost predicate WellFormed(v: Value) {
    match v
    case Number(t) => NumberToken(t)
    case Array(items) => forall i :: 0 <= i < |items| ==> WellFormed(items[i])
    case Object(ms) =>
      && DistinctKeys(ms)
      && forall i :: 0 <= i < |ms| ==> WellFormed(ms[i].1)
    case _ => true
  }

  ghost predicate DistinctKeys(ms: seq<(string, Value)>) {
    forall i, j :: 0 <= i < j < |ms| ==> ms[i].0 != ms[j].0
  }

  ghost function Meaning(v: Value): Json
    decreases v, 0
  {
    match v
    case Null => JNull
    case Bool(b) => JBool(b)
    case Number(t) => JNumber(t)
    case Str(s) => JString(s)
    case Array(items) => JArray(seq(|items|, i requires 0 <= i < |items| => Meaning(items[i])))
    case Object(ms) => JObject(MeaningMembers(v, |ms|))
  }

  // The map of the first `n` members.
  ghost function MeaningMembers(v: Value, n: nat): (r: map<string, Json>)
    requires v.Object? && n <= |v.members|
    decreases v, 0, n
  {
    if n == 0 then map[]
    else MeaningMembers(v, n - 1)[v.members[n - 1].0 := Meaning(v.members[n - 1].1)]
  }

  lemma {:induction false} MemberKeys(v: Value, n: nat)
    requires v.Object? && n <= |v.members|
    ensures forall i :: 0 <= i < n ==> v.members[i].0 in MeaningMembers(v, n)
    ensures forall k :: k in MeaningMembers(v, n) ==> exists i :: 0 <= i < n && v.members[i].0 == k
  {
    if n > 0 {
      MemberKeys(v, n - 1);
    }
  }

  lemma {:induction false} MemberMeaning(v: Value, n: nat, i: nat)
    requires v.Object? && i < n <= |v.members| && DistinctKeys(v.members)
    ensures v.members[i].0 in MeaningMembers(v, n)
    ensures MeaningMembers(v, n)[v.members[i].0] == Meaning(v.members[i].1)
  {
    if i < n - 1 {
      MemberMeaning(v, n - 1, i);
    }
  }

  ghost predicate ValidNumbers(j: Json) {
    match j
    case JNumber(t) => NumberToken(t)
    case JArray(items) => forall i :: 0 <= i < |items| ==> ValidNumbers(items[i])
    case JObject(m) => forall k :: k in m ==> ValidNumbers(m[k])
    case _ => true
  }

  lemma {:induction false} WellFormedHasValidNumbers(v: Value)
    requires WellFormed(v)
    ensures ValidNumbers(Meaning(v))
  {
    match v {
      case Array(items) =>
        forall i | 0 <= i < |items| ensures ValidNumbers(Meaning(items[i])) {
          WellFormedHasValidNumbers(items[i]);
        }
      case Object(ms) =>
        var m := MeaningMembers(v, |ms|);
        MemberKeys(v, |ms|);
        forall k | k in m ensures ValidNumbers(m[k]) {
          var i :| 0 <= i < |ms| && ms[i].0 == k;
          MemberMeaning(v, |ms|, i);
          WellFormedHasValidNumbers(ms[i].1);
        }
      case _ =>
    }
  }

  // ---- key order: strings compare by their bytes ----

  predicate BytesLeq(s: seq<Byte>, t: seq<Byte>) {
    s == [] || (t != [] && (s[0] < t[0] || (s[0] == t[0] && BytesLeq(s[1..], t[1..]))))
  }

  predicate Leq(s: string, t: string) {
    BytesLeq(Encode(s), Encode(t))
  }

  lemma {:induction false} BytesOrder(s: seq<Byte>, t: seq<Byte>, u: seq<Byte>)
    ensures BytesLeq(s, t) || BytesLeq(t, s)
    ensures BytesLeq(s, t) && BytesLeq(t, s) ==> s == t
    ensures BytesLeq(s, t) && BytesLeq(t, u) ==> BytesLeq(s, u)
  {
    if s != [] && t != [] {
      BytesOrder(s[1..], t[1..], if u == [] then [] else u[1..]);
      assert s == [s[0]] + s[1..] && t == [t[0]] + t[1..];
    }
  }

  lemma LeqOrder(s: string, t: string, u: string)
    ensures Leq(s, t) || Leq(t, s)
    ensures Leq(s, t) && Leq(t, s) ==> s == t
    ensures Leq(s, t) && Leq(t, u) ==> Leq(s, u)
  {
    BytesOrder(Encode(s), Encode(t), Encode(u));
    if Encode(s) == Encode(t) {
      EncodeInjective(s, t);
    }
  }

  // ---- the same order, by code points ----

  /** `s` begins `t`, or has the smaller character where they first differ. */
  ghost predicate AtMost(s: string, t: string) {
    s <= t || exists k: nat :: SmallerAt(s, t, k)
  }

  // They first differ at `k`, where `s` has the smaller character.
  ghost predicate SmallerAt(s: string, t: string, k: nat) {
    k < |s| && k < |t| && s[..k] == t[..k] && s[k] < t[k]
  }

  ghost predicate Ascending(ks: seq<string>) {
    forall i, j :: 0 <= i < j < |ks| ==> AtMost(ks[i], ks[j])
  }

  lemma {:induction false} CommonPrefix(p: seq<Byte>, x: seq<Byte>, y: seq<Byte>)
    ensures BytesLeq(p + x, p + y) <==> BytesLeq(x, y)
  {
    if p == [] {
      assert p + x == x && p + y == y;
    } else {
      CommonPrefix(p[1..], x, y);
      assert (p + x)[1..] == p[1..] + x && (p + y)[1..] == p[1..] + y;
    }
  }

  lemma FirstDifference(p: seq<Byte>, a: Byte, b: Byte, x: seq<Byte>, y: seq<Byte>)
    requires a < b
    ensures BytesLeq(p + ([a] + x), p + ([b] + y)) && !BytesLeq(p + ([b] + y), p + ([a] + x))
  {
    CommonPrefix(p, [a] + x, [b] + y);
    CommonPrefix(p, [b] + y, [a] + x);
  }

  // Where the encodings of two characters first differ.
  lemma CharDifference(c: char, d: char) returns (i: nat)
    requires c < d
    ensures var x, y := EncodeChar(c), EncodeChar(d);
            i < |x| && i < |y| && x[..i] == y[..i] && x[i] < y[i]
  {
    var x, y := EncodeChar(c), EncodeChar(d);
    hide EncodeChar;
    if |x| == |y| {
      if x == y {
        CharOfBytes(c, d);
      }
      i := FirstUnequal(x, y);
    } else {
      i := 0;
    }
    LargerAtDifference(c, d, i);
  }

  lemma {:induction false} FirstUnequal(x: seq<Byte>, y: seq<Byte>) returns (i: nat)
    requires |x| == |y| && x != y
    ensures i < |x| && x[..i] == y[..i] && x[i] != y[i]
  {
    if x[0] != y[0] {
      i := 0;
    } else {
      assert x == [x[0]] + x[1..] && y == [y[0]] + y[1..];
      i := FirstUnequal(x[1..], y[1..]);
      assert x[..i + 1] == [x[0]] + x[1..][..i] && y[..i + 1] == [y[0]] + y[1..][..i];
      i := i + 1;
    }
  }

  lemma LargerAtDifference(c: char, d: char, i: nat)
    requires c < d
    requires var x, y := EncodeChar(c), EncodeChar(d);
             |x| == |y| ==> i < |x| && x[..i] == y[..i] && x[i] != y[i]
    requires |EncodeChar(c)| != |EncodeChar(d)| ==> i == 0
    ensures i < |EncodeChar(c)| && i < |EncodeChar(d)| && EncodeChar(c)[i] < EncodeChar(d)[i]
  {
    WidthAndFirstByte(c);
    WidthAndFirstByte(d);
    var x, y := EncodeChar(c), EncodeChar(d);
    if |x| == |y| {
      DecodeBytes(c);
      DecodeBytes(d);
      hide EncodeChar;
      assert i > 0 ==> x[..i][0] == x[0] && y[..i][0] == y[0];
      assert i > 1 ==> x[..i][1] == x[1] && y[..i][1] == y[1];
      assert i > 2 ==> x[..i][2] == x[2] && y[..i][2] == y[2];
    }
  }

  lemma CharOrder(c: char, d: char, x: seq<Byte>, y: seq<Byte>)
    requires c < d
    ensures BytesLeq(EncodeChar(c) + x, EncodeChar(d) + y) && !BytesLeq(EncodeChar(d) + y, EncodeChar(c) + x)
  {
    var i := CharDifference(c, d);
    var u, v := EncodeChar(c), EncodeChar(d);
    hide EncodeChar, BytesLeq;
    FirstDifference(u[..i], u[i], v[i], u[i + 1..] + x, v[i + 1..] + y);
    SplitAt(u, i, x);
    SplitAt(v, i, y);
  }

  lemma SplitAt(u: seq<Byte>, i: nat, x: seq<Byte>)
    requires i < |u|
    ensures u + x == u[..i] + ([u[i]] + (u[i + 1..] + x))
  {
  }

  /** Comparing bytes is comparing code points. */
  lemma {:induction false} LeqIsCodePointOrder(s: string, t: string)
    ensures Leq(s, t) <==> AtMost(s, t)
  {
    if s == [] {
    } else if t == [] {
      EncodeLength(s);
      ByteLenAtLeast(s);
    } else {
      EncodeFirst(s);
      EncodeFirst(t);
      AtMostFirst(s, t);
      hide EncodeChar, AtMost, Encode;
      if s[0] < t[0] {
        CharOrder(s[0], t[0], Encode(s[1..]), Encode(t[1..]));
      } else if t[0] < s[0] {
        CharOrder(t[0], s[0], Encode(t[1..]), Encode(s[1..]));
      } else {
        CommonPrefix(EncodeChar(s[0]), Encode(s[1..]), Encode(t[1..]));
        LeqIsCodePointOrder(s[1..], t[1..]);
      }
    }
  }

  lemma AtMostFirst(s: string, t: string)
    requires s != [] && t != []
    ensures AtMost(s, t) <==> s[0] < t[0] || (s[0] == t[0] && AtMost(s[1..], t[1..]))
  {
    assert s == [s[0]] + s[1..] && t == [t[0]] + t[1..];
    assert s[..0] == t[..0];
    forall k: nat | k > 0 && k < |s| && k < |t|
      ensures SmallerAt(s, t, k) <==> s[0] == t[0] && SmallerAt(s[1..], t[1..], k - 1)
    {
      SmallerAtRest(s, t, k);
    }
    if s[0] == t[0] && AtMost(s[1..], t[1..]) && !(s <= t) {
      var k: nat :| SmallerAt(s[1..], t[1..], k);
      assert SmallerAt(s, t, k + 1);
    }
    assert s[0] < t[0] ==> SmallerAt(s, t, 0);
  }

  lemma SmallerAtRest(s: string, t: string, k: nat)
    requires 0 < k < |s| && k < |t|
    ensures SmallerAt(s, t, k) <==> s[0] == t[0] && SmallerAt(s[1..], t[1..], k - 1)
  {
    if s[..k] == t[..k] {
      assert s[0] == s[..k][0] == t[..k][0];
    }
    assert s[..k] == [s[0]] + s[1..][..k - 1] && t[..k] == [t[0]] + t[1..][..k - 1];
  }

  ghost predicate IsLeast(k: string, keys: set<string>) {
    k in keys && forall x :: x in keys ==> Leq(k, x)
  }

  lemma {:induction false} LeastExists(keys: set<string>)
    requires keys != {}
    ensures exists k :: IsLeast(k, keys)
  {
    var k :| k in keys;
    LeqOrder(k, k, k);
    if keys == {k} {
      assert IsLeast(k, keys);
    } else {
      LeastExists(keys - {k});
      var k' :| IsLeast(k', keys - {k});
      LeqOrder(k, k', k);
      var least := if Leq(k, k') then k else k';
      forall x | x in keys ensures Leq(least, x) {
        LeqOrder(k, k', x);
      }
      assert IsLeast(least, keys);
    }
  }

  ghost function Least(keys: set<string>): (k: string)
    requires keys != {}
    ensures IsLeast(k, keys)
  {
    LeastExists(keys);
    var k :| IsLeast(k, keys); k
  }

  ghost function SortedKeys(keys: set<string>): (r: seq<string>)
    ensures forall k :: k in r <==> k in keys
    ensures forall i, j :: 0 <= i < j < |r| ==> r[i] != r[j]
  {
    if keys == {} then []
    else
      var k := Least(keys);
      [k] + SortedKeys(keys - {k})
  }

  ghost predicate Sorted(ks: seq<string>) {
    forall i, j :: 0 <= i < j < |ks| ==> Leq(ks[i], ks[j])
  }

  ghost predicate Distinct(ks: seq<string>) {
    forall i, j :: 0 <= i < j < |ks| ==> ks[i] != ks[j]
  }

  /** There is only one way to list a set of keys in order. */
  lemma {:induction false} SortedListIsUnique(ks: seq<string>, keys: set<string>)
    requires Sorted(ks) && Distinct(ks)
    requires forall k :: k in ks <==> k in keys
    ensures ks == SortedKeys(keys)
  {
    if ks == [] {
      assert keys == {};
    } else {
      assert ks[0] in keys;
      var k := Least(keys);
      LeqOrder(k, ks[0], k);
      var i :| 0 <= i < |ks| && ks[i] == k;
      assert i == 0;
      forall x ensures x in ks[1..] <==> x in keys - {k} {
        assert x in ks[1..] ==> x != ks[0];
      }
      SortedListIsUnique(ks[1..], keys - {k});
    }
  }

  // ---- the printer, as text ----

  function HexDigit(n: nat): char
    requires n < 16
  {
    if n < 10 then '0' + (n as char) else 'a' + ((n - 10) as char)
  }

  function Escape(c: char): (e: string)
    ensures e != []
  {
    if c == '"' then "\\\""
    else if c == '\\' then "\\\\"
    else if c == '\n' then "\\n"
    else if c == '\r' then "\\r"
    else if c == '\t' then "\\t"
    else if c < ' ' then "\\u00" + [HexDigit(c as int / 16), HexDigit(c as int % 16)]
    else [c]
  }

  function EscapeAll(s: string): string {
    if s == [] then [] else Escape(s[0]) + EscapeAll(s[1..])
  }

  function Quote(s: string): string {
    "\"" + EscapeAll(s) + "\""
  }

  ghost function Print(j: Json): string
    decreases j, 1, 0
  {
    match j
    case JNull => "null"
    case JBool(b) => if b then "true" else "false"
    case JNumber(t) => t
    case JString(s) => Quote(s)
    case JArray(items) => "[" + PrintItems(items, true) + "]"
    case JObject(m) => "{" + PrintMembers(j, SortedKeys(m.Keys), true) + "}"
  }

  ghost function PrintItems(items: seq<Json>, first: bool): string
    decreases items, 0, 0
  {
    if items == [] then []
    else (if first then "" else ",") + Print(items[0]) + PrintItems(items[1..], false)
  }

  ghost function PrintMembers(j: Json, keys: seq<string>, first: bool): string
    requires j.JObject? && forall k :: k in keys ==> k in j.members
    decreases j, 0, |keys|
  {
    if keys == [] then []
    else (if first then "" else ",") + Entry(j, keys[0]) + PrintMembers(j, keys[1..], false)
  }

  ghost function Entry(j: Json, key: string): string
    requires j.JObject? && key in j.members
    decreases j, 0, 0
  {
    Quote(key) + ":" + Print(j.members[key])
  }

  // ---- the order members are printed in ----

  lemma AscendingCons(k: string, rest: seq<string>)
    requires Ascending(rest) && forall x :: x in rest ==> AtMost(k, x)
    ensures Ascending([k] + rest)
  {
    hide AtMost;
  }

  /** The sorted keys ascend by code points. */
  lemma {:induction false} SortedKeysAscend(keys: set<string>)
    ensures Ascending(SortedKeys(keys))
  {
    if keys != {} {
      var k := Least(keys);
      var rest := SortedKeys(keys - {k});
      SortedKeysAscend(keys - {k});
      forall x | x in rest ensures AtMost(k, x) {
        LeastIsAtMost(keys, x);
      }
      AscendingCons(k, rest);
      hide AtMost, Ascending, IsLeast, Least;
    }
  }

  lemma LeastIsAtMost(keys: set<string>, k: string)
    requires k in keys
    ensures AtMost(Least(keys), k)
  {
    LeqIsCodePointOrder(Least(keys), k);
  }

  // The text before the first of these members, between them and after.
  lemma {:induction false} MembersAround(j: Json, keys: seq<string>, m: nat, first: bool) returns (before: string, after: string)
    requires j.JObject? && (forall k :: k in keys ==> k in j.members) && m < |keys|
    ensures PrintMembers(j, keys, first) == before + Entry(j, keys[m]) + after
    ensures after == PrintMembers(j, keys[m + 1..], false)
    decreases m
  {
    hide Entry;
    var comma := if first then "" else ",";
    if m == 0 {
      before, after := comma, PrintMembers(j, keys[1..], false);
    } else {
      var b, a := MembersAround(j, keys[1..], m - 1, false);
      before, after := comma + Entry(j, keys[0]) + b, a;
      assert keys[1..][m..] == keys[m + 1..];
      assert before + Entry(j, keys[m]) + after == comma + Entry(j, keys[0]) + (b + Entry(j, keys[m]) + a);
    }
  }

  /** Of two members of an object, the one whose key is smaller by code points is printed first. */
  lemma MembersPrintInCodePointOrder(j: Json, a: string, b: string) returns (before: string, between: string, after: string)
    requires j.JObject? && a in j.members && b in j.members && a != b && AtMost(a, b)
    ensures Print(j) == before + Entry(j, a) + between + Entry(j, b) + after
  {
    var keys := SortedKeys(j.members.Keys);
    assert Print(j) == "{" + PrintMembers(j, keys, true) + "}";
    hide Print, PrintMembers, Entry, SortedKeys, AtMost;
    var m, n := Positions(j.members.Keys, a, b);
    var p, r, t := TwoMembers(j, keys, m, n);
    before, between, after := "{" + p, r, t + "}";
    FiveTexts(p, Entry(j, a), r, Entry(j, b), t);
  }

  lemma TwoMembers(j: Json, keys: seq<string>, m: nat, n: nat) returns (p: string, r: string, t: string)
    requires j.JObject? && (forall k :: k in keys ==> k in j.members) && m < n < |keys|
    ensures PrintMembers(j, keys, true) == p + Entry(j, keys[m]) + (r + Entry(j, keys[n]) + t)
  {
    hide PrintMembers, Entry;
    var rest := keys[m + 1..];
    assert rest[n - m - 1] == keys[n];
    var q;
    p, q := MembersAround(j, keys, m, true);
    r, t := MembersAround(j, rest, n - m - 1, false);
  }

  lemma Positions(keys: set<string>, a: string, b: string) returns (m: nat, n: nat)
    requires a in keys && b in keys && a != b && AtMost(a, b)
    ensures m < n < |SortedKeys(keys)| && SortedKeys(keys)[m] == a && SortedKeys(keys)[n] == b
  {
    var sorted := SortedKeys(keys);
    hide SortedKeys, AtMost, Leq;
    assert a in sorted && b in sorted;
    m :| m < |sorted| && sorted[m] == a;
    n :| n < |sorted| && sorted[n] == b;
    if n < m {
      SortedKeysAscend(keys);
      LeqIsCodePointOrder(a, b);
      LeqIsCodePointOrder(b, a);
      LeqOrder(a, b, a);
    }
  }

  lemma FiveTexts(p: string, a: string, r: string, b: string, t: string)
    ensures "{" + (p + a + (r + b + t)) + "}" == ("{" + p) + a + r + b + (t + "}")
  {
  }

  // ---- what counts as the same contents ----

  /** The same value but for the order in which objects list their members. */
  ghost predicate Equivalent(u: Value, v: Value)
    decreases u, 1
  {
    match u
    case Array(xs) => v.Array? && |xs| == |v.items| && forall i :: 0 <= i < |xs| ==> Equivalent(xs[i], v.items[i])
    case Object(ms) =>
      && v.Object? && |ms| == |v.members|
      && forall i: nat :: i < |ms| ==> HasMember(u, i, v)
    case _ => u == v
  }

  // Member `i` of `u` is also one of `v`.
  ghost predicate HasMember(u: Value, i: nat, v: Value)
    requires u.Object? && i < |u.members| && v.Object?
    decreases u, 0
  {
    exists k :: 0 <= k < |v.members| && v.members[k].0 == u.members[i].0 && Equivalent(u.members[i].1, v.members[k].1)
  }

  lemma {:induction false} MembersCount(v: Value, n: nat)
    requires v.Object? && n <= |v.members| && DistinctKeys(v.members)
    ensures |MeaningMembers(v, n)| == n
  {
    if n > 0 {
      MembersCount(v, n - 1);
      MemberKeys(v, n - 1);
      assert v.members[n - 1].0 !in MeaningMembers(v, n - 1);
      assert MeaningMembers(v, n).Keys == MeaningMembers(v, n - 1).Keys + {v.members[n - 1].0};
    }
  }

  lemma {:induction false} SubsetOfSameSize<T>(s: set<T>, t: set<T>)
    requires s <= t && |s| == |t|
    ensures s == t
  {
    if s != {} {
      var x :| x in s;
      SubsetOfSameSize(s - {x}, t - {x});
    }
  }

  /** Two values have the same contents exactly when they are the same but for member order. */
  lemma {:induction false} SameContentsIffEquivalent(u: Value, v: Value)
    requires WellFormed(u) && WellFormed(v)
    ensures Meaning(u) == Meaning(v) <==> Equivalent(u, v)
    decreases u
  {
    if u.Array? && v.Array? {
      var x, y := Meaning(u).items, Meaning(v).items;
      forall i | 0 <= i < |u.items| && i < |v.items|
        ensures x[i] == y[i] <==> Equivalent(u.items[i], v.items[i])
      {
        SameContentsIffEquivalent(u.items[i], v.items[i]);
      }
      if Equivalent(u, v) {
        assert x == y;
      }
    } else if u.Object? && v.Object? {
      var y := MeaningMembers(v, |v.members|);
      forall i: nat | i < |u.members|
        ensures HasMember(u, i, v) <==> u.members[i].0 in y && y[u.members[i].0] == Meaning(u.members[i].1)
      {
        forall k | 0 <= k < |v.members|
          ensures Equivalent(u.members[i].1, v.members[k].1) <==> Meaning(u.members[i].1) == Meaning(v.members[k].1)
        {
          SameContentsIffEquivalent(u.members[i].1, v.members[k].1);
        }
        MemberIff(v, u.members[i].0, Meaning(u.members[i].1));
      }
      SameObjectIff(u, v);
      hide Meaning, MeaningMembers, HasMember;
    }
  }

  lemma MemberIff(v: Value, name: string, j: Json)
    requires v.Object? && DistinctKeys(v.members)
    ensures (exists k :: 0 <= k < |v.members| && v.members[k].0 == name && Meaning(v.members[k].1) == j)
            <==> name in MeaningMembers(v, |v.members|) && MeaningMembers(v, |v.members|)[name] == j
  {
    MemberKeys(v, |v.members|);
    forall k | 0 <= k < |v.members|
      ensures v.members[k].0 in MeaningMembers(v, |v.members|)
      ensures MeaningMembers(v, |v.members|)[v.members[k].0] == Meaning(v.members[k].1)
    {
      MemberMeaning(v, |v.members|, k);
    }
    hide Meaning, MeaningMembers;
  }

  lemma SameObjectIff(u: Value, v: Value)
    requires u.Object? && v.Object? && DistinctKeys(u.members) && DistinctKeys(v.members)
    ensures var y := MeaningMembers(v, |v.members|);
            Meaning(u) == Meaning(v) <==>
            |u.members| == |v.members|
            && forall i :: 0 <= i < |u.members| ==> u.members[i].0 in y && y[u.members[i].0] == Meaning(u.members[i].1)
  {
    var x, y := MeaningMembers(u, |u.members|), MeaningMembers(v, |v.members|);
    assert Meaning(u) == JObject(x) && Meaning(v) == JObject(y);
    hide Meaning, MeaningMembers;
    MembersCount(u, |u.members|);
    MembersCount(v, |v.members|);
    MemberKeys(u, |u.members|);
    forall i | 0 <= i < |u.members| ensures u.members[i].0 in x && x[u.members[i].0] == Meaning(u.members[i].1) {
      MemberMeaning(u, |u.members|, i);
    }
    if |x| == |y| && forall i :: 0 <= i < |u.members| ==> u.members[i].0 in y && y[u.members[i].0] == x[u.members[i].0] {
      SubsetOfSameSize(x.Keys, y.Keys);
      assert x == y;
    }
  }

  // ---- escapes, as section 7 of RFC 8259 allows them ----

  /** Which escape is chosen: none unless one is needed, the two-character form for five
      characters, and lower-case hexadecimal for the other control characters. */
  lemma EscapesChosen(c: char)
    ensures |Escape(c)| == 1 <==> c >= ' ' && c != '"' && c != '\\'
    ensures |Escape(c)| == 2 <==> c in {'"', '\\', '\n', '\r', '\t'}
    ensures |Escape(c)| in {1, 2, 6}
    ensures |Escape(c)| == 1 ==> Escape(c) == [c]
    ensures |Escape(c)| == 6 ==> forall i :: 0 <= i < 6 ==> !('A' <= Escape(c)[i] <= 'F')
  {
  }
}
