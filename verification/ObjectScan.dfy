/** Where the text of a JSON object can begin. The tool fingerprint runs names and objects
    together without separators; what keeps that readable is that no object's canonical text is
    a proper suffix of another's. The proof follows a scanner over the text that knows whether it
    is inside a string and how deep the brackets are. */
module ObjectScan {
  import opened CanonicalJson

  datatype Scan = Start | Out(depth: nat) | In(depth: nat) | Esc(depth: nat) | Done | Bad

  function Step(q: Scan, c: char): Scan {
    match q
    case Start => if c == '{' then Out(1) else Bad
    case Out(d) =>
      if c == '"' then In(d)
      else if c == '{' || c == '[' then Out(d + 1)
      else if c == '}' || c == ']' then (if d <= 1 then Done else Out(d - 1))
      else if c == '\\' then Bad
      else q
    case In(d) => if c == '"' then Out(d) else if c == '\\' then Esc(d) else q
    case Esc(d) => if c == '{' then Bad else In(d)
    case Done => Bad
    case Bad => Bad
  }

  function Run(q: Scan, s: string): Scan
    decreases |s|
  {
    if s == [] then q else Run(Step(q, s[0]), s[1..])
  }

  lemma {:induction false} RunConcat(q: Scan, s: string, t: string)
    ensures Run(q, s + t) == Run(Run(q, s), t)
    decreases |s|
  {
    if s == [] {
      assert s + t == t;
    } else {
      RunConcat(Step(q, s[0]), s[1..], t);
      assert (s + t)[1..] == s[1..] + t;
    }
  }

  lemma {:induction false} RunBad(s: string)
    ensures Run(Bad, s) == Bad
  {
    if s != [] {
      RunBad(s[1..]);
    }
  }

  // Characters that never change the scanner's state outside a string.
  lemma {:induction false} RunPlain(d: nat, s: string)
    requires forall i :: 0 <= i < |s| ==>
               s[i] != '"' && s[i] != '\\' && s[i] !in {'{', '[', '}', ']'}
    ensures Run(Out(d), s) == Out(d)
  {
    if s != [] {
      RunPlain(d, s[1..]);
    }
  }

  lemma RunEscape(d: nat, c: char)
    ensures Run(In(d), Escape(c)) == In(d)
  {
    var e := Escape(c);
    if |e| == 1 {
      assert e[1..] == [];
    } else if |e| == 2 {
      assert e == [e[0]] + ([e[1]] + []);
      RunConcat(In(d), [e[0]], [e[1]]);
      assert [e[0]][1..] == [] && [e[1]][1..] == [];
    } else {
      var h := e[2..];
      assert e == "\\u" + h;
      assert "\\u"[0] == '\\' && "\\u"[1..] == "u" && "u"[0] == 'u' && "u"[1..] == [];
      assert Run(In(d), "\\u") == Run(Esc(d), "u") == Run(In(d), []);
      RunConcat(In(d), "\\u", h);
      assert h == ['0', '0', HexDigit(c as int / 16), HexDigit(c as int % 16)];
      RunInside(d, h);
    }
  }

  lemma {:induction false} RunInside(d: nat, s: string)
    requires forall i :: 0 <= i < |s| ==> s[i] != '"' && s[i] != '\\'
    ensures Run(In(d), s) == In(d)
  {
    if s != [] {
      RunInside(d, s[1..]);
    }
  }

  lemma {:induction false} RunEscaped(d: nat, s: string)
    ensures Run(In(d), EscapeAll(s)) == In(d)
  {
    if s != [] {
      RunEscape(d, s[0]);
      RunEscaped(d, s[1..]);
      RunConcat(In(d), Escape(s[0]), EscapeAll(s[1..]));
    }
  }

  lemma RunQuoted(d: nat, s: string)
    ensures Run(Out(d), Quote(s)) == Out(d)
  {
    hide EscapeAll;
    RunEscaped(d, s);
    RunConcat(Out(d), "\"" + EscapeAll(s), "\"");
    RunConcat(Out(d), "\"", EscapeAll(s));
    assert "\""[1..] == [];
  }

  // A whole value leaves the scanner at the depth it started from.
  lemma {:induction false} RunPrinted(j: Json, d: nat)
    requires ValidNumbers(j) && d >= 1
    ensures Run(Out(d), Print(j)) == Out(d)
    decreases j, 1, 0
  {
    match j {
      case JString(s) => RunQuoted(d, s);
      case JArray(items) =>
        RunItems(items, d + 1, true);
        RunBracketed(d, "[", PrintItems(items, true), "]");
      case JObject(m) =>
        RunMembers(j, SortedKeys(m.Keys), d + 1, true);
        RunBracketed(d, "{", PrintMembers(j, SortedKeys(m.Keys), true), "}");
      case _ => RunPlain(d, Print(j));
    }
  }

  lemma RunBracketed(d: nat, open: string, body: string, close: string)
    requires d >= 1 && open in {"[", "{"} && close in {"]", "}"}
    requires Run(Out(d + 1), body) == Out(d + 1)
    ensures Run(Out(d), open + body + close) == Out(d)
  {
    RunConcat(Out(d), open + body, close);
    RunConcat(Out(d), open, body);
    assert open[1..] == [] && close[1..] == [];
  }

  lemma {:induction false} RunItems(items: seq<Json>, d: nat, first: bool)
    requires d >= 1 && forall i :: 0 <= i < |items| ==> ValidNumbers(items[i])
    ensures Run(Out(d), PrintItems(items, first)) == Out(d)
    decreases items, 0, 0
  {
    if items != [] {
      hide Print, ValidNumbers;
      var comma := if first then "" else ",";
      RunPrinted(items[0], d);
      RunItems(items[1..], d, false);
      RunPlain(d, comma);
      RunConcat(Out(d), comma + Print(items[0]), PrintItems(items[1..], false));
      RunConcat(Out(d), comma, Print(items[0]));
    }
  }

  lemma {:induction false} RunMembers(j: Json, keys: seq<string>, d: nat, first: bool)
    requires d >= 1 && j.JObject? && ValidNumbers(j) && forall k :: k in keys ==> k in j.members
    ensures Run(Out(d), PrintMembers(j, keys, first)) == Out(d)
    decreases j, 0, |keys|
  {
    if keys != [] {
      assert ValidNumbers(j.members[keys[0]]);
      hide Print, ValidNumbers, Quote;
      var comma := if first then "" else ",";
      RunPrinted(j.members[keys[0]], d);
      RunQuoted(d, keys[0]);
      RunPlain(d, comma);
      RunPlain(d, ":");
      RunMembers(j, keys[1..], d, false);
      RunConcat(Out(d), Quote(keys[0]) + ":", Print(j.members[keys[0]]));
      RunConcat(Out(d), Quote(keys[0]), ":");
      RunConcat(Out(d), comma, Entry(j, keys[0]));
      RunConcat(Out(d), comma + Entry(j, keys[0]), PrintMembers(j, keys[1..], false));
    }
  }

  // An object read from the start is finished by its last character and no earlier.
  lemma RunObject(j: Json)
    requires ValidNumbers(j) && j.JObject?
    ensures Run(Start, Print(j)) == Done
  {
    var body := PrintMembers(j, SortedKeys(j.members.Keys), true);
    RunMembers(j, SortedKeys(j.members.Keys), 1, true);
    RunConcat(Start, "{" + body, "}");
    RunConcat(Start, "{", body);
    assert "{"[1..] == [] && "}"[1..] == [];
  }

  // One reading inside a string while the other is outside: they cannot both finish together.
  lemma {:induction false} OpposedNeverBothDone(a: Scan, b: Scan, s: string)
    requires (a.In? && b.Out?) || (a.Out? && b.In?)
    ensures !(Run(a, s) == Done && Run(b, s) == Done)
    decreases |s|
  {
    if s != [] {
      var a', b' := Step(a, s[0]), Step(b, s[0]);
      if a' == Bad || b' == Bad {
        RunBad(s[1..]);
      } else if a' == Done || b' == Done {
        if s[1..] != [] {
          RunBad(s[1..][1..]);
        }
      } else {
        OpposedNeverBothDone(a', b', s[1..]);
      }
    }
  }

  lemma {:induction false} StartIsLeft(q: Scan, s: string)
    requires q != Start
    ensures Run(q, s) != Start
    decreases |s|
  {
    if s != [] {
      StartIsLeft(Step(q, s[0]), s[1..]);
    }
  }

  /** No object's text is a proper suffix of another's. */
  lemma ObjectsAreSuffixFree(u: string, x: Json, y: Json)
    requires x.JObject? && y.JObject? && ValidNumbers(x) && ValidNumbers(y)
    requires Print(x) == u + Print(y)
    ensures u == []
  {
    var s := Print(y);
    var q := Run(Start, u);
    RunObject(x);
    RunObject(y);
    RunConcat(Start, u, s);
    assert s[0] == '{';
    if u != [] {
      StartIsLeft(Step(Start, u[0]), u[1..]);
      match q {
        case Out(d) =>
          PositiveDepth(Start, u);
          RunPrinted(y, d);
        case In(d) => OpposedNeverBothDone(q, Out(1), s[1..]);
        case Start =>
        case Esc(_) => RunBad(s[1..]);
        case Done => RunBad(s[1..]);
        case Bad => RunBad(s[1..]);
      }
    }
  }

  lemma {:induction false} PositiveDepth(q: Scan, s: string)
    requires q.Out? || q.In? || q.Esc? ==> q.depth >= 1
    ensures var r := Run(q, s); r.Out? || r.In? || r.Esc? ==> r.depth >= 1
    decreases |s|
  {
    if s != [] {
      PositiveDepth(Step(q, s[0]), s[1..]);
    }
  }
}
