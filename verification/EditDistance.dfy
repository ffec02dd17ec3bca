/** The edit distance behind the typosquatting check: a two-row dynamic program, and what its
    number means. The meaning is given by scripts of single-character edits, applied one after
    the other at any position; nothing about prefixes or tables appears in it. */
module EditDistance {
  import opened Wrappers

  datatype Edit =
    | Insert(pos: nat, c: char)
    | Delete(pos: nat)
    | Substitute(pos: nat, c: char)

  predicate Applicable(e: Edit, s: string) {
    match e
    case Insert(pos, _) => pos <= |s|
    case Delete(pos) => pos < |s|
    case Substitute(pos, _) => pos < |s|
  }

  function Apply(e: Edit, s: string): string
    requires Applicable(e, s)
  {
    match e
    case Insert(pos, c) => s[..pos] + [c] + s[pos..]
    case Delete(pos) => s[..pos] + s[pos + 1..]
    case Substitute(pos, c) => s[..pos] + [c] + s[pos + 1..]
  }

  /** The script, run edit by edit, turns `a` into `b`. */
  predicate Turns(script: seq<Edit>, a: string, b: string) {
    if script == [] then a == b
    else Applicable(script[0], a) && Turns(script[1..], Apply(script[0], a), b)
  }

  /** `d` edits are enough to turn `a` into `b`, and fewer are not. */
  ghost predicate IsCheapest(a: string, b: string, d: nat) {
    && (exists script :: Turns(script, a, b) && |script| == d)
    && (forall script :: Turns(script, a, b) ==> |script| >= d)
  }

  // ---- the recurrence the table fills in ----

  function Init(s: string): string
    requires s != []
  {
    s[..|s| - 1]
  }

  function Last(s: string): char
    requires s != []
  {
    s[|s| - 1]
  }

  function Cost(c: char, d: char): nat { if c == d then 0 else 1 }

  function Distance(a: string, b: string): nat
    decreases |a| + |b|
  {
    if a == [] then |b|
    else if b == [] then |a|
    else
      Min(Min(Distance(Init(a), b) + 1, Distance(a, Init(b)) + 1),
          Distance(Init(a), Init(b)) + Cost(Last(a), Last(b)))
  }

  // The first `upto` cells of `row` are the distances from the first `i` characters of `a`.
  ghost predicate RowHolds(row: seq<nat>, a: string, b: string, i: nat, upto: nat) {
    && i <= |a| && upto <= |row| == |b| + 1
    && forall k :: 0 <= k < upto ==> row[k] == Distance(a[..i], b[..k])
  }

  // Row 0 is the identity, and cell 0 of every row is its row number.
  lemma Borders(a: string, b: string, i: nat, k: nat)
    requires i <= |a| && k <= |b|
    ensures Distance(a[..0], b[..k]) == k
    ensures Distance(a[..i], b[..0]) == i
  {
    assert a[..0] == [] && b[..0] == [];
  }

  lemma NextCell(prev: seq<nat>, curr: seq<nat>, a: string, b: string, i: nat, j: nat, v: nat)
    requires 1 <= i <= |a| && 1 <= j <= |b|
    requires RowHolds(prev, a, b, i - 1, |b| + 1) && RowHolds(curr, a, b, i, j)
    requires v == Min(Min(prev[j] + 1, curr[j - 1] + 1), prev[j - 1] + Cost(a[i - 1], b[j - 1]))
    ensures RowHolds(curr[j := v], a, b, i, j + 1)
  {
    assert Init(a[..i]) == a[..i - 1] && Init(b[..j]) == b[..j - 1];
    assert Distance(a[..i], b[..j]) == v;
  }

  lemma WholeTable(row: seq<nat>, a: string, b: string)
    requires RowHolds(row, a, b, |a|, |b| + 1)
    ensures row[|b|] == Distance(a, b)
  {
    assert a[..|a|] == a && b[..|b|] == b;
  }

  lemma FirstRow(row: seq<nat>, a: string, b: string)
    requires |row| == |b| + 1 && forall k :: 0 <= k < |row| ==> row[k] == k
    ensures RowHolds(row, a, b, 0, |b| + 1)
  {
    forall k | 0 <= k <= |b| ensures Distance(a[..0], b[..k]) == k {
      Borders(a, b, 0, k);
    }
  }

  lemma FirstCell(row: seq<nat>, a: string, b: string, i: nat)
    requires i <= |a| && |row| == |b| + 1 && row[0] == i
    ensures RowHolds(row, a, b, i, 1)
  {
    Borders(a, b, i, 0);
  }

  /** The two-row loop. Row `prev` holds the distances of every prefix of `b` from the first
      `i - 1` characters of `a`; `curr` is filled for `i` characters, then the rows swap. */
  method Levenshtein(a: string, b: string) returns (d: nat)
    ensures d == Distance(a, b)
    ensures IsCheapest(a, b, d)
  {
    var m, n := |a|, |b|;
    var prev := new nat[n + 1](j => j);
    var curr := new nat[n + 1](_ => 0);
    FirstRow(prev[..], a, b);
    for i := 1 to m + 1
      invariant prev != curr && prev.Length == curr.Length == n + 1
      invariant fresh(prev) && fresh(curr)
      invariant RowHolds(prev[..], a, b, i - 1, n + 1)
    {
      curr[0] := i;
      FirstCell(curr[..], a, b, i);
      ghost var above := prev[..];
      for j := 1 to n + 1
        invariant prev[..] == above
        invariant RowHolds(curr[..], a, b, i, j)
      {
        var cost := if a[i - 1] == b[j - 1] then 0 else 1;
        ghost var row := curr[..];
        curr[j] := Min(Min(prev[j] + 1, curr[j - 1] + 1), prev[j - 1] + cost);
        NextCell(above, row, a, b, i, j, curr[j]);
        assert curr[..] == row[j := curr[j]];
      }
      prev, curr := curr, prev;
    }
    d := prev[n];
    assert prev[..][n] == d;
    WholeTable(prev[..], a, b);
    DistanceIsCheapest(a, b);
  }

  // ---- metric laws ----

  lemma {:induction false} DistanceZeroIffEqual(a: string, b: string)
    ensures Distance(a, b) == 0 <==> a == b
    decreases |a| + |b|
  {
    if a != [] && b != [] {
      DistanceZeroIffEqual(Init(a), Init(b));
      assert a == Init(a) + [Last(a)] && b == Init(b) + [Last(b)];
    }
  }

  lemma {:induction false} DistanceSymmetric(a: string, b: string)
    ensures Distance(a, b) == Distance(b, a)
    decreases |a| + |b|
  {
    if a != [] && b != [] {
      DistanceSymmetric(Init(a), b);
      DistanceSymmetric(a, Init(b));
      DistanceSymmetric(Init(a), Init(b));
    }
  }

  lemma {:induction false} DistanceBounds(a: string, b: string)
    ensures |a| - |b| <= Distance(a, b)
    ensures |b| - |a| <= Distance(a, b)
    ensures Distance(a, b) <= if |a| >= |b| then |a| else |b|
    decreases |a| + |b|
  {
    if a != [] && b != [] {
      DistanceBounds(Init(a), b);
      DistanceBounds(a, Init(b));
      DistanceBounds(Init(a), Init(b));
    }
  }

  // Dropping one last character changes the distance by at most one.
  lemma DropLast(a: string, b: string)
    ensures a != [] ==> Distance(a, b) <= Distance(Init(a), b) + 1
    ensures b != [] ==> Distance(a, b) <= Distance(a, Init(b)) + 1
    ensures a != [] && b != [] ==>
              Distance(a, b) <= Distance(Init(a), Init(b)) + Cost(Last(a), Last(b))
  {
  }

  lemma {:induction false} TriangleInequality(a: string, b: string, c: string)
    ensures Distance(a, c) <= Distance(a, b) + Distance(b, c)
    decreases |a| + |b| + |c|
  {
    if a == [] || b == [] || c == [] {
      DistanceBounds(a, b);
      DistanceBounds(b, c);
      DistanceBounds(a, c);
    } else {
      DropLast(a, c);
      if Distance(a, b) == Distance(Init(a), b) + 1 {
        TriangleInequality(Init(a), b, c);
      } else if Distance(b, c) == Distance(b, Init(c)) + 1 {
        TriangleInequality(a, b, Init(c));
      } else if Distance(a, b) == Distance(a, Init(b)) + 1 {
        if Distance(b, c) == Distance(Init(b), c) + 1 {
          TriangleInequality(a, Init(b), c);
        } else {
          TriangleInequality(a, Init(b), Init(c));
        }
      } else if Distance(b, c) == Distance(Init(b), c) + 1 {
        TriangleInequality(Init(a), Init(b), c);
      } else {
        TriangleInequality(Init(a), Init(b), Init(c));
      }
    }
  }

  // ---- the recurrence is the cheapest script ----

  lemma {:induction false} CommonSuffix(x: string, y: string, s: string)
    ensures Distance(x + s, y + s) <= Distance(x, y)
    decreases |s|
  {
    if s == [] {
      assert x + s == x && y + s == y;
    } else {
      DropLast(x + s, y + s);
      assert Init(x + s) == x + Init(s) && Init(y + s) == y + Init(s);
      hide Distance, Init;
      CommonSuffix(x, y, Init(s));
    }
  }

  lemma ChangeAtEnd(p: string, x: string, y: string)
    requires |x| <= 1 && |y| <= 1
    ensures Distance(p + x, p + y) <= 1
  {
    DistanceZeroIffEqual(p, p);
    if x == [] && y == [] {
      assert p + x == p == p + y;
    } else if x == [] {
      assert p + x == p && Init(p + y) == p;
      DropLast(p, p + y);
    } else if y == [] {
      assert p + y == p && Init(p + x) == p;
      DropLast(p + x, p);
    } else {
      assert Init(p + x) == p == Init(p + y);
      DropLast(p + x, p + y);
    }
  }

  lemma LocalChange(p: string, x: string, y: string, s: string)
    requires |x| <= 1 && |y| <= 1
    ensures Distance(p + x + s, p + y + s) <= 1
  {
    ChangeAtEnd(p, x, y);
    CommonSuffix(p + x, p + y, s);
  }

  lemma OneEditIsDistanceOne(e: Edit, s: string)
    requires Applicable(e, s)
    ensures Distance(s, Apply(e, s)) <= 1
  {
    var p := s[..e.pos];
    if e.Insert? {
      LocalChange(p, [], [e.c], s[e.pos..]);
      assert s == p + [] + s[e.pos..];
    } else {
      var q := s[e.pos + 1..];
      assert s == p + [s[e.pos]] + q;
      LocalChange(p, [s[e.pos]], if e.Delete? then [] else [e.c], q);
      assert p + [] + q == p + q;
    }
  }

  lemma {:induction false} NoScriptIsCheaper(script: seq<Edit>, a: string, b: string)
    requires Turns(script, a, b)
    ensures Distance(a, b) <= |script|
    decreases |script|
  {
    if script == [] {
      DistanceZeroIffEqual(a, b);
    } else {
      var a' := Apply(script[0], a);
      NoScriptIsCheaper(script[1..], a', b);
      OneEditIsDistanceOne(script[0], a);
      TriangleInequality(a, a', b);
    }
  }

  lemma EditIsLocal(e: Edit, a: string, c: char)
    requires Applicable(e, a)
    ensures Applicable(e, a + [c]) && Apply(e, a + [c]) == Apply(e, a) + [c]
  {
  }

  // A script keeps working when the text grows at the end, because positions count from the start.
  lemma {:induction false} AppendToBoth(script: seq<Edit>, a: string, b: string, c: char)
    requires Turns(script, a, b)
    ensures Turns(script, a + [c], b + [c])
    decreases |script|
  {
    if script != [] {
      var e := script[0];
      EditIsLocal(e, a, c);
      hide Apply;
      AppendToBoth(script[1..], Apply(e, a), b, c);
    }
  }

  lemma {:induction false} RunBoth(s: seq<Edit>, t: seq<Edit>, a: string, b: string, c: string)
    requires Turns(s, a, b) && Turns(t, b, c)
    ensures Turns(s + t, a, c)
    decreases |s|
  {
    if s == [] {
      assert s + t == t;
    } else {
      RunBoth(s[1..], t, Apply(s[0], a), b, c);
      assert (s + t)[1..] == s[1..] + t;
    }
  }

  lemma EditFirst(e: Edit, s: seq<Edit>, a: string, b: string)
    requires Applicable(e, a) && Turns(s, Apply(e, a), b)
    ensures Turns([e] + s, a, b)
  {
    assert ([e] + s)[1..] == s;
  }

  lemma EditLast(s: seq<Edit>, e: Edit, a: string, b: string)
    requires Turns(s, a, b) && Applicable(e, b)
    ensures Turns(s + [e], a, Apply(e, b))
  {
    RunBoth(s, [e], a, b, Apply(e, b));
  }

  lemma ByInsertion(s: seq<Edit>, a: string, b: string) returns (script: seq<Edit>)
    requires b != [] && Turns(s, a, Init(b))
    ensures Turns(script, a, b) && |script| == |s| + 1
  {
    var e := Insert(|Init(b)|, Last(b));
    assert Apply(e, Init(b)) == b;
    EditLast(s, e, a, Init(b));
    script := s + [e];
  }

  lemma ByDeletion(s: seq<Edit>, a: string, b: string) returns (script: seq<Edit>)
    requires a != [] && Turns(s, Init(a), b)
    ensures Turns(script, a, b) && |script| == |s| + 1
  {
    var e := Delete(|a| - 1);
    assert Apply(e, a) == Init(a);
    EditFirst(e, s, a, b);
    script := [e] + s;
  }

  lemma InitLast(a: string)
    requires a != []
    ensures Init(a) + [Last(a)] == a
  {
  }

  lemma BySubstitution(s: seq<Edit>, a: string, b: string) returns (script: seq<Edit>)
    requires a != [] && b != [] && Turns(s, Init(a), Init(b))
    ensures Turns(script, a, b) && |script| == |s| + Cost(Last(a), Last(b))
  {
    AppendToBoth(s, Init(a), Init(b), Last(b));
    InitLast(a);
    InitLast(b);
    script := s;
    if Last(a) != Last(b) {
      var e := Substitute(|a| - 1, Last(b));
      assert Apply(e, a) == Init(a) + [Last(b)];
      EditFirst(e, s, a, b);
      script := [e] + s;
    }
  }

  lemma {:induction false} SomeScriptAttains(a: string, b: string) returns (script: seq<Edit>)
    ensures Turns(script, a, b) && |script| == Distance(a, b)
    decreases |a| + |b|
  {
    if a == [] && b == [] {
      script := [];
    } else if a == [] || (b != [] && Distance(a, b) == Distance(a, Init(b)) + 1) {
      script := SomeScriptAttains(a, Init(b));
      script := ByInsertion(script, a, b);
    } else if b == [] || Distance(a, b) == Distance(Init(a), b) + 1 {
      script := SomeScriptAttains(Init(a), b);
      script := ByDeletion(script, a, b);
    } else {
      script := SomeScriptAttains(Init(a), Init(b));
      script := BySubstitution(script, a, b);
    }
  }

  lemma DistanceIsCheapest(a: string, b: string)
    ensures IsCheapest(a, b, Distance(a, b))
  {
    var script := SomeScriptAttains(a, b);
    forall s | Turns(s, a, b) ensures |s| >= Distance(a, b) {
      NoScriptIsCheaper(s, a, b);
    }
  }
}
