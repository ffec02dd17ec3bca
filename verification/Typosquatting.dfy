/** The typosquatting check of the tool scanner: what a finding, or the absence of one, says
    about the edits that separate an advertised tool name from the known ones. */
module Typosquatting {
  import opened EditDistance

  datatype Severity = Medium | High | Critical

  datatype Finding = Finding(name: string, known: string, distance: nat, severity: Severity)

  // ---- confusable characters ----

  // ASCII control characters, combining diacritics, zero-width and invisible characters, the BOM.
  predicate Invisible(c: char) {
    var n := c as int;
    || n < 0x20 || n == 0x7F
    || 0x0300 <= n <= 0x036F
    || 0x200B <= n <= 0x200F
    || 0x2060 <= n <= 0x2064
    || n == 0xFEFF
  }

  // Cyrillic letters that look like Latin ones.
  function Latin(c: char): char {
    var n := c as int;
    if n == 0x0430 then 'a'
    else if n == 0x0435 then 'e'
    else if n == 0x043E then 'o'
    else if n == 0x0440 then 'p'
    else if n == 0x0441 then 'c'
    else if n == 0x0443 then 'y'
    else if n == 0x0445 then 'x'
    else c
  }

  function NormalizeChar(c: char): string {
    if Invisible(c) then [] else [Latin(c)]
  }

  function Normalize(s: string): string {
    if s == [] then [] else NormalizeChar(s[0]) + Normalize(s[1..])
  }

  predicate NormalForm(s: string) {
    forall i :: 0 <= i < |s| ==> NormalizeChar(s[i]) == [s[i]]
  }

  lemma {:induction false} NormalizeGivesNormalForm(s: string)
    ensures NormalForm(Normalize(s))
  {
    if s != [] {
      NormalizeGivesNormalForm(s[1..]);
      assert !Invisible(s[0]) ==> NormalizeChar(Latin(s[0])) == [Latin(s[0])];
    }
  }

  lemma {:induction false} NormalFormIsFixed(s: string)
    requires NormalForm(s)
    ensures Normalize(s) == s
  {
    if s != [] {
      NormalFormIsFixed(s[1..]);
    }
  }

  /** Normalizing twice is normalizing once. */
  lemma NormalizeIdempotent(s: string)
    ensures Normalize(Normalize(s)) == Normalize(s)
  {
    NormalizeGivesNormalForm(s);
    NormalFormIsFixed(Normalize(s));
  }

  // ---- the check ----

  function SeverityOf(d: nat): Severity {
    if d == 0 then Critical else if d == 1 then High else Medium
  }

  predicate Reported(name: string, known: string, threshold: nat) {
    name != known && Distance(Normalize(name), known) <= threshold
  }

  // One finding for every listed name that is reported, in list order.
  function Findings(name: string, knownNames: seq<string>, threshold: nat): seq<Finding> {
    if knownNames == [] then []
    else
      var rest := Findings(name, knownNames[..|knownNames| - 1], threshold);
      var known := knownNames[|knownNames| - 1];
      var d := Distance(Normalize(name), known);
      if Reported(name, known, threshold) then rest + [Finding(name, known, d, SeverityOf(d))] else rest
  }

  /** Some script of at most `t` single-character edits turns `a` into `b`. */
  ghost predicate WithinEdits(a: string, b: string, t: nat) {
    exists script :: Turns(script, a, b) && |script| <= t
  }

  method CheckTyposquatting(name: string, knownNames: seq<string>, threshold: nat) returns (findings: seq<Finding>)
    ensures findings == Findings(name, knownNames, threshold)
    ensures forall known :: known in knownNames ==>
              ((exists f :: f in findings && f.known == known) <==>
               (name != known && WithinEdits(Normalize(name), known, threshold)))
    ensures forall f :: f in findings ==>
              && f.name == name && f.known in knownNames
              && IsCheapest(Normalize(name), f.known, f.distance)
              && (f.severity == Critical <==> Normalize(name) == f.known)
              && (f.severity == High <==> f.distance == 1)
  {
    findings := [];
    var normalized := Normalize(name);
    for i := 0 to |knownNames|
      invariant findings == Findings(name, knownNames[..i], threshold)
    {
      assert knownNames[..i + 1][..i] == knownNames[..i];
      var known := knownNames[i];
      if name == known {
        continue;
      }
      var dist := Levenshtein(normalized, known);
      if dist > 0 && dist <= threshold {
        findings := findings + [Finding(name, known, dist, if dist == 1 then High else Medium)];
      }
      if dist == 0 && name != known {
        findings := findings + [Finding(name, known, dist, Critical)];
      }
    }
    assert knownNames[..|knownNames|] == knownNames;
    FindingsExact(name, knownNames, threshold);
    forall known | known in knownNames
      ensures (exists f :: f in findings && f.known == known) <==>
              (name != known && WithinEdits(normalized, known, threshold))
    {
      WithinEditsIffDistance(normalized, known, threshold);
      var d := Distance(normalized, known);
      if Reported(name, known, threshold) {
        assert Finding(name, known, d, SeverityOf(d)) in findings;
      }
    }
    forall f | f in findings
      ensures IsCheapest(normalized, f.known, f.distance)
      ensures f.severity == Critical <==> normalized == f.known
    {
      DistanceIsCheapest(normalized, f.known);
      DistanceZeroIffEqual(normalized, f.known);
    }
  }

  lemma WithinEditsIffDistance(a: string, b: string, t: nat)
    ensures WithinEdits(a, b, t) <==> Distance(a, b) <= t
  {
    DistanceIsCheapest(a, b);
  }

  lemma {:induction false} FindingsExact(name: string, knownNames: seq<string>, threshold: nat)
    ensures forall f :: f in Findings(name, knownNames, threshold) <==>
              && f.known in knownNames && Reported(name, f.known, threshold)
              && f == Finding(name, f.known, Distance(Normalize(name), f.known),
                              SeverityOf(Distance(Normalize(name), f.known)))
  {
    if knownNames != [] {
      var init := knownNames[..|knownNames| - 1];
      FindingsExact(name, init, threshold);
      assert knownNames == init + [knownNames[|knownNames| - 1]];
    }
  }

  /** Two names reported against the same known tool are at most twice the threshold apart. */
  lemma LookalikesAreClose(x: string, y: string, known: string, threshold: nat)
    requires Reported(x, known, threshold) && Reported(y, known, threshold)
    ensures WithinEdits(Normalize(x), Normalize(y), 2 * threshold)
  {
    DistanceSymmetric(Normalize(y), known);
    TriangleInequality(Normalize(x), known, Normalize(y));
    DistanceIsCheapest(Normalize(x), Normalize(y));
  }

  /** A name that clears the check with room to spare stays clear after that many edits. */
  lemma ClearedWithMargin(x: string, y: string, known: string, threshold: nat, margin: nat)
    requires !Reported(x, known, threshold + margin) && x != known
    requires WithinEdits(Normalize(x), Normalize(y), margin)
    ensures !Reported(y, known, threshold)
  {
    DistanceIsCheapest(Normalize(x), Normalize(y));
    TriangleInequality(Normalize(x), Normalize(y), known);
  }

  /** Only the advertised name is normalized, not the known one. So a known name can be reported
      as imitated by a confusable exactly when it is its own normal form. */
  lemma CriticalNeedsNormalKnownName(known: string)
    ensures (exists name :: name != known && Normalize(name) == known) <==> Normalize(known) == known
  {
    if name :| name != known && Normalize(name) == known {
      NormalizeIdempotent(name);
    }
    if Normalize(known) == known {
      var c := 0x200B as char;
      var name := [c] + known;
      assert name[1..] == known && |name| == |known| + 1;
      assert name != known && Normalize(name) == known;
    }
  }

  /** Which characters change: seven Cyrillic letters become the Latin ones they look like; control
      characters, combining marks and invisible characters go; all others stay. */
  lemma NormalizedCharacters(c: char)
    ensures Normalize("\U{0430}\U{0435}\U{043E}\U{0440}\U{0441}\U{0443}\U{0445}") == "aeopcyx"
    ensures |NormalizeChar(c)| == 1 && NormalizeChar(c) != [c] ==>
              c in "\U{0430}\U{0435}\U{043E}\U{0440}\U{0441}\U{0443}\U{0445}"
    ensures NormalizeChar(c) == [] <==>
            || c <= '\U{1F}' || c == '\U{7F}' || '\U{300}' <= c <= '\U{36F}'
            || '\U{200B}' <= c <= '\U{200F}' || '\U{2060}' <= c <= '\U{2064}' || c == '\U{FEFF}'
  {
    var s := "\U{0430}\U{0435}\U{043E}\U{0440}\U{0441}\U{0443}\U{0445}";
    assert s[1..] == "\U{0435}\U{043E}\U{0440}\U{0441}\U{0443}\U{0445}";
    NormalizeEach(s);
  }

  // A text of characters that all stay or all change letter for letter.
  lemma {:induction false} NormalizeEach(s: string)
    requires forall i :: 0 <= i < |s| ==> !Invisible(s[i])
    ensures |Normalize(s)| == |s| && forall i :: 0 <= i < |s| ==> Normalize(s)[i] == Latin(s[i])
  {
    if s != [] {
      NormalizeEach(s[1..]);
    }
  }
}
