/** Upstream prompts woven into the system prompt: four insertions, one per position, each of
    which recounts from the sections themselves how much upstream text is already there. */
module PromptWeaver {
  import opened Utf8
  import opened Wrappers

  const MAX_PROMPT_CHARS: nat := 8000
  const MAX_TOTAL_PROMPT_CHARS: nat := 20000

  const HEADER := "## Upstream Prompt:"

  datatype Position = BeforeMandate | AfterMandate | AfterHeuristics | AfterExamples

  datatype ResolvedPrompt = ResolvedPrompt(name: string, content: string, position: Position)

  predicate HasHeader(s: string) {
    HEADER <= s
  }

  // Bytes in sections that start with the upstream header.
  function Counted(sections: seq<string>): nat {
    if sections == [] then 0
    else Counted(sections[..|sections| - 1])
         + if HasHeader(sections[|sections| - 1]) then ByteLen(sections[|sections| - 1]) else 0
  }

  function Bytes(sections: seq<string>): nat {
    if sections == [] then 0
    else Bytes(sections[..|sections| - 1]) + ByteLen(sections[|sections| - 1])
  }

  function Matching(prompts: seq<ResolvedPrompt>, position: Position): seq<ResolvedPrompt> {
    if prompts == [] then []
    else
      var init := Matching(prompts[..|prompts| - 1], position);
      if prompts[|prompts| - 1].position == position then init + [prompts[|prompts| - 1]] else init
  }

  function Entry(p: ResolvedPrompt): string {
    HEADER + (" " + p.name + "\n\n" + Truncated(p.content, MAX_PROMPT_CHARS))
  }

  // What one insertion appends: whole entries while they fit, a truncated one, then nothing.
  function Pushed(remaining: nat, ps: seq<ResolvedPrompt>): (seq<string>, nat) {
    if ps == [] then ([], remaining) else PushOne(Pushed(remaining, ps[..|ps| - 1]), ps[|ps| - 1])
  }

  function PushOne(acc: (seq<string>, nat), p: ResolvedPrompt): (seq<string>, nat) {
    if acc.1 == 0 then acc
    else if ByteLen(Entry(p)) > acc.1 then (acc.0 + [Truncated(Entry(p), acc.1)], 0)
    else (acc.0 + [Entry(p)], acc.1 - ByteLen(Entry(p)))
  }

  method InjectAtPosition(sections: seq<string>, prompts: seq<ResolvedPrompt>, position: Position)
    returns (r: seq<string>)
    ensures r == sections + Pushed(Sub(MAX_TOTAL_PROMPT_CHARS, Counted(sections)), Matching(prompts, position)).0
  {
    r := sections;
    var budget := Sub(MAX_TOTAL_PROMPT_CHARS, Counted(sections));
    ghost var full := budget;
    hide Counted, PushOne, Entry, ByteLen, Truncated;
    for i := 0 to |prompts|
      invariant r == sections + Pushed(full, Matching(prompts[..i], position)).0
      invariant budget == Pushed(full, Matching(prompts[..i], position)).1
    {
      MatchingStep(prompts, position, full, i);
      var rp := prompts[i];
      if rp.position != position {
        continue;
      }
      ghost var acc := Pushed(full, Matching(prompts[..i], position));
      PushCases(acc, rp, sections);
      if budget == 0 {
        continue;
      }
      var content := rp.content;
      if ByteLen(rp.content) > MAX_PROMPT_CHARS {
        content := TruncateStr(rp.content, MAX_PROMPT_CHARS);
      }
      TruncatedIsLongestPrefix(rp.content, MAX_PROMPT_CHARS);
      var entry := HEADER + (" " + rp.name + "\n\n" + content);
      assert entry == Entry(rp) by { EntryText(rp); }
      var entryLen := ByteLen(entry);
      if entryLen > budget {
        var cut := TruncateStr(entry, budget);
        r := r + [cut];
        budget := 0;
      } else {
        r := r + [entry];
        budget := budget - entryLen;
      }
    }
    assert prompts[..|prompts|] == prompts;
  }

  lemma EntryText(p: ResolvedPrompt)
    ensures Entry(p) == HEADER + (" " + p.name + "\n\n" + Truncated(p.content, MAX_PROMPT_CHARS))
  {
  }

  lemma MatchingStep(prompts: seq<ResolvedPrompt>, position: Position, full: nat, i: nat)
    requires i < |prompts|
    ensures var before, after := Matching(prompts[..i], position), Matching(prompts[..i + 1], position);
            if prompts[i].position == position
            then Pushed(full, after) == PushOne(Pushed(full, before), prompts[i])
            else after == before
  {
    assert prompts[..i + 1][..i] == prompts[..i];
    var before := Matching(prompts[..i], position);
    assert (before + [prompts[i]])[..|before|] == before;
  }

  lemma PushCases(acc: (seq<string>, nat), p: ResolvedPrompt, sections: seq<string>)
    ensures acc.1 == 0 ==> PushOne(acc, p) == acc
    ensures 0 < acc.1 < ByteLen(Entry(p)) ==>
              PushOne(acc, p).1 == 0
              && sections + PushOne(acc, p).0 == sections + acc.0 + [Truncated(Entry(p), acc.1)]
    ensures acc.1 > 0 && acc.1 >= ByteLen(Entry(p)) ==>
              PushOne(acc, p).1 == acc.1 - ByteLen(Entry(p))
              && sections + PushOne(acc, p).0 == sections + acc.0 + [Entry(p)]
  {
  }

  // ---- counting ----

  lemma {:induction false} CountedConcat(s: seq<string>, t: seq<string>)
    ensures Counted(s + t) == Counted(s) + Counted(t)
    ensures Bytes(s + t) == Bytes(s) + Bytes(t)
    decreases |t|
  {
    hide ByteLen, HasHeader;
    if t == [] {
      assert s + t == s;
    } else {
      CountedConcat(s, t[..|t| - 1]);
      assert (s + t)[..|s + t| - 1] == s + t[..|t| - 1];
    }
  }

  // The prompts as they are meant to appear.
  function Texts(ps: seq<ResolvedPrompt>): seq<string> {
    if ps == [] then []
    else
      var p := ps[|ps| - 1];
      Texts(ps[..|ps| - 1]) + ["## Upstream Prompt: " + p.name + "\n\n" + p.content]
  }

  /** Prompts of up to 8000 bytes that fit in the budget together appear whole, each under its name
      and in order, and cost what they are long. */
  lemma {:induction false} WholeWhenTheyFit(remaining: nat, ps: seq<ResolvedPrompt>)
    requires forall p :: p in ps ==> ByteLen(p.content) <= 8000
    requires Bytes(Texts(ps)) <= remaining
    ensures Pushed(remaining, ps) == (Texts(ps), remaining - Bytes(Texts(ps)))
    decreases |ps|
  {
    if ps != [] {
      var init, p := ps[..|ps| - 1], ps[|ps| - 1];
      WholeText(p);
      EntryHasHeader(p);
      AppendOne(Texts(init), Entry(p));
      hide ByteLen, Entry, Bytes, Counted, Truncated;
      assert p in ps;
      WholeWhenTheyFit(remaining, init);
    }
  }

  lemma WholeText(p: ResolvedPrompt)
    ensures ByteLen(p.content) <= 8000 ==> Entry(p) == "## Upstream Prompt: " + p.name + "\n\n" + p.content
  {
    TruncatedIsLongestPrefix(p.content, 8000);
    var s := p.content;
    assert HEADER + (" " + p.name + "\n\n" + s) == (HEADER + " ") + p.name + "\n\n" + s;
    assert HEADER + " " == "## Upstream Prompt: ";
  }

  lemma HeaderBytes()
    ensures Ascii(HEADER) && |HEADER| == 19 && ByteLen(HEADER) == 19
  {
    assert |HEADER| == 19;
    AsciiByteLen(HEADER);
  }

  // Entries start with the header and are longer than it.
  lemma EntryHasHeader(p: ResolvedPrompt)
    ensures HasHeader(Entry(p)) && ByteLen(Entry(p)) > 19
  {
    HeaderBytes();
    var rest := " " + p.name + "\n\n" + Truncated(p.content, MAX_PROMPT_CHARS);
    ByteLenConcat(HEADER, rest);
    ByteLenAtLeast(rest);
  }

  // Cut within the header, an entry keeps exactly the bytes allowed and loses its header; cut
  // after it, the header stays.
  lemma CutEntry(p: ResolvedPrompt, left: nat)
    requires ByteLen(Entry(p)) > left
    ensures left < 19 ==> ByteLen(Truncated(Entry(p), left)) == left && !HasHeader(Truncated(Entry(p), left))
    ensures left >= 19 ==> HasHeader(Truncated(Entry(p), left))
  {
    HeaderBytes();
    var rest := " " + p.name + "\n\n" + Truncated(p.content, MAX_PROMPT_CHARS);
    AsciiCut(HEADER, rest, left);
  }

  lemma {:induction false} AsciiCut(head: string, rest: string, left: nat)
    requires Ascii(head)
    ensures left < |head| ==> Truncated(head + rest, left) == head[..left] && ByteLen(head[..left]) == left
    ensures left >= |head| ==> head <= Truncated(head + rest, left)
  {
    if head != [] && left > 0 {
      AsciiCut(head[1..], rest, left - 1);
      assert (head + rest)[1..] == head[1..] + rest;
      assert Width(head[0]) == 1;
      assert left < |head| ==> head[..left] == [head[0]] + head[1..][..left - 1];
      assert head == [head[0]] + head[1..];
    } else if head != [] {
      assert Truncated(head + rest, 0) == [] == head[..0];
    }
  }

  // What is known of an insertion midway: before the budget is gone only whole entries went in.
  ghost predicate PushInvariant(remaining: nat, acc: (seq<string>, nat)) {
    && Counted(acc.0) <= Bytes(acc.0) <= remaining
    && (acc.1 > 0 ==> Counted(acc.0) == Bytes(acc.0) && Bytes(acc.0) + acc.1 == remaining)
    && (Bytes(acc.0) > Counted(acc.0) ==> Bytes(acc.0) == remaining && Bytes(acc.0) - Counted(acc.0) < 19)
  }

  lemma PushOneKeepsInvariant(remaining: nat, acc: (seq<string>, nat), p: ResolvedPrompt)
    requires PushInvariant(remaining, acc)
    ensures PushInvariant(remaining, PushOne(acc, p))
  {
    EntryHasHeader(p);
    if acc.1 > 0 {
      var left := acc.1;
      var piece := if ByteLen(Entry(p)) > left then Truncated(Entry(p), left) else Entry(p);
      if ByteLen(Entry(p)) > left {
        CutEntry(p, left);
        TruncatedIsLongestPrefix(Entry(p), left);
      }
      hide ByteLen, Entry, HasHeader, Truncated;
      AppendOne(acc.0, piece);
    }
  }

  lemma AppendOne(sections: seq<string>, piece: string)
    ensures Bytes(sections + [piece]) == Bytes(sections) + ByteLen(piece)
    ensures Counted(sections + [piece]) == Counted(sections) + if HasHeader(piece) then ByteLen(piece) else 0
  {
    hide ByteLen, HasHeader;
    assert (sections + [piece])[..|sections|] == sections;
  }

  /** One insertion never appends more bytes than the budget it started with; what it appends
      without a header is at most one fragment, cut inside the header, that uses the budget up. */
  lemma {:induction false} PushedBytes(remaining: nat, ps: seq<ResolvedPrompt>)
    ensures PushInvariant(remaining, Pushed(remaining, ps))
    ensures ps != [] && 0 < remaining < 19 ==>
              Counted(Pushed(remaining, ps).0) == 0 && Bytes(Pushed(remaining, ps).0) == remaining
              && Pushed(remaining, ps).1 == 0
    decreases |ps|
  {
    if ps != [] {
      var init, p := ps[..|ps| - 1], ps[|ps| - 1];
      PushedBytes(remaining, init);
      PushOneKeepsInvariant(remaining, Pushed(remaining, init), p);
      if init == [] && 0 < remaining < 19 {
        EntryHasHeader(p);
        CutEntry(p, remaining);
        hide ByteLen, Entry, HasHeader, Truncated;
        AppendOne([], Truncated(Entry(p), remaining));
        assert [] + [Truncated(Entry(p), remaining)] == Pushed(remaining, ps).0;
      }
    }
  }

  // ---- all insertions of one prompt ----

  // Counted and total upstream bytes after inserting group after group, where the sections
  // pushed in between carry no header.
  function Totals(groups: seq<seq<ResolvedPrompt>>): (nat, nat) {
    if groups == [] then (0, 0)
    else
      var (counted, total) := Totals(groups[..|groups| - 1]);
      var pushed := Pushed(Sub(MAX_TOTAL_PROMPT_CHARS, counted), groups[|groups| - 1]).0;
      (counted + Counted(pushed), total + Bytes(pushed))
  }

  // The insertion of group `k` appends a fragment that does not carry the header.
  predicate LeavesFragment(groups: seq<seq<ResolvedPrompt>>, k: nat)
    requires k < |groups|
  {
    var pushed := Pushed(Sub(MAX_TOTAL_PROMPT_CHARS, Totals(groups[..k]).0), groups[k]).0;
    Bytes(pushed) > Counted(pushed)
  }

  function Fragments(groups: seq<seq<ResolvedPrompt>>): nat {
    if groups == [] then 0
    else Fragments(groups[..|groups| - 1]) + if LeavesFragment(groups, |groups| - 1) then 1 else 0
  }

  /** The sections that carry the header never exceed the cap. All upstream text together meets
      it exactly with the first fragment, and passes it with every further one. */
  lemma {:induction false} CapInvariant(groups: seq<seq<ResolvedPrompt>>)
    ensures var (counted, total) := Totals(groups);
            var n := Fragments(groups);
            && counted <= MAX_TOTAL_PROMPT_CHARS && n <= |groups|
            && (n == 0 ==> total == counted)
            && (n > 0 ==> 0 < MAX_TOTAL_PROMPT_CHARS - counted < 19)
            && (n == 1 ==> total == MAX_TOTAL_PROMPT_CHARS)
            && (n > 1 ==> MAX_TOTAL_PROMPT_CHARS < total <= MAX_TOTAL_PROMPT_CHARS + 18 * (n - 1))
    decreases |groups|
  {
    if groups != [] {
      var init, last := groups[..|groups| - 1], groups[|groups| - 1];
      CapInvariant(init);
      var gap := MAX_TOTAL_PROMPT_CHARS - Totals(init).0;
      PushedBytes(gap, last);
      TotalsSnoc(groups);
      hide LeavesFragment, Pushed, Bytes, Counted, Totals, Fragments;
    }
  }

  lemma TotalsSnoc(groups: seq<seq<ResolvedPrompt>>)
    requires groups != []
    ensures var init, last := groups[..|groups| - 1], groups[|groups| - 1];
            var pushed := Pushed(Sub(MAX_TOTAL_PROMPT_CHARS, Totals(init).0), last);
            && Totals(groups) == (Totals(init).0 + Counted(pushed.0), Totals(init).1 + Bytes(pushed.0))
            && Fragments(groups) == Fragments(init) + (if Bytes(pushed.0) > Counted(pushed.0) then 1 else 0)
            && (last == [] ==> Bytes(pushed.0) == Counted(pushed.0) == 0)
  {
    hide PushOne, HasHeader, ByteLen, Entry;
  }

  ghost predicate SomeFragment(groups: seq<seq<ResolvedPrompt>>) {
    exists j :: 0 <= j < |groups| && LeavesFragment(groups, j)
  }

  lemma SameFragments(groups: seq<seq<ResolvedPrompt>>, n: nat, j: nat)
    requires j < n <= |groups|
    ensures LeavesFragment(groups[..n], j) <==> LeavesFragment(groups, j)
  {
    assert groups[..n][..j] == groups[..j];
  }

  lemma SomeFragmentStep(groups: seq<seq<ResolvedPrompt>>)
    requires groups != []
    ensures var n := |groups| - 1;
            SomeFragment(groups) <==> SomeFragment(groups[..n]) || LeavesFragment(groups, n)
  {
    hide LeavesFragment;
    var n := |groups| - 1;
    forall j | 0 <= j < n ensures LeavesFragment(groups[..n], j) <==> LeavesFragment(groups, j) {
      SameFragments(groups, n, j);
    }
  }

  lemma PromptsAfterFragmentStep(groups: seq<seq<ResolvedPrompt>>)
    requires groups != []
    ensures var n := |groups| - 1;
            PromptsAfterFragment(groups) <==>
            PromptsAfterFragment(groups[..n]) || (SomeFragment(groups[..n]) && groups[n] != [])
  {
    hide LeavesFragment;
    var n := |groups| - 1;
    var init := groups[..n];
    if PromptsAfterFragment(groups) {
      var j, k :| 0 <= j < k < |groups| && LeavesFragment(groups, j) && groups[k] != [];
      SameFragments(groups, n, j);
      if k < n {
        assert init[k] != [] && LeavesFragment(init, j);
      }
    } else if PromptsAfterFragment(init) {
      var j, k :| 0 <= j < k < n && LeavesFragment(init, j) && init[k] != [];
      SameFragments(groups, n, j);
    } else if SomeFragment(init) {
      var j :| 0 <= j < n && LeavesFragment(init, j);
      SameFragments(groups, n, j);
    }
  }

  lemma {:induction false} FragmentsAtMostOneIff(groups: seq<seq<ResolvedPrompt>>)
    ensures Fragments(groups) > 0 <==> SomeFragment(groups)
    ensures Fragments(groups) > 1 <==> PromptsAfterFragment(groups)
    decreases |groups|
  {
    if groups != [] {
      FragmentsAtMostOneIff(groups[..|groups| - 1]);
      if Fragments(groups[..|groups| - 1]) > 0 {
        FragmentIffNonempty(groups);
      }
      SomeFragmentStep(groups);
      PromptsAfterFragmentStep(groups);
      assert Fragments(groups)
        == Fragments(groups[..|groups| - 1]) + if LeavesFragment(groups, |groups| - 1) then 1 else 0;
      hide LeavesFragment, Fragments, SomeFragment, PromptsAfterFragment;
    }
  }

  // An insertion with prompts of its own follows one that left a fragment.
  ghost predicate PromptsAfterFragment(groups: seq<seq<ResolvedPrompt>>) {
    exists j, k :: 0 <= j < k < |groups| && LeavesFragment(groups, j) && groups[k] != []
  }

  // Once a fragment was left, every later insertion with prompts leaves one, and no other does.
  lemma FragmentIffNonempty(groups: seq<seq<ResolvedPrompt>>)
    requires groups != [] && Fragments(groups[..|groups| - 1]) > 0
    ensures LeavesFragment(groups, |groups| - 1) <==> groups[|groups| - 1] != []
  {
    var init, last := groups[..|groups| - 1], groups[|groups| - 1];
    CapInvariant(init);
    PushedBytes(MAX_TOTAL_PROMPT_CHARS - Totals(init).0, last);
  }

  // ---- the condition, before anything is inserted ----

  // Some entry of the list meets a remaining budget that is not used up but shorter than the header.
  ghost predicate MeetsGap(remaining: nat, ps: seq<ResolvedPrompt>) {
    exists i: nat :: i < |ps| && 0 < Pushed(remaining, ps[..i]).1 < 19
  }

  lemma MeetsGapStep(remaining: nat, ps: seq<ResolvedPrompt>)
    requires ps != []
    ensures var n := |ps| - 1;
            MeetsGap(remaining, ps) <==> MeetsGap(remaining, ps[..n]) || 0 < Pushed(remaining, ps[..n]).1 < 19
  {
    hide Pushed;
    var n := |ps| - 1;
    assert forall i: nat :: i <= n ==> ps[..n][..i] == ps[..i];
  }

  /** Such a budget is exactly what makes an insertion leave a fragment. */
  lemma {:induction false} FragmentIffGap(remaining: nat, ps: seq<ResolvedPrompt>)
    ensures var pushed := Pushed(remaining, ps).0; Bytes(pushed) > Counted(pushed) <==> MeetsGap(remaining, ps)
    decreases |ps|
  {
    if ps != [] {
      var init, p := ps[..|ps| - 1], ps[|ps| - 1];
      FragmentIffGap(remaining, init);
      MeetsGapStep(remaining, ps);
      PushedBytes(remaining, init);
      OneMoreFragmentIff(remaining, Pushed(remaining, init), p);
      assert Pushed(remaining, ps) == PushOne(Pushed(remaining, init), p);
      hide Pushed, PushOne, Bytes, Counted, MeetsGap;
    }
  }

  lemma OneMoreFragmentIff(remaining: nat, acc: (seq<string>, nat), p: ResolvedPrompt)
    requires PushInvariant(remaining, acc)
    ensures var next := PushOne(acc, p).0;
            Bytes(next) > Counted(next) <==> Bytes(acc.0) > Counted(acc.0) || 0 < acc.1 < 19
  {
    EntryHasHeader(p);
    if acc.1 > 0 {
      var left := acc.1;
      var piece := if ByteLen(Entry(p)) > left then Truncated(Entry(p), left) else Entry(p);
      if ByteLen(Entry(p)) > left {
        CutEntry(p, left);
      }
      hide ByteLen, Entry, HasHeader, Truncated;
      AppendOne(acc.0, piece);
    }
  }

  // The remaining budget an insertion starts with.
  function Remaining(groups: seq<seq<ResolvedPrompt>>, k: nat): nat
    requires k < |groups|
  {
    Sub(MAX_TOTAL_PROMPT_CHARS, Totals(groups[..k]).0)
  }

  // An insertion with prompts of its own follows one in which an entry met such a budget.
  ghost predicate PromptsAfterGap(groups: seq<seq<ResolvedPrompt>>) {
    exists j, k :: 0 <= j < k < |groups| && MeetsGap(Remaining(groups, j), groups[j]) && groups[k] != []
  }

  /** All upstream text stays within the documented total exactly when no insertion with prompts
      of its own follows one in which an entry met a remaining budget of 1 to 18 bytes. It is never
      more than 18 bytes over for every insertion after the first. */
  lemma TotalWithinCapIff(groups: seq<seq<ResolvedPrompt>>)
    ensures Totals(groups).1 <= MAX_TOTAL_PROMPT_CHARS <==> !PromptsAfterGap(groups)
    ensures groups != [] ==> Totals(groups).1 <= MAX_TOTAL_PROMPT_CHARS + 18 * (|groups| - 1)
  {
    CapInvariant(groups);
    FragmentsAtMostOneIff(groups);
    forall j | 0 <= j < |groups| ensures LeavesFragment(groups, j) <==> MeetsGap(Remaining(groups, j), groups[j]) {
      FragmentIffGap(Remaining(groups, j), groups[j]);
    }
    hide LeavesFragment, MeetsGap, Remaining, Totals, Fragments;
  }

  // The prompts of the four insertions, in the order they are made.
  function Groups(prompts: seq<ResolvedPrompt>): (groups: seq<seq<ResolvedPrompt>>)
    ensures |groups| == 4
  {
    [Matching(prompts, BeforeMandate), Matching(prompts, AfterMandate),
     Matching(prompts, AfterHeuristics), Matching(prompts, AfterExamples)]
  }

  function Filler(n: nat): ResolvedPrompt {
    ResolvedPrompt("", seq(n, _ => 'a'), BeforeMandate)
  }

  lemma FillerLength(n: nat)
    requires n <= MAX_PROMPT_CHARS
    ensures ByteLen(Entry(Filler(n))) == 22 + n
  {
    AsciiByteLen(Filler(n).content);
    NamelessEntry(Filler(n));
  }

  lemma NamelessEntry(p: ResolvedPrompt)
    requires p.name == "" && ByteLen(p.content) <= MAX_PROMPT_CHARS
    ensures ByteLen(Entry(p)) == 22 + ByteLen(p.content)
  {
    TruncatedIsLongestPrefix(p.content, MAX_PROMPT_CHARS);
    assert Entry(p) == HEADER + ((" " + p.name + "\n\n") + p.content);
    HeaderBytes();
    AsciiGap(" " + p.name + "\n\n");
    hide ByteLen, Truncated, Entry;
    var gap := " " + p.name + "\n\n";
    ByteLenConcat(gap, p.content);
    ByteLenConcat(HEADER, gap + p.content);
  }

  lemma AsciiGap(gap: string)
    requires gap == " " + "" + "\n\n"
    ensures ByteLen(gap) == 3
  {
    hide ByteLen;
    AsciiByteLen(gap);
  }

  lemma PushedSnoc(remaining: nat, ps: seq<ResolvedPrompt>, p: ResolvedPrompt)
    ensures Pushed(remaining, ps + [p]) == PushOne(Pushed(remaining, ps), p)
  {
    assert (ps + [p])[..|ps|] == ps;
  }

  // A list of prompts that leaves exactly `left` bytes, all of its entries whole.
  ghost predicate Leaves(ps: seq<ResolvedPrompt>, left: nat) {
    var acc := Pushed(MAX_TOTAL_PROMPT_CHARS, ps);
    acc.1 == left && Counted(acc.0) == Bytes(acc.0) == MAX_TOTAL_PROMPT_CHARS - left && left <= MAX_TOTAL_PROMPT_CHARS
  }

  lemma PushWhole(acc: (seq<string>, nat), p: ResolvedPrompt)
    requires acc.1 > 0 && ByteLen(Entry(p)) <= acc.1
    ensures PushOne(acc, p) == (acc.0 + [Entry(p)], acc.1 - ByteLen(Entry(p)))
  {
  }

  lemma LeavesAfter(ps: seq<ResolvedPrompt>, left: nat, n: nat)
    requires Leaves(ps, left) && n <= MAX_PROMPT_CHARS && 22 + n <= left
    ensures Leaves(ps + [Filler(n)], left - 22 - n)
  {
    hide ByteLen, Entry, Filler, HasHeader, Pushed, PushOne;
    FillerLength(n);
    EntryHasHeader(Filler(n));
    PushedSnoc(MAX_TOTAL_PROMPT_CHARS, ps, Filler(n));
    PushWhole(Pushed(MAX_TOTAL_PROMPT_CHARS, ps), Filler(n));
    AppendOne(Pushed(MAX_TOTAL_PROMPT_CHARS, ps).0, Entry(Filler(n)));
  }

  lemma MatchingSnoc(prompts: seq<ResolvedPrompt>, p: ResolvedPrompt, position: Position)
    ensures Matching(prompts + [p], position) ==
            if p.position == position then Matching(prompts, position) + [p] else Matching(prompts, position)
  {
    assert (prompts + [p])[..|prompts|] == prompts;
  }

  // Three prompts that leave ten bytes and a fourth before the mandate, and one more after it.
  function Overflowing(): seq<ResolvedPrompt> {
    [] + [Filler(8000)] + [Filler(8000)] + [Filler(3924)] + [Filler(1)] + [Filler(1).(position := AfterMandate)]
  }

  lemma OverflowingGroups()
    ensures Groups(Overflowing())[0] == [] + [Filler(8000)] + [Filler(8000)] + [Filler(3924)] + [Filler(1)]
    ensures Groups(Overflowing())[1] == [Filler(1).(position := AfterMandate)]
  {
    var a, b, c, d := Filler(8000), Filler(8000), Filler(3924), Filler(1);
    var e := d.(position := AfterMandate);
    assert Filler(8000).position == Filler(3924).position == Filler(1).position == BeforeMandate;
    hide Filler, Matching;
    forall position | position in {BeforeMandate, AfterMandate}
      ensures Matching([] + [a] + [b] + [c] + [d] + [e], position)
              == if position == BeforeMandate then [] + [a] + [b] + [c] + [d] else [e]
    {
      NoneMatching(position);
      MatchingSnoc([], a, position);
      MatchingSnoc([] + [a], b, position);
      MatchingSnoc([] + [a] + [b], c, position);
      MatchingSnoc([] + [a] + [b] + [c], d, position);
      MatchingSnoc([] + [a] + [b] + [c] + [d], e, position);
    }
  }

  lemma NoneMatching(position: Position)
    ensures Matching([], position) == []
  {
  }

  /** A list of prompts with which the documented total is passed: the fourth entry is cut to the
      ten bytes that are left, and the fifth, at the next position, to the same ten again. */
  lemma TotalCanPassTheCap()
    ensures Totals(Groups(Overflowing())).1 > MAX_TOTAL_PROMPT_CHARS
  {
    var a, b, c, d := Filler(8000), Filler(8000), Filler(3924), Filler(1);
    assert Leaves([], MAX_TOTAL_PROMPT_CHARS);
    LeavesAfter([], 20000, 8000);
    LeavesAfter([] + [a], 11978, 8000);
    LeavesAfter([] + [a] + [b], 3956, 3924);
    OverflowingGroups();
    var groups := Groups(Overflowing());
    assert groups[..0] == [] && Remaining(groups, 0) == MAX_TOTAL_PROMPT_CHARS;
    assert groups[0][..3] == [] + [a] + [b] + [c];
    assert |groups| == 4 && |groups[0]| == 4;
    hide Filler, Totals, Groups, Overflowing, Remaining, Pushed;
    assert MeetsGap(Remaining(groups, 0), groups[0]);
    assert groups[1] != [];
    TotalWithinCapIff(groups);
  }

  // ---- the prefix ----

  /** The sections a persona contributes itself, as bodies under their fixed headings. */
  datatype PersonaText = PersonaText(
    directives: Option<string>,
    displayName: string,
    coreMandate: string,
    constraints: Option<string>,
    heuristics: Option<string>,
    examples: Option<string>)

  function Headed(heading: string, body: Option<string>): seq<string> {
    match body
    case None => []
    case Some(text) => [heading + text]
  }

  function MandateSection(p: PersonaText): string {
    "# Core Mandate: " + p.displayName + "\n\n" + p.coreMandate
  }

  function MiddleSections(p: PersonaText): seq<string> {
    Headed("## Constraints\n", p.constraints) + Headed("## Heuristics to Apply\n\n", p.heuristics)
  }

  // Bytes of the sections that are not upstream's.
  function OwnBytes(p: PersonaText): nat {
    Bytes(Headed("# Core Directives\n", p.directives)) + Bytes([MandateSection(p)])
    + Bytes(MiddleSections(p)) + Bytes(Headed("## Examples\n", p.examples))
  }

  // A persona's own sections carry no upstream header, so they count nothing.
  lemma OwnSectionsCountNothing(p: PersonaText)
    ensures Counted(Headed("# Core Directives\n", p.directives)) == 0
    ensures Counted([MandateSection(p)]) == 0
    ensures Counted(MiddleSections(p)) == 0
    ensures Counted(Headed("## Examples\n", p.examples)) == 0
  {
    NotHeader("# Core Directives\n", p.directives, 1);
    NotHeader("## Constraints\n", p.constraints, 3);
    NotHeader("## Heuristics to Apply\n\n", p.heuristics, 3);
    NotHeader("## Examples\n", p.examples, 3);
    NotHeader("# Core Mandate: ", Some(p.displayName + "\n\n" + p.coreMandate), 1);
    assert MandateSection(p) == "# Core Mandate: " + (p.displayName + "\n\n" + p.coreMandate);
    CountedConcat(Headed("## Constraints\n", p.constraints), Headed("## Heuristics to Apply\n\n", p.heuristics));
  }

  lemma NotHeader(heading: string, body: Option<string>, at: nat)
    requires at < |heading| && at < |HEADER| && heading[at] != HEADER[at]
    ensures Counted(Headed(heading, body)) == 0
  {
    if body.Some? {
      assert (heading + body.value)[at] != HEADER[at];
      AppendOne([], heading + body.value);
      assert [] + [heading + body.value] == Headed(heading, body);
    }
  }

  function Budgeted(groups: seq<seq<ResolvedPrompt>>, k: nat): seq<string>
    requires k < |groups|
  {
    Pushed(Sub(MAX_TOTAL_PROMPT_CHARS, Totals(groups[..k]).0), groups[k]).0
  }

  lemma {:induction false} TotalsStep(groups: seq<seq<ResolvedPrompt>>, k: nat)
    requires k < |groups|
    ensures Totals(groups[..k + 1]).0 == Totals(groups[..k]).0 + Counted(Budgeted(groups, k))
    ensures Totals(groups[..k + 1]).1 == Totals(groups[..k]).1 + Bytes(Budgeted(groups, k))
  {
    assert groups[..k + 1][..k] == groups[..k];
  }

  function Sections(p: PersonaText, groups: seq<seq<ResolvedPrompt>>): seq<string>
    requires |groups| == 4
  {
    Headed("# Core Directives\n", p.directives) + Budgeted(groups, 0)
    + [MandateSection(p)] + Budgeted(groups, 1)
    + MiddleSections(p) + Budgeted(groups, 2)
    + Headed("## Examples\n", p.examples) + Budgeted(groups, 3)
  }

  /** Without upstream prompts the sections are the persona's texts under their headings, each there
      if it has a text, in this order. */
  lemma SectionsSpelledOut(p: PersonaText)
    ensures Sections(p, Groups([])) ==
            (if p.directives.Some? then ["# Core Directives\n" + p.directives.value] else [])
            + ["# Core Mandate: " + p.displayName + "\n\n" + p.coreMandate]
            + (if p.constraints.Some? then ["## Constraints\n" + p.constraints.value] else [])
            + (if p.heuristics.Some? then ["## Heuristics to Apply\n\n" + p.heuristics.value] else [])
            + (if p.examples.Some? then ["## Examples\n" + p.examples.value] else [])
  {
    var g := Groups([]);
    forall k: nat | k < 4 ensures Budgeted(g, k) == [] {
      assert g[k] == [];
    }
    hide Budgeted, Groups;
    assert MiddleSections(p) == Headed("## Constraints\n", p.constraints) + Headed("## Heuristics to Apply\n\n", p.heuristics);
  }

  ghost predicate StandsAt(s: seq<string>, i: int, part: seq<string>) {
    0 <= i <= |s| - |part| && s[i..i + |part|] == part
  }

  // Counting `n` sections before the first part and `h` between the third and the fourth.
  ghost predicate Placed(s: seq<string>, n: nat, a: seq<string>, mandate: string, b: seq<string>, h: nat,
                         c: seq<string>, d: seq<string>) {
    && StandsAt(s, n, a)
    && StandsAt(s, n + |a|, [mandate])
    && StandsAt(s, n + |a| + 1, b)
    && StandsAt(s, n + |a| + 1 + |b| + h, c)
    && StandsAt(s, |s| - |d|, d)
  }

  function One(body: Option<string>): nat {
    if body.Some? then 1 else 0
  }

  /** Where the upstream sections stand: those before the mandate right before it, those after it
      right after it, those after the heuristics right after the constraints and heuristics, and
      those after the examples at the end. */
  lemma UpstreamIsPlaced(p: PersonaText, groups: seq<seq<ResolvedPrompt>>)
    requires |groups| == 4
    ensures Placed(Sections(p, groups),
                   One(p.directives), Budgeted(groups, 0),
                   "# Core Mandate: " + p.displayName + "\n\n" + p.coreMandate, Budgeted(groups, 1),
                   One(p.constraints) + One(p.heuristics), Budgeted(groups, 2),
                   Budgeted(groups, 3))
  {
    var a, b, c, d := Budgeted(groups, 0), Budgeted(groups, 1), Budgeted(groups, 2), Budgeted(groups, 3);
    var x, y, z := Headed("# Core Directives\n", p.directives), MiddleSections(p), Headed("## Examples\n", p.examples);
    hide Budgeted, Headed, MiddleSections, MandateSection, Sections, Placed, ConsistsOf, One;
    HeadedCount("# Core Directives\n", p.directives);
    MiddleCount(p);
    MandateText(p);
    SectionsOf(p, groups);
    PartsInPlace(Sections(p, groups), x, a, MandateSection(p), b, y, c, z, d);
  }

  lemma SectionsOf(p: PersonaText, groups: seq<seq<ResolvedPrompt>>)
    requires |groups| == 4
    ensures ConsistsOf(Sections(p, groups), Headed("# Core Directives\n", p.directives), Budgeted(groups, 0),
                       MandateSection(p), Budgeted(groups, 1), MiddleSections(p), Budgeted(groups, 2),
                       Headed("## Examples\n", p.examples), Budgeted(groups, 3))
  {
    hide Budgeted, MandateSection, MiddleSections, Headed;
  }

  ghost predicate ConsistsOf(s: seq<string>, x: seq<string>, a: seq<string>, mandate: string, b: seq<string>,
                             y: seq<string>, c: seq<string>, z: seq<string>, d: seq<string>)
  {
    s == x + a + [mandate] + b + y + c + z + d
  }

  lemma MandateText(p: PersonaText)
    ensures MandateSection(p) == "# Core Mandate: " + p.displayName + "\n\n" + p.coreMandate
  {
  }

  lemma HeadedCount(heading: string, body: Option<string>)
    ensures |Headed(heading, body)| == One(body)
  {
  }

  lemma PartsInPlace(s: seq<string>, x: seq<string>, a: seq<string>, mandate: string, b: seq<string>, y: seq<string>, c: seq<string>,
                     z: seq<string>, d: seq<string>)
    requires ConsistsOf(s, x, a, mandate, b, y, c, z, d)
    ensures Placed(s, |x|, a, mandate, b, |y|, c, d)
  {
  }

  lemma MiddleCount(p: PersonaText)
    ensures |MiddleSections(p)| == One(p.constraints) + One(p.heuristics)
  {
  }

  /** The sections of a prefix hold the persona's own bytes and the upstream total, so they keep
      the documented cap exactly when no position with prompts of its own follows one in which an
      entry met a remaining budget of 1 to 18 bytes. */
  lemma PrefixKeepsCapIff(p: PersonaText, prompts: seq<ResolvedPrompt>)
    ensures var g, bytes := Groups(prompts), Bytes(Sections(p, Groups(prompts)));
            && bytes == OwnBytes(p) + Totals(g).1
            && (bytes <= OwnBytes(p) + MAX_TOTAL_PROMPT_CHARS <==> !PromptsAfterGap(g))
            && bytes <= OwnBytes(p) + MAX_TOTAL_PROMPT_CHARS + 54
  {
    var g := Groups(prompts);
    FourTotals(g);
    hide Totals, Budgeted, Bytes, Headed, MandateSection, MiddleSections, PromptsAfterGap, Groups;
    TotalWithinCapIff(g);
    EightParts(Headed("# Core Directives\n", p.directives), Budgeted(g, 0), [MandateSection(p)], Budgeted(g, 1),
               MiddleSections(p), Budgeted(g, 2), Headed("## Examples\n", p.examples), Budgeted(g, 3));
  }

  lemma FourTotals(groups: seq<seq<ResolvedPrompt>>)
    requires |groups| == 4
    ensures Totals(groups).1 == Bytes(Budgeted(groups, 0)) + Bytes(Budgeted(groups, 1))
                                + Bytes(Budgeted(groups, 2)) + Bytes(Budgeted(groups, 3))
  {
    assert groups[..0] == [] && groups[..4] == groups;
    assert Totals([]) == (0, 0);
    hide Totals, Budgeted, Bytes, Counted;
    TotalsStep(groups, 0);
    TotalsStep(groups, 1);
    TotalsStep(groups, 2);
    TotalsStep(groups, 3);
  }

  lemma EightParts(a: seq<string>, b: seq<string>, c: seq<string>, d: seq<string>,
                   e: seq<string>, f: seq<string>, g: seq<string>, h: seq<string>)
    ensures Bytes(a + b + c + d + e + f + g + h)
            == Bytes(a) + Bytes(b) + Bytes(c) + Bytes(d) + Bytes(e) + Bytes(f) + Bytes(g) + Bytes(h)
  {
    hide Bytes, Counted;
    CountedConcat(a, b);
    CountedConcat(a + b, c);
    CountedConcat(a + b + c, d);
    CountedConcat(a + b + c + d, e);
    CountedConcat(a + b + c + d + e, f);
    CountedConcat(a + b + c + d + e + f, g);
    CountedConcat(a + b + c + d + e + f + g, h);
  }

  lemma FourGroups(prompts: seq<ResolvedPrompt>)
    ensures var g := Groups(prompts);
            && g[0] == Matching(prompts, BeforeMandate) && g[1] == Matching(prompts, AfterMandate)
            && g[2] == Matching(prompts, AfterHeuristics) && g[3] == Matching(prompts, AfterExamples)
            && g[..4] == g && Totals(g[..0]).0 == 0 && Totals(g).0 <= MAX_TOTAL_PROMPT_CHARS
  {
    hide Matching;
    CapInvariant(Groups(prompts));
  }

  /** Builds the section list: every section of the persona, in order and whole, with what each
      of the four insertions adds between them. The counted upstream sections stay within the cap
      although every insertion recounts them among the others. */
  method BuildCacheablePrefix(p: PersonaText, prompts: seq<ResolvedPrompt>) returns (sections: seq<string>)
    ensures sections == Sections(p, Groups(prompts))
    ensures Counted(sections) == Totals(Groups(prompts)).0 <= MAX_TOTAL_PROMPT_CHARS
  {
    ghost var g := Groups(prompts);
    hide Groups, Totals, Budgeted, Counted, Matching, MandateSection, MiddleSections, Headed;
    OwnSectionsCountNothing(p);
    FourGroups(prompts);
    sections := Headed("# Core Directives\n", p.directives);
    sections := Insert(sections, prompts, BeforeMandate, g, 0);
    CountedConcat(sections, [MandateSection(p)]);
    sections := sections + [MandateSection(p)];
    sections := Insert(sections, prompts, AfterMandate, g, 1);
    CountedConcat(sections, MiddleSections(p));
    sections := sections + MiddleSections(p);
    sections := Insert(sections, prompts, AfterHeuristics, g, 2);
    CountedConcat(sections, Headed("## Examples\n", p.examples));
    sections := sections + Headed("## Examples\n", p.examples);
    sections := Insert(sections, prompts, AfterExamples, g, 3);
  }

  // One insertion, with its effect on the recount.
  method Insert(sections: seq<string>, prompts: seq<ResolvedPrompt>, position: Position,
                ghost groups: seq<seq<ResolvedPrompt>>, ghost k: nat) returns (r: seq<string>)
    requires k < |groups| && groups[k] == Matching(prompts, position)
    requires Counted(sections) == Totals(groups[..k]).0
    ensures r == sections + Budgeted(groups, k)
    ensures Counted(r) == Totals(groups[..k + 1]).0
  {
    r := InjectAtPosition(sections, prompts, position);
    CountedConcat(sections, Budgeted(groups, k));
    TotalsStep(groups, k);
  }
}
