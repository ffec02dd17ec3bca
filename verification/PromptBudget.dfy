/** The token budget for prompts: the estimate, the split of the window, the truncation of
    retrieved context and the assembly of the full prompt. Floating-point factors 3.5 and 0.6 are
    exact fractions here; token counts saturate at 32 bits as the casts do. */
module PromptBudget {
  import opened Decimal
  import opened Utf8
  import opened Wrappers

  const U32_MAX: nat := 0xFFFF_FFFF

  // ceil(bytes / 3.5)
  function Tokens(bytes: nat): (t: nat)
    ensures t <= U32_MAX && 2 * bytes <= 7 * U32_MAX ==> 2 * bytes <= 7 * t < 2 * bytes + 7
    ensures 2 * bytes > 7 * U32_MAX ==> t == U32_MAX
  {
    Min((2 * bytes + 6) / 7, U32_MAX)
  }

  function EstimateTokens(text: string): nat {
    Tokens(ByteLen(text))
  }

  class ContextBudget {
    const total: nat
    const outputReserve: nat
    var systemPromptTokens: nat

    constructor (totalTokens: nat)
      ensures total == totalTokens && outputReserve == totalTokens / 5 && systemPromptTokens == 0
    {
      total := totalTokens;
      outputReserve := totalTokens / 5;
      systemPromptTokens := 0;
    }

    method SetSystemPrompt(systemPrompt: string)
      modifies this
      ensures systemPromptTokens == EstimateTokens(systemPrompt)
    {
      systemPromptTokens := EstimateTokens(systemPrompt);
    }

    function Available(): (n: nat)
      reads this
      ensures systemPromptTokens + outputReserve <= total ==> n + systemPromptTokens + outputReserve == total
      ensures systemPromptTokens + outputReserve > total ==> n == 0
    {
      Sub(Sub(total, systemPromptTokens), outputReserve)
    }

    /** History gets 60% of what is available, rounded down, and context all the rest. */
    function Split(): (r: (nat, nat))
      reads this
      ensures r.0 + r.1 == Available()
      ensures 5 * r.0 <= 3 * Available() < 5 * r.0 + 5
    {
      var history := 3 * Available() / 5;
      (history, Available() - history)
    }
  }

  // ---- truncation ----

  predicate OccursAt(s: string, j: int, pat: string) {
    0 <= j <= |s| - |pat| && s[j..j + |pat|] == pat
  }

  // The last place up to `from` where `pat` occurs in `s`, or -1.
  function RFindFrom(s: string, pat: string, from: int): (i: int)
    requires from >= -1
    ensures -1 <= i <= from
    ensures i >= 0 ==> OccursAt(s, i, pat)
    ensures forall j :: OccursAt(s, j, pat) && j <= from ==> j <= i
    decreases from
  {
    if from < 0 then -1
    else if OccursAt(s, from, pat) then from
    else RFindFrom(s, pat, from - 1)
  }

  function RFind(s: string, pat: string): (i: int)
    ensures i >= 0 ==> OccursAt(s, i, pat)
    ensures forall j :: OccursAt(s, j, pat) ==> 0 <= j <= i
  {
    RFindFrom(s, pat, |s|)
  }

  // Characters kept of a slice: up to and including the last full stop or line break, else all.
  function CutPoint(slice: string): (n: nat)
    ensures n <= |slice|
  {
    var p := RFind(slice, ". ");
    if p >= 0 then p + 1
    else
      var q := RFind(slice, ".\n");
      if q >= 0 then q + 1
      else
        var r := RFind(slice, "\n");
        if r >= 0 then r + 1 else |slice|
  }

  function Notice(remaining: nat): string {
    "\n[truncated " + (['\U{2014}'] + (" " + (Digits(remaining) + " more chars]")))
  }

  // floor(3.5 * maxTokens)
  function TargetBytes(maxTokens: nat): (t: nat)
    ensures 2 * t <= 7 * maxTokens < 2 * t + 2
  {
    7 * maxTokens / 2
  }

  /** The truncated text, or None where slicing inside a character would panic. */
  function TruncateToBudget(text: string, maxTokens: nat): Option<string> {
    if EstimateTokens(text) <= maxTokens then Some(text)
    else if TargetBytes(maxTokens) < 50 then Some("")
    else
      var cutAt := TargetBytes(maxTokens) - 40;
      var i := BoundaryIndex(text, Min(cutAt, ByteLen(text)));
      if i < 0 then None
      else
        var n := CutPoint(text[..i]);
        var truncated := text[..n];
        PrefixBytesMonotone(text, n, |text|);
        assert text[..|text|] == text;
        Some(truncated + Notice(ByteLen(text) - ByteLen(truncated)))
  }

  // The last occurrence of `pat` in `s` is at `j`.
  ghost predicate LastAt(s: string, j: int, pat: string) {
    OccursAt(s, j, pat) && forall i :: OccursAt(s, i, pat) ==> i <= j
  }

  ghost predicate Occurs(s: string, pat: string) {
    exists j :: OccursAt(s, j, pat)
  }

  // What is kept of a slice: it ends after the full stop of the last ". ", else of the last
  // ".\n", else after the last line break, else it is all of it.
  ghost predicate EndsWell(slice: string, n: nat) {
    if Occurs(slice, ". ") then LastAt(slice, n - 1, ". ")
    else if Occurs(slice, ".\n") then LastAt(slice, n - 1, ".\n")
    else if Occurs(slice, "\n") then LastAt(slice, n - 1, "\n")
    else n == |slice|
  }

  // The first `k` bytes of a text.
  ghost predicate FirstBytes(text: string, k: nat, slice: string) {
    slice <= text && ByteLen(slice) == k
  }

  ghost predicate InsideCharacter(text: string, k: nat) {
    forall slice :: !FirstBytes(text, k, slice)
  }

  lemma FirstBytesIff(text: string, k: nat)
    ensures var i := BoundaryIndex(text, k);
            if i >= 0 then forall slice :: FirstBytes(text, k, slice) <==> slice == text[..i]
            else InsideCharacter(text, k)
  {
    var i := BoundaryIndex(text, k);
    forall slice | FirstBytes(text, k, slice) ensures i >= 0 && slice == text[..i] {
      assert slice == text[..|slice|];
      if i >= 0 {
        PrefixBytesMonotone(text, if i < |slice| then i else |slice|, if i < |slice| then |slice| else i);
      }
    }
  }

  /** What truncation gives, spelled out. A text within its budget is left alone; a budget under 50
      bytes leaves nothing; where the reserve is taken off inside a character the slice panics.
      Otherwise the text is kept up to the end of its last sentence or line in those bytes, or all
      of them, and the notice counts the bytes left out. */
  lemma TruncationKeeps(text: string, maxTokens: nat, slice: string) returns (n: nat)
    requires maxTokens <= U32_MAX
    ensures EstimateTokens(text) <= maxTokens ==> TruncateToBudget(text, maxTokens) == Some(text)
    ensures EstimateTokens(text) > maxTokens && 7 * maxTokens / 2 < 50 ==> TruncateToBudget(text, maxTokens) == Some("")
    ensures EstimateTokens(text) > maxTokens && 7 * maxTokens / 2 >= 50 ==>
              && (TruncateToBudget(text, maxTokens).None? <==> InsideCharacter(text, 7 * maxTokens / 2 - 40))
              && (FirstBytes(text, 7 * maxTokens / 2 - 40, slice) ==>
                    && n <= |slice| <= |text| && EndsWell(slice, n) && ByteLen(text[..n]) <= ByteLen(text)
                    && TruncateToBudget(text, maxTokens)
                       == Some(text[..n] + ("\n[truncated \U{2014} " + Digits(ByteLen(text) - ByteLen(text[..n])) + " more chars]")))
  {
    n := 0;
    var cutAt := 7 * maxTokens / 2 - 40;
    if EstimateTokens(text) > maxTokens && cutAt >= 10 {
      var i := BoundaryIndex(text, cutAt);
      FirstBytesIff(text, cutAt);
      CutCase(text, maxTokens);
      if i >= 0 {
        assert FirstBytes(text, cutAt, text[..i]);
        n := CutPoint(text[..i]);
      }
      hide ByteLen, CutPoint, BoundaryIndex, Notice, Digits, EndsWell, FirstBytes, EstimateTokens, TruncateToBudget;
    }
  }

  lemma CutCase(text: string, maxTokens: nat)
    requires maxTokens <= U32_MAX && EstimateTokens(text) > maxTokens && 7 * maxTokens / 2 >= 50
    ensures var i := BoundaryIndex(text, 7 * maxTokens / 2 - 40);
            if i < 0 then TruncateToBudget(text, maxTokens) == None
            else
              var n := CutPoint(text[..i]);
              && n <= i && EndsWell(text[..i], n) && ByteLen(text[..n]) <= ByteLen(text)
              && TruncateToBudget(text, maxTokens)
                 == Some(text[..n] + ("\n[truncated \U{2014} " + Digits(ByteLen(text) - ByteLen(text[..n])) + " more chars]"))
  {
    var cutAt := 7 * maxTokens / 2 - 40;
    var i := BoundaryIndex(text, cutAt);
    assert Min(cutAt, ByteLen(text)) == cutAt;
    if i >= 0 {
      hide ByteLen, CutPoint, BoundaryIndex, Notice, Digits, EndsWell;
      var n := CutPoint(text[..i]);
      CutEndsWell(text[..i]);
      LeftOut(text, n);
      assert text[..i][..n] == text[..n];
      NoticeText(ByteLen(text) - ByteLen(text[..n]));
    }
  }

  lemma CutEndsWell(slice: string)
    ensures EndsWell(slice, CutPoint(slice))
  {
    hide OccursAt;
    assert Occurs(slice, ". ") ==> RFind(slice, ". ") >= 0;
    assert Occurs(slice, ".\n") ==> RFind(slice, ".\n") >= 0;
    assert Occurs(slice, "\n") ==> RFind(slice, "\n") >= 0;
  }

  lemma NoticeText(remaining: nat)
    ensures Notice(remaining) == "\n[truncated \U{2014} " + Digits(remaining) + " more chars]"
  {
    hide Digits;
    assert ("\n[truncated " + ['\U{2014}']) + " " == "\n[truncated \U{2014} ";
  }

  lemma NoticeLength(remaining: nat)
    ensures ByteLen(Notice(remaining)) == 28 + |Digits(remaining)|
  {
    AsciiByteLen(Digits(remaining));
    NoticePieces();
    hide Digits, ByteLen;
    FiveParts("\n[truncated ", ['\U{2014}'], " ", Digits(remaining), " more chars]");
  }

  lemma NoticePieces()
    ensures ByteLen("\n[truncated ") == 12 && ByteLen(['\U{2014}']) == 3
    ensures ByteLen(" ") == 1 && ByteLen(" more chars]") == 12
  {
    EmDash();
    hide ByteLen;
    AsciiByteLen("\n[truncated ");
    AsciiByteLen(" ");
    AsciiByteLen(" more chars]");
  }

  lemma EmDash()
    ensures ByteLen(['\U{2014}']) == 3
  {
    assert ['\U{2014}'][1..] == [];
  }

  lemma FiveParts(a: string, b: string, c: string, d: string, e: string)
    ensures ByteLen(a + (b + (c + (d + e)))) == ByteLen(a) + ByteLen(b) + ByteLen(c) + ByteLen(d) + ByteLen(e)
  {
    hide ByteLen;
    ByteLenConcat(a, b + (c + (d + e)));
    ByteLenConcat(b, c + (d + e));
    ByteLenConcat(c, d + e);
    ByteLenConcat(d, e);
  }

  // The cut keeps no more bytes than asked for.
  lemma CutIsWithin(text: string, i: nat, cutAt: nat)
    requires i <= |text| && ByteLen(text[..i]) <= cutAt
    ensures ByteLen(text[..CutPoint(text[..i])]) <= cutAt
  {
    PrefixBytesMonotone(text, CutPoint(text[..i]), i);
  }

  /** Truncated text never estimates above its budget, notice included, as long as fewer than
      10^12 bytes are left out. */
  lemma TruncationFits(text: string, maxTokens: nat)
    requires maxTokens <= U32_MAX && ByteLen(text) < Pow10(12)
    ensures var r := TruncateToBudget(text, maxTokens);
            r.Some? ==> EstimateTokens(r.value) <= maxTokens
  {
    hide TruncateToBudget, EstimateTokens, Tokens, ByteLen, Pow10, BoundaryIndex, CutPoint, TargetBytes, Notice, Digits;
    var _ := TruncationKeeps(text, maxTokens, "");
    NothingCostsNothing();
    if EstimateTokens(text) > maxTokens && TargetBytes(maxTokens) >= 50 {
      var cutAt := TargetBytes(maxTokens) - 40;
      if BoundaryIndex(text, cutAt) >= 0 {
        TruncationFitsIff(text, maxTokens);
        var kept := ByteLen(text[..CutPoint(text[..BoundaryIndex(text, cutAt)])]);
        PowersGrow(12, 12 + (cutAt - kept));
      } else {
        CutCase(text, maxTokens);
      }
    }
  }

  lemma NothingCostsNothing()
    ensures EstimateTokens("") == 0
  {
  }

  lemma {:induction false} PowersGrow(k: nat, n: nat)
    requires k <= n
    ensures Pow10(k) <= Pow10(n)
  {
    if k < n {
      PowersGrow(k, n - 1);
    }
  }

  lemma LeftOut(text: string, i: nat)
    requires i <= |text|
    ensures ByteLen(text[..i]) <= ByteLen(text)
  {
    PrefixBytesMonotone(text, i, |text|);
    assert text[..|text|] == text;
  }

  lemma CutLength(kept: string, remaining: nat)
    ensures ByteLen(kept + Notice(remaining)) == ByteLen(kept) + 28 + |Digits(remaining)|
  {
    NoticeLength(remaining);
    ByteLenConcat(kept, Notice(remaining));
  }

  /** Beyond that the digits of the notice can outgrow what is reserved for it. A truncated text
      fits exactly when the bytes left out have at most 12 digits, and one more for every byte that
      ending at a sentence or line gave up. */
  lemma TruncationFitsIff(text: string, maxTokens: nat)
    requires TargetBytes(maxTokens) >= 50 && EstimateTokens(text) > maxTokens
    requires BoundaryIndex(text, TargetBytes(maxTokens) - 40) >= 0
    ensures var cutAt := TargetBytes(maxTokens) - 40;
            var kept := ByteLen(text[..CutPoint(text[..BoundaryIndex(text, cutAt)])]);
            var r := TruncateToBudget(text, maxTokens);
            && kept <= cutAt && kept <= ByteLen(text) && r.Some?
            && (EstimateTokens(r.value) <= maxTokens <==> ByteLen(text) - kept < Pow10(12 + (cutAt - kept)))
  {
    var cutAt := TargetBytes(maxTokens) - 40;
    var i := BoundaryIndex(text, cutAt);
    var n := CutPoint(text[..i]);
    assert text[..i][..n] == text[..n];
    CutIsWithin(text, i, cutAt);
    LeftOut(text, n);
    var kept := ByteLen(text[..n]);
    var remaining := ByteLen(text) - kept;
    assert TruncateToBudget(text, maxTokens) == Some(text[..n] + Notice(remaining));
    hide TruncateToBudget, ByteLen, BoundaryIndex, Notice, CutPoint, Pow10, Digits;
    DigitCount(remaining, 12 + (cutAt - kept));
    CutLength(text[..n], remaining);
    FitsIffShortNotice(maxTokens, kept, |Digits(remaining)|);
  }

  lemma FitsIffShortNotice(maxTokens: nat, kept: nat, digits: nat)
    requires maxTokens < U32_MAX && TargetBytes(maxTokens) >= 50
    ensures Tokens(kept + 28 + digits) <= maxTokens <==> digits <= 12 + (TargetBytes(maxTokens) - 40 - kept)
  {
  }

  /** ASCII text is never sliced inside a character, so it always has a truncation. */
  lemma AsciiNeverPanics(text: string, maxTokens: nat)
    requires Ascii(text)
    ensures TruncateToBudget(text, maxTokens).Some?
  {
    if EstimateTokens(text) > maxTokens && TargetBytes(maxTokens) >= 50 {
      AsciiByteLen(text);
      var k := Min(TargetBytes(maxTokens) - 40, ByteLen(text));
      AsciiByteLen(text[..k]);
    }
  }

  // ---- assembly ----

  function BuildDynamicContext(context: Option<string>): string {
    match context
    case Some(ctx) => if ctx != [] then "### Retrieved Context ###\n" + ctx + "\n---" else ""
    case None => ""
  }

  datatype Prompt = Prompt(dynamicContext: string, estimatedTokens: nat)

  function FullPrompt(prefix: string, dynamicContext: string): string {
    if dynamicContext == [] then prefix else dynamicContext + "\n\n" + prefix
  }

  // The share of a window of `limit` tokens left for context after a system prompt of `sys` tokens.
  function ContextShare(limit: nat, sys: nat): nat {
    var avail := Sub(Sub(limit, sys), limit / 5);
    avail - 3 * avail / 5
  }

  function HistoryShare(limit: nat, sys: nat): nat {
    3 * Sub(Sub(limit, sys), limit / 5) / 5
  }

  /** When prompt and reserve fit, the shares and they add up to the window, history having 60% of
      the rest rounded down. */
  lemma SharesAddUp(limit: nat, sys: nat)
    requires sys + limit / 5 <= limit
    ensures sys + limit / 5 + HistoryShare(limit, sys) + ContextShare(limit, sys) == limit
    ensures 5 * HistoryShare(limit, sys) <= 3 * (limit - sys - limit / 5) < 5 * HistoryShare(limit, sys) + 5
  {
  }

  /** The budgeted part of assembling a prompt: retrieved context is cut to its share, the
      prefix never is. */
  method AssembleFull(prefix: string, context: Option<string>, limit: Option<nat>) returns (r: Option<Prompt>)
    requires limit.Some? ==> limit.value <= U32_MAX
    ensures r.None? <==>
              limit.Some? && context.Some?
              && TruncateToBudget(BuildDynamicContext(context), ContextShare(limit.value, EstimateTokens(prefix))).None?
    ensures r.Some? ==>
              && r.value.estimatedTokens == EstimateTokens(FullPrompt(prefix, r.value.dynamicContext))
              && r.value.dynamicContext ==
                   if limit.Some? && context.Some?
                   then TruncateToBudget(BuildDynamicContext(context), ContextShare(limit.value, EstimateTokens(prefix))).value
                   else BuildDynamicContext(context)
    ensures r.Some? && (context.None? || context.value == []) && limit.None? ==> r.value.dynamicContext == ""
    ensures r.Some? && context.Some? && context.value != [] && limit.None? ==>
              r.value.dynamicContext == "### Retrieved Context ###\n" + context.value + "\n---"
    ensures r.Some? ==>
              r.value.estimatedTokens == EstimateTokens(
                if r.value.dynamicContext == "" then prefix else r.value.dynamicContext + "\n\n" + prefix)
    ensures r.Some? && limit.Some? && context.Some? && ByteLen(BuildDynamicContext(context)) < Pow10(12) ==>
              r.value.estimatedTokens <= EstimateTokens(prefix) + ContextShare(limit.value, EstimateTokens(prefix)) + 1
  {
    var dynamicContext := BuildDynamicContext(context);
    if limit.Some? && context.Some? {
      var budget := new ContextBudget(limit.value);
      budget.SetSystemPrompt(prefix);
      var (_, contextBudget) := budget.Split();
      assert contextBudget == ContextShare(limit.value, EstimateTokens(prefix));
      if ByteLen(dynamicContext) < Pow10(12) {
        TruncationFits(dynamicContext, contextBudget);
      }
      if EstimateTokens(dynamicContext) > contextBudget {
        var cut := TruncateToBudget(dynamicContext, contextBudget);
        if cut.None? {
          return None;
        }
        dynamicContext := cut.value;
      }
    }
    JoinCostsOneToken(prefix, dynamicContext);
    r := Some(Prompt(dynamicContext, EstimateTokens(FullPrompt(prefix, dynamicContext))));
  }

  // Joining two texts with a blank line costs at most one token more than the texts apart.
  lemma JoinCostsOneToken(prefix: string, dynamicContext: string)
    ensures EstimateTokens(FullPrompt(prefix, dynamicContext)) <= EstimateTokens(dynamicContext) + EstimateTokens(prefix) + 1
  {
    ByteLenConcat(dynamicContext + "\n\n", prefix);
    ByteLenConcat(dynamicContext, "\n\n");
    AsciiByteLen("\n\n");
  }

  /** The whole window: prompt, history share and output reserve together exceed the limit by at
      most one token, provided the system prompt and the reserve fit in it at all. */
  lemma WindowIsKept(prefix: string, dynamicContext: string, limit: nat)
    requires EstimateTokens(prefix) + limit / 5 <= limit
    requires EstimateTokens(dynamicContext) <= ContextShare(limit, EstimateTokens(prefix))
    ensures EstimateTokens(FullPrompt(prefix, dynamicContext)) + HistoryShare(limit, EstimateTokens(prefix)) + limit / 5
            <= limit + 1
  {
    JoinCostsOneToken(prefix, dynamicContext);
  }

  // How far 3.5 times the estimate overshoots the bytes, in half bytes.
  function Slack(bytes: nat): nat {
    7 * ((2 * bytes + 6) / 7) - 2 * bytes
  }

  /** The prompt costs one token more than its parts exactly when the two parts together were
      rounded up by less than the blank line between them, and 32 bits can hold the sum. */
  lemma ExtraTokenIff(prefix: string, dynamicContext: string)
    requires dynamicContext != []
    ensures EstimateTokens(FullPrompt(prefix, dynamicContext))
            == EstimateTokens(dynamicContext) + EstimateTokens(prefix) + 1
            <==> Slack(ByteLen(dynamicContext)) + Slack(ByteLen(prefix)) < 4
                 && EstimateTokens(dynamicContext) + EstimateTokens(prefix) < U32_MAX
  {
    hide ByteLen, Tokens, Slack;
    ByteLenConcat(dynamicContext + "\n\n", prefix);
    ByteLenConcat(dynamicContext, "\n\n");
    AsciiByteLen("\n\n");
    ExtraTokenOfBytes(ByteLen(dynamicContext), ByteLen(prefix));
  }

  lemma ExtraTokenOfBytes(d: nat, p: nat)
    ensures Tokens(d + 2 + p) == Tokens(d) + Tokens(p) + 1
            <==> Slack(d) + Slack(p) < 4 && Tokens(d) + Tokens(p) < U32_MAX
  {
  }
}
