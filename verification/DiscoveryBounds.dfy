/** The bounds on what an upstream server may register: number of tools, depth of their schemas,
    length of their descriptions, total size. */
module DiscoveryBounds {
  import opened Utf8
  import opened CanonicalJson
  import opened Wrappers

  datatype Tool = Tool(name: string, description: Option<string>, inputSchema: seq<(string, Value)>)

  datatype Bounds = Bounds(
    maxTools: nat,
    maxInputSchemaDepth: nat,
    maxDescriptionLength: nat,
    maxTotalDefinitionBytes: nat,
    truncateOversized: bool)

  datatype Violation =
    | TooManyTools(count: nat)
    | SchemaTooDeep(tool: string, depth: nat)
    | DescriptionTooLong(tool: string, length: nat)
    | TotalTooLarge

  datatype Result<T> = Ok(value: T) | Err(violation: Violation)

  // ---- nesting depth ----

  predicate IsContainer(v: Value) { v.Object? || v.Array? }

  function Arity(v: Value): nat
    requires IsContainer(v)
  {
    if v.Array? then |v.items| else |v.members|
  }

  function Child(v: Value, i: nat): (c: Value)
    requires IsContainer(v) && i < Arity(v)
  {
    if v.Array? then v.items[i] else v.members[i].1
  }

  function JsonDepth(v: Value): nat
    decreases v, 1, 0
  {
    if IsContainer(v) then DeepestChild(v, Arity(v)) + 1 else 0
  }

  // The greatest depth among the first `n` children.
  function DeepestChild(v: Value, n: nat): nat
    requires IsContainer(v) && n <= Arity(v)
    decreases v, 0, n
  {
    if n == 0 then 0
    else
      var before, last := DeepestChild(v, n - 1), JsonDepth(Child(v, n - 1));
      if last >= before then last else before
  }

  function SchemaDepth(schema: seq<(string, Value)>): nat {
    JsonDepth(Object(schema))
  }

  /** `path` leads from `v` down through containers only. */
  ghost predicate Nested(v: Value, path: seq<nat>)
    decreases |path|
  {
    IsContainer(v) && (path == [] || (path[0] < Arity(v) && Nested(Child(v, path[0]), path[1..])))
  }

  lemma {:induction false} EveryChildCounts(v: Value, n: nat, i: nat)
    requires IsContainer(v) && i < n <= Arity(v)
    ensures JsonDepth(Child(v, i)) <= DeepestChild(v, n)
  {
    if i < n - 1 {
      EveryChildCounts(v, n - 1, i);
    }
  }

  lemma {:induction false} SomeChildIsDeepest(v: Value, n: nat) returns (i: nat)
    requires IsContainer(v) && 0 < n <= Arity(v)
    ensures i < n && JsonDepth(Child(v, i)) == DeepestChild(v, n)
  {
    i := n - 1;
    if n > 1 && JsonDepth(Child(v, n - 1)) < DeepestChild(v, n - 1) {
      i := SomeChildIsDeepest(v, n - 1);
    }
  }

  lemma {:induction false} NoPathIsDeeper(v: Value, path: seq<nat>)
    requires Nested(v, path)
    ensures |path| < JsonDepth(v)
    decreases |path|
  {
    if path != [] {
      NoPathIsDeeper(Child(v, path[0]), path[1..]);
      EveryChildCounts(v, Arity(v), path[0]);
    }
  }

  lemma {:induction false} SomePathIsAsDeep(v: Value) returns (path: seq<nat>)
    requires IsContainer(v)
    ensures Nested(v, path) && |path| + 1 == JsonDepth(v)
    decreases v
  {
    path := [];
    if JsonDepth(v) > 1 {
      var i := SomeChildIsDeepest(v, Arity(v));
      var rest := SomePathIsAsDeep(Child(v, i));
      path := [i] + rest;
      assert path[1..] == rest;
    }
  }

  /** The depth is the number of containers on the longest chain of nested containers. */
  lemma DepthIsLongestNesting(v: Value, d: nat)
    ensures JsonDepth(v) > d <==> exists path: seq<nat> :: |path| == d && Nested(v, path)
  {
    if JsonDepth(v) > d {
      var path := SomePathIsAsDeep(v);
      PrefixesNest(v, path, d);
      assert |path[..d]| == d;
    }
    if path: seq<nat> :| |path| == d && Nested(v, path) {
      NoPathIsDeeper(v, path);
    }
  }

  /** By shape: a scalar has no depth, an empty array or object depth one, and any other is one deeper
      than its deepest element. */
  lemma DepthByShape(v: Value)
    ensures v.Null? || v.Bool? || v.Number? || v.Str? ==> JsonDepth(v) == 0
    ensures v == Array([]) || v == Object([]) ==> JsonDepth(v) == 1
    ensures v.Array? && v.items != [] ==>
              && (forall i :: 0 <= i < |v.items| ==> JsonDepth(v.items[i]) < JsonDepth(v))
              && exists i :: 0 <= i < |v.items| && JsonDepth(v.items[i]) + 1 == JsonDepth(v)
    ensures v.Object? && v.members != [] ==>
              && (forall i :: 0 <= i < |v.members| ==> JsonDepth(v.members[i].1) < JsonDepth(v))
              && exists i :: 0 <= i < |v.members| && JsonDepth(v.members[i].1) + 1 == JsonDepth(v)
  {
    if IsContainer(v) && Arity(v) > 0 {
      forall i: nat | i < Arity(v) ensures JsonDepth(Child(v, i)) < JsonDepth(v) {
        EveryChildCounts(v, Arity(v), i);
      }
      var k := SomeChildIsDeepest(v, Arity(v));
      assert JsonDepth(Child(v, k)) + 1 == JsonDepth(v);
      if v.Array? {
        assert JsonDepth(v.items[k]) + 1 == JsonDepth(v);
        assert forall i :: 0 <= i < |v.items| ==> Child(v, i) == v.items[i];
      } else {
        assert JsonDepth(v.members[k].1) + 1 == JsonDepth(v);
        assert forall i :: 0 <= i < |v.members| ==> Child(v, i) == v.members[i].1;
      }
    }
  }

  lemma {:induction false} PrefixesNest(v: Value, path: seq<nat>, d: nat)
    requires Nested(v, path) && d <= |path|
    ensures Nested(v, path[..d])
    decreases d
  {
    if d > 0 {
      PrefixesNest(Child(v, path[0]), path[1..], d - 1);
      assert path[..d][1..] == path[1..][..d - 1];
    }
  }

  // ---- enforcement ----

  const ELLIPSIS := "\U{2026}[truncated]"

  predicate TooLong(b: Bounds, t: Tool) {
    t.description.Some? && ByteLen(t.description.value) > b.maxDescriptionLength
  }

  // The tool as it is registered.
  function Bounded(b: Bounds, t: Tool): Tool {
    if TooLong(b, t)
    then t.(description := Some(Truncated(t.description.value, b.maxDescriptionLength) + ELLIPSIS))
    else t
  }

  function BoundedAll(b: Bounds, tools: seq<Tool>): seq<Tool> {
    seq(|tools|, i requires 0 <= i < |tools| => Bounded(b, tools[i]))
  }

  function Total(size: Tool -> nat, tools: seq<Tool>): nat {
    if tools == [] then 0 else Total(size, tools[..|tools| - 1]) + size(tools[|tools| - 1])
  }

  function Kept(b: Bounds, tools: seq<Tool>): seq<Tool> {
    if |tools| > b.maxTools then tools[..b.maxTools] else tools
  }

  predicate Passes(b: Bounds, t: Tool) {
    SchemaDepth(t.inputSchema) <= b.maxInputSchemaDepth && (TooLong(b, t) ==> b.truncateOversized)
  }

  // What no truncation can repair, and in reject mode what truncation would.
  ghost predicate Acceptable(b: Bounds, tools: seq<Tool>, size: Tool -> nat) {
    && (|tools| > b.maxTools ==> b.truncateOversized)
    && (forall t :: t in Kept(b, tools) ==> Passes(b, t))
    && Total(size, BoundedAll(b, Kept(b, tools))) <= b.maxTotalDefinitionBytes
  }

  // Nothing is wrong before tool `i`.
  ghost predicate CleanUpTo(b: Bounds, kept: seq<Tool>, size: Tool -> nat, i: nat)
    requires i <= |kept|
  {
    && (forall t :: t in kept[..i] ==> Passes(b, t))
    && Total(size, BoundedAll(b, kept)[..i]) <= b.maxTotalDefinitionBytes
  }

  // The violation is the first one, in the order the tools and the bounds are looked at.
  ghost predicate Blames(b: Bounds, tools: seq<Tool>, size: Tool -> nat, v: Violation) {
    if |tools| > b.maxTools && !b.truncateOversized then v == TooManyTools(|tools|)
    else
      var kept := Kept(b, tools);
      exists i: nat :: i < |kept| && CleanUpTo(b, kept, size, i) && BlamesTool(b, kept, size, i, v)
  }

  ghost predicate BlamesTool(b: Bounds, kept: seq<Tool>, size: Tool -> nat, i: nat, v: Violation)
    requires i < |kept|
  {
    if SchemaDepth(kept[i].inputSchema) > b.maxInputSchemaDepth then
      v == SchemaTooDeep(kept[i].name, SchemaDepth(kept[i].inputSchema))
    else if !Passes(b, kept[i]) then
      v == DescriptionTooLong(kept[i].name, ByteLen(kept[i].description.value))
    else
      v == TotalTooLarge && Total(size, BoundedAll(b, kept)[..i + 1]) > b.maxTotalDefinitionBytes
  }

  lemma {:induction false} TotalMonotone(size: Tool -> nat, tools: seq<Tool>, k: nat)
    requires k <= |tools|
    ensures Total(size, tools[..k]) <= Total(size, tools)
    decreases |tools|
  {
    if k == |tools| {
      assert tools[..k] == tools;
    } else {
      TotalMonotone(size, tools[..|tools| - 1], k);
      assert tools[..|tools| - 1][..k] == tools[..k];
    }
  }

  lemma TotalOfNone(size: Tool -> nat)
    ensures Total(size, []) == 0
  {
  }

  lemma TotalStep(size: Tool -> nat, tools: seq<Tool>, k: nat)
    requires k < |tools|
    ensures Total(size, tools[..k + 1]) == Total(size, tools[..k]) + size(tools[k])
    ensures tools[..k + 1] == tools[..k] + [tools[k]]
  {
    assert tools[..k + 1][..k] == tools[..k];
  }

  // ---- what that means, in terms of the tools ----

  // No chain of nested containers in the schema, the schema itself included, is longer.
  ghost predicate NestsAtMost(t: Tool, depth: nat) {
    forall path: seq<nat> :: Nested(Object(t.inputSchema), path) ==> |path| < depth
  }

  // The first tools, up to the limit, in order: each as it was, or with a description over the
  // limit cut to it and marked.
  ghost predicate RegisteredAs(b: Bounds, tools: seq<Tool>, registered: seq<Tool>) {
    && |registered| == (if |tools| > b.maxTools then b.maxTools else |tools|)
    && forall i :: 0 <= i < |registered| ==>
         var t := tools[i];
         if t.description.Some? && ByteLen(t.description.value) > b.maxDescriptionLength
         then registered[i] == t.(description :=
                Some(Truncated(t.description.value, b.maxDescriptionLength) + "\U{2026}[truncated]"))
         else registered[i] == t
  }

  // No count or description is over its limit.
  ghost predicate WithinLimits(b: Bounds, tools: seq<Tool>) {
    && |tools| <= b.maxTools
    && forall t :: t in tools && t.description.Some? ==> ByteLen(t.description.value) <= b.maxDescriptionLength
  }

  // What a violation says is so.
  ghost predicate Justified(b: Bounds, tools: seq<Tool>, size: Tool -> nat, v: Violation) {
    match v
    case TooManyTools(n) => n == |tools| > b.maxTools && !b.truncateOversized
    case SchemaTooDeep(name, d) =>
      exists t, path :: t in tools && t.name == name && Nested(Object(t.inputSchema), path)
                        && d == |path| + 1 && d > b.maxInputSchemaDepth
    case DescriptionTooLong(name, n) =>
      !b.truncateOversized
      && exists t :: t in tools && t.name == name && t.description.Some?
                     && n == ByteLen(t.description.value) > b.maxDescriptionLength
    case TotalTooLarge => Total(size, BoundedAll(b, Kept(b, tools))) > b.maxTotalDefinitionBytes
  }

  lemma ShallowIff(t: Tool, depth: nat)
    ensures SchemaDepth(t.inputSchema) <= depth <==> NestsAtMost(t, depth)
  {
    var v := Object(t.inputSchema);
    DepthIsLongestNesting(v, depth);
    hide SchemaDepth, Nested;
    if path: seq<nat> :| Nested(v, path) && |path| >= depth {
      PrefixesNest(v, path, depth);
      assert |path[..depth]| == depth;
    }
    SchemaDepthIs(t.inputSchema);
  }

  lemma SchemaDepthIs(schema: seq<(string, Value)>)
    ensures SchemaDepth(schema) == JsonDepth(Object(schema))
  {
  }

  lemma AcceptedMeans(b: Bounds, tools: seq<Tool>, size: Tool -> nat)
    requires Acceptable(b, tools, size)
    ensures RegisteredAs(b, tools, BoundedAll(b, Kept(b, tools)))
    ensures forall t :: t in BoundedAll(b, Kept(b, tools)) ==> NestsAtMost(t, b.maxInputSchemaDepth)
    ensures Total(size, BoundedAll(b, Kept(b, tools))) <= b.maxTotalDefinitionBytes
    ensures b.truncateOversized || WithinLimits(b, tools)
  {
    var kept := Kept(b, tools);
    var registered := BoundedAll(b, kept);
    forall t | t in registered ensures NestsAtMost(t, b.maxInputSchemaDepth) {
      var i :| 0 <= i < |kept| && registered[i] == t;
      assert kept[i] in kept;
      ShallowIff(t, b.maxInputSchemaDepth);
    }
  }

  lemma BoundedAllLength(b: Bounds, tools: seq<Tool>)
    ensures |BoundedAll(b, tools)| == |tools|
  {
  }

  lemma BlamedMeans(b: Bounds, tools: seq<Tool>, size: Tool -> nat, v: Violation)
    requires Blames(b, tools, size, v)
    ensures Justified(b, tools, size, v)
  {
    var kept := Kept(b, tools);
    if !(|tools| > b.maxTools && !b.truncateOversized) {
      hide SchemaDepth, Total, BoundedAll, CleanUpTo, Bounded;
      var i: nat :| i < |kept| && CleanUpTo(b, kept, size, i) && BlamesTool(b, kept, size, i, v);
      var t := kept[i];
      assert t in tools;
      if v.SchemaTooDeep? {
        var path := SomePathIsAsDeep(Object(t.inputSchema));
        SchemaDepthIs(t.inputSchema);
        assert Nested(Object(t.inputSchema), path) && v.depth == |path| + 1;
      } else if v.TotalTooLarge? {
        BoundedAllLength(b, kept);
        TotalMonotone(size, BoundedAll(b, kept), i + 1);
      }
    }
  }

  lemma AcceptedAndBlamedMean(b: Bounds, tools: seq<Tool>, size: Tool -> nat)
    ensures Acceptable(b, tools, size) ==>
              var registered := BoundedAll(b, Kept(b, tools));
              && RegisteredAs(b, tools, registered) && Total(size, registered) <= b.maxTotalDefinitionBytes
              && (b.truncateOversized || WithinLimits(b, tools))
              && forall t :: t in registered ==> NestsAtMost(t, b.maxInputSchemaDepth)
    ensures forall v :: Blames(b, tools, size, v) ==> Justified(b, tools, size, v)
  {
    if Acceptable(b, tools, size) {
      AcceptedMeans(b, tools, size);
    }
    forall v | Blames(b, tools, size, v) ensures Justified(b, tools, size, v) {
      BlamedMeans(b, tools, size, v);
    }
  }

  method Enforce(b: Bounds, tools: seq<Tool>, size: Tool -> nat) returns (r: Result<seq<Tool>>)
    ensures r.Ok? <==> Acceptable(b, tools, size)
    ensures r.Ok? ==> r.value == BoundedAll(b, Kept(b, tools))
    ensures r.Err? ==> Blames(b, tools, size, r.violation)
    ensures r.Ok? ==> RegisteredAs(b, tools, r.value) && forall t :: t in r.value ==> NestsAtMost(t, b.maxInputSchemaDepth)
    ensures r.Ok? ==> Total(size, r.value) <= b.maxTotalDefinitionBytes && (b.truncateOversized || WithinLimits(b, tools))
    ensures r.Err? ==> Justified(b, tools, size, r.violation)
  {
    AcceptedAndBlamedMean(b, tools, size);
    hide Total, SchemaDepth, ByteLen, Truncated, RegisteredAs, NestsAtMost, Justified, WithinLimits;
    TotalOfNone(size);
    var kept := tools;
    if |tools| > b.maxTools {
      if !b.truncateOversized {
        return Err(TooManyTools(|tools|));
      }
      kept := tools[..b.maxTools];
    }
    ghost var all := BoundedAll(b, kept);
    var totalBytes := 0;
    var bounded := [];
    for i := 0 to |kept|
      invariant bounded == all[..i]
      invariant totalBytes == Total(size, bounded) <= b.maxTotalDefinitionBytes
      invariant forall t :: t in kept[..i] ==> Passes(b, t)
    {
      var tool := kept[i];
      assert tool in kept && kept[..i + 1] == kept[..i] + [tool];
      TotalStep(size, all, i);
      assert CleanUpTo(b, kept, size, i);
      var depth := SchemaDepth(tool.inputSchema);
      if depth > b.maxInputSchemaDepth {
        assert BlamesTool(b, kept, size, i, SchemaTooDeep(tool.name, depth));
        return Err(SchemaTooDeep(tool.name, depth));
      }
      if tool.description.Some? && ByteLen(tool.description.value) > b.maxDescriptionLength {
        if b.truncateOversized {
          var text := TruncateStr(tool.description.value, b.maxDescriptionLength);
          tool := tool.(description := Some(text + ELLIPSIS));
        } else {
          return Err(DescriptionTooLong(tool.name, ByteLen(tool.description.value)));
        }
      }
      assert tool == all[i];
      totalBytes := totalBytes + size(tool);
      if totalBytes > b.maxTotalDefinitionBytes {
        TotalMonotone(size, all, i + 1);
        return Err(TotalTooLarge);
      }
      bounded := bounded + [tool];
    }
    assert kept[..|kept|] == kept && all[..|all|] == all;
    r := Ok(bounded);
  }

  // ---- what acceptance promises ----

  /** Truncating a description never brings it under the limit: the marker makes it longer again. */
  lemma TruncatedIsStillTooLong(b: Bounds, t: Tool)
    requires TooLong(b, t)
    ensures var n := ByteLen(Bounded(b, t).description.value);
            b.maxDescriptionLength + 11 <= n <= b.maxDescriptionLength + 14
  {
    var d := t.description.value;
    TruncatedIsLongestPrefix(d, b.maxDescriptionLength);
    ByteLenConcat(Truncated(d, b.maxDescriptionLength), ELLIPSIS);
    EllipsisLength();
  }

  lemma EllipsisLength()
    ensures ByteLen(ELLIPSIS) == 14
  {
    assert ELLIPSIS[1..] == "[truncated]" && Width(ELLIPSIS[0]) == 3;
    AsciiByteLen("[truncated]");
  }

  /** So the registered descriptions respect the limit exactly when none had to be truncated, and
      only then would the registered tools pass the same bounds in reject mode. */
  lemma AcceptedToolsMeetTheBoundsIff(b: Bounds, tools: seq<Tool>, size: Tool -> nat)
    requires Acceptable(b, tools, size)
    ensures var registered, strict := BoundedAll(b, Kept(b, tools)), b.(truncateOversized := false);
            var fits := forall t :: t in Kept(b, tools) ==> !TooLong(b, t);
            && ((forall t :: t in registered ==> !TooLong(b, t)) <==> fits)
            && (Acceptable(strict, registered, size) <==> fits)
  {
    var kept, strict := Kept(b, tools), b.(truncateOversized := false);
    var registered := BoundedAll(b, kept);
    assert Kept(strict, registered) == registered;
    if t :| t in kept && TooLong(b, t) {
      var i :| 0 <= i < |kept| && kept[i] == t;
      TruncatedIsStillTooLong(b, t);
      assert registered[i] in registered && TooLong(strict, registered[i]);
    } else {
      assert registered == kept;
      assert BoundedAll(strict, registered) == registered;
    }
  }
}
