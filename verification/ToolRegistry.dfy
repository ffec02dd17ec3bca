/** The registry that a refreshed upstream is swapped into: tools of all modules under one
    namespace, and for each module the list of names it registered last. A swap removes the names
    on the module's list and registers its new tools, refusing names another module holds. */
module ToolRegistry {
  import opened Wrappers

  datatype Operation = ReadOp | WriteOp | DenyOp

  datatype Tool = Tool(name: string, definition: string)

  datatype Registered = Registered(owner: string, definition: string)

  datatype State = State(
    tools: map<string, Registered>,
    operations: map<string, Operation>,
    index: map<string, seq<string>>)

  function Names(tools: seq<Tool>): seq<string> {
    seq(|tools|, i requires 0 <= i < |tools| => tools[i].name)
  }

  function Listed(s: State, moduleName: string): seq<string> {
    if moduleName in s.index then s.index[moduleName] else []
  }

  function Without<V>(m: map<string, V>, names: seq<string>): map<string, V> {
    map n | n in m && n !in names :: m[n]
  }

  function Register(m: map<string, Registered>, owner: string, tools: seq<Tool>): map<string, Registered> {
    if tools == [] then m
    else
      var before, t := Register(m, owner, tools[..|tools| - 1]), tools[|tools| - 1];
      if t.name in before then before else before[t.name := Registered(owner, t.definition)]
  }

  function Swapped(s: State, moduleName: string, tools: seq<Tool>, operations: map<string, Operation>): State {
    var previous := Listed(s, moduleName);
    State(Register(Without(s.tools, previous), moduleName, tools),
          Without(s.operations, previous) + operations,
          s.index[moduleName := Names(tools)])
  }

  class Registry {
    var tools: map<string, Registered>
    var operations: map<string, Operation>
    var index: map<string, seq<string>>

    function Snapshot(): State
      reads this
    {
      State(tools, operations, index)
    }

    constructor (s: State)
      ensures Snapshot() == s
    {
      tools, operations, index := s.tools, s.operations, s.index;
    }

    method SwapUpstreamTools(moduleName: string, newTools: seq<Tool>, newOperations: map<string, Operation>)
      modifies this
      ensures Snapshot() == Swapped(old(Snapshot()), moduleName, newTools, newOperations)
    {
      var previous := if moduleName in index then index[moduleName] else [];
      for i := 0 to |previous|
        invariant tools == Without(old(tools), previous[..i])
        invariant operations == Without(old(operations), previous[..i])
        invariant index == old(index)
      {
        assert previous[..i + 1] == previous[..i] + [previous[i]];
        tools := tools - {previous[i]};
        operations := operations - {previous[i]};
      }
      assert previous[..|previous|] == previous;
      ghost var kept := tools;
      for i := 0 to |newTools|
        invariant tools == Register(kept, moduleName, newTools[..i])
        invariant operations == Without(old(operations), previous) && index == old(index)
      {
        assert newTools[..i + 1][..i] == newTools[..i];
        var t := newTools[i];
        if t.name in tools {
          continue;
        }
        tools := tools[t.name := Registered(moduleName, t.definition)];
      }
      assert newTools[..|newTools|] == newTools;
      operations := operations + newOperations;
      index := index[moduleName := Names(newTools)];
    }
  }

  // ---- who owns what ----

  /** A module's list names no tool that another owner holds. */
  ghost predicate Honest(s: State, moduleName: string) {
    forall n :: n in Listed(s, moduleName) && n in s.tools ==> s.tools[n].owner == moduleName
  }

  // Every tool the module holds is on its list. Tools the gateway registered itself are on no list.
  ghost predicate OwnListed(s: State, moduleName: string) {
    forall n :: n in s.tools && s.tools[n].owner == moduleName ==> n in Listed(s, moduleName)
  }

  // The module holds every tool on its list.
  ghost predicate Exact(s: State, moduleName: string) {
    forall n :: n in Listed(s, moduleName) ==> n in s.tools && s.tools[n].owner == moduleName
  }

  /** The module's list and its registrations say the same. */
  ghost predicate Sound(s: State, moduleName: string) {
    OwnListed(s, moduleName) && Exact(s, moduleName)
  }

  /** Every tool of other modules and of the gateway itself is still registered, unchanged. */
  ghost predicate OthersToolsKept(s: State, t: State, moduleName: string) {
    forall n :: n in s.tools && s.tools[n].owner != moduleName ==> n in t.tools && t.tools[n] == s.tools[n]
  }

  function OperationOf(s: State, n: string): Option<Operation> {
    if n in s.operations then Some(s.operations[n]) else None
  }

  /** And every call of such a tool is still held to the same operation. */
  ghost predicate OthersOperationsKept(s: State, t: State, moduleName: string) {
    forall n :: n in s.tools && s.tools[n].owner != moduleName ==> OperationOf(t, n) == OperationOf(s, n)
  }

  ghost predicate OthersKept(s: State, t: State, moduleName: string) {
    OthersToolsKept(s, t, moduleName) && OthersOperationsKept(s, t, moduleName)
  }

  // Discovery classifies exactly the tools it accepts.
  ghost predicate Classifies(tools: seq<Tool>, operations: map<string, Operation>) {
    forall n :: n in operations <==> n in Names(tools)
  }

  // Every refused name carries the operation already stored for it.
  ghost predicate RefusedAgree(s: State, moduleName: string, tools: seq<Tool>, operations: map<string, Operation>)
    requires Classifies(tools, operations)
  {
    forall n :: n in Names(tools) && n in Without(s.tools, Listed(s, moduleName)) ==>
      OperationOf(s, n) == Some(operations[n])
  }

  // A name the swap refuses, because it is still taken.
  ghost predicate Refuses(s: State, moduleName: string, tools: seq<Tool>) {
    exists i :: 0 <= i < |tools| && tools[i].name in Without(s.tools, Listed(s, moduleName))
  }

  lemma {:induction false} RegisterOnlyAdds(m: map<string, Registered>, owner: string, tools: seq<Tool>)
    ensures var r := Register(m, owner, tools);
            && (forall n :: n in m ==> n in r && r[n] == m[n])
            && (forall n :: n in r <==> n in m || n in Names(tools))
            && (forall n :: n in r && n !in m ==> r[n].owner == owner)
    decreases |tools|
  {
    if tools != [] {
      var init, t := tools[..|tools| - 1], tools[|tools| - 1];
      RegisterOnlyAdds(m, owner, init);
      assert Names(tools) == Names(init) + [t.name];
    }
  }

  /** Of several tools offered under one free name the first is registered, as it was defined. */
  lemma {:induction false} FirstOfferWins(m: map<string, Registered>, owner: string, tools: seq<Tool>, i: nat)
    requires i < |tools| && tools[i].name !in m
    requires forall k :: 0 <= k < i ==> tools[k].name != tools[i].name
    ensures var r := Register(m, owner, tools);
            tools[i].name in r && r[tools[i].name] == Registered(owner, tools[i].definition)
    decreases |tools|
  {
    var init := tools[..|tools| - 1];
    RegisterOnlyAdds(m, owner, init);
    if i < |tools| - 1 {
      FirstOfferWins(m, owner, init, i);
    } else {
      assert tools[i].name !in Names(init);
    }
  }

  lemma NamesOf(tools: seq<Tool>, n: string)
    ensures n in Names(tools) <==> exists i :: 0 <= i < |tools| && tools[i].name == n
  {
    if i :| 0 <= i < |tools| && tools[i].name == n {
      assert Names(tools)[i] == n;
    }
  }

  /** After a swap a name is registered when it was and is not on the module's old list, as before,
      or when it is offered; of the offers for a free name the first is taken. */
  lemma ToolsAfterSwap(s: State, moduleName: string, tools: seq<Tool>, operations: map<string, Operation>, n: string)
    ensures var t, listed := Swapped(s, moduleName, tools, operations).tools, Listed(s, moduleName);
            && (n in t <==> (n in s.tools && n !in listed) || exists i :: 0 <= i < |tools| && tools[i].name == n)
            && (n in s.tools && n !in listed ==> t[n] == s.tools[n])
            && forall i :: 0 <= i < |tools| && tools[i].name == n && !(n in s.tools && n !in listed)
                           && (forall k :: 0 <= k < i ==> tools[k].name != n) ==>
                 n in t && t[n] == Registered(moduleName, tools[i].definition)
  {
    var kept := Without(s.tools, Listed(s, moduleName));
    RegisterOnlyAdds(kept, moduleName, tools);
    NamesOf(tools, n);
    forall i | 0 <= i < |tools| && tools[i].name == n && n !in kept && (forall k :: 0 <= k < i ==> tools[k].name != n)
      ensures Register(kept, moduleName, tools)[n] == Registered(moduleName, tools[i].definition)
    {
      FirstOfferWins(kept, moduleName, tools, i);
    }
    hide Register, Names;
  }

  /** The operations: those that came with the tools, else what is not on the old list as before. The
      module's list is the offered names in order; no other list changes. */
  lemma OperationsAndListsAfterSwap(s: State, moduleName: string, tools: seq<Tool>, operations: map<string, Operation>)
    ensures var t := Swapped(s, moduleName, tools, operations);
            && (forall n :: OperationOf(t, n) == if n in operations then Some(operations[n])
                                                 else if n in Listed(s, moduleName) then None else OperationOf(s, n))
            && (forall m :: m != moduleName ==> Listed(t, m) == Listed(s, m))
            && |Listed(t, moduleName)| == |tools|
            && forall i :: 0 <= i < |tools| ==> Listed(t, moduleName)[i] == tools[i].name
  {
    hide Register;
  }

  /** A swap leaves everyone else's tools registered exactly when the module's list is honest. */
  lemma SwapKeepsOthersIffHonest(s: State, moduleName: string, tools: seq<Tool>, operations: map<string, Operation>)
    ensures OthersToolsKept(s, Swapped(s, moduleName, tools, operations), moduleName) <==> Honest(s, moduleName)
  {
    var kept := Without(s.tools, Listed(s, moduleName));
    RegisterOnlyAdds(kept, moduleName, tools);
    if !Honest(s, moduleName) {
      var n :| n in Listed(s, moduleName) && n in s.tools && s.tools[n].owner != moduleName;
      assert n !in kept;
    }
  }

  /** It leaves the operations they are held to alone exactly when every name it refuses came with
      the operation already stored: the classification of a refused tool is stored all the same. */
  lemma SwapKeepsOperationsIffRefusedAgree(s: State, moduleName: string, tools: seq<Tool>,
                                           operations: map<string, Operation>)
    requires Honest(s, moduleName) && OwnListed(s, moduleName) && Classifies(tools, operations)
    ensures OthersOperationsKept(s, Swapped(s, moduleName, tools, operations), moduleName)
            <==> RefusedAgree(s, moduleName, tools, operations)
  {
    var previous := Listed(s, moduleName);
    var t := Swapped(s, moduleName, tools, operations);
    assert t.operations == Without(s.operations, previous) + operations;
    forall n | n in s.tools && s.tools[n].owner != moduleName
      ensures n in Without(s.tools, previous)
      ensures OperationOf(t, n) == if n in operations then Some(operations[n]) else OperationOf(s, n)
    {
      assert n !in previous;
    }
    forall n | n in Without(s.tools, previous) ensures s.tools[n].owner != moduleName {
      assert n in s.tools && n !in previous;
    }
    hide Register;
  }

  /** Both together: nothing of anyone else changes exactly when the module's list is honest and
      every refused name agrees. */
  lemma SwapKeepsOthersIff(s: State, moduleName: string, tools: seq<Tool>, operations: map<string, Operation>)
    requires OwnListed(s, moduleName) && Classifies(tools, operations)
    ensures OthersKept(s, Swapped(s, moduleName, tools, operations), moduleName)
            <==> Honest(s, moduleName) && RefusedAgree(s, moduleName, tools, operations)
  {
    SwapKeepsOthersIffHonest(s, moduleName, tools, operations);
    if Honest(s, moduleName) {
      SwapKeepsOperationsIffRefusedAgree(s, moduleName, tools, operations);
    }
  }

  /** After a swap the module's own list is honest exactly when nothing was refused: a refused
      name is listed all the same. */
  lemma SwapIsHonestIffNothingRefused(s: State, moduleName: string, tools: seq<Tool>, operations: map<string, Operation>)
    requires OwnListed(s, moduleName)
    ensures Honest(Swapped(s, moduleName, tools, operations), moduleName) <==> !Refuses(s, moduleName, tools)
  {
    var kept := Without(s.tools, Listed(s, moduleName));
    var t := Swapped(s, moduleName, tools, operations);
    RegisterOnlyAdds(kept, moduleName, tools);
    assert Listed(t, moduleName) == Names(tools);
    if Refuses(s, moduleName, tools) {
      var i :| 0 <= i < |tools| && tools[i].name in kept;
      assert Names(tools)[i] == tools[i].name;
      assert t.tools[tools[i].name].owner != moduleName;
    } else {
      forall n | n in Names(tools) ensures t.tools[n].owner == moduleName {
        var i :| 0 <= i < |tools| && Names(tools)[i] == n;
        assert tools[i].name !in kept;
      }
    }
  }

  /** A swap takes no tool off its holder's list, whoever that is. */
  lemma SwapKeepsEverythingListed(s: State, moduleName: string, tools: seq<Tool>, operations: map<string, Operation>)
    ensures forall m :: OwnListed(s, m) ==> OwnListed(Swapped(s, moduleName, tools, operations), m)
  {
    var kept := Without(s.tools, Listed(s, moduleName));
    var t := Swapped(s, moduleName, tools, operations);
    RegisterOnlyAdds(kept, moduleName, tools);
    forall m, n | OwnListed(s, m) && n in t.tools && t.tools[n].owner == m ensures n in Listed(t, m) {
      if n in kept {
        assert t.tools[n] == s.tools[n];
      }
    }
  }

  // ---- how the registry is built ----

  // The owner of what the gateway registers itself.
  const GATEWAY := ""

  // Registering a module when the server is built; None where a name conflict panics.
  function WithModule(s: State, moduleName: string, tools: seq<Tool>): Option<State> {
    if forall i :: 0 <= i < |tools| ==>
         tools[i].name !in s.tools && forall k :: 0 <= k < i ==> tools[k].name != tools[i].name
    then Some(State(Register(s.tools, moduleName, tools), s.operations, s.index[moduleName := Names(tools)]))
    else None
  }

  // Tools put into the map directly, over whatever is there, and on no list.
  function WithOwn(s: State, own: seq<Tool>): State {
    if own == [] then s
    else
      var before, t := WithOwn(s, own[..|own| - 1]), own[|own| - 1];
      before.(tools := before.tools[t.name := Registered(GATEWAY, t.definition)])
  }

  /** A module registers whole or not at all: every tool of it as it is defined, beside everything
      that was there. It does not exactly when a name is taken or comes twice. */
  lemma ModuleRegistersWhole(s: State, moduleName: string, tools: seq<Tool>)
    ensures var t := WithModule(s, moduleName, tools);
            && (t.None? <==> (exists i :: 0 <= i < |tools| && tools[i].name in s.tools)
                             || (exists i, k :: 0 <= k < i < |tools| && tools[i].name == tools[k].name))
            && (t.Some? ==>
                  && (forall n :: n in s.tools ==> n in t.value.tools && t.value.tools[n] == s.tools[n])
                  && (forall i :: 0 <= i < |tools| ==>
                        tools[i].name in t.value.tools
                        && t.value.tools[tools[i].name] == Registered(moduleName, tools[i].definition))
                  && |t.value.tools| == |s.tools| + |tools|)
  {
    if WithModule(s, moduleName, tools).Some? {
      RegisterOnlyAdds(s.tools, moduleName, tools);
      forall i: nat | i < |tools|
        ensures tools[i].name in Register(s.tools, moduleName, tools)
        ensures Register(s.tools, moduleName, tools)[tools[i].name] == Registered(moduleName, tools[i].definition)
      {
        FirstOfferWins(s.tools, moduleName, tools, i);
      }
      RegisteredCount(s.tools, moduleName, tools);
    }
  }

  lemma {:induction false} RegisteredCount(m: map<string, Registered>, owner: string, tools: seq<Tool>)
    requires forall i :: 0 <= i < |tools| ==>
               tools[i].name !in m && forall k :: 0 <= k < i ==> tools[k].name != tools[i].name
    ensures |Register(m, owner, tools)| == |m| + |tools|
    decreases |tools|
  {
    if tools != [] {
      var init, t := tools[..|tools| - 1], tools[|tools| - 1];
      RegisteredCount(m, owner, init);
      RegisterOnlyAdds(m, owner, init);
      assert t.name !in Register(m, owner, init);
      assert Register(m, owner, tools).Keys == Register(m, owner, init).Keys + {t.name};
    }
  }

  /** A module that registers starts with a sound list, and no other module's list suffers. */
  lemma RegisteredModuleIsSound(s: State, moduleName: string, tools: seq<Tool>)
    requires WithModule(s, moduleName, tools).Some?
    requires forall n :: n in s.tools ==> s.tools[n].owner != moduleName
    ensures var t := WithModule(s, moduleName, tools).value;
            Sound(t, moduleName) && forall m :: m != moduleName && Sound(s, m) ==> Sound(t, m)
  {
    RegisterOnlyAdds(s.tools, moduleName, tools);
    var t := WithModule(s, moduleName, tools).value;
    assert Listed(t, moduleName) == Names(tools);
    forall m | m != moduleName && Sound(s, m) ensures Sound(t, m) {
      assert Listed(t, m) == Listed(s, m);
    }
  }

  lemma {:induction false} OwnToolsReplace(s: State, own: seq<Tool>)
    ensures var t := WithOwn(s, own);
            && t.index == s.index
            && (forall n :: n in t.tools <==> n in s.tools || n in Names(own))
            && (forall n :: n in Names(own) ==> t.tools[n].owner == GATEWAY)
            && (forall n :: n in s.tools && n !in Names(own) ==> t.tools[n] == s.tools[n])
    decreases |own|
  {
    if own != [] {
      var init, t := own[..|own| - 1], own[|own| - 1];
      OwnToolsReplace(s, init);
      assert Names(own) == Names(init) + [t.name];
    }
  }

  /** The gateway's own tools go into the map last. A module's list is still sound then exactly
      when it names none of them. */
  lemma BuiltModuleIsSoundIff(s: State, own: seq<Tool>, moduleName: string)
    requires Sound(s, moduleName) && moduleName != GATEWAY
    ensures Sound(WithOwn(s, own), moduleName) <==> forall n :: n in Listed(s, moduleName) ==> n !in Names(own)
  {
    OwnToolsReplace(s, own);
    assert Listed(WithOwn(s, own), moduleName) == Listed(s, moduleName);
  }

  // ---- runs ----

  datatype Swap = Swap(moduleName: string, tools: seq<Tool>, operations: map<string, Operation>)

  function After(s: State, run: seq<Swap>): State {
    if run == [] then s
    else
      var last := run[|run| - 1];
      Swapped(After(s, run[..|run| - 1]), last.moduleName, last.tools, last.operations)
  }

  ghost predicate NothingRefused(s: State, run: seq<Swap>) {
    forall i :: 0 <= i < |run| ==> !Refuses(After(s, run[..i]), run[i].moduleName, run[i].tools)
  }

  lemma NothingRefusedAgrees(s: State, moduleName: string, tools: seq<Tool>, operations: map<string, Operation>)
    requires !Refuses(s, moduleName, tools) && Classifies(tools, operations)
    ensures RefusedAgree(s, moduleName, tools, operations)
  {
    forall n | n in Names(tools) ensures n !in Without(s.tools, Listed(s, moduleName)) {
      var i :| 0 <= i < |tools| && Names(tools)[i] == n;
      assert tools[i].name == n;
    }
  }

  lemma SoundStep(s: State, w: Swap)
    requires Sound(s, w.moduleName) && !Refuses(s, w.moduleName, w.tools) && Classifies(w.tools, w.operations)
    ensures var t := Swapped(s, w.moduleName, w.tools, w.operations);
            OthersKept(s, t, w.moduleName) && forall m :: Sound(s, m) ==> Sound(t, m)
  {
    var kept := Without(s.tools, Listed(s, w.moduleName));
    var t := Swapped(s, w.moduleName, w.tools, w.operations);
    RegisterOnlyAdds(kept, w.moduleName, w.tools);
    NothingRefusedAgrees(s, w.moduleName, w.tools, w.operations);
    SwapKeepsOthersIff(s, w.moduleName, w.tools, w.operations);
    SwapKeepsEverythingListed(s, w.moduleName, w.tools, w.operations);
    SwapIsHonestIffNothingRefused(s, w.moduleName, w.tools, w.operations);
    forall m | Sound(s, m) ensures Exact(t, m) {
      if m != w.moduleName {
        assert Listed(t, m) == Listed(s, m) && Exact(s, m);
      }
    }
  }

  /** In a run of swaps that never refuses a name, the list of every module that started sound
      stays so, and the swap at any point leaves every tool it does not hold, and its operation,
      as they were: those of other modules, and the gateway's own, which are on no list. */
  lemma {:induction false} NoRefusalKeepsEveryone(s: State, run: seq<Swap>, k: nat)
    requires forall w :: w in run ==> Sound(s, w.moduleName) && Classifies(w.tools, w.operations)
    requires NothingRefused(s, run) && k <= |run|
    ensures forall m :: Sound(s, m) ==> Sound(After(s, run[..k]), m)
    ensures k < |run| ==> OthersKept(After(s, run[..k]), After(s, run[..k + 1]), run[k].moduleName)
    decreases k
  {
    hide Sound, OthersKept, Refuses, Swapped, Classifies;
    if k > 0 {
      NoRefusalKeepsEveryone(s, run, k - 1);
      assert run[..k][..k - 1] == run[..k - 1];
      assert run[k - 1] in run;
      SoundStep(After(s, run[..k - 1]), run[k - 1]);
    }
    if k < |run| {
      assert run[..k + 1][..k] == run[..k];
      assert run[k] in run;
      SoundStep(After(s, run[..k]), run[k]);
    }
  }

  /** One refusal is enough to break that: an upstream offers the name of one of the gateway's own
      tools, is refused, and removes the tool on its next refresh. */
  lemma RefusedNameIsRemovedNextTime()
    ensures var own := Tool("navra_var_list", "d");
            var s := WithOwn(State(map[], map[], map["up" := []]), [own]);
            var offer := Swap("up", [Tool("navra_var_list", "e")], map["navra_var_list" := ReadOp]);
            var empty := Swap("up", [], map[]);
            && Sound(s, "up") && Refuses(s, "up", offer.tools)
            && "navra_var_list" in After(s, [offer]).tools
            && "navra_var_list" !in After(s, [offer, empty]).tools
  {
    var own, name := Tool("navra_var_list", "d"), "navra_var_list";
    var s0 := State(map[], map[], map["up" := []]);
    var s := WithOwn(s0, [own]);
    assert [own][..0] == [] && WithOwn(s0, []) == s0;
    assert s.tools == s0.tools[name := Registered(GATEWAY, "d")];
    assert s.tools == map[name := Registered(GATEWAY, "d")];
    var offer, empty := Swap("up", [Tool(name, "e")], map[name := ReadOp]), Swap("up", [], map[]);
    assert [offer][..0] == [] && [offer, empty][..1] == [offer];
    assert offer.tools[..0] == [];
    assert offer.tools[0].name in Without(s.tools, Listed(s, "up"));
    var t := Swapped(s, "up", offer.tools, offer.operations);
    assert Listed(s, "up") == [];
    assert Without(s.tools, []) == s.tools;
    assert Register(s.tools, "up", []) == s.tools;
    assert t.tools == s.tools;
    assert Listed(t, "up") == [name] == Names(offer.tools);
  }

  /** And one refusal is enough to change, at once, what another module's tool may be called with:
      an upstream offers the name of a write tool as a read tool, and is refused. */
  lemma RefusedNameIsReclassified()
    ensures var s := State(map["save" := Registered("files", "d")], map["save" := WriteOp], map["files" := ["save"]]);
            var t := Swapped(s, "up", [Tool("save", "e")], map["save" := ReadOp]);
            && Sound(s, "files") && Sound(s, "up") && Classifies([Tool("save", "e")], map["save" := ReadOp])
            && t.tools == s.tools && OperationOf(s, "save") == Some(WriteOp) && OperationOf(t, "save") == Some(ReadOp)
  {
    var s := State(map["save" := Registered("files", "d")], map["save" := WriteOp], map["files" := ["save"]]);
    var offered := [Tool("save", "e")];
    assert Names(offered) == ["save"];
    assert Listed(s, "files") == ["save"] && Listed(s, "up") == [];
    assert Without(s.tools, []) == s.tools;
    assert offered[..0] == [] && Register(s.tools, "up", []) == s.tools;
  }
}
