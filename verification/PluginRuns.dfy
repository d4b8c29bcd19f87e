/**
 What every run of the plugin manager keeps: any sequence of registrations,
 library loads and teardowns, whatever the callbacks and the loader answer.
 */
module PluginRuns {
  import opened CStrings
  import opened Errors
  import opened Sequences
  import opened Plugins

  datatype Op =
    | Register(plugins: seq<Plugin>, codes: seq<int>)
    | LoadLibrary(library: Library)
    | Destroy

  predicate Allowed(op: Op) {
    match op
    case Register(plugins, codes) => plugins != [] && |codes| == |plugins|
    case LoadLibrary(library) => WellFormed(library)
    case Destroy => true
  }

  function Step(s: State, op: Op): State
    requires Allowed(op)
  {
    match op
    case Register(plugins, codes) => RegisterAll(s, plugins, codes).0
    case LoadLibrary(library) => Load(s, library).0
    case Destroy => DestroyAll(s)
  }

  ghost predicate AllAllowed(ops: seq<Op>) {
    forall i :: 0 <= i < |ops| ==> Allowed(ops[i])
  }

  function Run(ops: seq<Op>): State
    requires AllAllowed(ops)
  {
    if ops == [] then INITIAL else Step(Run(ops[..|ops| - 1]), ops[|ops| - 1])
  }

  /** The manager itself goes through the states of Run. */
  method Execute(manager: PluginManager, ops: seq<Op>)
    requires manager.View() == INITIAL && AllAllowed(ops)
    modifies manager
    ensures manager.View() == Run(ops)
  {
    var i := 0;
    while i < |ops|
      invariant 0 <= i <= |ops| && manager.View() == Run(ops[..i])
    {
      assert ops[..i + 1][..i] == ops[..i] && Allowed(ops[i]);
      var code;
      match ops[i] {
        case Register(plugins, codes) => code := manager.Register(Some(plugins), codes);
        case LoadLibrary(library) => code := manager.LoadLibrary(Some([]), library);
        case Destroy => manager.Destroy();
      }
      i := i + 1;
    }
    assert ops[..i] == ops;
  }

  // What the log says, kind of event by kind of event.

  function OpenOf(e: Event): seq<nat> { if e.Opened? then [e.library] else [] }
  function CloseOf(e: Event): seq<nat> { if e.Closed? then [e.library] else [] }
  function KeptOf(e: Event): seq<Plugin> { if e.Kept? then [e.plugin] else [] }
  function InitOkOf(e: Event): seq<Plugin> { if e.InitRan? && e.code == NMO_OK then [e.plugin] else [] }
  function ShutdownOf(e: Event): seq<Plugin> { if e.ShutdownRan? then [e.plugin] else [] }

  function IfInit(p: Plugin): seq<Plugin> { if p.hasInit then [p] else [] }
  function IfShutdown(p: Plugin): seq<Plugin> { if p.hasShutdown then [p] else [] }
  function PluginOf(i: Instance): seq<Plugin> { [i.plugin] }
  function OwnedBy(i: Instance): seq<nat> { if i.library.Some? && i.ownsLibrary then [i.library.value] else [] }

  function Opens(s: State): seq<nat> { FlatMap(OpenOf, s.log) }
  function Closes(s: State): seq<nat> { FlatMap(CloseOf, s.log) }
  function KeptPlugins(s: State): seq<Plugin> { FlatMap(KeptOf, s.log) }
  function InitsOk(s: State): seq<Plugin> { FlatMap(InitOkOf, s.log) }
  function Shutdowns(s: State): seq<Plugin> { FlatMap(ShutdownOf, s.log) }
  function Current(s: State): seq<Plugin> { FlatMap(PluginOf, s.instances) }
  function Owned(s: State): seq<nat> { FlatMap(OwnedBy, s.instances) }

  // The invariants.

  ghost predicate GuidsDistinct(instances: seq<Instance>) {
    forall i, j :: 0 <= i < j < |instances| ==> instances[i].plugin.guid != instances[j].plugin.guid
  }

  /** i is where the run of instances of one library begins. */
  predicate Begins(instances: seq<Instance>, i: nat)
    requires i < |instances|
  {
    instances[i].library.Some? && (i == 0 || instances[i - 1].library != instances[i].library)
  }

  /** The instances of a library are a block that its owner begins, and no library has two blocks. */
  ghost predicate Blocks(s: State) {
    && (forall i :: 0 <= i < |s.instances| ==> (s.instances[i].ownsLibrary <==> Begins(s.instances, i)))
    && (forall i :: 0 <= i < |s.instances| && s.instances[i].library.Some? ==> s.instances[i].library.value < s.openCount)
    && (forall i, j :: 0 <= i < j < |s.instances| && s.instances[i].ownsLibrary && s.instances[j].ownsLibrary ==>
          s.instances[i].library != s.instances[j].library)
  }

  /** Libraries are opened in the order 0, 1, ...; each one is closed, or owned by an instance, but not both. */
  ghost predicate Accounted(s: State) {
    && Opens(s) == seq(s.openCount, i => i)
    && multiset(Closes(s)) + multiset(Owned(s)) == multiset(Opens(s))
  }

  /**
   In registration order: the current instances are the last ones kept; what was
   kept and has an init is what initialised successfully; what was kept and has a
   shutdown has been shut down or is current.
   */
  ghost predicate Balanced(s: State) {
    && |Current(s)| <= |KeptPlugins(s)| && KeptPlugins(s)[|KeptPlugins(s)| - |Current(s)|..] == Current(s)
    && FlatMap(IfInit, KeptPlugins(s)) == InitsOk(s)
    && FlatMap(IfShutdown, KeptPlugins(s)) == Shutdowns(s) + FlatMap(IfShutdown, Current(s))
  }

  ghost predicate Inv(s: State) {
    GuidsDistinct(s.instances) && Blocks(s) && Accounted(s) && Balanced(s)
  }

  // Adding a plugin.

  lemma LogGrows(s: State, e: Event)
    ensures var t := s.(log := s.log + [e]);
      && Opens(t) == (if e.Opened? then Opens(s) + [e.library] else Opens(s))
      && Closes(t) == (if e.Closed? then Closes(s) + [e.library] else Closes(s))
      && KeptPlugins(t) == (if e.Kept? then KeptPlugins(s) + [e.plugin] else KeptPlugins(s))
      && InitsOk(t) == (if e.InitRan? && e.code == NMO_OK then InitsOk(s) + [e.plugin] else InitsOk(s))
      && Shutdowns(t) == (if e.ShutdownRan? then Shutdowns(s) + [e.plugin] else Shutdowns(s))
      && Current(t) == Current(s) && Owned(t) == Owned(s)
  {
    assert (s.log + [e])[..|s.log|] == s.log;
  }

  lemma InstancesGrow(s: State, i: Instance)
    ensures var t := s.(instances := s.instances + [i]);
      && Opens(t) == Opens(s) && Closes(t) == Closes(s)
      && KeptPlugins(t) == KeptPlugins(s) && InitsOk(t) == InitsOk(s) && Shutdowns(t) == Shutdowns(s)
      && Current(t) == Current(s) + [i.plugin]
      && Owned(t) == Owned(s) + OwnedBy(i)
  {
    assert (s.instances + [i])[..|s.instances|] == s.instances;
  }

  /** Everything a plugin that is added leaves as it was, and what it adds. */
  lemma AddEffect(s: State, p: Plugin, library: Option<nat>, code: int)
    ensures var t := Add(s, p, library, code);
      var kept := if p.hasInit && code != NMO_OK then [] else [p];
      && Opens(t) == Opens(s) && Closes(t) == Closes(s) && Shutdowns(t) == Shutdowns(s)
      && Owned(t) == Owned(s) && t.openCount == s.openCount
      && KeptPlugins(t) == KeptPlugins(s) + kept
      && InitsOk(t) == InitsOk(s) + FlatMap(IfInit, kept)
      && Current(t) == Current(s) + kept
      && t.instances == s.instances + (if kept == [] then [] else [Instance(p, library, false)])
  {
    hide FlatMap;
    var e := InitRan(p, code);
    var ran := if p.hasInit then s.(log := s.log + [e]) else s;
    FlatMapOne(IfInit, p);
    NoneMapped(IfInit);
    if p.hasInit {
      LogGrows(s, e);
    } else {
      assert s.log + [] == s.log;
    }
    if !p.hasInit || code == NMO_OK {
      LogGrows(ran, Kept(p));
      InstancesGrow(ran.(log := ran.log + [Kept(p)]), Instance(p, library, false));
    }
  }

  lemma NoneMapped<A, B>(f: A -> seq<B>)
    ensures FlatMap(f, []) == []
  {
  }

  lemma AddKeepsBalance(s: State, p: Plugin, library: Option<nat>, code: int)
    requires Balanced(s)
    ensures Balanced(Add(s, p, library, code))
  {
    hide FlatMap;
    var kept := if p.hasInit && code != NMO_OK then [] else [p];
    AddEffect(s, p, library, code);
    FlatMapConcat(IfInit, KeptPlugins(s), kept);
    FlatMapConcat(IfShutdown, KeptPlugins(s), kept);
    FlatMapConcat(IfShutdown, Current(s), kept);
    assert Shutdowns(s) + (FlatMap(IfShutdown, Current(s)) + FlatMap(IfShutdown, kept))
        == (Shutdowns(s) + FlatMap(IfShutdown, Current(s))) + FlatMap(IfShutdown, kept);
  }

  lemma AddKeepsGuids(s: State, p: Plugin, library: Option<nat>, code: int)
    requires GuidsDistinct(s.instances) && !Registered(s.instances, p.guid)
    ensures GuidsDistinct(Add(s, p, library, code).instances)
  {
  }

  lemma AddKeepsAccounts(s: State, p: Plugin, library: Option<nat>, code: int)
    requires Accounted(s)
    ensures Accounted(Add(s, p, library, code))
  {
    AddEffect(s, p, library, code);
  }

  lemma AddKeepsBlocks(s: State, p: Plugin, code: int)
    requires Blocks(s)
    ensures Blocks(Add(s, p, None, code))
  {
    var t := Add(s, p, None, code);
    assert forall i :: 0 <= i < |s.instances| ==> (Begins(t.instances, i) <==> Begins(s.instances, i));
  }

  // Registering.

  lemma {:induction false} RegisterKeeps(s: State, plugins: seq<Plugin>, codes: seq<int>)
    requires Inv(s) && |codes| == |plugins|
    ensures Inv(RegisterAll(s, plugins, codes).0)
    ensures s.instances <= RegisterAll(s, plugins, codes).0.instances
    decreases |plugins|
  {
    hide Inv;
    if plugins != [] && plugins[0].name != None && !Registered(s.instances, plugins[0].guid) {
      var t := Add(s, plugins[0], None, codes[0]);
      AddKeeps(s, plugins[0], codes[0]);
      if !plugins[0].hasInit || codes[0] == NMO_OK {
        RegisterKeeps(t, plugins[1..], codes[1..]);
      }
    }
  }

  lemma AddKeeps(s: State, p: Plugin, code: int)
    requires Inv(s) && !Registered(s.instances, p.guid)
    ensures Inv(Add(s, p, None, code)) && s.instances <= Add(s, p, None, code).instances
  {
    hide GuidsDistinct, Blocks, Accounted, Balanced, Registered;
    AddKeepsGuids(s, p, None, code);
    AddKeepsBlocks(s, p, code);
    AddKeepsAccounts(s, p, None, code);
    AddKeepsBalance(s, p, None, code);
  }

  // Loading.

  /** The instances a load has appended so far: all from its library, none its owner yet. */
  ghost predicate Appended(before: seq<Instance>, after: seq<Instance>, library: nat) {
    && before <= after
    && forall i :: |before| <= i < |after| ==> after[i].library == Some(library) && !after[i].ownsLibrary
  }

  lemma {:induction false} LoadAllEffect(s: State, plugins: seq<Plugin>, codes: seq<int>, library: nat)
    requires |codes| == |plugins| && GuidsDistinct(s.instances) && Balanced(s)
    ensures var t := LoadAll(s, plugins, codes, library);
      && GuidsDistinct(t.instances) && Balanced(t) && Appended(s.instances, t.instances, library)
      && Opens(t) == Opens(s) && Closes(t) == Closes(s) && Owned(t) == Owned(s) && t.openCount == s.openCount
    decreases |plugins|
  {
    hide FlatMap, GuidsDistinct, Balanced;
    if plugins != [] {
      var p, code := plugins[0], codes[0];
      if Registered(s.instances, p.guid) {
        LoadAllEffect(s, plugins[1..], codes[1..], library);
      } else {
        AddKeepsGuids(s, p, Some(library), code);
        AddKeepsBalance(s, p, Some(library), code);
        AddEffect(s, p, Some(library), code);
        LoadAllEffect(Add(s, p, Some(library), code), plugins[1..], codes[1..], library);
      }
    }
  }

  lemma OpenEffect(s: State)
    ensures var t := s.(log := s.log + [Opened(s.openCount)], openCount := s.openCount + 1);
      && (Balanced(s) ==> Balanced(t))
      && Opens(t) == Opens(s) + [s.openCount] && Closes(t) == Closes(s) && Owned(t) == Owned(s)
  {
    hide FlatMap;
    LogGrows(s, Opened(s.openCount));
  }

  lemma CloseEffect(s: State, library: nat)
    ensures var t := s.(log := s.log + [Closed(library)]);
      && (Balanced(s) ==> Balanced(t))
      && Opens(t) == Opens(s) && Closes(t) == Closes(s) + [library] && Owned(t) == Owned(s)
  {
    hide FlatMap;
    LogGrows(s, Closed(library));
  }

  /** A library is open that nothing owns yet; everything else is in order. */
  ghost predicate Unsettled(s: State, first: nat, library: nat) {
    && GuidsDistinct(s.instances) && Balanced(s)
    && library + 1 == s.openCount && Opens(s) == seq(s.openCount, i => i)
    && multiset(Closes(s)) + multiset(Owned(s)) + multiset{library} == multiset(Opens(s))
    && first <= |s.instances| && Appended(s.instances[..first], s.instances, library)
    && Blocks(State(s.instances[..first], [], library))
  }

  lemma SettleByClosing(s: State, first: nat, library: nat)
    requires Unsettled(s, first, library) && first == |s.instances|
    ensures Inv(Settle(s, first, library))
  {
    assert s.instances[..first] == s.instances;
    CloseEffect(s, library);
  }

  lemma {:induction false} NoneOwned(instances: seq<Instance>)
    requires forall i :: 0 <= i < |instances| ==> !instances[i].ownsLibrary
    ensures FlatMap(OwnedBy, instances) == []
    decreases |instances|
  {
    if instances != [] {
      NoneOwned(instances[..|instances| - 1]);
    }
  }

  lemma {:induction false} SamePlugins(instances: seq<Instance>, others: seq<Instance>)
    requires |instances| == |others|
    requires forall i :: 0 <= i < |instances| ==> instances[i].plugin == others[i].plugin
    ensures FlatMap(PluginOf, instances) == FlatMap(PluginOf, others)
    decreases |instances|
  {
    if instances != [] {
      SamePlugins(instances[..|instances| - 1], others[..|others| - 1]);
    }
  }

  /** Replacing one element whose neighbours from there on map to nothing. */
  lemma OwnerEffect(s: State, first: nat, library: nat)
    requires first < |s.instances| && Appended(s.instances[..first], s.instances, library)
    ensures var t := Settle(s, first, library);
      && Current(t) == Current(s)
      && Owned(t) == Owned(s) + [library]
  {
    var t, i := Settle(s, first, library), s.instances[first].(ownsLibrary := true);
    SamePlugins(t.instances, s.instances);
    OwnedSplits(s.instances, first);
    OwnedSplits(t.instances, first);
    assert t.instances[..first] == s.instances[..first] && t.instances[first + 1..] == s.instances[first + 1..];
  }

  lemma OwnedSplits(instances: seq<Instance>, k: nat)
    requires k < |instances|
    requires forall i :: k < i < |instances| ==> !instances[i].ownsLibrary
    ensures FlatMap(OwnedBy, instances) == FlatMap(OwnedBy, instances[..k]) + OwnedBy(instances[k])
  {
    hide FlatMap;
    assert instances == instances[..k + 1] + instances[k + 1..];
    FlatMapPrefix(OwnedBy, instances, k);
    FlatMapConcat(OwnedBy, instances[..k + 1], instances[k + 1..]);
    NoneOwned(instances[k + 1..]);
  }

  lemma OwnerBlocks(s: State, first: nat, library: nat)
    requires Unsettled(s, first, library) && first < |s.instances|
    ensures Blocks(Settle(s, first, library))
  {
    var t, before := Settle(s, first, library), State(s.instances[..first], [], library);
    forall i | 0 <= i < |t.instances|
      ensures t.instances[i].ownsLibrary <==> Begins(t.instances, i)
    {
      if i < first {
        assert before.instances[i] == t.instances[i];
        assert Begins(t.instances, i) <==> Begins(before.instances, i);
      } else if i == first && i > 0 {
        assert t.instances[i - 1] == before.instances[i - 1];
      }
    }
  }

  lemma SettleByOwning(s: State, first: nat, library: nat)
    requires Unsettled(s, first, library) && first < |s.instances|
    ensures Inv(Settle(s, first, library))
  {
    hide FlatMap, Blocks;
    OwnerBlocks(s, first, library);
    OwnerEffect(s, first, library);
    assert multiset(Owned(s) + [library]) == multiset(Owned(s)) + multiset{library};
  }

  lemma ExportsKeep(s: State, plugins: seq<Plugin>, codes: seq<int>)
    requires Inv(s) && plugins != [] && |codes| == |plugins|
    ensures Inv(Load(s, Exports(plugins, codes)).0)
    ensures s.instances <= Load(s, Exports(plugins, codes)).0.instances
  {
    hide FlatMap, Balanced, GuidsDistinct;
    var library := s.openCount;
    var open := s.(log := s.log + [Opened(library)], openCount := library + 1);
    OpenEffect(s);
    LoadAllEffect(open, plugins, codes, library);
    var t := LoadAll(open, plugins, codes, library);
    assert t.instances[..|s.instances|] == s.instances;
    assert multiset(Opens(s) + [library]) == multiset(Opens(s)) + multiset{library};
    assert Unsettled(t, |s.instances|, library);
    if |s.instances| < |t.instances| {
      SettleByOwning(t, |s.instances|, library);
    } else {
      SettleByClosing(t, |s.instances|, library);
    }
  }

  /** A library that is opened and closed again leaves everything in order. */
  lemma OpenedInVain(s: State)
    requires Inv(s)
    ensures Inv(State(s.instances, s.log + [Opened(s.openCount)] + [Closed(s.openCount)], s.openCount + 1))
  {
    hide FlatMap, Balanced;
    var library := s.openCount;
    var open := s.(log := s.log + [Opened(library)], openCount := library + 1);
    OpenEffect(s);
    assert s.instances[..|s.instances|] == s.instances;
    assert multiset(Opens(s) + [library]) == multiset(Opens(s)) + multiset{library};
    assert Unsettled(open, |s.instances|, library);
    SettleByClosing(open, |s.instances|, library);
  }

  lemma LoadKeeps(s: State, l: Library)
    requires Inv(s) && WellFormed(l)
    ensures Inv(Load(s, l).0) && s.instances <= Load(s, l).0.instances
  {
    hide Inv;
    match l
    case Exports(plugins, codes) => ExportsKeep(s, plugins, codes);
    case CannotOpen(_) =>
    case NoSymbol(_) => OpenedInVain(s);
    case NoQuery => OpenedInVain(s);
    case NoPlugins => OpenedInVain(s);
  }

  // Tearing down.

  function InstanceShutdown(i: Instance): seq<Plugin> { IfShutdown(i.plugin) }
  function Nothing<A, B>(a: A): seq<B> { [] }

  lemma {:induction false} FlatMapNothing<A, B>(xs: seq<A>)
    ensures FlatMap<A, B>(Nothing, xs) == []
  {
    if xs != [] {
      FlatMapNothing<A, B>(xs[..|xs| - 1]);
    }
  }

  lemma ShutdownEventsOf(i: Instance)
    ensures var e := ShutdownEvents(i);
      && FlatMap(OpenOf, e) == [] && FlatMap(KeptOf, e) == [] && FlatMap(InitOkOf, e) == []
      && FlatMap(CloseOf, e) == OwnedBy(i) && FlatMap(ShutdownOf, e) == InstanceShutdown(i)
  {
    hide FlatMap, ShutdownEvents;
    MappedPair(OpenOf, i);
    MappedPair(KeptOf, i);
    MappedPair(InitOkOf, i);
    MappedPair(CloseOf, i);
    MappedPair(ShutdownOf, i);
  }

  /** At most two events come of an instance: its shutdown and the closing of its library. */
  lemma MappedPair<T>(f: Event -> seq<T>, i: Instance)
    ensures FlatMap(f, ShutdownEvents(i)) ==
      (if i.plugin.hasShutdown then f(ShutdownRan(i.plugin)) else [])
      + (if i.library.Some? && i.ownsLibrary then f(Closed(i.library.value)) else [])
  {
    var a := if i.plugin.hasShutdown then [ShutdownRan(i.plugin)] else [];
    var b := if i.library.Some? && i.ownsLibrary then [Closed(i.library.value)] else [];
    FlatMapConcat(f, a, b);
    FlatMapOne(f, ShutdownRan(i.plugin));
    if i.library.Some? {
      FlatMapOne(f, Closed(i.library.value));
    }
  }

  lemma DestroyEffect(s: State)
    ensures var t := DestroyAll(s);
      && Opens(t) == Opens(s) && KeptPlugins(t) == KeptPlugins(s) && InitsOk(t) == InitsOk(s)
      && Closes(t) == Closes(s) + Owned(s)
      && Shutdowns(t) == Shutdowns(s) + FlatMap(IfShutdown, Current(s))
      && Current(t) == [] && Owned(t) == []
  {
    var events := FlatMap(ShutdownEvents, s.instances);
    assert Current(DestroyAll(s)) == [] && Owned(DestroyAll(s)) == [];
    hide FlatMap, ShutdownEvents;
    forall i | 0 <= i < |s.instances|
      ensures var e := ShutdownEvents(s.instances[i]);
        && FlatMap(OpenOf, e) == [] && FlatMap(KeptOf, e) == [] && FlatMap(InitOkOf, e) == []
        && FlatMap(CloseOf, e) == OwnedBy(s.instances[i]) && FlatMap(ShutdownOf, e) == InstanceShutdown(s.instances[i])
    {
      ShutdownEventsOf(s.instances[i]);
    }
    forall i | 0 <= i < |s.instances|
      ensures FlatMap(IfShutdown, PluginOf(s.instances[i])) == InstanceShutdown(s.instances[i])
    {
      FlatMapOne(IfShutdown, s.instances[i].plugin);
    }
    FlatMapFuses(ShutdownEvents, OpenOf, Nothing, s.instances);
    FlatMapFuses(ShutdownEvents, KeptOf, Nothing, s.instances);
    FlatMapFuses(ShutdownEvents, InitOkOf, Nothing, s.instances);
    FlatMapNothing<Instance, nat>(s.instances);
    FlatMapNothing<Instance, Plugin>(s.instances);
    FlatMapFuses(ShutdownEvents, CloseOf, OwnedBy, s.instances);
    FlatMapFuses(ShutdownEvents, ShutdownOf, InstanceShutdown, s.instances);
    FlatMapFuses(PluginOf, IfShutdown, InstanceShutdown, s.instances);
    FlatMapConcat(OpenOf, s.log, events);
    FlatMapConcat(KeptOf, s.log, events);
    FlatMapConcat(InitOkOf, s.log, events);
    FlatMapConcat(CloseOf, s.log, events);
    FlatMapConcat(ShutdownOf, s.log, events);
  }

  lemma DestroyKeeps(s: State)
    requires Inv(s)
    ensures Inv(DestroyAll(s))
  {
    hide FlatMap;
    DestroyEffect(s);
    NoneMapped(IfShutdown);
    assert multiset(Closes(s) + Owned(s)) == multiset(Closes(s)) + multiset(Owned(s));
  }

  // Whole runs.

  lemma StepExtends(s: State, op: Op)
    requires Inv(s) && Allowed(op) && !op.Destroy?
    ensures s.instances <= Step(s, op).instances
  {
    hide Inv;
    match op
    case Register(plugins, codes) => RegisterKeeps(s, plugins, codes);
    case LoadLibrary(library) => LoadKeeps(s, library);
  }

  lemma {:induction false} RunKeeps(ops: seq<Op>)
    requires AllAllowed(ops)
    ensures Inv(Run(ops))
    decreases |ops|
  {
    if ops == [] {
      assert Closes(INITIAL) == [] && Owned(INITIAL) == [] && Opens(INITIAL) == [];
    } else {
      var init, op := ops[..|ops| - 1], ops[|ops| - 1];
      RunKeeps(init);
      hide Inv;
      match op
      case Register(plugins, codes) => RegisterKeeps(Run(init), plugins, codes);
      case LoadLibrary(library) => LoadKeeps(Run(init), library);
      case Destroy => DestroyKeeps(Run(init));
    }
  }

  lemma {:induction false} UpToHasEachOnce(n: nat, x: nat)
    ensures multiset(seq(n, i => i))[x] == if x < n then 1 else 0
  {
    if n > 0 {
      UpToHasEachOnce(n - 1, x);
      assert seq(n, i => i) == seq(n - 1, i => i) + [n - 1];
    }
  }

  /** In every reachable state each library that was opened is closed once or owned once, never both. */
  lemma LibraryClosedOrOwned(ops: seq<Op>, library: nat)
    requires AllAllowed(ops)
    ensures var s := Run(ops);
      multiset(Closes(s))[library] + multiset(Owned(s))[library] == if library < s.openCount then 1 else 0
  {
    RunKeeps(ops);
    hide FlatMap, Run;
    UpToHasEachOnce(Run(ops).openCount, library);
  }

  /** Over any run ending in a teardown every library that was opened is closed exactly once, and no other is closed. */
  lemma LibrariesClosedOnce(ops: seq<Op>, library: nat)
    requires AllAllowed(ops)
    ensures var s := DestroyAll(Run(ops));
      && Opens(s) == seq(s.openCount, i => i)
      && multiset(Closes(s))[library] == if library < s.openCount then 1 else 0
  {
    RunKeeps(ops);
    hide FlatMap, Run;
    DestroyKeeps(Run(ops));
    DestroyEffect(Run(ops));
    UpToHasEachOnce(Run(ops).openCount, library);
  }

  lemma {:induction false} BlockBegins(s: State, j: nat) returns (i: nat)
    requires Blocks(s) && j < |s.instances| && s.instances[j].library.Some?
    ensures i <= j && s.instances[i].ownsLibrary
    ensures forall k :: i <= k <= j ==> s.instances[k].library == s.instances[j].library
    decreases j
  {
    if Begins(s.instances, j) {
      i := j;
    } else {
      i := BlockBegins(s, j - 1);
    }
  }

  /** A library that is still open has one owner, the first of a contiguous block of its instances. */
  lemma OpenLibraryHasOneOwner(ops: seq<Op>, library: nat) returns (owner: nat)
    requires AllAllowed(ops) && library < Run(ops).openCount && library !in Closes(Run(ops))
    ensures var instances := Run(ops).instances;
      && owner < |instances| && instances[owner].ownsLibrary
      && (forall j :: 0 <= j < |instances| && instances[j].library == Some(library) ==>
            owner <= j && (instances[j].ownsLibrary <==> j == owner)
            && forall k :: owner <= k <= j ==> instances[k].library == Some(library))
      && instances[owner].library == Some(library)
  {
    var s := Run(ops);
    RunKeeps(ops);
    LibraryClosedOrOwned(ops, library);
    InFlatMap(OwnedBy, s.instances, library);
    owner :| 0 <= owner < |s.instances| && library in OwnedBy(s.instances[owner]);
    forall j | 0 <= j < |s.instances| && s.instances[j].library == Some(library)
      ensures owner <= j && (s.instances[j].ownsLibrary <==> j == owner)
      ensures forall k :: owner <= k <= j ==> s.instances[k].library == Some(library)
    {
      var i := BlockBegins(s, j);
    }
  }

  lemma OwnerOwns(s: State, i: nat)
    requires i < |s.instances| && s.instances[i].library.Some? && s.instances[i].ownsLibrary
    ensures s.instances[i].library.value in Owned(s)
  {
    InFlatMap(OwnedBy, s.instances, s.instances[i].library.value);
    assert s.instances[i].library.value in OwnedBy(s.instances[i]);
  }

  /** No instance refers to a library that is closed. */
  lemma ClosedLibraryUnused(ops: seq<Op>, library: nat, j: nat)
    requires AllAllowed(ops) && library in Closes(Run(ops)) && j < |Run(ops).instances|
    ensures Run(ops).instances[j].library != Some(library)
  {
    var s := Run(ops);
    RunKeeps(ops);
    LibraryClosedOrOwned(ops, library);
    if s.instances[j].library == Some(library) {
      var i := BlockBegins(s, j);
      OwnerOwns(s, i);
    }
  }

  /**
   Teardown in registration order: once a run has ended in it, the shutdowns that
   ran are those of all instances ever kept, in order, and the successful inits are
   those of the same instances. So no plugin is shut down whose init failed.
   */
  lemma ShutdownsMatchInits(ops: seq<Op>)
    requires AllAllowed(ops)
    ensures var s := DestroyAll(Run(ops));
      && Shutdowns(s) == FlatMap(IfShutdown, KeptPlugins(s))
      && InitsOk(s) == FlatMap(IfInit, KeptPlugins(s))
      && forall p :: p in Shutdowns(s) && p.hasInit ==> p in InitsOk(s)
  {
    RunKeeps(ops);
    hide FlatMap, Run;
    var s := DestroyAll(Run(ops));
    DestroyKeeps(Run(ops));
    DestroyedBalance(Run(ops));
    ShutDownMeansStarted(s);
  }

  lemma DestroyedBalance(s: State)
    requires Inv(s)
    ensures var t := DestroyAll(s);
      Shutdowns(t) == FlatMap(IfShutdown, KeptPlugins(t)) && InitsOk(t) == FlatMap(IfInit, KeptPlugins(t))
  {
    hide Blocks, GuidsDistinct, Accounted;
    DestroyKeeps(s);
    DestroyEffect(s);
    NoneMapped(IfShutdown);
  }

  lemma ShutDownMeansStarted(s: State)
    requires Shutdowns(s) == FlatMap(IfShutdown, KeptPlugins(s))
    requires InitsOk(s) == FlatMap(IfInit, KeptPlugins(s))
    ensures forall p :: p in Shutdowns(s) && p.hasInit ==> p in InitsOk(s)
  {
    hide FlatMap;
    forall p | p in Shutdowns(s) && p.hasInit
      ensures p in InitsOk(s)
    {
      InFlatMap(IfShutdown, KeptPlugins(s), p);
      InFlatMap(IfInit, KeptPlugins(s), p);
      var i :| 0 <= i < |KeptPlugins(s)| && p in IfShutdown(KeptPlugins(s)[i]);
      assert p in IfInit(KeptPlugins(s)[i]);
    }
  }

  lemma SecondDestroyDoesNothing(s: State)
    ensures DestroyAll(DestroyAll(s)) == DestroyAll(s)
  {
    NoneMapped(ShutdownEvents);
  }

  /** When teardown comes to instance i, its library is already closed exactly if i is not the owner. */
  lemma LibraryClosedBefore(ops: seq<Op>, i: nat)
    requires AllAllowed(ops) && i < |Run(ops).instances| && Run(ops).instances[i].library.Some?
    ensures var instances := Run(ops).instances;
      Closed(instances[i].library.value) in FlatMap(ShutdownEvents, instances[..i]) <==> !instances[i].ownsLibrary
  {
    RunKeeps(ops);
    hide Run, FlatMap, Blocks, GuidsDistinct, Accounted, Balanced;
    EarlierOwner(Run(ops), i);
    CloseComesFromOwner(Run(ops).instances[..i], Run(ops).instances[i].library.value);
  }

  lemma EarlierOwner(s: State, i: nat)
    requires Blocks(s) && i < |s.instances| && s.instances[i].library.Some?
    ensures var before := s.instances[..i];
      (exists j :: 0 <= j < |before| && before[j].ownsLibrary && before[j].library == s.instances[i].library)
      <==> !s.instances[i].ownsLibrary
  {
    var owner := BlockBegins(s, i);
    if owner < i {
      assert s.instances[..i][owner] == s.instances[owner];
    }
  }

  lemma CloseComesFromOwner(instances: seq<Instance>, library: nat)
    ensures Closed(library) in FlatMap(ShutdownEvents, instances) <==>
      exists j :: 0 <= j < |instances| && instances[j].ownsLibrary && instances[j].library == Some(library)
  {
    hide FlatMap;
    InFlatMap(ShutdownEvents, instances, Closed(library));
    forall j | 0 <= j < |instances|
      ensures Closed(library) in ShutdownEvents(instances[j]) <==> instances[j].ownsLibrary && instances[j].library == Some(library)
    {
    }
  }

  /** The owner of a library is shut down before the library is closed: where in the log of the teardown. */
  lemma OwnerShutDownFirst(ops: seq<Op>, i: nat) returns (j: nat)
    requires AllAllowed(ops) && i < |Run(ops).instances|
    requires var owner := Run(ops).instances[i];
      owner.ownsLibrary && owner.library.Some? && owner.plugin.hasShutdown
    ensures var owner := Run(ops).instances[i];
      var log := DestroyAll(Run(ops)).log;
      && |Run(ops).log| <= j < |log| - 1 && log[j] == ShutdownRan(owner.plugin)
      && log[j + 1] == Closed(owner.library.value)
      && Closed(owner.library.value) !in log[..j]
  {
    var s := Run(ops);
    var owner := s.instances[i];
    LibraryClosedBefore(ops, i);
    LibraryClosedOrOwned(ops, owner.library.value);
    OwnerOwns(s, i);
    CloseLogged(s, owner.library.value);
    DestroyLogSplits(s, i);
    hide Run, FlatMap, DestroyAll, Closes, Owned;
    var before := s.log + FlatMap(ShutdownEvents, s.instances[..i]);
    j := |before|;
    assert DestroyAll(s).log[..j] == before;
  }

  lemma CloseLogged(s: State, library: nat)
    ensures library in Closes(s) <==> Closed(library) in s.log
  {
    hide FlatMap;
    InFlatMap(CloseOf, s.log, library);
    if Closed(library) in s.log {
      var k :| 0 <= k < |s.log| && s.log[k] == Closed(library);
      assert library in CloseOf(s.log[k]);
    }
  }

  lemma DestroyLogSplits(s: State, i: nat)
    requires i < |s.instances|
    ensures DestroyAll(s).log == (s.log + FlatMap(ShutdownEvents, s.instances[..i]))
      + (ShutdownEvents(s.instances[i]) + FlatMap(ShutdownEvents, s.instances[i + 1..]))
  {
    hide FlatMap;
    var after := s.instances[i + 1..];
    assert s.instances == s.instances[..i + 1] + after;
    FlatMapConcat(ShutdownEvents, s.instances[..i + 1], after);
    FlatMapPrefix(ShutdownEvents, s.instances, i);
  }

  ghost predicate ShutdownsSeeOpenLibraries(instances: seq<Instance>) {
    forall i :: 0 <= i < |instances| && instances[i].plugin.hasShutdown && instances[i].library.Some? ==>
      Closed(instances[i].library.value) !in FlatMap(ShutdownEvents, instances[..i])
  }

  /**
   Every shutdown runs while the library it comes from is open exactly when no
   library's second or later instance has one.
   */
  lemma ShutdownsSafeIff(ops: seq<Op>)
    requires AllAllowed(ops)
    ensures var instances := Run(ops).instances;
      ShutdownsSeeOpenLibraries(instances) <==>
      forall i :: 0 <= i < |instances| && instances[i].plugin.hasShutdown && instances[i].library.Some? ==>
        instances[i].ownsLibrary
  {
    hide FlatMap, ShutdownEvents, Run;
    forall i | 0 <= i < |Run(ops).instances| && Run(ops).instances[i].library.Some?
      ensures var instances := Run(ops).instances;
        Closed(instances[i].library.value) in FlatMap(ShutdownEvents, instances[..i]) <==> !instances[i].ownsLibrary
    {
      LibraryClosedBefore(ops, i);
    }
  }

  /** Loading one library of two plugins, the second with a shutdown, is enough to run a shutdown of a closed library. */
  lemma LateShutdown(p: Plugin, q: Plugin)
    requires p.guid != q.guid && q.hasShutdown
    ensures var ops := [LoadLibrary(Exports([p, q], [NMO_OK, NMO_OK]))];
      AllAllowed(ops) && !ShutdownsSeeOpenLibraries(Run(ops).instances)
  {
    var library := Exports([p, q], [NMO_OK, NMO_OK]);
    var ops := [LoadLibrary(library)];
    assert ops[..0] == [] && Run([]) == INITIAL;
    assert Run(ops).instances == [Instance(p, Some(0), true), Instance(q, Some(0), false)] by {
      TwoLoaded(p, q);
      assert Run(ops) == Step(Run(ops[..0]), ops[0]);
    }
    LibraryClosedBefore(ops, 1);
  }

  lemma TwoLoaded(p: Plugin, q: Plugin)
    requires p.guid != q.guid
    ensures Load(INITIAL, Exports([p, q], [NMO_OK, NMO_OK])).0.instances
      == [Instance(p, Some(0), true), Instance(q, Some(0), false)]
  {
    var s := INITIAL.(log := INITIAL.log + [Opened(0)], openCount := 1);
    var t := Add(s, p, Some(0), NMO_OK);
    var ps, codes := [p, q], [NMO_OK, NMO_OK];
    assert ps[1..] == [q] && codes[1..] == [NMO_OK];
    assert t.instances == [Instance(p, Some(0), false)];
    assert !Registered(t.instances, q.guid);
    var u := Add(t, q, Some(0), NMO_OK);
    assert u.instances == [Instance(p, Some(0), false), Instance(q, Some(0), false)];
    assert LoadAll(u, ps[1..][1..], codes[1..][1..], 0) == u;
    assert LoadAll(s, ps, codes, 0) == u;
  }
}
