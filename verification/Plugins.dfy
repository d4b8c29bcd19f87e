/**
 The plugin manager of src/app/nmo_plugin_manager.c: an append-only registry of
 plugin instances, some loaded from shared libraries. What the callbacks and the
 dynamic loader answer is a parameter; what happened is kept in an event log.
 */
module Plugins {
  import opened CStrings
  import opened Errors
  import opened Sequences

  datatype Guid = Guid(d1: nat, d2: nat)

  datatype Plugin = Plugin(name: Option<CString>, version: nat, guid: Guid, category: nat, hasInit: bool, hasShutdown: bool)

  /** ownsLibrary is the flag NMO_PLUGIN_INSTANCE_FLAG_OWNS_LIBRARY. Libraries are numbered in the order they are opened. */
  datatype Instance = Instance(plugin: Plugin, library: Option<nat>, ownsLibrary: bool)

  /** Kept marks the moment an instance is there to stay: its init is null or has succeeded. */
  datatype Event =
    | Opened(library: nat)
    | Closed(library: nat)
    | InitRan(plugin: Plugin, code: int)
    | Kept(plugin: Plugin)
    | ShutdownRan(plugin: Plugin)

  /** The registry, what has happened so far, and how many libraries were opened. */
  datatype State = State(instances: seq<Instance>, log: seq<Event>, openCount: nat)

  const INITIAL := State([], [], 0)

  predicate Registered(instances: seq<Instance>, guid: Guid) {
    exists i :: 0 <= i < |instances| && instances[i].plugin.guid == guid
  }

  // What each operation does to the state.

  /** A slot is taken and the plugin's init runs; if it fails the slot is given back. */
  function Add(s: State, p: Plugin, library: Option<nat>, initCode: int): State {
    var log := s.log + if p.hasInit then [InitRan(p, initCode)] else [];
    if p.hasInit && initCode != NMO_OK then s.(log := log)
    else s.(instances := s.instances + [Instance(p, library, false)], log := log + [Kept(p)])
  }

  /** codes[i] is what the init of plugins[i] returns if it runs. Registration stops at the first problem. */
  function RegisterAll(s: State, plugins: seq<Plugin>, codes: seq<int>): (State, int)
    requires |codes| == |plugins|
    decreases |plugins|
  {
    if plugins == [] then (s, NMO_OK)
    else
      var p, code := plugins[0], codes[0];
      if p.name == None then (s, NMO_ERR_INVALID_ARGUMENT)
      else if Registered(s.instances, p.guid) then (s, NMO_ERR_INVALID_STATE)
      else if p.hasInit && code != NMO_OK then (Add(s, p, None, code), code)
      else RegisterAll(Add(s, p, None, code), plugins[1..], codes[1..])
  }

  /** Loading skips what register stops at. */
  function LoadAll(s: State, plugins: seq<Plugin>, codes: seq<int>, library: nat): State
    requires |codes| == |plugins|
    decreases |plugins|
  {
    if plugins == [] then s
    else
      var next := if Registered(s.instances, plugins[0].guid) then s else Add(s, plugins[0], Some(library), codes[0]);
      LoadAll(next, plugins[1..], codes[1..], library)
  }

  /** The first instance loaded becomes the owner of the library; without any, the library is closed. */
  function Settle(s: State, first: nat, library: nat): State {
    if first < |s.instances| then s.(instances := s.instances[first := s.instances[first].(ownsLibrary := true)])
    else s.(log := s.log + [Closed(library)])
  }

  /** What the dynamic loader and the library's query function answer. */
  datatype Library =
    | CannotOpen(code: int)
    | NoSymbol(code: int)
    | NoQuery
    | NoPlugins
    | Exports(plugins: seq<Plugin>, codes: seq<int>)

  predicate WellFormed(l: Library) {
    match l
    case CannotOpen(code) => code != NMO_OK
    case NoSymbol(code) => code != NMO_OK
    case Exports(plugins, codes) => plugins != [] && |codes| == |plugins|
    case _ => true
  }

  function Load(s: State, l: Library): (State, int)
    requires WellFormed(l)
  {
    var open := s.(log := s.log + [Opened(s.openCount)], openCount := s.openCount + 1);
    match l
    case CannotOpen(code) => (s, code)
    case NoSymbol(code) => (open.(log := open.log + [Closed(s.openCount)]), code)
    case NoQuery => (open.(log := open.log + [Closed(s.openCount)]), NMO_ERR_INVALID_STATE)
    case NoPlugins => (open.(log := open.log + [Closed(s.openCount)]), NMO_ERR_INVALID_STATE)
    case Exports(plugins, codes) =>
      (Settle(LoadAll(open, plugins, codes, s.openCount), |s.instances|, s.openCount), NMO_OK)
  }

  function ShutdownEvents(i: Instance): seq<Event> {
    (if i.plugin.hasShutdown then [ShutdownRan(i.plugin)] else [])
    + (if i.library.Some? && i.ownsLibrary then [Closed(i.library.value)] else [])
  }

  function DestroyAll(s: State): State {
    s.(instances := [], log := s.log + FlatMap(ShutdownEvents, s.instances))
  }

  /** The manager itself. */
  class PluginManager {
    var instances: seq<Instance>
    var openCount: nat
    ghost var log: seq<Event>

    ghost function View(): State
      reads this
    {
      State(instances, log, openCount)
    }

    constructor ()
      ensures View() == INITIAL
    {
      instances, openCount, log := [], 0, [];
    }

    method FindIndexByGuid(guid: Guid) returns (index: int)
      ensures -1 <= index < |instances|
      ensures index >= 0 ==> instances[index].plugin.guid == guid
      ensures forall j :: 0 <= j < (if index < 0 then |instances| else index) ==> instances[j].plugin.guid != guid
    {
      for i := 0 to |instances|
        invariant forall j :: 0 <= j < i ==> instances[j].plugin.guid != guid
      {
        if instances[i].plugin.guid == guid {
          return i;
        }
      }
      return -1;
    }

    /** The slot both operations take: true if the instance is kept. */
    method TakeSlot(plugin: Plugin, library: Option<nat>, initCode: int) returns (kept: bool)
      modifies this
      ensures View() == Add(old(View()), plugin, library, initCode)
      ensures kept <==> !plugin.hasInit || initCode == NMO_OK
      ensures instances == old(instances) + if kept then [Instance(plugin, library, false)] else []
      ensures log == old(log) + (if plugin.hasInit then [InitRan(plugin, initCode)] else [])
                     + if kept then [Kept(plugin)] else []
    {
      instances := instances + [Instance(plugin, library, false)];
      if plugin.hasInit {
        log := log + [InitRan(plugin, initCode)];
        if initCode != NMO_OK {
          instances := instances[..|instances| - 1];
          return false;
        }
      }
      log := log + [Kept(plugin)];
      return true;
    }

    method Register(plugins: Option<seq<Plugin>>, codes: seq<int>) returns (code: int)
      requires plugins.Some? ==> |codes| == |plugins.value|
      modifies this
      ensures if plugins == None || plugins.value == []
        then View() == old(View()) && code == NMO_ERR_INVALID_ARGUMENT
        else (View(), code) == RegisterAll(old(View()), plugins.value, codes)
    {
      if plugins == None || plugins.value == [] {
        return NMO_ERR_INVALID_ARGUMENT;
      }
      var ps := plugins.value;
      var i := 0;
      while i < |ps|
        invariant 0 <= i <= |ps|
        invariant RegisterAll(View(), ps[i..], codes[i..]) == RegisterAll(old(View()), ps, codes)
      {
        var plugin := ps[i];
        if plugin.name == None {
          return NMO_ERR_INVALID_ARGUMENT;
        }
        var index := FindIndexByGuid(plugin.guid);
        if index >= 0 {
          return NMO_ERR_INVALID_STATE;
        }
        assert ps[i..][1..] == ps[i + 1..] && codes[i..][1..] == codes[i + 1..];
        var kept := TakeSlot(plugin, None, codes[i]);
        if !kept {
          return codes[i];
        }
        i := i + 1;
      }
      return NMO_OK;
    }

    method LoadLibrary(path: Option<CString>, library: Library) returns (code: int)
      requires WellFormed(library)
      modifies this
      ensures if path == None
        then View() == old(View()) && code == NMO_ERR_INVALID_ARGUMENT
        else (View(), code) == Load(old(View()), library)
      ensures code == NMO_OK <==> path.Some? && library.Exports?
    {
      if path == None {
        return NMO_ERR_INVALID_ARGUMENT;
      }
      if library.CannotOpen? {
        return library.code;
      }
      var handle := openCount;
      openCount, log := openCount + 1, log + [Opened(handle)];
      if library.NoSymbol? {
        log := log + [Closed(handle)];
        return library.code;
      }
      if library.NoQuery? || library.NoPlugins? {
        log := log + [Closed(handle)];
        return NMO_ERR_INVALID_STATE;
      }
      ghost var open := View();
      var firstIndex := |instances|;
      var ps, codes := library.plugins, library.codes;
      var i := 0;
      while i < |ps|
        invariant 0 <= i <= |ps|
        invariant LoadAll(View(), ps[i..], codes[i..], handle) == LoadAll(open, ps, codes, handle)
      {
        assert ps[i..][1..] == ps[i + 1..] && codes[i..][1..] == codes[i + 1..];
        var index := FindIndexByGuid(ps[i].guid);
        if index < 0 {
          var kept := TakeSlot(ps[i], Some(handle), codes[i]);
        }
        i := i + 1;
      }
      if |instances| > firstIndex {
        instances := instances[firstIndex := instances[firstIndex].(ownsLibrary := true)];
      } else {
        log := log + [Closed(handle)];
      }
      return NMO_OK;
    }

    method Destroy()
      modifies this
      ensures View() == DestroyAll(old(View()))
    {
      var i := 0;
      while i < |instances|
        invariant 0 <= i <= |instances|
        invariant instances == old(instances) && openCount == old(openCount)
        invariant log == old(log) + FlatMap(ShutdownEvents, instances[..i])
      {
        assert instances[..i + 1][..i] == instances[..i];
        if instances[i].plugin.hasShutdown {
          log := log + [ShutdownRan(instances[i].plugin)];
        }
        if instances[i].library.Some? && instances[i].ownsLibrary {
          log := log + [Closed(instances[i].library.value)];
        }
        i := i + 1;
      }
      assert instances[..i] == instances;
      instances := [];
    }

    method FindByGuid(guid: Guid) returns (plugin: Option<Plugin>)
      ensures plugin == Lookup(instances, guid)
    {
      var index := FindIndexByGuid(guid);
      LookupFirst(instances, guid, index);
      plugin := if index < 0 then None else Some(instances[index].plugin);
    }
  }

  /** The plugin of the first instance with the GUID. */
  function Lookup(instances: seq<Instance>, guid: Guid): Option<Plugin> {
    if instances == [] then None
    else if instances[0].plugin.guid == guid then Some(instances[0].plugin)
    else Lookup(instances[1..], guid)
  }

  lemma {:induction false} LookupFirst(instances: seq<Instance>, guid: Guid, index: int)
    requires -1 <= index < |instances|
    requires index >= 0 ==> instances[index].plugin.guid == guid
    requires forall j :: 0 <= j < (if index < 0 then |instances| else index) ==> instances[j].plugin.guid != guid
    ensures Lookup(instances, guid) == if index < 0 then None else Some(instances[index].plugin)
    decreases |instances|
  {
    if instances != [] && index != 0 {
      LookupFirst(instances[1..], guid, if index < 0 then -1 else index - 1);
    }
  }

  // What comes of a list of plugins, told without the loops.

  function AsInstance(p: Plugin, library: Option<nat>): Instance {
    Instance(p, library, false)
  }

  predicate InitFails(p: Plugin, code: int) {
    p.hasInit && code != NMO_OK
  }

  function InstancesOf(plugins: seq<Plugin>, library: Option<nat>): seq<Instance> {
    seq(|plugins|, i requires 0 <= i < |plugins| => AsInstance(plugins[i], library))
  }

  /** Registering appends the plugins before the first that has a problem, and returns what that problem is. */
  lemma {:induction false} RegisterOutcome(s: State, plugins: seq<Plugin>, codes: seq<int>) returns (k: nat)
    requires |codes| == |plugins|
    ensures k <= |plugins|
    ensures var (t, code) := RegisterAll(s, plugins, codes);
      && t.instances == s.instances + InstancesOf(plugins[..k], None)
      && (forall i :: 0 <= i < k ==> plugins[i].name != None && !InitFails(plugins[i], codes[i]))
      && (forall i :: 0 <= i < k ==> !Registered(s.instances + InstancesOf(plugins[..i], None), plugins[i].guid))
      && if k == |plugins| then code == NMO_OK
         else if plugins[k].name == None then code == NMO_ERR_INVALID_ARGUMENT
         else if Registered(t.instances, plugins[k].guid) then code == NMO_ERR_INVALID_STATE
         else code == codes[k] && InitFails(plugins[k], code)
    decreases |plugins|
  {
    hide Registered;
    k := 0;
    if plugins != [] {
      var p := plugins[0];
      if p.name != None && !Registered(s.instances, p.guid) && !InitFails(p, codes[0]) {
        var next := Add(s, p, None, codes[0]);
        var j := RegisterOutcome(next, plugins[1..], codes[1..]);
        k := j + 1;
        assert [AsInstance(p, None)] + InstancesOf(plugins[1..][..j], None) == InstancesOf(plugins[..k], None);
        assert next.instances == s.instances + [AsInstance(p, None)];
        forall i | 0 <= i < k
          ensures plugins[i].name != None && !InitFails(plugins[i], codes[i])
          ensures !Registered(s.instances + InstancesOf(plugins[..i], None), plugins[i].guid)
        {
          if i == 0 {
            assert s.instances + InstancesOf(plugins[..0], None) == s.instances;
          } else {
            assert plugins[1..][i - 1] == plugins[i] && codes[1..][i - 1] == codes[i];
            assert next.instances + InstancesOf(plugins[1..][..i - 1], None) == s.instances + InstancesOf(plugins[..i], None);
          }
        }
      }
    }
  }

  ghost predicate Indexes(from: seq<nat>, n: nat) {
    && (forall j :: 0 <= j < |from| ==> from[j] < n)
    && forall j, k :: 0 <= j < k < |from| ==> from[j] < from[k]
  }

  function Chosen(plugins: seq<Plugin>, from: seq<nat>, library: nat): seq<Instance>
    requires Indexes(from, |plugins|)
  {
    seq(|from|, j requires 0 <= j < |from| => AsInstance(plugins[from[j]], Some(library)))
  }

  /** The GUID of plugin i is registered already, or that of an earlier plugin that is kept. */
  ghost predicate Taken(s: State, plugins: seq<Plugin>, from: seq<nat>, i: nat)
    requires i < |plugins|
  {
    Registered(s.instances, plugins[i].guid) || exists j :: 0 <= j < i && j in from && plugins[j].guid == plugins[i].guid
  }

  /**
   Loading keeps the plugins at the indexes from, in order: their init is null or
   succeeds. Every other one has a failing init, or a GUID that is taken by then.
   */
  lemma {:induction false} LoadOutcome(s: State, plugins: seq<Plugin>, codes: seq<int>, library: nat) returns (from: seq<nat>)
    requires |codes| == |plugins|
    ensures Indexes(from, |plugins|) && forall j :: 0 <= j < |from| ==> !InitFails(plugins[from[j]], codes[from[j]])
    ensures LoadAll(s, plugins, codes, library).instances == s.instances + Chosen(plugins, from, library)
    ensures forall i :: 0 <= i < |plugins| && i !in from ==> InitFails(plugins[i], codes[i]) || Taken(s, plugins, from, i)
    decreases |plugins|
  {
    hide Registered, Taken, Indexes;
    from := [];
    NoIndexes(|plugins|);
    if plugins != [] {
      var p := plugins[0];
      var keep := !Registered(s.instances, p.guid) && !InitFails(p, codes[0]);
      var next := if Registered(s.instances, p.guid) then s else Add(s, p, Some(library), codes[0]);
      var later := LoadOutcome(next, plugins[1..], codes[1..], library);
      from := Shifted(later, keep);
      ChosenShifted(plugins, later, keep, library);
      assert next.instances == if keep then s.instances + [AsInstance(p, Some(library))] else s.instances;
      KeptShifted(plugins, codes, later, keep);
      forall i | 0 <= i < |plugins| && i !in from
        ensures InitFails(plugins[i], codes[i]) || Taken(s, plugins, from, i)
      {
        SkippedShifted(s, plugins, codes, library, later, keep, i);
      }
    }
  }

  lemma NoIndexes(n: nat)
    ensures Indexes([], n)
  {
  }

  function Shifted(later: seq<nat>, keep: bool): (from: seq<nat>)
    ensures |from| == |later| + if keep then 1 else 0
    ensures forall i :: i in from <==> (i == 0 && keep) || (i > 0 && i - 1 in later)
  {
    var shifted: seq<nat> := seq(|later|, j requires 0 <= j < |later| => later[j] + 1);
    assert forall i :: i in shifted ==> exists j :: 0 <= j < |later| && i == later[j] + 1;
    assert forall j :: 0 <= j < |later| ==> shifted[j] == later[j] + 1;
    (if keep then [0] else []) + shifted
  }

  lemma ChosenShifted(plugins: seq<Plugin>, later: seq<nat>, keep: bool, library: nat)
    requires plugins != [] && Indexes(later, |plugins| - 1)
    ensures Indexes(Shifted(later, keep), |plugins|)
    ensures Chosen(plugins, Shifted(later, keep), library)
      == (if keep then [AsInstance(plugins[0], Some(library))] else []) + Chosen(plugins[1..], later, library)
  {
  }

  lemma KeptShifted(plugins: seq<Plugin>, codes: seq<int>, later: seq<nat>, keep: bool)
    requires plugins != [] && |codes| == |plugins| && Indexes(later, |plugins| - 1)
    requires keep ==> !InitFails(plugins[0], codes[0])
    requires forall j :: 0 <= j < |later| ==> !InitFails(plugins[1..][later[j]], codes[1..][later[j]])
    ensures Indexes(Shifted(later, keep), |plugins|)
    ensures forall j :: 0 <= j < |Shifted(later, keep)| ==> !InitFails(plugins[Shifted(later, keep)[j]], codes[Shifted(later, keep)[j]])
  {
    ChosenShifted(plugins, later, keep, 0);
    var from := Shifted(later, keep);
    forall i | i in from && i < |plugins|
      ensures !InitFails(plugins[i], codes[i])
    {
      if i > 0 {
        var j :| 0 <= j < |later| && later[j] == i - 1;
        assert plugins[1..][later[j]] == plugins[i] && codes[1..][later[j]] == codes[i];
      }
    }
  }

  /** A plugin after the first that is passed over is passed over among all of them. */
  lemma SkippedShifted(s: State, plugins: seq<Plugin>, codes: seq<int>, library: nat, later: seq<nat>, keep: bool, i: nat)
    requires plugins != [] && |codes| == |plugins| && i < |plugins| && i !in Shifted(later, keep)
    requires keep <==> !Registered(s.instances, plugins[0].guid) && !InitFails(plugins[0], codes[0])
    requires var next := if Registered(s.instances, plugins[0].guid) then s else Add(s, plugins[0], Some(library), codes[0]);
      i > 0 && i - 1 !in later ==> InitFails(plugins[i], codes[i]) || Taken(next, plugins[1..], later, i - 1)
    ensures InitFails(plugins[i], codes[i]) || Taken(s, plugins, Shifted(later, keep), i)
  {
    if i > 0 && !InitFails(plugins[i], codes[i]) {
      var rest := plugins[1..];
      if j :| 0 <= j < i - 1 && j in later && rest[j].guid == rest[i - 1].guid {
        assert j + 1 in Shifted(later, keep) && plugins[j + 1].guid == plugins[i].guid;
      }
    }
  }

  /**
   What a load answers and leaves behind. It succeeds exactly if the library opened
   and its query gave plugins; the plugins kept are appended then, the first of them
   with the library. Otherwise no instance changes and what was opened is closed.
   */
  lemma LoadAnswer(s: State, l: Library) returns (from: seq<nat>)
    requires WellFormed(l)
    ensures var (t, code) := Load(s, l);
      && (code == NMO_OK <==> l.Exports?)
      && (l.CannotOpen? || l.NoSymbol? ==> code == l.code)
      && (l.NoQuery? || l.NoPlugins? ==> code == NMO_ERR_INVALID_STATE)
      && t.openCount == (if l.CannotOpen? then s.openCount else s.openCount + 1)
      && (!l.Exports? ==> t.instances == s.instances)
      && (!l.Exports? ==> t.log == s.log + if l.CannotOpen? then [] else [Opened(s.openCount), Closed(s.openCount)])
    ensures l.Exports? ==>
      var t := Load(s, l).0;
      && Indexes(from, |l.plugins|)
      && |t.instances| == |s.instances| + |from| && s.instances <= t.instances
      && (forall j :: 0 <= j < |from| ==>
            && t.instances[|s.instances| + j] == Instance(l.plugins[from[j]], Some(s.openCount), j == 0)
            && !InitFails(l.plugins[from[j]], l.codes[from[j]]))
      && forall i :: 0 <= i < |l.plugins| && i !in from ==>
           InitFails(l.plugins[i], l.codes[i]) || Taken(s, l.plugins, from, i)
  {
    hide Indexes, Taken, LoadAll;
    from := [];
    if l.Exports? {
      var open := s.(log := s.log + [Opened(s.openCount)], openCount := s.openCount + 1);
      from := LoadOutcome(open, l.plugins, l.codes, s.openCount);
      LoadAllCounts(open, l.plugins, l.codes, s.openCount);
      forall i | 0 <= i < |l.plugins| && i !in from
        ensures InitFails(l.plugins[i], l.codes[i]) || Taken(s, l.plugins, from, i)
      {
        TakenByInstances(open, s, l.plugins, from, i);
      }
    } else {
      assert s.log + [Opened(s.openCount)] + [Closed(s.openCount)] == s.log + [Opened(s.openCount), Closed(s.openCount)];
    }
  }

  lemma TakenByInstances(s: State, t: State, plugins: seq<Plugin>, from: seq<nat>, i: nat)
    requires i < |plugins| && s.instances == t.instances
    ensures Taken(s, plugins, from, i) <==> Taken(t, plugins, from, i)
  {
  }

  lemma {:induction false} LoadAllCounts(s: State, plugins: seq<Plugin>, codes: seq<int>, library: nat)
    requires |codes| == |plugins|
    ensures LoadAll(s, plugins, codes, library).openCount == s.openCount
    decreases |plugins|
  {
    if plugins != [] {
      var next := if Registered(s.instances, plugins[0].guid) then s else Add(s, plugins[0], Some(library), codes[0]);
      LoadAllCounts(next, plugins[1..], codes[1..], library);
    }
  }
}
