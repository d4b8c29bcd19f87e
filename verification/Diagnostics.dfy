/**
 Plugin dependency diagnostics of src/app/session.c, and the step of the save
 pipeline in src/app/parser.c that derives the dependencies from the manager.
 */
module Diagnostics {
  import opened CStrings
  import opened Plugins
  import opened PluginRuns

  datatype Dep = Dep(guid: Guid, category: nat, version: nat)

  /** One dependency's entry; the last three fields are the bits of status_flags. */
  datatype Status = Status(guid: Guid, category: nat, requiredVersion: nat,
                           resolvedVersion: nat, resolvedName: Option<CString>,
                           missing: bool, tooOld: bool, managerUnavailable: bool)

  /** What memset leaves in an entry. */
  const ZEROED := Status(Guid(0, 0), 0, 0, 0, None, false, false, false)

  datatype Diagnosis = Diagnosis(entries: seq<Status>, missing: nat, outdated: nat, managerAvailable: bool)

  /** The instances a dependency is looked up in; None when there is no manager. */
  function Find(registry: Option<seq<Instance>>, guid: Guid): Option<Plugin> {
    if registry == None then None else Lookup(registry.value, guid)
  }

  function StatusOf(dep: Dep, registry: Option<seq<Instance>>): Status {
    match Find(registry, dep.guid)
    case None => Status(dep.guid, dep.category, dep.version, 0, None, true, false, registry == None)
    case Some(p) => Status(dep.guid, dep.category, dep.version, p.version, p.name, false, p.version < dep.version, false)
  }

  function Statuses(deps: seq<Dep>, registry: Option<seq<Instance>>): (r: seq<Status>)
    ensures |r| == |deps| && forall i :: 0 <= i < |deps| ==> r[i] == StatusOf(deps[i], registry)
  {
    if deps == [] then [] else Statuses(deps[..|deps| - 1], registry) + [StatusOf(deps[|deps| - 1], registry)]
  }

  function CountMissing(entries: seq<Status>): nat {
    if entries == [] then 0
    else CountMissing(entries[..|entries| - 1]) + if entries[|entries| - 1].missing then 1 else 0
  }

  function CountTooOld(entries: seq<Status>): nat {
    if entries == [] then 0
    else CountTooOld(entries[..|entries| - 1]) + if entries[|entries| - 1].tooOld then 1 else 0
  }

  function CountSatisfied(entries: seq<Status>): nat {
    if entries == [] then 0
    else CountSatisfied(entries[..|entries| - 1])
         + if !entries[|entries| - 1].missing && !entries[|entries| - 1].tooOld then 1 else 0
  }

  /** The plugin dependency fields of a session, with the manager of its context, if any. */
  class SessionPlugins {
    const manager: PluginManager?
    var deps: Option<seq<Dep>>
    var depCount: nat
    var diagnosis: Option<Diagnosis>

    ghost predicate Valid()
      reads this
    {
      deps.Some? ==> depCount == |deps.value|
    }

    ghost function Registry(): Option<seq<Instance>>
      reads this, manager
    {
      if manager == null then None else Some(manager.instances)
    }

    constructor (manager: PluginManager?)
      ensures Valid() && this.manager == manager && deps == None && depCount == 0 && diagnosis == None
    {
      this.manager := manager;
      deps, depCount, diagnosis := None, 0, None;
    }

    /** nmo_session_refresh_plugin_diagnostics */
    method Refresh()
      requires Valid()
      modifies this`diagnosis
      ensures diagnosis.Some?
      ensures var d := diagnosis.value;
        && d.managerAvailable == (manager != null)
        && d.entries == (if deps == None then seq(depCount, _ => ZEROED) else Statuses(deps.value, Registry()))
        && d.missing == CountMissing(d.entries)
        && d.outdated == CountTooOld(d.entries)
    {
      var missing, outdated := 0, 0;
      var entries := seq(depCount, _ => ZEROED);
      if deps.Some? && depCount > 0 {
        hide Lookup, Statuses, CountMissing, CountTooOld;
        NothingCounted();
        ghost var all := Statuses(deps.value, Registry());
        var i := 0;
        while i < depCount
          invariant 0 <= i <= depCount == |entries|
          invariant entries[..i] == all[..i]
          invariant forall k :: i <= k < depCount ==> entries[k] == ZEROED
          invariant missing == CountMissing(all[..i]) && outdated == CountTooOld(all[..i])
        {
          CountOneMore(all, i);
          var dep := deps.value[i];
          var entry := entries[i].(guid := dep.guid, category := dep.category, requiredVersion := dep.version);
          var registered: Option<Plugin> := None;
          if manager != null {
            registered := manager.FindByGuid(dep.guid);
          }
          if registered.None? {
            missing := missing + 1;
            entry := entry.(missing := true, managerUnavailable := manager == null);
          } else {
            var p := registered.value;
            entry := entry.(resolvedVersion := p.version, resolvedName := p.name);
            if p.version < dep.version {
              outdated := outdated + 1;
              entry := entry.(tooOld := true);
            }
          }
          assert entry == all[i];
          entries := entries[i := entry];
          i := i + 1;
        }
        assert entries == all && all[..i] == all;
      } else {
        NoneCounted(depCount);
      }
      diagnosis := Some(Diagnosis(entries, missing, outdated, manager != null));
    }

    method SetPluginDependencies(deps: Option<seq<Dep>>, count: nat)
      requires deps.Some? ==> count == |deps.value|
      modifies this
      ensures Valid() && this.deps == deps && this.depCount == count
      ensures diagnosis.Some? && diagnosis.value.managerAvailable == (manager != null)
      ensures var d := diagnosis.value;
        && d.entries == (if deps == None then [] else Statuses(deps.value, Registry()))
        && d.missing == CountMissing(d.entries) && d.outdated == CountTooOld(d.entries)
    {
      this.deps, this.depCount := deps, count;
      if deps == None || count == 0 {
        diagnosis := Some(Diagnosis([], 0, 0, manager != null));
      } else {
        Refresh();
      }
    }

    /** Phase 8 of saving: the dependencies stored in the session, or else those of the manager's own instances. */
    method DependenciesForSave() returns (saved: seq<Dep>)
      requires Valid()
      modifies this
      ensures Valid()
      ensures var stored := old(deps.Some? && depCount > 0);
        && saved == (if stored then old(deps).value
                     else if manager == null then [] else Derived(manager.instances))
        && (stored ==> deps == old(deps) && diagnosis == old(diagnosis))
        && (!stored ==>
              && diagnosis.Some? && diagnosis.value.entries == Statuses(saved, Registry())
              && diagnosis.value.missing == CountMissing(diagnosis.value.entries)
              && diagnosis.value.outdated == CountTooOld(diagnosis.value.entries))
    {
      if deps.Some? && depCount > 0 {
        return deps.value;
      }
      saved := [];
      if manager != null && |manager.instances| > 0 {
        var i := 0;
        while i < |manager.instances|
          invariant 0 <= i <= |manager.instances|
          invariant saved == Derived(manager.instances)[..i]
          invariant unchanged(this)
        {
          var plugin := manager.instances[i].plugin;
          saved := saved + [Dep(plugin.guid, plugin.category, plugin.version)];
          i := i + 1;
        }
        SetPluginDependencies(Some(saved), |saved|);
      } else {
        SetPluginDependencies(None, 0);
      }
    }
  }

  lemma NothingCounted()
    ensures CountMissing([]) == 0 && CountTooOld([]) == 0
  {
  }

  lemma CountOneMore(entries: seq<Status>, i: nat)
    requires i < |entries|
    ensures CountMissing(entries[..i + 1]) == CountMissing(entries[..i]) + if entries[i].missing then 1 else 0
    ensures CountTooOld(entries[..i + 1]) == CountTooOld(entries[..i]) + if entries[i].tooOld then 1 else 0
  {
    assert entries[..i + 1][..i] == entries[..i];
  }

  lemma {:induction false} NoneCounted(n: nat)
    ensures CountMissing(seq(n, _ => ZEROED)) == 0 && CountTooOld(seq(n, _ => ZEROED)) == 0
  {
    if n > 0 {
      assert seq(n, _ => ZEROED)[..n - 1] == seq(n - 1, _ => ZEROED);
      NoneCounted(n - 1);
    }
  }

  function Derived(instances: seq<Instance>): seq<Dep> {
    seq(|instances|, i requires 0 <= i < |instances| =>
      var p := instances[i].plugin; Dep(p.guid, p.category, p.version))
  }

  /** One dependency for each instance, on its plugin as it is. */
  lemma DerivedNames(instances: seq<Instance>)
    ensures var deps := Derived(instances);
      && |deps| == |instances|
      && forall i :: 0 <= i < |instances| ==>
           && deps[i].guid == instances[i].plugin.guid && deps[i].category == instances[i].plugin.category
           && deps[i].version == instances[i].plugin.version
  {
  }

  // Exactness.

  /** Each entry is missing, outdated or satisfied, never two of them, and says why; the counts add up. */
  lemma {:induction false} DiagnosisPartitions(deps: seq<Dep>, registry: Option<seq<Instance>>)
    ensures var entries := Statuses(deps, registry);
      && CountMissing(entries) + CountTooOld(entries) + CountSatisfied(entries) == |deps|
      && forall i :: 0 <= i < |deps| ==>
        && (entries[i].missing <==> Find(registry, deps[i].guid) == None)
        && (entries[i].tooOld <==>
              Find(registry, deps[i].guid).Some? && Find(registry, deps[i].guid).value.version < deps[i].version)
    decreases |deps|
  {
    if deps != [] {
      DiagnosisPartitions(deps[..|deps| - 1], registry);
      assert Statuses(deps, registry)[..|deps| - 1] == Statuses(deps[..|deps| - 1], registry);
    }
  }

  /**
   What an entry says: the dependency as asked for; missing without a plugin of its
   GUID, the manager unavailable only without one; else the name and version found.
   */
  lemma StatusSays(deps: seq<Dep>, registry: Option<seq<Instance>>, i: nat)
    requires i < |deps|
    ensures var dep, e := deps[i], Statuses(deps, registry)[i];
      && e.guid == dep.guid && e.category == dep.category && e.requiredVersion == dep.version
      && (e.managerUnavailable <==> registry == None)
      && (e.missing <==> registry == None || forall j :: 0 <= j < |registry.value| ==> registry.value[j].plugin.guid != dep.guid)
      && (e.missing ==> e.resolvedVersion == 0 && e.resolvedName == None && !e.tooOld)
      && (!e.missing ==>
            && (e.tooOld <==> e.resolvedVersion < dep.version)
            && exists j :: 0 <= j < |registry.value| && registry.value[j].plugin.guid == dep.guid
                 && e.resolvedVersion == registry.value[j].plugin.version && e.resolvedName == registry.value[j].plugin.name)
  {
    if registry.Some? {
      LookupFinds(registry.value, deps[i].guid);
    }
  }

  lemma {:induction false} LookupFinds(instances: seq<Instance>, guid: Guid)
    ensures Lookup(instances, guid) == None <==> forall j :: 0 <= j < |instances| ==> instances[j].plugin.guid != guid
    ensures Lookup(instances, guid).Some? ==>
      exists j :: 0 <= j < |instances| && instances[j].plugin.guid == guid && Lookup(instances, guid) == Some(instances[j].plugin)
    decreases |instances|
  {
    if instances != [] && instances[0].plugin.guid != guid {
      var rest := instances[1..];
      LookupFinds(rest, guid);
      assert forall j :: 0 < j < |instances| ==> instances[j] == rest[j - 1];
      if j :| 0 <= j < |rest| && rest[j].plugin.guid == guid && Lookup(rest, guid) == Some(rest[j].plugin) {
        assert instances[j + 1] == rest[j];
      }
    }
  }

  // Growth of the registry.

  lemma {:induction false} LookupExtends(instances: seq<Instance>, more: seq<Instance>, guid: Guid)
    requires instances <= more && Lookup(instances, guid).Some?
    ensures Lookup(more, guid) == Lookup(instances, guid)
    decreases |instances|
  {
    if instances[0].plugin.guid != guid {
      LookupExtends(instances[1..], more[1..], guid);
    }
  }

  /** A refresh after the registry has grown keeps every resolved entry and never counts more as missing or unsatisfied. */
  lemma {:induction false} RefreshIsMonotone(deps: seq<Dep>, instances: seq<Instance>, more: seq<Instance>)
    requires instances <= more
    ensures var before, after := Statuses(deps, Some(instances)), Statuses(deps, Some(more));
      && (forall i :: 0 <= i < |deps| && !before[i].missing ==> after[i] == before[i])
      && CountMissing(after) <= CountMissing(before)
      && CountMissing(after) + CountTooOld(after) <= CountMissing(before) + CountTooOld(before)
    decreases |deps|
  {
    if deps != [] {
      var n := |deps| - 1;
      var before, after := Statuses(deps, Some(instances)), Statuses(deps, Some(more));
      RefreshIsMonotone(deps[..n], instances, more);
      assert before[..n] == Statuses(deps[..n], Some(instances)) && after[..n] == Statuses(deps[..n], Some(more));
      if !before[n].missing {
        LookupExtends(instances, more, deps[n].guid);
      }
    }
  }

  /** Until a teardown, running on only appends to the registry. */
  lemma {:induction false} RunExtends(ops: seq<Op>, more: seq<Op>)
    requires AllAllowed(ops) && AllAllowed(more) && AllAllowed(ops + more)
    requires Destroy !in more
    ensures Run(ops).instances <= Run(ops + more).instances
    decreases |more|
  {
    if more == [] {
      assert ops + more == ops;
    } else {
      var init, op := more[..|more| - 1], more[|more| - 1];
      assert (ops + more)[..|ops + more| - 1] == ops + init;
      RunExtends(ops, init);
      RunKeeps(ops + init);
      hide Inv, Step;
      StepExtends(Run(ops + init), op);
    }
  }

  /** Over runs: after any further registrations and loads a refresh only improves. */
  lemma RefreshAfterMore(ops: seq<Op>, more: seq<Op>, deps: seq<Dep>)
    requires AllAllowed(ops) && AllAllowed(more) && AllAllowed(ops + more) && Destroy !in more
    ensures var before := Statuses(deps, Some(Run(ops).instances));
      var after := Statuses(deps, Some(Run(ops + more).instances));
      && (forall i :: 0 <= i < |deps| && !before[i].missing ==> after[i] == before[i])
      && CountMissing(after) <= CountMissing(before)
      && CountMissing(after) + CountTooOld(after) <= CountMissing(before) + CountTooOld(before)
  {
    RunExtends(ops, more);
    RefreshIsMonotone(deps, Run(ops).instances, Run(ops + more).instances);
  }

  // Dependencies derived from the manager itself.

  lemma {:induction false} LookupOwn(instances: seq<Instance>, i: nat)
    requires GuidsDistinct(instances) && i < |instances|
    ensures Lookup(instances, instances[i].plugin.guid) == Some(instances[i].plugin)
    decreases |instances|
  {
    if i > 0 {
      LookupOwn(instances[1..], i - 1);
    }
  }

  lemma {:induction false} AllSatisfied(entries: seq<Status>)
    requires forall i :: 0 <= i < |entries| ==> !entries[i].missing && !entries[i].tooOld
    ensures CountMissing(entries) == 0 && CountTooOld(entries) == 0
    decreases |entries|
  {
    if entries != [] {
      AllSatisfied(entries[..|entries| - 1]);
    }
  }

  /** In every reachable state, dependencies derived from the manager's instances are all satisfied by it. */
  lemma DerivedAreSatisfied(ops: seq<Op>)
    requires AllAllowed(ops)
    ensures var instances := Run(ops).instances;
      var entries := Statuses(Derived(instances), Some(instances));
      CountMissing(entries) == 0 && CountTooOld(entries) == 0
  {
    var instances := Run(ops).instances;
    var entries := Statuses(Derived(instances), Some(instances));
    RunKeeps(ops);
    forall i | 0 <= i < |entries|
      ensures !entries[i].missing && !entries[i].tooOld
    {
      LookupOwn(instances, i);
    }
    AllSatisfied(entries);
  }
}
