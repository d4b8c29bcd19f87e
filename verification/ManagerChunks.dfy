/**
 Manager chunks from load to save (src/app/parser.c): loading hands each chunk of
 the data section to the manager of its GUID and marks the ones consumed; saving
 merges what the managers generate with the chunks no manager consumed. The hooks
 are oracles: the code a load hook would return for each chunk, the chunk a save
 hook returns.
 */
module ManagerChunks {
  import opened Words
  import opened CStrings
  import opened Errors
  import opened Sequences
  import Plugins

  type Guid = Plugins.Guid

  /** bytes is what is written for the chunk; raw tells whether the chunk holds them already. */
  datatype Chunk = Chunk(bytes: Bytes, raw: bool)

  /** dispatched and error are the two bits of flags; chunk is null or points to the chunk. */
  datatype ManagerData = ManagerData(guid: Guid, dataSize: nat, chunk: Option<Chunk>, dispatched: bool, error: bool)

  /** saved is what invoking save_data gives: null too when the manager has no such hook. */
  datatype Manager = Manager(guid: Guid, hasLoad: bool, saved: Option<Chunk>)

  /** The slots of the registry, in registration order; null when there is no registry. */
  type Registry = Option<seq<Option<Manager>>>

  const NO_ENTRY := ManagerData(Plugins.Guid(0, 0), 0, None, false, false)

  function Slots(registry: Registry): seq<Option<Manager>> {
    if registry == None then [] else registry.value
  }

  // Loading.

  /** The map from GUID to manager: the registry refuses a second manager of one GUID. */
  function FindManager(slots: seq<Option<Manager>>, guid: Guid): (m: Option<Manager>)
    ensures m.Some? ==> m in slots && m.value.guid == guid
    ensures m == None ==> forall n :: Some(n) in slots ==> n.guid != guid
  {
    if slots == [] then None
    else if slots[0].Some? && slots[0].value.guid == guid then slots[0]
    else FindManager(slots[1..], guid)
  }

  /** Whether a chunk is put to its manager's load hook at all. */
  predicate Asked(e: ManagerData, registry: Registry) {
    var m := FindManager(Slots(registry), e.guid);
    m.Some? && m.value.hasLoad && e.chunk.Some?
  }

  function Settled(e: ManagerData, registry: Registry, code: int): ManagerData {
    if !Asked(e, registry) then e
    else if code == NMO_OK then e.(dispatched := true)
    else e.(error := true)
  }

  function Dispatched(es: seq<ManagerData>, registry: Registry, codes: seq<int>): (r: seq<ManagerData>)
    requires |codes| == |es|
  {
    seq(|es|, i requires 0 <= i < |es| => Settled(es[i], registry, codes[i]))
  }

  // Saving.

  function NewEntry(guid: Guid, chunk: Chunk): ManagerData {
    ManagerData(guid, if chunk.raw then |chunk.bytes| % UINT32_COUNT else 0, Some(chunk), true, false)
  }

  function GeneratedBy(slot: Option<Manager>): seq<ManagerData> {
    if slot.Some? && slot.value.saved.Some? then [NewEntry(slot.value.guid, slot.value.saved.value)] else []
  }

  /** The registry reports its count cut to 32 bits. */
  function Registered(registry: Registry): seq<Option<Manager>> {
    Slots(registry)[..|Slots(registry)| % UINT32_COUNT]
  }

  function Generated(registry: Registry): seq<ManagerData> {
    FlatMap(GeneratedBy, Registered(registry))
  }

  function IfUndispatched(e: ManagerData): seq<ManagerData> {
    if e.dispatched then [] else [e]
  }

  function Undispatched(es: seq<ManagerData>): seq<ManagerData> {
    FlatMap(IfUndispatched, es)
  }

  function Merged(es: seq<ManagerData>, registry: Registry): seq<ManagerData> {
    Generated(registry) + Undispatched(es)
  }

  /** The room the save reserves, in 32-bit arithmetic. */
  function Capacity(count: nat, registry: Registry): nat {
    (|Registered(registry)| + count) % UINT32_COUNT
  }

  // The session and the two loops over it.

  class ManagerSession {
    /** manager_data with manager_data_count; no entries stands for null. */
    var managers: array<ManagerData>

    constructor ()
      ensures fresh(managers) && managers[..] == []
    {
      managers := new ManagerData[0];
    }

    /**
     Phases 9 and 13b: the session keeps the loader's own array, so the marks set
     while dispatching are the ones a later save sees.
     */
    method LoadManagers(parsed: array<ManagerData>, registry: Registry, codes: seq<int>)
      requires |codes| == parsed.Length
      modifies this, parsed
      ensures managers == if parsed.Length > 0 then parsed else old(managers)
      ensures parsed[..] == Dispatched(old(parsed[..]), registry, codes)
    {
      if parsed.Length > 0 {
        managers := parsed;
        if registry.Some? {
          DispatchChunks(parsed, registry, codes);
        }
      }
      assert registry == None ==> Dispatched(old(parsed[..]), registry, codes) == old(parsed[..]);
    }

    /** Phase 4: entries[..count] is what goes to the data section. */
    method MergeForSave(registry: Registry) returns (code: int, entries: array<ManagerData>, count: nat)
      requires managers.Length < UINT32_COUNT
      ensures managers[..] == old(managers[..])
      ensures code in {NMO_OK, NMO_ERR_NOMEM}
      ensures code == NMO_OK <==> |Merged(managers[..], registry)| <= Capacity(managers.Length, registry)
      ensures code == NMO_OK ==> count <= entries.Length && entries[..count] == Merged(managers[..], registry)
    {
      hide FlatMap;
      ghost var was := managers[..];
      var capacity := Capacity(managers.Length, registry);
      entries := new ManagerData[capacity](_ => NO_ENTRY);
      var fits: bool;
      fits, count := StoreGenerated(registry, entries);
      if !fits {
        return NMO_ERR_NOMEM, entries, 0;
      }
      fits, count := StoreUndispatched(managers, entries, count);
      code := if fits then NMO_OK else NMO_ERR_NOMEM;
    }
  }

  method DispatchChunks(managers: array<ManagerData>, registry: Registry, codes: seq<int>)
    requires |codes| == managers.Length && registry.Some?
    modifies managers
    ensures managers[..] == Dispatched(old(managers[..]), registry, codes)
  {
    hide FindManager, Asked, Settled;
    ghost var was := managers[..];
    var i := 0;
    while i < managers.Length
      invariant 0 <= i <= managers.Length
      invariant forall k :: 0 <= k < i ==> managers[k] == Settled(was[k], registry, codes[k])
      invariant forall k :: i <= k < managers.Length ==> managers[k] == was[k]
    {
      var m := FindManager(registry.value, managers[i].guid);
      SettledCases(was[i], registry, codes[i]);
      if m.Some? && m.value.hasLoad && managers[i].chunk.Some? {
        managers[i] := if codes[i] == NMO_OK then managers[i].(dispatched := true) else managers[i].(error := true);
      }
      i := i + 1;
    }
  }

  lemma SettledCases(e: ManagerData, registry: Registry, code: int)
    requires registry.Some?
    ensures var m := FindManager(registry.value, e.guid);
      Settled(e, registry, code) ==
      if m.Some? && m.value.hasLoad && e.chunk.Some? then (if code == NMO_OK then e.(dispatched := true) else e.(error := true)) else e
  {
  }

  method StoreGenerated(registry: Registry, entries: array<ManagerData>) returns (fits: bool, count: nat)
    modifies entries
    ensures fits <==> |Generated(registry)| <= entries.Length
    ensures fits ==> count <= entries.Length && entries[..count] == Generated(registry)
  {
    hide FlatMap;
    var slots := Registered(registry);
    FlatMapNone(GeneratedBy);
    count := 0;
    var i := 0;
    while i < |slots|
      invariant 0 <= i <= |slots| && count <= entries.Length
      invariant entries[..count] == FlatMap(GeneratedBy, slots[..i])
    {
      FlatMapPrefix(GeneratedBy, slots, i);
      if slots[i].Some? && slots[i].value.saved.Some? {
        if count >= entries.Length {
          FlatMapGrows(GeneratedBy, slots, i + 1);
          return false, count;
        }
        entries[count] := NewEntry(slots[i].value.guid, slots[i].value.saved.value);
        count := count + 1;
        assert entries[..count] == entries[..count - 1] + [entries[count - 1]];
      }
      i := i + 1;
    }
    assert slots[..i] == slots;
    fits := true;
  }

  method StoreUndispatched(managers: array<ManagerData>, entries: array<ManagerData>, start: nat) returns (fits: bool, count: nat)
    requires managers != entries && start <= entries.Length
    modifies entries
    ensures fits <==> start + |Undispatched(managers[..])| <= entries.Length
    ensures fits ==> count <= entries.Length && entries[..count] == old(entries[..start]) + Undispatched(managers[..])
  {
    hide FlatMap;
    ghost var es, stored := managers[..], entries[..start];
    FlatMapNone(IfUndispatched);
    count := start;
    var i := 0;
    while i < managers.Length
      invariant 0 <= i <= managers.Length && count <= entries.Length && managers[..] == es
      invariant entries[..count] == stored + Undispatched(es[..i])
    {
      FlatMapPrefix(IfUndispatched, es, i);
      var fallback := managers[i];
      if !fallback.dispatched {
        if count >= entries.Length {
          FlatMapGrows(IfUndispatched, es, i + 1);
          assert |stored + Undispatched(es[..i])| == count;
          return false, count;
        }
        entries[count] := fallback;
        count := count + 1;
        assert entries[..count] == entries[..count - 1] + [fallback];
      }
      i := i + 1;
    }
    assert es[..i] == es;
    assert |stored + Undispatched(es)| == count;
    fits := true;
  }

  // What is merged.

  function IfDispatched(e: ManagerData): seq<ManagerData> {
    if e.dispatched then [e] else []
  }

  /** The overflow branches are taken only once the registry's count and the session's wrap around together. */
  lemma MergeFitsIff(es: seq<ManagerData>, registry: Registry)
    requires |es| < UINT32_COUNT
    ensures var asked := |Registered(registry)| + |es|;
      |Merged(es, registry)| <= Capacity(|es|, registry) <==>
      asked < UINT32_COUNT || |Merged(es, registry)| <= asked - UINT32_COUNT
  {
    FlatMapAtMostOne(GeneratedBy, Registered(registry));
    FlatMapAtMostOne(IfUndispatched, es);
  }

  lemma {:induction false} EachOnce(es: seq<ManagerData>)
    ensures |Undispatched(es)| + |FlatMap(IfDispatched, es)| == |es|
    decreases |es|
  {
    if es != [] {
      EachOnce(es[..|es| - 1]);
    }
  }

  /** The header repeats the session's count; it is the number of entries written exactly when as many were generated as dispatched. */
  lemma HeaderCountIff(es: seq<ManagerData>, registry: Registry)
    ensures |Merged(es, registry)| == |es| <==> |Generated(registry)| == |FlatMap(IfDispatched, es)|
  {
    EachOnce(es);
  }

  /** What saving writes after the generated chunks: every chunk no manager consumed, in the order of the session. */
  lemma PreservedInOrder(es: seq<ManagerData>) returns (from: seq<nat>)
    ensures |from| == |Undispatched(es)|
    ensures forall j :: 0 <= j < |from| ==> from[j] < |es| && Undispatched(es)[j] == es[from[j]] && !es[from[j]].dispatched
    ensures forall j, k :: 0 <= j < k < |from| ==> from[j] < from[k]
    ensures forall i :: 0 <= i < |es| && !es[i].dispatched ==> i in from
  {
    hide FlatMap;
    from := Positions(IfUndispatched, es);
    forall j | 0 <= j < |from|
      ensures Undispatched(es)[j] == es[from[j]] && !es[from[j]].dispatched
    {
      assert IfUndispatched(es[from[j]]) == [Undispatched(es)[j]];
    }
  }

  /**
   What saving writes first: for every registered manager whose save hook gave a
   chunk that very chunk, with its GUID, in the order of the registry.
   */
  lemma GeneratedInOrder(registry: Registry) returns (from: seq<nat>)
    ensures |from| == |Generated(registry)|
    ensures forall j, k :: 0 <= j < k < |from| ==> from[j] < from[k]
    ensures forall j :: 0 <= j < |from| ==>
      && from[j] < |Slots(registry)|
      && var slot, e := Slots(registry)[from[j]], Generated(registry)[j];
         && slot.Some? && slot.value.saved.Some?
         && e.guid == slot.value.guid && e.chunk == slot.value.saved
         && e.dataSize == (if e.chunk.value.raw then |e.chunk.value.bytes| % UINT32_COUNT else 0)
         && e.dispatched && !e.error
    ensures |Slots(registry)| < UINT32_COUNT ==>
      forall i :: 0 <= i < |Slots(registry)| && Slots(registry)[i].Some? && Slots(registry)[i].value.saved.Some? ==> i in from
  {
    hide FlatMap;
    var slots := Slots(registry);
    from := Positions(GeneratedBy, Registered(registry));
    assert |slots| < UINT32_COUNT ==> |slots| % UINT32_COUNT == |slots|;
    forall j | 0 <= j < |from|
      ensures slots[from[j]].Some? && GeneratedBy(slots[from[j]]) == [Generated(registry)[j]]
    {
      assert Registered(registry)[from[j]] == slots[from[j]];
    }
    if |slots| < UINT32_COUNT {
      forall i | 0 <= i < |slots| && slots[i].Some? && slots[i].value.saved.Some?
        ensures i in from
      {
        assert Registered(registry)[i] == slots[i];
        assert GeneratedBy(slots[i]) != [];
      }
    }
  }

  /** Slot i holds a manager whose save hook gives a chunk. */
  predicate Makes(slots: seq<Option<Manager>>, i: nat) {
    i < |slots| && slots[i].Some? && slots[i].value.saved.Some?
  }

  ghost predicate Increasing(from: seq<nat>) {
    forall j, k :: 0 <= j < k < |from| ==> from[j] < from[k]
  }

  /** The merged list by position: generated chunks of the managers at made, then the session's chunks at kept. */
  lemma MergedIs(es: seq<ManagerData>, registry: Registry) returns (made: seq<nat>, kept: seq<nat>)
    requires |Slots(registry)| < UINT32_COUNT
    ensures Increasing(made) && Increasing(kept)
    ensures forall i: nat :: Makes(Slots(registry), i) ==> i in made
    ensures forall j :: 0 <= j < |kept| ==> kept[j] < |es| && !es[kept[j]].dispatched
    ensures forall i :: 0 <= i < |es| && !es[i].dispatched ==> i in kept
    ensures var ms := Merged(es, registry);
      && |ms| == |made| + |kept|
      && (forall j :: 0 <= j < |made| ==>
            && Makes(Slots(registry), made[j])
            && var m := Slots(registry)[made[j]].value;
               ms[j].guid == m.guid && ms[j].chunk == m.saved && ms[j].dispatched && !ms[j].error)
      && forall j :: 0 <= j < |kept| ==> ms[|made| + j] == es[kept[j]]
  {
    hide FlatMap, Slots, Generated, Undispatched;
    made := GeneratedInOrder(registry);
    kept := PreservedInOrder(es);
  }

  /** What dispatching does to a chunk: at most one of two marks, by the manager of its GUID, its hook and the hook's code. */
  lemma DispatchedSays(es: seq<ManagerData>, registry: Registry, codes: seq<int>, i: nat)
    requires |codes| == |es| && i < |es|
    ensures |Dispatched(es, registry, codes)| == |es|
    ensures var m := FindManager(Slots(registry), es[i].guid);
      var asked := registry.Some? && m.Some? && m.value.hasLoad && es[i].chunk.Some?;
      var d := Dispatched(es, registry, codes)[i];
      && d.guid == es[i].guid && d.dataSize == es[i].dataSize && d.chunk == es[i].chunk
      && (d.dispatched <==> es[i].dispatched || (asked && codes[i] == NMO_OK))
      && (d.error <==> es[i].error || (asked && codes[i] != NMO_OK))
  {
    hide FindManager;
    if registry == None {
      assert Slots(registry) == [];
      NoManager(es[i].guid);
    }
  }

  lemma NoManager(guid: Guid)
    ensures FindManager([], guid) == None
  {
  }

  /** With no manager registered a load and a save keep the chunks as they are. */
  lemma UnmanagedUntouched(es: seq<ManagerData>, registry: Registry, codes: seq<int>)
    requires Slots(registry) == [] && |codes| == |es|
    requires forall i :: 0 <= i < |es| ==> !es[i].dispatched
    ensures Merged(Dispatched(es, registry, codes), registry) == es
  {
    hide FlatMap;
    assert Dispatched(es, registry, codes) == es;
    FlatMapNone(GeneratedBy);
    NoneDropped(es);
  }

  lemma {:induction false} NoneDropped(es: seq<ManagerData>)
    requires forall i :: 0 <= i < |es| ==> !es[i].dispatched
    ensures Undispatched(es) == es
    decreases |es|
  {
    if es != [] {
      NoneDropped(es[..|es| - 1]);
    }
  }
}
