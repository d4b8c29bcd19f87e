/**
 The manager part of the data section as bytes (src/format/nmo_data.c), and what
 loading and saving a file over and over does to it. How many entries are read is
 what the file header says; what one chunk holds is left to an oracle for the
 code its parser returns. Writing has room.
 */
module ManagerFile {
  import opened Words
  import opened CStrings
  import opened Errors
  import opened Sequences
  import opened ManagerChunks

  function ChunkBytes(e: ManagerData): Bytes {
    if e.chunk.Some? then e.chunk.value.bytes else []
  }

  predicate WordGuid(guid: Guid) {
    guid.d1 < UINT32_COUNT && guid.d2 < UINT32_COUNT
  }

  /** A GUID of two words, the size cut to 32 bits, the chunk. */
  function Written(e: ManagerData): Bytes
    requires WordGuid(e.guid)
  {
    PutU32(e.guid.d1) + PutU32(e.guid.d2) + PutU32(|ChunkBytes(e)| % UINT32_COUNT) + ChunkBytes(e)
  }

  ghost predicate WordGuids(es: seq<ManagerData>) {
    forall i :: 0 <= i < |es| ==> WordGuid(es[i].guid)
  }

  function Section(es: seq<ManagerData>): Bytes
    requires WordGuids(es)
  {
    if es == [] then [] else Written(es[0]) + Section(es[1..])
  }

  datatype ReadOne = Failed(code: int) | Entry(entry: ManagerData, rest: Bytes)

  /** parsed is the code of the chunk parser on the chunk's bytes. The chunk keeps them for the next save. */
  function ReadEntry(s: Bytes, parsed: Bytes -> int): (r: ReadOne)
    ensures if r.Entry? then |r.rest| + 12 <= |s| else r.code != NMO_OK
  {
    if |s| < 12 then Failed(NMO_ERR_EOF)
    else
      var guid := Plugins.Guid(GetU32(s), GetU32(s[4..]));
      var size, after := GetU32(s[8..]), s[12..];
      if size == 0 then Entry(ManagerData(guid, 0, None, false, false), after)
      else if |after| < size then Failed(NMO_ERR_EOF)
      else
        var chunk := after[..size];
        if parsed(chunk) != NMO_OK then Failed(parsed(chunk))
        else Entry(ManagerData(guid, size, Some(Chunk(chunk, true)), false, false), after[size..])
  }

  datatype ReadAll = ReadAll(code: int, entries: seq<ManagerData>, rest: Bytes)

  /** count entries from the front of the section; rest goes to the parser of the objects. */
  function ReadSection(s: Bytes, count: nat, parsed: Bytes -> int): ReadAll {
    if count == 0 then ReadAll(NMO_OK, [], s)
    else
      var first := ReadEntry(s, parsed);
      if first.Failed? then ReadAll(first.code, [], s)
      else
        var later := ReadSection(first.rest, count - 1, parsed);
        later.(entries := [first.entry] + later.entries)
  }

  /** The array is filled entry by entry; on a failure the entries before the bad one are in place. */
  method ParseManagerData(data: Bytes, count: nat, parsed: Bytes -> int)
    returns (code: int, managers: array<ManagerData>, filled: nat, pos: nat)
    ensures pos <= |data| && filled <= managers.Length == count
    ensures ReadSection(data, count, parsed) == ReadAll(code, managers[..filled], data[pos..])
  {
    hide ReadEntry;
    managers := new ManagerData[count](_ => NO_ENTRY);
    filled, pos := 0, 0;
    while filled < count
      invariant filled <= count && pos <= |data|
      invariant var later := ReadSection(data[pos..], count - filled, parsed);
        ReadSection(data, count, parsed) == later.(entries := managers[..filled] + later.entries)
    {
      var next := ReadEntry(data[pos..], parsed);
      if next.Failed? {
        assert managers[..filled] + [] == managers[..filled];
        return next.code, managers, filled, pos;
      }
      ghost var later := ReadSection(next.rest, count - filled - 1, parsed);
      assert managers[..filled] + ([next.entry] + later.entries) == (managers[..filled] + [next.entry]) + later.entries;
      RestIsSuffix(data, pos, parsed);
      managers[filled] := next.entry;
      filled := filled + 1;
      assert managers[..filled] == managers[..filled - 1] + [next.entry];
      pos := |data| - |next.rest|;
    }
    assert managers[..filled] + [] == managers[..filled];
    code := NMO_OK;
  }

  lemma RestIsSuffix(data: Bytes, pos: nat, parsed: Bytes -> int)
    requires pos <= |data|
    ensures var next := ReadEntry(data[pos..], parsed);
      next.Entry? ==> next.rest == data[|data| - |next.rest|..]
  {
  }

  /** What the header of a saved file gives as its version: that of the session, or else 8. */
  function HeaderVersion(version: nat): (v: nat)
    ensures v == version || (version == 0 && v == 8)
    ensures v > 0
  {
    if version != 0 then version else 8
  }

  /** The manager part of a load: what header and version say is there. */
  function LoadSection(s: Bytes, count: nat, version: nat, parsed: Bytes -> int): ReadAll {
    if version >= 6 && count > 0 then ReadSection(s, count, parsed) else ReadAll(NMO_OK, [], s)
  }

  /** An entry as a load that reads it sees it. */
  function Reloaded(e: ManagerData): ManagerData {
    var bytes := ChunkBytes(e);
    ManagerData(e.guid, |bytes|, if bytes == [] then None else Some(Chunk(bytes, true)), false, false)
  }

  function ReloadedAll(es: seq<ManagerData>): seq<ManagerData> {
    seq(|es|, i requires 0 <= i < |es| => Reloaded(es[i]))
  }

  predicate Readable(e: ManagerData, parsed: Bytes -> int) {
    WordGuid(e.guid) && |ChunkBytes(e)| < UINT32_COUNT && (ChunkBytes(e) != [] ==> parsed(ChunkBytes(e)) == NMO_OK)
  }

  ghost predicate AllReadable(es: seq<ManagerData>, parsed: Bytes -> int) {
    forall i :: 0 <= i < |es| ==> Readable(es[i], parsed)
  }

  /** An entry is two words of GUID, a size, and that many bytes of chunk; a chunk that does not parse fails the load. */
  lemma EntryLayout(d1: Word32, d2: Word32, chunk: Bytes, rest: Bytes, parsed: Bytes -> int)
    requires |chunk| < UINT32_COUNT
    ensures var r := ReadEntry(PutU32(d1) + (PutU32(d2) + (PutU32(|chunk|) + (chunk + rest))), parsed);
      && (r.Failed? <==> chunk != [] && parsed(chunk) != NMO_OK)
      && (r.Failed? ==> r.code == parsed(chunk))
      && (r.Entry? ==>
            && r.rest == rest && r.entry.guid.d1 == d1 && r.entry.guid.d2 == d2 && r.entry.dataSize == |chunk|
            && r.entry.chunk == (if chunk == [] then None else Some(Chunk(chunk, true)))
            && !r.entry.dispatched && !r.entry.error)
  {
    hide PutU32, GetU32;
    var afterSize: Bytes := chunk + rest;
    var fromSize: Bytes := PutU32(|chunk|) + afterSize;
    var fromSecond: Bytes := PutU32(d2) + fromSize;
    var s: Bytes := PutU32(d1) + fromSecond;
    U32RoundTrip(d1, fromSecond);
    U32RoundTrip(d2, fromSize);
    U32RoundTrip(|chunk|, afterSize);
    assert s[4..] == fromSecond && s[8..] == fromSize && s[12..] == afterSize;
    assert afterSize[..|chunk|] == chunk && afterSize[|chunk|..] == rest;
  }

  /** Every stream that ends before an entry does. */
  lemma EntryCut(s: Bytes, parsed: Bytes -> int)
    ensures |s| < 12 || |s| < 12 + GetU32(s[8..]) ==> ReadEntry(s, parsed) == Failed(NMO_ERR_EOF)
  {
    hide GetU32;
  }

  lemma ReadWritten(e: ManagerData, rest: Bytes, parsed: Bytes -> int)
    requires Readable(e, parsed)
    ensures ReadEntry(Written(e) + rest, parsed) == Entry(Reloaded(e), rest)
  {
    hide PutU32, GetU32;
    var chunk := ChunkBytes(e);
    var s := Written(e) + rest;
    var afterSize: Bytes := chunk + rest;
    var fromSize: Bytes := PutU32(|chunk|) + afterSize;
    var fromSecond: Bytes := PutU32(e.guid.d2) + fromSize;
    assert |chunk| % UINT32_COUNT == |chunk|;
    assert s == PutU32(e.guid.d1) + fromSecond;
    U32RoundTrip(e.guid.d1, fromSecond);
    U32RoundTrip(e.guid.d2, fromSize);
    U32RoundTrip(|chunk|, afterSize);
    assert s[4..] == fromSecond && s[8..] == fromSize && s[12..] == afterSize;
    assert afterSize[..|chunk|] == chunk && afterSize[|chunk|..] == rest;
  }

  /** Reading back as many entries as one likes of those written: the others are left to whoever reads on. */
  lemma {:induction false} ReadFirst(es: seq<ManagerData>, rest: Bytes, count: nat, parsed: Bytes -> int)
    requires AllReadable(es, parsed) && count <= |es|
    ensures ReadSection(Section(es) + rest, count, parsed)
      == ReadAll(NMO_OK, ReloadedAll(es[..count]), Section(es[count..]) + rest)
    decreases count
  {
    hide ReadEntry, Written, Reloaded;
    if count == 0 {
      assert es[0..] == es && ReloadedAll(es[..0]) == [];
    } else {
      var s := Section(es) + rest;
      assert s == Written(es[0]) + (Section(es[1..]) + rest);
      ReadWritten(es[0], Section(es[1..]) + rest, parsed);
      ReadFirst(es[1..], rest, count - 1, parsed);
      assert es[1..][count - 1..] == es[count..];
      assert [Reloaded(es[0])] + ReloadedAll(es[1..][..count - 1]) == ReloadedAll(es[..count]);
    }
  }

  lemma {:induction false} ReadsCount(s: Bytes, count: nat, parsed: Bytes -> int)
    ensures var r := ReadSection(s, count, parsed); r.code == NMO_OK ==> |r.entries| == count
    decreases count
  {
    hide ReadEntry;
    if count > 0 {
      var first := ReadEntry(s, parsed);
      if first.Entry? {
        ReadsCount(first.rest, count - 1, parsed);
      }
    }
  }

  /**
   The header of a saved file gives the session's count of chunks, whatever was
   written: a load finds the chunks and the objects behind them exactly when as many
   chunks were generated as had been dispatched. Files older than version 6 are
   written with their chunks but read without.
   */
  lemma SavedFileReadsIff(es: seq<ManagerData>, registry: Registry, version: nat, objects: Bytes, parsed: Bytes -> int)
    requires AllReadable(Merged(es, registry), parsed)
    ensures (LoadSection(Section(Merged(es, registry)) + objects, |es|, HeaderVersion(version), parsed)
             == ReadAll(NMO_OK, ReloadedAll(Merged(es, registry)), objects))
      <==> if HeaderVersion(version) >= 6 then |Generated(registry)| == |FlatMap(IfDispatched, es)|
           else Merged(es, registry) == []
  {
    hide Merged, ReadSection, Section;
    var ms := Merged(es, registry);
    HeaderCountIff(es, registry);
    SectionNone(ms[|ms|..]);
    assert [] + objects == objects;
    if HeaderVersion(version) < 6 || |es| == 0 {
      assert ms == [] ==> ms[|ms|..] == ms;
    } else if |ms| == |es| {
      ReadFirst(ms, objects, |ms|, parsed);
      assert ms[..|ms|] == ms;
    } else {
      ReadsCount(Section(ms) + objects, |es|, parsed);
    }
  }

  lemma SectionNone(es: seq<ManagerData>)
    requires es == []
    ensures Section(es) == []
  {
  }

  // One load and save after the other, with hooks whose answer depends on the chunk only.

  type Hooks = (Guid, Bytes) -> int

  function Codes(es: seq<ManagerData>, hooks: Hooks): (codes: seq<int>)
    ensures |codes| == |es|
  {
    seq(|es|, i requires 0 <= i < |es| => hooks(es[i].guid, ChunkBytes(es[i])))
  }

  function Keeper(registry: Registry, hooks: Hooks): ManagerData -> seq<ManagerData> {
    (e: ManagerData) => if Asked(e, registry) && hooks(e.guid, ChunkBytes(e)) == NMO_OK then [] else [e]
  }

  /** The chunks of a file that no manager consumes. */
  function Refused(es: seq<ManagerData>, registry: Registry, hooks: Hooks): seq<ManagerData> {
    FlatMap(Keeper(registry, hooks), es)
  }

  /** What a load makes of the chunks the managers generate. */
  function Own(registry: Registry): seq<ManagerData> {
    ReloadedAll(Generated(registry))
  }

  ghost predicate JustLoaded(es: seq<ManagerData>) {
    forall i :: 0 <= i < |es| ==> Reloaded(es[i]) == es[i]
  }

  lemma ReloadedConcat(es: seq<ManagerData>, fs: seq<ManagerData>)
    ensures ReloadedAll(es + fs) == ReloadedAll(es) + ReloadedAll(fs)
  {
  }

  lemma {:induction false} KeptChunks(es: seq<ManagerData>, registry: Registry, hooks: Hooks)
    requires JustLoaded(es)
    ensures ReloadedAll(Undispatched(Dispatched(es, registry, Codes(es, hooks)))) == Refused(es, registry, hooks)
    decreases |es|
  {
    hide FlatMap, Asked;
    FlatMapNone(IfUndispatched);
    FlatMapNone(Keeper(registry, hooks));
    if es == [] {
      assert Dispatched(es, registry, Codes(es, hooks)) == [];
    } else {
      var init, last := es[..|es| - 1], es[|es| - 1];
      var ds := Dispatched(es, registry, Codes(es, hooks));
      KeptChunks(init, registry, hooks);
      assert ds[..|ds| - 1] == Dispatched(init, registry, Codes(init, hooks));
      FlatMapLast(IfUndispatched, ds);
      FlatMapLast(Keeper(registry, hooks), es);
      ReloadedConcat(Undispatched(ds[..|ds| - 1]), IfUndispatched(ds[|ds| - 1]));
      assert ReloadedAll(IfUndispatched(ds[|ds| - 1])) == Keeper(registry, hooks)(last);
    }
  }

  lemma RefusedTwice(es: seq<ManagerData>, registry: Registry, hooks: Hooks)
    ensures Refused(Refused(es, registry, hooks), registry, hooks) == Refused(es, registry, hooks)
  {
    hide FlatMap, Asked;
    var keeper := Keeper(registry, hooks);
    forall i | 0 <= i < |es|
      ensures FlatMap(keeper, keeper(es[i])) == keeper(es[i])
    {
      FlatMapNone(keeper);
      FlatMapOne(keeper, es[i]);
    }
    FlatMapFuses(keeper, keeper, keeper, es);
  }

  /** What stays the same from one load to the next save and load: managers, hooks, version, chunk parser. */
  datatype Setting = Setting(registry: Registry, hooks: Hooks, version: nat, parsed: Bytes -> int)

  /** What a save writes when its session has loaded es. */
  function Saved(es: seq<ManagerData>, at: Setting): seq<ManagerData> {
    Merged(Dispatched(es, at.registry, Codes(es, at.hooks)), at.registry)
  }

  /** Everything that may come to be written can be read. */
  ghost predicate Fit(es: seq<ManagerData>, at: Setting) {
    AllReadable(es, at.parsed) && AllReadable(Generated(at.registry), at.parsed)
  }

  lemma SavedFit(es: seq<ManagerData>, at: Setting)
    requires Fit(es, at)
    ensures AllReadable(Saved(es, at), at.parsed) && WordGuids(Saved(es, at))
    ensures Fit(ReloadedAll(Saved(es, at)), at)
  {
    hide FlatMap, Asked;
    var ds := Dispatched(es, at.registry, Codes(es, at.hooks));
    var from := PreservedInOrder(ds);
    forall j | 0 <= j < |Undispatched(ds)|
      ensures Readable(Undispatched(ds)[j], at.parsed)
    {
      assert Readable(es[from[j]], at.parsed);
    }
    assert AllReadable(Generated(at.registry) + Undispatched(ds), at.parsed);
  }

  /** The manager part of the file a save writes, and the objects it writes behind it, as the next load reads them. */
  ghost function NextLoad(es: seq<ManagerData>, at: Setting, objects: Bytes): ReadAll
    requires Fit(es, at)
  {
    SavedFit(es, at);
    LoadSection(Section(Saved(es, at)) + objects, |es|, HeaderVersion(at.version), at.parsed)
  }

  ghost predicate ReadsBack(es: seq<ManagerData>, at: Setting, objects: Bytes)
    requires Fit(es, at)
  {
    NextLoad(es, at, objects) == ReadAll(NMO_OK, ReloadedAll(Saved(es, at)), objects)
  }

  /** The condition a save could test: its managers generate as many chunks as they have consumed. */
  predicate CountsAgree(es: seq<ManagerData>, at: Setting) {
    if HeaderVersion(at.version) >= 6 then |Generated(at.registry)| == |es| - |Refused(es, at.registry, at.hooks)|
    else Generated(at.registry) == [] && Refused(es, at.registry, at.hooks) == []
  }

  /** A loaded session saves a file that reads back exactly when the managers generate as many chunks as they consumed. */
  lemma ReadsBackIff(es: seq<ManagerData>, at: Setting, objects: Bytes)
    requires JustLoaded(es) && Fit(es, at)
    ensures ReadsBack(es, at, objects) <==> CountsAgree(es, at)
  {
    hide FlatMap, Asked, LoadSection, Section;
    var ds := Dispatched(es, at.registry, Codes(es, at.hooks));
    SavedFit(es, at);
    SavedFileReadsIff(ds, at.registry, at.version, objects, at.parsed);
    KeptChunks(es, at.registry, at.hooks);
    EachOnce(ds);
    assert |Refused(es, at.registry, at.hooks)| == |Undispatched(ds)|;
  }

  /** What is read back: the managers' own chunks, then those of the file that no manager consumed, byte for byte. */
  lemma ReadBackIs(es: seq<ManagerData>, at: Setting, objects: Bytes)
    requires JustLoaded(es) && Fit(es, at) && ReadsBack(es, at, objects)
    ensures var next := NextLoad(es, at, objects).entries;
      && next == Own(at.registry) + Refused(es, at.registry, at.hooks)
      && JustLoaded(next) && Fit(next, at)
  {
    hide FlatMap, Asked, LoadSection, Section;
    SavedFit(es, at);
    KeptChunks(es, at.registry, at.hooks);
    ReloadedConcat(Generated(at.registry), Undispatched(Dispatched(es, at.registry, Codes(es, at.hooks))));
  }

  /**
   The same by position, on GUIDs and bytes: first the chunks of the managers at made,
   all that gave one; then the file's chunks at kept, all but those whose manager has
   a load hook that succeeds on them.
   */
  lemma ReadBackFields(es: seq<ManagerData>, at: Setting, objects: Bytes) returns (made: seq<nat>, kept: seq<nat>)
    requires JustLoaded(es) && Fit(es, at) && ReadsBack(es, at, objects) && |Slots(at.registry)| < UINT32_COUNT
    ensures Increasing(made) && Increasing(kept)
    ensures forall i: nat :: Makes(Slots(at.registry), i) ==> i in made
    ensures forall j :: 0 <= j < |kept| ==> kept[j] < |es| && !Consumed(es[kept[j]], at)
    ensures forall i :: 0 <= i < |es| && !Consumed(es[i], at) ==> i in kept
    ensures var next := NextLoad(es, at, objects).entries;
      && |next| == |made| + |kept|
      && (forall j :: 0 <= j < |made| ==>
            && Makes(Slots(at.registry), made[j])
            && var m := Slots(at.registry)[made[j]].value;
               next[j].guid == m.guid && ChunkBytes(next[j]) == m.saved.value.bytes)
      && forall j :: 0 <= j < |kept| ==>
           next[|made| + j].guid == es[kept[j]].guid && ChunkBytes(next[|made| + j]) == ChunkBytes(es[kept[j]])
  {
    hide FlatMap, Asked, LoadSection, Section, Slots, Merged, Dispatched, FindManager;
    var codes := Codes(es, at.hooks);
    var ds := Dispatched(es, at.registry, codes);
    forall i | 0 <= i < |es|
      ensures |ds| == |es| && ds[i].dispatched == Consumed(es[i], at)
      ensures ds[i].guid == es[i].guid && ds[i].chunk == es[i].chunk
    {
      DispatchedSays(es, at.registry, codes, i);
      assert Reloaded(es[i]) == es[i];
    }
    assert |ds| == |es| by { DispatchedLength(es, at.registry, codes); }
    made, kept := MergedIs(ds, at.registry);
  }

  lemma DispatchedLength(es: seq<ManagerData>, registry: Registry, codes: seq<int>)
    requires |codes| == |es|
    ensures |Dispatched(es, registry, codes)| == |es|
  {
  }

  /** The manager of the chunk's GUID has a load hook, and it succeeds. */
  predicate Consumed(e: ManagerData, at: Setting) {
    var m := FindManager(Slots(at.registry), e.guid);
    at.registry.Some? && m.Some? && m.value.hasLoad && e.chunk.Some? && at.hooks(e.guid, ChunkBytes(e)) == NMO_OK
  }

  lemma OwnRefused(es: seq<ManagerData>, at: Setting)
    ensures Refused(Own(at.registry) + Refused(es, at.registry, at.hooks), at.registry, at.hooks)
      == Refused(Own(at.registry), at.registry, at.hooks) + Refused(es, at.registry, at.hooks)
  {
    hide FlatMap, Own;
    FlatMapConcat(Keeper(at.registry, at.hooks), Own(at.registry), Refused(es, at.registry, at.hooks));
    RefusedTwice(es, at.registry, at.hooks);
  }

  /**
   A file that was read back is saved again as one that reads back exactly when every
   manager takes back the chunk it generated; and then the same chunks are read again.
   */
  lemma SecondRoundIff(es: seq<ManagerData>, at: Setting, objects: Bytes, objects': Bytes)
    requires JustLoaded(es) && Fit(es, at) && ReadsBack(es, at, objects)
    ensures var next := NextLoad(es, at, objects).entries;
      && Fit(next, at)
      && (ReadsBack(next, at, objects') <==> Refused(Own(at.registry), at.registry, at.hooks) == [])
      && (ReadsBack(next, at, objects') ==> NextLoad(next, at, objects').entries == next)
  {
    hide FlatMap, Refused, NextLoad, ReadsBack, Fit, JustLoaded;
    var next := NextLoad(es, at, objects).entries;
    ReadsBackIff(es, at, objects);
    ReadBackIs(es, at, objects);
    OwnRefused(es, at);
    ReadsBackIff(next, at, objects');
    NothingRefused(at);
    if ReadsBack(next, at, objects') {
      ReadBackIs(next, at, objects');
      assert [] + Refused(es, at.registry, at.hooks) == Refused(es, at.registry, at.hooks);
    }
  }

  lemma NothingRefused(at: Setting)
    ensures Refused([], at.registry, at.hooks) == []
  {
  }

  // Any number of rounds; the objects may change from one save to the next.

  /** Each of a row of saves is read back by the load that follows it. */
  ghost predicate Survives(es: seq<ManagerData>, at: Setting, objects: seq<Bytes>)
    requires Fit(es, at)
    decreases |objects|
  {
    objects == [] ||
    (ReadsBack(es, at, objects[0]) &&
     (SavedFit(es, at); Survives(NextLoad(es, at, objects[0]).entries, at, objects[1..])))
  }

  ghost function LastLoad(es: seq<ManagerData>, at: Setting, objects: seq<Bytes>): seq<ManagerData>
    requires Fit(es, at) && Survives(es, at, objects)
    decreases |objects|
  {
    if objects == [] then es
    else
      SavedFit(es, at);
      LastLoad(NextLoad(es, at, objects[0]).entries, at, objects[1..])
  }

  /**
   Loading and saving over and over never loses a chunk or the objects exactly when
   the first save has the right count and, if there is a second, every manager takes
   back the chunk it generates. The chunks are those of the first round ever after.
   */
  lemma {:induction false} SurvivesIff(es: seq<ManagerData>, at: Setting, objects: seq<Bytes>)
    requires JustLoaded(es) && Fit(es, at) && objects != []
    ensures Survives(es, at, objects) <==>
      CountsAgree(es, at) && (|objects| > 1 ==> Refused(Own(at.registry), at.registry, at.hooks) == [])
    ensures Survives(es, at, objects) ==>
      LastLoad(es, at, objects) == Own(at.registry) + Refused(es, at.registry, at.hooks)
    decreases |objects|
  {
    hide Refused, NextLoad, ReadsBack, CountsAgree, Fit, JustLoaded, Own;
    ReadsBackIff(es, at, objects[0]);
    if ReadsBack(es, at, objects[0]) {
      var next, rest := NextLoad(es, at, objects[0]).entries, objects[1..];
      ReadBackIs(es, at, objects[0]);
      if rest != [] {
        SurvivesIff(next, at, rest);
        ReadsBackIff(next, at, rest[0]);
        SecondRoundIff(es, at, objects[0], rest[0]);
        OwnRefused(es, at);
        assert [] + Refused(es, at.registry, at.hooks) == Refused(es, at.registry, at.hooks);
      }
    }
  }

  // Files that do not read back.

  /** A registry of one manager, which generates the chunk; every hook and every chunk parser succeeds. */
  function OneManager(hasLoad: bool, chunk: Chunk): Setting {
    Setting(Some([Some(Manager(Plugins.Guid(1, 2), hasLoad, Some(chunk)))]),
            (guid: Guid, bytes: Bytes) => NMO_OK, 8, (bytes: Bytes) => NMO_OK)
  }

  predicate Writable(chunk: Chunk) {
    0 < |chunk.bytes| < UINT32_COUNT
  }

  lemma OneGenerated(hasLoad: bool, chunk: Chunk)
    requires Writable(chunk)
    ensures var registry := OneManager(hasLoad, chunk).registry;
      && Generated(registry) == [NewEntry(Plugins.Guid(1, 2), chunk)]
      && Own(registry) == [Reloaded(NewEntry(Plugins.Guid(1, 2), chunk))]
  {
    var registry := OneManager(hasLoad, chunk).registry;
    assert Registered(registry) == registry.value;
    FlatMapOne(GeneratedBy, registry.value[0]);
  }

  lemma OneTakenBack(hasLoad: bool, chunk: Chunk)
    requires Writable(chunk)
    ensures var at := OneManager(hasLoad, chunk);
      Refused(Own(at.registry), at.registry, at.hooks) == if hasLoad then [] else Own(at.registry)
  {
    hide FlatMap, Own;
    var at := OneManager(hasLoad, chunk);
    OneGenerated(hasLoad, chunk);
    var own := Reloaded(NewEntry(Plugins.Guid(1, 2), chunk));
    assert FindManager(at.registry.value, own.guid) == at.registry.value[0];
    FlatMapOne(Keeper(at.registry, at.hooks), own);
    assert Own(at.registry) == [own];
    assert Asked(own, at.registry) <==> hasLoad;
    assert at.hooks(own.guid, ChunkBytes(own)) == NMO_OK;
    assert Keeper(at.registry, at.hooks)(own) == if hasLoad then [] else [own];
  }

  lemma OneFits(hasLoad: bool, chunk: Chunk)
    requires Writable(chunk)
    ensures var at := OneManager(hasLoad, chunk);
      && Fit([], at) && Fit(Own(at.registry), at) && JustLoaded([]) && JustLoaded(Own(at.registry))
  {
    hide Generated, Own;
    OneGenerated(hasLoad, chunk);
  }

  /**
   A session that loaded no chunk counts none, so what its managers generate is taken
   for objects, though every manager would take back its chunk.
   */
  lemma NewSessionMisread(chunk: Chunk, objects: Bytes)
    requires Writable(chunk)
    ensures var at := OneManager(true, chunk);
      && Fit([], at) && Refused(Own(at.registry), at.registry, at.hooks) == []
      && |Saved([], at)| == 1 && !ReadsBack([], at, objects)
      && NextLoad([], at, objects) == ReadAll(NMO_OK, [], Section(Saved([], at)) + objects)
  {
    hide Fit, JustLoaded, Section, Own, Generated, Refused, ReadsBack;
    var at := OneManager(true, chunk);
    OneGenerated(true, chunk);
    OneTakenBack(true, chunk);
    OneFits(true, chunk);
    NothingRefused(at);
    SavedFit([], at);
    ReadsBackIff([], at, objects);
    FlatMapNone(IfUndispatched);
    assert Dispatched([], at.registry, Codes([], at.hooks)) == [];
  }

  /** A manager that saves but does not load: the chunk it wrote is preserved beside the new one, and counted once. */
  lemma SaveOnlyManagerMisread(chunk: Chunk, objects: Bytes)
    requires Writable(chunk)
    ensures var at := OneManager(false, chunk);
      && Fit(Own(at.registry), at) && |Own(at.registry)| == 1 && !ReadsBack(Own(at.registry), at, objects)
  {
    hide Fit, JustLoaded, Own, Generated, Refused, ReadsBack;
    var at := OneManager(false, chunk);
    OneGenerated(false, chunk);
    OneTakenBack(false, chunk);
    OneFits(false, chunk);
    ReadsBackIff(Own(at.registry), at, objects);
  }

  // The buffer a section is written to.

  /** The room set aside for a section: data_size where it is set, else what the chunk takes. */
  function CalculatedSize(es: seq<ManagerData>): nat {
    if es == [] then 0
    else 12 + (if es[0].dataSize > 0 then es[0].dataSize else |ChunkBytes(es[0])|) + CalculatedSize(es[1..])
  }

  predicate Sized(e: ManagerData) {
    e.dataSize == 0 || e.dataSize == |ChunkBytes(e)|
  }

  ghost predicate AllSized(es: seq<ManagerData>) {
    forall i :: 0 <= i < |es| ==> Sized(es[i])
  }

  lemma {:induction false} SizedFits(es: seq<ManagerData>)
    requires AllSized(es) && WordGuids(es)
    ensures |Section(es)| == CalculatedSize(es)
    decreases |es|
  {
    if es != [] {
      SizedFits(es[1..]);
    }
  }

  lemma {:induction false} GeneratedSized(slots: seq<Option<Manager>>)
    requires forall m :: Some(m) in slots && m.saved.Some? ==> |m.saved.value.bytes| < UINT32_COUNT
    ensures AllSized(FlatMap(GeneratedBy, slots))
    decreases |slots|
  {
    if slots != [] {
      GeneratedSized(slots[..|slots| - 1]);
    }
  }

  /** The room set aside is exactly what writing the merged chunks of a loaded session takes. */
  lemma MergedFits(es: seq<ManagerData>, registry: Registry, codes: seq<int>)
    requires JustLoaded(es) && |codes| == |es|
    requires forall m :: Some(m) in Slots(registry) && m.saved.Some? ==> |m.saved.value.bytes| < UINT32_COUNT
    requires WordGuids(Merged(Dispatched(es, registry, codes), registry))
    ensures var ms := Merged(Dispatched(es, registry, codes), registry); |Section(ms)| == CalculatedSize(ms)
  {
    hide FlatMap, Section, CalculatedSize, Asked;
    var ds := Dispatched(es, registry, codes);
    GeneratedSized(Registered(registry));
    var from := PreservedInOrder(ds);
    forall i | 0 <= i < |Undispatched(ds)|
      ensures Sized(Undispatched(ds)[i])
    {
      assert Reloaded(es[from[i]]) == es[from[i]];
    }
    SizedFits(Merged(ds, registry));
  }
}
