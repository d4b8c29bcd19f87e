# A model of libnmo

libnmo reads and writes Virtools files. This project models, in Dafny, the parts of it
that carry state or must undo one another, and proves what they keep over every input
and every run.

| module | source | what it models |
|---|---|---|
| Plugins, PluginRuns | src/app/nmo_plugin_manager.c | the plugin registry, shared library handles and their one owner, init and shutdown, as an object and as a state machine over whole runs |
| Diagnostics | src/app/session.c, src/app/parser.c | dependency diagnostics, and the dependencies derived from the manager when a file is saved |
| ContextRefs | src/app/context.c | the atomic reference count under every interleaving of threads, and the teardown in five steps |
| IncludedFiles | src/app/session.c | the growable store of included files |
| IncludedCodec | src/app/parser.c | their records on disk, read until the stream ends, with the descriptors of Header1 to fall back on |
| ManagerChunks | src/app/parser.c | handing manager chunks to their managers on load, merging generated and preserved ones on save |
| ManagerFile | src/format/nmo_data.c, src/app/parser.c | the manager part of the data section as bytes, and repeated loading and saving |
| CommandLine | tools/nmo-debug.c | the in-place tokenizer of the debugger |
| Numerals, IdList | tools/nmo-inspect.c | number tokens and lists of object ids |
| Glob | tools/nmo-inspect.c | the name pattern matcher |
| ChunkTree, Hierarchy, Paths, Report | tools/nmo-inspect.c | the two tree walks with a budget of rows |
| Hashing, Alignment, Bits | include/core/nmo_hash.h, include/core/nmo_utils.h | the integer hashes and the alignment helpers on fixed-width words |
| Words, CStrings, Errors, Sequences | | words and bytes, C strings, status codes, sequence lemmas |

Code that changes state is a class or a method over arrays, proved against a
specification function; the theorems are about that function. Callbacks, the dynamic
loader and load and save hooks are parameters that may answer anything. Events that
matter afterwards (a library closed, a shutdown run) go to a ghost log. Words are
natural numbers below their bound, with every wrap-around written out.

## Where the code differs from what one would expect

The model follows the code in each of these, and the lemma named says exactly when it
matters.

- The pattern matcher accepts as soon as the pattern is used up, so it matches prefixes:
  `Glob.PrefixIsWholeMatch`, `Glob.PrefixIsStarAppended`.
- Teardown closes a library right after the shutdown of its first instance, before the
  shutdowns of the others: `PluginRuns.ShutdownsSafeIff`, `PluginRuns.LibraryClosedBefore`;
  a library of two plugins is enough: `PluginRuns.LateShutdown`.
- Saving writes the size of an included file known by its descriptor only, but no
  payload, so the file does not read back: `IncludedCodec.RoundTripIff`,
  `IncludedCodec.MetadataOnlyIsLost`.
- One to three stray bytes at the end of the included files pass for the end of the
  stream, and a load succeeds: `IncludedCodec.LoadOfCutStream`.
- A name of 2^32 - 1 bytes is written but cannot be read, because its length plus one
  wraps around to 0: `IncludedCodec.RoundTripIff`.
- The header's manager count, by which a load reads the manager section, is the count of
  the session and not of the chunks written: `ManagerChunks.HeaderCountIff`,
  `ManagerFile.SavedFileReadsIff`, and over any number of rounds
  `ManagerFile.SurvivesIff`. A new session whose managers generate anything saves a file
  that does not read back, `ManagerFile.NewSessionMisread`; so does a session with a
  manager that saves but does not load, `ManagerFile.SaveOnlyManagerMisread`.
- The manager part is written whatever the version and read only from version 6 on:
  `ManagerFile.SavedFileReadsIff`.
- An item of an id list is copied to a buffer of 64 bytes and read from its first 63:
  `IdList.ParseInvertsJoin`, `IdList.LongNumeralMisread`.
- The doubling loop of the included-file store does not end once more than 2^31 slots are
  needed: `IncludedFiles.DoublingEndsIff`.
- `nmo_align` wraps around to 0 near the end of `size_t`, and the mask of
  `nmo_align_dword` is 32 bits wide: `Alignment.AlignIsLeastMultiple`,
  `Alignment.AlignWraps`, `Alignment.AlignDwordAgrees`.
- A release that sees the count at 1 with more than one reference held, 2^32 more or a
  multiple of that, begins a teardown: `ContextRefs.TearsEarlyIff`,
  `ContextRefs.GuaranteedIff`, `ContextRefs.UncountableRunDestroysEarly`.
- The chunk tree may print more rows than its budget, the hierarchy never does:
  `ChunkTree.ForestOvershoot`, `ChunkTree.ChainOvershoots`,
  `Hierarchy.PrintHierarchySection`.

## Model

| member | source | states |
|---|---|---|
| Plugins.PluginManager.FindIndexByGuid | src/app/nmo_plugin_manager.c:33-50 | the index of the first instance with the GUID, or -1 if there is none |
| Plugins.PluginManager.FindByGuid | src/app/nmo_plugin_manager.c:266-280 | the plugin of the first instance with the GUID, or null |
| Plugins.PluginManager.TakeSlot | src/app/nmo_plugin_manager.c:137-152 | a slot is taken, an init runs if there is one, and exactly if it fails the slot is given back |
| Plugins.PluginManager.Register | src/app/nmo_plugin_manager.c:114-156 | registers one plugin after the other, rolling back the slot of a failed init, and stops at the first problem with its code |
| Plugins.RegisterOutcome | src/app/nmo_plugin_manager.c:127-155 | exactly the plugins before the first bad one are appended, all of them named, new and initialised, and the code says whether that one has no name, a GUID taken, or which code its init failed with |
| Plugins.PluginManager.LoadLibrary | src/app/nmo_plugin_manager.c:158-247 | the full effect of a load on registry and log, for every answer of the loader and of the library |
| Plugins.LoadOutcome | src/app/nmo_plugin_manager.c:208-235 | the plugins kept, in order, all have a null or successful init; every other one has a failing init or a GUID taken before it |
| Plugins.LoadAnswer | src/app/nmo_plugin_manager.c:158-247 | a load answers NMO_OK exactly if the library opened and its query gave plugins; else no instance changes, what was opened is closed, and the code is the loader's or NMO_ERR_INVALID_STATE; the first instance kept, and no other, owns the library |
| Plugins.PluginManager.Destroy | src/app/nmo_plugin_manager.c:89-108 | runs each shutdown and closes each owned library in registration order, and empties the registry |
| PluginRuns.RegisterKeeps | src/app/nmo_plugin_manager.c:114-156 | registering keeps the invariant (distinct GUIDs, one owner at the head of each library's block, every handle accounted for, inits balanced) and only appends |
| PluginRuns.LoadKeeps | src/app/nmo_plugin_manager.c:158-247 | loading keeps the invariant and only appends, whatever the library answers |
| PluginRuns.DestroyKeeps | src/app/nmo_plugin_manager.c:89-108 | so does a teardown keep the invariant |
| PluginRuns.RunKeeps | src/app/nmo_plugin_manager.c:89-247 | every state that any sequence of registrations, loads and teardowns reaches satisfies the invariant |
| PluginRuns.Execute | src/app/nmo_plugin_manager.c:89-247 | the manager itself goes through exactly the states of these runs |
| PluginRuns.LibraryClosedOrOwned | src/app/nmo_plugin_manager.c:158-247 | in every reachable state each library opened so far is closed once or owned by one instance, never both |
| PluginRuns.LibrariesClosedOnce | src/app/nmo_plugin_manager.c:89-108 | over any run that ends in a teardown each opened library is closed exactly once and no other is |
| PluginRuns.OpenLibraryHasOneOwner | src/app/nmo_plugin_manager.c:237-244 | a library still open has exactly one owner, the first of a contiguous block that holds all its instances |
| PluginRuns.ClosedLibraryUnused | src/app/nmo_plugin_manager.c:237-244 | no instance refers to a closed library |
| PluginRuns.ShutdownsMatchInits | src/app/nmo_plugin_manager.c:94-107 | shutdowns are those of the kept plugins, once each and in registration order; the successful inits are theirs; no plugin with a failed init is shut down |
| PluginRuns.OwnerShutDownFirst | src/app/nmo_plugin_manager.c:97-104 | the owner of a library is shut down, and right after it the library is closed for the first time |
| PluginRuns.SecondDestroyDoesNothing | src/app/nmo_plugin_manager.c:89-108 | a second teardown changes nothing |
| PluginRuns.LibraryClosedBefore | src/app/nmo_plugin_manager.c:97-104 | when teardown reaches an instance its library is closed already exactly if the instance is not the owner |
| PluginRuns.ShutdownsSafeIff | src/app/nmo_plugin_manager.c:97-104 | every shutdown finds its library open exactly when only owners have a library and a shutdown |
| PluginRuns.LateShutdown | src/app/nmo_plugin_manager.c:97-104 | a run that fails this: any two plugins of one library, the second with a shutdown |
| Diagnostics.SessionPlugins.Refresh | src/app/session.c:728-831 | the diagnosis holds one status per dependency, and its counts are the counts of the flags |
| Diagnostics.SessionPlugins.SetPluginDependencies | src/app/session.c:324-348 | stores the table and refreshes the diagnosis |
| Diagnostics.SessionPlugins.DependenciesForSave | src/app/parser.c:1554-1625 | the stored dependencies, or those derived from the manager's instances, which are then stored and diagnosed |
| Diagnostics.DiagnosisPartitions | src/app/session.c:760-800 | missing, outdated and satisfied partition the dependencies; an entry is missing exactly if unresolved and outdated exactly if resolved to an older version |
| Diagnostics.StatusSays | src/app/session.c:760-800 | each entry repeats its dependency, says missing exactly if no instance has the GUID, else the version and name of one that has, and manager unavailable exactly without a manager |
| Diagnostics.RefreshIsMonotone | src/app/session.c:728-818 | when the registry has grown, resolved entries stay and neither missing nor missing plus outdated increases |
| Diagnostics.RefreshAfterMore | src/app/session.c:820-831 | the same over runs: after any further registrations and loads |
| Diagnostics.DerivedAreSatisfied | src/app/parser.c:1586-1600 | in every reachable state dependencies derived from the manager are none missing, none outdated |
| Diagnostics.DerivedNames | src/app/parser.c:1586-1600 | there is one derived dependency for each instance, with GUID, category and version of its plugin |
| ContextRefs.NextKeeps | src/app/context.c:136-178 | every atomic step but a release at an ambiguous count keeps the invariant that ties count, references, teardown and destroyed resources |
| ContextRefs.CountFollows | src/app/context.c:136-152 | in every interleaving the count is the sum of the references held, cut to 32 bits |
| ContextRefs.ReferencesAreCounted | src/app/context.c:136-178 | in every interleaving without such a release at most one teardown is entered and only when no reference is held, and when it rests all five resources are destroyed, once and in order |
| ContextRefs.TeardownOrdered | src/app/context.c:155-177 | what is destroyed is so once, in the order plugin manager, manager registry, schema registry, arena, context, and a finished teardown has destroyed every resource |
| ContextRefs.GuaranteedIff | src/app/context.c:136-178 | a run keeps all this at every step exactly if no release in it sees an ambiguous count |
| ContextRefs.TearsEarlyIff | src/app/context.c:146-152 | in any state a run reaches, a release begins a teardown with references left exactly if more than one is held and their number is 1 modulo 2^32 |
| ContextRefs.FewAreUnambiguous | src/app/context.c:146-152 | with at most 2^32 references at a time there is no such release |
| ContextRefs.NoUseAfterDestroy | src/app/context.c:136-178 | a thread that may still retain or release finds nothing destroyed |
| ContextRefs.TeardownGoesOn | src/app/context.c:146-178 | once nobody holds a reference exactly one step is possible until everything is destroyed, and each such step destroys one resource |
| ContextRefs.UncountableRunDestroysEarly | src/app/context.c:146-152 | there is one with one reference more: a run that enters teardown while 2^32 references are held |
| ContextRefs.FinishDestroys | src/app/context.c:152-178 | a teardown left alone destroys what remains, in order |
| ContextRefs.Context.constructor | src/app/context.c:69-131 | a new context holds one reference |
| ContextRefs.Context.Retain | src/app/context.c:136-144 | is the retain step of the machine |
| ContextRefs.Context.Release | src/app/context.c:146-178 | is the release step and, if it saw 1, the whole teardown: every resource is destroyed once and in order, the plugin manager by its own teardown |
| IncludedFiles.MadeSound | src/app/session.c:400-470 | whatever storing accepts has a payload of its size, or none only if it is empty or metadata |
| IncludedFiles.StoredIs | src/app/session.c:400-470 | field by field what an entry is made of: name, size, the first bytes of the payload or none, owners, the two attributes |
| IncludedFiles.OwnersReplaced | src/app/session.c:368-398 | the owners become the ids given and nothing else changes; the buffer grows when it must and never shrinks |
| IncludedFiles.DoublingEndsIff | src/app/session.c:98-101 | the doubling loop ends exactly for at most 2^31 slots |
| IncludedFiles.NextCapacity | src/app/session.c:98-101 | it ends with the first capacity that suffices, which is 4 times a power of two |
| IncludedFiles.IncludedFileStore.Reserve | src/app/session.c:89-120 | there is the room asked for, the entries stored are preserved, and growing copies each once |
| IncludedFiles.IncludedFileStore.Store | src/app/session.c:400-470 | appends exactly the entry its arguments make, or rejects them and changes nothing |
| IncludedFiles.IncludedFileStore.SetOwners | src/app/session.c:510-527 | replaces the owners of one entry and nothing else, or rejects the index |
| IncludedFiles.IncludedFileStore.CopiesAmortised | src/app/session.c:419-456 | in a store that grew by storing only, growing has copied fewer than two old entries for each one stored |
| IncludedCodec.WriteIncludedFiles | src/app/parser.c:1859-1887 | appends the encoding of all entries, or nothing when they are stripped |
| IncludedCodec.NextRecord | src/app/parser.c:231-290 | reads the first record of the stream, or finds its end or what is wrong with it |
| IncludedCodec.LoadRecord | src/app/parser.c:231-311 | stores the record the stream begins with and leaves the rest, or stores nothing and says why |
| IncludedCodec.RegisterMetadata | src/app/parser.c:199-215 | appends an entry with a size and no payload |
| IncludedCodec.RegisterLeftOver | src/app/parser.c:313-342 | appends an entry for each descriptor beyond the records read |
| IncludedCodec.LoadIncludedFiles | src/app/parser.c:217-345 | appends what decoding the stream and the header yields, and returns its code |
| IncludedCodec.RecordLayout | src/app/parser.c:231-311 | a record is a length, a name read up to a NUL, a size and a payload of that size |
| IncludedCodec.RecordFails | src/app/parser.c:231-290 | every other stream: its end, a length without a successor, or an end inside the record |
| IncludedCodec.DecodeAfter | src/app/parser.c:231-311 | the encoding of a list followed by anything decodes to the list followed by what the rest decodes to |
| IncludedCodec.RoundTripIff | src/app/parser.c:1859-1887 | reading gives back every name, size and payload byte in order exactly when each entry with a size has its payload and no name reaches 2^32 - 1 bytes |
| IncludedCodec.MetadataOnlyIsLost | src/app/parser.c:1870-1877 | a file that ends in an entry without payload, whatever complete entries come before it, fails to load behind these |
| IncludedCodec.DecodeCut | src/app/parser.c:231-311 | a stream cut anywhere yields the complete records before the cut, byte for byte, and fails exactly if four or more bytes of another follow |
| IncludedCodec.LoadOfCutStream | src/app/parser.c:231-342 | a short stream loses no declared file: the records read whole, then entry i with the name and size of descriptor i; or the load fails with the records read stored |
| IncludedCodec.CutFileNamesAll | src/app/parser.c:1638-1656 | a saved file cut off between records still loads every file of the session, by name and size at least |
| IncludedCodec.SaveThenLoad | src/app/parser.c:1638-1656 | a file saved with its header loads to the same names, sizes and payloads and no others |
| Words.U32RoundTrip | src/io/io.c:116-130 | a 32-bit word is read back from its four bytes |
| Words.U32LittleEndian | src/io/io.c:116-130 | the lowest byte comes first |
| ManagerChunks.FindManager | src/format/manager_registry.c:254-267 | a manager of the GUID, or null exactly if none has it |
| ManagerChunks.DispatchChunks | src/app/parser.c:879-922 | marks each chunk dispatched, in error or not at all, by its manager, its hook and the hook's code, in the loader's own array |
| ManagerChunks.DispatchedSays | src/app/parser.c:879-922 | exactly when a chunk becomes dispatched or in error, and that nothing else of it changes |
| ManagerChunks.ManagerSession.LoadManagers | src/app/parser.c:703-722 | the session holds the very array that dispatching marks, so a save sees the marks |
| ManagerChunks.StoreGenerated | src/app/parser.c:1303-1335 | stores the chunks the managers generate, in registry order, if they fit |
| ManagerChunks.StoreUndispatched | src/app/parser.c:1338-1359 | stores after them the chunks not dispatched, in session order, if they fit |
| ManagerChunks.ManagerSession.MergeForSave | src/app/parser.c:1281-1359 | merges both, and fails exactly if they do not fit the capacity computed in 32 bits |
| ManagerChunks.MergeFitsIff | src/app/parser.c:1286-1320 | the overflow branches are unreachable unless the capacity itself wraps around, and then taken exactly if more is merged than is left of it |
| ManagerChunks.HeaderCountIff | src/app/parser.c:1753 | the header's count is the number of entries written exactly if as many were generated as dispatched |
| ManagerChunks.GeneratedInOrder | src/app/parser.c:1303-1335 | the generated chunks are the very chunks of all managers that gave one, with their GUIDs, in registry order |
| ManagerChunks.PreservedInOrder | src/app/parser.c:1338-1359 | the preserved chunks are all those not dispatched and only those, in order |
| ManagerChunks.MergedIs | src/app/parser.c:1281-1359 | the merged list by position: all generated chunks in registry order, then all undispatched ones in session order |
| ManagerChunks.UnmanagedUntouched | src/app/parser.c:874-923 | with no registered manager, load and save preserve the list exactly |
| ManagerFile.ParseManagerData | src/format/nmo_data.c:44-110 | reads as many entries as asked from the section, up to the first failure |
| ManagerFile.EntryLayout | src/format/nmo_data.c:68-105 | an entry is the two words of the GUID, a size and that many bytes, which its chunk then has |
| ManagerFile.EntryCut | src/format/nmo_data.c:68-99 | a section that ends inside an entry fails |
| ManagerFile.ReadWritten | src/format/nmo_data.c:250-287 | an entry written is read back, and the stream stands behind it |
| ManagerFile.ReadFirst | src/format/nmo_data.c:233-290 | reading k of the entries written yields the first k and leaves the others in the stream |
| ManagerFile.SavedFileReadsIff | src/format/nmo_data.c:214-220 | the reader, given the session's count, finds the chunks written and the objects behind them exactly if as many chunks were generated as dispatched, or before version 6 if none is written |
| ManagerFile.ReadsBackIff | src/app/parser.c:602 | a loaded session saves a file that the next load reads right exactly if its managers generate as many chunks as they consumed |
| ManagerFile.ReadBackIs | src/app/parser.c:1281-1359 | that load finds the managers' own chunks, then byte for byte those that no manager consumed |
| ManagerFile.ReadBackFields | src/app/parser.c:1281-1359 | the same by position, GUID and bytes: every chunk a manager gave, then every chunk of the file but those whose manager's load hook succeeded |
| ManagerFile.SecondRoundIff | src/app/parser.c:1753 | a file that was read right is saved again as one that is read right exactly if every manager takes back the chunk it generates, and then the same chunks are found |
| ManagerFile.SurvivesIff | src/app/parser.c:1281-1359 | over any number of saves, each read by the next load with changing objects behind, nothing is lost exactly if the first count is right and, from the second save on, every manager takes back its chunk; the chunks then stay those of the first round |
| ManagerFile.NewSessionMisread | src/app/parser.c:1753 | a session that loaded no chunk and generates one saves a file whose chunk is taken for objects, though its manager would take it back |
| ManagerFile.SaveOnlyManagerMisread | src/app/parser.c:1338-1359 | a loaded chunk of a manager that saves but does not load is written beside a second one, and the file does not read back |
| ManagerFile.MergedFits | src/format/nmo_data.c:355-382 | the size computed before writing the merged chunks of a loaded session is exactly the number of bytes written |
| CommandLine.ParseCommand | tools/nmo-debug.c:79-113 | argc and argv are the words of the line, in increasing order and each a C string in the mutated buffer, and no other byte has changed |
| CommandLine.BlankedAt | tools/nmo-debug.c:86-108 | a byte of the line becomes NUL exactly where a word ends |
| CommandLine.ParseInvertsRender | tools/nmo-debug.c:79-113 | words written bare or quoted, with any white space between them, parse to exactly the first of them for which there is room |
| CommandLine.ArgumentsAreWords | tools/nmo-debug.c:79-113 | as many arguments are left as there are words and room, and the C string at each in the mutated buffer can only be its word |
| CommandLine.EveryLineRenders | tools/nmo-debug.c:79-113 | every line is one of those renderings, with text dropped before an opening quote and a last quote left open, so parsing is determined for all lines |
| Numerals.NumeralRead | tools/nmo-inspect.c:285-297 | every 32-bit value is read back from its decimal, hexadecimal and octal notation, with any number of leading zeros in the latter two |
| Numerals.CutNumeralRead | tools/nmo-inspect.c:285-297 | a numeral cut short still reads, as an eighth of its value at most |
| Numerals.PlainDigitsRead | tools/nmo-inspect.c:285-297 | digits, leading zeros included, are read as their value in the base they call for |
| Numerals.AcceptedIff | tools/nmo-inspect.c:285-297 | a token is accepted, as v, exactly if it is white space, an optional sign and to its end digits of the base its prefix calls for, and v is its value, negated modulo 2^64, and below 2^32 |
| Numerals.DigitValueIs | tools/nmo-inspect.c:285-297 | which characters are the digits |
| IdList.SkipSpaces | tools/nmo-inspect.c:270-275 | the first byte that is not white space |
| IdList.TrimmedLength | tools/nmo-inspect.c:277-283 | the length up to the last byte that is not white space |
| IdList.ObjectIds.Append | tools/nmo-inspect.c:341-353 | appends one id, doubling a full array and keeping what it holds |
| IdList.ObjectIds.TakeItem | tools/nmo-inspect.c:361-382 | takes one item off the list and appends its value, skips it if empty, fails if it is no number |
| IdList.ObjectIds.ParseObjectIdList | tools/nmo-inspect.c:355-385 | answers 0 exactly if every item is blank or a 32-bit numeral, else -1, and appends what parsing the items gives |
| IdList.ReadAsIff | tools/nmo-inspect.c:366-372 | through the 64-byte buffer a numeral is read as its value exactly if it is shorter than 64 characters or 0 |
| IdList.SplitIs | tools/nmo-inspect.c:362-365 | a list is cut at its commas and nowhere else |
| IdList.TrimIs | tools/nmo-inspect.c:270-283 | trimming takes off white space at both ends, all of it |
| IdList.ParseItemsIs | tools/nmo-inspect.c:355-385 | for any list: parsing stops at the first item that is neither blank nor, in its first 63 bytes, a 32-bit numeral, and has appended the values of all items before it that are not blank |
| IdList.ParseInvertsJoin | tools/nmo-inspect.c:355-385 | any list of values in any notation, with any white space and empty items, parses to exactly these values if and only if each numeral is so |
| IdList.LongNumeralMisread | tools/nmo-inspect.c:366-372 | 63 zeros and a 1 are read as 0 |
| Glob.MatchFrom | tools/nmo-inspect.c:582-613 | accepts exactly the values some prefix of which is in the language of the pattern |
| Glob.MatchPatternCi | tools/nmo-inspect.c:582-613 | so with a null pattern and a null value |
| Glob.StarSplits | tools/nmo-inspect.c:590-602 | a star stands for any string: a pattern with a star matches what splits into a match of what is before it, anything, and a match of what is after it |
| Glob.StarFreeIsPositional | tools/nmo-inspect.c:603-612 | without stars it matches character by character, a question mark any |
| CStrings.SameLetter | tools/nmo-inspect.c:609-611 | ignoring case: the same character, or one letter in both cases |
| Glob.PrefixIsStarAppended | tools/nmo-inspect.c:583-585 | accepting a prefix is matching the whole value with a star appended |
| Glob.PrefixIsWholeMatch | tools/nmo-inspect.c:583-585 | it is matching the whole value exactly for patterns in which only question marks follow some star |
| ChunkTree.PrintChunkTreeNode | tools/nmo-inspect.c:1436-1460 | prints the preorder of a tree, cut where the check after each child stops it |
| ChunkTree.PrintChunkTree | tools/nmo-inspect.c:1462-1491 | prints the preorder of the selected trees, cut likewise |
| ChunkTree.PreorderIs | tools/nmo-inspect.c:1436-1460 | the preorder has exactly one row for each sub-chunk within the depth limit, with its depth, class and count, ordered by place |
| ChunkTree.PreorderAllIs | tools/nmo-inspect.c:1462-1491 | so has that of a forest, tree by tree |
| ChunkTree.SelectedIs | tools/nmo-inspect.c:709-717 | the trees are those of the objects that pass, whose class and number among all chunks are asked for, in order |
| ChunkTree.PrintedIs | tools/nmo-inspect.c:1453-1459 | printing stops at the budget, and from there on goes down only as long as rows get deeper |
| ChunkTree.StopsAfterChild | tools/nmo-inspect.c:1453-1459 | a walk that stops after a child has printed what the preorder of the whole node allows |
| ChunkTree.StopsAfterTree | tools/nmo-inspect.c:1484-1489 | and one that stops after a tree, what the preorder of the forest allows |
| ChunkTree.TreeOvershoot | tools/nmo-inspect.c:1436-1460 | a tree begun within the budget ends within the budget less one plus its height |
| ChunkTree.ForestOvershoot | tools/nmo-inspect.c:1462-1491 | the rows are a prefix of the preorder and at most the budget less one plus the height of the last tree visited |
| ChunkTree.ChainOvershoots | tools/nmo-inspect.c:1436-1460 | that bound is reached for every budget and height, by single chunks and then a chain |
| Hierarchy.ObjectIsUnderRoot | tools/nmo-inspect.c:663-679 | whether the object or one of its ancestors has the id |
| Hierarchy.UnderRootIff | tools/nmo-inspect.c:663-679 | that is, a chain of parents leads from it to an object with the id |
| Hierarchy.ObjectMatchesFilters | tools/nmo-inspect.c:681-707 | whether the object passes all the filters |
| Hierarchy.FindObjectById | tools/nmo-inspect.c:1128-1135 | the first object with the id, if any |
| Hierarchy.PrintHierarchyNode | tools/nmo-inspect.c:1348-1368 | prints as many rows of the filtered preorder as the budget leaves |
| Hierarchy.PrintHierarchySection | tools/nmo-inspect.c:1370-1394 | prints exactly the first rows, as many as the budget, of the unlimited walk from the chosen root or over the whole forest |
| Hierarchy.PreorderIs | tools/nmo-inspect.c:1348-1368 | the unlimited walk below an object has exactly one row for each place of a visible object, with its depth and id, ordered by place |
| Hierarchy.SectionIs | tools/nmo-inspect.c:1370-1394 | so has the section, from the first object with the chosen id or from all parentless objects in order |
| Hierarchy.RootHidesNothingBelow | tools/nmo-inspect.c:663-679 | with consistent links the root filter hides nothing below an object it lets through |
| Hierarchy.VisitedOnce | tools/nmo-inspect.c:1381-1393 | with consistent links the walk of the forest visits every object exactly once |
| Hierarchy.ForestShowsEachVisibleOnce | tools/nmo-inspect.c:1370-1394 | it shows each visible object exactly once and no hidden one |
| Hashing.HashInt32Steps | include/core/nmo_hash.h:54-61 | the five steps bit by bit: shifts of 16, 13 and 16 about two multiplications modulo 2^32 |
| Hashing.Hash32Undone | include/core/nmo_hash.h:54-61 | the explicit inverse undoes each shift and multiplication |
| Hashing.HashInt32IsPermutation | include/core/nmo_hash.h:54-61 | distinct 32-bit keys never collide and every word is a hash |
| Hashing.HashInt64Steps | include/core/nmo_hash.h:69-76 | the five steps bit by bit: shifts of 33 about two multiplications modulo 2^64 |
| Hashing.Hash64Undone | include/core/nmo_hash.h:69-76 | the explicit inverse undoes each shift and multiplication |
| Hashing.HashInt64IsPermutation | include/core/nmo_hash.h:69-76 | distinct 64-bit keys never collide and every word is a hash |
| Alignment.AlignIsLeastMultiple | include/core/nmo_utils.h:42-44 | for a power of two the result is the least multiple not below the size exactly if the sum does not wrap around, and then padding is below the alignment and completes the size |
| Alignment.AlignWraps | include/core/nmo_utils.h:42-44 | beyond that the result is 0, and the padding completes the size to 2^64 |
| Alignment.AlignDwordAgrees | include/core/nmo_utils.h:32-53 | aligning to 4 is 4 times the dwords; nmo_align_dword agrees exactly while the sum, wrapped to size_t, is below 2^32 |

## Left out

- Files, zlib, dynamic loading, logging, colours and JSON output: streams are byte sequences, the loader is an oracle, printed rows are a sequence. The headings and the notice that output was cut are not modelled.
- Allocation failure, and with it every branch that only reports it; the one arena failure that depends on the input (a name length whose successor wraps to 0) is modelled.
- Null handles passed for the context, the session, the manager or the output: the methods belong to an object that exists.
- Memory itself: whose buffer a borrowed payload or a name points into, and what frees it.
- Plugin init and manager hooks that call back into the manager, the registry or the session.
- The fallback definition of the fetch macros for compilers without atomics, which is not atomic.
- A plugin registry of 2^31 instances or more, for which the index returned as an int would turn negative.
- Write failures while saving; reading I/O errors other than the end of the stream.
- `isspace` and `tolower` outside the "C" locale and on negative `char` values.
- The other list parsers of the inspector (classes, chunk ids, chunk indexes, behaviors): the same loop as the object id list.
- Deserialising objects (phase 14 of loading), remapping ids, and the object part of the data section: what a manager chunk leaves in the stream is handed on as it is.
- The contents of a chunk: its parser is an oracle for a status code, and a chunk that holds raw bytes is written back as these.
- The buffer the data section is written to: the section is the sequence of bytes written, and the size computed for the buffer is compared with it.
- Unregistering a manager, and the registry's maps: a registry is its managers in registration order.
- The index behind the session's queries, the hash table, and the getters, setters and option parsing of the tools.
- Walks over cyclic objects, which do not end: a scene comes with a witness that its child links have no cycle, and where a root filter is set another for its parent links.
- Hooks that answer differently from one round to the next: the theorems on repeated loads and saves take them as functions of GUID and chunk.
