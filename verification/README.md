# ChuckStation5 core algorithms, modelled and proved

ChuckStation5 emulates the back end of a console. Most of it wraps the operating system; this project models
the self-contained algorithms and protocols underneath and proves what they are for:

- **Dependency graphs** (`Graphs`, `TopoSort`, `CycleDetection`, `Runtime`, `ModuleRegistry`, `SymbolCache`,
  `SharedLinker`).
  Kahn's loop and the depth-first cycle search are methods over maps that are iterated in an arbitrary order, so
  every theorem holds for every order. Start-up and shutdown of subsystems are a class whose calls are logged.
  The symbol cache is proved to agree with a fresh linear search over whole runs, and with several threads exactly as
  long as no invalidation overtakes an insertion.
- **Save states** (`Words`, `Crc32`, `Blobs`, `MemoryMap`, `HostMemory`, `Turns`, `SaveState`). The table-driven CRC-32
  equals the polynomial division of ITU-T V.42, section 8.1.1.6.2, and damage within 32 consecutive bits is always
  reported. Host memory has a protection for every page, and a copy that meets the wrong one does not return; saving
  and then loading gives the machine back under an exactly stated condition.
- **Shader cache** (`ShaderCache`, `SharedCache`, `CompileQueue`). The bounded cache holds the most recently used
  keys; shared by callers and the worker it keeps to its limit in every interleaving; the producer and worker
  protocol is a state machine with one step per access to shared memory.
- **Processor arithmetic** (`Cpu`). The portable 128-bit multiplications, the overflow test of IMUL, and the flags
  of a comparison together with the sixteen branch conditions that read them.
- **Thread pool** (`ThreadPool`). Every interleaving of submitters, workers, waiters and `Stop`.
- **Command lists** (`CommandProcessor`). The packet builder and the processing loop undo each other, the loop makes
  exactly the calls of the commands that were issued, and it is total on arbitrary bytes.
- **Queues and paths** (`RingBuffers`, `MessageQueues`, `Filesystem`). In-place code against simple
  specifications: a queue of bytes, an ordered queue of messages, a walk over path segments.

Words of the machine are natural numbers below 2^32 or 2^64, with wrap-around written out; exclusive-or, and, or and
the shifts work on binary digits (`Words`). Floats are 32-bit patterns. The clock, the host allocator, the compiler
callback and the success of host file operations are parameters.

Where the code and its documentation disagree the model follows the code:

- `SaveState.h` documents the magic "PS5xSS"; the code writes and expects "ChuckSta".
- `Runtime.h` says `InitAll` returns false when a required subsystem fails. Subsystems on a cycle or with an
  unregistered dependency are skipped silently, so it can return true with a mandatory subsystem never started
  (`Runtime.SkippedYetTrue`); `Runtime.TrueMeansRunningUnlessSkipped` gives the exact condition.
- A comment at `SaveState.cpp:121` calls the copy of a committed region safe because its memory is valid. Committed
  memory need not be readable, so a save can fault, and the load copies into pages that need not be writable.
  `SaveState.SaveThenLoadIff` is the exact condition for getting the machine back: every committed page readable when
  it is saved, every committed region writable where it is put back, tags shorter than 2^32 characters, and a
  memory-map blob shorter than 2^32 bytes. `SaveState.CodeSegmentIsLost` is a code page, protected as the loader leaves
  it, on which the load faults; `SaveState.LargeMapIsLost` is a region of 2^32 bytes. (The format also loses the page
  of a region at base zero; the memory manager never records such a region.)
- An unload followed by an invalidation leaves a stale symbol behind if both run between the resolution and the
  insertion of a look-up on another thread: `SharedLinker.StaleEntry`, and `SharedLinker.StepSoundIff` for the exact
  condition.
- The 64-bit addition compares the wrapped sum with the largest word, so it never sets the carry flag, unlike the
  instruction it stands for. `Cpu.FlagsRightIff` is the exact condition, over all widths; `Cpu.AddCarryLost` adds one
  to the largest word.
- The pending-job counter has 32 bits, so `FlushQueue` can return early. `CompileQueue.ZeroTrustedIff` is the exact
  condition; `CompileQueue.FullCounterReadsZero` is a run of 2^32 announcements after which the counter reads zero
  and no job is finished.

## Model

| member | source | states |
|---|---|---|
| Graphs.KahnListsTheGrounded | source/chuckstation5/src/DynamicLinker/DynamicLinker.cpp:357-384 | any dependency-first list in which each omitted node is held back by an omitted dependency contains exactly the nodes whose whole transitive dependency set is registered and acyclic |
| Graphs.KahnListsAll | source/chuckstation5/src/DynamicLinker/DynamicLinker.cpp:357-384 | such a list has every registered module if and only if the graph is acyclic and no dependency is missing |
| Graphs.LassoIsCyclic | source/chuckstation5/src/DynamicLinker/DynamicLinker.cpp:319-355 | a returned path (lead-in and repeated last vertex) proves that the graph has a cycle |
| TopoSort.BuildReverse | source/chuckstation5/src/DynamicLinker/DynamicLinker.cpp:361-370 | the in-degrees count the declared dependencies and the reverse lists hold each edge as often as it was declared, for any iteration order |
| TopoSort.Seed | source/chuckstation5/src/DynamicLinker/DynamicLinker.cpp:372-375 | the work list starts with exactly the modules that wait for nothing, each once |
| TopoSort.Release | source/chuckstation5/src/DynamicLinker/DynamicLinker.cpp:377-382 | after a module is emitted the counts again equal the unmet dependencies, and exactly the modules that became free join the work list |
| TopoSort.KahnOrder | source/chuckstation5/src/Runtime/Runtime.cpp:81-108 | the loop yields a duplicate-free dependency-first order of exactly the subsystems with a registered acyclic dependency closure |
| TopoSort.TopologicalOrder | source/chuckstation5/src/DynamicLinker/DynamicLinker.cpp:357-384 | the order is complete if and only if there is no cycle and no missing dependency |
| CycleDetection.Search.Dfs | source/chuckstation5/src/DynamicLinker/DynamicLinker.cpp:327-343 | the search terminates; true leaves a walk whose last vertex occurs earlier in it, false finishes the vertex and restores the path |
| CycleDetection.DetectCycles | source/chuckstation5/src/DynamicLinker/DynamicLinker.cpp:319-355 | a returned path is a walk along dependency edges whose last vertex repeats; nothing is returned if and only if the graph is acyclic |
| ModuleRegistry.ResolveIsFirst | source/chuckstation5/src/ModuleRegistry/ModuleRegistry.cpp:269-282 | resolution finds the first export of that name in the first module of the load order that has one, and nothing if and only if no loaded module exports it |
| ModuleRegistry.RegisterKeeps | source/chuckstation5/src/ModuleRegistry/ModuleRegistry.cpp:116-172 | registering by name keeps the module map, the name index and the load order consistent |
| ModuleRegistry.UnloadKeeps | source/chuckstation5/src/ModuleRegistry/ModuleRegistry.cpp:218-256 | so does unloading, whether it decrements, refuses or erases |
| ModuleRegistry.ExportsAreThose | source/chuckstation5/src/ModuleRegistry/ModuleRegistry.cpp:145-158 | the exports of a new module are the named function and object symbols with a value, in the order of the table, relocated to the base |
| ModuleRegistry.VisibleAtMeans | source/chuckstation5/src/ModuleRegistry/ModuleRegistry.cpp:145-158 | the places of those symbols are listed in order and completely |
| ModuleRegistry.RegistryState.Register | source/chuckstation5/src/ModuleRegistry/ModuleRegistry.cpp:116-172 | a known name gains a reference (modulo 2^32) and returns its id; a new one gets the next id, its exports and a place at the end of the load order; nothing else changes |
| ModuleRegistry.RegistryState.Retain | source/chuckstation5/src/ModuleRegistry/ModuleRegistry.cpp:258-266 | a registered module gains a reference, an unknown one is reported |
| ModuleRegistry.RegistryState.HasDependents | source/chuckstation5/src/ModuleRegistry/ModuleRegistry.cpp:235-244 | the scan reports whether some other module lists the id among its dependencies |
| ModuleRegistry.RegistryState.Unload | source/chuckstation5/src/ModuleRegistry/ModuleRegistry.cpp:218-256 | succeeds exactly for a registered module with further references or with no dependents; it takes one reference away in the first case, and in the second takes the module, its name and its one place in the load order away |
| ModuleRegistry.RegistryState.ResolveSymbol | source/chuckstation5/src/ModuleRegistry/ModuleRegistry.cpp:269-282 | the two loops compute the specified resolution |
| SymbolCache.RegisterCoherent | source/chuckstation5/src/ModuleRegistry/ModuleRegistry.cpp:116-172 | registering a module never changes the answer for a cached symbol |
| SymbolCache.UnloadCoherentIff | source/chuckstation5/src/DynamicLinker/DynamicLinker.cpp:171-180 | an unload without invalidation keeps the cache coherent if and only if it erased nothing or no cached symbol came from the erased module |
| SymbolCache.StepSound | source/chuckstation5/src/DynamicLinker/DynamicLinker.cpp:118-187 | registering, retaining, looking up, and unloading with invalidation each keep the cache coherent |
| SymbolCache.LookupsAreFresh | source/chuckstation5/src/DynamicLinker/DynamicLinker.cpp:118-155 | at every point of every such run, from any registry and cache in that relation, a look-up returns the address and owner that a fresh resolution gives, and nothing exactly when that finds nothing |
| SymbolCache.EveryStateIsSound | source/chuckstation5/src/DynamicLinker/DynamicLinker.cpp:118-187 | the registry stays well formed and the cache coherent at every point of a run from any sound start, with or without dependencies among the modules |
| SymbolCache.LinkerState.LookupSymbol | source/chuckstation5/src/DynamicLinker/DynamicLinker.cpp:118-155 | hits and misses, the hit count and the new cache entry |
| SymbolCache.LinkerState.InvalidateCache | source/chuckstation5/src/DynamicLinker/DynamicLinker.cpp:171-180 | erases in place exactly the entries of one module |
| SymbolCache.LinkerState.UnloadAndInvalidate | source/chuckstation5/src/DynamicLinker/DynamicLinker.cpp:171-180 | the pair of calls keeps the cache coherent |
| SharedLinker.StepSoundIff | source/chuckstation5/src/DynamicLinker/DynamicLinker.cpp:118-180 | in every interleaving of look-ups, registrations and unloads at lock granularity, a step keeps every answer, cached or about to be, fresh or still to be invalidated, if and only if it is not an invalidation that runs while an answer from the erased module waits to be inserted and no other invalidation of it is to come |
| SharedLinker.QuietMeansCoherent | source/chuckstation5/src/DynamicLinker/DynamicLinker.cpp:118-180 | in every run without such a step the cache agrees with a fresh search whenever no unload is half done |
| SharedLinker.StaleEntry | source/chuckstation5/src/DynamicLinker/DynamicLinker.cpp:118-155 | for every symbol whose module can be erased, a run of two threads that ends with the address of the unloaded module in the cache |
| Runtime.StartsUnfold | source/chuckstation5/src/Runtime/Runtime.cpp:141-195 | a grounded subsystem comes up if and only if its init does not return false and all its direct dependencies come up |
| Runtime.StartedMeans | source/chuckstation5/src/Runtime/Runtime.cpp:126-201 | the states and the result after start-up, in terms of what the callbacks return |
| Runtime.RuntimeManager.StartOne | source/chuckstation5/src/Runtime/Runtime.cpp:138-197 | one turn of the loop: with all dependencies running, Failed if init returns false and Running otherwise; with one down, Initialising if optional and Failed if not; the call logged, and whether a mandatory subsystem failed |
| Runtime.RuntimeManager.InitAll | source/chuckstation5/src/Runtime/Runtime.cpp:126-201 | a subsystem whose direct dependencies run is Running if and only if it has no init or its init returned true, and Failed if and only if it returned false; a grounded one runs if and only if nothing it reaches returned false; the result is false if and only if some mandatory grounded one reaches such a failure; init is called exactly once where the dependencies came up, and only while they run |
| Runtime.TrueMeansRunningUnlessSkipped | source/chuckstation5/src/Runtime/Runtime.cpp:126-201 | every mandatory subsystem is running if and only if the result is true and no mandatory one was skipped for a cycle or an unregistered dependency |
| Runtime.SkippedYetTrue | source/chuckstation5/src/Runtime/Runtime.cpp:126-201 | a concrete registry for which the result is true and a mandatory subsystem was never started |
| Runtime.RuntimeManager.ShutdownAll | source/chuckstation5/src/Runtime/Runtime.cpp:203-228 | every running subsystem becomes Stopped, each shutdown callback runs once, and only when no running subsystem depends on it |
| Runtime.StartThenStop | source/chuckstation5/src/Runtime/Runtime.cpp:126-228 | the state of every subsystem after a whole life: Stopped unless it reaches an init that returned false, then Failed, or Initialising if it is optional and held back; every callback safe |
| Words.FieldRoundTrip | source/chuckstation5/src/SaveState/SaveState.cpp:40-88 | fields of 1, 4 and 8 little-endian bytes give back their value |
| Words.LeByte | source/chuckstation5/src/SaveState/SaveState.cpp:40-52 | byte i of a field is the i-th lowest byte of its value |
| Crc32.ChecksumIsFrameCheck | source/chuckstation5/src/SaveState/SaveState.cpp:19-37 | for every byte string the reflected register computes the frame check sequence of ITU-T V.42 section 8.1.1.6.2: long division over GF(2) by the generator, given by its exponents |
| Crc32.PolyIsGenerator | source/chuckstation5/src/SaveState/SaveState.cpp:28-28 | the constant of the table has exactly the coefficients of the generator of the standard, x^32 + x^26 + x^23 + x^22 + x^16 + x^12 + x^11 + x^10 + x^8 + x^7 + x^5 + x^4 + x^2 + x + 1, in reverse |
| Crc32.TableStep | source/chuckstation5/src/SaveState/SaveState.cpp:33-35 | one table look-up does the work of eight single-bit steps |
| Crc32.RegisterInjective | source/chuckstation5/src/SaveState/SaveState.cpp:33-36 | different register values stay different under the same bytes |
| Crc32.BurstsAreDetected | source/chuckstation5/src/SaveState/SaveState.cpp:19-37 | equal-length strings that differ only within 32 consecutive bits, which may touch five bytes, have different checksums |
| Crc32.TableEntry | source/chuckstation5/src/SaveState/SaveState.cpp:25-30 | the inner loop computes eight shift steps of the index |
| Crc32.Crc32State.Crc32 | source/chuckstation5/src/SaveState/SaveState.cpp:19-37 | the table-driven loop, with its table built on first use, returns the frame check sequence |
| Blobs.Blob.WriteStr | source/chuckstation5/src/SaveState/SaveState.cpp:53-58 | appends a 32-bit length and that many characters |
| Blobs.BlobReader.ReadStr | source/chuckstation5/src/SaveState/SaveState.cpp:78-85 | reads a string from the front of what is left or fails |
| Blobs.StrRead | source/chuckstation5/src/SaveState/SaveState.cpp:53-85 | strings shorter than 2^32 come back and nothing else is consumed |
| MemoryMap.MapRestoredIff | source/chuckstation5/src/SaveState/SaveState.cpp:102-173 | a possibly cut memory-map blob gives back its regions if and only if every region is storable, the count fits 32 bits and nothing was cut; then every byte is used |
| HostMemory.SerializeMemoryMap | source/chuckstation5/src/SaveState/SaveState.cpp:102-126 | returns if and only if every page it stores can be read, and has then appended the count and the encoding of each committed region in order |
| HostMemory.RestoreReturnsIff | source/chuckstation5/src/SaveState/SaveState.cpp:147-171 | whatever addresses the operating system hands out, restoring a list of regions returns if and only if each of them that has a place is writable there over its whole length at its turn |
| HostMemory.RestoreHonouredIff | source/chuckstation5/src/SaveState/SaveState.cpp:147-171 | with disjoint regions going back to their bases it returns if and only if each is writable: by the protection of its pages where its base is recorded before the load, by its saved protection otherwise |
| HostMemory.AccessMeans | source/chuckstation5/src/Memory/Memory.cpp:50-57 | bit 0 of a protection permits reading and bit 1 writing |
| HostMemory.AlignUpMeans | source/chuckstation5/src/Memory/Memory.cpp:60-63 | sizes are rounded up to the next whole page |
| HostMemory.HostState.FindRegion | source/chuckstation5/src/Memory/Memory.cpp:415-425 | reports whether some recorded region contains the address |
| HostMemory.HostState.Map | source/chuckstation5/src/Memory/Memory.cpp:271-316 | a fresh mapping is recorded with its size rounded up to whole pages, zeroed, and protected as asked; a failure changes nothing |
| HostMemory.DeserializeMemoryMap | source/chuckstation5/src/SaveState/SaveState.cpp:128-173 | ends early exactly when the blob does, faults exactly when a copy meets a page that is not writable, whichever comes first, and otherwise leaves every region found or mapped, with its page copied back |
| HostMemory.TurnMeans | source/chuckstation5/src/SaveState/SaveState.cpp:147-171 | one turn in full: when it faults, and otherwise every recorded region, every protection and every byte afterwards |
| HostMemory.RestoreExact | source/chuckstation5/src/SaveState/SaveState.cpp:154-170 | after such a restore every byte of every region is the saved one, and every other byte is what it was |
| SaveState.CpuRead | source/chuckstation5/src/SaveState/SaveState.cpp:179-215 | the processor blob is 416 bytes, gives back every register and is used up |
| SaveState.SerializeCpuContext | source/chuckstation5/src/SaveState/SaveState.cpp:179-195 | the loops append the registers in the order of the format |
| SaveState.DeserializeCpuContext | source/chuckstation5/src/SaveState/SaveState.cpp:197-215 | succeeds exactly on 416 or more bytes and sets every register |
| SaveState.SaveLoadIff | source/chuckstation5/src/SaveState/SaveState.cpp:304-491 | for any host and any answers of the operating system, loading what was saved gives exactly the saved context and regions if and only if every committed region is storable, the memory-map blob is shorter than 2^32 bytes and no copy back faults |
| SaveState.LargeMapIsLost | source/chuckstation5/src/SaveState/SaveState.cpp:304-352 | a region of 2^32 bytes, storable by itself, has a map whose size field is cut to 32 bits: on no host does the machine come back |
| SaveState.SaveThenLoadIff | source/chuckstation5/src/SaveState/SaveState.cpp:304-491 | with regions as the memory manager records them, whose bases the operating system honours, saving and then loading gives back the registers, the list of regions and every committed byte if and only if every committed page was readable, the format holds the map, and every committed region is writable where it goes |
| SaveState.CodeSegmentIsLost | source/chuckstation5/src/SaveState/SaveState.cpp:154-170 | a machine with one read-only code page saves without an error, and loading that save faults both in a fresh process and in the machine that saved it |
| SaveState.DamageIsReported | source/chuckstation5/src/SaveState/SaveState.cpp:448-453 | damage to at most 32 consecutive payload bits, aligned or not, of a file with a valid checksum is reported as ChecksumMismatch |
| SaveState.SavedBytes | source/chuckstation5/src/SaveState/SaveState.cpp:330-352 | the header of a saved file, field by field at its offset, and the payload behind it |
| SaveState.HeaderOffsets | source/chuckstation5/src/SaveState/SaveState.cpp:421-422 | the offset of each field of the 424-byte header |
| SaveState.CpuOffsets | source/chuckstation5/src/SaveState/SaveState.cpp:176-215 | the offset of each register in the processor blob |
| MemoryMap.RegionOffsets | source/chuckstation5/src/SaveState/SaveState.cpp:140-148 | the offset of each field of a region, its tag and its page |
| SaveState.SaveStateManager.Save | source/chuckstation5/src/SaveState/SaveState.cpp:304-380 | writes exactly the specified file to a slot from 0 to 9 if every committed page can be read, and otherwise nothing |
| SaveState.LoadRefuses | source/chuckstation5/src/SaveState/SaveState.cpp:415-491 | by the bytes of the file: VersionMismatch if and only if the magic is right and the version is not 1; ChecksumMismatch if and only if these and the sizes are right and the checksum is not; CorruptFile if and only if the file is short, its magic wrong, its payload cut, or a section too short |
| SaveState.SaveStateManager.Load | source/chuckstation5/src/SaveState/SaveState.cpp:383-491 | the outcome of every check in order, a fault among them, and the registers and host memory on success |
| ShaderCache.HitTracks | source/chuckstation5/src/ShaderCache/ShaderCache.cpp:220-233 | a hit with a later time stamp keeps the cached keys the most recently used ones and the stamps in their order |
| ShaderCache.OldestIsLast | source/chuckstation5/src/ShaderCache/ShaderCache.cpp:270-276 | the entry with the smallest stamp is the least recently used key, and the cache is no larger than its limit |
| ShaderCache.MissTracks | source/chuckstation5/src/ShaderCache/ShaderCache.cpp:235-289 | evicting it and adding the new key again leaves exactly the most recently used keys |
| ShaderCache.Bounded | source/chuckstation5/src/ShaderCache/ShaderCache.cpp:270-277 | the cache never outgrows its limit |
| ShaderCache.RemovalTracks | source/chuckstation5/src/ShaderCache/ShaderCache.cpp:313-318 | after an invalidation the cache is as if only the remaining keys had been used |
| ShaderCache.EveryRunIsRecent | source/chuckstation5/src/ShaderCache/ShaderCache.cpp:220-289 | under rising clock readings the cached keys are exactly the most recently used ones of the recorded history, and each entry comes from a compile of the source that was handed in for its key, has counted the hits since, and has not been evicted in between |
| ShaderCache.EveryEntryWasHandedIn | source/chuckstation5/src/ShaderCache/ShaderCache.cpp:235-289 | every cached entry of every run names the operation it comes from: the last compile of its key that missed, with its source, the binary of that source, and one hit for each later use |
| ShaderCache.HistoryIsExact | source/chuckstation5/src/ShaderCache/ShaderCache.cpp:220-289 | as long as nothing is invalidated that history is the real one: every hit and every compile in order |
| ShaderCache.FindOldest | source/chuckstation5/src/ShaderCache/ShaderCache.cpp:271-273 | the scan finds a smallest time stamp for any iteration order |
| ShaderCache.CacheState.Lookup | source/chuckstation5/src/ShaderCache/ShaderCache.cpp:220-233 | is one step of such a run: result, entry update and counters |
| ShaderCache.CacheState.Compile | source/chuckstation5/src/ShaderCache/ShaderCache.cpp:235-289 | a hit is stamped; a miss returns and caches an entry with the given key and source, whose binary the registered compiler makes of that source for the stage of the key, or which is the source without a compiler; of the others at most the least recently used one goes, and the counters say so |
| ShaderCache.CacheState.Invalidate | source/chuckstation5/src/ShaderCache/ShaderCache.cpp:313-318 | is one step of such a run: removes exactly one key and reports whether it was there |
| SharedCache.EveryInterleavingIsSound | source/chuckstation5/src/ShaderCache/ShaderCache.cpp:73-132 | in every interleaving of any number of callers with the worker, at lock granularity and with arbitrary clock readings, there are never more than the limit of entries, and each holds a compile of a source that a Compile or a QueueCompile handed in for its key |
| SharedCache.InsertionSize | source/chuckstation5/src/ShaderCache/ShaderCache.cpp:112-119 | inserting into a full cache keeps it full exactly when the key was not cached or its own entry was evicted; otherwise another entry is lost for nothing |
| CompileQueue.EveryStateKeepsInv | source/chuckstation5/src/ShaderCache/ShaderCache.cpp:73-132 | in every interleaving the counter is the number of outstanding jobs modulo 2^32, jobs are worked off in push order, and each job is in exactly one place |
| CompileQueue.ZeroMeansFinished | source/chuckstation5/src/ShaderCache/ShaderCache.cpp:291-308 | with fewer than 2^32 jobs outstanding the counter reads zero if and only if every job submitted so far is finished and the worker holds none |
| CompileQueue.ZeroTrustedIff | source/chuckstation5/src/ShaderCache/ShaderCache.cpp:303-308 | in every reachable state with a zero counter, all submitted jobs are finished and the worker holds none if and only if fewer than 2^32 jobs are outstanding |
| CompileQueue.FullCounterReadsZero | source/chuckstation5/src/ShaderCache/ShaderCache.cpp:291-308 | a run of 2^32 announcements after which the counter reads zero with no job finished |
| CompileQueue.CompiledOnce | source/chuckstation5/src/ShaderCache/ShaderCache.cpp:73-132 | each job is compiled at most once, in push order |
| CompileQueue.CacheHoldsSuccesses | source/chuckstation5/src/ShaderCache/ShaderCache.cpp:88-131 | a job is in the cache exactly when the worker's compilation of it succeeded, and finished when it was compiled at all |
| CompileQueue.FlushThenStopDropsNothing | source/chuckstation5/src/ShaderCache/ShaderCache.cpp:178-195 | after a flush with nothing submitted later, no state has anything queued |
| CompileQueue.StopAloneDrops | source/chuckstation5/src/ShaderCache/ShaderCache.cpp:73-132 | a run in which stopping without a flush leaves a job queued for ever |
| Cpu.Mul128U | source/chuckstation5/src/Cpu/Cpu.cpp:122-140 | hi * 2^64 + lo is the product, with every 64-bit intermediate wrapping |
| Cpu.PartialProduct | source/chuckstation5/src/Cpu/Cpu.cpp:130-135 | the partial products do not wrap |
| Cpu.HighFits | source/chuckstation5/src/Cpu/Cpu.cpp:136-138 | nor does the high word |
| Cpu.SignedCorrection | source/chuckstation5/src/Cpu/Cpu.cpp:150-155 | subtracting the operands of negative factors turns the unsigned high word into the signed one |
| Cpu.Mul128S | source/chuckstation5/src/Cpu/Cpu.cpp:142-157 | the signed 128-bit product of the two's complement operands |
| Cpu.OverflowIff | source/chuckstation5/src/Cpu/Cpu.cpp:776-778 | the high half differs from the sign of the low half exactly when the product does not fit in 64 signed bits |
| Cpu.WithFlagDigit | source/chuckstation5/src/Cpu/Cpu.cpp:172-194 | setting or clearing a flag changes that bit of RFLAGS and no other |
| Cpu.FlagPlaces | source/chuckstation5/include/ChuckStation5/Cpu/Cpu.h:39-47 | the carry, parity, zero, sign and overflow flags are bits 0, 2, 6, 7 and 11 |
| Cpu.FoldKeepsParity | source/chuckstation5/src/Cpu/Cpu.cpp:113-120 | folding the upper half of a word onto the lower keeps the parity of its ones |
| Cpu.Parity | source/chuckstation5/src/Cpu/Cpu.cpp:113-120 | true if and only if the low byte has an even number of ones |
| Cpu.SubOverflow | source/chuckstation5/src/Cpu/Cpu.cpp:185-188 | at every width the overflow bit of a subtraction is set exactly when the signed difference does not fit |
| Cpu.AddOverflow | source/chuckstation5/src/Cpu/Cpu.cpp:189-193 | at every width the overflow bit of an addition is set exactly when the signed sum does not fit |
| Cpu.ComputedFlagsMean | source/chuckstation5/src/Cpu/Cpu.cpp:172-194 | at widths 8, 16, 32 and 64 the computed flags have their arithmetic meaning, all but the carry of an addition |
| Cpu.StoredFlagsRead | source/chuckstation5/src/Cpu/Cpu.cpp:181-192 | the five flags read back from RFLAGS as they were set and every other bit is as before |
| Cpu.FlagsRightIff | source/chuckstation5/src/Cpu/Cpu.cpp:172-194 | for operands of the width, RFLAGS ends up with all five flags right if and only if the operation is a subtraction, narrower than 64 bits, or its unsigned sum does not wrap |
| Cpu.AddCarryIff | source/chuckstation5/src/Cpu/Cpu.cpp:189-190 | the carry bit of RFLAGS after a 64-bit addition tells whether the unsigned sum wrapped if and only if it did not wrap: JB is then never taken and JAE always |
| Cpu.AddCarryLost | source/chuckstation5/src/Cpu/Cpu.cpp:189-190 | 2^64-1 plus 1 leaves RFLAGS with zero set and carry clear where the carry should be set |
| Cpu.CpuContext.UpdateFlagsArith | source/chuckstation5/src/Cpu/Cpu.cpp:172-194 | for every width RFLAGS becomes the specified word: the five flags as meant for a wrapped sum or difference, except that the carry of an addition compares it with the mask, and the rest unchanged |
| Cpu.CpuContext.Execute | source/chuckstation5/src/Cpu/Cpu.cpp:353-463 | for each of the seven forms of ADD, SUB and CMP: the register that changes, if any, to the sum or difference modulo 2^64 of which operands, and the five flags of that sum or difference |
| Cpu.CpuContext.Compare | source/chuckstation5/src/Cpu/Cpu.cpp:795-803 | after CMP of two registers every condition code holds exactly when its relation does |
| Cpu.CompareThenBranch | source/chuckstation5/src/Cpu/Cpu.cpp:565-596 | after a comparison each condition code holds if and only if its relation does: 2 to 7 the unsigned order and equality, C to F the signed order |
| Cpu.PartnersNegate | source/chuckstation5/src/Cpu/Cpu.cpp:678-695 | each odd condition is the negation of its even partner |
| Cpu.CpuContext.CompareThenJump | source/chuckstation5/src/Cpu/Cpu.cpp:795-803 | a comparison followed by a conditional jump ends at the target exactly when the relation holds |
| Cpu.CpuContext.Mul | source/chuckstation5/src/Cpu/Cpu.cpp:937-945 | RDX:RAX holds the unsigned product, carry and overflow say whether it needs the high word |
| Cpu.CpuContext.IMulWide | source/chuckstation5/src/Cpu/Cpu.cpp:946-955 | RDX:RAX holds the signed product, carry and overflow say whether it leaves 64 signed bits |
| Cpu.CpuContext.IMul | source/chuckstation5/src/Cpu/Cpu.cpp:764-782 | the register holds the product modulo 2^64, exactly the product when it fits, with the same flags |
| Cpu.CpuContext.IMulImm | source/chuckstation5/src/Cpu/Cpu.cpp:977-995 | the same with a sign-extended immediate as the second factor |
| ThreadPool.EveryStateKeepsInv | source/chuckstation5/src/PerfTools/PerfTools.cpp:39-60 | in every interleaving tasks are started, dropped or queued in submission order, started ones are on exactly one worker or finished, and activeTasks counts the busy workers |
| ThreadPool.LowerIsEnabled | source/chuckstation5/src/PerfTools/PerfTools.cpp:47-56 | the counter never goes below zero |
| ThreadPool.StartsInOrder | source/chuckstation5/src/PerfTools/PerfTools.cpp:43-58 | each task starts at most once, in the order of submission |
| ThreadPool.WaitAllIsABarrier | source/chuckstation5/src/PerfTools/PerfTools.cpp:80-83 | in every state in which WaitAll returns no worker has a task and exactly the tasks that were not dropped have returned: all of them if and only if nothing was dropped, as is always so before the pool is joined |
| ThreadPool.WaitAllIffSettled | source/chuckstation5/src/PerfTools/PerfTools.cpp:80-83 | its predicate holds if and only if every submitted task has returned or was dropped and no worker is about to lower the counter: it waits no longer than that |
| ThreadPool.StopDropsNothingIff | source/chuckstation5/src/PerfTools/PerfTools.cpp:62-70 | with no submission after the stop flag, Stop drops nothing and all tasks have returned if and only if there is a worker or nothing was submitted |
| CommandProcessor.CommandList.SetRenderTarget | source/chuckstation5/src/CommandProcessor/CommandProcessor.cpp:100-109 | the packet appended, field by field |
| CommandProcessor.PacketBytes | source/chuckstation5/src/CommandProcessor/CommandProcessor.cpp:95-226 | the opcode and the fields of each of the seventeen packets, byte by byte |
| CommandProcessor.CommandList.SetViewport | source/chuckstation5/src/CommandProcessor/CommandProcessor.cpp:162-168 | the opcode and the 24 bytes the processor skips |
| CommandProcessor.CommandList.BeginRenderPass | source/chuckstation5/src/CommandProcessor/CommandProcessor.cpp:197-203 | the opcode, the length modulo 2^32 and that many characters |
| CommandProcessor.PacketDecodes | source/chuckstation5/src/CommandProcessor/CommandProcessor.cpp:75-410 | decoding a packet gives back its command and payload and leaves exactly what follows it |
| CommandProcessor.RoundTrip | source/chuckstation5/src/CommandProcessor/CommandProcessor.cpp:75-226 | a list of packets, with or without a final End and whatever follows it, decodes to the same commands with the same payloads in the same order |
| CommandProcessor.EncodeJoin | source/chuckstation5/src/CommandProcessor/CommandProcessor.cpp:90-226 | a packet appended to a buffer is the packet in front of whatever is appended later |
| CommandProcessor.Issue | source/chuckstation5/src/CommandProcessor/CommandProcessor.cpp:95-221 | for each command the builder method it calls for appends exactly its packet |
| CommandProcessor.Build | source/chuckstation5/src/CommandProcessor/CommandProcessor.cpp:75-226 | a sequence of builder calls followed by End writes the packets one after the other and the End packet |
| CommandProcessor.ShortLabelsAreKept | source/chuckstation5/src/CommandProcessor/CommandProcessor.cpp:197-216 | labels under 2^32 characters come back whole |
| CommandProcessor.UnknownStops | source/chuckstation5/src/CommandProcessor/CommandProcessor.cpp:411-421 | a list with an unknown opcode decodes up to it and is reported |
| CommandProcessor.OneCommand | source/chuckstation5/src/CommandProcessor/CommandProcessor.cpp:254-439 | for each kind of command, with and without a backend, the one call it makes, field by field, or none, and the one counter it raises |
| CommandProcessor.ListOfCommands | source/chuckstation5/src/CommandProcessor/CommandProcessor.cpp:254-439 | over a list the k-th call comes from the k-th command that makes one, each counter rises by the number of commands of its kind, and nothing else changes |
| CommandProcessor.CallingAtMeans | source/chuckstation5/src/CommandProcessor/CommandProcessor.cpp:254-439 | the places of the commands that make a call are listed in order and completely |
| CommandProcessor.CountBound | source/chuckstation5/src/CommandProcessor/CommandProcessor.cpp:254-439 | on arbitrary bytes at most one command is counted for every four bytes |
| CommandProcessor.PacketReader.Read | source/chuckstation5/src/CommandProcessor/CommandProcessor.cpp:33-42 | a field inside the buffer is read and passed over; one that does not fit reads as zero and moves nothing |
| CommandProcessor.Processor.Process | source/chuckstation5/src/CommandProcessor/CommandProcessor.cpp:254-439 | the loop ends, reads inside the buffer only, makes for the decoded commands their calls in order, field by field, raises each counter by the number of commands of its kind, and returns how many there were |
| CommandProcessor.BuildThenProcess | source/chuckstation5/src/CommandProcessor/CommandProcessor.cpp:75-439 | processing a list built by any sequence of builder calls and End makes the calls of the commands issued, in order, with the fields they were issued with, counts each, and returns their number |
| RingBuffers.NothingLostOrReordered | source/chuckstation5/src/Audio/Audio.cpp:29-68 | over any run of writes, reads and clears the accepted bytes are the bytes that left, read or thrown away, followed by the queued ones, and the queue stays within its capacity |
| RingBuffers.OutputIsPrefix | source/chuckstation5/src/Audio/Audio.cpp:41-65 | without Clear the readers receive a prefix of what was accepted |
| RingBuffers.StoredAppends | source/chuckstation5/src/Audio/Audio.cpp:41-52 | copying to the write position in at most two pieces appends to the queued bytes |
| RingBuffers.ReadSplits | source/chuckstation5/src/Audio/Audio.cpp:54-65 | moving the read position removes exactly the bytes read |
| RingBuffers.RingBuffer.Write | source/chuckstation5/src/Audio/Audio.cpp:41-52 | all or nothing, depending only on the free space |
| RingBuffers.RingBuffer.Read | source/chuckstation5/src/Audio/Audio.cpp:54-65 | the oldest bytes are copied out in order and the rest stays queued; the caller's buffer is otherwise untouched |
| RingBuffers.RingBuffer.Clear | source/chuckstation5/src/Audio/Audio.cpp:67-67 | leaves an empty queue |
| RingBuffers.Drive | source/chuckstation5/src/Audio/Audio.cpp:29-68 | any run on a fresh buffer accepts and delivers what the queue would, and without Clear delivers a prefix of what it accepted |
| MessageQueues.EveryRunKeepsInv | source/chuckstation5/src/KernelServices/KernelServices.cpp:202-258 | every reachable queue is ordered by priority, newest first among equals, within maxMessages, and messages sent are those received plus those queued |
| MessageQueues.ReceivesNewestOfHighest | source/chuckstation5/src/KernelServices/KernelServices.cpp:233-258 | a receive takes the newest message of the highest priority |
| MessageQueues.MqEntry.LowerBound | source/chuckstation5/src/KernelServices/KernelServices.cpp:225-227 | the binary search finds the place in front of the first message that is not of higher priority |
| MessageQueues.MqEntry.SendMsg | source/chuckstation5/src/KernelServices/KernelServices.cpp:202-231 | fails exactly on a full queue; otherwise puts the message, cut to the size limit, behind all of higher priority and in front of the rest |
| MessageQueues.MqEntry.RecvMsg | source/chuckstation5/src/KernelServices/KernelServices.cpp:233-258 | fails exactly on an empty queue; otherwise removes the front message and copies as much of it as fits |
| MessageQueues.DepthIsExact | source/chuckstation5/src/KernelServices/KernelServices.cpp:260-268 | the reported depth is the number of messages sent and not yet received |
| Filesystem.Normalise | source/chuckstation5/src/Filesystem/Filesystem.cpp:60-77 | the loops compute the walk of the segments from the root |
| Filesystem.Idempotent | source/chuckstation5/src/Filesystem/Filesystem.cpp:60-77 | normalising twice is normalising once |
| Filesystem.NormalShape | source/chuckstation5/src/Filesystem/Filesystem.cpp:60-77 | one leading slash, no trailing one, and no empty, "." or ".." segment |
| Filesystem.NormalConcat | source/chuckstation5/src/Filesystem/Filesystem.cpp:60-77 | normalising a directory first does not change where a path below it leads |
| Filesystem.Enter | source/chuckstation5/src/Filesystem/Filesystem.cpp:60-77 | a proper segment leads one step down |
| Filesystem.StayAndLeave | source/chuckstation5/src/Filesystem/Filesystem.cpp:60-77 | empty segments and "." lead nowhere, ".." undoes the step before it, and at the root it stays there |
| Filesystem.CoversIff | source/chuckstation5/src/Filesystem/Filesystem.cpp:83-86 | the resolver's prefix test is a test of the first segment |
| Filesystem.OneMountServes | source/chuckstation5/src/Filesystem/Filesystem.cpp:79-95 | at most one mount serves a path |
| Filesystem.WeakTestAgrees | source/chuckstation5/src/Filesystem/Filesystem.cpp:215-217 | the weaker prefix test in Open accepts the mount that serves the path and no other |
| Filesystem.RelativeStaysBelow | source/chuckstation5/src/Filesystem/Filesystem.cpp:87-91 | what is appended to the host directory is relative and has no "..", "." or empty segment |
| Filesystem.VfsState.Resolve | source/chuckstation5/src/Filesystem/Filesystem.cpp:79-95 | finds the serving mount and the path below it, or reports that there is none |
| Filesystem.VfsState.Open | source/chuckstation5/src/Filesystem/Filesystem.cpp:206-229 | refused without a mount, denied exactly for writing on a read-only mount, and otherwise a mode that writes if and only if writing was asked for |
| Filesystem.FlagModeMeans | source/chuckstation5/src/Filesystem/Filesystem.cpp:97-109 | which of the four modes is chosen, by the bits of the flags |
| Filesystem.FlagMode | source/chuckstation5/src/Filesystem/Filesystem.cpp:97-109 | the mode permits writing if and only if it was asked for and the mount is not read-only |

## Left out

- ModuleRegistry.RegistryState.Register: module ids are unbounded; the source's 32-bit id counter would wrap after 2^32 registrations.
- Runtime.RuntimeManager.InitAll: one start-up of freshly registered subsystems; a repeated `InitAll`, `InitOne`, `ShutdownOne`, and callbacks that call back into the runtime are not modelled.
- `Register(const ModuleDesc&)` and the main-module flag, which skip the checks the theorems rely on.
- Relocation tables, `LinkModule`, `EagerBind`, ELF parsing and patching through host pointers.
- HostMemory.HostState.Map: which address the operating system answers with, or that it has none, is the parameter `given` (`grant` for a whole load); allocation types, tags, statistics and the translation of protections to those of Windows are left out.
- HostMemory.DeserializeMemoryMap: failing allocations for huge lengths and the 64-bit wrap of `offset + len`, `base + size` and the rounding of sizes are not modelled; what memory holds after a fault is not stated.
- HostMemory.SerializeMemoryMap: a page can be read exactly if its protection says so; hardware on which a write-only page can be read permits more.
- SymbolCache.LinkerState.LookupSymbol: one atomic step; `SharedLinker` has the separate uses of the locks.
- SharedLinker: clearing the whole cache, look-ups in one module, and events.
- SaveState.SaveStateManager.Load: what a failing load has already overwritten is not stated, and reading past the end of the file stream is one outcome.
- SaveState.SaveStateManager.Save: file errors and a full disk; screenshots, slot listing, deletion, import and export.
- ShaderCache.CacheState.Lookup: the clock is strictly increasing, because with ties the least recently used key is not determined; `SharedCache` allows any readings.
- ShaderCache.CacheState.Compile: the same, and `maxEntries` at least 1, because with 0 the source erases from an empty map. The recency theorem is for one thread; `LoadFromDisk` and `SaveToDisk` are not modelled.
- CompileQueue and ThreadPool: memory orderings weaker than sequential consistency, lost wake-ups, time-outs and liveness; the wait predicates are read as one state because the increments need the lock.
- Cpu.CpuContext.Execute: register operands only; the operand forms in memory, instruction fetch and prefixes, the logic group, shifts, DIV, stack and string instructions are not modelled.
- CommandProcessor.Processor.Process: the count is unbounded where the source has 32 signed bits, and the counters do not wrap at 2^64; timing, logging, the frame event and the other overloads are left out. Labels are skipped: their text reaches the log only.
- RingBuffers.RingBuffer.constructor: a positive capacity is required, because the source divides by it.
- MessageQueues.MqEntry.RecvMsg: as for SendMsg; an empty queue stands for a wait that timed out.
- MessageQueues.MqEntry.SendMsg: one atomic step under the queue's lock; waiting for room, handles and closing a queue are left out. A full queue stands for a wait that timed out.
- Filesystem.VfsState.Open: `fopen` itself, descriptors, creation of parent directories, and joining the host path; backslashes as separators on Windows.
- Memory statistics, metrics, the event ring, GPU fences, configuration, input, the debugger, renderer back ends and the user interface: plumbing, or easy members next to the cores above.
