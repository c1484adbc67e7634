# Verified models of Inmanta's orchestration core

This project models, in Dafny, the parts of the Inmanta orchestrator that carry the most state and the most branching,
and proves what they promise:

* **References** (`JsonTrees`, `ReferenceGraph`, `ReferenceEquality`, `ReferenceSerialization`, `ResourceResolution`). The
  exporter walks the fields of a resource, replaces every reference by null, writes down where it stood, and flattens references, whose
  arguments may hold references again, into models that name each other by id. The agent rebuilds the references and writes
  their values back. `ExportThenResolve` joins the two ends: unless the references are cyclic, the agent gets the original
  fields with every reference replaced by its value, no reference being resolved twice; what a field stands for is a
  relation of its own (`StandsFor`). Reference objects live on the heap: they carry the model cache and the cycle token that
  `serialize` writes, and nothing is assumed about sharing between them. The cycle exception compares the references it
  passes with `==`, which looks into their arguments; that comparison is modelled with the number of nested calls that the
  interpreter allows.
* **The pool of slow objects** (`PoolProtocol`, `PoolObjects`). A state machine whose steps are the code between two
  awaits, with any number of `get` calls, shutdowns, termination notices and cleanup passes interleaved over any number of
  pools, and theorems about every run; beside it the classes with the same pieces of code as methods.
* **The agent cache** (`CacheHeap`, `AgentCache`, `SingleFlight`). A dict, a binary heap of mutable items with the sift loops
  of heapq, a cached minimum and a deferred refresh set, proved to behave as a map whose entries expire; and the threads of
  `get_or_else` as a state machine.
* **Graph algorithms** (`ValidateGraph`, `DependencyTree`, `ModuleLoader`) and the binary search over module versions
  (`CompilerVersions`), each against a reference definition.
* **Version bumping** (`Versions`) over the ordering of PEP 440, section "Summary of permitted suffixes and relative
  ordering", with release segments of any length.
* **Plugin calls** (`CallBinding`, `Plugins`). The hand-written argument check against the slots of section 6.3.4 (Calls) of
  the Python Language Reference.
* **Resource ids** (`ResourceIds`). The printers, the regular expression as a grammar, and the parser.

`dafny verify dfyconfig.toml` verifies everything. `Wrappers` holds the optional value that the modules share.

Several promises turn out to hold under a condition only. Each is stated with the condition and with an input on which it
fails:

* serialising a reference raises exactly when a cycle can be reached, but not always the exception for a cycle. The walk
  that takes the first argument from which a cycle is reached, again and again, runs into a loop; the exception is the one for
  a cycle, and its trace goes once around that loop, exactly when every comparison of two references of the loop returns and
  finds that they differ (`CycleIsNamed`). Two references of one type that are each other's only argument end in a
  RecursionError whatever the limit (`MutualNeverReturns`, `SerializeMutual`), and two equal references on a loop end the
  trace early (`EqualOnACycle`, `SerializeCrossed`). It is enough that any two references on cycles differ in type, in the
  number of arguments, or in an argument with nothing but equal scalars before it (`EarlyDifferencesNameTheCycle`);
* one thread at a time is in the producer of `get_or_else`, in every run of n threads, exactly when n is at most two, or
  `cache_none` is on and nothing is evicted (`SingleFlightExactly`; `DroppedValueBreaksExclusion`,
  `EvictionBreaksExclusion`); "Added same item twice" is never raised under the same condition exactly (`AddsOnceExactly`;
  `DroppedValueAddsTwice`, `EvictionAddsTwice`);
* of the threads that miss together, all but one fail with KeyError when they remove the lock (`OneReturnPerLock`), because
  `src/inmanta/agent/cache.py:407` runs once per thread; no run of n threads has this failure exactly when n is at most one
  (`LockStaysExactly`, `SecondMisserFails`);
* the raise that `diff` calls unreachable is reached exactly when two versions first differ in the fifth or a later
  component and the lower one has a fourth (`DiffIsFirstDifference`, `UnreachableIsReached`);
* the choice of the development version fails its assertion exactly when the current version precedes 0.0.0 and every stable
  release (`DevVersionFails`);
* the binary search over module versions finds what a linear scan finds exactly when the first version is suitable, or those
  versions are suitable that the search tries on its way to the first suitable one and that lie behind it
  (`BestForCompilerVersion`, `AgreesOnTheWay`; `SearchMisses`); monotonicity is enough for that;
* the argument check of a plugin agrees with Python exactly when at most one Context comes before each parameter
  (`AcceptsWhatBinds`, `TwoContextsPassTooMuch`), and the Context of an accepted call then reaches its parameter exactly when
  the arguments before it are passed by position and no keyword has its name (`ContextReachesItsParameter`,
  `ContextMissesItsParameter`); an example for each way to fail is in `AcceptedCallFails` and `AcceptedContextNameFails`;
* the string of a resource id determines it together with the type, and on its own as long as no type holds a bracket
  (`StrIsInjective`, `BracketsClash`).

## Model

| member | source | states |
|---|---|---|
| JsonTrees.ReplayInAnyOrder | src/inmanta/references.py:622-626 | running the recorded replacements over the cleaned value, in any order and each any number of times, gives the original tree with every reference replaced by its value; running them again changes nothing |
| JsonTrees.UpdateFillsIn | src/inmanta/references.py:194-199 | one replacement fills in one reference and leaves every other place as it was, whatever was filled in before |
| JsonTrees.PathsAreIncomparable | src/inmanta/resources.py:268-283 | no recorded path is a prefix of another |
| JsonTrees.RefPathsOfChild | src/inmanta/resources.py:268-279 | the recorded paths below a list item or a dict entry are those of that child, so two children never share one |
| JsonTrees.IdOfInjective | src/inmanta/references.py:266-273 | references with equal ids are equal: type, argument names, and everything inside the arguments |
| JsonTrees.CleanAndRefsInjective | src/inmanta/references.py:369-388 | a json argument is determined by its cleaned value together with the ids at its paths |
| JsonTrees.RefIdsClosed | src/inmanta/resources.py:219-237 | every id that an argument of a collected model names, also inside a mutated json argument, is collected |
| JsonTrees.NamedIdsAreRefIds | src/inmanta/references.py:365-395 | the ids named by a serialised argument are ids of references in its value |
| JsonTrees.RefIdsComeFromPaths | src/inmanta/resources.py:239-246 | every collected id belongs to the reference at some recorded path, or to one nested in it |
| JsonTrees.ValueOfReference | src/inmanta/references.py:337-350 | the value of a reference is what its resolver gives for its type and for the dict that has the value of each argument under its name, and nothing else |
| JsonTrees.DenotesWhatItStandsFor | src/inmanta/references.py:470-478 | the value that the agent works out for a tree is the only one that it stands for: the same value outside references, and inside them what the resolvers give for arguments that stand for theirs |
| ReferenceGraph.AcyclicIsNotCyclic | src/inmanta/references.py:482-483 | a graph whose argument chains are bounded has no reference that leads back to itself |
| ReferenceGraph.InOrderIsRefs | src/inmanta/resources.py:268-279 | going through lists and dicts in their order meets exactly the references in a value |
| ReferenceGraph.TreeOfReference | src/inmanta/references.py:406-408 | the tree behind a reference object has its type and the trees of its arguments, in order |
| ReferenceGraph.TreeHasDistinctNames | src/inmanta/references.py:406-408 | the arguments of a reference are the entries of a dict, at every depth |
| ReferenceEquality.Equal | src/inmanta/references.py:410-416 | computes the comparison of two attribute values, reference by reference, up to a first difference or a RecursionError |
| ReferenceEquality.ScalarEquality | src/inmanta/references.py:410-416 | which scalars are equal: strings that are the same, numbers of any kind with one value, True being 1, null only itself |
| ReferenceEquality.HigherLimit | src/inmanta/references.py:410-416 | a comparison that returns gives the same answer however many more nested calls are allowed |
| ReferenceEquality.EarlyDifferenceIsFound | src/inmanta/references.py:410-416 | references that differ in type, in the number of arguments, or in an argument with nothing but equal scalars before it are told apart with one nested call |
| ReferenceEquality.AcyclicReturns | src/inmanta/references.py:410-416 | a limit that is not below the height of the left value is enough for an answer |
| ReferenceEquality.ComparesTrees | src/inmanta/references.py:410-416 | then the comparison of acyclic values finds exactly whether their trees are equal, but for the order of arguments and for scalars that are equal numbers; the shortcut by identity makes no difference |
| ReferenceEquality.MutualNeverReturns | src/inmanta/references.py:410-416 | two references of one type that are each other's only argument: no limit is high enough to compare them |
| ReferenceEquality.EqualOnACycle | src/inmanta/references.py:410-416 | two references on a cycle that the comparison finds equal: they have the same two arguments in another order |
| ReferenceSerialization.Serialize | src/inmanta/references.py:480-494 | from any state of half-serialised references: returns the model of the tree behind the reference, from the cache when there is one, or raises with a chain to a reference whose token is set |
| ReferenceSerialization.SerializeUnset | src/inmanta/references.py:484-491 | the token is set while the arguments are serialised, and replaced by the model; on the way out of a cycle the reference adds itself to the trace |
| ReferenceSerialization.SerializeArguments | src/inmanta/references.py:356-404 | serialises every argument; afterwards all references named by them hold models |
| ReferenceSerialization.SerializeOne | src/inmanta/references.py:365-395 | one argument: literal, json, mutated json with its paths, or reference |
| ReferenceSerialization.SerializeReference | src/inmanta/references.py:480-494 | the outermost call raises exactly when a cycle can be reached through arguments, also after earlier calls that raised; the exception names the cycle exactly when the loop that the walk from the reference runs into is told apart, and then goes once around it; otherwise every reference that can be reached holds its model |
| ReferenceSerialization.UnwindStep | src/inmanta/references.py:71-77 | each frame that the exception passes adds its reference: what serialising the arguments raises, with the reference added, is what serialising the reference raises |
| ReferenceSerialization.AddToTrace | src/inmanta/references.py:71-77 | compares the new reference with those of the trace one after the other, completes the trace when one is equal, and ends in a RecursionError when a comparison does not return |
| ReferenceSerialization.CycleIsNamed | src/inmanta/references.py:71-77 | the exception is the one for a cycle and its trace is a cycle exactly when the walk from the reference runs into a loop all of whose comparisons return and find that the references differ; the trace is then that loop |
| ReferenceSerialization.WalkIsNamed | src/inmanta/references.py:480-494 | the same from anywhere on the walk, with the references passed so far |
| ReferenceSerialization.LoopIsCycle | src/inmanta/references.py:71-77 | the references of the loop are distinct, and once around it is a cycle |
| ReferenceSerialization.LoopIsFound | src/inmanta/references.py:480-494 | as long as no earlier call has left a token, the walk runs into a loop |
| ReferenceSerialization.NamedUnderHigherLimit | src/inmanta/references.py:71-77 | a cycle that is named is named, with the same trace, however many more nested calls are allowed |
| ReferenceSerialization.EarlyDifferencesNameTheCycle | src/inmanta/references.py:71-77 | a condition on the references alone under which the cycle is always named: any two on cycles differ before any link |
| ReferenceSerialization.SerializeMutual | src/inmanta/references.py:480-494 | two references of one type that are each other's only argument: the call ends in a RecursionError, whatever the limit |
| ReferenceSerialization.SerializeCrossed | src/inmanta/references.py:480-494 | two references on a cycle with the same two arguments in another order: the call ends in a trace that stops at the second one and is no cycle |
| ReferenceSerialization.ReferenceSubCollector.CollectReference | src/inmanta/resources.py:219-237 | terminates, and adds exactly the models of the references in the value and in their arguments |
| ReferenceSerialization.ReferenceSubCollector.CollectReferences | src/inmanta/resources.py:248-286 | returns the value with every reference replaced by null and records exactly the references at their paths |
| ReferenceSerialization.ReferenceSubCollector.CollectReferencesInList | src/inmanta/resources.py:268-272 | the same for a list, item by item |
| ReferenceSerialization.ReferenceSubCollector.CollectReferencesInDict | src/inmanta/resources.py:274-278 | the same for a dict, entry by entry in the order of its keys |
| ReferenceSerialization.ItemFails | src/inmanta/resources.py:268-272 | a list raises what its first item raises from which a cycle, or a reference being serialised, is reached |
| ReferenceSerialization.ReferenceSubCollector.AddReference | src/inmanta/resources.py:239-246 | collects the reference with all it depends on and records its replacement |
| ReferenceSerialization.ReferenceSubCollector.Record | src/inmanta/resources.py:304-317 | one replacement, and for an exporting collector the mutator for it under its own id |
| ReferenceSerialization.Export | src/inmanta/resources.py:515-542 | raises exactly when the fields reach a cycle, also after earlier calls that raised, with the exception for the first reference from which one is reached; otherwise leaves the cleaned fields, a model for each reachable reference and one mutator for each path |
| ResourceResolution.Resource.GetReferenceValue | src/inmanta/resources.py:648-658 | gives the value of the reference behind an id exactly when all models it depends on are known; otherwise KeyError for a missing one |
| ResourceResolution.Resource.Get | src/inmanta/references.py:470-478 | gives the value of the reference and remembers it: the first call resolves it, with its type and its arguments by name, a later one gives what was remembered; no id is resolved twice |
| ResourceResolution.Resource.Resolve | src/inmanta/references.py:470-478 | one call of `resolve`, logged, with the type of the reference and its arguments by name |
| ResourceResolution.Resource.DeserializeArguments | src/inmanta/references.py:337-350 | the arguments by name, each with the value it was serialised from |
| ResourceResolution.Resource.GetArgValue | src/inmanta/references.py:105-200 | gives back the value that the argument was serialised from, references resolved |
| ResourceResolution.Resource.FillIn | src/inmanta/references.py:185-200 | filling in the references of a mutated json value gives the value it was made from |
| ResourceResolution.Resource.LoadModels | src/inmanta/resources.py:664-667 | afterwards the known models are the old ones and those in the references field |
| ResourceResolution.Resource.ResolveAllReferences | src/inmanta/resources.py:660-675 | as long as none has succeeded, a call succeeds exactly when there is nothing to fill in, or the mutators are for this resource and all models are there, also after calls that failed half way; then the fields are the original ones with values for references; later calls do nothing |
| ResourceResolution.ExportThenResolve | src/inmanta/resources.py:515-675 | export on the compiler and resolve on the agent together preserve meaning, for every acyclic heap of references: the fields are what the original ones stand for, and no reference is resolved twice |
| ResourceResolution.ExportThenEcho | src/inmanta/resources.py:515-675 | with a resolver that gives its argument `value` back, the agent finds in the field what was given as that argument |
| PoolProtocol.RunInv | src/inmanta/agent/resourcepool.py:128-299 | the invariant of the protocol holds in every state of every run |
| PoolProtocol.OneCreationInFlight | src/inmanta/agent/resourcepool.py:264-299 | in every run at most one creation is in flight per internal id of a pool |
| PoolProtocol.ReturnedMemberIsInPool | src/inmanta/agent/resourcepool.py:287-299 | in every run: a member that some `get` has returned, and that is not going away, stands in that pool under its id |
| PoolProtocol.OneMemberPerId | src/inmanta/agent/resourcepool.py:264-299 | two calls for one internal id return one member, or one of the two is going away |
| PoolProtocol.LaterGetFindsIt | src/inmanta/agent/resourcepool.py:274-280 | a later call in a running pool finds the member that an earlier one has returned, unless it is going away |
| PoolProtocol.NothingRunningIsDisplaced | src/inmanta/agent/resourcepool.py:287-299 | a new member is stored under its own id in a running pool, in a slot that is empty or holds a member that is shutting down |
| PoolProtocol.NoGrowthAfterShutdown | src/inmanta/agent/resourcepool.py:210-233 | from the end of `request_shutdown` to the next `start` the keys of the pool never grow |
| PoolProtocol.RunsFromStartToShutdown | src/inmanta/agent/resourcepool.py:210-233 | a pool runs from a start to the next shutdown, and not from a shutdown to the next start |
| PoolProtocol.ShutdownReachesEveryPool | src/inmanta/agent/resourcepool.py:136-143 | when `set_shutdown` ends, the member is shut down and no pool holds it, neither one it was registered with at the start nor one that took it in meanwhile |
| PoolProtocol.LateNoticeKeepsReplacement | src/inmanta/agent/resourcepool.py:241-262 | a termination notice removes an entry only if that entry holds the member itself |
| PoolProtocol.FoundMemberIsRunning | src/inmanta/agent/resourcepool.py:274-280 | a `get` that finds a member returns one with the right id that is not shutting down, and marks it used now |
| PoolProtocol.NeverFoundAgain | src/inmanta/agent/resourcepool.py:274-280 | from the request to shut a member down on, no call finds it any more |
| PoolProtocol.NoLockIsLost | src/inmanta/agent/resourcepool.py:270-285 | in every run: a lock that is taken belongs to a `get` or a cleanup of that pool that is still under way |
| PoolProtocol.WaitingIsTemporary | src/inmanta/agent/resourcepool.py:270-285 | no deadlock: a call or pass that waits for its lock can take it, or the task that holds it can go on |
| PoolProtocol.CleanupSparesUsedMembers | src/inmanta/agent/resourcepool.py:405-417 | a pass shuts a member down only if every `get` that found it before the check under the lock did so before the start minus the retention time |
| PoolProtocol.CleanupSparesTouchedMembers | src/inmanta/agent/resourcepool.py:405-417 | the same for a member that its user has touched |
| PoolProtocol.PassLeavesNoneIdle | src/inmanta/agent/resourcepool.py:392-417 | when a pass that can clean every member ends, each member that it listed is going away or has been used since the start minus the retention time |
| PoolProtocol.NextCleanupIsInTime | src/inmanta/agent/resourcepool.py:418-434 | the next wake-up is at least half a second after the end, and no later than the expiry of each surviving member that the pass saw |
| PoolProtocol.NextCleanupIsNotEarly | src/inmanta/agent/resourcepool.py:418-434 | the next wake-up is in half a second, or exactly when some member expires by its last use when the pass looked at it, or one used at the start would |
| PoolObjects.PoolMember.SetShutdown | src/inmanta/agent/resourcepool.py:136-143 | leaves every registered pool with the same entries but for this member |
| PoolObjects.PoolManager.Start | src/inmanta/agent/resourcepool.py:210-218 | both flags of an earlier shutdown are reset, so the pool runs again |
| PoolObjects.PoolManager.NotifyMemberShutdown | src/inmanta/agent/resourcepool.py:241-262 | removes the entry under the member's id exactly when it holds this member, and says so |
| PoolObjects.PoolManager.Get | src/inmanta/agent/resourcepool.py:264-285 | the four outcomes up to the first await, and when a member is touched |
| PoolObjects.PoolManager.Store | src/inmanta/agent/resourcepool.py:287-299 | stores and registers a member with the requested id, and does nothing for another |
| PoolObjects.PoolManager.CleanupInactivePoolMembers | src/inmanta/agent/resourcepool.py:392-434 | an undisturbed pass shuts down exactly the stale members, and the sleep is exactly up to the first expiry of the others, or half a second |
| CacheHeap.CacheItem.constructor | src/inmanta/agent/cache.py:37-72 | the expiry time is the earlier of the deadlines that the positive periods set |
| CacheHeap.CacheItem.Delete | src/inmanta/agent/cache.py:77-81 | the finalizer runs at most once |
| CacheHeap.CacheItem.Refresh | src/inmanta/agent/cache.py:86-97 | moves the expiry, never past the creation deadline |
| CacheHeap.SiftDown | src/inmanta/agent/cache.py:226 | letting an item rise restores the heap order and keeps the items |
| CacheHeap.SiftUp | src/inmanta/agent/cache.py:197 | letting a hole sink and an item rise restores the heap order and keeps the items |
| CacheHeap.HeapPush | src/inmanta/agent/cache.py:226 | a heap of the same items and the new one |
| CacheHeap.HeapPop | src/inmanta/agent/cache.py:197 | the first item, and a heap of the others |
| CacheHeap.Heapify | src/inmanta/agent/cache.py:167 | a heap of the same items, from any order |
| CacheHeap.HeapTopIsLeast | src/inmanta/agent/cache.py:168 | the first item of a heap expires first |
| AgentCache.RetentionPolicy | src/inmanta/agent/cache.py:315-370 | one of the two periods is always positive; the deprecated arguments take their documented effect |
| AgentCache.DeprecatedArguments | src/inmanta/agent/cache.py:315-370 | the values behind the deprecated arguments: a minute, the timeout, or 5000 seconds, unless the periods say otherwise |
| AgentCache.NextActionIsLeast | src/inmanta/agent/cache.py:140-145 | by the invariant `next_action` is the least expiry of the cached items, None for an empty cache |
| AgentCache.FinalizedOnce | src/inmanta/agent/cache.py:77-81 | the finalizer of an item that left the cache ran exactly once, that of one that stayed did not |
| AgentCache.QueueHead | src/inmanta/agent/cache.py:231-232 | comparing the new item with `next_action` finds the head of the new heap |
| AgentCache.Cache.EvictItem | src/inmanta/agent/cache.py:179-189 | deletes the item and its entry; nothing for an unknown key |
| AgentCache.Cache.EvictFirst | src/inmanta/agent/cache.py:197-202 | one turn of the clean-up loop keeps the invariant and removes the entry that expires first |
| AgentCache.Cache.CleanStaleEntries | src/inmanta/agent/cache.py:191-202 | keeps exactly the entries with expiry at or after now; only the others are deleted |
| AgentCache.Cache.TouchUsedCacheItems | src/inmanta/agent/cache.py:154-168 | the expiry of exactly the used items with a period becomes the smaller of now plus the period and the creation deadline, all others stay; none moves back; the heap and its minimum are right again |
| AgentCache.Cache.Close | src/inmanta/agent/cache.py:170-177 | empties the cache and deletes every cached item |
| AgentCache.Cache.Get | src/inmanta/agent/cache.py:204-218 | finds the item, or KeyError; marks it for refresh if its refresh period is not zero |
| AgentCache.Cache.Add | src/inmanta/agent/cache.py:220-232 | adds the item and keeps the invariant, or fails and changes nothing exactly when the key is taken |
| AgentCache.Cache.CacheValue | src/inmanta/agent/cache.py:240-271 | the new entry expires at the earlier of its positive periods, and is marked for refresh if its refresh period is not zero |
| AgentCache.Cache.GetOrElse | src/inmanta/agent/cache.py:285-408 | calls the producer exactly when the key is missing, caches what it gives unless it raises, or it is None and `cache_none` is off, with a finite expiry, touches no other entry, and marks the entry that is found or made for refresh if its refresh period is not zero |
| AgentCache.Cache.UseAndCleanUp | src/inmanta/agent/cache.py:154-218 | an entry that `get_or_else` finds stays in the cache, after a refresh and a clean-up, exactly as long as neither its period since the refresh nor its creation deadline has passed |
| SingleFlight.RunInv | src/inmanta/agent/cache.py:376-408 | the invariant of the lock table, the locks and the cached value holds in every state of every run |
| SingleFlight.NothingDropped | src/inmanta/agent/cache.py:391 | with `cache_none` on, or a producer that never returns None, only eviction drops a value |
| SingleFlight.ProducedOnce | src/inmanta/agent/cache.py:385-404 | as long as nothing is dropped the producer completes at most once, nothing is added twice, and every thread that has a value has that one |
| SingleFlight.ProducersDoNotOverlap | src/inmanta/agent/cache.py:378-390 | as long as nothing is dropped, one thread at a time is in the producer |
| SingleFlight.OneReturnPerLock | src/inmanta/agent/cache.py:406-408 | always: the locks created are the threads that returned after a miss, and the one in the table; removing fails exactly when none is there |
| SingleFlight.NoDeadlock | src/inmanta/agent/cache.py:376-408 | a thread that has not finished can go on, or waits for a lock whose holder can |
| SingleFlight.FoundIsReturned | src/inmanta/agent/cache.py:377-378 | a first look-up that finds a value returns it and takes no part in the locking |
| SingleFlight.SecondMisserFails | src/inmanta/agent/cache.py:406-408 | a run without eviction in which two threads miss at once and the second one ends in KeyError, whatever `cache_none` is |
| SingleFlight.LockStaysExactly | src/inmanta/agent/cache.py:406-408 | no run of n threads ends in that KeyError exactly when n is at most one |
| SingleFlight.DroppedValueBreaksExclusion | src/inmanta/agent/cache.py:391 | a run of three threads without eviction, with `cache_none` off, in which two producers overlap |
| SingleFlight.EvictionBreaksExclusion | src/inmanta/agent/cache.py:376-408 | a run with one eviction, with `cache_none` on, in which two producers overlap |
| SingleFlight.SingleFlightExactly | src/inmanta/agent/cache.py:376-408 | producers never overlap in any run of n threads exactly when n is at most two, or `cache_none` is on and nothing is evicted |
| SingleFlight.AddsOnceExactly | src/inmanta/agent/cache.py:221-222 | "Added same item twice" is raised in no run of n threads under the same condition exactly |
| SingleFlight.DroppedValueAddsTwice | src/inmanta/agent/cache.py:221-222 | how that run ends in "Added same item twice" |
| SingleFlight.EvictionAddsTwice | src/inmanta/agent/cache.py:221-222 | how the run with an eviction ends in "Added same item twice" |
| ValidateGraph.DependencyCycleException.AddToCycle | src/inmanta/export.py:72-76 | collects what the exception passes, up to its start |
| ValidateGraph.CycleFinder.FindCycle | src/inmanta/export.py:317-330 | terminates; finishes the resource after everything it requires, or unwinds with a chain that closes at its start |
| ValidateGraph.Validate | src/inmanta/export.py:311-334 | fails exactly when the requires graph has a cycle, and then with one, no resource twice; otherwise all resources have a topological order, the one in which they were finished |
| ValidateGraph.TopologicalHasNoCycle | src/inmanta/export.py:329-330 | a topological order of all resources excludes cycles |
| DependencyTree.AddsWhatIsReachable | src/inmanta/env.py:278-303 | from any accumulator the fold adds exactly what is reachable without passing through the accumulator |
| DependencyTree.TreeIsReachable | src/inmanta/env.py:264-305 | the result is exactly what the given distributions reach, uninstalled ones being leaves |
| DependencyTree.OrderIsIrrelevant | src/inmanta/env.py:284 | neither the order nor repetitions in the input or in the requirements matter |
| DependencyTree.TreeOfTree | src/inmanta/env.py:278-284 | continuing from one tree gives the tree of both inputs |
| ModuleLoader.WantedIsLeast | src/inmanta/module.py:2185-2216 | the wanted names are the least set closed under parents and imports |
| ModuleLoader.LoadModuleRecursive | src/inmanta/module.py:2174-2247 | terminates; returns every wanted submodule exactly once, parents first, or fails exactly when one of them cannot be loaded |
| ModuleLoader.Loader.LoadSubModule | src/inmanta/module.py:2198-2216 | loads the missing parents and the import, or reports one without a file |
| ModuleLoader.Loader.LoadOne | src/inmanta/module.py:2209-2220 | one submodule is loaded and its imports are queued |
| ModuleLoader.AppendInserts | src/inmanta/module.py:2212 | a new submodule goes behind all others of its module, and nothing else moves |
| CompilerVersions.BestForCompilerVersion | src/inmanta/module.py:2899-2933 | the first version if it needs no newer compiler than this one, else one that does not behind one that does, or none; equal to a linear scan exactly when the first version is suitable or those tried on the way to the first suitable one and behind it are, so whenever suitability is monotone |
| CompilerVersions.EndsAtBoundary | src/inmanta/module.py:2921-2929 | the search ends where suitability begins |
| CompilerVersions.EndsOnTheWay | src/inmanta/module.py:2921-2929 | the search ends at a place with nothing suitable before it exactly when the versions it tries on the way there, from that place on, are suitable |
| CompilerVersions.AgreesOnTheWay | src/inmanta/module.py:2921-2933 | the search finds what a linear scan finds exactly under this condition |
| CompilerVersions.MonotoneIsOnTheWay | src/inmanta/module.py:2921-2933 | the condition holds when suitability is monotone |
| CompilerVersions.SearchMisses | src/inmanta/module.py:2921-2933 | versions for which the search finds none although one is suitable |
| Versions.LeTransitive | src/inmanta/moduletool.py:1058 | the order on versions is transitive |
| Versions.LeTotal | src/inmanta/moduletool.py:1058 | the order is total, and refines the order of the releases |
| Versions.StagesInOrder | src/inmanta/moduletool.py:1058 | of one release, development releases come before pre-releases, these before the final release, and that before post-releases |
| Versions.PreReleasesInOrder | src/inmanta/moduletool.py:1058 | a before b before rc, and by number within one of them |
| Versions.PostReleasesInOrder | src/inmanta/moduletool.py:1058 | a post-release comes after what it follows, and post-releases go by number |
| Versions.DevReleasesInOrder | src/inmanta/moduletool.py:1058 | a development release comes before what it leads to, and development releases go by number |
| Versions.LocalLabelsInOrder | src/inmanta/moduletool.py:1058 | a version without a local label comes before the same with one |
| Versions.ReleasesInOrder | src/inmanta/moduletool.py:1058 | a lower release comes first, whatever follows it |
| Versions.TrailingZeros | src/inmanta/moduletool.py:1058 | trailing zeros of a release make no difference |
| Versions.DiffIsFirstDifference | src/inmanta/moduletool.py:157-179 | the kind of change is the first component that differs; exactly when the raise called unreachable is reached |
| Versions.AtLeastMeans | src/inmanta/moduletool.py:150-154 | which changes are at least the requested one, by name |
| Versions.DiffByName | src/inmanta/moduletool.py:157-172 | for three components: major, minor, patch or none by the first component that differs |
| Versions.DiffNeedsOrder | src/inmanta/moduletool.py:165-166 | the two errors, and exactly when the versions are in the wrong order |
| Versions.FourComponentsAreEnough | src/inmanta/moduletool.py:179 | up to four components the raise is unreachable |
| Versions.UnreachableIsReached | src/inmanta/moduletool.py:179 | two versions that reach it |
| Versions.BumpVersion | src/inmanta/moduletool.py:203-237 | the components before the bumped one stay, that one grows by one, and nothing but zeros up to three components follows, for each kind of change |
| Versions.BumpedIsGreater | src/inmanta/moduletool.py:1103-1106 | a bumped version is greater than everything up to the version, whatever its tag |
| Versions.BumpedIsFurther | src/inmanta/moduletool.py:1082-1086 | `diff(p, bump(c, v)) >= c` for every p up to v, for releases of any length |
| Versions.BumpedIsNotNearer | src/inmanta/moduletool.py:1088-1106 | bumping by any kind of change never lessens the distance to p |
| Versions.LargestIsLargest | src/inmanta/moduletool.py:1058-1061 | the previous release is a greatest stable one not above the current version |
| Versions.CandidateKeepsInvariants | src/inmanta/moduletool.py:1071-1106 | the three invariants of the comments, for every branch |
| Versions.DevVersionKeepsInvariants | src/inmanta/moduletool.py:1046-1120 | what is returned is a dev version, the current one or one tagged dev0, not below the current one, with no stable release between, and at least the requested change away from the previous release; up to four components, from every stable release up to it |
| Versions.DevVersionStaysClose | src/inmanta/moduletool.py:1071-1106 | it is no further away than one step of the requested kind, or of a patch when the current version is far enough; a dev version that is far enough stays |
| Versions.DevVersionSettles | src/inmanta/moduletool.py:1046-1120 | asking again for the same change gives the same version |
| Versions.FinalOfDevIsNotPrevious | src/inmanta/moduletool.py:1058-1118 | the final release of the current development release is never its previous release; once it is released, the result is the current version or an error |
| Versions.DevVersionFails | src/inmanta/moduletool.py:1057-1119 | each error, and exactly when |
| CallBinding.BindsWhenItFits | src/inmanta/plugins.py:961-1089 | filling the slots of the language reference succeeds exactly when the call fits, for every signature and call |
| CallBinding.BoundSlot | src/inmanta/plugins.py:961-1089 | then every parameter has one value: by position, by name, or its default |
| Plugins.Plugin.LoadSignature | src/inmanta/plugins.py:754-849 | stores the parameters, or fails exactly when one has no annotation |
| Plugins.Plugin.LoadPositional | src/inmanta/plugins.py:803-835 | the positional parameters with the positions that the loop gives them |
| Plugins.Plugin.LoadKeywordOnly | src/inmanta/plugins.py:837-849 | the keyword-only parameters, added to both dicts |
| Plugins.PositionsAreIndices | src/inmanta/plugins.py:803-833 | every stored position is the index of its argument exactly when at most one Context comes before each |
| Plugins.MissingPositionalAre | src/inmanta/plugins.py:982-991 | the arguments that are given neither by position nor by name and have no default |
| Plugins.Plugin.CheckArgs | src/inmanta/plugins.py:961-1089 | accepts exactly when the checks pass and the parameter that takes each known value can convert it; every value is converted in its place by that parameter, an unknown stays unknown, and each error is true of the call |
| Plugins.Plugin.ConvertArgs | src/inmanta/plugins.py:1056-1067 | converts each known positional value by the parameter at its position; unknown values are passed on and noted |
| Plugins.Plugin.ConvertKwargs | src/inmanta/plugins.py:1069-1087 | converts each known keyword value by the parameter of its name; no such argument, or one given twice, is an error |
| Plugins.ConvertedAsBound | src/inmanta/plugins.py:1056-1087 | a value is converted by the parameter to which Python would bind it |
| Plugins.LastParametersHaveDefaults | src/inmanta/plugins.py:803-833 | a loaded plugin has the parameters of its signature in order, and the last ones have the defaults |
| Plugins.KeywordOnlyDefaults | src/inmanta/plugins.py:837-849 | of the keyword-only parameters those have a default that the signature gives one |
| Plugins.LookUpAny | src/inmanta/plugins.py:911-929 | the dict of all arguments holds each parameter under its name |
| Plugins.AcceptsWhatBinds | src/inmanta/plugins.py:961-1089 | the check accepts a call exactly when Python would bind it to the parameters other than the Context |
| Plugins.TwoContextsPassTooMuch | src/inmanta/plugins.py:820-824 | behind a second Context some call with two values for a parameter is accepted |
| Plugins.ContextReachesItsParameter | src/inmanta/ast/statements/call.py:264-269 | the accepted call binds with the inserted Context in its parameter exactly when the arguments before it are passed by position and no keyword has its name |
| Plugins.ContextMissesItsParameter | src/inmanta/ast/statements/call.py:264-269 | with fewer, it can only bind to another parameter |
| Plugins.AcceptedCallFails | src/inmanta/ast/statements/call.py:264-269 | a signature and a call, with an argument before the Context passed by name, that is accepted and then refused by Python |
| Plugins.AcceptedContextNameFails | src/inmanta/ast/statements/call.py:264-269 | a signature and a call, with the name of the Context among the keywords, that is accepted and then refused by Python |
| ResourceIds.SearchIsMatch | src/inmanta/resources.py:774-777 | the expression matches a string in one way at most, and the parser finds it exactly when there is one |
| ResourceIds.WordCharacters | src/inmanta/resources.py:774-777 | which characters a type may have, by code point |
| ResourceIds.NamespacedTypes | src/inmanta/resources.py:774-777 | a type is a word in a namespace, neither of them empty |
| ResourceIds.DigitsAreDecimal | src/inmanta/resources.py:896-907 | the version is printed in decimal without leading zeros |
| ResourceIds.PrintedForms | src/inmanta/resources.py:872-907 | an id in both forms |
| ResourceIds.ParseUndoesVersionStr | src/inmanta/resources.py:896-907 | parsing undoes the printer with the version |
| ResourceIds.ParseUndoesResourceStr | src/inmanta/resources.py:872-894 | parsing undoes the printer without it, the version being the one passed in or zero |
| ResourceIds.ParseUndoesStr | src/inmanta/resources.py:861-864 | parsing undoes the string form |
| ResourceIds.RoundTripExactly | src/inmanta/resources.py:934-954 | an id survives printing and parsing exactly when its type is a namespaced word and no part is empty |
| ResourceIds.ParsesExactly | src/inmanta/resources.py:934-954 | a string is parsed exactly when it matches with no comma in the attribute, and the groups are the components |
| ResourceIds.ParsedIsParseable | src/inmanta/resources.py:934-954 | whatever is parsed can be printed and parsed again |
| ResourceIds.SetVersionChangesVersion | src/inmanta/resources.py:979-985 | only the version changes |
| ResourceIds.StrIsInjective | src/inmanta/resources.py:866-870 | ids are equal exactly when their strings and their types are, for all ids that can be constructed; the strings are enough when neither type holds a bracket |
| ResourceIds.BracketsClash | src/inmanta/resources.py:866-870 | two ids, one with a bracket in its type, that differ and have one string |

## Left out

- ReferenceSerialization.SerializeReference: arguments that fail to serialise, after which the cycle token stays set, and the nested calls of serialisation itself; only those of the comparison count against the limit.
- ReferenceEquality.Equal: arguments and dicts are compared in the order of the left operand, and nested operands keep their sides, which CPython decides; attributes are those that are arguments; no NaN.
- ReferenceSerialization.ReferenceSubCollector.CollectReferences: plain lists, dicts and scalars only; dynamic proxies and unknowns are not modelled.
- ReferenceSerialization.ReferenceSubCollector: the exporting subclass is folded in as an optional resource.
- ReferenceSerialization.Export: the collected models and mutators are listed in any order; the source sorts them by uuid.
- JsonTrees.IdOfInjective: an id is the content that the source hashes, so md5 and uuid3 count as injective; paths are sequences of keys and indices, not jsonpath strings.
- ResourceResolution.Resource.GetArgValue: resource, python-type and get arguments, references whose `resolve` raises, and the in-place change of the cached json value (a second filling in is covered by the second clause of ReplayInAnyOrder).
- PoolProtocol: `NamedLock` is assumed to be a mutex per name with a global lock that excludes all named holders; `src/inmanta/util/__init__.py` is not part of this model. Hooks only request shutdowns; overridden shutdown methods, exceptions during cleanup and the liveness of the cleanup task are left out.
- PoolProtocol.NextCleanupIsInTime: for a member that the pass did not list, the bound needs that it was used since the pass started.
- PoolObjects.PoolManager.CleanupInactivePoolMembers: the pass without interruption; the interleaved one is in PoolProtocol.
- CacheHeap: heapq is Python's, so its loops are modelled from its published algorithm, with the item swapped along instead of a hole that moves; the heap is a sequence that the loops reassign, since a Python list grows and shrinks; times are real numbers, and deadlines do not pass the largest float.
- AgentCache.Cache.GetOrElse: a producer that itself uses the cache.
- AgentCache: the composition of keys from arguments and the resource, `__del__`, finalizers that raise or call the cache, and the locks, which are in SingleFlight.
- SingleFlight: one key; the cache is a single optional value.
- ValidateGraph: the drawing of the graph as a dot file, and recursion limits.
- DependencyTree: the evaluation of markers and the parsing of requirement strings; the requirements that apply are given.
- ModuleLoader.LoadModuleRecursive: the order between different top-level modules, syntax trees, and reading files; `done` is one set instead of one per top-level module.
- CompilerVersions: reading the module metadata of each version.
- Versions: epochs; local labels are given by their rank.
- Plugins.AcceptsWhatBinds: positional-only parameters, which `getfullargspec` lists among the others and the source does not support (`src/inmanta/plugins.py:916`); called by name they are accepted and then refused by Python.
- Plugins.Plugin.CheckArgs: the texts of the errors; keyword-only names that are missing are a set.
- ResourceIds: word characters outside ASCII; negative versions.
- `PythonWorkingSet.are_installed`, command lines, package installation, loaders and configuration: not modelled, as they depend on tools outside.
