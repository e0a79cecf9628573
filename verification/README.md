# Gameplay tag values: a Dafny model of the resolution engine

This project models the core of the GamplayTagValue plugin:
`UGameplayTagValueSubsystem` and the stores it resolves over. A gameplay
tag is a dotted hierarchical name, here a sequence of segments. Values are
attached to tags in a chain of named, prioritised repositories. A lookup
walks from the tag towards the root. At each level it scans every
repository in chain order, and it moves to the parent only when no
repository holds that level. So an exact match in a low-priority
repository beats a parent-tag value in a high-priority one.

Modules, following the source's structure:

- `Basics`: `Option`, the `int32` range, names (`FName`) as strings, and `NAME_None`.
- `Tags`: tags, `RequestDirectParent`, and the levels of a tag (the tag, then its ancestors).
- `TagValueHolder`: the type-erased `TTagValueHolder<T>` over the seven value kinds of `ETagValueType`.
- `TagValueBase`: the `FBaseTagValue` hierarchy, its type names, `operator==` and `Serialize`.
- `MemoryRepository`: `FMemoryTagValueRepository`, a hash map.
- `RepositoryComponent`: `UTagValueRepositoryComponent`, an array of tag/value mappings.
- `Repository`: the `ITagValueRepository` contract, dispatching over the two implementations.
- `RepositoryChain`: the priority-sorted `Repositories` array, with register, unregister and lookup by name.
- `Resolution`: `HasTagValue`, `GetRawValue`, `TryGetValueFromContext`, `TryGetValueFromRepositories` and `GetTypedValue`.
- `Subsystem`: `Initialize`, `GetBestRepository`, `SetRawValue`, `SetTypedValue`, `RemoveTagValue`, `ClearAllValues` and `GetAllTags`.
- `TagValueContainer`: the standalone `FTagValueContainer` map.

The subsystem's state is its repository chain. Every mutating operation
is a function from the old chain to a success flag and the new chain. A
context object (`ITagValueInterface`) is a record of functions passed per
call: whether it reports a tag, and one getter per value type. `None` stands for a
null context or an object that does not implement the interface.

Three behaviours of the code a reader might not expect:

- A write with no repository name goes to the repository named "Default", not to the repository of highest priority.
- No change notification is raised. The delegate is declared, but nothing defines or broadcasts it.
- The chain is re-sorted with an unstable sort, so the order of equal-priority repositories is not promised. The model promises only a sorted permutation.

## Model

| member | source | states |
|---|---|---|
| Tags.Parent | Source/GamplayTagValue/Private/GameplayTagValueSubsystem.cpp:157-158 | the parent drops the last segment and is a prefix of the tag; it is valid exactly when the tag has at least two segments |
| Tags.IsValid | Source/GamplayTagValue/Private/GameplayTagValueSubsystem.cpp:213 | `FGameplayTag::IsValid`: a tag is valid exactly when it has at least one segment; the empty tag stands for the invalid tag |
| Tags.LevelsShape | Source/GamplayTagValue/Private/GameplayTagValueSubsystem.cpp:193-206 | the levels the ancestor walk visits: the tag first, each next level the parent of the previous one, one level per segment, all valid, ending where the parent becomes invalid |
| Tags.LevelsAreAncestors | Source/GamplayTagValue/Private/GameplayTagValueSubsystem.cpp:193-206 | for a valid tag, a tag is visited by the walk exactly when it is an ancestor-or-self of it |
| TagValueHolder.MakeHolder | Source/GamplayTagValue/Public/TagValueInterface.h:43-49 | a holder exposes exactly the payload it was built with, and its type name is the kind of that payload |
| TagValueHolder.ValuePtr | Source/GamplayTagValue/Public/TagValueInterface.h:46 | `GetValuePtr`: the payload the holder stores |
| TagValueHolder.TypeName | Source/GamplayTagValue/Public/TagValueInterface.h:49 | `GetValueTypeName`: the kind of the stored payload, so a function of the type alone |
| TagValueHolder.Clone | Source/GamplayTagValue/Public/TagValueInterface.h:52-55 | a clone has the same type name and an equal payload |
| TagValueHolder.IsValidHolder | Source/GamplayTagValue/Public/TagValueInterface.h:58 | a holder always reports itself valid |
| TagValueBase.GetValueType | Source/GamplayTagValue/Public/TagValueBase.h:20-148 | the base reports `NAME_None`, and no subtype does |
| TagValueBase.DefaultOf | Source/GamplayTagValue/Public/TagValueBase.h:43-145 | the default-constructed value of each of the seven subtypes reports that subtype's name; any other name selects the base |
| TagValueBase.DefaultConstructors | Source/GamplayTagValue/Public/TagValueBase.h:43-145 | the default constructors give Bool false, Int 0, Float 0, Transform identity, empty paths and the empty string |
| TagValueBase.Equals | Source/GamplayTagValue/Private/TagValueBase.cpp:10-15 | `operator==`: two values are equal exactly when they report the same type name |
| TagValueBase.EqualsIffSameSubtype | Source/GamplayTagValue/Private/TagValueBase.cpp:10-15 | the type names are pairwise distinct, so `operator==` holds exactly for two values of the same subtype |
| TagValueBase.EqualsIgnoresPayload | Source/GamplayTagValue/Private/TagValueBase.cpp:10-15 | any two values of one subtype compare equal whatever their payloads, so `operator==` is strictly coarser than equality (Int 1 and Int 2 compare equal) |
| TagValueBase.Serialize | Source/GamplayTagValue/Private/TagValueBase.cpp:3-8 | serialisation reports success and changes neither the value nor the archive |
| MemoryRepository.NewMemoryRepository | Source/GamplayTagValue/Private/GameplayTagValueSubsystem.cpp:14-18 | a new repository has the given name and priority and holds nothing |
| MemoryRepository.HasValue | Source/GamplayTagValue/Private/GameplayTagValueSubsystem.cpp:20-23 | a tag is held exactly when it is a key of the map |
| MemoryRepository.GetValue | Source/GamplayTagValue/Private/GameplayTagValueSubsystem.cpp:20-29 | the stored holder exactly when the tag is held, null otherwise |
| MemoryRepository.SetValue | Source/GamplayTagValue/Private/GameplayTagValueSubsystem.cpp:31-37 | a valid tag with a non-null holder is upserted; otherwise nothing changes; other tags keep their holders |
| MemoryRepository.RemoveValue | Source/GamplayTagValue/Private/GameplayTagValueSubsystem.cpp:39-42 | the tag is no longer held, the key set loses exactly that tag, and other tags keep their holders |
| MemoryRepository.ClearAllValues | Source/GamplayTagValue/Private/GameplayTagValueSubsystem.cpp:44-47 | nothing is held afterwards; name and priority are kept |
| MemoryRepository.EnumerateTags | Source/GamplayTagValue/Private/GameplayTagValueSubsystem.cpp:294-296 | listing the keys of a set gives each member once and nothing else |
| MemoryRepository.GetAllTags | Source/GamplayTagValue/Private/GameplayTagValueSubsystem.cpp:49-54 | every held tag exactly once, as many as there are entries |
| MemoryRepository.SetThenGet | Source/GamplayTagValue/Private/GameplayTagValueSubsystem.cpp:31-37 | after setting a valid tag, the tag is held and reads back the holder just written |
| MemoryRepository.ClearIdempotent | Source/GamplayTagValue/Private/GameplayTagValueSubsystem.cpp:44-47 | clearing twice is clearing once |
| RepositoryComponent.NewComponent | Source/GamplayTagValue/Private/TagValueRepositoryComponent.cpp:6-16 | a new component is named "ActorComponentRepository", has priority 100 and holds nothing |
| RepositoryComponent.HasValue | Source/GamplayTagValue/Private/TagValueRepositoryComponent.cpp:76-87 | true exactly when some mapping carries the tag, which is exactly when the front-to-back search finds a first match |
| RepositoryComponent.FirstIndexOf | Source/GamplayTagValue/Private/TagValueRepositoryComponent.cpp:76-101 | the first mapping carrying the tag, or none when no mapping does |
| RepositoryComponent.SetMapping | Source/GamplayTagValue/Private/TagValueRepositoryComponent.cpp:151-169 | the first mapping of the tag, and no other index, is updated in place even when the tag appears again later; with no mapping of the tag one is appended; no mapping of another tag changes and no duplicate tag is introduced |
| RepositoryComponent.FirstIndexUnique | Source/GamplayTagValue/Private/TagValueRepositoryComponent.cpp:76-101 | an index carrying the tag with no earlier mapping carrying it is the index `FirstIndexOf` finds |
| RepositoryComponent.RemoveMapping | Source/GamplayTagValue/Private/TagValueRepositoryComponent.cpp:171-182 | only the first mapping of the tag is removed and the rest keep their order; with unique tags the tag is then absent |
| RepositoryComponent.SetTagValueMapping | Source/GamplayTagValue/Private/TagValueRepositoryComponent.cpp:151-169 | the array loop computes the in-place update or the append |
| RepositoryComponent.RemoveTagValueMapping | Source/GamplayTagValue/Private/TagValueRepositoryComponent.cpp:171-182 | the array loop removes the first match only |
| RepositoryComponent.ConvertHolderToTagValue | Source/GamplayTagValue/Private/TagValueRepositoryComponent.cpp:201-250 | a non-null holder of one of the six recognised kinds converts into that field; a null or string holder is refused |
| RepositoryComponent.ConvertTagValueToHolder | Source/GamplayTagValue/Private/TagValueRepositoryComponent.cpp:189-199 | the conversion back always yields a bool holder of the bool field |
| RepositoryComponent.GetValue | Source/GamplayTagValue/Private/TagValueRepositoryComponent.cpp:89-101 | null for an absent tag; for a present tag, a bool holder built from its first mapping |
| RepositoryComponent.RemoveValue | Source/GamplayTagValue/Private/TagValueRepositoryComponent.cpp:121-124 | removal is the removal of the first mapping of the tag |
| RepositoryComponent.SetValue | Source/GamplayTagValue/Private/TagValueRepositoryComponent.cpp:103-119 | a null holder removes the tag; a string holder changes nothing; any other holder is stored with the in-place-or-append rule; unique tags stay unique |
| RepositoryComponent.ClearAllValues | Source/GamplayTagValue/Private/TagValueRepositoryComponent.cpp:126-129 | zero mappings remain |
| RepositoryComponent.GetAllTags | Source/GamplayTagValue/Private/TagValueRepositoryComponent.cpp:131-139 | the mapping tags in array order, one per mapping |
| RepositoryComponent.SetThenGet | Source/GamplayTagValue/Private/TagValueRepositoryComponent.cpp:89-119 | a bool written reads back unchanged; any other recognised kind reads back as a different, bool holder |
| RepositoryComponent.RemoveThenHas | Source/GamplayTagValue/Private/TagValueRepositoryComponent.cpp:121-124 | with unique tags, a removed tag is absent and every other tag keeps its presence |
| Repository.HasValue | Source/GamplayTagValue/Public/TagValueInterface.h:75 | `HasValue` dispatched to the memory or component implementation |
| Repository.RepositoryName | Source/GamplayTagValue/Public/TagValueInterface.h:93 | `GetRepositoryName` dispatched to the implementation: the name it was constructed with |
| Repository.Priority | Source/GamplayTagValue/Public/TagValueInterface.h:96 | `GetPriority` dispatched to the implementation: the priority it was constructed with |
| Repository.GetValue | Source/GamplayTagValue/Public/TagValueInterface.h:74-78 | a repository returns a holder exactly when it holds the tag |
| Repository.SetValue | Source/GamplayTagValue/Public/TagValueInterface.h:80-81 | a write keeps name, priority and well-formedness; in a memory repository it stores the holder and leaves other tags alone |
| Repository.RemoveValue | Source/GamplayTagValue/Public/TagValueInterface.h:83-84 | a removal keeps well-formedness, makes the tag absent in a well-formed repository, and leaves other tags' presence alone |
| Repository.ClearAllValues | Source/GamplayTagValue/Public/TagValueInterface.h:86-87 | a cleared repository holds nothing |
| Repository.GetAllTags | Source/GamplayTagValue/Public/TagValueInterface.h:89-90 | exactly the held tags, each once in a well-formed repository |
| RepositoryChain.Insert | Source/GamplayTagValue/Private/GameplayTagValueSubsystem.cpp:103-107 | one insertion step of the re-sort adds exactly the new repository |
| RepositoryChain.InsertKeepsSorted | Source/GamplayTagValue/Private/GameplayTagValueSubsystem.cpp:103-107 | inserting into a sorted chain keeps it in non-increasing priority order |
| RepositoryChain.InsertKeepsUniqueNames | Source/GamplayTagValue/Private/GameplayTagValueSubsystem.cpp:103-107 | inserting a repository of a new name keeps names unique |
| RepositoryChain.SortByPriority | Source/GamplayTagValue/Private/GameplayTagValueSubsystem.cpp:103-107 | the re-sort yields a permutation in non-increasing priority order, with no promise about ties |
| RepositoryChain.SortKeepsUniqueNames | Source/GamplayTagValue/Private/GameplayTagValueSubsystem.cpp:103-107 | sorting keeps names unique |
| RepositoryChain.Unregister | Source/GamplayTagValue/Private/GameplayTagValueSubsystem.cpp:110-116 | no repository of the name remains, and nothing new appears |
| RepositoryChain.UnregisterCounts | Source/GamplayTagValue/Private/GameplayTagValueSubsystem.cpp:110-116 | every repository of the name is dropped and every other one keeps its number of occurrences |
| RepositoryChain.UnregisterKeepsSorted | Source/GamplayTagValue/Private/GameplayTagValueSubsystem.cpp:110-116 | removal keeps priority order |
| RepositoryChain.UnregisterKeepsUniqueNames | Source/GamplayTagValue/Private/GameplayTagValueSubsystem.cpp:110-116 | removal keeps names unique |
| RepositoryChain.Register | Source/GamplayTagValue/Private/GameplayTagValueSubsystem.cpp:90-108 | a null repository is ignored; otherwise the chain is sorted, the new repository appears once and is the only one of its name, and every repository of another name is kept |
| RepositoryChain.RegisterKeepsUniqueNames | Source/GamplayTagValue/Private/GameplayTagValueSubsystem.cpp:90-108 | registration keeps names unique |
| RepositoryChain.RegisterMembers | Source/GamplayTagValue/Private/GameplayTagValueSubsystem.cpp:90-108 | after registration the new repository is present, nothing else is new, and every repository of another name is still present |
| RepositoryChain.Find | Source/GamplayTagValue/Private/GameplayTagValueSubsystem.cpp:118-129 | the first repository of the name in chain order, or none exactly when no repository has that name |
| RepositoryChain.GetRepository | Source/GamplayTagValue/Public/GameplayTagValueSubsystem.h:85-90 | a registered repository of that name, or null exactly when none is registered |
| RepositoryChain.FindUnique | Source/GamplayTagValue/Private/GameplayTagValueSubsystem.cpp:118-129 | with unique names, lookup finds the only repository of that name |
| RepositoryChain.UpdatePreservesInvariants | Source/GamplayTagValue/Public/GameplayTagValueSubsystem.h:307-308 | replacing a repository by one of the same name and priority keeps the chain sorted and uniquely named |
| Resolution.FirstHolder | Source/GamplayTagValue/Private/GameplayTagValueSubsystem.cpp:184-191 | the first repository in chain order holding exactly the tag, or none when no repository does |
| Resolution.Locate | Source/GamplayTagValue/Private/GameplayTagValueSubsystem.cpp:175-209 | the search stops at the first level any repository holds, at the first repository holding it; it finds nothing exactly when no level is held |
| Resolution.LocateUnique | Source/GamplayTagValue/Private/GameplayTagValueSubsystem.cpp:175-209 | the stopping point is the least level held, then the least repository index at that level |
| Resolution.Resolve | Source/GamplayTagValue/Private/GameplayTagValueSubsystem.cpp:175-209 | resolution yields a holder exactly when some repository holds some level of the tag |
| Resolution.GetRawValue | Source/GamplayTagValue/Private/GameplayTagValueSubsystem.cpp:175-209 | the source's exact-match loop and parent loop compute the reference resolution, whatever the context |
| Resolution.HasTagValue | Source/GamplayTagValue/Private/GameplayTagValueSubsystem.cpp:136-173 | true exactly when the context reports the tag or some repository holds the tag or an ancestor |
| Resolution.HasTagValueAgreesWithGetRawValue | Source/GamplayTagValue/Private/GameplayTagValueSubsystem.cpp:136-209 | without a context, `HasTagValue` holds exactly when `GetRawValue` finds a holder |
| Resolution.ResolveNoneIffNoAncestorHeld | Source/GamplayTagValue/Private/GameplayTagValueSubsystem.cpp:175-209 | for a valid tag, nothing resolves exactly when no repository holds any ancestor-or-self of it |
| Resolution.ResolveFindsDeepestHeldAncestor | Source/GamplayTagValue/Private/GameplayTagValueSubsystem.cpp:175-209 | a resolved value comes from the first repository holding the deepest ancestor-or-self held by any repository |
| Resolution.ContextOnlyAffectsHasTagValue | Source/GamplayTagValue/Private/GameplayTagValueSubsystem.cpp:138-182 | a context reporting an otherwise unheld tag makes `HasTagValue` true while `GetRawValue` finds nothing |
| Resolution.ExactMatchWins | Source/GamplayTagValue/Private/GameplayTagValueSubsystem.cpp:184-191 | when any repository holds the tag itself, the first such repository supplies the value, whatever ancestors are held |
| Resolution.SoleHolderResolves | Source/GamplayTagValue/Private/GameplayTagValueSubsystem.cpp:184-191 | a tag held by a single repository resolves to that repository's value |
| Resolution.SoleHolderGetTyped | Source/GamplayTagValue/Private/GameplayTagValueSubsystem.cpp:600-652 | a tag held by one repository only reads back, through the typed getter without a context, the payload its holder was made from |
| Resolution.LowPriorityExactBeatsHighPriorityParent | Source/GamplayTagValue/Private/GameplayTagValueSubsystem.cpp:175-209 | a lower-priority repository's exact match beats a higher-priority repository's parent-tag value |
| Resolution.FallsBackToParent | Source/GamplayTagValue/Private/GameplayTagValueSubsystem.cpp:193-206 | with no exact match, resolving a tag is resolving its parent |
| Resolution.ResolvedRepositoryHasTopPriority | Source/GamplayTagValue/Public/TagValueInterface.h:95-96 | in a sorted chain, the repository supplying an exact match has at least the priority of every other holder of the tag |
| Resolution.HighestPriorityExactMatchWins | Source/GamplayTagValue/Public/TagValueInterface.h:95-96 | in a sorted chain, the holder of strictly highest priority supplies the value |
| Resolution.ContextGetter | Source/GamplayTagValue/Private/GameplayTagValueSubsystem.cpp:565-597 | the context getter of the requested type is called with the tag and the default, so the result has the requested type; strings have no getter |
| Resolution.TryGetValueFromContext | Source/GamplayTagValue/Private/GameplayTagValueSubsystem.cpp:550-598 | a value comes from the context exactly when it is present, reports the tag and the type has a typed getter (not strings) |
| Resolution.TryGetValueFromRepositories | Source/GamplayTagValue/Private/GameplayTagValueSubsystem.cpp:600-627 | the resolved payload, exactly when something resolves and its type name is the requested one |
| Resolution.GetTypedValue | Source/GamplayTagValue/Private/GameplayTagValueSubsystem.cpp:629-652 | the result always has the requested type; an invalid tag gives the default; a reporting context wins; otherwise the resolved value of the requested type, or the default |
| Resolution.ContextWins | Source/GamplayTagValue/Private/GameplayTagValueSubsystem.cpp:638-642 | a context reporting the tag decides the result whatever the repositories hold |
| Resolution.TypeMismatchYieldsDefault | Source/GamplayTagValue/Private/GameplayTagValueSubsystem.cpp:610-616 | a resolved holder of another type is a miss, so the default comes back |
| Subsystem.Initialize | Source/GamplayTagValue/Private/GameplayTagValueSubsystem.cpp:70-80 | the chain holds only an empty memory repository named "Default" at priority 100, the target of unnamed writes; this holds because `RegisterConfiguredDataAssets`, which can import values into "Default", is not modelled |
| Subsystem.InitializeIsEmptyDefault | Source/GamplayTagValue/Private/GameplayTagValueSubsystem.cpp:70-80 | the initial chain consists of empty memory repositories and has a "Default" one |
| Subsystem.Deinitialize | Source/GamplayTagValue/Private/GameplayTagValueSubsystem.cpp:82-88 | afterwards no write has a target and nothing resolves |
| Subsystem.GetBestRepository | Source/GamplayTagValue/Private/GameplayTagValueSubsystem.cpp:519-533 | the named repository when given and registered, else the one named "Default", else none |
| Subsystem.SetRawValue | Source/GamplayTagValue/Private/GameplayTagValueSubsystem.cpp:211-226 | fails and changes nothing for an invalid tag, a null holder or no target; otherwise writes to the target only, keeping the chain invariant |
| Subsystem.SetTypedValue | Source/GamplayTagValue/Private/GameplayTagValueSubsystem.cpp:654-664 | fails for an invalid tag or no target; otherwise only the target changes, by the repository write of a fresh holder of the payload, and a memory target reads it back |
| Subsystem.StringWriteToComponentReportsSuccess | Source/GamplayTagValue/Private/GameplayTagValueSubsystem.cpp:218-225 | success reflects target selection only: a string written to a component reports success and changes nothing |
| Subsystem.SetRawThenResolve | Source/GamplayTagValue/Private/GameplayTagValueSubsystem.cpp:175-226 | a holder written to a memory repository with no earlier holder of the tag is what `GetRawValue` returns |
| Subsystem.SetTypedThenGetTyped | Source/GamplayTagValue/Private/GameplayTagValueSubsystem.cpp:629-664 | a payload set into such a repository comes back from `GetTypedValue` for a default of the same type |
| Subsystem.RemoveEverywhere | Source/GamplayTagValue/Private/GameplayTagValueSubsystem.cpp:248-258 | the unnamed removal succeeds exactly when some repository held the tag, leaves it in no well-formed repository, and touches no other tag |
| Subsystem.RemoveTagValue | Source/GamplayTagValue/Private/GameplayTagValueSubsystem.cpp:228-261 | an invalid tag fails; a named removal touches only that repository and succeeds exactly when it held the tag; an unnamed one removes everywhere and succeeds exactly when some repository held it |
| Subsystem.NamedTargetIsUnique | Source/GamplayTagValue/Private/GameplayTagValueSubsystem.cpp:118-129 | under the chain invariant, a named lookup designates the only repository of that name |
| Subsystem.SameNamesAndPrioritiesKeepInvariants | Source/GamplayTagValue/Public/GameplayTagValueSubsystem.h:307-308 | keeping names, priorities and well-formedness index by index keeps the chain invariant |
| Subsystem.ClearAllValues | Source/GamplayTagValue/Private/GameplayTagValueSubsystem.cpp:263-282 | a named clear empties only that repository, an unknown name changes nothing, and an unnamed clear empties all |
| Subsystem.ClearIdempotent | Source/GamplayTagValue/Public/GameplayTagValueSubsystem.h:253-258 | a second clear changes nothing |
| Subsystem.FindDependsOnlyOnNames | Source/GamplayTagValue/Private/GameplayTagValueSubsystem.cpp:118-129 | lookup by name depends only on the names in the chain |
| Subsystem.GetAllTags | Source/GamplayTagValue/Private/GameplayTagValueSubsystem.cpp:284-298 | every tag held by some repository, each exactly once, and nothing else |
| Subsystem.RegisterKeepsInvariant | Source/GamplayTagValue/Private/GameplayTagValueSubsystem.cpp:90-108 | registering a well-formed repository keeps the chain sorted, uniquely named and well formed |
| Subsystem.UnregisterKeepsInvariant | Source/GamplayTagValue/Private/GameplayTagValueSubsystem.cpp:110-116 | unregistering keeps the chain invariant |
| Subsystem.RegisterEmptyMemory | Source/GamplayTagValue/Private/GameplayTagValueSubsystem.cpp:90-108 | registering an empty memory repository keeps every repository an empty memory one |
| Subsystem.RegisterNames | Source/GamplayTagValue/Private/GameplayTagValueSubsystem.cpp:90-108 | registration adds the new name and keeps every other name |
| Subsystem.SampleChain | Source/GamplayTagValue/Private/GamplayTagValue.cpp:79-86 | registering "Config" at 200 and "Runtime" at 50 next to "Default" keeps all three names |
| Subsystem.WriteToMemoryTarget | Source/GamplayTagValue/Private/GameplayTagValueSubsystem.cpp:211-226 | a typed write whose target is a memory repository succeeds, stores the payload there, keeps that repository's other tags, and leaves every other repository and every name as it was |
| Subsystem.SampleWriteTargets | Source/GamplayTagValue/Private/GameplayTagValueSubsystem.cpp:211-226 | an unnamed write lands in "Default" and a write named "Runtime" lands there, each tag then held by its target only |
| Subsystem.SampleScenario | Source/GamplayTagValue/Private/GamplayTagValue.cpp:79-86 | with Health = 100 in "Default" and Health.Max = 150 in "Runtime", Health.Max reads 150 and Health reads 100 |
| TagValueContainer.NewContainer | Source/GamplayTagValue/Public/TagValueContainer.h:21-22 | a new container is empty |
| TagValueContainer.HasValue | Source/GamplayTagValue/Public/TagValueContainer.h:60-63 | a tag is held exactly when it is a key of the map |
| TagValueContainer.Num | Source/GamplayTagValue/Public/TagValueContainer.h:98-101 | the number of stored tags, the size of the map |
| TagValueContainer.SetValue | Source/GamplayTagValue/Public/TagValueContainer.h:29-33 | the tag then holds the value, other tags are untouched, and `Num` grows only for a new tag |
| TagValueContainer.GetValue | Source/GamplayTagValue/Public/TagValueContainer.h:41-53 | as written: found exactly when the tag is present, handing out the stored value of whatever subtype; an absent tag leaves the out value alone |
| TagValueContainer.GetValueChecked | Source/GamplayTagValue/Public/TagValueContainer.h:35-40 | as documented: found exactly when present and of the requested subtype; otherwise the out value is left alone |
| TagValueContainer.GetValueIgnoresSubtype | Source/GamplayTagValue/Public/TagValueContainer.h:44-50 | with a bool stored and an int requested, `GetValue` still reports success, while the checked getter refuses and leaves the out value alone |
| TagValueContainer.GettersAgreeOnMatchingSubtype | Source/GamplayTagValue/Public/TagValueContainer.h:41-53 | when the stored subtype is the requested one, both getters agree |
| TagValueContainer.SetThenGet | Source/GamplayTagValue/Public/TagValueContainer.h:29-53 | a value set is read back by the checked getter for its subtype |
| TagValueContainer.RemoveValue | Source/GamplayTagValue/Public/TagValueContainer.h:70-73 | reports whether the tag was present; afterwards it is absent and other tags are untouched |
| TagValueContainer.Clear | Source/GamplayTagValue/Public/TagValueContainer.h:89-92 | `Num` is zero and no tag is held |
| TagValueContainer.GetAllTags | Source/GamplayTagValue/Public/TagValueContainer.h:79-101 | every stored tag once, as many as `Num` counts |

## Left out

- Change notifications: nothing raises `OnTagValueChanged`, and `BroadcastTagValueChanged` is declared but never defined, so no operation models a notification.
- `ImportFromDataTable`, `ExportToDataTable` and `RegisterConfiguredDataAssets`: data-table and asset I/O. Import also writes the same tag six times, so only the object-path holder would survive.
- Blueprint editor nodes, the function libraries and the Blueprint wrappers over the container: they forward to the operations modelled here.
- Module start-up and component lifecycle (`BeginPlay`, `EndPlay`, `RegisterWithSubsystem`): engine and world lookups. Only the "Config"/"Runtime" registrations appear, as the sample scenario.
- `GetAllRepositories`: it returns the chain itself, which is the model's state.
- `ImplementsTagValueInterface` and `GetTagValueInterface`: an object either is a context or is not, which `Option<Context>` expresses.
- Names are compared as exact strings; `FName`'s case-insensitive comparison is not modelled.
- `FGameplayTag` internals: tag validity is non-emptiness, and the parent drops the last segment. The tag registry is not modelled.
- Floating-point payloads are mathematical reals, the `double`-to-`float` narrowing of the float field is not modelled, and transforms and soft paths are opaque data.
- `TArray::Sort` internals: the model's sort fixes one order, but its contract promises only a sorted permutation.
- RepositoryComponent.ConvertHolderToTagValue: the source fills one field of an uninitialised local `FTagValue`; the model gives the other fields their declared defaults.
- TagValueContainer.GetValue: reinterpreting a stored value as another subtype is undefined behaviour in C++; the model hands out the stored value unchanged.
- Subsystem.SampleScenario: stated for any chain of empty memory repositories with a "Default" one, which `Initialize` yields (`Subsystem.InitializeIsEmptyDefault`), rather than for the literal initial chain.
- Pointer sharing: repositories store the caller's `TSharedPtr` holder and `GetValue` hands back that same pointer, whose `GetValuePtr` is non-const, so a caller can change a stored value through the result of `GetRawValue`. Registered repositories are shared pointers too, so a component stays the object its actor edits. The model treats holders and repositories as values and does not model this aliasing.
- Repository.SetValue: for a component repository the contract states only what is kept (name, priority, well-formedness); the stored content follows from `RepositoryComponent.SetValue`.

## Findings

| source | as written | input that shows it | evidently intended | confidence | as-written member | corrected member |
|---|---|---|---|---|---|---|
| Source/GamplayTagValue/Public/TagValueContainer.h:41-53 | `GetValue<T>` casts with `StaticCastSharedPtr`, which never fails on a non-null pointer, so it returns true for any stored value | a container holding `FBoolTagValue(true)` at tag X, queried with `GetValue<FIntTagValue>(X, Out)` | the documented "true if the value was found and is of the correct type": false on a subtype mismatch, leaving `OutValue` alone | not executed | TagValueContainer.GetValue | TagValueContainer.GetValueChecked |
