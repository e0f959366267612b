# Spring-style dependency injection containers, modelled in Dafny

This project models the two dependency-injection containers of the
`spring_di_demo` example.

- `OptimizedApplicationContext` is in `examples/spring_di_demo/optimized_spring_di.py`.
- The older `ApplicationContext` is in `examples/spring_di_demo/spring_di.py`.

Classes register as components with a scope (singleton or prototype) and a
`primary` flag. `get_bean` builds a component. It finds the component's
constructor parameters by their type annotations and builds each one first
by a recursive `get_bean`. An unregistered type is answered by the first
registered class that implements it. The optimized container also:

- caches each constructor's dependency map;
- rejects a request whose type is already on the creation path;
- counts constructions;
- has a static `validate_configuration` that reports cycles and dependencies nothing can satisfy.

## Reflection and values

Python reflection is replaced by explicit class metadata in `Beans.ClassInfo`:

- the constructor parameters;
- the proper ancestors;
- whether the constructor body raises.

An instance is a value `Bean(id, type, fields)`:

- `id` is fresh for every constructor call;
- `fields` are the keyword arguments the container passed.

A constructor call receives the resolved dependencies as keyword arguments
and binds them to parameters by name. The receiver is the parameter named
`self`. A required parameter that was not supplied fails with
`MissingArgument`, which stands for Python's `TypeError`. Otherwise a
raising body fails with `ConstructorRaised`. Otherwise the call succeeds.
Parameter kinds other than ordinary keyword-bindable ones are not modelled
(see Left out).

## State

Each container's class-level state is a Dafny `class` whose methods update
its fields:

- `OptimizedContainer.OptimizedApplicationContext`
- `LegacyContainer.ApplicationContext`

The registry `_component_configs` is a `Dicts.Dict`: a map plus the keys in
insertion order, because resolution scans the keys in that order.

The `instance` entry of each config, the singleton slot, is kept in a separate
`instances` map. Re-registration empties the slot, as the source does by
writing `'instance': None`.

## How the proofs are organised

Every method is proved equal to a function on the whole state:

- `Resolution.GetBean` and `Resolution.CreateInstance`;
- `Validation.Validate`;
- `LegacyResolution.GetBean`.

The properties are proved about those functions:

- consistency of slots and counters;
- singleton sharing and prototype freshness;
- cycle rejection, and the cycles that are not detected;
- error propagation;
- which keyword arguments a successful construction passes;
- what a reported cycle is, and that validation misses no reachable cycle;
- exactly which dependencies validation reports.

`fuel` is the interpreter's recursion bound. Every nested `get_bean` spends
one unit. A request that runs out fails with `RecursionLimit`, which is
Python's `RecursionError`.

## Behaviour worth knowing

The code behaves as follows, and the model does the same:

- **Order of checks.** The creation-path check comes before the lookup and before the singleton check (optimized_spring_di.py:92).
- **The path records the resolved type, but the check tests the requested type.** A cycle is caught when one of its requests names a type on the path. That holds even if the cycle also passes through an interface (`ResolutionProperties.InterfaceHopCycleIsRejected`). A cycle is missed when every request on it names an unregistered interface, so each type is reached only through subclass lookup. Such a cycle recurses until the recursion bound (`ResolutionProperties.CapabilityCycleRecursesForever`).
- **The `primary` flag is stored but never consulted.** The first implementation in registration order always wins, and there is no ambiguity error (`TypeLookup.LookupIgnoresConfigs`).
- **Singleton slots are not write-once.**
  - Re-registration empties a slot.
  - `clear_cache` keeps the slots.
  - `clear_cache` empties the dependency cache, so a type that is not a built singleton is then constructed with no arguments at all (`ResolutionProperties.ClearedCacheConstructsWithoutArguments`).
- **Construction is not gated per type.** One re-entrant lock guards the whole request (see Left out).

## Model

| member | source | states |
|---|---|---|
| Beans.FirstMissing | examples/spring_di_demo/optimized_spring_di.py:140 | None exactly when every required non-receiver parameter is supplied; otherwise a required parameter whose name was not supplied |
| Beans.Construct | examples/spring_di_demo/optimized_spring_di.py:133-140 | calling a class succeeds exactly when its body does not raise and every required parameter is supplied; success yields a new instance of that class with that id and those fields; failure names the class |
| Beans.Inc | examples/spring_di_demo/optimized_spring_di.py:120 | the counter of the built type rises by one (an absent counter counts from zero), every other counter is unchanged, and the built type gains a key |
| Dicts.Dict.Get | examples/spring_di_demo/optimized_spring_di.py:97 | `dict.get`: Some exactly for present keys, with the stored value |
| Dicts.Dict.Put | examples/spring_di_demo/optimized_spring_di.py:54-58 | assignment keeps the dict well-formed, stores the value, and appends a new key at the end while an existing key keeps its place |
| Dicts.Empty | examples/spring_di_demo/optimized_spring_di.py:160 | `dict.clear()` leaves a well-formed dict with no entries and no keys |
| Dicts.PutKeepsPositions | examples/spring_di_demo/optimized_spring_di.py:54-58 | overwriting a key leaves the iteration order of all keys unchanged |
| DependencyAnalysis.DepTypes | examples/spring_di_demo/optimized_spring_di.py:200-201 | the dependency types, one per entry and in entry order |
| DependencyAnalysis.DepsOfAppend | examples/spring_di_demo/optimized_spring_di.py:73-77 | the dependency map of a parameter list is the concatenation of the maps of its parts, so declaration order is kept |
| DependencyAnalysis.DepsOfCons | examples/spring_di_demo/optimized_spring_di.py:73-77 | the first parameter's entry comes first |
| DependencyAnalysis.DepsOfMembership | examples/spring_di_demo/optimized_spring_di.py:73-77 | (name, type) is an entry exactly when some parameter other than `self` has that name and that annotation |
| DependencyAnalysis.DepsOfLength | examples/spring_di_demo/optimized_spring_di.py:73-77 | the map has at most as many entries as the constructor has parameters |
| TypeLookup.Implementations | examples/spring_di_demo/optimized_spring_di.py:142-150 | every result is a registered proper subclass of the interface |
| TypeLookup.MroImplementations | examples/spring_di_demo/spring_di.py:88-95 | every result is a registered class whose MRO contains the interface |
| TypeLookup.FirstImplementationScan | examples/spring_di_demo/optimized_spring_di.py:99-103 | the scan finds nothing exactly when no key from the start position on is a proper subclass; otherwise it finds the earliest one |
| TypeLookup.FirstMroImplementationScan | examples/spring_di_demo/spring_di.py:49-53 | the same for the MRO test of the older container |
| TypeLookup.FirstImplementationIsHead | examples/spring_di_demo/optimized_spring_di.py:100-102 | the scan's answer is `implementations[0]`, or nothing when the list is empty |
| TypeLookup.FirstMroImplementationIsHead | examples/spring_di_demo/spring_di.py:50-52 | the same for the older container |
| TypeLookup.ImplementationsHead | examples/spring_di_demo/optimized_spring_di.py:142-150 | the list is empty exactly when no key is a proper subclass, and otherwise its head is the first key in registration order that is one |
| TypeLookup.MroImplementationsHead | examples/spring_di_demo/spring_di.py:88-95 | the same for the MRO test |
| TypeLookup.Lookup | examples/spring_di_demo/optimized_spring_di.py:96-106 | the chosen class is registered |
| TypeLookup.LegacyLookup | examples/spring_di_demo/spring_di.py:47-56 | the chosen class is registered |
| TypeLookup.LookupFallsBackToFirstSubclass | examples/spring_di_demo/optimized_spring_di.py:96-106 | an unregistered request resolves to nothing exactly when no registered class is a proper subclass, and otherwise to the first one in registration order |
| TypeLookup.LegacyLookupFallsBackToFirstSubclass | examples/spring_di_demo/spring_di.py:47-56 | the same for MRO membership in the older container |
| TypeLookup.ScansAgreeOffRegistry | examples/spring_di_demo/optimized_spring_di.py:148 | when the interface is not itself registered, the `c != interface` test excludes nothing and both scans agree |
| TypeLookup.LookupsAgree | examples/spring_di_demo/spring_di.py:47-56 | both containers choose the same class for every request |
| TypeLookup.LookupIgnoresConfigs | examples/spring_di_demo/optimized_spring_di.py:96-106 | the choice depends only on the registry's keys and their order, never on `primary` or scope |
| Resolution.GetBean | examples/spring_di_demo/optimized_spring_di.py:82-123 | a request never registers, reconfigures or re-analyzes anything, and ids only grow; the class of what it returns is stated by `ResolutionProperties.RequestReturnsLookedUpClass` |
| Resolution.Publish | examples/spring_di_demo/optimized_spring_di.py:115-123 | publishing returns the built instance, takes no id, and changes neither the registry nor the cache |
| Resolution.CreateInstance | examples/spring_di_demo/optimized_spring_di.py:125-140 | construction changes neither the registry nor the cache, and ids only grow; the arguments it passes are stated by `ResolutionProperties.CreatedWithCachedArguments` |
| Resolution.Instantiate | examples/spring_di_demo/optimized_spring_di.py:133-140 | a constructor call changes neither the registry nor the cache, and ids only grow |
| Resolution.ResolveArgs | examples/spring_di_demo/optimized_spring_di.py:136-138 | resolving the arguments changes neither the registry nor the cache, and ids only grow; the names it binds are stated by `ResolutionProperties.ResolvedArgsFollowDeps` |
| Resolution.Analyze | examples/spring_di_demo/optimized_spring_di.py:62-80 | the memo stays a well-formed dict |
| Resolution.Register | examples/spring_di_demo/optimized_spring_di.py:50-60 | registration keeps the registry on known classes and the cache well-formed |
| Resolution.ClearCache | examples/spring_di_demo/optimized_spring_di.py:157-162 | the dependency cache is empty afterwards |
| ResolutionProperties.GetBeanKeepsConsistent | examples/spring_di_demo/optimized_spring_di.py:108-123 | every request keeps consistency: only registered singletons hold instances, each an instance of the class whose slot holds it and already handed out, and every counter is at least one; the instance returned was handed out and is an instance of the class the lookup picks for the requested type |
| ResolutionProperties.CreateKeepsConsistent | examples/spring_di_demo/optimized_spring_di.py:125-140 | construction keeps consistency; a constructed instance has a new id, is of the requested class, and gets one argument per dependency-map entry, each an instance of the class the lookup picks for the entry's type |
| ResolutionProperties.ArgsKeepConsistent | examples/spring_di_demo/optimized_spring_di.py:136-138 | resolving arguments keeps consistency; on success the arguments resolved before are kept and one is added per remaining entry, an instance of the class the lookup picks for its type |
| ResolutionProperties.RegisterKeepsConsistent | examples/spring_di_demo/optimized_spring_di.py:54-58 | registration keeps consistency, even when it turns a singleton into a prototype |
| ResolutionProperties.RegisterInsertsOrReplaces | examples/spring_di_demo/optimized_spring_di.py:50-60 | registration stores the new config with an empty slot, keeps the type's position or appends it, leaves every other config and slot alone, makes sure the type has a dependency map, and keeps counters and ids |
| ResolutionProperties.AnalysisIsMemoized | examples/spring_di_demo/optimized_spring_di.py:66-67 | analyzing an already analyzed type returns the cache unchanged |
| ResolutionProperties.RegisterLastWriteWins | examples/spring_di_demo/optimized_spring_di.py:50-60 | registering a type twice equals registering it once with the second arguments |
| ResolutionProperties.RequestOnPathIsCircular | examples/spring_di_demo/optimized_spring_di.py:92-94 | a request for a type on the creation path fails with the path plus that type, and nothing changes |
| ResolutionProperties.UnknownTypeIsNotFound | examples/spring_di_demo/optimized_spring_di.py:97-106 | a request for a type that is not registered and has no registered proper subclass fails with `BeanNotFoundError` for that type, and nothing changes |
| ResolutionProperties.TwoTypeCycleIsRejected | examples/spring_di_demo/optimized_spring_di.py:92-94 | with A needing B and B needing A, requesting A fails with the cycle [A, B, A] and the state is exactly as before, so no constructor ran |
| ResolutionProperties.InterfaceHopCycleIsRejected | examples/spring_di_demo/optimized_spring_di.py:92-113 | with A needing interface I, I resolving to B, and B needing A, requesting A fails with the cycle [A, B, A] and the state is exactly as before |
| ResolutionProperties.CapabilityCycleRecursesForever | examples/spring_di_demo/optimized_spring_di.py:92-113 | a class whose first dependency is an unregistered interface that resolves back to the class is never reported as a cycle; the request hits the recursion bound, whatever the bound |
| ResolutionProperties.CapabilityCycleExhaustsRecursion | examples/spring_di_demo/optimized_spring_di.py:92-113 | the same configuration requested through the class itself also hits the recursion bound |
| ResolutionProperties.CachedSingletonIsReturned | examples/spring_di_demo/optimized_spring_di.py:109-110 | a singleton with a filled slot is returned as is, and nothing changes |
| ResolutionProperties.SingletonIsShared | examples/spring_di_demo/optimized_spring_di.py:109-117 | after a successful request for a singleton, its slot holds the returned instance, and every later request returns it and changes nothing |
| ResolutionProperties.CreatedBeanIsFresh | examples/spring_di_demo/optimized_spring_di.py:133-140 | a constructed instance's id is at least the next id before the request |
| ResolutionProperties.PrototypeRequestBuilds | examples/spring_di_demo/optimized_spring_di.py:113-117 | a prototype request keeps consistency, fills no slot, and returns an id that is new |
| ResolutionProperties.PrototypeIsFresh | examples/spring_di_demo/optimized_spring_di.py:113-117 | two prototype requests in a row return different instances |
| ResolutionProperties.PublishSparesOthers | examples/spring_di_demo/optimized_spring_di.py:115-120 | publishing a type touches no other type's slot or counter |
| ResolutionProperties.RaisingConstructorLeavesNoTrace | examples/spring_di_demo/optimized_spring_di.py:113-120 | a class whose constructor raises never gets an instance or a count, whatever is requested |
| ResolutionProperties.CreateLeavesRaisingUntouched | examples/spring_di_demo/optimized_spring_di.py:125-140 | construction leaves a raising class untouched, and constructing it fails |
| ResolutionProperties.ArgsLeaveRaisingUntouched | examples/spring_di_demo/optimized_spring_di.py:136-138 | resolving arguments leaves a raising class untouched |
| ResolutionProperties.RaisingConstructorPropagates | examples/spring_di_demo/optimized_spring_di.py:131-133 | a raising constructor with no dependencies fails the request with its own error, and nothing changes |
| ResolutionProperties.DependencyErrorPropagates | examples/spring_di_demo/optimized_spring_di.py:136-138 | the first dependency's failure is the request's failure, with the state the dependency left behind |
| ResolutionProperties.MissingDependencyIsNamed | examples/spring_di_demo/optimized_spring_di.py:105-106 | a first dependency with nothing to resolve to fails the request with `BeanNotFoundError` for the dependency, and nothing changes |
| ResolutionProperties.ResolvedArgsFollowDeps | examples/spring_di_demo/optimized_spring_di.py:135-138 | a successful argument loop binds, after the arguments already resolved, one keyword per dependency-map entry from the current one on, named after the entry and in the map's order |
| ResolutionProperties.CreatedWithCachedArguments | examples/spring_di_demo/optimized_spring_di.py:125-140 | a successful construction returns an instance of the requested class itself, built with exactly one keyword argument per entry of its cached dependency map, in order |
| ResolutionProperties.RequestReturnsLookedUpClass | examples/spring_di_demo/optimized_spring_di.py:96-123 | on a consistent container, a successful `get_bean(t)` returns an instance of the class the lookup picks for t: t itself when registered, else its first registered proper subclass |
| ResolutionProperties.CreatedWithLookedUpArguments | examples/spring_di_demo/optimized_spring_di.py:125-140 | on a consistent container, a successful construction is of the requested class and binds entry k of its dependency map, under the entry's name, to an instance of the class the lookup picks for the entry's type, with nothing else passed |
| ResolutionProperties.PathIsNotRebuilt | examples/spring_di_demo/optimized_spring_di.py:92-113 | when every dependency is registered directly, a nested request never builds or counts a type on the creation path |
| ResolutionProperties.CreateLeavesPathUntouched | examples/spring_di_demo/optimized_spring_di.py:125-140 | the same for a construction |
| ResolutionProperties.ArgsLeavePathUntouched | examples/spring_di_demo/optimized_spring_di.py:136-138 | the same for argument resolution |
| ResolutionProperties.FailedRequestBuildsNothingOfItsType | examples/spring_di_demo/optimized_spring_di.py:92-123 | when every dependency is registered directly, a failed request leaves the requested type's slot and count unchanged |
| ResolutionProperties.ConstructionCountsOnce | examples/spring_di_demo/optimized_spring_di.py:119-120 | when every dependency is registered directly, a request that constructs raises the requested type's creation count by exactly one |
| ResolutionProperties.SingletonIsBuiltOnce | examples/spring_di_demo/optimized_spring_di.py:108-120 | a newly registered singleton is constructed once: its count ends at one, and later requests return the same instance and change nothing |
| ResolutionProperties.DirectWiringStaysWithinBound | examples/spring_di_demo/optimized_spring_di.py:92-113 | when every dependency is registered directly, a recursion bound larger than the number of registered types off the path is never reached |
| ResolutionProperties.CreateStaysWithinBound | examples/spring_di_demo/optimized_spring_di.py:125-140 | the same for a construction |
| ResolutionProperties.ArgsStayWithinBound | examples/spring_di_demo/optimized_spring_di.py:136-138 | the same for argument resolution |
| ResolutionProperties.ClearedCacheConstructsWithoutArguments | examples/spring_di_demo/optimized_spring_di.py:129-133 | after `clear_cache`, a registered type that is not a built singleton is constructed with no arguments |
| Validation.IndexOf | examples/spring_di_demo/optimized_spring_di.py:193 | `path.index(x)`: the first position holding x |
| Validation.FindCycle | examples/spring_di_demo/optimized_spring_di.py:186-203 | the search ends: it follows only registered types and the path never repeats; soundness is `Validation.FoundCycleIsCycle`, completeness `Validation.NoCycleMeansSimpleWalks` |
| Validation.FindCycleAmong | examples/spring_di_demo/optimized_spring_di.py:200-203 | the search over one type's dependencies ends |
| Validation.WalkExtends | examples/spring_di_demo/optimized_spring_di.py:198-203 | a walk extended by one dependency edge is a walk |
| Validation.ClosingTheWalkIsCycle | examples/spring_di_demo/optimized_spring_di.py:192-195 | the slice of the path from the repeated type's first occurrence, closed by that type, is a cycle |
| Validation.FoundCycleIsCycle | examples/spring_di_demo/optimized_spring_di.py:186-203 | every reported cycle is a closed walk of dependency edges through registered types that repeats no type before returning to its start |
| Validation.FoundCycleAmongIsCycle | examples/spring_di_demo/optimized_spring_di.py:200-203 | the same for the search over one type's dependencies |
| Validation.SelfDependencyIsReported | examples/spring_di_demo/optimized_spring_di.py:186-203 | a registered type whose first dependency is itself is reported as [T, T] |
| Validation.TwoTypeCycleIsReported | examples/spring_di_demo/optimized_spring_di.py:186-203 | with A needing B and B needing A, the check from A reports [A, B, A] |
| Validation.NoneAmongMeansNoneFromEach | examples/spring_di_demo/optimized_spring_di.py:200-203 | when the loop over a type's dependencies finds nothing, neither does the search from any registered dependency it visits |
| Validation.NoCycleMeansSimpleWalks | examples/spring_di_demo/optimized_spring_di.py:186-203 | completeness: when the search finds nothing, every walk from the type along registered dependencies repeats no type and never comes back to the path |
| Validation.CycleFoundWhenReachable | examples/spring_di_demo/optimized_spring_di.py:186-203 | from a root, a walk along registered dependencies that revisits a type makes the search report a genuine cycle |
| Validation.CycleIssuesAreCycles | examples/spring_di_demo/optimized_spring_di.py:169-174 | the first pass reports at most one issue per registered type, and each one is a cycle |
| Validation.CycleIssuesCoverEveryRoot | examples/spring_di_demo/optimized_spring_di.py:169-174 | every registered type whose search finds a cycle contributes that cycle to the first pass |
| Validation.UnresolvedOfExactly | examples/spring_di_demo/optimized_spring_di.py:178-182 | a type's issues name exactly its dependencies that are neither registered nor implemented by a registered class |
| Validation.UnresolvedOfCounts | examples/spring_di_demo/optimized_spring_di.py:178-182 | a type's issue `owner -> d` appears once per dependency-map entry of type d when d is unresolvable, and never otherwise |
| Validation.UnresolvedIssuesExactly | examples/spring_di_demo/optimized_spring_di.py:176-182 | the second pass reports (owner, dependency) exactly when the owner is analyzed and the dependency is unresolvable |
| Validation.ValidateReports | examples/spring_di_demo/optimized_spring_di.py:164-184 | the report names an unresolved dependency exactly when an analyzed type needs a type that is neither registered nor implemented; every cycle issue is a cycle; there are at most as many cycle issues as registered types |
| Validation.ValidateReportsReachableCycles | examples/spring_di_demo/optimized_spring_di.py:164-174 | the report misses no reachable cycle: a walk from a registered type that revisits a type puts the genuine cycle found from it into the report |
| OptimizedContainer.OptimizedApplicationContext.constructor | examples/spring_di_demo/optimized_spring_di.py:35-48 | the container starts empty and consistent |
| OptimizedContainer.OptimizedApplicationContext.RegisterComponent | examples/spring_di_demo/optimized_spring_di.py:50-60 | the new state is `Resolution.Register` of the old one, and consistency is kept |
| OptimizedContainer.OptimizedApplicationContext.AnalyzeDependencies | examples/spring_di_demo/optimized_spring_di.py:62-80 | the loop builds the dependency map of the constructor; an already analyzed type is answered from the cache unchanged |
| OptimizedContainer.OptimizedApplicationContext.GetBean | examples/spring_di_demo/optimized_spring_di.py:82-123 | result and new state are those of `Resolution.GetBean` on the old state, so every lemma about it applies; consistency is kept; a success is an instance of the class the lookup picks for the requested type |
| OptimizedContainer.OptimizedApplicationContext.PublishInstance | examples/spring_di_demo/optimized_spring_di.py:115-121 | the new state is `Resolution.Publish` of the old one: the singleton slot filled and the creation count raised |
| OptimizedContainer.OptimizedApplicationContext.ResolveTarget | examples/spring_di_demo/optimized_spring_di.py:96-106 | the class chosen is the one `TypeLookup.Lookup` describes |
| OptimizedContainer.OptimizedApplicationContext.CreateInstanceOptimized | examples/spring_di_demo/optimized_spring_di.py:125-140 | result and new state are those of `Resolution.CreateInstance`; a success is an instance of the requested class built with one keyword argument per entry of its cached dependency map, in order; each argument is an instance of the class the lookup picks for its entry's type |
| OptimizedContainer.OptimizedApplicationContext.Instantiate | examples/spring_di_demo/optimized_spring_di.py:133-140 | result and new id are those of `Resolution.Instantiate` |
| OptimizedContainer.OptimizedApplicationContext.FindImplementations | examples/spring_di_demo/optimized_spring_di.py:142-150 | the loop returns exactly `TypeLookup.Implementations` over the registry keys |
| OptimizedContainer.OptimizedApplicationContext.GetMetrics | examples/spring_di_demo/optimized_spring_di.py:152-155 | a snapshot of the creation counters, each of them at least one |
| OptimizedContainer.OptimizedApplicationContext.ClearCache | examples/spring_di_demo/optimized_spring_di.py:157-162 | only the dependency cache changes, and it becomes empty |
| OptimizedContainer.OptimizedApplicationContext.ValidateConfiguration | examples/spring_di_demo/optimized_spring_di.py:164-184 | the report is `Validation.Validate` of the state, so `Validation.ValidateReports` describes it |
| OptimizedContainer.OptimizedApplicationContext.CycleReport | examples/spring_di_demo/optimized_spring_di.py:169-174 | the first loop's issues are `Validation.CycleIssues` over the registry keys |
| OptimizedContainer.OptimizedApplicationContext.UnresolvedReport | examples/spring_di_demo/optimized_spring_di.py:176-182 | the second loop's issues are `Validation.UnresolvedIssues` over the cache |
| OptimizedContainer.OptimizedApplicationContext.UnresolvedOfOwner | examples/spring_di_demo/optimized_spring_di.py:178-182 | the inner loop's issues are `Validation.UnresolvedOf` for that owner |
| OptimizedContainer.OptimizedApplicationContext.DetectCircularDependencies | examples/spring_di_demo/optimized_spring_di.py:186-203 | the recursive search with a visited set and path copies returns the cycle `Validation.FindCycle` describes; when it returns nothing, every walk from the type along registered dependencies is simple and avoids the path |
| OptimizedContainer.Component | examples/spring_di_demo/optimized_spring_di.py:207-222 | the decorator registers the class itself with its arguments and returns it unchanged |
| OptimizedContainer.Service | examples/spring_di_demo/optimized_spring_di.py:224-226 | `@component(scope)` with `primary` false |
| OptimizedContainer.Repository | examples/spring_di_demo/optimized_spring_di.py:228-230 | `@component(scope)` with `primary` false |
| OptimizedContainer.Controller | examples/spring_di_demo/optimized_spring_di.py:232-234 | `@component(scope)` with `primary` false |
| LegacyResolution.GetBean | examples/spring_di_demo/spring_di.py:43-68 | a request never registers or reconfigures anything, and ids only grow; the class of what it returns is stated by `LegacyResolution.RequestReturnsLookedUpClass` |
| LegacyResolution.Publish | examples/spring_di_demo/spring_di.py:63-68 | a singleton's instance goes into its slot, a prototype's does not, and the instance is returned |
| LegacyResolution.CreateInstance | examples/spring_di_demo/spring_di.py:70-86 | construction leaves the registry alone, and ids only grow; the arguments it passes are stated by `LegacyResolution.CreatedWithInjectedArguments` |
| LegacyResolution.Instantiate | examples/spring_di_demo/spring_di.py:86 | a successful call returns the next id and takes it; a failed call changes nothing |
| LegacyResolution.ResolveParams | examples/spring_di_demo/spring_di.py:77-84 | resolving parameters leaves the registry alone, and ids only grow; the names it binds are stated by `LegacyResolution.ResolvedParamsAreInjected` |
| LegacyResolution.ResolvedParamsAreInjected | examples/spring_di_demo/spring_di.py:77-84 | a successful parameter loop binds, after the arguments already resolved, one keyword per annotated non-receiver parameter from the current one on, named after it and in declaration order |
| LegacyResolution.CreatedWithInjectedArguments | examples/spring_di_demo/spring_di.py:70-86 | a successful construction returns an instance of the requested class itself, built with exactly one keyword argument per annotated non-receiver constructor parameter, in order |
| LegacyResolution.RequestReturnsLookedUpClass | examples/spring_di_demo/spring_di.py:47-68 | on a consistent container, a successful `get_bean(t)` returns an instance of the class the lookup picks for t: t itself when registered, else the first registered class whose MRO holds t |
| LegacyResolution.CreatedWithLookedUpArguments | examples/spring_di_demo/spring_di.py:70-86 | on a consistent container, a successful construction is of the requested class and binds its k-th injected parameter, under its name, to an instance of the class the lookup picks for its annotation, with nothing else passed |
| LegacyResolution.Register | examples/spring_di_demo/spring_di.py:33-41 | registration keeps the registry on known classes |
| LegacyResolution.Decorate | examples/spring_di_demo/spring_di.py:115-132 | decoration keeps the registry on known classes |
| LegacyResolution.FirstDependencyFailure | examples/spring_di_demo/spring_di.py:77-86 | when the first annotated parameter's request fails, construction fails with the same error and the same state |
| LegacyResolution.GetBeanKeepsConsistent | examples/spring_di_demo/spring_di.py:58-68 | every request keeps consistency: only registered singletons hold instances, each an instance of the class whose slot holds it and already handed out; the instance returned was handed out and is an instance of the class the lookup picks for the requested type |
| LegacyResolution.CreateKeepsConsistent | examples/spring_di_demo/spring_di.py:70-86 | construction keeps consistency; a constructed instance has a new id, is of the requested class, and gets one argument per injected parameter, each an instance of the class the lookup picks for its annotation |
| LegacyResolution.ParamsKeepConsistent | examples/spring_di_demo/spring_di.py:77-84 | resolving parameters keeps consistency; on success the arguments resolved before are kept and one is added per remaining injected parameter, an instance of the class the lookup picks for its annotation |
| LegacyResolution.RegisterKeepsConsistent | examples/spring_di_demo/spring_di.py:37-41 | registration keeps consistency |
| LegacyResolution.SingletonIsShared | examples/spring_di_demo/spring_di.py:58-66 | after a successful request resolving to a singleton, its slot holds the instance, and every later request returns it and changes nothing |
| LegacyResolution.PrototypeIsFresh | examples/spring_di_demo/spring_di.py:62-68 | a request resolving to a prototype returns a new id and fills no slot; the next such request returns a larger id |
| LegacyResolution.UnresolvableRequestFails | examples/spring_di_demo/spring_di.py:47-56 | a request that is not registered and is in no registered class's MRO fails with `ValueError` for that type, and nothing changes |
| LegacyResolution.MissingDependencyIsNamed | examples/spring_di_demo/spring_di.py:77-84 | a first annotated dependency with nothing to resolve to fails the request with `ValueError` for the dependency, and nothing changes |
| LegacyResolution.SelfDependencyExhaustsRecursion | examples/spring_di_demo/spring_di.py:43-86 | with no cycle check, a class whose first annotated dependency is itself recurses until the recursion bound, whatever the bound, and nothing changes |
| LegacyResolution.DecoratorLastWriteWins | examples/spring_di_demo/spring_di.py:16-25 | after the metaclass registration and the decorator's, the wrapper holds the decorator's scope and flag with an empty slot; nothing else changes |
| LegacyResolution.DecoratedClassResolvesToWrapper | examples/spring_di_demo/spring_di.py:115-132 | once decorated, a request for the undecorated class resolves to the wrapper |
| LegacyContainer.ApplicationContext.constructor | examples/spring_di_demo/spring_di.py:27-31 | the container starts empty and consistent |
| LegacyContainer.ApplicationContext.RegisterComponent | examples/spring_di_demo/spring_di.py:33-41 | the new state is `LegacyResolution.Register` of the old one, and consistency is kept |
| LegacyContainer.ApplicationContext.GetBean | examples/spring_di_demo/spring_di.py:43-68 | result and new state are those of `LegacyResolution.GetBean`; a success is an instance of the class the lookup picks for the requested type |
| LegacyContainer.ApplicationContext.ResolveTarget | examples/spring_di_demo/spring_di.py:47-56 | the class chosen is the one `TypeLookup.LegacyLookup` describes |
| LegacyContainer.ApplicationContext.CreateInstance | examples/spring_di_demo/spring_di.py:70-86 | the parameter loop's result and new state are those of `LegacyResolution.CreateInstance`; a success is an instance of the requested class built with one keyword argument per annotated non-receiver parameter, in order; each argument is an instance of the class the lookup picks for its parameter's annotation |
| LegacyContainer.ApplicationContext.FindImplementations | examples/spring_di_demo/spring_di.py:88-95 | the loop returns exactly `TypeLookup.MroImplementations` over the registry keys |
| LegacyContainer.Component | examples/spring_di_demo/spring_di.py:115-132 | the wrapper is registered twice, and the new state is `LegacyResolution.Decorate`; the wrapper is returned |
| LegacyContainer.Service | examples/spring_di_demo/spring_di.py:134-136 | `@component(scope)` with `primary` false |
| LegacyContainer.Repository | examples/spring_di_demo/spring_di.py:138-140 | `@component(scope)` with `primary` false |
| LegacyContainer.Controller | examples/spring_di_demo/spring_di.py:142-144 | `@component(scope)` with `primary` false |
| LegacyContainer.AutowiredDescriptor.constructor | examples/spring_di_demo/spring_di.py:148-150 | the descriptor keeps its type and has no name yet |
| LegacyContainer.AutowiredDescriptor.SetName | examples/spring_di_demo/spring_di.py:152-153 | the value is kept under `_` followed by the attribute name |
| LegacyContainer.AutowiredDescriptor.Get | examples/spring_di_demo/spring_di.py:155-164 | a stored value is returned and nothing changes; otherwise the request is `LegacyResolution.GetBean`, and a successful result is stored before it is returned, so a later read returns the same instance |
| LegacyContainer.AutowiredDescriptor.Set | examples/spring_di_demo/spring_di.py:166-167 | the stored value is replaced |
| LegacyContainer.Autowired | examples/spring_di_demo/spring_di.py:169-171 | a new descriptor for the type |

## Left out

- Locks are not modelled.
  - The optimized container holds one re-entrant lock per request.
  - The older container holds a `threading.Lock`, which is not re-entrant, around a `get_bean` that recurses (spring_di.py:46, 63, 84). So in the program a request that has a dependency would block on itself. The model follows the evidently intended recursive resolution.
  - Requests are modelled as sequential.
- Python's recursion limit is an explicit `fuel` parameter. The model does not fix its value, and the frames used per nesting level are one unit per `get_bean`, not a count of interpreter frames.
- Timing is left out: `start_time`, the `total_time` metric, `DIProfiler`, `monitored_component` and `get_component`. They read the clock or only forward a call.
- OptimizedContainer.OptimizedApplicationContext.GetMetrics: returns the creation counts only. The source also returns `total_time` values, and shares the inner dicts with the live counters.
- `scan_and_autowire` and `_process_autowired_fields` (spring_di.py:97-111) are left out. They depend on `dir()` and attribute reflection over arbitrary objects.
- The `lru_cache` in front of `_analyze_dependencies` and `_dependency_cache` are merged into one memo. Both are filled by the same calls and emptied together by `clear_cache`.
- `_instances`, `_creation_stack` and `_creation_order_cache` are left out. They are declared but never read.
- The singleton check tests the truthiness of the stored instance. The model treats any stored instance as present, so an instance whose `__bool__` or `__len__` makes it falsy is not modelled.
- Reflection is modelled by `ClassInfo`:
  - String annotations (forward references) are not modelled. An annotation is a class or absent.
  - `issubclass` and MRO membership are taken from declared ancestors, so virtual subclasses through `__subclasshook__` are not modelled.
- The `get_type_hints` pre-check of the optimized `@component` is left out. It only emits a warning.
- Issue and exception messages are not modelled. Issues are values (`Validation.Issue`), not formatted strings, and errors are `Beans.Error` values.
- Beans.Construct: binds keyword arguments by name to ordinary parameters only. Three cases of Python's call binding are not modelled:
  - The receiver is recognised by the name `self`, not as the first positional parameter.
  - An annotated `*args` or `**kwargs` parameter is treated like an ordinary one. Python would reject `args=...` as an unexpected keyword, or collect it into `**kwargs`.
  - A positional-only parameter is treated as bindable by keyword. Python rejects such a call with `TypeError`.
- What a constructor body does is reduced to whether it raises. What it raises is not modelled, and nor is any effect it has on other objects.
- LegacyContainer.Component: the wrapper class `ComponentClass` is a class of the model's class table passed in by the caller, related to `cls` by `LegacyResolution.WrapperOf`. Renaming it with `__name__` and `__qualname__` and marking `cls` with `_is_component`, `_scope` and `_primary` are not modelled.
- LegacyContainer.AutowiredDescriptor.Get: requires `__set_name__` to have run. Reading before that would raise `TypeError`, which is not modelled. Reading through the class (`instance is None`, which returns the descriptor itself) is not modelled either.
- The attributes an `@autowired` descriptor stores live on a separate `Instance` object. The model's instances are values, so the link between a stored attribute and the `Bean` it belongs to is not modelled.
- The FastAPI integration, the database module, the benchmark and weak-reference tests, and the demo application are not part of this model.
