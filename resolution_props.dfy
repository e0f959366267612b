/** What the optimized container promises, proved about the functions of
    `Resolution`: the consistency of its slots and counters, cycle
    rejection, singleton sharing, prototype freshness, creation counts,
    error propagation, registration and the cache reset. */
module ResolutionProperties {
  import opened Beans
  import opened Dicts
  import opened TypeLookup
  import opened DependencyAnalysis
  import opened Resolution

  /** Neither the creation count nor the singleton slot of `u` moved from `c` to `c'`. */
  ghost predicate Untouched(c: Ctx, c': Ctx, u: TypeId) {
    && Count(c'.metrics, u) == Count(c.metrics, u)
    && (u in c'.instances <==> u in c.instances)
    && (u in c.instances ==> c'.instances[u] == c.instances[u])
  }

  /** Every dependency of every analyzed type is itself registered, so no
      request is ever resolved through a capability. */
  ghost predicate DirectlyWired(ctx: Ctx) {
    forall t :: t in ctx.depCache.entries ==>
      forall k :: 0 <= k < |ctx.depCache.entries[t]| ==> ctx.depCache.entries[t][k].depType in ctx.registry.entries
  }

  /** One step of `get_bean` for a request that resolves to `rt` and is not
      served from a slot: build `rt` one frame deeper, then publish. */
  lemma BuildStep(classes: map<TypeId, ClassInfo>, ctx: Ctx, t: TypeId, path: seq<TypeId>, fuel: nat, rt: TypeId)
    requires Valid(classes, ctx) && t !in path && fuel > 0 && Lookup(classes, ctx.registry, t) == Some(rt) && !Cached(ctx, rt)
    ensures var c := CreateInstance(classes, ctx, rt, path + [rt], fuel - 1);
            GetBean(classes, ctx, t, path, fuel) ==
              (if c.res.Err? then c else Publish(c.ctx, rt, ctx.registry.entries[rt].scope, c.res.value))
  {
  }

  /** One step of `_create_instance_optimized` for a type with dependencies. */
  lemma ArgsStep(classes: map<TypeId, ClassInfo>, ctx: Ctx, t: TypeId, path: seq<TypeId>, fuel: nat)
    requires Valid(classes, ctx) && t in classes && DepsFor(ctx.depCache, t) != []
    ensures var a := ResolveArgs(classes, ctx, DepsFor(ctx.depCache, t), 0, [], path, fuel);
            CreateInstance(classes, ctx, t, path, fuel) ==
              (if a.res.Err? then Outcome(a.ctx, Err(a.res.error)) else Instantiate(classes, a.ctx, t, a.res.value))
  {
  }

  // ---------------------------------------------------------------------
  // Consistency of slots and counters

  /** The arguments `fields` of a construction: those resolved before,
      `acc`, then one per entry of `ds`, in order, each an instance of the
      class the lookup picks for that entry's type. */
  ghost predicate ArgsResolved(classes: map<TypeId, ClassInfo>, reg: Dict<Config>, ds: seq<Dep>, acc: seq<Field>,
                               fields: seq<Field>) {
    && RegistryOk(classes, reg)
    && |fields| == |acc| + |ds| && fields[..|acc|] == acc
    && forall k :: 0 <= k < |ds| ==> Lookup(classes, reg, ds[k].depType) == Some(fields[|acc| + k].value.typ)
  }

  lemma ArgsResolvedCons(classes: map<TypeId, ClassInfo>, reg: Dict<Config>, d: Dep, ds: seq<Dep>, acc: seq<Field>,
                         f: Field, fields: seq<Field>)
    requires ArgsResolved(classes, reg, ds, acc + [f], fields) && Lookup(classes, reg, d.depType) == Some(f.value.typ)
    ensures ArgsResolved(classes, reg, [d] + ds, acc, fields)
  {
    assert fields[..|acc|] == fields[..|acc| + 1][..|acc|];
    assert fields[|acc|] == fields[..|acc| + 1][|acc|];
    forall k | 0 < k < |[d] + ds|
      ensures Lookup(classes, reg, ([d] + ds)[k].depType) == Some(fields[|acc| + k].value.typ)
    {
      assert ([d] + ds)[k] == ds[k - 1] && |acc + [f]| + (k - 1) == |acc| + k;
    }
  }

  /** Every request keeps the container consistent. An instance it returns
      was handed out already and is an instance of the class the lookup
      picks for the requested type: a fresh one is built for that class,
      and a stored one sits in that class's slot. */
  lemma {:induction false} GetBeanKeepsConsistent(classes: map<TypeId, ClassInfo>, ctx: Ctx, t: TypeId,
                                                 path: seq<TypeId>, fuel: nat)
    requires Valid(classes, ctx) && Consistent(ctx)
    ensures var o := GetBean(classes, ctx, t, path, fuel);
            && Consistent(o.ctx)
            && (o.res.Ok? ==> o.res.value.id < o.ctx.nextId && Lookup(classes, ctx.registry, t) == Some(o.res.value.typ))
    decreases fuel, 0
  {
    if fuel > 0 && t !in path {
      match Lookup(classes, ctx.registry, t)
      case None =>
      case Some(rt) =>
        if !Cached(ctx, rt) {
          CreateKeepsConsistent(classes, ctx, rt, path + [rt], fuel - 1);
          BuildStep(classes, ctx, t, path, fuel, rt);
        }
    }
  }

  /** A construction keeps the container consistent and returns a new
      instance of the class asked for, built from the arguments its
      dependency map calls for. */
  lemma {:induction false} CreateKeepsConsistent(classes: map<TypeId, ClassInfo>, ctx: Ctx, t: TypeId,
                                                path: seq<TypeId>, fuel: nat)
    requires Valid(classes, ctx) && Consistent(ctx) && t in classes
    ensures var o := CreateInstance(classes, ctx, t, path, fuel);
            && Consistent(o.ctx)
            && (o.res.Ok? ==> ctx.nextId <= o.res.value.id < o.ctx.nextId && o.res.value.typ == t
                              && ArgsResolved(classes, ctx.registry, DepsFor(ctx.depCache, t), [], o.res.value.fields))
    decreases fuel, 2
  {
    var deps := DepsFor(ctx.depCache, t);
    if deps != [] {
      ArgsKeepConsistent(classes, ctx, deps, 0, [], path, fuel);
      ArgsStep(classes, ctx, t, path, fuel);
      assert deps[0..] == deps;
    }
  }

  /** The argument loop keeps the container consistent and, on success,
      binds one instance per remaining entry, of the class the lookup
      picks for its type. */
  lemma {:induction false} ArgsKeepConsistent(classes: map<TypeId, ClassInfo>, ctx: Ctx, deps: seq<Dep>, i: nat,
                                             acc: seq<Field>, path: seq<TypeId>, fuel: nat)
    requires Valid(classes, ctx) && Consistent(ctx) && i <= |deps|
    ensures var o := ResolveArgs(classes, ctx, deps, i, acc, path, fuel);
            && Consistent(o.ctx)
            && (o.res.Ok? ==> ArgsResolved(classes, ctx.registry, deps[i..], acc, o.res.value))
    decreases fuel, 1, |deps| - i
  {
    if i == |deps| {
      assert acc[..|acc|] == acc;
    } else {
      var g := GetBean(classes, ctx, deps[i].depType, path, fuel);
      GetBeanKeepsConsistent(classes, ctx, deps[i].depType, path, fuel);
      if g.res.Ok? {
        var f := Field(deps[i].name, g.res.value);
        ArgsKeepConsistent(classes, g.ctx, deps, i + 1, acc + [f], path, fuel);
        var o := ResolveArgs(classes, ctx, deps, i, acc, path, fuel);
        if o.res.Ok? {
          assert deps[i..] == [deps[i]] + deps[i + 1..];
          ArgsResolvedCons(classes, ctx.registry, deps[i], deps[i + 1..], acc, f, o.res.value);
        }
      }
    }
  }

  /** Registration empties the slot of the registered type and so keeps
      the container consistent even when it turns a singleton into a
      prototype. */
  lemma RegisterKeepsConsistent(classes: map<TypeId, ClassInfo>, ctx: Ctx, t: TypeId, scope: Scope, primary: bool)
    requires Valid(classes, ctx) && Consistent(ctx) && t in classes
    ensures Consistent(Register(classes, ctx, t, scope, primary))
  {
  }

  // ---------------------------------------------------------------------
  // Registration and the dependency memo

  /** `register_component` puts a fresh config under `t` with an empty
      slot, keeps `t`'s first-registration position, leaves every other
      config and slot alone and makes sure `t` has a dependency map. */
  lemma RegisterInsertsOrReplaces(classes: map<TypeId, ClassInfo>, ctx: Ctx, t: TypeId, scope: Scope, primary: bool)
    requires Valid(classes, ctx) && t in classes
    ensures var c := Register(classes, ctx, t, scope, primary);
            && c.registry.entries[t] == Config(scope, primary) && t !in c.instances
            && c.registry.entries.Keys == ctx.registry.entries.Keys + {t}
            && (forall u :: u in ctx.registry.entries && u != t ==> c.registry.entries[u] == ctx.registry.entries[u])
            && (forall u :: u != t ==> (u in c.instances <==> u in ctx.instances))
            && (forall u :: u in ctx.instances && u != t ==> c.instances[u] == ctx.instances[u])
            && c.registry.keys == (if t in ctx.registry.entries then ctx.registry.keys else ctx.registry.keys + [t])
            && t in c.depCache.entries
            && c.depCache.entries[t] == (if t in ctx.depCache.entries then ctx.depCache.entries[t] else DepsOf(classes[t].params))
            && (forall u :: u in ctx.depCache.entries ==> u in c.depCache.entries && c.depCache.entries[u] == ctx.depCache.entries[u])
            && c.metrics == ctx.metrics && c.nextId == ctx.nextId
  {
  }

  /** Analysis is memoized: once a type has a map, analyzing it again
      returns the cache unchanged. */
  lemma AnalysisIsMemoized(classes: map<TypeId, ClassInfo>, cache: Dict<seq<Dep>>, t: TypeId)
    requires cache.Valid() && t in classes
    ensures Analyze(classes, Analyze(classes, cache, t), t) == Analyze(classes, cache, t)
    ensures t in cache.entries ==> Analyze(classes, cache, t) == cache
  {
  }

  /** Registering the same type twice is the same as registering it once
      with the second call's arguments: the last write wins. */
  lemma RegisterLastWriteWins(classes: map<TypeId, ClassInfo>, ctx: Ctx, t: TypeId,
                              s1: Scope, p1: bool, s2: Scope, p2: bool)
    requires Valid(classes, ctx) && t in classes
    ensures Register(classes, Register(classes, ctx, t, s1, p1), t, s2, p2) == Register(classes, ctx, t, s2, p2)
  {
  }

  // ---------------------------------------------------------------------
  // Cycle check and lookup

  /** A request for a type already on the creation path fails with the path
      extended by that type, before any lookup or construction. */
  lemma RequestOnPathIsCircular(classes: map<TypeId, ClassInfo>, ctx: Ctx, t: TypeId, path: seq<TypeId>, fuel: nat)
    requires Valid(classes, ctx) && t in path && fuel > 0
    ensures GetBean(classes, ctx, t, path, fuel) == Outcome(ctx, Err(CircularDependency(path + [t])))
  {
  }

  /** A request that neither is registered nor has a registered proper
      subclass fails with `BeanNotFound` naming the request. */
  lemma UnknownTypeIsNotFound(classes: map<TypeId, ClassInfo>, ctx: Ctx, t: TypeId, path: seq<TypeId>, fuel: nat)
    requires Valid(classes, ctx) && t !in path && fuel > 0 && t !in ctx.registry.entries
    requires forall k :: 0 <= k < |ctx.registry.keys| ==> !IsProperSubclass(classes, ctx.registry.keys[k], t)
    ensures GetBean(classes, ctx, t, path, fuel) == Outcome(ctx, Err(BeanNotFound(t)))
  {
    LookupFallsBackToFirstSubclass(classes, ctx.registry, t);
  }

  /** The A -> B -> A configuration: both registered directly, neither
      built yet. Requesting A fails with the cycle [A, B, A] and the state is
      exactly as before, so neither constructor ran. */
  lemma TwoTypeCycleIsRejected(classes: map<TypeId, ClassInfo>, ctx: Ctx, a: TypeId, b: TypeId, fuel: nat)
    requires Valid(classes, ctx) && a != b && fuel >= 3
    requires a in ctx.registry.entries && a !in ctx.instances
    requires b in ctx.registry.entries && b !in ctx.instances
    requires DepsFor(ctx.depCache, a) != [] && DepsFor(ctx.depCache, a)[0].depType == b
    requires DepsFor(ctx.depCache, b) != [] && DepsFor(ctx.depCache, b)[0].depType == a
    ensures GetBean(classes, ctx, a, [], fuel) == Outcome(ctx, Err(CircularDependency([a, b, a])))
  {
    assert a in [a, b] && [a, b] + [a] == [a, b, a];
    assert [a] + [b] == [a, b] && [] + [a] == [a];
    ArgsStep(classes, ctx, b, [a, b], fuel - 2);
    BuildStep(classes, ctx, b, [a], fuel - 1, b);
    ArgsStep(classes, ctx, a, [a], fuel - 1);
    BuildStep(classes, ctx, a, [], fuel, a);
  }

  /** A cycle that passes through an interface is still caught when it
      comes back to a type requested by its own name: `a` asks for `i`,
      `i` resolves to `b`, and `b` asks for `a`. The path holds `a` and
      `b`, the request for `a` finds `a` on it, and the failure is the
      cycle [a, b, a] with the state as before. */
  lemma InterfaceHopCycleIsRejected(classes: map<TypeId, ClassInfo>, ctx: Ctx, a: TypeId, i: TypeId, b: TypeId, fuel: nat)
    requires Valid(classes, ctx) && a != b && i != a && fuel >= 3
    requires a in ctx.registry.entries && a !in ctx.instances
    requires Lookup(classes, ctx.registry, i) == Some(b) && b !in ctx.instances
    requires DepsFor(ctx.depCache, a) != [] && DepsFor(ctx.depCache, a)[0].depType == i
    requires DepsFor(ctx.depCache, b) != [] && DepsFor(ctx.depCache, b)[0].depType == a
    ensures GetBean(classes, ctx, a, [], fuel) == Outcome(ctx, Err(CircularDependency([a, b, a])))
  {
    assert a in [a, b] && [a, b] + [a] == [a, b, a];
    assert [a] + [b] == [a, b] && [] + [a] == [a];
    ArgsStep(classes, ctx, b, [a, b], fuel - 2);
    BuildStep(classes, ctx, i, [a], fuel - 1, b);
    ArgsStep(classes, ctx, a, [a], fuel - 1);
    BuildStep(classes, ctx, a, [], fuel, a);
  }

  /** The cycle check tests the requested type while the path records the
      class it resolved to. A registered `a` whose first dependency is an
      unregistered capability `i` that resolves back to `a` is therefore
      never reported as a cycle: every request for `i` runs until the
      recursion bound, whatever the bound. */
  lemma {:induction false} CapabilityCycleRecursesForever(classes: map<TypeId, ClassInfo>, ctx: Ctx, i: TypeId, a: TypeId,
                                                         path: seq<TypeId>, fuel: nat)
    requires Valid(classes, ctx) && i !in ctx.registry.entries && i !in path
    requires Lookup(classes, ctx.registry, i) == Some(a) && a !in ctx.instances
    requires DepsFor(ctx.depCache, a) != [] && DepsFor(ctx.depCache, a)[0].depType == i
    ensures GetBean(classes, ctx, i, path, fuel) == Outcome(ctx, Err(RecursionLimit))
    decreases fuel
  {
    if fuel > 0 {
      CapabilityCycleRecursesForever(classes, ctx, i, a, path + [a], fuel - 1);
      ArgsStep(classes, ctx, a, path + [a], fuel - 1);
      BuildStep(classes, ctx, i, path, fuel, a);
    }
  }

  /** The same configuration requested through `a` itself. */
  lemma CapabilityCycleExhaustsRecursion(classes: map<TypeId, ClassInfo>, ctx: Ctx, i: TypeId, a: TypeId, fuel: nat)
    requires Valid(classes, ctx) && i !in ctx.registry.entries
    requires Lookup(classes, ctx.registry, i) == Some(a) && a !in ctx.instances
    requires DepsFor(ctx.depCache, a) != [] && DepsFor(ctx.depCache, a)[0].depType == i
    ensures GetBean(classes, ctx, a, [], fuel) == Outcome(ctx, Err(RecursionLimit))
  {
    if fuel > 0 {
      assert [] + [a] == [a];
      CapabilityCycleRecursesForever(classes, ctx, i, a, [a], fuel - 1);
      ArgsStep(classes, ctx, a, [a], fuel - 1);
      BuildStep(classes, ctx, a, [], fuel, a);
    }
  }

  // ---------------------------------------------------------------------
  // Scopes

  /** A singleton whose slot is filled is returned as is: no construction,
      no change to any count or slot. */
  lemma CachedSingletonIsReturned(classes: map<TypeId, ClassInfo>, ctx: Ctx, t: TypeId, path: seq<TypeId>, fuel: nat)
    requires Valid(classes, ctx) && t in ctx.registry.entries && Cached(ctx, t) && t !in path && fuel > 0
    ensures GetBean(classes, ctx, t, path, fuel) == Outcome(ctx, Ok(ctx.instances[t]))
  {
  }

  /** After a successful request for a registered singleton its slot holds
      the returned instance, and every later request returns that same
      instance and changes nothing. */
  lemma SingletonIsShared(classes: map<TypeId, ClassInfo>, ctx: Ctx, t: TypeId, path: seq<TypeId>, fuel: nat,
                          path2: seq<TypeId>, fuel2: nat)
    requires Valid(classes, ctx) && t in ctx.registry.entries && ctx.registry.entries[t].scope == Singleton
    requires t !in path && fuel > 0 && t !in path2 && fuel2 > 0
    ensures var o := GetBean(classes, ctx, t, path, fuel);
            o.res.Ok? ==> t in o.ctx.instances && o.ctx.instances[t] == o.res.value
                          && GetBean(classes, o.ctx, t, path2, fuel2) == Outcome(o.ctx, o.res)
  {
    if !Cached(ctx, t) {
      BuildStep(classes, ctx, t, path, fuel, t);
    }
  }

  /** A constructed instance gets an id at least the state's next id. */
  lemma CreatedBeanIsFresh(classes: map<TypeId, ClassInfo>, ctx: Ctx, t: TypeId, path: seq<TypeId>, fuel: nat)
    requires Valid(classes, ctx) && t in classes
    ensures var o := CreateInstance(classes, ctx, t, path, fuel);
            o.res.Ok? ==> o.res.value.id >= ctx.nextId
  {
    var deps := DepsFor(ctx.depCache, t);
    if deps != [] {
      ArgsStep(classes, ctx, t, path, fuel);
    }
  }

  /** One prototype request: a new id, and still no slot. */
  lemma PrototypeRequestBuilds(classes: map<TypeId, ClassInfo>, ctx: Ctx, t: TypeId, path: seq<TypeId>, fuel: nat)
    requires Valid(classes, ctx) && Consistent(ctx) && t in ctx.registry.entries && ctx.registry.entries[t].scope == Prototype
    ensures var o := GetBean(classes, ctx, t, path, fuel);
            Consistent(o.ctx) && t !in o.ctx.instances
            && (o.res.Ok? ==> ctx.nextId <= o.res.value.id < o.ctx.nextId)
  {
    GetBeanKeepsConsistent(classes, ctx, t, path, fuel);
    if fuel > 0 && t !in path {
      BuildStep(classes, ctx, t, path, fuel, t);
      CreatedBeanIsFresh(classes, ctx, t, path + [t], fuel - 1);
    }
  }

  /** A prototype request builds an instance whose id was never handed out
      before and leaves no slot behind; two requests in a row return
      different instances. */
  lemma PrototypeIsFresh(classes: map<TypeId, ClassInfo>, ctx: Ctx, t: TypeId, path: seq<TypeId>, fuel: nat,
                         path2: seq<TypeId>, fuel2: nat)
    requires Valid(classes, ctx) && Consistent(ctx) && t in ctx.registry.entries && ctx.registry.entries[t].scope == Prototype
    ensures var o := GetBean(classes, ctx, t, path, fuel);
            o.res.Ok? ==> o.res.value.id >= ctx.nextId && t !in o.ctx.instances
                          && var o2 := GetBean(classes, o.ctx, t, path2, fuel2);
                             (o2.res.Ok? ==> o2.res.value.id != o.res.value.id)
  {
    var o := GetBean(classes, ctx, t, path, fuel);
    PrototypeRequestBuilds(classes, ctx, t, path, fuel);
    PrototypeRequestBuilds(classes, o.ctx, t, path2, fuel2);
  }

  // ---------------------------------------------------------------------
  // Failures and counts

  /** Publishing `rt` touches nothing that belongs to another type. */
  lemma PublishSparesOthers(ctx: Ctx, rt: TypeId, scope: Scope, b: Bean, u: TypeId)
    requires u != rt
    ensures Untouched(ctx, Publish(ctx, rt, scope, b).ctx, u)
  {
  }

  /** A class whose constructor raises never gets an instance or a count:
      its slot and creation count survive every request. */
  lemma {:induction false} RaisingConstructorLeavesNoTrace(classes: map<TypeId, ClassInfo>, ctx: Ctx, t: TypeId,
                                                          path: seq<TypeId>, fuel: nat, u: TypeId)
    requires Valid(classes, ctx) && u in classes && classes[u].ctorRaises
    ensures Untouched(ctx, GetBean(classes, ctx, t, path, fuel).ctx, u)
    decreases fuel, 0
  {
    if fuel > 0 && t !in path {
      match Lookup(classes, ctx.registry, t)
      case None =>
      case Some(rt) =>
        if !Cached(ctx, rt) {
          var c := CreateInstance(classes, ctx, rt, path + [rt], fuel - 1);
          CreateLeavesRaisingUntouched(classes, ctx, rt, path + [rt], fuel - 1, u);
          BuildStep(classes, ctx, t, path, fuel, rt);
          if c.res.Ok? {
            PublishSparesOthers(c.ctx, rt, ctx.registry.entries[rt].scope, c.res.value, u);
          }
        }
    }
  }

  lemma {:induction false} CreateLeavesRaisingUntouched(classes: map<TypeId, ClassInfo>, ctx: Ctx, t: TypeId,
                                                       path: seq<TypeId>, fuel: nat, u: TypeId)
    requires Valid(classes, ctx) && t in classes && u in classes && classes[u].ctorRaises
    ensures var o := CreateInstance(classes, ctx, t, path, fuel);
            Untouched(ctx, o.ctx, u) && (t == u ==> o.res.Err?)
    decreases fuel, 2
  {
    var deps := DepsFor(ctx.depCache, t);
    if deps != [] {
      ArgsLeaveRaisingUntouched(classes, ctx, deps, 0, [], path, fuel, u);
      ArgsStep(classes, ctx, t, path, fuel);
    }
  }

  lemma {:induction false} ArgsLeaveRaisingUntouched(classes: map<TypeId, ClassInfo>, ctx: Ctx, deps: seq<Dep>, i: nat,
                                                    acc: seq<Field>, path: seq<TypeId>, fuel: nat, u: TypeId)
    requires Valid(classes, ctx) && i <= |deps| && u in classes && classes[u].ctorRaises
    ensures Untouched(ctx, ResolveArgs(classes, ctx, deps, i, acc, path, fuel).ctx, u)
    decreases fuel, 1, |deps| - i
  {
    if i < |deps| {
      var g := GetBean(classes, ctx, deps[i].depType, path, fuel);
      RaisingConstructorLeavesNoTrace(classes, ctx, deps[i].depType, path, fuel, u);
      if g.res.Ok? {
        ArgsLeaveRaisingUntouched(classes, g.ctx, deps, i + 1, acc + [Field(deps[i].name, g.res.value)], path, fuel, u);
      }
    }
  }

  /** A constructor that raises, on a type with no dependencies, fails the
      request with its own error, unchanged, and nothing else happens. */
  lemma RaisingConstructorPropagates(classes: map<TypeId, ClassInfo>, ctx: Ctx, t: TypeId, path: seq<TypeId>, fuel: nat)
    requires Valid(classes, ctx) && t in ctx.registry.entries && !Cached(ctx, t) && t !in path && fuel > 0
    requires DepsFor(ctx.depCache, t) == [] && classes[t].ctorRaises && FirstMissing(classes[t].params, []) == None
    ensures GetBean(classes, ctx, t, path, fuel) == Outcome(ctx, Err(ConstructorRaised(t)))
  {
    BuildStep(classes, ctx, t, path, fuel, t);
  }

  /** The first dependency's failure is the request's failure, unchanged
      and with the state that dependency left behind. */
  lemma DependencyErrorPropagates(classes: map<TypeId, ClassInfo>, ctx: Ctx, t: TypeId, path: seq<TypeId>, fuel: nat)
    requires Valid(classes, ctx) && t in ctx.registry.entries && !Cached(ctx, t) && t !in path && fuel > 0
    requires DepsFor(ctx.depCache, t) != []
    ensures var g := GetBean(classes, ctx, DepsFor(ctx.depCache, t)[0].depType, path + [t], fuel - 1);
            g.res.Err? ==> GetBean(classes, ctx, t, path, fuel) == g
  {
    BuildStep(classes, ctx, t, path, fuel, t);
    ArgsStep(classes, ctx, t, path + [t], fuel - 1);
  }

  /** A dependency that is neither registered nor implemented fails the
      request with `BeanNotFound` naming the dependency, not the requester. */
  lemma MissingDependencyIsNamed(classes: map<TypeId, ClassInfo>, ctx: Ctx, t: TypeId, path: seq<TypeId>, fuel: nat)
    requires Valid(classes, ctx) && t in ctx.registry.entries && !Cached(ctx, t) && t !in path && fuel > 1
    requires DepsFor(ctx.depCache, t) != []
    requires var d := DepsFor(ctx.depCache, t)[0].depType;
             d !in path + [t] && Lookup(classes, ctx.registry, d) == None
    ensures GetBean(classes, ctx, t, path, fuel) == Outcome(ctx, Err(BeanNotFound(DepsFor(ctx.depCache, t)[0].depType)))
  {
    DependencyErrorPropagates(classes, ctx, t, path, fuel);
  }

  // ---------------------------------------------------------------------
  // The arguments a construction passes

  /** A successful argument loop passes, after the arguments it started
      with, one keyword argument per dependency-map entry from `i` on,
      named after that entry and in the map's order. */
  lemma {:induction false} ResolvedArgsFollowDeps(classes: map<TypeId, ClassInfo>, ctx: Ctx, deps: seq<Dep>, i: nat,
                                                  acc: seq<Field>, path: seq<TypeId>, fuel: nat)
    requires Valid(classes, ctx) && i <= |deps|
    ensures var o := ResolveArgs(classes, ctx, deps, i, acc, path, fuel);
            o.res.Ok? ==> Names(o.res.value) == Names(acc) + DepNames(deps[i..])
    decreases |deps| - i
  {
    if i == |deps| {
      assert deps[i..] == [];
    } else {
      assert deps[i..] == [deps[i]] + deps[i + 1..];
      DepNamesAppend([deps[i]], deps[i + 1..]);
      var g := GetBean(classes, ctx, deps[i].depType, path, fuel);
      if g.res.Ok? {
        var f := Field(deps[i].name, g.res.value);
        ResolvedArgsFollowDeps(classes, g.ctx, deps, i + 1, acc + [f], path, fuel);
        NamesAppend(acc, [f]);
      }
    }
  }

  /** A successful `_create_instance_optimized(t)` returns an instance of
      `t` itself, built with one keyword argument per entry of `t`'s cached
      dependency map; after `register_component(t)` that map is the
      analysis of `t`'s constructor, so these are its injected parameters. */
  lemma CreatedWithCachedArguments(classes: map<TypeId, ClassInfo>, ctx: Ctx, t: TypeId, path: seq<TypeId>, fuel: nat)
    requires Valid(classes, ctx) && t in classes
    ensures var o := CreateInstance(classes, ctx, t, path, fuel);
            o.res.Ok? ==> o.res.value.typ == t && Names(o.res.value.fields) == DepNames(DepsFor(ctx.depCache, t))
  {
    var deps := DepsFor(ctx.depCache, t);
    if deps != [] {
      ResolvedArgsFollowDeps(classes, ctx, deps, 0, [], path, fuel);
      assert deps[0..] == deps;
    }
  }

  /** What `get_bean(t)` returns on a consistent container: an instance of
      the class the lookup picks for `t`, that is `t` itself when it is
      registered, else its first registered proper subclass. */
  lemma RequestReturnsLookedUpClass(classes: map<TypeId, ClassInfo>, ctx: Ctx, t: TypeId, path: seq<TypeId>, fuel: nat)
    requires Valid(classes, ctx) && Consistent(ctx)
    ensures var o := GetBean(classes, ctx, t, path, fuel);
            o.res.Ok? ==> Lookup(classes, ctx.registry, t) == Some(o.res.value.typ)
  {
    GetBeanKeepsConsistent(classes, ctx, t, path, fuel);
  }

  /** The whole argument list of a successful construction on a consistent
      container: entry `k` of `t`'s dependency map is bound under its
      parameter name to an instance of the class the lookup picks for its
      type, and nothing else is passed. */
  lemma CreatedWithLookedUpArguments(classes: map<TypeId, ClassInfo>, ctx: Ctx, t: TypeId, path: seq<TypeId>, fuel: nat)
    requires Valid(classes, ctx) && Consistent(ctx) && t in classes
    ensures var o := CreateInstance(classes, ctx, t, path, fuel);
            var deps := DepsFor(ctx.depCache, t);
            o.res.Ok? ==>
              && o.res.value.typ == t && |o.res.value.fields| == |deps|
              && forall k :: 0 <= k < |deps| ==>
                   o.res.value.fields[k].name == deps[k].name
                   && Lookup(classes, ctx.registry, deps[k].depType) == Some(o.res.value.fields[k].value.typ)
  {
    var o := CreateInstance(classes, ctx, t, path, fuel);
    var deps := DepsFor(ctx.depCache, t);
    CreateKeepsConsistent(classes, ctx, t, path, fuel);
    CreatedWithCachedArguments(classes, ctx, t, path, fuel);
    if o.res.Ok? {
      ArgumentsLineUp(classes, ctx.registry, deps, o.res.value.fields);
    }
  }

  lemma ArgumentsLineUp(classes: map<TypeId, ClassInfo>, reg: Dict<Config>, deps: seq<Dep>, fields: seq<Field>)
    requires ArgsResolved(classes, reg, deps, [], fields) && Names(fields) == DepNames(deps)
    ensures |fields| == |deps|
    ensures forall k :: 0 <= k < |deps| ==>
              fields[k].name == deps[k].name && Lookup(classes, reg, deps[k].depType) == Some(fields[k].value.typ)
  {
    var names := Names(fields);
    assert |names| == |fields|;
    forall k | 0 <= k < |deps|
      ensures fields[k].name == deps[k].name && Lookup(classes, reg, deps[k].depType) == Some(fields[k].value.typ)
    {
      assert names[k] == fields[k].name && DepNames(deps)[k] == deps[k].name;
      assert Lookup(classes, reg, deps[k].depType) == Some(fields[0 + k].value.typ);
    }
  }

  /** With direct wiring, nothing on the creation path is built by a
      nested request: its count and slot stay as they were. */
  lemma {:induction false} PathIsNotRebuilt(classes: map<TypeId, ClassInfo>, ctx: Ctx, t: TypeId, path: seq<TypeId>,
                                           fuel: nat, u: TypeId)
    requires Valid(classes, ctx) && DirectlyWired(ctx) && t in ctx.registry.entries && u in path
    ensures Untouched(ctx, GetBean(classes, ctx, t, path, fuel).ctx, u)
    decreases fuel, 0
  {
    if fuel > 0 && t !in path && !Cached(ctx, t) {
      var c := CreateInstance(classes, ctx, t, path + [t], fuel - 1);
      CreateLeavesPathUntouched(classes, ctx, t, path + [t], fuel - 1, u);
      BuildStep(classes, ctx, t, path, fuel, t);
      if c.res.Ok? {
        PublishSparesOthers(c.ctx, t, ctx.registry.entries[t].scope, c.res.value, u);
      }
    }
  }

  lemma {:induction false} CreateLeavesPathUntouched(classes: map<TypeId, ClassInfo>, ctx: Ctx, t: TypeId,
                                                    path: seq<TypeId>, fuel: nat, u: TypeId)
    requires Valid(classes, ctx) && DirectlyWired(ctx) && t in classes && u in path
    ensures Untouched(ctx, CreateInstance(classes, ctx, t, path, fuel).ctx, u)
    decreases fuel, 2
  {
    var deps := DepsFor(ctx.depCache, t);
    if deps != [] {
      ArgsLeavePathUntouched(classes, ctx, deps, 0, [], path, fuel, u);
      ArgsStep(classes, ctx, t, path, fuel);
    }
  }

  lemma {:induction false} ArgsLeavePathUntouched(classes: map<TypeId, ClassInfo>, ctx: Ctx, deps: seq<Dep>, i: nat,
                                                 acc: seq<Field>, path: seq<TypeId>, fuel: nat, u: TypeId)
    requires Valid(classes, ctx) && DirectlyWired(ctx) && i <= |deps| && u in path
    requires forall k :: i <= k < |deps| ==> deps[k].depType in ctx.registry.entries
    ensures Untouched(ctx, ResolveArgs(classes, ctx, deps, i, acc, path, fuel).ctx, u)
    decreases fuel, 1, |deps| - i
  {
    if i < |deps| {
      var g := GetBean(classes, ctx, deps[i].depType, path, fuel);
      PathIsNotRebuilt(classes, ctx, deps[i].depType, path, fuel, u);
      if g.res.Ok? {
        ArgsLeavePathUntouched(classes, g.ctx, deps, i + 1, acc + [Field(deps[i].name, g.res.value)], path, fuel, u);
      }
    }
  }

  /** With direct wiring, a failed request leaves the requested type's slot
      and count untouched: no constructor of a type whose resolution fails
      ever ran in that resolution. */
  lemma FailedRequestBuildsNothingOfItsType(classes: map<TypeId, ClassInfo>, ctx: Ctx, t: TypeId, path: seq<TypeId>, fuel: nat)
    requires Valid(classes, ctx) && DirectlyWired(ctx) && t in ctx.registry.entries && t !in path
    ensures var o := GetBean(classes, ctx, t, path, fuel);
            o.res.Err? ==> Untouched(ctx, o.ctx, t)
  {
    if fuel > 0 && !Cached(ctx, t) {
      CreateLeavesPathUntouched(classes, ctx, t, path + [t], fuel - 1, t);
      BuildStep(classes, ctx, t, path, fuel, t);
    }
  }

  /** With direct wiring, a request that constructs raises the requested
      type's creation count by exactly one. */
  lemma ConstructionCountsOnce(classes: map<TypeId, ClassInfo>, ctx: Ctx, t: TypeId, path: seq<TypeId>, fuel: nat)
    requires Valid(classes, ctx) && DirectlyWired(ctx) && t in ctx.registry.entries && t !in path && !Cached(ctx, t)
    ensures var o := GetBean(classes, ctx, t, path, fuel);
            o.res.Ok? ==> Count(o.ctx.metrics, t) == Count(ctx.metrics, t) + 1
  {
    if fuel > 0 {
      CreateLeavesPathUntouched(classes, ctx, t, path + [t], fuel - 1, t);
      BuildStep(classes, ctx, t, path, fuel, t);
    }
  }

  /** A freshly registered singleton requested any number of times is
      built once: the first success leaves its count at one and every later
      request returns the same instance without changing anything. */
  lemma SingletonIsBuiltOnce(classes: map<TypeId, ClassInfo>, ctx: Ctx, t: TypeId, fuel: nat, fuel2: nat)
    requires Valid(classes, ctx) && DirectlyWired(ctx) && t in ctx.registry.entries
    requires ctx.registry.entries[t].scope == Singleton && t !in ctx.instances
    requires Count(ctx.metrics, t) == 0 && fuel > 0 && fuel2 > 0
    ensures var o := GetBean(classes, ctx, t, [], fuel);
            o.res.Ok? ==> Count(o.ctx.metrics, t) == 1 && GetBean(classes, o.ctx, t, [], fuel2) == o
  {
    ConstructionCountsOnce(classes, ctx, t, [], fuel);
    SingletonIsShared(classes, ctx, t, [], fuel, [], fuel2);
  }

  // ---------------------------------------------------------------------
  // Termination under direct wiring

  lemma ExtendingPathShrinksRest(keys: set<TypeId>, path: seq<TypeId>, t: TypeId)
    requires t in keys && t !in path
    ensures |keys - Elems(path + [t])| == |keys - Elems(path)| - 1
  {
    assert keys - Elems(path + [t]) == (keys - Elems(path)) - {t};
  }

  /** With direct wiring, a stack bound larger than the number of
      registered types off the path is never reached: every request ends
      in an instance or in an error of the configuration or a constructor. */
  lemma {:induction false} DirectWiringStaysWithinBound(classes: map<TypeId, ClassInfo>, ctx: Ctx, t: TypeId,
                                                       path: seq<TypeId>, fuel: nat)
    requires Valid(classes, ctx) && DirectlyWired(ctx) && t in ctx.registry.entries
    requires fuel > |ctx.registry.entries.Keys - Elems(path)|
    ensures GetBean(classes, ctx, t, path, fuel).res != Err(RecursionLimit)
    decreases fuel, 0
  {
    if t !in path && !Cached(ctx, t) {
      ExtendingPathShrinksRest(ctx.registry.entries.Keys, path, t);
      CreateStaysWithinBound(classes, ctx, t, path + [t], fuel - 1);
      BuildStep(classes, ctx, t, path, fuel, t);
    }
  }

  lemma {:induction false} CreateStaysWithinBound(classes: map<TypeId, ClassInfo>, ctx: Ctx, t: TypeId,
                                                 path: seq<TypeId>, fuel: nat)
    requires Valid(classes, ctx) && DirectlyWired(ctx) && t in classes
    requires fuel > |ctx.registry.entries.Keys - Elems(path)|
    ensures CreateInstance(classes, ctx, t, path, fuel).res != Err(RecursionLimit)
    decreases fuel, 2
  {
    var deps := DepsFor(ctx.depCache, t);
    if deps != [] {
      ArgsStayWithinBound(classes, ctx, deps, 0, [], path, fuel);
      ArgsStep(classes, ctx, t, path, fuel);
    }
  }

  lemma {:induction false} ArgsStayWithinBound(classes: map<TypeId, ClassInfo>, ctx: Ctx, deps: seq<Dep>, i: nat,
                                              acc: seq<Field>, path: seq<TypeId>, fuel: nat)
    requires Valid(classes, ctx) && DirectlyWired(ctx) && i <= |deps|
    requires forall k :: i <= k < |deps| ==> deps[k].depType in ctx.registry.entries
    requires fuel > |ctx.registry.entries.Keys - Elems(path)|
    ensures ResolveArgs(classes, ctx, deps, i, acc, path, fuel).res != Err(RecursionLimit)
    decreases fuel, 1, |deps| - i
  {
    if i < |deps| {
      var g := GetBean(classes, ctx, deps[i].depType, path, fuel);
      DirectWiringStaysWithinBound(classes, ctx, deps[i].depType, path, fuel);
      if g.res.Ok? {
        ArgsStayWithinBound(classes, g.ctx, deps, i + 1, acc + [Field(deps[i].name, g.res.value)], path, fuel);
      }
    }
  }

  // ---------------------------------------------------------------------
  // Cache reset

  /** After `clear_cache` a registered type that is not a built singleton
      is constructed with no arguments at all: the resolver reads only the
      cache and never re-analyzes, so a required parameter now fails the
      call. */
  lemma ClearedCacheConstructsWithoutArguments(classes: map<TypeId, ClassInfo>, ctx: Ctx, t: TypeId,
                                               path: seq<TypeId>, fuel: nat)
    requires Valid(classes, ctx) && t in ctx.registry.entries && !Cached(ctx, t) && t !in path && fuel > 0
    ensures Valid(classes, ClearCache(ctx))
    ensures GetBean(classes, ClearCache(ctx), t, path, fuel).res == Construct(classes[t], t, [], ctx.nextId)
  {
  }
}
