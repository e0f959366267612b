/** The optimized container's state and its operations as functions on
    that state (optimized_spring_di.py, class `OptimizedApplicationContext`).

    `GetBean`, `CreateInstance` and `ResolveArgs` follow `get_bean`,
    `_create_instance_optimized` and its argument loop. Each returns the new
    state beside the result, so the partial work of a failed request (the
    dependencies already built, singletons already published) stays visible.
    `fuel` is the interpreter's recursion bound: every nested `get_bean`
    spends one unit and a request that runs out fails with `RecursionLimit`. */
module Resolution {
  import opened Beans
  import opened Dicts
  import opened TypeLookup
  import opened DependencyAnalysis

  /** `_component_configs` (split into the registry of configs and the
      singleton slots `instances`), `_dependency_cache`, the creation
      counters of `_metrics`, and the next fresh instance id. */
  datatype Ctx = Ctx(registry: Dict<Config>, instances: map<TypeId, Bean>, depCache: Dict<seq<Dep>>,
                     metrics: map<TypeId, nat>, nextId: nat)

  datatype Outcome<T> = Outcome(ctx: Ctx, res: Result<T>)

  /** The registry names only classes of the program and both dicts keep their order. */
  ghost predicate Valid(classes: map<TypeId, ClassInfo>, ctx: Ctx) {
    RegistryOk(classes, ctx.registry) && ctx.depCache.Valid()
  }

  /** Resolution never registers, re-configures or analyzes, and ids only grow. */
  ghost predicate Preserves(c: Ctx, c': Ctx) {
    c'.registry == c.registry && c'.depCache == c.depCache && c.nextId <= c'.nextId
  }

  /** What the container keeps true between requests: only registered
      singletons hold an instance, every held instance is an instance of
      the class whose slot holds it and was handed out already, and a
      counter that exists has counted something. */
  ghost predicate Consistent(ctx: Ctx) {
    && (forall t :: t in ctx.instances ==>
          && t in ctx.registry.entries && ctx.registry.entries[t].scope == Singleton
          && ctx.instances[t].typ == t && ctx.instances[t].id < ctx.nextId)
    && (forall t :: t in ctx.metrics ==> ctx.metrics[t] >= 1)
  }

  /** `_dependency_cache.get(t, {})`. */
  function DepsFor(cache: Dict<seq<Dep>>, t: TypeId): seq<Dep> {
    if t in cache.entries then cache.entries[t] else []
  }

  /** `config['scope'] == 'singleton' and config['instance']`. */
  predicate Cached(ctx: Ctx, t: TypeId)
    requires t in ctx.registry.entries
  {
    ctx.registry.entries[t].scope == Singleton && t in ctx.instances
  }

  /** `get_bean(t, path)`. */
  function GetBean(classes: map<TypeId, ClassInfo>, ctx: Ctx, t: TypeId, path: seq<TypeId>, fuel: nat): (o: Outcome<Bean>)
    requires Valid(classes, ctx)
    ensures Preserves(ctx, o.ctx)
    decreases fuel, 0
  {
    if fuel == 0 then Outcome(ctx, Err(RecursionLimit))
    else if t in path then Outcome(ctx, Err(CircularDependency(path + [t])))
    else match Lookup(classes, ctx.registry, t)
      case None => Outcome(ctx, Err(BeanNotFound(t)))
      case Some(rt) =>
        if Cached(ctx, rt) then Outcome(ctx, Ok(ctx.instances[rt]))
        else
          var c := CreateInstance(classes, ctx, rt, path + [rt], fuel - 1);
          if c.res.Err? then c else Publish(c.ctx, rt, ctx.registry.entries[rt].scope, c.res.value)
  }

  /** The end of a successful `get_bean`: a singleton's instance goes into
      its slot, and the creation count of the built type goes up by one. */
  function Publish(ctx: Ctx, rt: TypeId, scope: Scope, b: Bean): (o: Outcome<Bean>)
    ensures Preserves(ctx, o.ctx) && o.ctx.nextId == ctx.nextId
    ensures o.res == Ok(b)
  {
    var instances := if scope == Singleton then ctx.instances[rt := b] else ctx.instances;
    Outcome(ctx.(instances := instances, metrics := Inc(ctx.metrics, rt)), Ok(b))
  }

  /** `_create_instance_optimized(t, path)`: resolve the cached dependency
      list, then call the constructor. */
  function CreateInstance(classes: map<TypeId, ClassInfo>, ctx: Ctx, t: TypeId, path: seq<TypeId>, fuel: nat): (o: Outcome<Bean>)
    requires Valid(classes, ctx) && t in classes
    ensures Preserves(ctx, o.ctx)
    decreases fuel, 2
  {
    var deps := DepsFor(ctx.depCache, t);
    if deps == [] then Instantiate(classes, ctx, t, [])
    else
      var a := ResolveArgs(classes, ctx, deps, 0, [], path, fuel);
      if a.res.Err? then Outcome(a.ctx, Err(a.res.error)) else Instantiate(classes, a.ctx, t, a.res.value)
  }

  /** `component_type(**kwargs)`: a successful call consumes one fresh id. */
  function Instantiate(classes: map<TypeId, ClassInfo>, ctx: Ctx, t: TypeId, fields: seq<Field>): (o: Outcome<Bean>)
    requires t in classes
    ensures Preserves(ctx, o.ctx)
  {
    var r := Construct(classes[t], t, fields, ctx.nextId);
    if r.Ok? then Outcome(ctx.(nextId := ctx.nextId + 1), r) else Outcome(ctx, r)
  }

  /** The loop of `_create_instance_optimized` from entry `i` on, with the
      keyword arguments `acc` resolved so far; it stops at the first failure. */
  function ResolveArgs(classes: map<TypeId, ClassInfo>, ctx: Ctx, deps: seq<Dep>, i: nat, acc: seq<Field>,
                       path: seq<TypeId>, fuel: nat): (o: Outcome<seq<Field>>)
    requires Valid(classes, ctx) && i <= |deps|
    ensures Preserves(ctx, o.ctx)
    decreases fuel, 1, |deps| - i
  {
    if i == |deps| then Outcome(ctx, Ok(acc))
    else
      var g := GetBean(classes, ctx, deps[i].depType, path, fuel);
      if g.res.Err? then Outcome(g.ctx, Err(g.res.error))
      else ResolveArgs(classes, g.ctx, deps, i + 1, acc + [Field(deps[i].name, g.res.value)], path, fuel)
  }

  /** `_analyze_dependencies(t)` as a memo: the cache after the call. */
  function Analyze(classes: map<TypeId, ClassInfo>, cache: Dict<seq<Dep>>, t: TypeId): (c: Dict<seq<Dep>>)
    requires cache.Valid() && t in classes
    ensures c.Valid()
  {
    if t in cache.entries then cache else cache.Put(t, DepsOf(classes[t].params))
  }

  /** `register_component(t, scope, primary)`: a new config with an empty
      slot replaces any earlier one, and the constructor is analyzed. */
  function Register(classes: map<TypeId, ClassInfo>, ctx: Ctx, t: TypeId, scope: Scope, primary: bool): (c: Ctx)
    requires Valid(classes, ctx) && t in classes
    ensures Valid(classes, c)
  {
    ctx.(registry := ctx.registry.Put(t, Config(scope, primary)),
         instances := ctx.instances - {t},
         depCache := Analyze(classes, ctx.depCache, t))
  }

  /** `clear_cache()`: the dependency memo is emptied; nothing else changes. */
  function ClearCache(ctx: Ctx): (c: Ctx)
    ensures c.depCache.Valid() && c.depCache.entries == map[]
  {
    ctx.(depCache := Empty())
  }
}
