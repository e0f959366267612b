/** The optimized container as the program has it: one object whose fields
    are the class-level attributes of `OptimizedApplicationContext`, whose
    methods update them in place, and the decorators that register classes
    with it. Every method is proved to compute exactly what the functions of
    `Resolution` and `Validation` say, so the lemmas about those functions
    are lemmas about these methods. */
module OptimizedContainer {
  import opened Beans
  import opened Dicts
  import opened TypeLookup
  import opened DependencyAnalysis
  import opened Resolution
  import opened Validation
  import ResolutionProperties

  class OptimizedApplicationContext {
    /** The classes of the program, as the container sees them through reflection. */
    const classes: map<TypeId, ClassInfo>
    /** `_component_configs`, without the `instance` entries. */
    var registry: Dict<Config>
    /** The `instance` entries of `_component_configs`: the singleton slots. */
    var instances: map<TypeId, Bean>
    /** `_dependency_cache`, which also stands for the `lru_cache` in front of `_analyze_dependencies`. */
    var depCache: Dict<seq<Dep>>
    /** The `creation_count` of each entry of `_metrics`. */
    var metrics: map<TypeId, nat>
    /** The id the next constructed instance receives. */
    var nextId: nat

    function State(): Ctx
      reads this
    {
      Ctx(registry, instances, depCache, metrics, nextId)
    }

    ghost predicate Valid()
      reads this
    {
      Resolution.Valid(classes, State()) && Consistent(State())
    }

    constructor (classes: map<TypeId, ClassInfo>)
      ensures Valid() && this.classes == classes
      ensures State() == Ctx(Empty(), map[], Empty(), map[], 0)
    {
      this.classes := classes;
      registry := Empty();
      instances := map[];
      depCache := Empty();
      metrics := map[];
      nextId := 0;
    }

    /** `register_component(component_type, scope, primary)`. */
    method RegisterComponent(componentType: TypeId, scope: Scope, primary: bool)
      requires Valid() && componentType in classes
      modifies this
      ensures Valid()
      ensures State() == Register(classes, old(State()), componentType, scope, primary)
    {
      ResolutionProperties.RegisterKeepsConsistent(classes, State(), componentType, scope, primary);
      registry := registry.Put(componentType, Config(scope, primary));
      instances := instances - {componentType};
      var _ := AnalyzeDependencies(componentType);
    }

    /** `_analyze_dependencies(component_type)`: the memoized dependency map. */
    method AnalyzeDependencies(componentType: TypeId) returns (deps: seq<Dep>)
      requires Resolution.Valid(classes, State()) && componentType in classes
      modifies this`depCache
      ensures Resolution.Valid(classes, State())
      ensures depCache == Analyze(classes, old(depCache), componentType)
      ensures deps == depCache.entries[componentType]
      ensures componentType !in old(depCache.entries) ==> deps == DepsOf(classes[componentType].params)
    {
      if componentType in depCache.entries {
        return depCache.entries[componentType];
      }
      var params := classes[componentType].params;
      deps := [];
      for i := 0 to |params|
        invariant deps == DepsOf(params[..i])
      {
        assert params[..i + 1][..i] == params[..i];
        var p := params[i];
        if p.name == "self" {
          continue;
        }
        if p.annotation.Some? {
          deps := deps + [Dep(p.name, p.annotation.value)];
        }
      }
      assert params[..|params|] == params;
      depCache := depCache.Put(componentType, deps);
    }

    /** `get_bean(bean_type, _creation_path)`; `fuel` is the recursion bound. */
    method GetBean(beanType: TypeId, creationPath: seq<TypeId>, fuel: nat) returns (r: Result<Bean>)
      requires Valid()
      modifies this
      ensures Valid()
      ensures Outcome(State(), r) == Resolution.GetBean(classes, old(State()), beanType, creationPath, fuel)
      ensures r.Ok? ==> Lookup(classes, registry, beanType) == Some(r.value.typ)
      decreases fuel, 0
    {
      ghost var s0 := State();
      ResolutionProperties.GetBeanKeepsConsistent(classes, s0, beanType, creationPath, fuel);
      if fuel == 0 {
        return Err(RecursionLimit);
      }
      if beanType in creationPath {
        return Err(CircularDependency(creationPath + [beanType]));
      }
      var target := ResolveTarget(beanType);
      if target.None? {
        return Err(BeanNotFound(beanType));
      }
      var rt := target.value;
      var scope := registry.entries[rt].scope;
      if scope == Singleton && rt in instances {
        return Ok(instances[rt]);
      }
      ResolutionProperties.BuildStep(classes, s0, beanType, creationPath, fuel, rt);
      r := CreateInstanceOptimized(rt, creationPath + [rt], fuel - 1);
      if r.Err? {
        return;
      }
      PublishInstance(rt, r.value);
    }

    /** The end of a successful `get_bean`: the singleton slot and the creation count. */
    method PublishInstance(rt: TypeId, b: Bean)
      requires rt in registry.entries
      modifies this`instances, this`metrics
      ensures State() == Resolution.Publish(old(State()), rt, registry.entries[rt].scope, b).ctx
    {
      if registry.entries[rt].scope == Singleton {
        instances := instances[rt := b];
      }
      metrics := Inc(metrics, rt);
    }

    /** The lookup at the head of `get_bean`: the registered config of
        `bean_type`, else that of the first registered implementation. */
    method ResolveTarget(beanType: TypeId) returns (target: Option<TypeId>)
      requires Valid()
      ensures target == Lookup(classes, registry, beanType)
      ensures target.Some? ==> target.value in registry.entries
    {
      var config := registry.Get(beanType);
      if config.Some? {
        return Some(beanType);
      }
      var impls := FindImplementations(beanType);
      FirstImplementationIsHead(classes, registry.keys, beanType);
      if impls == [] {
        return None;
      }
      return Some(impls[0]);
    }

    /** `_create_instance_optimized(component_type, creation_path)`. */
    method CreateInstanceOptimized(componentType: TypeId, creationPath: seq<TypeId>, fuel: nat) returns (r: Result<Bean>)
      requires Valid() && componentType in classes
      modifies this
      ensures Valid()
      ensures Outcome(State(), r) == Resolution.CreateInstance(classes, old(State()), componentType, creationPath, fuel)
      ensures r.Ok? ==> r.value.typ == componentType && Names(r.value.fields) == DepNames(DepsFor(old(depCache), componentType))
      ensures r.Ok? ==> forall k :: 0 <= k < |r.value.fields| ==>
                Lookup(classes, registry, DepsFor(old(depCache), componentType)[k].depType) == Some(r.value.fields[k].value.typ)
      decreases fuel, 2
    {
      ghost var s0 := State();
      ResolutionProperties.CreateKeepsConsistent(classes, s0, componentType, creationPath, fuel);
      ResolutionProperties.CreatedWithCachedArguments(classes, s0, componentType, creationPath, fuel);
      ResolutionProperties.CreatedWithLookedUpArguments(classes, s0, componentType, creationPath, fuel);
      var deps := DepsFor(depCache, componentType);
      if deps == [] {
        r := Instantiate(componentType, []);
        return;
      }
      ResolutionProperties.ArgsStep(classes, s0, componentType, creationPath, fuel);
      var resolved: seq<Field> := [];
      var i := 0;
      while i < |deps|
        invariant 0 <= i <= |deps|
        invariant Valid() && depCache == s0.depCache && nextId >= s0.nextId
        invariant ResolveArgs(classes, State(), deps, i, resolved, creationPath, fuel)
                  == ResolveArgs(classes, s0, deps, 0, [], creationPath, fuel)
      {
        var b := GetBean(deps[i].depType, creationPath, fuel);
        if b.Err? {
          return Err(b.error);
        }
        resolved := resolved + [Field(deps[i].name, b.value)];
        i := i + 1;
      }
      r := Instantiate(componentType, resolved);
    }

    /** `component_type(**resolved_dependencies)`. */
    method Instantiate(componentType: TypeId, fields: seq<Field>) returns (r: Result<Bean>)
      requires componentType in classes
      modifies this`nextId
      ensures Outcome(State(), r) == Resolution.Instantiate(classes, old(State()), componentType, fields)
    {
      r := Construct(classes[componentType], componentType, fields, nextId);
      if r.Ok? {
        nextId := nextId + 1;
      }
    }

    /** `_find_implementations(interface_type)`. */
    method FindImplementations(interfaceType: TypeId) returns (impls: seq<TypeId>)
      requires Valid()
      ensures impls == Implementations(classes, registry.keys, interfaceType)
    {
      var keys := registry.keys;
      impls := [];
      for i := 0 to |keys|
        invariant impls == Implementations(classes, keys[..i], interfaceType)
      {
        assert keys[..i + 1][..i] == keys[..i];
        if IsSubclass(classes, keys[i], interfaceType) && keys[i] != interfaceType {
          impls := impls + [keys[i]];
        }
      }
      assert keys[..|keys|] == keys;
    }

    /** `get_metrics()`: a snapshot of the creation counters, every one of
        which has counted at least one construction. */
    function GetMetrics(): (m: map<TypeId, nat>)
      requires Valid()
      reads this
      ensures forall t :: t in m ==> m[t] >= 1
      ensures m.Keys == metrics.Keys
    {
      metrics
    }

    /** `clear_cache()`. */
    method ClearCache()
      requires Valid()
      modifies this`depCache
      ensures Valid()
      ensures State() == Resolution.ClearCache(old(State()))
    {
      depCache := Empty();
    }

    /** `validate_configuration()`: the cycle check of every registered
        type, then the unresolvable dependencies of every analyzed one. */
    method ValidateConfiguration() returns (issues: seq<Issue>)
      requires Valid()
      ensures issues == Validate(classes, State())
    {
      var cycles := CycleReport();
      var unresolved := UnresolvedReport();
      issues := cycles + unresolved;
    }

    /** The first loop of `validate_configuration`: at most one cycle per registered type. */
    method CycleReport() returns (issues: seq<Issue>)
      requires Valid()
      ensures issues == CycleIssues(registry, depCache, registry.keys)
    {
      var roots := registry.keys;
      issues := [];
      for i := 0 to |roots|
        invariant issues == CycleIssues(registry, depCache, roots[..i])
      {
        assert roots[..i + 1][..i] == roots[..i];
        var cycle := DetectCircularDependencies(roots[i], {}, []);
        if cycle.Some? {
          issues := issues + [CycleIssue(cycle.value)];
        }
      }
      assert roots[..|roots|] == roots;
    }

    /** The second loop of `validate_configuration`, over the cached dependency maps. */
    method UnresolvedReport() returns (issues: seq<Issue>)
      requires Valid()
      ensures issues == UnresolvedIssues(classes, registry, depCache, depCache.keys)
    {
      var owners := depCache.keys;
      issues := [];
      for i := 0 to |owners|
        invariant issues == UnresolvedIssues(classes, registry, depCache, owners[..i])
      {
        assert owners[..i + 1][..i] == owners[..i];
        var more := UnresolvedOfOwner(owners[i], depCache.entries[owners[i]]);
        issues := issues + more;
      }
      assert owners[..|owners|] == owners;
    }

    /** The inner loop of the second pass: the dependencies of `owner` that
        are neither registered nor implemented by a registered type. */
    method UnresolvedOfOwner(owner: TypeId, deps: seq<Dep>) returns (issues: seq<Issue>)
      requires Valid()
      ensures issues == UnresolvedOf(classes, registry, owner, deps)
    {
      issues := [];
      for j := 0 to |deps|
        invariant issues == UnresolvedOf(classes, registry, owner, deps[..j])
      {
        assert deps[..j + 1][..j] == deps[..j];
        var d := deps[j].depType;
        if d !in registry.entries {
          var impls := FindImplementations(d);
          if impls == [] {
            issues := issues + [UnresolvedIssue(owner, d)];
          }
        }
      }
      assert deps[..|deps|] == deps;
    }

    /** `_detect_circular_dependencies(component_type, visited, path)`,
        returning the cycle the source raises as `CircularDependencyError`. */
    method DetectCircularDependencies(componentType: TypeId, visited: set<TypeId>, path: seq<TypeId>)
      returns (cycle: Option<seq<TypeId>>)
      requires Valid() && componentType in registry.entries
      requires NoDup(path) && OnRegistry(registry, path) && visited == Elems(path)
      ensures cycle == FindCycle(registry, depCache, componentType, path)
      ensures cycle.None? ==> forall w :: w != [] && w[0] == componentType && Walk(depCache, w) && OnRegistry(registry, w) ==>
                                NoDup(path + w)
      decreases registry.entries.Keys - Elems(path)
    {
      if FindCycle(registry, depCache, componentType, path).None? {
        forall w | w != [] && w[0] == componentType && Walk(depCache, w) && OnRegistry(registry, w)
          ensures NoDup(path + w)
        {
          NoCycleMeansSimpleWalks(registry, depCache, componentType, path, w);
        }
      }
      if componentType in visited {
        var start := IndexOf(path, componentType);
        return Some(path[start..] + [componentType]);
      }
      var visited' := visited + {componentType};
      var path' := path + [componentType];
      assert Elems(path') == Elems(path) + {componentType};
      var deps := DepsFor(depCache, componentType);
      for i := 0 to |deps|
        invariant FindCycleAmong(registry, depCache, deps, i, path') == FindCycle(registry, depCache, componentType, path)
      {
        if deps[i].depType in registry.entries {
          var c := DetectCircularDependencies(deps[i].depType, visited', path');
          if c.Some? {
            return c;
          }
        }
      }
      return None;
    }
  }

  /** `@component(scope, primary)`: registers the class and returns it unchanged. */
  method Component(context: OptimizedApplicationContext, cls: TypeId, scope: Scope, primary: bool) returns (r: TypeId)
    requires context.Valid() && cls in context.classes
    modifies context
    ensures context.Valid() && r == cls
    ensures context.State() == Register(context.classes, old(context.State()), cls, scope, primary)
  {
    context.RegisterComponent(cls, scope, primary);
    return cls;
  }

  /** `@service(scope)`: `@component` with `primary` false. */
  method Service(context: OptimizedApplicationContext, cls: TypeId, scope: Scope) returns (r: TypeId)
    requires context.Valid() && cls in context.classes
    modifies context
    ensures context.Valid() && r == cls
    ensures context.State() == Register(context.classes, old(context.State()), cls, scope, false)
  {
    r := Component(context, cls, scope, false);
  }

  /** `@repository(scope)`: `@component` with `primary` false. */
  method Repository(context: OptimizedApplicationContext, cls: TypeId, scope: Scope) returns (r: TypeId)
    requires context.Valid() && cls in context.classes
    modifies context
    ensures context.Valid() && r == cls
    ensures context.State() == Register(context.classes, old(context.State()), cls, scope, false)
  {
    r := Component(context, cls, scope, false);
  }

  /** `@controller(scope)`: `@component` with `primary` false. */
  method Controller(context: OptimizedApplicationContext, cls: TypeId, scope: Scope) returns (r: TypeId)
    requires context.Valid() && cls in context.classes
    modifies context
    ensures context.Valid() && r == cls
    ensures context.State() == Register(context.classes, old(context.State()), cls, scope, false)
  {
    r := Component(context, cls, scope, false);
  }
}
