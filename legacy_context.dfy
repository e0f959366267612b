/** The older container as the program has it: `ApplicationContext` with
    its class-level registry, the `@component` family of decorators that
    register a generated wrapper class, and the `@autowired` field
    descriptor that injects lazily on first read. Every method is proved to
    compute what the functions of `LegacyResolution` say. */
module LegacyContainer {
  import opened Beans
  import opened Dicts
  import opened TypeLookup
  import opened DependencyAnalysis
  import opened LegacyResolution

  class ApplicationContext {
    /** The classes of the program, the decorator's wrapper classes among them. */
    const classes: map<TypeId, ClassInfo>
    /** `_component_configs`, without the `instance` entries. */
    var registry: Dict<Config>
    /** The `instance` entries of `_component_configs`. */
    var instances: map<TypeId, Bean>
    /** The id the next constructed instance receives. */
    var nextId: nat

    function State(): Store
      reads this
    {
      Store(registry, instances, nextId)
    }

    ghost predicate Valid()
      reads this
    {
      LegacyResolution.Valid(classes, State()) && Consistent(State())
    }

    constructor (classes: map<TypeId, ClassInfo>)
      ensures Valid() && this.classes == classes
      ensures State() == Store(Empty(), map[], 0)
    {
      this.classes := classes;
      registry := Empty();
      instances := map[];
      nextId := 0;
    }

    /** `register_component(component_type, scope, primary)`. */
    method RegisterComponent(componentType: TypeId, scope: Scope, primary: bool)
      requires Valid() && componentType in classes
      modifies this
      ensures Valid()
      ensures State() == Register(classes, old(State()), componentType, scope, primary)
    {
      RegisterKeepsConsistent(classes, State(), componentType, scope, primary);
      registry := registry.Put(componentType, Config(scope, primary));
      instances := instances - {componentType};
    }

    /** `get_bean(bean_type)`; `fuel` is the recursion bound. */
    method GetBean(beanType: TypeId, fuel: nat) returns (r: Result<Bean>)
      requires Valid()
      modifies this
      ensures Valid()
      ensures Reply(State(), r) == LegacyResolution.GetBean(classes, old(State()), beanType, fuel)
      ensures r.Ok? ==> LegacyLookup(classes, registry, beanType) == Some(r.value.typ)
      decreases fuel, 0
    {
      ghost var s0 := State();
      GetBeanKeepsConsistent(classes, s0, beanType, fuel);
      if fuel == 0 {
        return Err(RecursionLimit);
      }
      var target := ResolveTarget(beanType);
      if target.None? {
        return Err(NoBeanForType(beanType));
      }
      var rt := target.value;
      var scope := registry.entries[rt].scope;
      if scope == Singleton && rt in instances {
        return Ok(instances[rt]);
      }
      BuildStep(classes, s0, beanType, fuel, rt);
      r := CreateInstance(rt, fuel - 1);
      if r.Err? {
        return;
      }
      if scope == Singleton {
        instances := instances[rt := r.value];
      }
    }

    /** The lookup at the head of `get_bean`: the registered config of
        `bean_type`, else that of the first registered class whose MRO
        contains it. */
    method ResolveTarget(beanType: TypeId) returns (target: Option<TypeId>)
      requires Valid()
      ensures target == LegacyLookup(classes, registry, beanType)
      ensures target.Some? ==> target.value in registry.entries
    {
      var config := registry.Get(beanType);
      if config.Some? {
        return Some(beanType);
      }
      var impls := FindImplementations(beanType);
      FirstMroImplementationIsHead(classes, registry.keys, beanType);
      if impls == [] {
        return None;
      }
      return Some(impls[0]);
    }

    /** `_create_instance(component_type)`. */
    method CreateInstance(componentType: TypeId, fuel: nat) returns (r: Result<Bean>)
      requires Valid() && componentType in classes
      modifies this
      ensures Valid()
      ensures Reply(State(), r) == LegacyResolution.CreateInstance(classes, old(State()), componentType, fuel)
      ensures r.Ok? ==> r.value.typ == componentType && Names(r.value.fields) == DepNames(DepsOf(classes[componentType].params))
      ensures r.Ok? ==> forall k :: 0 <= k < |r.value.fields| ==>
                LegacyLookup(classes, registry, DepsOf(classes[componentType].params)[k].depType) == Some(r.value.fields[k].value.typ)
      decreases fuel, 2
    {
      ghost var s0 := State();
      CreateKeepsConsistent(classes, s0, componentType, fuel);
      CreatedWithInjectedArguments(classes, s0, componentType, fuel);
      CreatedWithLookedUpArguments(classes, s0, componentType, fuel);
      var params := classes[componentType].params;
      var dependencies: seq<Field> := [];
      var i := 0;
      while i < |params|
        invariant 0 <= i <= |params|
        invariant Valid() && registry == s0.registry && nextId >= s0.nextId
        invariant ResolveParams(classes, State(), params, i, dependencies, fuel)
                  == ResolveParams(classes, s0, params, 0, [], fuel)
      {
        var p := params[i];
        if p.name == "self" || p.annotation.None? {
          i := i + 1;
          continue;
        }
        var b := GetBean(p.annotation.value, fuel);
        if b.Err? {
          return Err(b.error);
        }
        dependencies := dependencies + [Field(p.name, b.value)];
        i := i + 1;
      }
      r := Construct(classes[componentType], componentType, dependencies, nextId);
      if r.Ok? {
        nextId := nextId + 1;
      }
    }

    /** `_find_implementations(interface_type)`: every registered class
        whose MRO contains the interface, the interface itself included. */
    method FindImplementations(interfaceType: TypeId) returns (impls: seq<TypeId>)
      requires Valid()
      ensures impls == MroImplementations(classes, registry.keys, interfaceType)
    {
      var keys := registry.keys;
      impls := [];
      for i := 0 to |keys|
        invariant impls == MroImplementations(classes, keys[..i], interfaceType)
      {
        assert keys[..i + 1][..i] == keys[..i];
        if IsSubclass(classes, keys[i], interfaceType) {
          impls := impls + [keys[i]];
        }
      }
      assert keys[..|keys|] == keys;
    }
  }

  /** `@component(scope, primary)` applied to `cls`. `wrapper` is the class
      `ComponentClass` the decorator derives from `cls`; the metaclass
      registers it with the defaults as the class is created, the decorator
      registers it again, and the wrapper takes the place of `cls`. */
  method Component(context: ApplicationContext, cls: TypeId, wrapper: TypeId, scope: Scope, primary: bool)
    returns (r: TypeId)
    requires context.Valid() && WrapperOf(context.classes, wrapper, cls)
    modifies context
    ensures context.Valid() && r == wrapper
    ensures context.State() == Decorate(context.classes, old(context.State()), cls, wrapper, scope, primary)
  {
    context.RegisterComponent(wrapper, Singleton, false);
    context.RegisterComponent(wrapper, scope, primary);
    return wrapper;
  }

  /** `@service(scope)`: `@component` with `primary` false. */
  method Service(context: ApplicationContext, cls: TypeId, wrapper: TypeId, scope: Scope) returns (r: TypeId)
    requires context.Valid() && WrapperOf(context.classes, wrapper, cls)
    modifies context
    ensures context.Valid() && r == wrapper
    ensures context.State() == Decorate(context.classes, old(context.State()), cls, wrapper, scope, false)
  {
    r := Component(context, cls, wrapper, scope, false);
  }

  /** `@repository(scope)`: `@component` with `primary` false. */
  method Repository(context: ApplicationContext, cls: TypeId, wrapper: TypeId, scope: Scope) returns (r: TypeId)
    requires context.Valid() && WrapperOf(context.classes, wrapper, cls)
    modifies context
    ensures context.Valid() && r == wrapper
    ensures context.State() == Decorate(context.classes, old(context.State()), cls, wrapper, scope, false)
  {
    r := Component(context, cls, wrapper, scope, false);
  }

  /** `@controller(scope)`: `@component` with `primary` false. */
  method Controller(context: ApplicationContext, cls: TypeId, wrapper: TypeId, scope: Scope) returns (r: TypeId)
    requires context.Valid() && WrapperOf(context.classes, wrapper, cls)
    modifies context
    ensures context.Valid() && r == wrapper
    ensures context.State() == Decorate(context.classes, old(context.State()), cls, wrapper, scope, false)
  {
    r := Component(context, cls, wrapper, scope, false);
  }

  /** The attribute dictionary of an object an `@autowired` field lives on. */
  class Instance {
    var attrs: map<string, Bean>

    constructor ()
      ensures attrs == map[]
    {
      attrs := map[];
    }
  }

  /** `AutowiredDescriptor`: a class attribute that resolves its type from
      the container on first read and keeps the result on the instance. */
  class AutowiredDescriptor {
    const fieldType: TypeId
    /** `None` until the owning class is created and `__set_name__` runs. */
    var fieldName: Option<string>

    constructor (fieldType: TypeId)
      ensures this.fieldType == fieldType && fieldName == None
    {
      this.fieldType := fieldType;
      fieldName := None;
    }

    /** `__set_name__(owner, name)`: the value is kept under `_name`. */
    method SetName(name: string)
      modifies this
      ensures fieldName == Some("_" + name)
    {
      fieldName := Some("_" + name);
    }

    /** `__get__(instance, owner)`: the stored value if there is one,
        otherwise a fresh `get_bean` whose result is stored first. */
    method Get(instance: Instance, context: ApplicationContext, fuel: nat) returns (r: Result<Bean>)
      requires fieldName.Some? && context.Valid()
      modifies instance, context
      ensures context.Valid()
      ensures fieldName.value in old(instance.attrs) ==>
                r == Ok(old(instance.attrs)[fieldName.value])
                && instance.attrs == old(instance.attrs) && context.State() == old(context.State())
      ensures fieldName.value !in old(instance.attrs) ==>
                Reply(context.State(), r) == LegacyResolution.GetBean(context.classes, old(context.State()), fieldType, fuel)
                && instance.attrs == (if r.Ok? then old(instance.attrs)[fieldName.value := r.value] else old(instance.attrs))
      ensures r.Ok? ==> fieldName.value in instance.attrs && instance.attrs[fieldName.value] == r.value
    {
      var name := fieldName.value;
      if name !in instance.attrs {
        var value := context.GetBean(fieldType, fuel);
        if value.Err? {
          return value;
        }
        instance.attrs := instance.attrs[name := value.value];
      }
      return Ok(instance.attrs[name]);
    }

    /** `__set__(instance, value)`: an explicit assignment replaces the stored value. */
    method Set(instance: Instance, value: Bean)
      requires fieldName.Some?
      modifies instance
      ensures instance.attrs == old(instance.attrs)[fieldName.value := value]
    {
      instance.attrs := instance.attrs[fieldName.value := value];
    }
  }

  /** `autowired(field_type)`. */
  method Autowired(fieldType: TypeId) returns (d: AutowiredDescriptor)
    ensures fresh(d) && d.fieldType == fieldType && d.fieldName == None
  {
    d := new AutowiredDescriptor(fieldType);
  }
}
