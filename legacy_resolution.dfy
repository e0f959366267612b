/** The older container (spring_di.py, class `ApplicationContext`) as
    functions on its state, and what they guarantee.

    It differs from the optimized one in four ways the model keeps: there is
    no creation path and so no cycle check (a cycle runs into the
    interpreter's recursion bound), the constructor is inspected on every
    construction instead of through a cache, an unresolvable request fails
    with `ValueError` (`NoBeanForType`), and the fallback scan accepts any
    registered class whose MRO contains the requested type. */
module LegacyResolution {
  import opened Beans
  import opened Dicts
  import opened TypeLookup
  import opened DependencyAnalysis

  /** `_component_configs` (configs and singleton slots) and the next fresh id. */
  datatype Store = Store(registry: Dict<Config>, instances: map<TypeId, Bean>, nextId: nat)

  datatype Reply<T> = Reply(st: Store, res: Result<T>)

  ghost predicate Valid(classes: map<TypeId, ClassInfo>, st: Store) {
    RegistryOk(classes, st.registry)
  }

  /** Requests never register or re-configure, and ids only grow. */
  ghost predicate Preserves(s: Store, s': Store) {
    s'.registry == s.registry && s.nextId <= s'.nextId
  }

  /** Only registered singletons hold an instance, it is an instance of
      the class whose slot holds it, and it was handed out already. */
  ghost predicate Consistent(st: Store) {
    forall t :: t in st.instances ==>
      && t in st.registry.entries && st.registry.entries[t].scope == Singleton
      && st.instances[t].typ == t && st.instances[t].id < st.nextId
  }

  /** `config['scope'] == Scope.SINGLETON and config['instance']`. */
  predicate Cached(st: Store, t: TypeId)
    requires t in st.registry.entries
  {
    st.registry.entries[t].scope == Singleton && t in st.instances
  }

  /** A constructor parameter `_create_instance` resolves: not the receiver, and annotated. */
  predicate Injected(p: Param) {
    p.name != "self" && p.annotation.Some?
  }

  /** `get_bean(t)`. */
  function GetBean(classes: map<TypeId, ClassInfo>, st: Store, t: TypeId, fuel: nat): (o: Reply<Bean>)
    requires Valid(classes, st)
    ensures Preserves(st, o.st)
    decreases fuel, 0
  {
    if fuel == 0 then Reply(st, Err(RecursionLimit))
    else match LegacyLookup(classes, st.registry, t)
      case None => Reply(st, Err(NoBeanForType(t)))
      case Some(rt) =>
        if Cached(st, rt) then Reply(st, Ok(st.instances[rt]))
        else
          var c := CreateInstance(classes, st, rt, fuel - 1);
          if c.res.Err? then c else Publish(c.st, rt, st.registry.entries[rt].scope, c.res.value)
  }

  /** The end of a successful `get_bean`: a singleton's instance goes into its slot. */
  function Publish(st: Store, rt: TypeId, scope: Scope, b: Bean): (o: Reply<Bean>)
    ensures Preserves(st, o.st) && o.st.nextId == st.nextId && o.res == Ok(b)
    ensures scope == Singleton ==> o.st.instances == st.instances[rt := b]
    ensures scope == Prototype ==> o.st.instances == st.instances
  {
    Reply(st.(instances := if scope == Singleton then st.instances[rt := b] else st.instances), Ok(b))
  }

  /** `_create_instance(t)`: inspect the constructor, resolve every
      annotated parameter, then call the class. */
  function CreateInstance(classes: map<TypeId, ClassInfo>, st: Store, t: TypeId, fuel: nat): (o: Reply<Bean>)
    requires Valid(classes, st) && t in classes
    ensures Preserves(st, o.st)
    decreases fuel, 2
  {
    var a := ResolveParams(classes, st, classes[t].params, 0, [], fuel);
    if a.res.Err? then Reply(a.st, Err(a.res.error)) else Instantiate(classes, a.st, t, a.res.value)
  }

  /** `component_type(**dependencies)`: a successful call consumes one fresh id. */
  function Instantiate(classes: map<TypeId, ClassInfo>, st: Store, t: TypeId, fields: seq<Field>): (o: Reply<Bean>)
    requires t in classes
    ensures Preserves(st, o.st)
    ensures o.res.Ok? ==> o.res.value.id == st.nextId && o.st.nextId == st.nextId + 1
    ensures o.res.Err? ==> o.st == st
  {
    var r := Construct(classes[t], t, fields, st.nextId);
    if r.Ok? then Reply(st.(nextId := st.nextId + 1), r) else Reply(st, r)
  }

  /** The parameter loop of `_create_instance` from parameter `i` on, with
      the keyword arguments `acc` resolved so far. */
  function ResolveParams(classes: map<TypeId, ClassInfo>, st: Store, params: seq<Param>, i: nat, acc: seq<Field>,
                         fuel: nat): (o: Reply<seq<Field>>)
    requires Valid(classes, st) && i <= |params|
    ensures Preserves(st, o.st)
    decreases fuel, 1, |params| - i
  {
    if i == |params| then Reply(st, Ok(acc))
    else if !Injected(params[i]) then ResolveParams(classes, st, params, i + 1, acc, fuel)
    else
      var g := GetBean(classes, st, params[i].annotation.value, fuel);
      if g.res.Err? then Reply(g.st, Err(g.res.error))
      else ResolveParams(classes, g.st, params, i + 1, acc + [Field(params[i].name, g.res.value)], fuel)
  }

  /** `register_component(t, scope, primary)`: a fresh config with an empty slot. */
  function Register(classes: map<TypeId, ClassInfo>, st: Store, t: TypeId, scope: Scope, primary: bool): (s: Store)
    requires Valid(classes, st) && t in classes
    ensures Valid(classes, s)
  {
    st.(registry := st.registry.Put(t, Config(scope, primary)), instances := st.instances - {t})
  }

  /** `class ComponentClass(cls, metaclass=ComponentMeta)`: `w` is a new
      class deriving from `cls` that inherits its constructor. */
  ghost predicate WrapperOf(classes: map<TypeId, ClassInfo>, w: TypeId, cls: TypeId) {
    && w in classes && cls in classes && w != cls
    && classes[w] == ClassInfo(classes[cls].params, classes[cls].bases + {cls}, classes[cls].ctorRaises)
  }

  /** `@component(scope, primary)` applied to `cls`: the metaclass registers
      the wrapper with the defaults, then the decorator registers it again
      with its own arguments. */
  function Decorate(classes: map<TypeId, ClassInfo>, st: Store, cls: TypeId, w: TypeId, scope: Scope, primary: bool): (s: Store)
    requires Valid(classes, st) && WrapperOf(classes, w, cls)
    ensures Valid(classes, s)
  {
    Register(classes, Register(classes, st, w, Singleton, false), w, scope, primary)
  }

  // ---------------------------------------------------------------------
  // Unfolding helpers

  lemma BuildStep(classes: map<TypeId, ClassInfo>, st: Store, t: TypeId, fuel: nat, rt: TypeId)
    requires Valid(classes, st) && fuel > 0 && LegacyLookup(classes, st.registry, t) == Some(rt) && !Cached(st, rt)
    ensures var c := CreateInstance(classes, st, rt, fuel - 1);
            GetBean(classes, st, t, fuel) ==
              (if c.res.Err? then c else Publish(c.st, rt, st.registry.entries[rt].scope, c.res.value))
  {
  }

  /** Parameters that are not injected are passed over without any effect. */
  lemma {:induction false} SkipsUninjected(classes: map<TypeId, ClassInfo>, st: Store, params: seq<Param>, i: nat, k: nat,
                                           acc: seq<Field>, fuel: nat)
    requires Valid(classes, st) && i <= k <= |params|
    requires forall j :: i <= j < k ==> !Injected(params[j])
    ensures ResolveParams(classes, st, params, i, acc, fuel) == ResolveParams(classes, st, params, k, acc, fuel)
    decreases k - i
  {
    if i < k {
      SkipsUninjected(classes, st, params, i + 1, k, acc, fuel);
    }
  }

  /** A successful parameter loop passes, after the arguments it started
      with, one keyword argument per injected parameter from `i` on, named
      after that parameter and in declaration order: exactly the entries
      the optimized container's analysis puts in the dependency map. */
  lemma {:induction false} ResolvedParamsAreInjected(classes: map<TypeId, ClassInfo>, st: Store, params: seq<Param>, i: nat,
                                                     acc: seq<Field>, fuel: nat)
    requires Valid(classes, st) && i <= |params|
    ensures var o := ResolveParams(classes, st, params, i, acc, fuel);
            o.res.Ok? ==> Names(o.res.value) == Names(acc) + DepNames(DepsOf(params[i..]))
    decreases |params| - i
  {
    if i == |params| {
      assert params[i..] == [];
    } else {
      assert params[i..] == [params[i]] + params[i + 1..];
      DepsOfCons(params[i], params[i + 1..]);
      DepNamesAppend(DepOf(params[i]), DepsOf(params[i + 1..]));
      if !Injected(params[i]) {
        ResolvedParamsAreInjected(classes, st, params, i + 1, acc, fuel);
      } else {
        var g := GetBean(classes, st, params[i].annotation.value, fuel);
        if g.res.Ok? {
          var f := Field(params[i].name, g.res.value);
          ResolvedParamsAreInjected(classes, g.st, params, i + 1, acc + [f], fuel);
          NamesAppend(acc, [f]);
        }
      }
    }
  }

  /** A successful `_create_instance(t)` returns an instance of `t` itself,
      built with one keyword argument per injected constructor parameter. */
  lemma CreatedWithInjectedArguments(classes: map<TypeId, ClassInfo>, st: Store, t: TypeId, fuel: nat)
    requires Valid(classes, st) && t in classes
    ensures var o := CreateInstance(classes, st, t, fuel);
            o.res.Ok? ==> o.res.value.typ == t && Names(o.res.value.fields) == DepNames(DepsOf(classes[t].params))
  {
    ResolvedParamsAreInjected(classes, st, classes[t].params, 0, [], fuel);
    assert classes[t].params[0..] == classes[t].params;
  }

  /** What `get_bean(t)` returns on a consistent container: an instance of
      the class the lookup picks for `t`, that is `t` itself when it is
      registered, else the first registered class whose MRO holds it. */
  lemma RequestReturnsLookedUpClass(classes: map<TypeId, ClassInfo>, st: Store, t: TypeId, fuel: nat)
    requires Valid(classes, st) && Consistent(st)
    ensures var o := GetBean(classes, st, t, fuel);
            o.res.Ok? ==> LegacyLookup(classes, st.registry, t) == Some(o.res.value.typ)
  {
    GetBeanKeepsConsistent(classes, st, t, fuel);
  }

  /** The whole argument list of a successful construction on a consistent
      container: the `k`-th injected parameter of `t`'s constructor is
      bound under its name to an instance of the class the lookup picks for
      its annotation, and nothing else is passed. */
  lemma CreatedWithLookedUpArguments(classes: map<TypeId, ClassInfo>, st: Store, t: TypeId, fuel: nat)
    requires Valid(classes, st) && Consistent(st) && t in classes
    ensures var o := CreateInstance(classes, st, t, fuel);
            var deps := DepsOf(classes[t].params);
            o.res.Ok? ==>
              && o.res.value.typ == t && |o.res.value.fields| == |deps|
              && forall k :: 0 <= k < |deps| ==>
                   o.res.value.fields[k].name == deps[k].name
                   && LegacyLookup(classes, st.registry, deps[k].depType) == Some(o.res.value.fields[k].value.typ)
  {
    var o := CreateInstance(classes, st, t, fuel);
    CreateKeepsConsistent(classes, st, t, fuel);
    CreatedWithInjectedArguments(classes, st, t, fuel);
    if o.res.Ok? {
      ParamsLineUp(classes, st.registry, DepsOf(classes[t].params), o.res.value.fields);
    }
  }

  lemma ParamsLineUp(classes: map<TypeId, ClassInfo>, reg: Dict<Config>, deps: seq<Dep>, fields: seq<Field>)
    requires ParamsResolved(classes, reg, deps, [], fields) && Names(fields) == DepNames(deps)
    ensures |fields| == |deps|
    ensures forall k :: 0 <= k < |deps| ==>
              fields[k].name == deps[k].name && LegacyLookup(classes, reg, deps[k].depType) == Some(fields[k].value.typ)
  {
    var names := Names(fields);
    assert |names| == |fields|;
    forall k | 0 <= k < |deps|
      ensures fields[k].name == deps[k].name && LegacyLookup(classes, reg, deps[k].depType) == Some(fields[k].value.typ)
    {
      assert names[k] == fields[k].name && DepNames(deps)[k] == deps[k].name;
      assert LegacyLookup(classes, reg, deps[k].depType) == Some(fields[0 + k].value.typ);
    }
  }

  /** The first injected parameter of `t`'s constructor, when there is one. */
  ghost predicate FirstInjected(classes: map<TypeId, ClassInfo>, t: TypeId, k: nat, d: TypeId) {
    && t in classes && k < |classes[t].params|
    && Injected(classes[t].params[k]) && classes[t].params[k].annotation.value == d
    && forall j :: 0 <= j < k ==> !Injected(classes[t].params[j])
  }

  /** When the first injected dependency fails, construction fails with its
      error and leaves the state the dependency's request left. */
  lemma FirstDependencyFailure(classes: map<TypeId, ClassInfo>, st: Store, t: TypeId, k: nat, d: TypeId, fuel: nat)
    requires Valid(classes, st) && FirstInjected(classes, t, k, d)
    requires GetBean(classes, st, d, fuel).res.Err?
    ensures CreateInstance(classes, st, t, fuel) == GetBean(classes, st, d, fuel)
  {
    SkipsUninjected(classes, st, classes[t].params, 0, k, [], fuel);
  }

  // ---------------------------------------------------------------------
  // Consistency

  /** The arguments `fields` of a construction: those resolved before,
      `acc`, then one per entry of `ds`, in order, each an instance of the
      class the lookup picks for that entry's type. */
  ghost predicate ParamsResolved(classes: map<TypeId, ClassInfo>, reg: Dict<Config>, ds: seq<Dep>, acc: seq<Field>,
                                 fields: seq<Field>) {
    && RegistryOk(classes, reg)
    && |fields| == |acc| + |ds| && fields[..|acc|] == acc
    && forall k :: 0 <= k < |ds| ==> LegacyLookup(classes, reg, ds[k].depType) == Some(fields[|acc| + k].value.typ)
  }

  lemma ParamsResolvedCons(classes: map<TypeId, ClassInfo>, reg: Dict<Config>, d: Dep, ds: seq<Dep>, acc: seq<Field>,
                           f: Field, fields: seq<Field>)
    requires ParamsResolved(classes, reg, ds, acc + [f], fields) && LegacyLookup(classes, reg, d.depType) == Some(f.value.typ)
    ensures ParamsResolved(classes, reg, [d] + ds, acc, fields)
  {
    assert fields[..|acc|] == fields[..|acc| + 1][..|acc|];
    assert fields[|acc|] == fields[..|acc| + 1][|acc|];
    forall k | 0 < k < |[d] + ds|
      ensures LegacyLookup(classes, reg, ([d] + ds)[k].depType) == Some(fields[|acc| + k].value.typ)
    {
      assert ([d] + ds)[k] == ds[k - 1] && |acc + [f]| + (k - 1) == |acc| + k;
    }
  }

  /** Every request keeps the container consistent. An instance it returns
      was handed out already and is an instance of the class the lookup
      picks for the requested type. */
  lemma {:induction false} GetBeanKeepsConsistent(classes: map<TypeId, ClassInfo>, st: Store, t: TypeId, fuel: nat)
    requires Valid(classes, st) && Consistent(st)
    ensures var o := GetBean(classes, st, t, fuel);
            && Consistent(o.st)
            && (o.res.Ok? ==> o.res.value.id < o.st.nextId && LegacyLookup(classes, st.registry, t) == Some(o.res.value.typ))
    decreases fuel, 0
  {
    if fuel > 0 {
      match LegacyLookup(classes, st.registry, t)
      case None =>
      case Some(rt) =>
        if !Cached(st, rt) {
          CreateKeepsConsistent(classes, st, rt, fuel - 1);
          BuildStep(classes, st, t, fuel, rt);
        }
    }
  }

  /** A construction keeps the container consistent and returns a new
      instance of the class asked for, built from one instance per
      injected parameter. */
  lemma {:induction false} CreateKeepsConsistent(classes: map<TypeId, ClassInfo>, st: Store, t: TypeId, fuel: nat)
    requires Valid(classes, st) && Consistent(st) && t in classes
    ensures var o := CreateInstance(classes, st, t, fuel);
            && Consistent(o.st)
            && (o.res.Ok? ==> st.nextId <= o.res.value.id < o.st.nextId && o.res.value.typ == t
                              && ParamsResolved(classes, st.registry, DepsOf(classes[t].params), [], o.res.value.fields))
    decreases fuel, 2
  {
    ParamsKeepConsistent(classes, st, classes[t].params, 0, [], fuel);
    assert classes[t].params[0..] == classes[t].params;
  }

  /** The parameter loop keeps the container consistent and, on success,
      binds one instance per remaining injected parameter, of the class
      the lookup picks for its annotation. */
  lemma {:induction false} ParamsKeepConsistent(classes: map<TypeId, ClassInfo>, st: Store, params: seq<Param>, i: nat,
                                               acc: seq<Field>, fuel: nat)
    requires Valid(classes, st) && Consistent(st) && i <= |params|
    ensures var o := ResolveParams(classes, st, params, i, acc, fuel);
            && Consistent(o.st)
            && (o.res.Ok? ==> ParamsResolved(classes, st.registry, DepsOf(params[i..]), acc, o.res.value))
    decreases fuel, 1, |params| - i
  {
    if i == |params| {
      assert params[i..] == [] && acc[..|acc|] == acc;
    } else {
      assert params[i..] == [params[i]] + params[i + 1..];
      DepsOfCons(params[i], params[i + 1..]);
      if !Injected(params[i]) {
        ParamsKeepConsistent(classes, st, params, i + 1, acc, fuel);
      } else {
        var g := GetBean(classes, st, params[i].annotation.value, fuel);
        GetBeanKeepsConsistent(classes, st, params[i].annotation.value, fuel);
        if g.res.Ok? {
          var f := Field(params[i].name, g.res.value);
          ParamsKeepConsistent(classes, g.st, params, i + 1, acc + [f], fuel);
          var o := ResolveParams(classes, st, params, i, acc, fuel);
          if o.res.Ok? {
            ParamsResolvedCons(classes, st.registry, DepOf(params[i])[0], DepsOf(params[i + 1..]), acc, f, o.res.value);
          }
        }
      }
    }
  }

  lemma RegisterKeepsConsistent(classes: map<TypeId, ClassInfo>, st: Store, t: TypeId, scope: Scope, primary: bool)
    requires Valid(classes, st) && Consistent(st) && t in classes
    ensures Consistent(Register(classes, st, t, scope, primary))
  {
  }

  // ---------------------------------------------------------------------
  // Scopes

  /** A successful request for a type resolving to a singleton leaves the
      instance in that singleton's slot, and every later request for the
      same type returns the same instance and changes nothing. */
  lemma SingletonIsShared(classes: map<TypeId, ClassInfo>, st: Store, t: TypeId, fuel: nat, fuel2: nat)
    requires Valid(classes, st) && fuel > 0 && fuel2 > 0
    requires LegacyLookup(classes, st.registry, t).Some?
    requires st.registry.entries[LegacyLookup(classes, st.registry, t).value].scope == Singleton
    ensures var o := GetBean(classes, st, t, fuel);
            var rt := LegacyLookup(classes, st.registry, t).value;
            o.res.Ok? ==> rt in o.st.instances && o.st.instances[rt] == o.res.value
                          && GetBean(classes, o.st, t, fuel2) == Reply(o.st, o.res)
  {
    var rt := LegacyLookup(classes, st.registry, t).value;
    if !Cached(st, rt) {
      BuildStep(classes, st, t, fuel, rt);
    }
  }

  /** A request for a type resolving to a prototype builds an instance
      with an id never handed out before and fills no slot, so two
      requests in a row return different instances. */
  lemma PrototypeIsFresh(classes: map<TypeId, ClassInfo>, st: Store, t: TypeId, fuel: nat, fuel2: nat)
    requires Valid(classes, st) && Consistent(st)
    requires LegacyLookup(classes, st.registry, t).Some?
    requires st.registry.entries[LegacyLookup(classes, st.registry, t).value].scope == Prototype
    ensures var o := GetBean(classes, st, t, fuel);
            var rt := LegacyLookup(classes, st.registry, t).value;
            o.res.Ok? ==> o.res.value.id >= st.nextId && rt !in o.st.instances
                          && var o2 := GetBean(classes, o.st, t, fuel2);
                             (o2.res.Ok? ==> o2.res.value.id > o.res.value.id)
  {
    var rt := LegacyLookup(classes, st.registry, t).value;
    var o := GetBean(classes, st, t, fuel);
    GetBeanKeepsConsistent(classes, st, t, fuel);
    if fuel > 0 {
      BuildStep(classes, st, t, fuel, rt);
      CreateKeepsConsistent(classes, st, rt, fuel - 1);
    }
    if fuel2 > 0 && o.res.Ok? {
      BuildStep(classes, o.st, t, fuel2, rt);
      CreateKeepsConsistent(classes, o.st, rt, fuel2 - 1);
    }
  }

  // ---------------------------------------------------------------------
  // Failures

  /** A request nothing registered can answer fails with `ValueError`
      naming the requested type and changes nothing. */
  lemma UnresolvableRequestFails(classes: map<TypeId, ClassInfo>, st: Store, t: TypeId, fuel: nat)
    requires Valid(classes, st) && fuel > 0 && t !in st.registry.entries
    requires forall k :: 0 <= k < |st.registry.keys| ==> !IsSubclass(classes, st.registry.keys[k], t)
    ensures GetBean(classes, st, t, fuel) == Reply(st, Err(NoBeanForType(t)))
  {
    LegacyLookupFallsBackToFirstSubclass(classes, st.registry, t);
  }

  /** A registered type whose first injected dependency `d` has nothing to
      resolve to fails with the `ValueError` for `d`, not for itself, and
      builds nothing. */
  lemma MissingDependencyIsNamed(classes: map<TypeId, ClassInfo>, st: Store, t: TypeId, k: nat, d: TypeId, fuel: nat)
    requires Valid(classes, st) && t in st.registry.entries && !Cached(st, t) && fuel >= 2
    requires FirstInjected(classes, t, k, d) && LegacyLookup(classes, st.registry, d).None?
    ensures GetBean(classes, st, t, fuel) == Reply(st, Err(NoBeanForType(d)))
  {
    FirstDependencyFailure(classes, st, t, k, d, fuel - 1);
    BuildStep(classes, st, t, fuel, t);
  }

  /** With no cycle check, a registered class whose first injected
      dependency is itself recurses until the recursion bound, whatever
      the bound, and changes nothing on the way. */
  lemma {:induction false} SelfDependencyExhaustsRecursion(classes: map<TypeId, ClassInfo>, st: Store, t: TypeId, k: nat,
                                                           fuel: nat)
    requires Valid(classes, st) && t in st.registry.entries && t !in st.instances
    requires FirstInjected(classes, t, k, t)
    ensures GetBean(classes, st, t, fuel) == Reply(st, Err(RecursionLimit))
    decreases fuel
  {
    if fuel > 0 {
      SelfDependencyExhaustsRecursion(classes, st, t, k, fuel - 1);
      FirstDependencyFailure(classes, st, t, k, t, fuel - 1);
      BuildStep(classes, st, t, fuel, t);
    }
  }

  // ---------------------------------------------------------------------
  // The decorator

  /** The second registration of the wrapper overrides the metaclass's:
      the wrapper ends with the decorator's scope and primary flag, an
      empty slot, and `cls` itself is not registered by the decorator. */
  lemma DecoratorLastWriteWins(classes: map<TypeId, ClassInfo>, st: Store, cls: TypeId, w: TypeId, scope: Scope, primary: bool)
    requires Valid(classes, st) && WrapperOf(classes, w, cls)
    ensures var s := Decorate(classes, st, cls, w, scope, primary);
            && s.registry.entries == st.registry.entries[w := Config(scope, primary)]
            && s.registry.keys == (if w in st.registry.entries then st.registry.keys else st.registry.keys + [w])
            && s.instances == st.instances - {w}
            && s.nextId == st.nextId
  {
    var s1 := Register(classes, st, w, Singleton, false);
    assert w in s1.registry.entries;
  }

  /** The decorated name stands for the wrapper: once decorated, a request
      for the undecorated class `cls` (not registered, with no registered
      subclass before) resolves to the wrapper. */
  lemma DecoratedClassResolvesToWrapper(classes: map<TypeId, ClassInfo>, st: Store, cls: TypeId, w: TypeId,
                                        scope: Scope, primary: bool)
    requires Valid(classes, st) && WrapperOf(classes, w, cls) && cls !in st.registry.entries
    requires forall k :: 0 <= k < |st.registry.keys| ==> !IsSubclass(classes, st.registry.keys[k], cls)
    ensures LegacyLookup(classes, Decorate(classes, st, cls, w, scope, primary).registry, cls) == Some(w)
  {
    var s := Decorate(classes, st, cls, w, scope, primary);
    DecoratorLastWriteWins(classes, st, cls, w, scope, primary);
    assert w !in st.registry.entries;
    assert s.registry.keys == st.registry.keys + [w];
    LegacyLookupFallsBackToFirstSubclass(classes, s.registry, cls);
    var n := |st.registry.keys|;
    assert s.registry.keys[n] == w && IsSubclass(classes, w, cls);
  }
}
