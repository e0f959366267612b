/** Capability lookup: which registered class stands in for a requested type
    that has no registration of its own. Both containers scan the registry in
    registration order; the optimized one keeps proper subclasses
    (`issubclass(c, I) and c != I`), the older one every class whose MRO
    contains the requested type. */
module TypeLookup {
  import opened Beans
  import opened Dicts

  /** `issubclass(c, iface)`, which for the classes modelled here is also
      `iface in c.__mro__`. */
  predicate IsSubclass(classes: map<TypeId, ClassInfo>, c: TypeId, iface: TypeId)
    requires c in classes
  {
    c == iface || iface in classes[c].bases
  }

  predicate IsProperSubclass(classes: map<TypeId, ClassInfo>, c: TypeId, iface: TypeId)
    requires c in classes
  {
    IsSubclass(classes, c, iface) && c != iface
  }

  ghost predicate AllKnown(classes: map<TypeId, ClassInfo>, keys: seq<TypeId>) {
    forall k :: 0 <= k < |keys| ==> keys[k] in classes
  }

  /** A registry whose keys are all classes of the program. */
  ghost predicate RegistryOk<V>(classes: map<TypeId, ClassInfo>, reg: Dict<V>) {
    reg.Valid() && forall t :: t in reg.entries ==> t in classes
  }

  /** optimized_spring_di.py `_find_implementations`: the proper subclasses
      of `iface` among `keys`, in order. */
  function Implementations(classes: map<TypeId, ClassInfo>, keys: seq<TypeId>, iface: TypeId): (r: seq<TypeId>)
    requires AllKnown(classes, keys)
    ensures forall k :: 0 <= k < |r| ==> r[k] in keys && r[k] in classes && IsProperSubclass(classes, r[k], iface)
    decreases |keys|
  {
    if keys == [] then []
    else
      var c := keys[|keys| - 1];
      var rest := Implementations(classes, keys[..|keys| - 1], iface);
      if IsProperSubclass(classes, c, iface) then rest + [c] else rest
  }

  /** spring_di.py `_find_implementations`: the classes among `keys` whose MRO contains `iface`. */
  function MroImplementations(classes: map<TypeId, ClassInfo>, keys: seq<TypeId>, iface: TypeId): (r: seq<TypeId>)
    requires AllKnown(classes, keys)
    ensures forall k :: 0 <= k < |r| ==> r[k] in keys && r[k] in classes && IsSubclass(classes, r[k], iface)
    decreases |keys|
  {
    if keys == [] then []
    else
      var c := keys[|keys| - 1];
      var rest := MroImplementations(classes, keys[..|keys| - 1], iface);
      if IsSubclass(classes, c, iface) then rest + [c] else rest
  }

  /** The first proper subclass of `iface` among `keys[i..]`: the head of
      the implementation list, found without building the list. */
  function FirstImplementation(classes: map<TypeId, ClassInfo>, keys: seq<TypeId>, iface: TypeId, i: nat): (r: Option<TypeId>)
    requires AllKnown(classes, keys) && i <= |keys|
    ensures r.Some? ==> r.value in keys
    decreases |keys| - i
  {
    if i == |keys| then None
    else if IsProperSubclass(classes, keys[i], iface) then Some(keys[i])
    else FirstImplementation(classes, keys, iface, i + 1)
  }

  /** The first class among `keys[i..]` whose MRO contains `iface`. */
  function FirstMroImplementation(classes: map<TypeId, ClassInfo>, keys: seq<TypeId>, iface: TypeId, i: nat): (r: Option<TypeId>)
    requires AllKnown(classes, keys) && i <= |keys|
    ensures r.Some? ==> r.value in keys
    decreases |keys| - i
  {
    if i == |keys| then None
    else if IsSubclass(classes, keys[i], iface) then Some(keys[i])
    else FirstMroImplementation(classes, keys, iface, i + 1)
  }

  /** The class the optimized `get_bean` builds for a request: the type
      itself when registered, otherwise the first implementation
      (`FirstImplementationIsHead` ties this to `implementations[0]`). */
  function Lookup(classes: map<TypeId, ClassInfo>, reg: Dict<Config>, t: TypeId): (r: Option<TypeId>)
    requires RegistryOk(classes, reg)
    ensures r.Some? ==> r.value in reg.entries
  {
    if t in reg.entries then Some(t) else FirstImplementation(classes, reg.keys, t, 0)
  }

  /** The same choice in the older `get_bean`. */
  function LegacyLookup(classes: map<TypeId, ClassInfo>, reg: Dict<Config>, t: TypeId): (r: Option<TypeId>)
    requires RegistryOk(classes, reg)
    ensures r.Some? ==> r.value in reg.entries
  {
    if t in reg.entries then Some(t) else FirstMroImplementation(classes, reg.keys, t, 0)
  }

  /** The forward scan stops at the earliest match at or after `i`. */
  lemma {:induction false} FirstImplementationScan(classes: map<TypeId, ClassInfo>, keys: seq<TypeId>, iface: TypeId, i: nat)
    requires AllKnown(classes, keys) && i <= |keys|
    ensures var r := FirstImplementation(classes, keys, iface, i);
            (r.None? <==> forall k :: i <= k < |keys| ==> !IsProperSubclass(classes, keys[k], iface))
            && (r.Some? ==> exists j :: i <= j < |keys| && keys[j] == r.value && IsProperSubclass(classes, keys[j], iface)
                                        && forall k :: i <= k < j ==> !IsProperSubclass(classes, keys[k], iface))
    decreases |keys| - i
  {
    if i < |keys| && !IsProperSubclass(classes, keys[i], iface) {
      FirstImplementationScan(classes, keys, iface, i + 1);
    }
  }

  lemma {:induction false} FirstMroImplementationScan(classes: map<TypeId, ClassInfo>, keys: seq<TypeId>, iface: TypeId, i: nat)
    requires AllKnown(classes, keys) && i <= |keys|
    ensures var r := FirstMroImplementation(classes, keys, iface, i);
            (r.None? <==> forall k :: i <= k < |keys| ==> !IsSubclass(classes, keys[k], iface))
            && (r.Some? ==> exists j :: i <= j < |keys| && keys[j] == r.value && IsSubclass(classes, keys[j], iface)
                                        && forall k :: i <= k < j ==> !IsSubclass(classes, keys[k], iface))
    decreases |keys| - i
  {
    if i < |keys| && !IsSubclass(classes, keys[i], iface) {
      FirstMroImplementationScan(classes, keys, iface, i + 1);
    }
  }

  /** The forward scan returns exactly `_find_implementations(iface)[0]`,
      and nothing when that list is empty. */
  lemma FirstImplementationIsHead(classes: map<TypeId, ClassInfo>, keys: seq<TypeId>, iface: TypeId)
    requires AllKnown(classes, keys)
    ensures var impls := Implementations(classes, keys, iface);
            FirstImplementation(classes, keys, iface, 0) == if impls == [] then None else Some(impls[0])
  {
    ImplementationsHead(classes, keys, iface);
    FirstImplementationScan(classes, keys, iface, 0);
    var impls := Implementations(classes, keys, iface);
    var r := FirstImplementation(classes, keys, iface, 0);
    if r.Some? {
      var j :| 0 <= j < |keys| && keys[j] == r.value && IsProperSubclass(classes, keys[j], iface)
               && forall k :: 0 <= k < j ==> !IsProperSubclass(classes, keys[k], iface);
      var i :| 0 <= i < |keys| && keys[i] == impls[0] && IsProperSubclass(classes, impls[0], iface)
               && forall k :: 0 <= k < i ==> !IsProperSubclass(classes, keys[k], iface);
      assert !(i < j) && !(j < i);
    }
  }

  /** The same for the older container's scan. */
  lemma FirstMroImplementationIsHead(classes: map<TypeId, ClassInfo>, keys: seq<TypeId>, iface: TypeId)
    requires AllKnown(classes, keys)
    ensures var impls := MroImplementations(classes, keys, iface);
            FirstMroImplementation(classes, keys, iface, 0) == if impls == [] then None else Some(impls[0])
  {
    MroImplementationsHead(classes, keys, iface);
    FirstMroImplementationScan(classes, keys, iface, 0);
    var impls := MroImplementations(classes, keys, iface);
    var r := FirstMroImplementation(classes, keys, iface, 0);
    if r.Some? {
      var j :| 0 <= j < |keys| && keys[j] == r.value && IsSubclass(classes, keys[j], iface)
               && forall k :: 0 <= k < j ==> !IsSubclass(classes, keys[k], iface);
      var i :| 0 <= i < |keys| && keys[i] == impls[0] && IsSubclass(classes, impls[0], iface)
               && forall k :: 0 <= k < i ==> !IsSubclass(classes, keys[k], iface);
      assert !(i < j) && !(j < i);
    }
  }

  /** The first element of `Implementations` is the earliest key that is a
      proper subclass, and the list is empty exactly when no key is one. */
  lemma {:induction false} ImplementationsHead(classes: map<TypeId, ClassInfo>, keys: seq<TypeId>, iface: TypeId)
    requires AllKnown(classes, keys)
    ensures var r := Implementations(classes, keys, iface);
            (r == [] <==> forall k :: 0 <= k < |keys| ==> !IsProperSubclass(classes, keys[k], iface))
            && (r != [] ==> exists i :: 0 <= i < |keys| && keys[i] == r[0] && IsProperSubclass(classes, r[0], iface)
                                        && forall j :: 0 <= j < i ==> !IsProperSubclass(classes, keys[j], iface))
    decreases |keys|
  {
    if keys != [] {
      var init := keys[..|keys| - 1];
      assert forall k :: 0 <= k < |init| ==> init[k] == keys[k];
      ImplementationsHead(classes, init, iface);
    }
  }

  /** The same for the MRO scan of the older container. */
  lemma {:induction false} MroImplementationsHead(classes: map<TypeId, ClassInfo>, keys: seq<TypeId>, iface: TypeId)
    requires AllKnown(classes, keys)
    ensures var r := MroImplementations(classes, keys, iface);
            (r == [] <==> forall k :: 0 <= k < |keys| ==> !IsSubclass(classes, keys[k], iface))
            && (r != [] ==> exists i :: 0 <= i < |keys| && keys[i] == r[0] && IsSubclass(classes, r[0], iface)
                                        && forall j :: 0 <= j < i ==> !IsSubclass(classes, keys[j], iface))
    decreases |keys|
  {
    if keys != [] {
      var init := keys[..|keys| - 1];
      assert forall k :: 0 <= k < |init| ==> init[k] == keys[k];
      MroImplementationsHead(classes, init, iface);
    }
  }

  /** An unregistered request resolves to the first registered proper
      subclass in registration order, and to nothing when there is none. */
  lemma LookupFallsBackToFirstSubclass(classes: map<TypeId, ClassInfo>, reg: Dict<Config>, t: TypeId)
    requires RegistryOk(classes, reg) && t !in reg.entries
    ensures Lookup(classes, reg, t).None? <==> forall k :: 0 <= k < |reg.keys| ==> !IsProperSubclass(classes, reg.keys[k], t)
    ensures Lookup(classes, reg, t).Some? ==>
              exists i :: 0 <= i < |reg.keys| && reg.keys[i] == Lookup(classes, reg, t).value
                          && IsProperSubclass(classes, reg.keys[i], t)
                          && forall j :: 0 <= j < i ==> !IsProperSubclass(classes, reg.keys[j], t)
  {
    FirstImplementationScan(classes, reg.keys, t, 0);
  }

  /** The older container resolves an unregistered request to the first
      registered class whose MRO contains it. */
  lemma LegacyLookupFallsBackToFirstSubclass(classes: map<TypeId, ClassInfo>, reg: Dict<Config>, t: TypeId)
    requires RegistryOk(classes, reg) && t !in reg.entries
    ensures LegacyLookup(classes, reg, t).None? <==> forall k :: 0 <= k < |reg.keys| ==> !IsSubclass(classes, reg.keys[k], t)
    ensures LegacyLookup(classes, reg, t).Some? ==>
              exists i :: 0 <= i < |reg.keys| && reg.keys[i] == LegacyLookup(classes, reg, t).value
                          && IsSubclass(classes, reg.keys[i], t)
                          && forall j :: 0 <= j < i ==> !IsSubclass(classes, reg.keys[j], t)
  {
    FirstMroImplementationScan(classes, reg.keys, t, 0);
  }

  /** When the requested type is not itself a key the two scans agree: the
      `c != iface` test of the optimized scan excludes nothing. */
  lemma {:induction false} ScansAgreeOffRegistry(classes: map<TypeId, ClassInfo>, keys: seq<TypeId>, iface: TypeId)
    requires AllKnown(classes, keys) && iface !in keys
    ensures Implementations(classes, keys, iface) == MroImplementations(classes, keys, iface)
    decreases |keys|
  {
    if keys != [] {
      var init := keys[..|keys| - 1];
      assert forall k :: 0 <= k < |init| ==> init[k] == keys[k];
      ScansAgreeOffRegistry(classes, init, iface);
    }
  }

  /** Hence both containers pick the same class for every request. */
  lemma LookupsAgree(classes: map<TypeId, ClassInfo>, reg: Dict<Config>, t: TypeId)
    requires RegistryOk(classes, reg)
    ensures Lookup(classes, reg, t) == LegacyLookup(classes, reg, t)
  {
    if t !in reg.entries {
      ScansAgreeOffRegistry(classes, reg.keys, t);
      FirstImplementationIsHead(classes, reg.keys, t);
      FirstMroImplementationIsHead(classes, reg.keys, t);
    }
  }

  /** The choice reads only the registry's keys and their order, never a
      config: the `primary` flag (and the scope) is not consulted. */
  lemma LookupIgnoresConfigs(classes: map<TypeId, ClassInfo>, reg1: Dict<Config>, reg2: Dict<Config>, t: TypeId)
    requires RegistryOk(classes, reg1) && RegistryOk(classes, reg2)
    requires reg1.keys == reg2.keys
    ensures Lookup(classes, reg1, t) == Lookup(classes, reg2, t)
  {
  }
}
