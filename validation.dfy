/** `validate_configuration` and `_detect_circular_dependencies` of the
    optimized container: a static pass over the registry and the dependency
    cache that reports cycles and dependencies nothing can satisfy, without
    building anything. */
module Validation {
  import opened Beans
  import opened Dicts
  import opened TypeLookup
  import opened DependencyAnalysis
  import opened Resolution

  /** One line of the report: `Circular dependency: ...` or
      `Unresolved dependency: owner -> dependency`. */
  datatype Issue = CycleIssue(cycle: seq<TypeId>) | UnresolvedIssue(owner: TypeId, dependency: TypeId)

  ghost predicate OnRegistry(reg: Dict<Config>, path: seq<TypeId>) {
    forall k :: 0 <= k < |path| ==> path[k] in reg.entries
  }

  /** `path.index(x)`. */
  function IndexOf(s: seq<TypeId>, x: TypeId): (r: nat)
    requires x in s
    ensures r < |s| && s[r] == x
    ensures forall j :: 0 <= j < r ==> s[j] != x
  {
    if s[0] == x then 0
    else
      var r := 1 + IndexOf(s[1..], x);
      assert forall j :: 1 <= j < |s| ==> s[j] == s[1..][j - 1];
      r
  }

  /** `_detect_circular_dependencies(t, set(path), path)`: `Some(cycle)`
      where the source raises `CircularDependencyError(cycle)`. Only
      registered dependencies are followed, each with its own copy of the
      path, and the first cycle met ends the search. */
  function FindCycle(reg: Dict<Config>, cache: Dict<seq<Dep>>, t: TypeId, path: seq<TypeId>): (r: Option<seq<TypeId>>)
    requires t in reg.entries && NoDup(path) && OnRegistry(reg, path)
    decreases reg.entries.Keys - Elems(path), 0
  {
    if t in path then Some(path[IndexOf(path, t)..] + [t])
    else
      assert Elems(path + [t]) == Elems(path) + {t};
      FindCycleAmong(reg, cache, DepsFor(cache, t), 0, path + [t])
  }

  /** The loop over `dependencies.values()` from entry `i` on. */
  function FindCycleAmong(reg: Dict<Config>, cache: Dict<seq<Dep>>, deps: seq<Dep>, i: nat, path: seq<TypeId>): (r: Option<seq<TypeId>>)
    requires i <= |deps| && NoDup(path) && OnRegistry(reg, path)
    decreases reg.entries.Keys - Elems(path), 1, |deps| - i
  {
    if i == |deps| then None
    else if deps[i].depType !in reg.entries then FindCycleAmong(reg, cache, deps, i + 1, path)
    else match FindCycle(reg, cache, deps[i].depType, path)
      case Some(c) => Some(c)
      case None => FindCycleAmong(reg, cache, deps, i + 1, path)
  }

  /** The issue a root contributes: its first cycle, if any. */
  function CycleOf(reg: Dict<Config>, cache: Dict<seq<Dep>>, t: TypeId): seq<Issue>
    requires t in reg.entries
  {
    match FindCycle(reg, cache, t, [])
    case Some(c) => [CycleIssue(c)]
    case None => []
  }

  /** The first loop of `validate_configuration`, over `roots` in order. */
  function CycleIssues(reg: Dict<Config>, cache: Dict<seq<Dep>>, roots: seq<TypeId>): seq<Issue>
    requires OnRegistry(reg, roots)
    decreases |roots|
  {
    if roots == [] then [] else CycleIssues(reg, cache, roots[..|roots| - 1]) + CycleOf(reg, cache, roots[|roots| - 1])
  }

  /** A dependency that is neither registered nor implemented by a registered class. */
  predicate Unresolvable(classes: map<TypeId, ClassInfo>, reg: Dict<Config>, d: TypeId)
    requires RegistryOk(classes, reg)
  {
    d !in reg.entries && Implementations(classes, reg.keys, d) == []
  }

  /** The inner loop of the second pass, over one owner's dependency map. */
  function UnresolvedOf(classes: map<TypeId, ClassInfo>, reg: Dict<Config>, owner: TypeId, deps: seq<Dep>): seq<Issue>
    requires RegistryOk(classes, reg)
    decreases |deps|
  {
    if deps == [] then []
    else
      var d := deps[|deps| - 1].depType;
      UnresolvedOf(classes, reg, owner, deps[..|deps| - 1]) + (if Unresolvable(classes, reg, d) then [UnresolvedIssue(owner, d)] else [])
  }

  /** The second loop, over the owners of the dependency cache in order. */
  function UnresolvedIssues(classes: map<TypeId, ClassInfo>, reg: Dict<Config>, cache: Dict<seq<Dep>>, owners: seq<TypeId>): seq<Issue>
    requires RegistryOk(classes, reg)
    decreases |owners|
  {
    if owners == [] then []
    else
      var o := owners[|owners| - 1];
      UnresolvedIssues(classes, reg, cache, owners[..|owners| - 1]) + UnresolvedOf(classes, reg, o, DepsFor(cache, o))
  }

  /** `validate_configuration()`. */
  function Validate(classes: map<TypeId, ClassInfo>, ctx: Ctx): seq<Issue>
    requires Valid(classes, ctx)
  {
    CycleIssues(ctx.registry, ctx.depCache, ctx.registry.keys)
      + UnresolvedIssues(classes, ctx.registry, ctx.depCache, ctx.depCache.keys)
  }

  // ---------------------------------------------------------------------
  // What a reported cycle is

  /** `b` is one of the types `a`'s constructor asks for. */
  ghost predicate Edge(cache: Dict<seq<Dep>>, a: TypeId, b: TypeId) {
    b in DepTypes(DepsFor(cache, a))
  }

  ghost predicate Walk(cache: Dict<seq<Dep>>, p: seq<TypeId>) {
    forall k :: 0 <= k < |p| - 1 ==> Edge(cache, p[k], p[k + 1])
  }

  /** A closed walk through registered types that repeats no type before
      returning to its start. */
  ghost predicate IsCycle(reg: Dict<Config>, cache: Dict<seq<Dep>>, c: seq<TypeId>) {
    && |c| >= 2 && c[0] == c[|c| - 1]
    && Walk(cache, c) && NoDup(c[..|c| - 1]) && OnRegistry(reg, c)
  }

  lemma WalkExtends(cache: Dict<seq<Dep>>, p: seq<TypeId>, t: TypeId)
    requires Walk(cache, p) && p != [] && Edge(cache, p[|p| - 1], t)
    ensures Walk(cache, p + [t])
  {
    assert forall k :: 0 <= k < |p| ==> (p + [t])[k] == p[k];
  }

  /** Closing a walk back to a type already on it yields a cycle. */
  lemma ClosingTheWalkIsCycle(reg: Dict<Config>, cache: Dict<seq<Dep>>, path: seq<TypeId>, t: TypeId)
    requires t in path && NoDup(path) && OnRegistry(reg, path)
    requires Walk(cache, path) && Edge(cache, path[|path| - 1], t)
    ensures IsCycle(reg, cache, path[IndexOf(path, t)..] + [t])
  {
    var j := IndexOf(path, t);
    var c := path[j..] + [t];
    assert forall k :: 0 <= k < |path| - j ==> c[k] == path[j + k];
    assert c[|c| - 1] == t;
    forall k | 0 <= k < |c| - 1
      ensures Edge(cache, c[k], c[k + 1])
    {
      if k < |c| - 2 {
        assert c[k] == path[j + k] && c[k + 1] == path[j + k + 1];
      } else {
        assert c[k] == path[|path| - 1];
      }
    }
    assert c[..|c| - 1] == path[j..];
  }

  /** Every cycle the detector reports is a genuine cycle of the
      dependency graph restricted to registered types. */
  lemma {:induction false} FoundCycleIsCycle(reg: Dict<Config>, cache: Dict<seq<Dep>>, t: TypeId, path: seq<TypeId>)
    requires t in reg.entries && NoDup(path) && OnRegistry(reg, path)
    requires Walk(cache, path) && (path != [] ==> Edge(cache, path[|path| - 1], t))
    ensures var r := FindCycle(reg, cache, t, path);
            r.Some? ==> IsCycle(reg, cache, r.value)
    decreases reg.entries.Keys - Elems(path), 0
  {
    if t in path {
      ClosingTheWalkIsCycle(reg, cache, path, t);
    } else {
      assert Elems(path + [t]) == Elems(path) + {t};
      if path != [] {
        WalkExtends(cache, path, t);
      }
      FoundCycleAmongIsCycle(reg, cache, DepsFor(cache, t), 0, path + [t]);
    }
  }

  lemma {:induction false} FoundCycleAmongIsCycle(reg: Dict<Config>, cache: Dict<seq<Dep>>, deps: seq<Dep>, i: nat, path: seq<TypeId>)
    requires i <= |deps| && NoDup(path) && OnRegistry(reg, path)
    requires path != [] && Walk(cache, path) && deps == DepsFor(cache, path[|path| - 1])
    ensures var r := FindCycleAmong(reg, cache, deps, i, path);
            r.Some? ==> IsCycle(reg, cache, r.value)
    decreases reg.entries.Keys - Elems(path), 1, |deps| - i
  {
    if i < |deps| {
      if deps[i].depType in reg.entries {
        assert DepTypes(deps)[i] == deps[i].depType;
        FoundCycleIsCycle(reg, cache, deps[i].depType, path);
      }
      FoundCycleAmongIsCycle(reg, cache, deps, i + 1, path);
    }
  }

  /** A registered type that asks for itself is reported as `[t, t]`. */
  lemma SelfDependencyIsReported(reg: Dict<Config>, cache: Dict<seq<Dep>>, t: TypeId)
    requires t in reg.entries && DepsFor(cache, t) != [] && DepsFor(cache, t)[0].depType == t
    ensures FindCycle(reg, cache, t, []) == Some([t, t])
  {
    assert [] + [t] == [t];
    assert IndexOf([t], t) == 0;
    assert [t][0..] + [t] == [t, t];
    assert FindCycle(reg, cache, t, [t]) == Some([t, t]);
    assert FindCycleAmong(reg, cache, DepsFor(cache, t), 0, [t]) == Some([t, t]);
  }

  /** Two registered types that ask for each other first are reported,
      from either root, as the walk there and back. */
  lemma TwoTypeCycleIsReported(reg: Dict<Config>, cache: Dict<seq<Dep>>, a: TypeId, b: TypeId)
    requires a != b && a in reg.entries && b in reg.entries
    requires DepsFor(cache, a) != [] && DepsFor(cache, a)[0].depType == b
    requires DepsFor(cache, b) != [] && DepsFor(cache, b)[0].depType == a
    ensures FindCycle(reg, cache, a, []) == Some([a, b, a])
  {
    assert [] + [a] == [a] && [a] + [b] == [a, b];
    assert IndexOf([a, b], a) == 0;
    assert [a, b][0..] + [a] == [a, b, a];
    assert FindCycle(reg, cache, a, [a, b]) == Some([a, b, a]);
    assert FindCycleAmong(reg, cache, DepsFor(cache, b), 0, [a, b]) == Some([a, b, a]);
    assert FindCycle(reg, cache, b, [a]) == Some([a, b, a]);
    assert FindCycleAmong(reg, cache, DepsFor(cache, a), 0, [a]) == Some([a, b, a]);
  }

  // ---------------------------------------------------------------------
  // What the search cannot miss

  /** The loop over the dependencies found nothing from `i` on, so neither
      did the search from any registered dependency at or after `i`. */
  lemma {:induction false} NoneAmongMeansNoneFromEach(reg: Dict<Config>, cache: Dict<seq<Dep>>, deps: seq<Dep>, i: nat,
                                                     path: seq<TypeId>, j: nat)
    requires i <= j < |deps| && NoDup(path) && OnRegistry(reg, path) && deps[j].depType in reg.entries
    requires FindCycleAmong(reg, cache, deps, i, path).None?
    ensures FindCycle(reg, cache, deps[j].depType, path).None?
    decreases j - i
  {
    if i < j {
      NoneAmongMeansNoneFromEach(reg, cache, deps, i + 1, path, j);
    }
  }

  /** Completeness: when the search from `t` with `path` finds nothing,
      every walk from `t` along registered dependencies is simple and
      never comes back to `path`. Every path is followed with its own
      copy, so no branch is cut short by an earlier one. */
  lemma {:induction false} NoCycleMeansSimpleWalks(reg: Dict<Config>, cache: Dict<seq<Dep>>, t: TypeId, path: seq<TypeId>,
                                                  w: seq<TypeId>)
    requires t in reg.entries && NoDup(path) && OnRegistry(reg, path)
    requires FindCycle(reg, cache, t, path).None?
    requires w != [] && w[0] == t && Walk(cache, w) && OnRegistry(reg, w)
    ensures NoDup(path + w)
    decreases reg.entries.Keys - Elems(path)
  {
    assert t !in path;
    var path' := path + [t];
    assert Elems(path') == Elems(path) + {t};
    assert NoDup(path') by {
      assert forall k :: 0 <= k < |path| ==> path'[k] == path[k];
    }
    if |w| == 1 {
      assert path + w == path';
    } else {
      var deps := DepsFor(cache, t);
      assert Edge(cache, w[0], w[1]);
      var j :| 0 <= j < |deps| && DepTypes(deps)[j] == w[1];
      assert w[1] in reg.entries;
      NoneAmongMeansNoneFromEach(reg, cache, deps, 0, path', j);
      var rest := w[1..];
      assert forall k :: 0 <= k < |rest| ==> rest[k] == w[k + 1];
      NoCycleMeansSimpleWalks(reg, cache, w[1], path', rest);
      assert path + w == path' + rest;
    }
  }

  /** From a root, the search reports a cycle exactly when some walk from
      the root along registered dependencies comes back to a type it has
      already visited: `None` means no cycle is reachable, and a report is
      a genuine cycle. */
  lemma CycleFoundWhenReachable(reg: Dict<Config>, cache: Dict<seq<Dep>>, t: TypeId, w: seq<TypeId>)
    requires t in reg.entries
    requires w != [] && w[0] == t && Walk(cache, w) && OnRegistry(reg, w) && !NoDup(w)
    ensures FindCycle(reg, cache, t, []).Some?
    ensures IsCycle(reg, cache, FindCycle(reg, cache, t, []).value)
  {
    assert [] + w == w;
    if FindCycle(reg, cache, t, []).None? {
      NoCycleMeansSimpleWalks(reg, cache, t, [], w);
    }
    FoundCycleIsCycle(reg, cache, t, []);
  }

  // ---------------------------------------------------------------------
  // What the report contains

  /** The first pass reports at most one issue per root, and every issue it
      reports is a genuine cycle reachable from its root. */
  lemma {:induction false} CycleIssuesAreCycles(reg: Dict<Config>, cache: Dict<seq<Dep>>, roots: seq<TypeId>)
    requires OnRegistry(reg, roots)
    ensures var r := CycleIssues(reg, cache, roots);
            |r| <= |roots| && forall k :: 0 <= k < |r| ==> r[k].CycleIssue? && IsCycle(reg, cache, r[k].cycle)
    decreases |roots|
  {
    if roots != [] {
      var t := roots[|roots| - 1];
      CycleIssuesAreCycles(reg, cache, roots[..|roots| - 1]);
      FoundCycleIsCycle(reg, cache, t, []);
    }
  }

  /** The first pass drops no root: every root whose search finds a cycle
      contributes that cycle to the report. */
  lemma {:induction false} CycleIssuesCoverEveryRoot(reg: Dict<Config>, cache: Dict<seq<Dep>>, roots: seq<TypeId>)
    requires OnRegistry(reg, roots)
    ensures forall k :: 0 <= k < |roots| && FindCycle(reg, cache, roots[k], []).Some? ==>
              CycleIssue(FindCycle(reg, cache, roots[k], []).value) in CycleIssues(reg, cache, roots)
    decreases |roots|
  {
    if roots != [] {
      var init := roots[..|roots| - 1];
      CycleIssuesCoverEveryRoot(reg, cache, init);
      assert forall k :: 0 <= k < |init| ==> init[k] == roots[k];
    }
  }

  /** One owner's issues are exactly its unresolvable dependencies. */
  lemma {:induction false} UnresolvedOfExactly(classes: map<TypeId, ClassInfo>, reg: Dict<Config>, owner: TypeId, deps: seq<Dep>)
    requires RegistryOk(classes, reg)
    ensures forall k :: 0 <= k < |UnresolvedOf(classes, reg, owner, deps)| ==> UnresolvedOf(classes, reg, owner, deps)[k].UnresolvedIssue?
    ensures forall o, d :: UnresolvedIssue(o, d) in UnresolvedOf(classes, reg, owner, deps) <==>
              o == owner && d in DepTypes(deps) && Unresolvable(classes, reg, d)
    decreases |deps|
  {
    if deps != [] {
      var init := deps[..|deps| - 1];
      UnresolvedOfExactly(classes, reg, owner, init);
      assert DepTypes(deps) == DepTypes(init) + [deps[|deps| - 1].depType];
    }
  }

  /** Multiplicity follows the dependency map: an unresolvable type that
      `owner` asks for under several parameter names is reported once per
      name, and a resolvable one never. */
  lemma {:induction false} UnresolvedOfCounts(classes: map<TypeId, ClassInfo>, reg: Dict<Config>, owner: TypeId,
                                             deps: seq<Dep>, d: TypeId)
    requires RegistryOk(classes, reg)
    ensures multiset(UnresolvedOf(classes, reg, owner, deps))[UnresolvedIssue(owner, d)] ==
              if Unresolvable(classes, reg, d) then multiset(DepTypes(deps))[d] else 0
    decreases |deps|
  {
    if deps != [] {
      var init := deps[..|deps| - 1];
      var x := UnresolvedIssue(owner, d);
      UnresolvedOfCounts(classes, reg, owner, init, d);
      UnresolvedOfLast(classes, reg, owner, deps, x);
      DepTypesLast(deps, d);
    }
  }

  lemma UnresolvedOfLast(classes: map<TypeId, ClassInfo>, reg: Dict<Config>, owner: TypeId, deps: seq<Dep>, x: Issue)
    requires RegistryOk(classes, reg) && deps != []
    ensures var e := deps[|deps| - 1].depType;
            multiset(UnresolvedOf(classes, reg, owner, deps))[x] ==
              multiset(UnresolvedOf(classes, reg, owner, deps[..|deps| - 1]))[x]
              + (if Unresolvable(classes, reg, e) && x == UnresolvedIssue(owner, e) then 1 else 0)
  {
    var e := deps[|deps| - 1].depType;
    var tail: seq<Issue> := if Unresolvable(classes, reg, e) then [UnresolvedIssue(owner, e)] else [];
    assert UnresolvedOf(classes, reg, owner, deps) == UnresolvedOf(classes, reg, owner, deps[..|deps| - 1]) + tail;
  }

  lemma DepTypesLast(deps: seq<Dep>, d: TypeId)
    requires deps != []
    ensures multiset(DepTypes(deps))[d] ==
              multiset(DepTypes(deps[..|deps| - 1]))[d] + (if deps[|deps| - 1].depType == d then 1 else 0)
  {
    assert DepTypes(deps) == DepTypes(deps[..|deps| - 1]) + [deps[|deps| - 1].depType];
  }

  /** The second pass reports `owner -> d` exactly when `owner` is one of
      the owners scanned and `d` is an unresolvable dependency of it. */
  lemma {:induction false} UnresolvedIssuesExactly(classes: map<TypeId, ClassInfo>, reg: Dict<Config>, cache: Dict<seq<Dep>>,
                                                  owners: seq<TypeId>)
    requires RegistryOk(classes, reg)
    ensures forall k :: 0 <= k < |UnresolvedIssues(classes, reg, cache, owners)| ==>
              UnresolvedIssues(classes, reg, cache, owners)[k].UnresolvedIssue?
    ensures forall o, d :: UnresolvedIssue(o, d) in UnresolvedIssues(classes, reg, cache, owners) <==>
              o in owners && d in DepTypes(DepsFor(cache, o)) && Unresolvable(classes, reg, d)
    decreases |owners|
  {
    if owners != [] {
      var init := owners[..|owners| - 1];
      var o := owners[|owners| - 1];
      UnresolvedIssuesExactly(classes, reg, cache, init);
      UnresolvedOfExactly(classes, reg, o, DepsFor(cache, o));
      assert owners == init + [o];
      var r0: seq<Issue> := UnresolvedIssues(classes, reg, cache, init);
      var r1: seq<Issue> := UnresolvedOf(classes, reg, o, DepsFor(cache, o));
      assert UnresolvedIssues(classes, reg, cache, owners) == r0 + r1;
      forall k | 0 <= k < |r0 + r1|
        ensures (r0 + r1)[k].UnresolvedIssue?
      {
        if k < |r0| {
          assert (r0 + r1)[k] == r0[k];
        } else {
          assert (r0 + r1)[k] == r1[k - |r0|];
        }
      }
      forall o', d
        ensures UnresolvedIssue(o', d) in r0 + r1 <==>
                  o' in owners && d in DepTypes(DepsFor(cache, o')) && Unresolvable(classes, reg, d)
      {
        assert UnresolvedIssue(o', d) in r0 + r1 <==> UnresolvedIssue(o', d) in r0 || UnresolvedIssue(o', d) in r1;
        assert o' in owners <==> o' in init || o' == o;
      }
    }
  }

  /** The whole report: an unresolved-dependency line appears exactly for
      an analyzed type and one of its dependencies that is not registered
      and has no registered proper subclass; every other line is a genuine
      cycle, one per registered type at most. */
  lemma ValidateReports(classes: map<TypeId, ClassInfo>, ctx: Ctx)
    requires Valid(classes, ctx)
    ensures var r := Validate(classes, ctx);
            && (forall o, d :: UnresolvedIssue(o, d) in r <==>
                  && o in ctx.depCache.entries && d in DepTypes(ctx.depCache.entries[o])
                  && d !in ctx.registry.entries
                  && forall k :: 0 <= k < |ctx.registry.keys| ==> !IsProperSubclass(classes, ctx.registry.keys[k], d))
            && (forall c :: CycleIssue(c) in r ==> IsCycle(ctx.registry, ctx.depCache, c))
            && |r| - |UnresolvedIssues(classes, ctx.registry, ctx.depCache, ctx.depCache.keys)| <= |ctx.registry.keys|
  {
    var reg := ctx.registry;
    var cycles := CycleIssues(reg, ctx.depCache, reg.keys);
    var unresolved := UnresolvedIssues(classes, reg, ctx.depCache, ctx.depCache.keys);
    CycleIssuesAreCycles(reg, ctx.depCache, reg.keys);
    UnresolvedIssuesExactly(classes, reg, ctx.depCache, ctx.depCache.keys);
    forall d | d !in reg.entries
      ensures Unresolvable(classes, reg, d) <==> forall k :: 0 <= k < |reg.keys| ==> !IsProperSubclass(classes, reg.keys[k], d)
    {
      ImplementationsHead(classes, reg.keys, d);
    }
    assert forall k :: |cycles| <= k < |cycles + unresolved| ==> (cycles + unresolved)[k] == unresolved[k - |cycles|];
    forall c | CycleIssue(c) in cycles + unresolved
      ensures IsCycle(reg, ctx.depCache, c)
    {
      var k :| 0 <= k < |cycles + unresolved| && (cycles + unresolved)[k] == CycleIssue(c);
      assert k < |cycles|;
    }
    forall o, d
      ensures UnresolvedIssue(o, d) in cycles + unresolved <==> UnresolvedIssue(o, d) in unresolved
    {
      assert UnresolvedIssue(o, d) !in cycles;
    }
  }

  /** The report misses no reachable cycle: when a walk from a registered
      type along registered dependencies comes back to a type it has
      visited, the report holds the genuine cycle the search from that
      type found. */
  lemma ValidateReportsReachableCycles(classes: map<TypeId, ClassInfo>, ctx: Ctx, t: TypeId, w: seq<TypeId>)
    requires Valid(classes, ctx) && t in ctx.registry.entries
    requires w != [] && w[0] == t && Walk(ctx.depCache, w) && OnRegistry(ctx.registry, w) && !NoDup(w)
    ensures var c := FindCycle(ctx.registry, ctx.depCache, t, []);
            c.Some? && IsCycle(ctx.registry, ctx.depCache, c.value) && CycleIssue(c.value) in Validate(classes, ctx)
  {
    var reg := ctx.registry;
    CycleFoundWhenReachable(reg, ctx.depCache, t, w);
    CycleIssuesCoverEveryRoot(reg, ctx.depCache, reg.keys);
    var k :| 0 <= k < |reg.keys| && reg.keys[k] == t;
  }
}
