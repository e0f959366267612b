/** The dependency analyzer: from a constructor's parameter list to the
    ordered list of `(parameter name, dependency type)` pairs the container
    resolves (optimized_spring_di.py `_analyze_dependencies`, and the same
    filter inside spring_di.py `_create_instance`). */
module DependencyAnalysis {
  import opened Beans

  /** The contribution of one parameter: itself if it is not the receiver
      and carries an annotation, nothing otherwise. */
  function DepOf(p: Param): seq<Dep> {
    if p.name != "self" && p.annotation.Some? then [Dep(p.name, p.annotation.value)] else []
  }

  /** The dependency map of a parameter list, built front to back. */
  function DepsOf(params: seq<Param>): seq<Dep>
    decreases |params|
  {
    if params == [] then [] else DepsOf(params[..|params| - 1]) + DepOf(params[|params| - 1])
  }

  /** The types a dependency list asks for, in order. */
  function DepTypes(deps: seq<Dep>): (r: seq<TypeId>)
    ensures |r| == |deps|
    ensures forall i :: 0 <= i < |deps| ==> r[i] == deps[i].depType
  {
    seq(|deps|, i requires 0 <= i < |deps| => deps[i].depType)
  }

  /** The keyword names a dependency list passes, in order. */
  function DepNames(deps: seq<Dep>): (r: seq<string>)
    ensures |r| == |deps|
    ensures forall i :: 0 <= i < |deps| ==> r[i] == deps[i].name
  {
    seq(|deps|, i requires 0 <= i < |deps| => deps[i].name)
  }

  lemma DepNamesAppend(a: seq<Dep>, b: seq<Dep>)
    ensures DepNames(a + b) == DepNames(a) + DepNames(b)
  {
  }

  /** Analysis distributes over concatenation: parameters keep their
      declaration order in the dependency map. */
  lemma {:induction false} DepsOfAppend(a: seq<Param>, b: seq<Param>)
    ensures DepsOf(a + b) == DepsOf(a) + DepsOf(b)
    decreases |b|
  {
    if b == [] {
      assert a + b == a;
    } else {
      var b' := b[..|b| - 1];
      assert (a + b)[..|a + b| - 1] == a + b';
      assert (a + b)[|a + b| - 1] == b[|b| - 1];
      DepsOfAppend(a, b');
    }
  }

  /** Reading the list front first: the head parameter's entry comes first. */
  lemma DepsOfCons(p: Param, rest: seq<Param>)
    ensures DepsOf([p] + rest) == DepOf(p) + DepsOf(rest)
  {
    DepsOfAppend([p], rest);
    assert [p][..0] == [];
  }

  /** An entry is in the dependency map exactly when some non-receiver
      parameter with that name carries that annotation. */
  lemma {:induction false} DepsOfMembership(params: seq<Param>, n: string, t: TypeId)
    ensures Dep(n, t) in DepsOf(params) <==>
              exists k :: 0 <= k < |params| && params[k].name == n && n != "self" && params[k].annotation == Some(t)
    decreases |params|
  {
    if params != [] {
      var init := params[..|params| - 1];
      DepsOfMembership(init, n, t);
      assert forall k :: 0 <= k < |init| ==> init[k] == params[k];
    }
  }

  /** The map never has more entries than the constructor has parameters. */
  lemma {:induction false} DepsOfLength(params: seq<Param>)
    ensures |DepsOf(params)| <= |params|
    decreases |params|
  {
    if params != [] {
      DepsOfLength(params[..|params| - 1]);
    }
  }
}
