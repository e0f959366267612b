/** Values shared by both containers.

    Python reflection is replaced by explicit class metadata: every class the
    program defines has a `ClassInfo` (its constructor parameters, its
    ancestors, and whether its constructor body raises). Instances are values
    carrying a fresh id, the class they were built from and the keyword
    arguments the container passed to the constructor. */
module Beans {

  datatype Option<+T> = None | Some(value: T)

  /** A class object is identified by a number. */
  type TypeId = nat

  datatype Scope = Singleton | Prototype

  /** One parameter of a constructor, as `inspect.signature` reports it.
      `annotation` is the declared type, if any; `optional` holds for a
      parameter with a default value and for `*args` / `**kwargs`. */
  datatype Param = Param(name: string, annotation: Option<TypeId>, optional: bool)

  /** What the container can learn from a class: the parameters of its
      `__init__` (the receiver `self` included), its proper ancestors (the
      method resolution order without the class itself), and whether the
      body of its constructor raises. */
  datatype ClassInfo = ClassInfo(params: seq<Param>, bases: set<TypeId>, ctorRaises: bool)

  /** An instance: the keyword arguments it was constructed with are kept
      as its fields, so an instance records the object graph under it. */
  datatype Bean = Bean(id: nat, typ: TypeId, fields: seq<Field>)
  datatype Field = Field(name: string, value: Bean)

  /** The registry record of one component type: the `scope` and `primary`
      entries of `{'scope', 'primary', 'instance'}` in both containers. The
      `instance` entry, the singleton slot, is kept in a map of its own. */
  datatype Config = Config(scope: Scope, primary: bool)

  /** One entry of a dependency map: a constructor parameter and its type. */
  datatype Dep = Dep(name: string, depType: TypeId)

  /** Every way a request can fail. */
  datatype Error =
    | CircularDependency(cycle: seq<TypeId>)     // CircularDependencyError(path)
    | BeanNotFound(requested: TypeId)            // BeanNotFoundError of the optimized container
    | NoBeanForType(requested: TypeId)           // ValueError("No bean found for type: ...") of the older one
    | MissingArgument(owner: TypeId, param: string) // TypeError from calling a constructor without a required argument
    | ConstructorRaised(owner: TypeId)           // whatever the constructor body raised, passed through
    | RecursionLimit                             // RecursionError: the interpreter's stack bound was reached

  datatype Result<+T> = Ok(value: T) | Err(error: Error)

  predicate NoDup<T(==)>(s: seq<T>) {
    forall i, j :: 0 <= i < j < |s| ==> s[i] != s[j]
  }

  /** `set(s)`. */
  function Elems(s: seq<TypeId>): set<TypeId> {
    set x | x in s
  }

  function Names(fields: seq<Field>): (r: seq<string>)
    ensures |r| == |fields|
    ensures forall i :: 0 <= i < |fields| ==> r[i] == fields[i].name
  {
    seq(|fields|, i requires 0 <= i < |fields| => fields[i].name)
  }

  lemma NamesAppend(a: seq<Field>, b: seq<Field>)
    ensures Names(a + b) == Names(a) + Names(b)
  {
  }

  /** A parameter the caller must supply: anything but the receiver that has no default. */
  predicate Required(p: Param) {
    p.name != "self" && !p.optional
  }

  /** The first required parameter whose name is not among `supplied`:
      the argument Python's call binding complains about. */
  function FirstMissing(params: seq<Param>, supplied: seq<string>): (r: Option<string>)
    ensures r.None? <==> forall k :: 0 <= k < |params| && Required(params[k]) ==> params[k].name in supplied
    ensures r.Some? ==> exists k :: 0 <= k < |params| && Required(params[k]) && params[k].name == r.value && r.value !in supplied
  {
    if params == [] then None
    else if Required(params[0]) && params[0].name !in supplied then Some(params[0].name)
    else
      var rest := FirstMissing(params[1..], supplied);
      assert forall k :: 1 <= k < |params| ==> params[k] == params[1..][k - 1];
      rest
  }

  /** Calling the class `t` with the keyword arguments `fields`; a new
      instance gets the id `id`. Argument binding happens before the body
      runs, so a missing argument is reported even for a raising body. */
  function Construct(c: ClassInfo, t: TypeId, fields: seq<Field>, id: nat): (r: Result<Bean>)
    ensures r.Ok? <==> !c.ctorRaises && forall k :: 0 <= k < |c.params| && Required(c.params[k]) ==> c.params[k].name in Names(fields)
    ensures r.Ok? ==> r.value == Bean(id, t, fields)
    ensures r.Err? ==> r.error == ConstructorRaised(t) || (r.error.MissingArgument? && r.error.owner == t)
  {
    match FirstMissing(c.params, Names(fields))
    case Some(n) => Err(MissingArgument(t, n))
    case None => if c.ctorRaises then Err(ConstructorRaised(t)) else Ok(Bean(id, t, fields))
  }

  /** Reading a counter of `collections.defaultdict`: an absent key reads as zero. */
  function Count(m: map<TypeId, nat>, t: TypeId): nat {
    if t in m then m[t] else 0
  }

  /** `m[t] += 1` on a defaultdict of counters. */
  function Inc(m: map<TypeId, nat>, t: TypeId): (r: map<TypeId, nat>)
    ensures Count(r, t) == Count(m, t) + 1
    ensures forall u :: u != t ==> Count(r, u) == Count(m, u)
    ensures r.Keys == m.Keys + {t}
  {
    m[t := Count(m, t) + 1]
  }
}
