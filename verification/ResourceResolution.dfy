/** The agent: rebuilding references from their models and writing their values into a resource. */
module ResourceResolution {
  import opened JsonTrees
  import opened ReferenceGraph
  import opened ReferenceSerialization
  import opened Wrappers

  datatype Error = MissingReference(id: Uuid) | OtherResource(name: string)

  datatype Result<T> = Ok(value: T) | Err(error: Error)

  /** A reference object on the agent: its type, its arguments, and the value once it is resolved. */
  datatype AgentReference = AgentReference(rtype: string, kwargs: map<string, Value>, cached: Option<Value>)

  lemma {:induction false} FillOne(resolve: Resolver, t: Tree, todo: set<Path>, p: Path)
    requires p in todo && todo <= RefPaths(t, [])
    ensures Update(Partial(resolve, t, [], RefPaths(t, []) - todo), p, Denote(resolve, RefAt(t, [], p)))
         == Partial(resolve, t, [], RefPaths(t, []) - (todo - {p}))
  {
    UpdateFillsIn(resolve, t, [], RefPaths(t, []) - todo, p);
    assert p[0..] == p;
    assert RefPaths(t, []) - todo + {p} == RefPaths(t, []) - (todo - {p});
  }

  lemma {:induction false} FilledIn(resolve: Resolver, t: Tree, known: set<Uuid>)
    requires forall p :: p in RefPaths(t, []) ==> RefIds(RefAt(t, [], p)) <= known
    ensures RefIds(t) <= known && Partial(resolve, t, [], RefPaths(t, [])) == Denote(resolve, t)
  {
    PartialAll(resolve, t, [], RefPaths(t, []));
    forall id | id in RefIds(t) ensures id in known {
      var p := RefIdsComeFromPaths(t, [], id);
    }
  }

  /** The references in the first `n` arguments have models. */
  ghost predicate ArgumentsKnown(args: seq<NamedTree>, n: nat, known: set<Uuid>) {
    n <= |args| && forall j: nat :: j < n ==> RefIds(args[j].value) <= known
  }

  lemma {:induction false} NextKnown(args: seq<NamedTree>, i: nat, known: set<Uuid>)
    requires ArgumentsKnown(args, i, known) && i < |args| && RefIds(args[i].value) <= known
    ensures ArgumentsKnown(args, i + 1, known)
  {
  }

  lemma {:induction false} AllArgumentsKnown(r: RefTree, known: set<Uuid>)
    requires ArgumentsKnown(r.args, |r.args|, known)
    ensures RefIds(r) - {IdOf(r)} <= known
  {
    OnlyArgumentIds(r, known);
  }

  class Resource {
    const id: string
    const referencesField: seq<ReferenceModel>
    const mutatorsField: seq<MutatorModel>
    const resolver: Resolver
    var fields: map<string, Value>
    var referencesModel: map<Uuid, ReferenceModel>
    var references: map<Uuid, AgentReference>
    var resolved: bool
    ghost var resolutions: seq<Uuid>  // the calls to `resolve`

    constructor (id: string, exported: Exported, resolver: Resolver)
      requires forall m :: m in exported.references ==> m == ModelWithId(m.id)
      ensures Valid() && !resolved && referencesModel == map[] && resolutions == []
      ensures this.id == id && fields == exported.fields && this.resolver == resolver
      ensures referencesField == exported.references && mutatorsField == exported.mutators
    {
      this.id, this.resolver, fields := id, resolver, exported.fields;
      referencesField, mutatorsField := exported.references, exported.mutators;
      referencesModel, references, resolved, resolutions := map[], map[], false, [];
    }

    /** A rebuilt reference has the right arguments and value, and all it depends on is there. */
    ghost predicate CacheOk(i: Uuid, r: RefTree)
      reads this`references, this`referencesModel
      requires i in references
    {
      i == IdOf(r) ==>
        && references[i].rtype == r.rtype
        && references[i].kwargs == DenoteArguments(resolver, r.args)
        && (references[i].cached.Some? ==> references[i].cached.value == Denote(resolver, r))
        && RefIds(r) <= referencesModel.Keys
    }

    ghost predicate Valid()
      reads this`references, this`referencesModel, this`resolutions
    {
      && (forall m :: m in referencesField ==> m == ModelWithId(m.id))
      && (forall i :: i in referencesModel ==> referencesModel[i] == ModelWithId(i))
      && (forall i, r: RefTree {:trigger CacheOk(i, r)} :: i in references ==> CacheOk(i, r))
      && (forall j, k :: 0 <= j < k < |resolutions| ==> resolutions[j] != resolutions[k])
      && (forall i :: i in resolutions <==> i in references && references[i].cached.Some?)
    }

    /** Resource.get_reference_value, for the reference `r` behind the identifier. */
    method GetReferenceValue(i: Uuid, ghost r: RefTree) returns (res: Result<Value>)
      requires Valid() && i == IdOf(r)
      modifies this`references, this`resolutions
      ensures Valid() && references.Keys <= old(references.Keys) + RefIds(r)
      ensures res.Ok? <==> RefIds(r) <= referencesModel.Keys
      ensures res.Ok? ==> res.value == Denote(resolver, r)
      ensures old(resolutions) <= resolutions
      ensures res.Err? ==> res.error.MissingReference? && res.error.id in RefIds(r) - referencesModel.Keys
      decreases r, 0
    {
      if i !in references {
        if i !in referencesModel {
          return Err(MissingReference(i));
        }
        var model := referencesModel[i];
        var kwargs := DeserializeArguments(model.args, r);
        if kwargs.Err? {
          return Err(kwargs.error);
        }
        label Before:
        references := references[i := AgentReference(model.rtype, kwargs.value, None)];
        forall j, s: RefTree | j in references ensures CacheOk(j, s) {
          if j != i {
            assert old@Before(CacheOk(j, s));
          } else if j == IdOf(s) {
            IdOfInjective(r, s);
          }
        }
      }
      var value := Get(i, r);
      return Ok(value);
    }

    /** The call of `resolve`, with the type of the reference and its arguments by name. */
    method Resolve(i: Uuid) returns (value: Value)
      requires i in references
      modifies this`resolutions
      ensures resolutions == old(resolutions) + [i]
      ensures value == resolver(references[i].rtype, references[i].kwargs)
    {
      resolutions := resolutions + [i];
      value := resolver(references[i].rtype, references[i].kwargs);
    }

    /** Reference.get: the value is resolved once and then remembered. */
    method Get(i: Uuid, ghost r: RefTree) returns (value: Value)
      requires Valid() && i in references && i == IdOf(r)
      modifies this`references, this`resolutions
      ensures Valid() && references.Keys == old(references.Keys)
      ensures value == Denote(resolver, r) && RefIds(r) <= referencesModel.Keys
      ensures old(references[i].cached.Some?) ==>
                references == old(references) && resolutions == old(resolutions)
      ensures old(references[i].cached.None?) ==>
                && resolutions == old(resolutions) + [i]
                && value == resolver(old(references[i].rtype), old(references[i].kwargs))
      ensures i in references && references[i].cached == Some(value)
      ensures old(resolutions) <= resolutions
    {
      assert CacheOk(i, r);
      if references[i].cached.None? {
        value := Resolve(i);
        references := references[i := references[i].(cached := Some(value))];
        forall j, s: RefTree | j in references ensures CacheOk(j, s) {
          assert old(CacheOk(j, s));
          if j == i && j == IdOf(s) { IdOfInjective(r, s); }
        }
      }
      value := references[i].cached.value;
    }

    /** ReferenceLike.deserialize: the arguments by name. */
    method DeserializeArguments(args: seq<Argument>, ghost r: RefTree) returns (res: Result<map<string, Value>>)
      requires Valid() && args == IdOf(r).args
      modifies this`references, this`resolutions
      ensures Valid() && references.Keys <= old(references.Keys) + (RefIds(r) - {IdOf(r)})
      ensures res.Ok? <==> RefIds(r) - {IdOf(r)} <= referencesModel.Keys
      ensures res.Ok? ==> res.value == DenoteArguments(resolver, r.args)
      ensures old(resolutions) <= resolutions
      ensures res.Err? ==> res.error.MissingReference? && res.error.id in RefIds(r) - {IdOf(r)} - referencesModel.Keys
      decreases r, 0, 0
    {
      assert DenoteArguments(resolver, r.args[..0]) == map[];
      ghost var known := referencesModel.Keys;
      assert ArgumentsKnown(r.args, 0, known);
      hide RefIds, Denote, DenoteArguments, RefPaths, RefAt, IdOf, Clean, SerializeArgument, Valid, Replacements,
           ArgumentsKnown;
      var kwargs := map[];
      for i := 0 to |args|
        invariant Valid() && references.Keys <= old(references.Keys) + (RefIds(r) - {IdOf(r)})
        invariant old(resolutions) <= resolutions
        invariant kwargs == DenoteArguments(resolver, r.args[..i]) && ArgumentsKnown(r.args, i, known)
      {
        ghost var t := r.args[i].value;
        assert r.args[i] < r;
        ArgumentIds(r, i);
        var value := GetArgValue(args[i], t);
        if value.Err? {
          return Err(value.error);
        }
        kwargs := kwargs[args[i].name := value.value];
        NextArgument(resolver, r.args, i);
        NextKnown(r.args, i, known);
      }
      assert r.args[..|args|] == r.args;
      AllArgumentsKnown(r, known);
      return Ok(kwargs);
    }

    /** Argument.get_arg_value, for the value `t` the argument was made from. */
    method GetArgValue(arg: Argument, ghost t: Tree) returns (res: Result<Value>)
      requires Valid() && arg == SerializeArgument(arg.name, t)
      modifies this`references, this`resolutions
      ensures Valid() && references.Keys <= old(references.Keys) + RefIds(t)
      ensures res.Ok? <==> RefIds(t) <= referencesModel.Keys
      ensures res.Ok? ==> res.value == Denote(resolver, t)
      ensures old(resolutions) <= resolutions
      ensures res.Err? ==> res.error.MissingReference? && res.error.id in RefIds(t) - referencesModel.Keys
      decreases t, 1
    {
      match arg {
        case LiteralArgument(_, scalar) => return Ok(Prim(scalar));
        case JsonArgument(_, value) =>
          CollectsSomething(t, []);
          PartialNone(resolver, t, [], {});
          PartialAll(resolver, t, [], {});
          return Ok(value);
        case ReferenceArgument(_, id) => res := GetReferenceValue(id, t);
        case MutatedJsonArgument(_, value, ids) => res := FillIn(value, ids, t);
      }
    }

    /** MutatedJsonArgument.get_arg_value: the references are written into the cleaned value one by one. */
    method FillIn(value: Value, ids: map<Path, Uuid>, ghost t: Tree) returns (res: Result<Value>)
      requires Valid() && !t.RefT? && !t.Leaf? && value == Clean(t)
      requires ids == map p | p in RefPaths(t, []) :: IdOf(RefAt(t, [], p))
      modifies this`references, this`resolutions
      ensures Valid() && references.Keys <= old(references.Keys) + RefIds(t)
      ensures res.Ok? <==> RefIds(t) <= referencesModel.Keys
      ensures res.Ok? ==> res.value == Denote(resolver, t)
      ensures old(resolutions) <= resolutions
      ensures res.Err? ==> res.error.MissingReference? && res.error.id in RefIds(t) - referencesModel.Keys
      decreases t, 0, 1
    {
      hide Denote, Partial, RefPaths, RefAt, IdOf, RefIds, Clean, Update;
      var current, todo := value, ids.Keys;
      PartialNone(resolver, t, [], {});
      assert RefPaths(t, []) - todo == {};
      while todo != {}
        invariant todo <= RefPaths(t, []) == ids.Keys && old(resolutions) <= resolutions
        invariant Valid() && references.Keys <= old(references.Keys) + RefIds(t)
        invariant current == Partial(resolver, t, [], RefPaths(t, []) - todo)
        invariant forall p :: p in RefPaths(t, []) - todo ==> RefIds(RefAt(t, [], p)) <= referencesModel.Keys
      {
        var p :| p in todo;
        ghost var r: RefTree := RefAt(t, [], p);
        RefIdsOfRefAt(t, [], p);
        var x := GetReferenceValue(ids[p], r);
        if x.Err? {
          return Err(x.error);
        }
        FillOne(resolver, t, todo, p);
        current := Update(current, p, x.value);
        todo := todo - {p};
      }
      assert RefPaths(t, []) - todo == RefPaths(t, []);
      FilledIn(resolver, t, referencesModel.Keys);
      return Ok(current);
    }

    /** The identifiers that can be looked up once the references of the resource are loaded. */
    ghost function Known(): set<Uuid>
      reads this
    {
      referencesModel.Keys + set m | m in referencesField :: m.id
    }

    method LoadModels()
      requires Valid()
      modifies this`referencesModel
      ensures Valid() && referencesModel.Keys == old(Known())
    {
      for i := 0 to |referencesField|
        invariant Valid()
        invariant referencesModel.Keys == old(referencesModel.Keys) + set m | m in referencesField[..i] :: m.id
      {
        var model := referencesField[i];
        label Before:
        if model.id !in referencesModel {
          referencesModel := referencesModel[model.id := model];
        }
        forall j, s: RefTree | j in references ensures CacheOk(j, s) {
          assert old@Before(CacheOk(j, s));
        }
        assert referencesField[..i + 1] == referencesField[..i] + [model];
      }
      assert referencesField[..|referencesField|] == referencesField;
    }

    /** Resource.resolve_all_references, for a resource whose fields and mutators were left by exporting
        the fields behind `t` for the resource `owner`, and where an earlier call that failed may have filled in the
        references at `was` already. */
    method ResolveAllReferences(ghost owner: string, ghost t: Tree, ghost was: set<Path>)
      returns (res: Result<()>, ghost done: set<Path>)
      requires Valid()
      requires !resolved ==> t.DictT? && was <= RefPaths(t, []) && Dict(fields) == Partial(resolver, t, [], was)
      requires !resolved ==> forall m :: m in mutatorsField <==> exists p :: ReplacesAt(m, owner, t, p)
      modifies this
      ensures Valid()
      ensures old(resolved) ==> res.Ok? && fields == old(fields)
      ensures old(resolutions) <= resolutions
      ensures !old(resolved) ==>
                (res.Ok? <==> RefPaths(t, []) == {} || (owner == id && RefIds(t) <= old(Known())))
      ensures res.Ok? ==> resolved
      ensures !old(resolved) && res.Ok? ==> Dict(fields) == Denote(resolver, t)
      ensures res.Err? ==> !resolved && was <= done <= RefPaths(t, []) && Dict(fields) == Partial(resolver, t, [], done)
    {
      hide Denote, Partial, RefPaths, RefAt, IdOf, RefIds, Clean, Valid;
      done := was;
      if resolved {
        return Ok(()), done;
      }
      LoadModels();
      ghost var now: set<Path> := {};
      for i := 0 to |mutatorsField|
        invariant Valid() && referencesModel.Keys == old(Known()) && !resolved && old(resolutions) <= resolutions
        invariant done <= RefPaths(t, []) && Dict(fields) == Partial(resolver, t, [], done) && done == was + now
        invariant forall j: nat :: j < i ==> mutatorsField[j].destination in now
        invariant forall p :: p in now ==> owner == id && RefIds(RefAt(t, [], p)) <= referencesModel.Keys
        invariant now <= RefPaths(t, [])
      {
        var mutator := mutatorsField[i];
        assert mutator in mutatorsField;
        ghost var p :| ReplacesAt(mutator, owner, t, p);
        if mutator.resource != id {
          return Err(OtherResource(mutator.resource)), done;
        }
        RefIdsOfRefAt(t, [], p);
        var value := GetReferenceValue(mutator.value, RefAt(t, [], p));
        if value.Err? {
          return Err(value.error), done;
        }
        UpdateFillsIn(resolver, t, [], done, p);
        assert p[0..] == p;
        assert value.value == Denote(resolver, RefAt(t, [], p));
        fields := Update(Dict(fields), mutator.destination, value.value).fields;
        done, now := done + {p}, now + {p};
      }
      EveryPathHasItsMutator(owner, t, mutatorsField, now);
      assert done == RefPaths(t, []);
      FilledIn(resolver, t, referencesModel.Keys);
      resolved := true;
      return Ok(()), done;
    }
  }

  lemma {:induction false} EveryPathHasItsMutator(owner: string, t: Tree, mutators: seq<MutatorModel>, done: set<Path>)
    requires forall m :: m in mutators <==> exists p :: ReplacesAt(m, owner, t, p)
    requires done <= RefPaths(t, []) && forall j: nat :: j < |mutators| ==> mutators[j].destination in done
    ensures done == RefPaths(t, [])
  {
    forall p | p in RefPaths(t, []) ensures p in done {
      var m := Replace(owner, IdOf(RefAt(t, [], p)), p);
      assert ReplacesAt(m, owner, t, p);
      assert m in mutators;
      var j: nat :| j < |mutators| && mutators[j] == m;
    }
  }

  /** The exporter and the agent together: unless the references are cyclic, the agent ends up with
      the original fields, every reference replaced by its value. */
  method ExportThenResolve(id: string, fields: Node, resolver: Resolver, limit: nat, ghost g: Graph)
    returns (resource: Option<Resource>)
    requires fields.DictN? && Refs(fields) <= g.Keys && Ordered(fields)
    requires Snapshot(g) && ModelsOk(g, ModelsOf(g)) && TokensStuck(g, ModelsOf(g))
    modifies g.Keys`model
    ensures resource.None? <==> Cyclic(g, fields)
    ensures resource.Some? ==>
              && Acyclic(g, fields) && resource.value.resolved
              && Dict(resource.value.fields) == Denote(resolver, TreeOf(g, fields))
              && StandsFor(resolver, TreeOf(g, fields), Dict(resource.value.fields))
              && (forall j, k :: 0 <= j < k < |resource.value.resolutions| ==>
                    resource.value.resolutions[j] != resource.value.resolutions[k])
  {
    var exported := Export(id, fields, limit, g);
    if exported.Raised? {
      return None;
    }
    ghost var t := TreeOf(g, fields);
    var r := new Resource(id, exported.value, resolver);
    AllKnown(t, exported.value, id);
    PartialNone(resolver, t, [], {});
    TreeHasDistinctNames(g, fields);
    DenotesWhatItStandsFor(resolver, t);
    hide StandsFor, Denote, NamesDistinct;
    var res, _ := r.ResolveAllReferences(id, t, {});
    return Some(r);
  }

  /** A field that holds a reference to which the argument `value` was given, whose resolver gives that argument back:
      the agent finds in the field what the argument stands for, a scalar for a scalar. */
  method ExportThenEcho(id: string, fields: Node, resolver: Resolver, limit: nat, ghost g: Graph, k: string,
      ghost r: Reference, ghost i: nat)
    returns (resource: Option<Resource>)
    requires fields.DictN? && Refs(fields) <= g.Keys && Ordered(fields)
    requires Snapshot(g) && ModelsOk(g, ModelsOf(g)) && TokensStuck(g, ModelsOf(g))
    requires forall rtype, m: map<string, Value> :: "value" in m ==> resolver(rtype, m) == m["value"]
    requires k in fields.fields && fields.fields[k] == RefN(r)
    requires r in g && i < |g[r].args| && g[r].args[i].name == "value"
    modifies g.Keys`model
    ensures resource.None? <==> Cyclic(g, fields)
    ensures resource.Some? ==>
              && k in resource.value.fields && Acyclic(g, g[r].args[i].value)
              && resource.value.fields[k] == Denote(resolver, TreeOf(g, g[r].args[i].value))
    ensures resource.Some? && g[r].args[i].value.Atom? ==>
              k in resource.value.fields && resource.value.fields[k] == Prim(g[r].args[i].value.scalar)
  {
    hide Denote, StandsFor;
    resource := ExportThenResolve(id, fields, resolver, limit, g);
    if resource.Some? {
      Echoed(g, fields, resolver, k, r, i);
    }
  }

  lemma {:induction false} Echoed(g: Graph, fields: Node, resolver: Resolver, k: string, r: Reference, i: nat)
    requires Closed(g) && fields.DictN? && Acyclic(g, fields)
    requires forall rtype, m: map<string, Value> :: "value" in m ==> resolver(rtype, m) == m["value"]
    requires k in fields.fields && fields.fields[k] == RefN(r)
    requires r in g && i < |g[r].args| && g[r].args[i].name == "value"
    ensures Denote(resolver, TreeOf(g, fields)).Dict? && k in Denote(resolver, TreeOf(g, fields)).fields
    ensures Acyclic(g, g[r].args[i].value)
    ensures var v := Denote(resolver, TreeOf(g, fields)).fields[k];
            && v == Denote(resolver, TreeOf(g, g[r].args[i].value))
            && (g[r].args[i].value.Atom? ==> v == Prim(g[r].args[i].value.scalar))
  {
    HeightOfPart(g, fields, RefN(r));
    TreeOfReference(g, r);
    TreeHasDistinctNames(g, RefN(r));
    var t: RefTree := TreeOf(g, RefN(r));
    ArgumentsByName(resolver, t.args);
    ValueOfReference(resolver, t, DenoteArguments(resolver, t.args));
  }

  lemma {:induction false} AllKnown(t: Tree, exported: Exported, id: string)
    requires IsExportOf(exported, id, t)
    ensures RefIds(t) == set m | m in exported.references :: m.id
  {
    forall i | i in RefIds(t) ensures i in set m | m in exported.references :: m.id {
      assert ModelWithId(i) in exported.references && ModelWithId(i).id == i;
    }
  }
}
