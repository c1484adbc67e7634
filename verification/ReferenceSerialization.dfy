/** The exporter: serialising references and collecting them from attribute values. */
module ReferenceSerialization {
  import opened JsonTrees
  import opened ReferenceEquality
  import opened ReferenceGraph
  import opened Wrappers

  /** What leaves a call of `serialize`: the exception for a cycle, with the references gathered while the stack
      unwinds, or the error of a comparison that needs too many nested calls while `element` is added to them. */
  datatype CycleError =
    | CycleError(references: seq<Reference>, complete: bool)
    | RecursionError(references: seq<Reference>, element: Reference)

  datatype Outcome<T> = Done(value: T) | Raised(error: CycleError)

  datatype MutatorModel = Replace(resource: string, value: Uuid, destination: Path)

  datatype MutatorId = HashOfMutator(model: MutatorModel)

  // ---------------------------------------------------------------- what is collected, as functions of the tree

  function Replacements(t: Tree, path: Path): map<Path, ReferenceModel> {
    map p | p in RefPaths(t, path) :: ModelWithId(IdOf(RefAt(t, path, p)))
  }

  function MutatorsOf(resource: string, replacements: map<Path, ReferenceModel>): map<MutatorId, MutatorModel> {
    map id | id in set p | p in replacements :: HashOfMutator(Replace(resource, replacements[p].id, p)) :: id.model
  }

  lemma {:induction false} CollectedIds(ts: seq<Tree>, us: map<string, Tree>, k: string, t: Tree)
    ensures RefIds(ListT(ts + [t])) == RefIds(ListT(ts)) + RefIds(t)
    ensures k !in us ==> RefIds(DictT(us[k := t])) == RefIds(DictT(us)) + RefIds(t)
  {
    forall i: nat | i < |ts| + 1 ensures RefIds((ts + [t])[i]) == if i < |ts| then RefIds(ts[i]) else RefIds(t) {}
    assert RefIds(t) <= RefIds(ListT(ts + [t])) by { assert (ts + [t])[|ts|] == t; }
    forall id | id in RefIds(ListT(ts)) ensures id in RefIds(ListT(ts + [t])) {
      var i: nat :| i < |ts| && id in RefIds(ts[i]);
      assert (ts + [t])[i] == ts[i];
    }
    if k !in us {
      forall j | j in us ensures us[k := t][j] == us[j] {}
      assert us[k := t][k] == t;
    }
  }

  lemma {:induction false} CollectedFromList(ts: seq<Tree>, t: Tree, path: Path)
    ensures Replacements(ListT(ts + [t]), path)
         == Replacements(ListT(ts), path) + Replacements(t, path + [Index(|ts|)])
    ensures RefIds(ListT(ts + [t])) == RefIds(ListT(ts)) + RefIds(t)
  {
    hide RefIds, IdOf, Clean;
    var l, l' := ListT(ts), ListT(ts + [t]);
    forall p: Path
      ensures p in RefPaths(l', path) <==> p in RefPaths(l, path) || p in RefPaths(t, path + [Index(|ts|)])
      ensures p in RefPaths(l, path) ==>
                RefAt(l', path, p) == RefAt(l, path, p) && p !in RefPaths(t, path + [Index(|ts|)])
      ensures p in RefPaths(t, path + [Index(|ts|)]) ==> RefAt(l', path, p) == RefAt(t, path + [Index(|ts|)], p)
    {
      RefPathsOfChild(l', path, Index(|ts|), t, p);
      if p in RefPaths(l, path) {
        RefPathsExtend(l, path, p);
        RefPathsOfChild(l', path, p[|path|], ts[p[|path|].i], p);
        RefPathsOfChild(l, path, p[|path|], ts[p[|path|].i], p);
      } else if p in RefPaths(l', path) {
        RefPathsExtend(l', path, p);
      }
    }
    CollectedIds(ts, map[], "", t);
  }

  lemma {:induction false} CollectedFromDict(ts: map<string, Tree>, k: string, t: Tree, path: Path)
    requires k !in ts
    ensures Replacements(DictT(ts[k := t]), path)
         == Replacements(DictT(ts), path) + Replacements(t, path + [Key(k)])
    ensures RefIds(DictT(ts[k := t])) == RefIds(DictT(ts)) + RefIds(t)
  {
    hide RefIds, IdOf, Clean;
    var d, d' := DictT(ts), DictT(ts[k := t]);
    forall p: Path
      ensures p in RefPaths(d', path) <==> p in RefPaths(d, path) || p in RefPaths(t, path + [Key(k)])
      ensures p in RefPaths(d, path) ==> RefAt(d', path, p) == RefAt(d, path, p) && p !in RefPaths(t, path + [Key(k)])
      ensures p in RefPaths(t, path + [Key(k)]) ==> RefAt(d', path, p) == RefAt(t, path + [Key(k)], p)
    {
      RefPathsOfChild(d', path, Key(k), t, p);
      if p in RefPaths(d, path) {
        RefPathsExtend(d, path, p);
        RefPathsOfChild(d', path, p[|path|], ts[p[|path|].name], p);
        RefPathsOfChild(d, path, p[|path|], ts[p[|path|].name], p);
      } else if p in RefPaths(d', path) {
        RefPathsExtend(d', path, p);
      }
    }
    CollectedIds([], ts, k, t);
  }

  lemma {:induction false} UnionAssociates<K, V>(a: map<K, V>, b: map<K, V>, c: map<K, V>)
    ensures (a + b) + c == a + (b + c)
  {
  }

  /** Nothing is recorded at `path` or below. */
  ghost predicate Unused(replacements: map<Path, ReferenceModel>, path: Path) {
    forall p :: p in replacements ==> !(path <= p)
  }

  lemma {:induction false} UnusedInList(replacements: map<Path, ReferenceModel>, ts: seq<Tree>, path: Path)
    requires Unused(replacements, path)
    ensures Unused(replacements + Replacements(ListT(ts), path), path + [Index(|ts|)])
  {
    forall p | p in replacements + Replacements(ListT(ts), path) ensures !(path + [Index(|ts|)] <= p) {
      if path + [Index(|ts|)] <= p {
        assert path <= p && p[|path|] == Index(|ts|);
        RefPathsExtend(ListT(ts), path, p);
        assert false;
      }
    }
  }

  lemma {:induction false} UnusedInDict(replacements: map<Path, ReferenceModel>, ts: map<string, Tree>, path: Path,
        k: string)
    requires Unused(replacements, path) && k !in ts
    ensures Unused(replacements + Replacements(DictT(ts), path), path + [Key(k)])
  {
    forall p | p in replacements + Replacements(DictT(ts), path) ensures !(path + [Key(k)] <= p) {
      if path + [Key(k)] <= p {
        assert path <= p && p[|path|] == Key(k);
        RefPathsExtend(DictT(ts), path, p);
        assert false;
      }
    }
  }

  lemma {:induction false} NothingCollected()
    ensures RefIds(ListT([])) == {} && RefIds(DictT(map[])) == {}
    ensures Clean(ListT([])) == List([]) && Clean(DictT(map[])) == Dict(map[])
    ensures forall path :: Replacements(ListT([]), path) == map[] && Replacements(DictT(map[]), path) == map[]
  {
  }

  lemma {:induction false} CleanedGrows(ts: seq<Tree>, us: map<string, Tree>, k: string, t: Tree)
    ensures Clean(ListT(ts + [t])) == List(Clean(ListT(ts)).items + [Clean(t)])
    ensures Clean(DictT(us[k := t])) == Dict(Clean(DictT(us)).fields[k := Clean(t)])
  {
  }

  lemma {:induction false} CollectedFromReference(t: RefTree, ts: seq<Tree>)
    requires |ts| == |t.args| && forall i: nat :: i < |ts| ==> ts[i] == t.args[i].value
    ensures RefIds(t) == {IdOf(t)} + RefIds(ListT(ts))
  {
    forall id ensures id in RefIds(t) <==> id == IdOf(t) || id in RefIds(ListT(ts)) {
      if i: nat :| i < |ts| && id in RefIds(ts[i]) {
        assert id in RefIds(t.args[i].value);
      }
      if i: nat :| i < |t.args| && id in RefIds(t.args[i].value) {
        assert id in RefIds(ListT(ts).items[i]);
      }
    }
  }

  lemma {:induction false} MutatedArgument(name: string, t: Tree, replacements: map<Path, ReferenceModel>)
    requires !t.Leaf? && !t.RefT? && replacements == Replacements(t, [])
    ensures SerializeArgument(name, t) ==
            if RefIds(t) == {} then JsonArgument(name, Clean(t))
            else MutatedJsonArgument(name, Clean(t), map p | p in replacements :: replacements[p].id)
  {
    CollectsSomething(t, []);
  }

  /** A tree holds a reference somewhere exactly when collecting it finds an identifier. */
  lemma {:induction false} CollectsSomething(t: Tree, path: Path)
    ensures RefIds(t) == {} <==> RefPaths(t, path) == {}
  {
    match t
    case ListT(items) =>
      forall i: nat | i < |items| ensures RefIds(items[i]) == {} <==> RefPaths(items[i], path + [Index(i)]) == {} {
        CollectsSomething(items[i], path + [Index(i)]);
      }
      if RefIds(t) != {} {
        var id :| id in RefIds(t);
        var i: nat :| i < |items| && id in RefIds(items[i]);
        var p :| p in RefPaths(items[i], path + [Index(i)]);
        assert p in RefPaths(t, path);
      }
      if RefPaths(t, path) != {} {
        var p :| p in RefPaths(t, path);
        var i: nat :| i < |items| && p in RefPaths(items[i], path + [Index(i)]);
        var id :| id in RefIds(items[i]);
        assert id in RefIds(t);
      }
    case DictT(fields) =>
      forall k | k in fields ensures RefIds(fields[k]) == {} <==> RefPaths(fields[k], path + [Key(k)]) == {} {
        CollectsSomething(fields[k], path + [Key(k)]);
      }
      if RefIds(t) != {} {
        var id :| id in RefIds(t);
        var k :| k in fields && id in RefIds(fields[k]);
        var p :| p in RefPaths(fields[k], path + [Key(k)]);
        assert p in RefPaths(t, path);
      }
      if RefPaths(t, path) != {} {
        var p :| p in RefPaths(t, path);
        var k :| k in fields && p in RefPaths(fields[k], path + [Key(k)]);
        var id :| id in RefIds(fields[k]);
        assert id in RefIds(t);
      }
    case RefT(_, _) =>
      assert IdOf(t) in RefIds(t) && path in RefPaths(t, path);
    case _ =>
  }

  // ---------------------------------------------------------------- the state of the model caches

  type Models = map<Reference, ModelState>

  ghost function ModelsOf(g: Graph): (ms: Models)
    reads g.Keys`model
    ensures ms.Keys == g.Keys
  {
    map r | r in g :: r.model
  }

  /** The references that are being serialised. */
  ghost function Tokens(ms: Models): set<Reference> {
    set r | r in ms && ms[r].CycleToken?
  }

  ghost function Pending(ms: Models): set<Reference> {
    set r | r in ms && ms[r].Unset?
  }

  /** A written model is the right one, and all arguments have theirs. */
  ghost predicate RefOk(g: Graph, ms: Models, r: Reference)
    requires r in ms
  {
    ms[r].Serialized? ==>
      && Acyclic(g, RefN(r))
      && ms[r].model == ModelWithId(IdOf(TreeOf(g, RefN(r))))
      && forall s :: s in Succ(g, r) ==> s in ms && ms[s].Serialized?
  }

  ghost predicate ModelsOk(g: Graph, ms: Models) {
    ms.Keys == g.Keys && forall r {:trigger RefOk(g, ms, r)} :: r in ms ==> RefOk(g, ms, r)
  }

  /** What a successful step keeps: the tokens, and every model written before. */
  ghost predicate Progress(g: Graph, ms: Models, ms': Models) {
    && ModelsOk(g, ms')
    && Tokens(ms') == Tokens(ms)
    && Pending(ms') <= Pending(ms)
    && forall r :: r in ms && ms[r].Serialized? ==> r in ms' && ms'[r] == ms[r]
  }

  ghost predicate AllSerialized(ms: Models, n: Node) {
    forall r :: r in Refs(n) ==> r in ms && ms[r].Serialized?
  }

  ghost predicate Ready(g: Graph, bound: set<Reference>)
    reads g.Keys
  {
    Snapshot(g) && ModelsOk(g, ModelsOf(g)) && Pending(ModelsOf(g)) <= bound
  }

  /** Every reference that can be reached holds its model. */
  lemma {:induction false} SerializedReach(g: Graph, ms: Models, r: Reference, s: Reference, k: nat)
    requires ModelsOk(g, ms) && r in ms && ms[r].Serialized? && Leads(g, r, s, k)
    ensures s in ms && ms[s].Serialized?
  {
    if k > 0 {
      assert RefOk(g, ms, r);
      var m :| m in Succ(g, r) && Leads(g, m, s, k - 1);
      SerializedReach(g, ms, m, s, k - 1);
    }
  }

  // ---------------------------------------------------------------- what an exception says

  /** `r in refs`, as a list compares its items with `r` one after the other. */
  function Contains(g: Graph, refs: seq<Reference>, r: Reference, limit: nat): (c: Option<bool>)
    ensures c == Some(false) <==> forall i :: 0 <= i < |refs| ==> ReferencesEqual(g, refs[i], r, limit) == Some(false)
    ensures c == Some(true) ==> exists i :: 0 <= i < |refs| && ReferencesEqual(g, refs[i], r, limit) == Some(true)
    ensures c == None ==> exists i :: 0 <= i < |refs| && ReferencesEqual(g, refs[i], r, limit) == None
    decreases |refs|
  {
    if refs == [] then Some(false)
    else
      var c := ReferencesEqual(g, refs[0], r, limit);
      if c != Some(false) then
        assert ReferencesEqual(g, refs[0], r, limit) == c;
        c
      else
        assert forall i :: 0 <= i < |refs[1..]| ==> refs[1..][i] == refs[i + 1];
        Contains(g, refs[1..], r, limit)
  }

  ghost predicate InGraph(g: Graph, refs: seq<Reference>) {
    forall i :: 0 <= i < |refs| ==> refs[i] in g
  }

  method ListContains(refs: seq<Reference>, r: Reference, limit: nat, ghost g: Graph) returns (c: Option<bool>)
    requires Snapshot(g) && r in g && InGraph(g, refs)
    ensures c == Contains(g, refs, r, limit)
  {
    if refs == [] {
      return Some(false);
    }
    c := Equal(RefN(refs[0]), RefN(r), limit, g);
    if c == Some(false) {
      c := ListContains(refs[1..], r, limit, g);
    }
  }

  /** ReferenceCycleException.add, in a handler that lets other errors pass. */
  function Added(g: Graph, e: CycleError, r: Reference, limit: nat): CycleError {
    if e.RecursionError? || e.complete then e
    else
      var c := Contains(g, e.references, r, limit);
      if c.None? then RecursionError(e.references, r) else CycleError(e.references + [r], c.value)
  }

  method AddToTrace(e: CycleError, r: Reference, limit: nat, ghost g: Graph) returns (e': CycleError)
    requires Snapshot(g) && r in g && InGraph(g, e.references)
    ensures e' == Added(g, e, r, limit)
  {
    if e.RecursionError? || e.complete {
      return e;
    }
    var c := ListContains(e.references, r, limit, g);
    if c.None? {
      return RecursionError(e.references, r);
    }
    return CycleError(e.references + [r], c.value);
  }

  /** Each reference is an argument of the next one. */
  ghost predicate Links(g: Graph, c: seq<Reference>) {
    c != [] && forall i :: 0 <= i < |c| - 1 ==> c[i] in Succ(g, c[i + 1])
  }

  /** Each reference is an argument of the next one, and the last is the first. */
  ghost predicate IsCycleTrace(g: Graph, refs: seq<Reference>) {
    |refs| >= 2 && refs[0] == refs[|refs| - 1] && Links(g, refs)
  }

  /** Comparing two of the references either finds them identical, or returns and finds that they differ. */
  ghost predicate ToldApart(g: Graph, c: seq<Reference>, limit: nat) {
    forall i, j :: 0 <= i < j < |c| ==> c[i] == c[j] || ReferencesEqual(g, c[i], c[j], limit) == Some(false)
  }

  ghost predicate Distinct(c: seq<Reference>) {
    forall i, j :: 0 <= i < j < |c| ==> c[i] != c[j]
  }

  ghost predicate LeadsTo(g: Graph, r: Reference, s: Reference) {
    exists k: nat :: Leads(g, r, s, k)
  }

  /** From `r` a cycle, or one of the references being serialised, is reached. */
  ghost predicate Closes(g: Graph, r: Reference, tokens: set<Reference>) {
    Cyclic(g, RefN(r)) || exists f :: f in tokens && LeadsTo(g, r, f)
  }

  ghost predicate AnyCloses(g: Graph, tokens: set<Reference>, rs: seq<Reference>) {
    exists r :: r in rs && Closes(g, r, tokens)
  }

  /** The first reference that does. */
  ghost function First(g: Graph, tokens: set<Reference>, rs: seq<Reference>): (r: Reference)
    requires AnyCloses(g, tokens, rs)
    ensures r in rs && Closes(g, r, tokens)
  {
    if Closes(g, rs[0], tokens) then rs[0] else First(g, tokens, rs[1..])
  }

  /** What serialising `r` raises while the references in `tokens` are being serialised. */
  ghost function Exception(g: Graph, limit: nat, tokens: set<Reference>, r: Reference): CycleError
    requires Closed(g) && Closes(g, r, tokens)
    decreases g.Keys - tokens
  {
    if r in tokens then CycleError([r], false)
    else
      ArgumentCloses(g, tokens, r);
      Added(g, Exception(g, limit, tokens + {r}, First(g, tokens + {r}, ArgumentsOf(g, r))), r, limit)
  }

  lemma {:induction false} ArgumentCloses(g: Graph, tokens: set<Reference>, r: Reference)
    requires Closed(g) && Closes(g, r, tokens) && r !in tokens
    ensures r in g && AnyCloses(g, tokens + {r}, ArgumentsOf(g, r))
  {
    ArgumentsAreSucc(g, r);
    if f :| f in tokens && LeadsTo(g, r, f) {
      var k: nat :| Leads(g, r, f, k);
      var m :| m in Succ(g, r) && Leads(g, m, f, k - 1);
      assert LeadsTo(g, m, f) && Closes(g, m, tokens + {r});
    } else {
      var s, j: nat, k: nat :| s in g && Leads(g, r, s, j) && k > 0 && Leads(g, s, s, k);
      if j > 0 {
        var m :| m in Succ(g, r) && Leads(g, m, s, j - 1);
        assert Closes(g, m, tokens + {r});
      } else {
        var m :| m in Succ(g, r) && Leads(g, m, r, k - 1);
        assert LeadsTo(g, m, r) && Closes(g, m, tokens + {r});
      }
    }
  }

  /** What a failed step leaves: models that are right, and more tokens only on references that reach a cycle or one of
      the earlier tokens. */
  ghost predicate Stuck(g: Graph, ms: Models, ms': Models) {
    ModelsOk(g, ms') && forall f :: f in Tokens(ms') && f !in Tokens(ms) ==> Closes(g, f, Tokens(ms))
  }

  /** Serialising the references `rs` one after the other has raised `e`. */
  ghost predicate Failed(g: Graph, limit: nat, rs: seq<Reference>, ms: Models, ms': Models, e: CycleError) {
    && Closed(g) && AnyCloses(g, Tokens(ms), rs)
    && e == Exception(g, limit, Tokens(ms), First(g, Tokens(ms), rs)) && Stuck(g, ms, ms')
  }

  lemma {:induction false} TokenFound(g: Graph, limit: nat, r: Reference, ms: Models)
    requires Closed(g) && r in Tokens(ms) && ModelsOk(g, ms)
    ensures Failed(g, limit, [r], ms, ms, CycleError([r], false))
  {
    assert Leads(g, r, r, 0);
    assert Closes(g, r, Tokens(ms)) && r in [r];
  }

  lemma {:induction false} LeadsOn(g: Graph, r: Reference, s: Reference, t: Reference, j: nat, k: nat)
    requires Leads(g, r, s, j) && Leads(g, s, t, k)
    ensures Leads(g, r, t, j + k)
    decreases j
  {
    if j > 0 {
      var m :| m in Succ(g, r) && Leads(g, m, s, j - 1);
      LeadsOn(g, m, s, t, j - 1, k);
    }
  }

  /** What reaches something that closes, closes. */
  lemma {:induction false} ClosesThrough(g: Graph, f: Reference, r: Reference, j: nat, tokens: set<Reference>)
    requires Leads(g, f, r, j) && Closes(g, r, tokens)
    ensures Closes(g, f, tokens)
  {
    if t :| t in tokens && LeadsTo(g, r, t) {
      var k: nat :| Leads(g, r, t, k);
      LeadsOn(g, f, r, t, j, k);
      assert LeadsTo(g, f, t);
    } else {
      var s, k: nat, l: nat :| s in g && Leads(g, r, s, k) && l > 0 && Leads(g, s, s, l);
      LeadsOn(g, f, r, s, j, k);
    }
  }

  lemma {:induction false} FrameCloses(g: Graph, r: Reference, tokens: set<Reference>)
    requires Closed(g) && r in g && AnyCloses(g, tokens + {r}, ArgumentsOf(g, r))
    ensures Closes(g, r, tokens)
  {
    ArgumentsAreSucc(g, r);
    var m :| m in ArgumentsOf(g, r) && Closes(g, m, tokens + {r});
    assert Leads(g, r, r, 0) && Leads(g, m, m, 0) && Leads(g, r, m, 1);
    if LeadsTo(g, m, r) {
      var k: nat :| Leads(g, m, r, k);
      assert Leads(g, r, r, k + 1);
    } else {
      assert Closes(g, m, tokens);
      ClosesThrough(g, r, m, 1, tokens);
    }
  }

  /** The tokens left behind by a frame that fails. */
  lemma {:induction false} FrameStuck(g: Graph, r: Reference, ms: Models, ms': Models)
    requires r in ms && Closes(g, r, Tokens(ms)) && Tokens(ms[r := CycleToken]) == Tokens(ms) + {r}
    requires Stuck(g, ms[r := CycleToken], ms')
    ensures Stuck(g, ms, ms')
  {
    forall f | f in Tokens(ms') && f !in Tokens(ms) ensures Closes(g, f, Tokens(ms)) {
      if f != r {
        assert Closes(g, f, Tokens(ms) + {r});
        if j: nat :| Leads(g, f, r, j) { ClosesThrough(g, f, r, j, Tokens(ms)); }
      }
    }
  }

  /** Unwinding through the frame of `r`. */
  lemma {:induction false} UnwindStep(g: Graph, limit: nat, r: Reference, ms: Models, ms': Models, e: CycleError)
    requires r in g && r in ms && r !in Tokens(ms) && Tokens(ms[r := CycleToken]) == Tokens(ms) + {r}
    requires Failed(g, limit, ArgumentsOf(g, r), ms[r := CycleToken], ms', e)
    ensures Failed(g, limit, [r], ms, ms', Added(g, e, r, limit))
  {
    hide Closes, Stuck, Added, ArgumentsOf;
    FrameCloses(g, r, Tokens(ms));
    FrameStuck(g, r, ms, ms');
    assert r in [r];
  }

  /** All references of a trace belong to the graph. */
  lemma {:induction false} ExceptionInGraph(g: Graph, limit: nat, tokens: set<Reference>, r: Reference)
    requires Closed(g) && Closes(g, r, tokens) && tokens <= g.Keys
    ensures InGraph(g, Exception(g, limit, tokens, r).references)
    decreases g.Keys - tokens
  {
    if r !in tokens {
      ArgumentCloses(g, tokens, r);
      hide Closes, Contains, ArgumentsOf;
      ExceptionInGraph(g, limit, tokens + {r}, First(g, tokens + {r}, ArgumentsOf(g, r)));
    }
  }

  lemma {:induction false} TraceOfArguments(g: Graph, limit: nat, r: Reference, ms: Models, ms': Models, e: CycleError)
    requires Failed(g, limit, ArgumentsOf(g, r), ms, ms', e) && ms.Keys == g.Keys
    ensures InGraph(g, e.references)
  {
    hide Closes, AnyCloses, Stuck, ArgumentsOf, Exception;
    ExceptionInGraph(g, limit, Tokens(ms), First(g, Tokens(ms), ArgumentsOf(g, r)));
  }

  lemma {:induction false} FirstOfWhole(g: Graph, tokens: set<Reference>, before: seq<Reference>, part: seq<Reference>,
        whole: seq<Reference>)
    requires before + part <= whole && !AnyCloses(g, tokens, before) && AnyCloses(g, tokens, part)
    ensures AnyCloses(g, tokens, whole) && First(g, tokens, whole) == First(g, tokens, part)
    decreases |before| + |part|
  {
    hide Closes;
    var r :| r in part && Closes(g, r, tokens);
    assert whole[..|before| + |part|] == before + part;
    if before != [] {
      assert before[0] in before && whole[0] == before[0];
      assert before[1..] + part == whole[1..][..|before| + |part| - 1];
      FirstOfWhole(g, tokens, before[1..], part, whole[1..]);
    } else {
      assert whole[0] == part[0];
      if !Closes(g, part[0], tokens) {
        assert r in part[1..] && part[1..] == whole[1..][..|part| - 1];
        FirstOfWhole(g, tokens, [], part[1..], whole[1..]);
      }
    }
  }

  /** A part fails, and what comes before it did not. */
  lemma {:induction false} PropagateFrom(g: Graph, limit: nat, before: seq<Reference>, part: seq<Reference>,
        whole: seq<Reference>, ms0: Models, ms: Models, ms': Models, e: CycleError)
    requires Progress(g, ms0, ms) && Failed(g, limit, part, ms, ms', e) && before + part <= whole
    requires !AnyCloses(g, Tokens(ms), before)
    ensures Failed(g, limit, whole, ms0, ms', e)
  {
    FirstOfWhole(g, Tokens(ms), before, part, whole);
  }

  lemma {:induction false} ProgressTransitive(g: Graph, ms0: Models, ms1: Models, ms2: Models, n: Node)
    requires Progress(g, ms0, ms1) && Progress(g, ms1, ms2)
    ensures Progress(g, ms0, ms2) && (AllSerialized(ms1, n) ==> AllSerialized(ms2, n))
  {
  }

  /** The first items of a list have been dealt with, and these are their trees. */
  ghost predicate DoneList(g: Graph, ms: Models, items: seq<Node>, ts: seq<Tree>) {
    |ts| <= |items| && forall j: nat :: j < |ts| ==>
      Acyclic(g, items[j]) && AllSerialized(ms, items[j]) && ts[j] == TreeOf(g, items[j])
  }

  /** The same for the entries of a dict. */
  ghost predicate DoneDict(g: Graph, ms: Models, n: Node, i: nat, ts: map<string, Tree>) {
    && n.DictN? && i <= |n.order| && (forall k :: k in ts <==> k in n.order[..i])
    && forall k :: k in ts ==>
      k in n.fields && Acyclic(g, n.fields[k]) && AllSerialized(ms, n.fields[k]) && ts[k] == TreeOf(g, n.fields[k])
  }

  lemma {:induction false} NextKey(g: Graph, ms: Models, n: Node, i: nat, ts: map<string, Tree>)
    requires Ordered(n) && DoneDict(g, ms, n, i, ts) && i < |n.order|
    ensures n.order[i] in n.fields && n.order[i] !in ts
  {
  }

  lemma {:induction false} NextInList(g: Graph, ms0: Models, ms1: Models, ms2: Models, items: seq<Node>, ts: seq<Tree>)
    requires Progress(g, ms0, ms1) && DoneList(g, ms1, items, ts) && |ts| < |items|
    requires Progress(g, ms1, ms2) && Acyclic(g, items[|ts|]) && AllSerialized(ms2, items[|ts|])
    ensures Progress(g, ms0, ms2) && DoneList(g, ms2, items, ts + [TreeOf(g, items[|ts|])])
  {
  }

  lemma {:induction false} EntriesStay(g: Graph, ms: Models, ms': Models, n: Node, i: nat, ts: map<string, Tree>)
    requires DoneDict(g, ms, n, i, ts) && Progress(g, ms, ms')
    ensures DoneDict(g, ms', n, i, ts)
  {
    hide Acyclic, TreeOf, ModelsOk, Tokens, Pending;
  }

  lemma {:induction false} EntryAdded(g: Graph, ms: Models, n: Node, i: nat, ts: map<string, Tree>, k: string)
    requires DoneDict(g, ms, n, i, ts) && i < |n.order| && k == n.order[i] && k in n.fields
    requires Acyclic(g, n.fields[k]) && AllSerialized(ms, n.fields[k])
    ensures DoneDict(g, ms, n, i + 1, ts[k := TreeOf(g, n.fields[k])])
  {
    assert n.order[..i + 1] == n.order[..i] + [k];
    hide Acyclic, TreeOf, AllSerialized;
  }

  lemma {:induction false} NextInDict(g: Graph, ms0: Models, ms1: Models, ms2: Models, n: Node, i: nat,
        ts: map<string, Tree>, k: string)
    requires Progress(g, ms0, ms1) && DoneDict(g, ms1, n, i, ts) && i < |n.order| && k == n.order[i]
    requires k in n.fields && Progress(g, ms1, ms2) && Acyclic(g, n.fields[k]) && AllSerialized(ms2, n.fields[k])
    ensures Progress(g, ms0, ms2) && DoneDict(g, ms2, n, i + 1, ts[k := TreeOf(g, n.fields[k])])
  {
    ProgressTransitive(g, ms0, ms1, ms2, n);
    hide Acyclic, TreeOf, AllSerialized, Progress;
    EntriesStay(g, ms1, ms2, n, i, ts);
    EntryAdded(g, ms2, n, i, ts, k);
  }

  lemma {:induction false} ListDone(g: Graph, ms: Models, n: Node, ts: seq<Tree>)
    requires n.ListN? && |ts| == |n.items| && DoneList(g, ms, n.items, ts)
    ensures Acyclic(g, n) && AllSerialized(ms, n) && TreeOf(g, n) == ListT(ts)
  {
    AcyclicContainer(g, n);
  }

  lemma {:induction false} DictDone(g: Graph, ms: Models, n: Node, ts: map<string, Tree>)
    requires n.DictN? && Ordered(n) && DoneDict(g, ms, n, |n.order|, ts)
    ensures Acyclic(g, n) && AllSerialized(ms, n) && TreeOf(g, n) == DictT(ts)
  {
    assert n.order[..|n.order|] == n.order;
    assert ts.Keys == n.fields.Keys;
    AcyclicContainer(g, n);
  }

  lemma {:induction false} JustNow(g: Graph, bound: set<Reference>, n: Node)
    requires Ready(g, bound)
    ensures Progress(g, ModelsOf(g), ModelsOf(g))
    ensures DoneList(g, ModelsOf(g), if n.ListN? then n.items else [], [])
    ensures n.DictN? ==> DoneDict(g, ModelsOf(g), n, 0, map[])
  {
  }

  lemma {:induction false} AtomDone(g: Graph, ms: Models, n: Node)
    requires n.Atom?
    ensures Refs(n) == {} && Acyclic(g, n) && AllSerialized(ms, n) && TreeOf(g, n) == Leaf(n.scalar)
  {
    AcyclicParts(g, n);
  }

  lemma {:induction false} LeafCollected(scalar: Scalar, path: Path)
    ensures RefIds(Leaf(scalar)) == {} && Replacements(Leaf(scalar), path) == map[]
            && Clean(Leaf(scalar)) == Prim(scalar)
  {
  }

  lemma {:induction false} RefDone(g: Graph, bound: set<Reference>, r: Reference)
    requires Ready(g, bound) && r in g && r.model.Serialized?
    ensures Acyclic(g, RefN(r)) && AllSerialized(ModelsOf(g), RefN(r)) && RefOk(g, ModelsOf(g), r)
    ensures r.model.model == ModelWithId(IdOf(TreeOf(g, RefN(r))))
  {
    assert RefOk(g, ModelsOf(g), r);
  }

  lemma {:induction false} SerializedOf(g: Graph, n: Node, r: Reference)
    requires AllSerialized(ModelsOf(g), n) && r in Refs(n)
    ensures r in g && r.model.Serialized?
  {
    assert r in ModelsOf(g);
  }

  lemma {:induction false} ReferenceCollected(t: RefTree, path: Path)
    ensures IdOf(t) in RefIds(t) && Clean(t) == Prim(Null)
    ensures Replacements(t, path) == map[path := ModelWithId(IdOf(t))]
  {
    assert RefPaths(t, path) == {path};
  }

  lemma {:induction false} ReferenceRecorded(t: RefTree, path: Path, was: map<Path, ReferenceModel>)
    ensures was + Replacements(t, path) == was[path := ModelWithId(IdOf(t))]
  {
    ReferenceCollected(t, path);
    hide Replacements;
  }

  lemma {:induction false} MutatorAdded(resource: string, replacements: map<Path, ReferenceModel>, path: Path,
        model: ReferenceModel)
    requires path !in replacements
    ensures var m := Replace(resource, model.id, path);
            MutatorsOf(resource, replacements[path := model])
            == MutatorsOf(resource, replacements)[HashOfMutator(m) := m]
  {
    var m, after := Replace(resource, model.id, path), replacements[path := model];
    forall id | id in MutatorsOf(resource, after)
      ensures id in MutatorsOf(resource, replacements)[HashOfMutator(m) := m]
    {
      var p :| p in after && id == HashOfMutator(Replace(resource, after[p].id, p));
      assert p in replacements || p == path;
    }
    forall id | id in MutatorsOf(resource, replacements)[HashOfMutator(m) := m]
      ensures id in MutatorsOf(resource, after)
    {
      if id == HashOfMutator(m) {
        assert path in after;
      } else {
        var p :| p in replacements && id == HashOfMutator(Replace(resource, replacements[p].id, p));
        assert p in after && after[p] == replacements[p];
      }
    }
  }

  lemma {:induction false} PartOf(g: Graph, n: Node, c: Node)
    requires (n.ListN? && c in n.items) || (n.DictN? && c in n.fields.Values)
    ensures Refs(c) <= Refs(n) && c < n && (Ordered(n) ==> Ordered(c))
    ensures Acyclic(g, n) ==> Acyclic(g, c) && Height(g, c) <= Height(g, n)
  {
    if n.DictN? {
      var k :| k in n.fields && c == n.fields[k];
      assert n.fields[k] < n;
    }
    if Acyclic(g, n) {
      HeightOfPart(g, n, c);
    }
  }

  /** What is serialised already cannot raise. */
  lemma {:induction false} SerializedDoesNotClose(g: Graph, ms: Models, n: Node, r: Reference)
    requires ModelsOk(g, ms) && AllSerialized(ms, n) && Acyclic(g, n) && r in Refs(n)
    ensures !Closes(g, r, Tokens(ms))
  {
    AcyclicIsNotCyclic(g, n);
    assert Cyclic(g, RefN(r)) ==> Cyclic(g, n);
    forall f | f in Tokens(ms) && LeadsTo(g, r, f) ensures false {
      var j: nat :| Leads(g, r, f, j);
      SerializedReach(g, ms, r, f, j);
    }
  }

  lemma {:induction false} OnlyRef(r: Reference)
    ensures Refs(RefN(r)) == {r} && InOrder(RefN(r)) == [r] && Ordered(RefN(r))
  {
  }

  lemma {:induction false} SerializedDoNotClose(g: Graph, ms: Models, n: Node)
    requires ModelsOk(g, ms) && AllSerialized(ms, n) && Acyclic(g, n) && Ordered(n)
    ensures !AnyCloses(g, Tokens(ms), InOrder(n))
  {
    hide Closes, ModelsOk, AllSerialized, Acyclic;
    forall r | r in InOrder(n) ensures !Closes(g, r, Tokens(ms)) {
      IsRef(n, r);
      SerializedDoesNotClose(g, ms, n, r);
    }
  }

  lemma {:induction false} ItemsPrefix(n: Node, i: nat, j: nat)
    requires n.ListN? && i <= j <= |n.items|
    ensures InItems(n, i) <= InItems(n, j)
    decreases j
  {
    if i < j { ItemsPrefix(n, i, j - 1); }
  }

  lemma {:induction false} EntriesPrefix(n: Node, i: nat, j: nat)
    requires n.DictN? && i <= j <= |n.order|
    ensures InEntries(n, i) <= InEntries(n, j)
    decreases j
  {
    if i < j { EntriesPrefix(n, i, j - 1); }
  }

  lemma {:induction false} ArgumentsPrefix(args: seq<NamedNode>, i: nat, j: nat)
    requires i <= j <= |args|
    ensures InArguments(args, i) <= InArguments(args, j)
    decreases j
  {
    if i < j { ArgumentsPrefix(args, i, j - 1); }
  }

  lemma {:induction false} ItemsDoNotClose(g: Graph, ms: Models, n: Node, ts: seq<Tree>)
    requires n.ListN? && Ordered(n) && ModelsOk(g, ms) && DoneList(g, ms, n.items, ts)
    ensures !AnyCloses(g, Tokens(ms), InItems(n, |ts|))
  {
    InItemsIsRefs(n, |ts|);
    hide Closes, Ordered, ModelsOk;
    forall r | r in InItems(n, |ts|) ensures !Closes(g, r, Tokens(ms)) {
      assert InSomeItem(n, |ts|, r);
      var j: nat :| j < |ts| && r in Refs(n.items[j]);
      SerializedDoesNotClose(g, ms, n.items[j], r);
    }
  }

  lemma {:induction false} EntriesDoNotClose(g: Graph, ms: Models, n: Node, i: nat, ts: map<string, Tree>)
    requires n.DictN? && Ordered(n) && ModelsOk(g, ms) && DoneDict(g, ms, n, i, ts)
    ensures !AnyCloses(g, Tokens(ms), InEntries(n, i))
  {
    assert forall j: nat :: j < i ==> n.order[j] in n.order[..i];
    InEntriesIsRefs(n, i);
    hide Closes, Ordered, ModelsOk;
    forall r | r in InEntries(n, i) ensures !Closes(g, r, Tokens(ms)) {
      assert InSomeEntry(n, i, r);
      var j: nat :| j < i && n.order[j] in n.fields && r in Refs(n.fields[n.order[j]]);
      SerializedDoesNotClose(g, ms, n.fields[n.order[j]], r);
    }
  }

  ghost predicate DoneArguments(g: Graph, ms: Models, args: seq<NamedNode>, i: nat) {
    i <= |args| && forall j: nat :: j < i ==> Acyclic(g, args[j].value) && AllSerialized(ms, args[j].value)
  }

  lemma {:induction false} ArgumentsDoNotClose(g: Graph, ms: Models, args: seq<NamedNode>, i: nat)
    requires OrderedArgs(args) && ModelsOk(g, ms) && DoneArguments(g, ms, args, i)
    ensures !AnyCloses(g, Tokens(ms), InArguments(args, i))
  {
    InArgumentsIsRefs(args, i);
    hide Closes, OrderedArgs, ModelsOk;
    forall r | r in InArguments(args, i) ensures !Closes(g, r, Tokens(ms)) {
      assert InSomeArgument(args, i, r);
      var j: nat :| j < i && r in Refs(args[j].value);
      SerializedDoesNotClose(g, ms, args[j].value, r);
    }
  }

  /** A list fails at the first item that does. */
  lemma {:induction false} ItemFails(g: Graph, limit: nat, n: Node, ts: seq<Tree>, ms0: Models, ms: Models, ms': Models,
        e: CycleError)
    requires n.ListN? && Ordered(n) && Progress(g, ms0, ms) && DoneList(g, ms, n.items, ts) && |ts| < |n.items|
    requires Failed(g, limit, InOrder(n.items[|ts|]), ms, ms', e)
    ensures Failed(g, limit, InOrder(n), ms0, ms', e)
  {
    ItemsDoNotClose(g, ms, n, ts);
    ItemsPrefix(n, |ts| + 1, |n.items|);
    hide Failed, AnyCloses, DoneList, Ordered, Progress;
    PropagateFrom(g, limit, InItems(n, |ts|), InOrder(n.items[|ts|]), InOrder(n), ms0, ms, ms', e);
  }

  lemma {:induction false} EntryFails(g: Graph, limit: nat, n: Node, i: nat, ts: map<string, Tree>, ms0: Models,
        ms: Models, ms': Models, e: CycleError)
    requires n.DictN? && Ordered(n) && Progress(g, ms0, ms) && DoneDict(g, ms, n, i, ts) && i < |n.order|
    requires n.order[i] in n.fields && Failed(g, limit, InOrder(n.fields[n.order[i]]), ms, ms', e)
    ensures Failed(g, limit, InOrder(n), ms0, ms', e)
  {
    EntriesDoNotClose(g, ms, n, i, ts);
    EntriesPrefix(n, i + 1, |n.order|);
    hide Failed, AnyCloses, Ordered, Progress;
    PropagateFrom(g, limit, InEntries(n, i), InOrder(n.fields[n.order[i]]), InOrder(n), ms0, ms, ms', e);
  }

  // ---------------------------------------------------------------- the methods

  lemma {:induction false} MarkToken(g: Graph, ms: Models, r: Reference)
    requires ModelsOk(g, ms) && r in ms && ms[r].Unset?
    ensures r in Pending(ms) && r !in Tokens(ms) && ModelsOk(g, ms[r := CycleToken])
    ensures Tokens(ms[r := CycleToken]) == Tokens(ms) + {r}
    ensures Pending(ms[r := CycleToken]) == Pending(ms) - {r}
  {
    forall x | x in ms ensures RefOk(g, ms[r := CycleToken], x) { assert RefOk(g, ms, x); }
  }

  lemma {:induction false} WriteModel(g: Graph, first: Models, ms: Models, r: Reference, state: ModelState)
    requires r in first && first[r].Unset? && Progress(g, first[r := CycleToken], ms)
    requires first.Keys == g.Keys
    requires ModelsOk(g, first) && Acyclic(g, RefN(r)) && state == Serialized(ModelWithId(IdOf(TreeOf(g, RefN(r)))))
    requires forall s :: s in Succ(g, r) ==> s in ms && ms[s].Serialized?
    ensures Progress(g, first, ms[r := state])
    ensures ModelsOk(g, ms[r := state]) && Pending(ms[r := state]) <= Pending(first)
  {
    assert r in Tokens(first[r := CycleToken]);
    forall x | x in ms ensures RefOk(g, ms[r := state], x) { assert RefOk(g, ms, x); }
    assert Tokens(first[r := CycleToken]) == Tokens(first) + {r};
    assert Pending(first[r := CycleToken]) == Pending(first) - {r};
    assert Tokens(ms[r := state]) == Tokens(ms) - {r};
    assert Pending(ms[r := state]) == Pending(ms) - {r};
  }

  /** Reference.serialize */
  method Serialize(r: Reference, limit: nat, ghost g: Graph, ghost bound: set<Reference>)
    returns (res: Outcome<ReferenceModel>)
    requires r in g && Ready(g, bound)
    modifies g.Keys`model
    ensures res.Done? ==> Ready(g, bound) && Progress(g, old(ModelsOf(g)), ModelsOf(g))
                          && r.model == Serialized(res.value) && Acyclic(g, RefN(r))
                          && res.value == ModelWithId(IdOf(TreeOf(g, RefN(r))))
    ensures old(r.model).Serialized? ==> res == Done(old(r.model).model)
    ensures res.Raised? ==> Failed(g, limit, [r], old(ModelsOf(g)), ModelsOf(g), res.error)
    decreases bound, 0, 1
  {
    hide TreeOf, IdOf, Acyclic, Failed;
    if r.model.CycleToken? {
      TokenFound(g, limit, r, ModelsOf(g));
      return Raised(CycleError([r], false));
    }
    if r.model.Unset? {
      var error := SerializeUnset(r, limit, g, bound);
      if error.Raised? {
        return Raised(error.error);
      }
    }
    RefDone(g, bound, r);
    return Done(r.model.model);
  }

  method SetModel(r: Reference, state: ModelState, ghost g: Graph)
    requires r in g && Snapshot(g)
    modifies r`model
    ensures r.model == state && ModelsOf(g) == old(ModelsOf(g))[r := state] && Snapshot(g)
  {
    r.model := state;
  }

  /** The branch for a reference without a model: mark, serialise the arguments, write the model. */
  method SerializeUnset(r: Reference, limit: nat, ghost g: Graph, ghost bound: set<Reference>)
    returns (res: Outcome<()>)
    requires r in g && Ready(g, bound) && r.model.Unset?
    modifies g.Keys`model
    ensures res.Done? ==> Ready(g, bound) && Progress(g, old(ModelsOf(g)), ModelsOf(g)) && r.model.Serialized?
    ensures res.Raised? ==> Failed(g, limit, [r], old(ModelsOf(g)), ModelsOf(g), res.error)
    decreases bound, 0, 0
  {
    hide TreeOf, IdOf, Acyclic, Failed, Progress, ModelsOk, RefOk, Tokens, Pending;
    MarkToken(g, ModelsOf(g), r);
    SetModel(r, CycleToken, g);
    var serialized := SerializeArguments(r, limit, g, bound - {r});
    if serialized.Raised? {
      TraceOfArguments(g, limit, r, old(ModelsOf(g))[r := CycleToken], ModelsOf(g), serialized.error);
      UnwindStep(g, limit, r, old(ModelsOf(g)), ModelsOf(g), serialized.error);
      var e := AddToTrace(serialized.error, r, limit, g);
      return Raised(e);
    }
    var (id, arguments) := serialized.value;
    ghost var before := ModelsOf(g);
    SetModel(r, Serialized(ReferenceModel(id, r.rtype, arguments)), g);
    WriteModel(g, old(ModelsOf(g)), before, r, r.model);
    return Done(());
  }

  /** The first `|ts|` arguments have been dealt with: their trees, and what they are serialised to. */
  ghost predicate SerializedArguments(g: Graph, ms: Models, args: seq<NamedNode>, ts: seq<Tree>,
        arguments: seq<Argument>) {
    && DoneArguments(g, ms, args, |ts|) && |arguments| == |ts|
    && forall j: nat :: j < |ts| ==>
         ts[j] == TreeOf(g, args[j].value) && arguments[j] == SerializeArgument(args[j].name, ts[j])
  }

  lemma {:induction false} NextArgumentDone(g: Graph, ms0: Models, ms1: Models, ms2: Models, args: seq<NamedNode>,
        ts: seq<Tree>, arguments: seq<Argument>, argument: Argument)
    requires Progress(g, ms0, ms1) && SerializedArguments(g, ms1, args, ts, arguments) && |ts| < |args|
    requires var arg := args[|ts|];
             && Progress(g, ms1, ms2) && Acyclic(g, arg.value) && AllSerialized(ms2, arg.value)
             && argument == SerializeArgument(arg.name, TreeOf(g, arg.value))
    ensures Progress(g, ms0, ms2)
    ensures SerializedArguments(g, ms2, args, ts + [TreeOf(g, args[|ts|].value)], arguments + [argument])
  {
    hide Acyclic, SerializeArgument, TreeOf;
  }

  lemma {:induction false} NoArguments(g: Graph, ms: Models, args: seq<NamedNode>)
    ensures SerializedArguments(g, ms, args, [], [])
  {
  }

  lemma {:induction false} ArgumentFails(g: Graph, limit: nat, r: Reference, ts: seq<Tree>, arguments: seq<Argument>,
        ms0: Models, ms: Models, ms': Models, e: CycleError)
    requires Closed(g) && r in g && Progress(g, ms0, ms) && |ts| < |g[r].args|
    requires SerializedArguments(g, ms, g[r].args, ts, arguments)
    requires Failed(g, limit, InOrder(g[r].args[|ts|].value), ms, ms', e)
    ensures Failed(g, limit, ArgumentsOf(g, r), ms0, ms', e)
  {
    var args, i := g[r].args, |ts|;
    ArgumentsDoNotClose(g, ms, args, i);
    ArgumentsPrefix(args, i + 1, |args|);
    hide Failed, AnyCloses, SerializedArguments, Closed, Progress;
    PropagateFrom(g, limit, InArguments(args, i), InOrder(args[i].value), ArgumentsOf(g, r), ms0, ms, ms', e);
  }

  lemma {:induction false} ArgumentsDone(g: Graph, ms: Models, r: Reference, ts: seq<Tree>, arguments: seq<Argument>)
    requires r in g && SerializedArguments(g, ms, g[r].args, ts, arguments) && |ts| == |g[r].args|
    ensures Acyclic(g, RefN(r)) && HashOf(g[r].rtype, arguments) == IdOf(TreeOf(g, RefN(r)))
    ensures forall s :: s in Succ(g, r) ==> s in ms && ms[s].Serialized?
  {
    AcyclicRef(g, r);
    TreeOfReference(g, r);
    hide Acyclic, TreeOf, SerializeArgument;
    assert arguments == IdOf(TreeOf(g, RefN(r))).args;
  }

  /** ReferenceLike.serialize_arguments */
  method SerializeArguments(r: Reference, limit: nat, ghost g: Graph, ghost bound: set<Reference>)
    returns (res: Outcome<(Uuid, seq<Argument>)>)
    requires r in g && Ready(g, bound)
    modifies g.Keys`model
    ensures res.Done? ==> Ready(g, bound) && Progress(g, old(ModelsOf(g)), ModelsOf(g)) && Acyclic(g, RefN(r))
                          && (forall s :: s in Succ(g, r) ==> s in g && s.model.Serialized?)
                          && res.value.0 == IdOf(TreeOf(g, RefN(r)))
                          && res.value.0 == HashOf(r.rtype, res.value.1)
    ensures res.Raised? ==> Failed(g, limit, ArgumentsOf(g, r), old(ModelsOf(g)), ModelsOf(g), res.error)
    decreases bound, 5
  {
    hide TreeOf, IdOf, Acyclic, Failed, InOrder, ArgumentsOf, AllSerialized, SerializedArguments, SerializeArgument,
         Progress, Ordered;
    JustNow(g, bound, Atom(Null));
    var arguments := [];
    ghost var ts := [];
    NoArguments(g, ModelsOf(g), r.args);
    for i := 0 to |r.args|
      invariant Ready(g, bound) && Progress(g, old(ModelsOf(g)), ModelsOf(g)) && |ts| == i
      invariant SerializedArguments(g, ModelsOf(g), r.args, ts, arguments)
    {
      assert Refs(r.args[i].value) <= Succ(g, r);
      ghost var before := ModelsOf(g);
      var argument := SerializeOne(r.args[i].name, r.args[i].value, limit, g, bound);
      if argument.Raised? {
        ArgumentFails(g, limit, r, ts, arguments, old(ModelsOf(g)), before, ModelsOf(g), argument.error);
        return Raised(argument.error);
      }
      NextArgumentDone(g, old(ModelsOf(g)), before, ModelsOf(g), r.args, ts, arguments, argument.value);
      arguments := arguments + [argument.value];
      ts := ts + [TreeOf(g, r.args[i].value)];
    }
    ArgumentsDone(g, ModelsOf(g), r, ts, arguments);
    return Done((HashOf(r.rtype, arguments), arguments));
  }

  method SerializeOne(name: string, value: Node, limit: nat, ghost g: Graph, ghost bound: set<Reference>)
    returns (res: Outcome<Argument>)
    requires Ready(g, bound) && Refs(value) <= g.Keys && Ordered(value)
    modifies g.Keys`model
    ensures res.Done? ==> Ready(g, bound) && Progress(g, old(ModelsOf(g)), ModelsOf(g))
                          && Acyclic(g, value) && AllSerialized(ModelsOf(g), value)
                          && res.value == SerializeArgument(name, TreeOf(g, value))
    ensures res.Raised? ==> Failed(g, limit, InOrder(value), old(ModelsOf(g)), ModelsOf(g), res.error)
    decreases bound, 4
  {
    hide TreeOf, IdOf, RefIds, Clean, Replacements, Height, Acyclic, Ready, Progress, AllSerialized, DoneList,
         DoneDict, Failed, InOrder, Ordered, MutatorsOf;
    JustNow(g, bound, value);
    match value {
      case Atom(scalar) =>
        AtomDone(g, ModelsOf(g), value);
        return Done(LiteralArgument(name, scalar));
      case RefN(s) =>
        OnlyRef(s);
        var model := Serialize(s, limit, g, bound);
        if model.Raised? {
          return Raised(model.error);
        }
        RefDone(g, bound, s);
        return Done(ReferenceArgument(name, model.value.id));
      case _ =>
        var argument := SerializeContainer(name, value, limit, g, bound);
        return argument;
    }
  }

  /** An argument that is a list or a dict. */
  method SerializeContainer(name: string, value: Node, limit: nat, ghost g: Graph, ghost bound: set<Reference>)
    returns (res: Outcome<Argument>)
    requires Ready(g, bound) && Refs(value) <= g.Keys && Ordered(value) && (value.ListN? || value.DictN?)
    modifies g.Keys`model
    ensures res.Done? ==> Ready(g, bound) && Progress(g, old(ModelsOf(g)), ModelsOf(g))
                          && Acyclic(g, value) && AllSerialized(ModelsOf(g), value)
                          && res.value == SerializeArgument(name, TreeOf(g, value))
    ensures res.Raised? ==> Failed(g, limit, InOrder(value), old(ModelsOf(g)), ModelsOf(g), res.error)
    decreases bound, 3, 1
  {
    hide TreeOf, IdOf, RefIds, Clean, Replacements, Height, Acyclic, Ready, Progress, AllSerialized, Failed, InOrder,
         Ordered, MutatorsOf, SerializeArgument;
    var collector := new ReferenceSubCollector(None);
    var cleaned := collector.CollectReferences(value, [], limit, g, bound);
    if cleaned.Raised? {
      return Raised(cleaned.error);
    }
    assert collector.replacements == Replacements(TreeOf(g, value), []);
    MutatedArgument(name, TreeOf(g, value), collector.replacements);
    if collector.references != map[] {
      var ids := map p | p in collector.replacements :: collector.replacements[p].id;
      return Done(MutatedJsonArgument(name, cleaned.value, ids));
    } else {
      return Done(JsonArgument(name, cleaned.value));
    }
  }

  /** Both collectors: the one of an exported resource also records a mutator for each reference. */
  class ReferenceSubCollector {
    const resource: Option<string>
    var references: map<Uuid, ReferenceModel>
    var replacements: map<Path, ReferenceModel>
    var mutators: map<MutatorId, MutatorModel>

    constructor (resource: Option<string>)
      ensures this.resource == resource
      ensures references == map[] && replacements == map[] && mutators == map[]
      ensures Valid()
    {
      this.resource := resource;
      references, replacements, mutators := map[], map[], map[];
    }

    ghost predicate Valid()
      reads this
    {
      && (forall id :: id in references ==> references[id] == ModelWithId(id))
      && mutators == if resource.None? then map[] else MutatorsOf(resource.value, replacements)
    }

    /** Adds the models of all references in a value, and of the references in their arguments. */
    method CollectReference(n: Node, limit: nat, ghost g: Graph, ghost bound: set<Reference>) returns (res: Outcome<()>)
      requires Valid() && Ready(g, bound) && Refs(n) <= g.Keys && Ordered(n)
      modifies this`references, g.Keys`model
      ensures res.Done? ==>
                && Valid() && Ready(g, bound) && Progress(g, old(ModelsOf(g)), ModelsOf(g))
                && Acyclic(g, n) && AllSerialized(ModelsOf(g), n)
                && references.Keys == old(references.Keys) + RefIds(TreeOf(g, n))
      ensures res.Raised? ==> Failed(g, limit, InOrder(n), old(ModelsOf(g)), ModelsOf(g), res.error)
      decreases bound, 1, if Acyclic(g, n) then 0 else 1, Height(g, n), n, 1
    {
      hide TreeOf, IdOf, RefIds, Clean, Replacements, Height, Acyclic, Ready, Progress, AllSerialized, DoneList,
           DoneDict, Failed, InOrder, Ordered, MutatorsOf, Unused;
      JustNow(g, bound, n);
      match n
      case Atom(_) =>
        AtomDone(g, ModelsOf(g), n);
        LeafCollected(n.scalar, []);
        res := Done(());
      case ListN(_, _) => res := CollectReferenceInList(n, limit, g, bound);
      case DictN(_, _, _) => res := CollectReferenceInDict(n, limit, g, bound);
      case RefN(r) =>
        OnlyRef(r);
        var model := Serialize(r, limit, g, bound);
        if model.Raised? { return Raised(model.error); }
        references := references[model.value.id := model.value];
        RefDone(g, bound, r);
        ReferenceCollected(TreeOf(g, n), []);
        ghost var before := ModelsOf(g);
        CollectReferenceInArguments(r, limit, g, bound);
        ProgressTransitive(g, old(ModelsOf(g)), before, ModelsOf(g), n);
        res := Done(());
    }

    method CollectReferenceInList(n: Node, limit: nat, ghost g: Graph, ghost bound: set<Reference>)
      returns (res: Outcome<()>)
      requires n.ListN? && Valid() && Ready(g, bound) && Refs(n) <= g.Keys && Ordered(n)
      modifies this`references, g.Keys`model
      ensures res.Done? ==>
                && Valid() && Ready(g, bound) && Progress(g, old(ModelsOf(g)), ModelsOf(g))
                && Acyclic(g, n) && AllSerialized(ModelsOf(g), n)
                && references.Keys == old(references.Keys) + RefIds(TreeOf(g, n))
      ensures res.Raised? ==> Failed(g, limit, InOrder(n), old(ModelsOf(g)), ModelsOf(g), res.error)
      decreases bound, 1, if Acyclic(g, n) then 0 else 1, Height(g, n), n, 0
    {
      hide Refs, TreeOf, IdOf, RefIds, Clean, Replacements, Height, Acyclic, Ready, Progress, AllSerialized, DoneList,
           DoneDict, Failed, InOrder, Ordered, MutatorsOf, Unused;
      NothingCollected();
      JustNow(g, bound, n);
      ghost var ts := [];
      for i := 0 to |n.items|
        invariant Valid() && Ready(g, bound) && Progress(g, old(ModelsOf(g)), ModelsOf(g))
        invariant |ts| == i
        invariant DoneList(g, ModelsOf(g), n.items, ts)
        invariant references.Keys == old(references.Keys) + RefIds(ListT(ts))
      {
        PartOf(g, n, n.items[i]);
        ghost var before := ModelsOf(g);
        res := CollectReference(n.items[i], limit, g, bound);
        if res.Raised? {
          ItemFails(g, limit, n, ts, old(ModelsOf(g)), before, ModelsOf(g), res.error);
          return;
        }
        NextInList(g, old(ModelsOf(g)), before, ModelsOf(g), n.items, ts);
        CollectedFromList(ts, TreeOf(g, n.items[i]), []);
        ts := ts + [TreeOf(g, n.items[i])];
      }
      ListDone(g, ModelsOf(g), n, ts);
      res := Done(());
    }

    method CollectReferenceInDict(n: Node, limit: nat, ghost g: Graph, ghost bound: set<Reference>)
      returns (res: Outcome<()>)
      requires n.DictN? && Valid() && Ready(g, bound) && Refs(n) <= g.Keys && Ordered(n)
      modifies this`references, g.Keys`model
      ensures res.Done? ==>
                && Valid() && Ready(g, bound) && Progress(g, old(ModelsOf(g)), ModelsOf(g))
                && Acyclic(g, n) && AllSerialized(ModelsOf(g), n)
                && references.Keys == old(references.Keys) + RefIds(TreeOf(g, n))
      ensures res.Raised? ==> Failed(g, limit, InOrder(n), old(ModelsOf(g)), ModelsOf(g), res.error)
      decreases bound, 1, if Acyclic(g, n) then 0 else 1, Height(g, n), n, 0
    {
      hide Refs, TreeOf, IdOf, RefIds, Clean, Replacements, Height, Acyclic, Ready, Progress, AllSerialized, DoneList,
           DoneDict, Failed, InOrder, Ordered, MutatorsOf, Unused;
      NothingCollected();
      JustNow(g, bound, n);
      ghost var ts := map[];
      for i := 0 to |n.order|
        invariant Valid() && Ready(g, bound) && Progress(g, old(ModelsOf(g)), ModelsOf(g))
        invariant DoneDict(g, ModelsOf(g), n, i, ts)
        invariant references.Keys == old(references.Keys) + RefIds(DictT(ts))
      {
        var k := n.order[i];
        NextKey(g, ModelsOf(g), n, i, ts);
        PartOf(g, n, n.fields[k]);
        ghost var before := ModelsOf(g);
        res := CollectReference(n.fields[k], limit, g, bound);
        if res.Raised? {
          EntryFails(g, limit, n, i, ts, old(ModelsOf(g)), before, ModelsOf(g), res.error);
          return;
        }
        NextInDict(g, old(ModelsOf(g)), before, ModelsOf(g), n, i, ts, k);
        CollectedFromDict(ts, k, TreeOf(g, n.fields[k]), []);
        ts := ts[k := TreeOf(g, n.fields[k])];
      }
      DictDone(g, ModelsOf(g), n, ts);
      res := Done(());
    }

    /** The arguments of a reference that is serialised already: here no cycle can turn up any more. */
    method CollectReferenceInArguments(r: Reference, limit: nat, ghost g: Graph, ghost bound: set<Reference>)
      requires Valid() && Ready(g, bound) && r in g && r.model.Serialized?
      requires Acyclic(g, RefN(r)) && RefOk(g, ModelsOf(g), r) && IdOf(TreeOf(g, RefN(r))) in references
      modifies this`references, g.Keys`model
      ensures Valid() && Ready(g, bound) && Progress(g, old(ModelsOf(g)), ModelsOf(g))
      ensures references.Keys == old(references.Keys) + RefIds(TreeOf(g, RefN(r)))
      decreases bound, 1, 0, Height(g, RefN(r)), RefN(r), 0
    {
      hide IdOf, RefIds, TreeOf, Height, Acyclic, RefPaths, Clean, RefAt, SerializeArgument, Grounded, Closes, Leads,
           AnyCloses, Exception, First;
      NothingCollected();
      ghost var ts := [];
      for i := 0 to |r.args|
        invariant Valid() && Ready(g, bound) && Progress(g, old(ModelsOf(g)), ModelsOf(g)) && r.model.Serialized?
        invariant |ts| == i
        invariant forall j: nat :: j < i ==> Acyclic(g, r.args[j].value) && ts[j] == TreeOf(g, r.args[j].value)
        invariant references.Keys == old(references.Keys) + RefIds(ListT(ts))
      {
        assert Refs(r.args[i].value) <= Succ(g, r);
        HeightOfArgument(g, r, i);
        assert RefOk(g, ModelsOf(g), r);
        SerializedDoNotClose(g, ModelsOf(g), r.args[i].value);
        var res := CollectReference(r.args[i].value, limit, g, bound);
        assert res.Done?;
        CollectedFromList(ts, TreeOf(g, r.args[i].value), []);
        ts := ts + [TreeOf(g, r.args[i].value)];
      }
      TreeOfReference(g, r);
      CollectedFromReference(TreeOf(g, RefN(r)), ts);
    }

    method CollectReferences(n: Node, path: Path, limit: nat, ghost g: Graph, ghost bound: set<Reference>)
      returns (res: Outcome<Value>)
      requires Valid() && Ready(g, bound) && Refs(n) <= g.Keys && Ordered(n) && Unused(replacements, path)
      modifies this, g.Keys`model
      ensures res.Done? ==>
                && Valid() && Ready(g, bound) && Progress(g, old(ModelsOf(g)), ModelsOf(g))
                && Acyclic(g, n) && AllSerialized(ModelsOf(g), n)
                && res.value == Clean(TreeOf(g, n))
                && replacements == old(replacements) + Replacements(TreeOf(g, n), path)
                && references.Keys == old(references.Keys) + RefIds(TreeOf(g, n))
      ensures res.Raised? ==> Failed(g, limit, InOrder(n), old(ModelsOf(g)), ModelsOf(g), res.error)
      decreases bound, 3, 0, 0, n, 1
    {
      hide TreeOf, IdOf, RefIds, Clean, Replacements, Height, Acyclic, Ready, Progress, AllSerialized, DoneList,
           DoneDict, Failed, InOrder, Ordered, MutatorsOf, Unused;
      JustNow(g, bound, n);
      match n
      case Atom(scalar) =>
        AtomDone(g, ModelsOf(g), n);
        LeafCollected(scalar, path);
        res := Done(Prim(scalar));
      case ListN(_, _) => res := CollectReferencesInList(n, path, limit, g, bound);
      case DictN(_, _, _) => res := CollectReferencesInDict(n, path, limit, g, bound);
      case RefN(r) =>
        OnlyRef(r);
        var error := AddReference(path, r, limit, g, bound);
        if error.Done? { ReferenceCollected(TreeOf(g, n), path); }
        res := if error.Raised? then Raised(error.error) else Done(Prim(Null));
    }

    method CollectReferencesInList(n: Node, path: Path, limit: nat, ghost g: Graph, ghost bound: set<Reference>)
      returns (res: Outcome<Value>)
      requires n.ListN? && Valid() && Ready(g, bound) && Refs(n) <= g.Keys && Ordered(n) && Unused(replacements, path)
      modifies this, g.Keys`model
      ensures res.Done? ==>
                && Valid() && Ready(g, bound) && Progress(g, old(ModelsOf(g)), ModelsOf(g))
                && Acyclic(g, n) && AllSerialized(ModelsOf(g), n)
                && res.value == Clean(TreeOf(g, n))
                && replacements == old(replacements) + Replacements(TreeOf(g, n), path)
                && references.Keys == old(references.Keys) + RefIds(TreeOf(g, n))
      ensures res.Raised? ==> Failed(g, limit, InOrder(n), old(ModelsOf(g)), ModelsOf(g), res.error)
      decreases bound, 3, 0, 0, n, 0
    {
      hide Refs, TreeOf, IdOf, RefIds, Clean, Replacements, Height, Acyclic, Ready, Progress, AllSerialized, DoneList,
           DoneDict, Failed, InOrder, Ordered, MutatorsOf, Unused;
      NothingCollected();
      JustNow(g, bound, n);
      ghost var ts := [];
      var values := [];
      for i := 0 to |n.items|
        invariant Valid() && Ready(g, bound) && Progress(g, old(ModelsOf(g)), ModelsOf(g))
        invariant |ts| == i
        invariant DoneList(g, ModelsOf(g), n.items, ts) && List(values) == Clean(ListT(ts))
        invariant replacements == old(replacements) + Replacements(ListT(ts), path)
        invariant references.Keys == old(references.Keys) + RefIds(ListT(ts))
      {
        PartOf(g, n, n.items[i]);
        ghost var before := ModelsOf(g);
        UnusedInList(old(replacements), ts, path);
        var r := CollectReferences(n.items[i], path + [Index(i)], limit, g, bound);
        if r.Raised? {
          ItemFails(g, limit, n, ts, old(ModelsOf(g)), before, ModelsOf(g), r.error);
          return r;
        }
        NextInList(g, old(ModelsOf(g)), before, ModelsOf(g), n.items, ts);
        CollectedFromList(ts, TreeOf(g, n.items[i]), path);
        UnionAssociates(old(replacements), Replacements(ListT(ts), path),
                        Replacements(TreeOf(g, n.items[i]), path + [Index(i)]));
        CleanedGrows(ts, map[], "", TreeOf(g, n.items[i]));
        values := values + [r.value];
        ts := ts + [TreeOf(g, n.items[i])];
      }
      ListDone(g, ModelsOf(g), n, ts);
      res := Done(List(values));
    }

    method CollectReferencesInDict(n: Node, path: Path, limit: nat, ghost g: Graph, ghost bound: set<Reference>)
      returns (res: Outcome<Value>)
      requires n.DictN? && Valid() && Ready(g, bound) && Refs(n) <= g.Keys && Ordered(n) && Unused(replacements, path)
      modifies this, g.Keys`model
      ensures res.Done? ==>
                && Valid() && Ready(g, bound) && Progress(g, old(ModelsOf(g)), ModelsOf(g))
                && Acyclic(g, n) && AllSerialized(ModelsOf(g), n)
                && res.value == Clean(TreeOf(g, n))
                && replacements == old(replacements) + Replacements(TreeOf(g, n), path)
                && references.Keys == old(references.Keys) + RefIds(TreeOf(g, n))
      ensures res.Raised? ==> Failed(g, limit, InOrder(n), old(ModelsOf(g)), ModelsOf(g), res.error)
      decreases bound, 3, 0, 0, n, 0
    {
      hide Refs, TreeOf, IdOf, RefIds, Clean, Replacements, Height, Acyclic, Ready, Progress, AllSerialized, DoneList,
           DoneDict, Failed, InOrder, Ordered, MutatorsOf, Unused;
      NothingCollected();
      JustNow(g, bound, n);
      ghost var ts := map[];
      var values: map<string, Value> := map[];
      for i := 0 to |n.order|
        invariant Valid() && Ready(g, bound) && Progress(g, old(ModelsOf(g)), ModelsOf(g))
        invariant DoneDict(g, ModelsOf(g), n, i, ts) && Dict(values) == Clean(DictT(ts))
        invariant replacements == old(replacements) + Replacements(DictT(ts), path)
        invariant references.Keys == old(references.Keys) + RefIds(DictT(ts))
      {
        var k := n.order[i];
        NextKey(g, ModelsOf(g), n, i, ts);
        PartOf(g, n, n.fields[k]);
        ghost var before := ModelsOf(g);
        UnusedInDict(old(replacements), ts, path, k);
        var r := CollectReferences(n.fields[k], path + [Key(k)], limit, g, bound);
        if r.Raised? {
          EntryFails(g, limit, n, i, ts, old(ModelsOf(g)), before, ModelsOf(g), r.error);
          return r;
        }
        NextInDict(g, old(ModelsOf(g)), before, ModelsOf(g), n, i, ts, k);
        CollectedFromDict(ts, k, TreeOf(g, n.fields[k]), path);
        UnionAssociates(old(replacements), Replacements(DictT(ts), path),
                        Replacements(TreeOf(g, n.fields[k]), path + [Key(k)]));
        CleanedGrows([], ts, k, TreeOf(g, n.fields[k]));
        values := values[k := r.value];
        ts := ts[k := TreeOf(g, n.fields[k])];
      }
      DictDone(g, ModelsOf(g), n, ts);
      res := Done(Dict(values));
    }

    method AddReference(path: Path, r: Reference, limit: nat, ghost g: Graph, ghost bound: set<Reference>)
      returns (res: Outcome<()>)
      requires Valid() && Ready(g, bound) && r in g && Unused(replacements, path)
      modifies this, g.Keys`model
      ensures res.Done? ==>
                && Valid() && Ready(g, bound) && Progress(g, old(ModelsOf(g)), ModelsOf(g))
                && Acyclic(g, RefN(r)) && AllSerialized(ModelsOf(g), RefN(r))
                && replacements == old(replacements) + Replacements(TreeOf(g, RefN(r)), path)
                && references.Keys == old(references.Keys) + RefIds(TreeOf(g, RefN(r)))
      ensures res.Raised? ==> Failed(g, limit, [r], old(ModelsOf(g)), ModelsOf(g), res.error)
      decreases bound, 2
    {
      hide TreeOf, IdOf, RefIds, Clean, Replacements, Height, Acyclic, Ready, Progress, AllSerialized, DoneList,
           DoneDict, Failed, InOrder, Ordered, MutatorsOf;
      OnlyRef(r);
      res := CollectReference(RefN(r), limit, g, bound);
      if res.Done? {
        SerializedOf(g, RefN(r), r);
        ghost var before := ModelsOf(g);
        var model := Serialize(r, limit, g, bound);
        ProgressTransitive(g, old(ModelsOf(g)), before, ModelsOf(g), RefN(r));
        ReferenceRecorded(TreeOf(g, RefN(r)), path, replacements);
        ReferenceCollected(TreeOf(g, RefN(r)), path);
        Record(path, model.value);
      }
    }

    /** The last steps of add_reference: the replacement, and the mutator of the exporting collector. */
    method Record(path: Path, model: ReferenceModel)
      requires Valid() && path !in replacements
      modifies this`replacements, this`mutators
      ensures Valid() && replacements == old(replacements)[path := model]
    {
      if resource.Some? {
        MutatorAdded(resource.value, replacements, path, model);
        var mutator := Replace(resource.value, model.id, path);
        mutators := mutators[HashOfMutator(mutator) := mutator];
      }
      replacements := replacements[path := model];
    }
  }

  // ---------------------------------------------------------------- the loop that serialising runs into

  ghost predicate AllCyclic(g: Graph, tokens: set<Reference>) {
    forall f :: f in tokens ==> Cyclic(g, RefN(f))
  }

  lemma {:induction false} ClosesIsCyclic(g: Graph, r: Reference, tokens: set<Reference>)
    requires AllCyclic(g, tokens)
    ensures Closes(g, r, tokens) <==> Cyclic(g, RefN(r))
  {
    forall f | f in tokens && LeadsTo(g, r, f) ensures Cyclic(g, RefN(r)) {
      var j: nat :| Leads(g, r, f, j);
      var s, i: nat, k: nat :| s in g && Leads(g, f, s, i) && k > 0 && Leads(g, s, s, k);
      LeadsOn(g, r, f, s, j, i);
    }
  }

  lemma {:induction false} FirstIsFirstCyclic(g: Graph, tokens: set<Reference>, rs: seq<Reference>)
    requires AllCyclic(g, tokens) && AnyCloses(g, tokens, rs)
    ensures AnyCloses(g, {}, rs) && First(g, {}, rs) == First(g, tokens, rs)
  {
    var r :| r in rs && Closes(g, r, tokens);
    ClosesIsCyclic(g, r, tokens);
    assert Closes(g, r, {});
    ClosesIsCyclic(g, rs[0], tokens);
    ClosesIsCyclic(g, rs[0], {});
    hide Closes, Cyclic, AllCyclic;
    if !Closes(g, rs[0], tokens) {
      assert r in rs[1..];
      FirstIsFirstCyclic(g, tokens, rs[1..]);
    }
  }

  lemma {:induction false} CyclicArgument(g: Graph, r: Reference)
    requires Closed(g) && Cyclic(g, RefN(r))
    ensures r in g && AnyCloses(g, {}, ArgumentsOf(g, r))
  {
    hide Cyclic, ArgumentsOf, AnyCloses;
    assert Closes(g, r, {});
    ArgumentCloses(g, {}, r);
    assert {} + {r} == {r};
    FirstIsFirstCyclic(g, {r}, ArgumentsOf(g, r));
  }

  lemma {:induction false} IsArgument(g: Graph, r: Reference, m: Reference)
    requires Closed(g) && m in ArgumentsOf(g, r)
    ensures m in Succ(g, r)
  {
    ArgumentsAreSucc(g, r);
  }

  /** The first argument from which a cycle is reached. */
  ghost function Next(g: Graph, r: Reference): (m: Reference)
    requires Closed(g) && Cyclic(g, RefN(r))
    ensures r in g && m in Succ(g, r) && Cyclic(g, RefN(m))
  {
    CyclicArgument(g, r);
    var m := First(g, {}, ArgumentsOf(g, r));
    IsArgument(g, r, m);
    m
  }

  /** The references before `r`. */
  function UpTo(passed: seq<Reference>, r: Reference): (before: seq<Reference>)
    ensures r in passed ==> before + [r] <= passed && r !in before
  {
    if passed == [] || passed[0] == r then [] else [passed[0]] + UpTo(passed[1..], r)
  }

  /** The loop that the walk r, Next(r), ... runs into, after it has gone through the references in `passed`, the last
      one first: in the order in which the exception unwinds through it. Empty when the walk ends at a token that an
      earlier call has left. */
  ghost function Loop(g: Graph, tokens: set<Reference>, passed: seq<Reference>, r: Reference): seq<Reference>
    requires Closed(g) && Cyclic(g, RefN(r))
    decreases g.Keys - Among(passed)
  {
    if r in passed then [r] + UpTo(passed, r)
    else if r in tokens then []
    else
      assert r in g && Among([r] + passed) == Among(passed) + {r};
      Loop(g, tokens, [r] + passed, Next(g, r))
  }

  function Among(rs: seq<Reference>): set<Reference> {
    set r | r in rs
  }

  /** The exception `e` after it has passed the frames of these references. */
  function Unwind(g: Graph, limit: nat, e: CycleError, passed: seq<Reference>): CycleError
    decreases |passed|
  {
    if passed == [] then e else Unwind(g, limit, Added(g, e, passed[0], limit), passed[1..])
  }

  /** The exception is the one for a cycle, and its trace is a cycle. */
  ghost predicate NamesCycle(g: Graph, e: CycleError) {
    e.CycleError? && IsCycleTrace(g, e.references)
  }

  lemma {:induction false} UnwindStays(g: Graph, limit: nat, e: CycleError, passed: seq<Reference>)
    requires e.RecursionError? || e.complete
    ensures Unwind(g, limit, e, passed) == e
    decreases |passed|
  {
    if passed != [] { UnwindStays(g, limit, e, passed[1..]); }
  }

  /** An exception that has gathered `refs`, all told apart, goes on to the next reference that is one of them. */
  lemma {:induction false} Unwinds(g: Graph, limit: nat, refs: seq<Reference>, passed: seq<Reference>)
    requires refs != [] && Distinct(refs) && ToldApart(g, refs, limit) && Distinct(passed)
    requires forall x :: x in passed && x in refs ==> x == refs[0]
    ensures var l, e := refs + UpTo(passed, refs[0]), Unwind(g, limit, CycleError(refs, false), passed);
            if refs[0] in passed && ToldApart(g, l, limit) then e == CycleError(l + [refs[0]], true)
            else !NamesCycle(g, e)
    decreases |passed|
  {
    hide ReferencesEqual, Contains, Links;
    if passed != [] {
      var p := passed[0];
      if p == refs[0] {
        FoundFirst(g, refs, p, limit);
        UnwindStays(g, limit, CycleError(refs + [p], true), passed[1..]);
      } else if Contains(g, refs, p, limit) == Some(false) {
        UnwindsOn(g, limit, refs, passed);
      } else {
        NotToldApart(g, limit, refs, passed);
      }
    }
  }

  lemma {:induction false} UnwindsOn(g: Graph, limit: nat, refs: seq<Reference>, passed: seq<Reference>)
    requires refs != [] && Distinct(refs) && ToldApart(g, refs, limit) && Distinct(passed) && passed != []
    requires forall x :: x in passed && x in refs ==> x == refs[0]
    requires passed[0] != refs[0] && Contains(g, refs, passed[0], limit) == Some(false)
    ensures var l, e := refs + UpTo(passed, refs[0]), Unwind(g, limit, CycleError(refs, false), passed);
            if refs[0] in passed && ToldApart(g, l, limit) then e == CycleError(l + [refs[0]], true)
            else !NamesCycle(g, e)
    decreases |passed|, 0
  {
    var p, rest := passed[0], passed[1..];
    assert passed == [p] + rest;
    assert refs + ([p] + UpTo(rest, refs[0])) == refs + [p] + UpTo(rest, refs[0]);
    hide ReferencesEqual, NamesCycle, UpTo;
    Unwinds(g, limit, refs + [p], rest);
  }

  lemma {:induction false} NotToldApart(g: Graph, limit: nat, refs: seq<Reference>, passed: seq<Reference>)
    requires refs != [] && Distinct(refs) && passed != [] && passed[0] !in refs
    requires Contains(g, refs, passed[0], limit) != Some(false)
    ensures !ToldApart(g, refs + UpTo(passed, refs[0]), limit)
    ensures !NamesCycle(g, Unwind(g, limit, CycleError(refs, false), passed))
  {
    hide ReferencesEqual, Links;
    var p, l := passed[0], refs + UpTo(passed, refs[0]);
    UnwindStays(g, limit, Added(g, CycleError(refs, false), p, limit), passed[1..]);
    var i :| 0 <= i < |refs| && ReferencesEqual(g, refs[i], p, limit) != Some(false);
    assert l[i] == refs[i] && l[|refs|] == p;
  }

  lemma {:induction false} FoundFirst(g: Graph, refs: seq<Reference>, r: Reference, limit: nat)
    requires refs != [] && refs[0] == r
    ensures Contains(g, refs, r, limit) == Some(true)
  {
    assert ReferencesEqual(g, r, r, limit) == Some(true);
  }

  /** The references of a walk that has arrived at `r`: each has led on to the one before it. */
  ghost predicate Walked(g: Graph, tokens: set<Reference>, passed: seq<Reference>, r: Reference) {
    && Closed(g) && Cyclic(g, RefN(r)) && AllCyclic(g, tokens + Among(passed))
    && Distinct(passed) && (forall x :: x in passed ==> x in g && x !in tokens)
    && Links(g, [r] + passed)
  }

  lemma {:induction false} WalksOn(g: Graph, tokens: set<Reference>, passed: seq<Reference>, r: Reference)
    requires Walked(g, tokens, passed, r) && r !in passed && r !in tokens
    ensures Walked(g, tokens, [r] + passed, Next(g, r)) && tokens + Among(passed) + {r} == tokens + Among([r] + passed)
  {
    hide Cyclic, Succ;
    assert Among([r] + passed) == Among(passed) + {r};
    var m, c := Next(g, r), [r] + passed;
    forall i | 0 <= i < |c| ensures ([m] + c)[i] in Succ(g, ([m] + c)[i + 1]) {
      if i > 0 { assert ([m] + c)[i] == c[i - 1] && c[i - 1] in Succ(g, c[i - 1 + 1]); }
    }
  }

  /** The exception is the one for a cycle, with a trace that is one, exactly when the walk runs into a loop whose
      references are told apart; then the trace goes once around the loop. */
  lemma {:induction false} WalkIsNamed(g: Graph, limit: nat, tokens: set<Reference>, passed: seq<Reference>,
        r: Reference)
    requires Walked(g, tokens, passed, r) && Closes(g, r, tokens + Among(passed))
    ensures var l := Loop(g, tokens, passed, r);
            var e := Unwind(g, limit, Exception(g, limit, tokens + Among(passed), r), passed);
            if l != [] && ToldApart(g, l, limit) then e == CycleError(l + [l[0]], true) else !NamesCycle(g, e)
    decreases g.Keys - Among(passed)
  {
    if r in tokens || r in passed {
      hide Exception, Closes, Cyclic, Links;
      ExceptionAtToken(g, limit, tokens + Among(passed), r);
      Unwinds(g, limit, [r], passed);
    } else {
      var all := tokens + Among(passed);
      ArgumentCloses(g, all, r);
      FirstIsNext(g, all, r);
      WalksOn(g, tokens, passed, r);
      ClosesIsCyclic(g, Next(g, r), tokens + Among([r] + passed));
      hide Closes, Cyclic, Links, Walked, Next, First, Added;
      WalkIsNamed(g, limit, tokens, [r] + passed, Next(g, r));
      assert ([r] + passed)[1..] == passed;
    }
  }

  lemma {:induction false} ExceptionAtToken(g: Graph, limit: nat, tokens: set<Reference>, r: Reference)
    requires Closed(g) && r in tokens && Closes(g, r, tokens)
    ensures Exception(g, limit, tokens, r) == CycleError([r], false)
  {
  }

  lemma {:induction false} FirstIsNext(g: Graph, tokens: set<Reference>, r: Reference)
    requires Closed(g) && Cyclic(g, RefN(r)) && AllCyclic(g, tokens)
    requires AnyCloses(g, tokens + {r}, ArgumentsOf(g, r))
    ensures First(g, tokens + {r}, ArgumentsOf(g, r)) == Next(g, r)
  {
    hide Cyclic, AnyCloses, First, ArgumentsOf;
    FirstIsFirstCyclic(g, tokens + {r}, ArgumentsOf(g, r));
  }

  /** A loop is a cycle. */
  lemma {:induction false} LoopIsCycle(g: Graph, tokens: set<Reference>, passed: seq<Reference>, r: Reference)
    requires Walked(g, tokens, passed, r)
    ensures var l := Loop(g, tokens, passed, r);
            l != [] ==> Distinct(l) && IsCycleTrace(g, l + [l[0]])
    decreases g.Keys - Among(passed)
  {
    if r in passed {
      var before := UpTo(passed, r);
      assert [r] + before + [r] <= [r] + passed;
      assert forall i :: 0 <= i < |before| ==> before[i] == passed[i];
    } else if r !in tokens {
      WalksOn(g, tokens, passed, r);
      hide Walked, IsCycleTrace;
      LoopIsCycle(g, tokens, [r] + passed, Next(g, r));
    }
  }

  /** Without tokens every walk runs into one. */
  lemma {:induction false} LoopIsFound(g: Graph, passed: seq<Reference>, r: Reference)
    requires Closed(g) && Cyclic(g, RefN(r))
    ensures Loop(g, {}, passed, r) != []
    decreases g.Keys - Among(passed)
  {
    if r !in passed {
      assert Among([r] + passed) == Among(passed) + {r};
      LoopIsFound(g, [r] + passed, Next(g, r));
    }
  }

  /** Whether `e` is the exception for `r`, and what it says, by the loop behind `r` alone: it names the cycle, going
      once around the loop, exactly when there is one and all comparisons of its references return and tell them
      apart. */
  ghost predicate SaysLoop(g: Graph, limit: nat, tokens: set<Reference>, r: Reference, e: CycleError)
    requires Closed(g) && Cyclic(g, RefN(r))
  {
    var l := Loop(g, tokens, [], r);
    && Closes(g, r, tokens) && e == Exception(g, limit, tokens, r)
    && (NamesCycle(g, e) <==> l != [] && ToldApart(g, l, limit))
    && (NamesCycle(g, e) ==> e == CycleError(l + [l[0]], true))
    && (tokens == {} ==> l != [])
  }

  lemma {:induction false} CycleIsNamed(g: Graph, limit: nat, tokens: set<Reference>, r: Reference)
    requires Closed(g) && Cyclic(g, RefN(r)) && AllCyclic(g, tokens)
    ensures Closes(g, r, tokens) && SaysLoop(g, limit, tokens, r, Exception(g, limit, tokens, r))
  {
    assert tokens + Among([]) == tokens;
    assert [r] + [] == [r];
    ClosesIsCyclic(g, r, tokens);
    assert Walked(g, tokens, [], r);
    hide Closes, Cyclic, Exception, Loop, Walked, ToldApart;
    WalkIsNamed(g, limit, tokens, [], r);
    LoopIsCycle(g, tokens, [], r);
    if tokens == {} { LoopIsFound(g, [], r); }
  }

  ghost predicate OnCycle(g: Graph, r: Reference) {
    exists k: nat :: k > 0 && Leads(g, r, r, k)
  }

  lemma {:induction false} LinksLead(g: Graph, c: seq<Reference>, i: nat, j: nat)
    requires Links(g, c) && i <= j < |c|
    ensures Leads(g, c[j], c[i], j - i)
  {
    if i < j {
      LinksLead(g, c, i, j - 1);
      assert c[j - 1] in Succ(g, c[j - 1 + 1]);
    }
  }

  lemma {:induction false} OnTheCycle(g: Graph, c: seq<Reference>, i: nat)
    requires IsCycleTrace(g, c) && i < |c|
    ensures OnCycle(g, c[i]) && c[i] in g
  {
    var last := |c| - 1;
    LinksLead(g, c, 0, i);
    LinksLead(g, c, i, last);
    LeadsOn(g, c[i], c[0], c[i], i, last - i);
    assert i > 0 ==> c[i - 1] in Succ(g, c[i - 1 + 1]);
    assert c[last - 1] in Succ(g, c[last - 1 + 1]);
  }

  /** A condition on the references alone: any two on cycles differ in type, or in a scalar argument before any link. */
  ghost predicate CyclesDifferEarly(g: Graph) {
    forall x, y {:trigger OnCycle(g, x), OnCycle(g, y)} ::
      x in g && y in g && x != y && OnCycle(g, x) && OnCycle(g, y) ==> DifferEarly(g, x, y)
  }

  lemma {:induction false} EarlyDifferencesNameTheCycle(g: Graph, limit: nat, r: Reference)
    requires Closed(g) && Cyclic(g, RefN(r)) && CyclesDifferEarly(g) && limit > 0
    ensures Closes(g, r, {}) && NamesCycle(g, Exception(g, limit, {}, r))
  {
    CycleIsNamed(g, limit, {}, r);
    var l := Loop(g, {}, [], r);
    assert [r] + [] == [r] && {} + Among([]) == {};
    assert Walked(g, {}, [], r);
    LoopIsCycle(g, {}, [], r);
    hide Closes, Cyclic, Exception, Loop, Walked, IsCycleTrace, OnCycle, DifferEarly;
    var c := l + [l[0]];
    forall i, j | 0 <= i < j < |l| ensures l[i] == l[j] || ReferencesEqual(g, l[i], l[j], limit) == Some(false) {
      OnTheCycle(g, c, i);
      OnTheCycle(g, c, j);
      assert c[i] == l[i] && c[j] == l[j] && l[i] != l[j];
      EarlyDifferenceIsFound(g, l[i], l[j], limit);
    }
  }

  lemma {:induction false} ToldApartHigher(g: Graph, c: seq<Reference>, limit: nat, higher: nat)
    requires ToldApart(g, c, limit) && limit <= higher
    ensures ToldApart(g, c, higher)
  {
    forall i, j | 0 <= i < j < |c| ensures c[i] == c[j] || ReferencesEqual(g, c[i], c[j], higher) == Some(false) {
      if c[i] != c[j] { HigherLimit(g, RefN(c[i]), RefN(c[j]), limit, higher); }
    }
  }

  /** A cycle that is named under one limit is named, with the same trace, under every higher one. */
  lemma {:induction false} NamedUnderHigherLimit(g: Graph, limit: nat, higher: nat, tokens: set<Reference>,
        r: Reference)
    requires Closed(g) && Cyclic(g, RefN(r)) && AllCyclic(g, tokens) && limit <= higher
    ensures Closes(g, r, tokens)
    ensures NamesCycle(g, Exception(g, limit, tokens, r)) ==>
              Exception(g, higher, tokens, r) == Exception(g, limit, tokens, r)
  {
    CycleIsNamed(g, limit, tokens, r);
    CycleIsNamed(g, higher, tokens, r);
    hide Closes, Cyclic, Exception, Loop, ToldApart, NamesCycle;
    if NamesCycle(g, Exception(g, limit, tokens, r)) {
      ToldApartHigher(g, Loop(g, tokens, [], r), limit, higher);
    }
  }

  // ---------------------------------------------------------------- the outermost calls

  /** Tokens that no call is working on any more were left by calls that failed: they reach a cycle. */
  ghost predicate TokensStuck(g: Graph, ms: Models) {
    AllCyclic(g, Tokens(ms))
  }

  /** What an outermost call that has gone through `rs` leaves when it raises `e`. */
  lemma {:induction false} Outermost(g: Graph, limit: nat, rs: seq<Reference>, ms: Models, ms': Models, e: CycleError)
    requires Failed(g, limit, rs, ms, ms', e) && TokensStuck(g, ms)
    ensures ModelsOk(g, ms') && TokensStuck(g, ms') && AnyCloses(g, {}, rs)
    ensures var r := First(g, {}, rs); Cyclic(g, RefN(r)) && SaysLoop(g, limit, Tokens(ms), r, e)
  {
    forall f | f in Tokens(ms') ensures Cyclic(g, RefN(f)) {
      if f !in Tokens(ms) { ClosesIsCyclic(g, f, Tokens(ms)); }
    }
    FirstIsFirstCyclic(g, Tokens(ms), rs);
    var r := First(g, {}, rs);
    ClosesIsCyclic(g, r, {});
    hide Cyclic, AllCyclic, Closes, SaysLoop, ModelsOk;
    CycleIsNamed(g, limit, Tokens(ms), r);
  }

  lemma {:induction false} StuckStays(g: Graph, ms: Models, ms': Models)
    requires Progress(g, ms, ms') && TokensStuck(g, ms)
    ensures ModelsOk(g, ms') && TokensStuck(g, ms')
  {
  }

  /** Serialising a reference while no other is being serialised: it raises exactly when a cycle can be reached, and
      leaves tokens only on references that reach one; otherwise everything that can be reached holds its model. What
      the exception says is told by the loop behind the reference. */
  method SerializeReference(r: Reference, limit: nat, ghost g: Graph) returns (res: Outcome<ReferenceModel>)
    requires r in g && Snapshot(g) && ModelsOk(g, ModelsOf(g)) && TokensStuck(g, ModelsOf(g))
    modifies g.Keys`model
    ensures res.Raised? <==> Cyclic(g, RefN(r))
    ensures ModelsOk(g, ModelsOf(g)) && TokensStuck(g, ModelsOf(g))
    ensures res.Raised? ==> SaysLoop(g, limit, old(Tokens(ModelsOf(g))), r, res.error)
    ensures res.Done? ==> Acyclic(g, RefN(r)) && res.value == ModelWithId(IdOf(TreeOf(g, RefN(r))))
    ensures res.Done? ==> forall s, k: nat :: Leads(g, r, s, k) ==> s in g && s.model.Serialized?
  {
    hide Failed, TokensStuck, SaysLoop, Cyclic, Acyclic, ModelsOk, TreeOf, Closes;
    res := Serialize(r, limit, g, Pending(ModelsOf(g)));
    if res.Raised? {
      Outermost(g, limit, [r], old(ModelsOf(g)), ModelsOf(g), res.error);
    } else {
      AcyclicIsNotCyclic(g, RefN(r));
      StuckStays(g, old(ModelsOf(g)), ModelsOf(g));
      forall s, k: nat | Leads(g, r, s, k) ensures s in g && s.model.Serialized? {
        SerializedReach(g, ModelsOf(g), r, s, k);
      }
    }
  }

  lemma {:induction false} ExceptionStep(g: Graph, limit: nat, tokens: set<Reference>, r: Reference)
    requires Closed(g) && Cyclic(g, RefN(r)) && AllCyclic(g, tokens) && r !in tokens
    ensures Closes(g, r, tokens) && Closes(g, Next(g, r), tokens + {r}) && AllCyclic(g, tokens + {r})
    ensures Exception(g, limit, tokens, r) == Added(g, Exception(g, limit, tokens + {r}, Next(g, r)), r, limit)
  {
    ClosesIsCyclic(g, r, tokens);
    ClosesIsCyclic(g, Next(g, r), tokens + {r});
    ArgumentCloses(g, tokens, r);
    FirstIsNext(g, tokens, r);
    hide Closes, Cyclic, First, Next, Added;
  }

  lemma {:induction false} HeadIsNext(g: Graph, r: Reference)
    requires Closed(g) && Cyclic(g, RefN(r)) && ArgumentsOf(g, r) != [] && Cyclic(g, RefN(ArgumentsOf(g, r)[0]))
    ensures Next(g, r) == ArgumentsOf(g, r)[0]
  {
    ClosesIsCyclic(g, ArgumentsOf(g, r)[0], {});
    hide Closes, Cyclic;
  }

  lemma {:induction false} OnCycleIsCyclic(g: Graph, r: Reference, k: nat)
    requires r in g && k > 0 && Leads(g, r, r, k)
    ensures Cyclic(g, RefN(r))
  {
    assert Leads(g, r, r, 0) && r in Refs(RefN(r));
  }

  lemma {:induction false} OneArgument(g: Graph, r: Reference, name: string, s: Reference)
    requires r in g && g[r].args == [NamedNode(name, RefN(s))]
    ensures ArgumentsOf(g, r) == [s] && s in Succ(g, r)
  {
    assert InArguments(g[r].args, 0) == [] && InArguments(g[r].args, 1) == [s];
    assert s in Refs(g[r].args[0].value);
  }

  lemma {:induction false} TwoArguments(g: Graph, r: Reference, name: string, s: Reference, name': string,
        s': Reference)
    requires r in g && g[r].args == [NamedNode(name, RefN(s)), NamedNode(name', RefN(s'))]
    ensures ArgumentsOf(g, r) == [s, s'] && s in Succ(g, r)
  {
    assert InArguments(g[r].args, 0) == [] && InArguments(g[r].args, 1) == [s] && InArguments(g[r].args, 2) == [s, s'];
    assert s in Refs(g[r].args[0].value);
  }

  lemma {:induction false} MutualArguments(g: Graph, a: Reference, b: Reference, rtype: string, name: string)
    requires Mutual(g, a, b, rtype, name)
    ensures ArgumentsOf(g, a) == [b] && Cyclic(g, RefN(a))
  {
    OneArgument(g, a, name, b);
    OneArgument(g, b, name, a);
    hide Succ, ArgumentsOf, Cyclic;
    assert Leads(g, a, a, 0) && Leads(g, b, a, 1) && Leads(g, a, a, 2);
    OnCycleIsCyclic(g, a, 2);
  }

  /** Two references of one type that are each other's only argument: while the exception unwinds, the comparison of the
      two does not return. */
  lemma {:induction false} MutualIsNotNamed(g: Graph, a: Reference, b: Reference, rtype: string, name: string,
        limit: nat)
    requires Mutual(g, a, b, rtype, name) && Closed(g)
    ensures Closes(g, a, {}) && Exception(g, limit, {}, a) == RecursionError([a], b)
  {
    MutualArguments(g, a, b, rtype, name);
    MutualArguments(g, b, a, rtype, name);
    MutualNeverReturns(g, a, b, rtype, name, limit);
    HeadIsNext(g, a);
    HeadIsNext(g, b);
    hide Mutual, Cyclic, Closes, ReferencesEqual, Next, ArgumentsOf;
    ExceptionStep(g, limit, {}, a);
    ExceptionStep(g, limit, {a}, b);
    assert {} + {a} == {a};
    assert Contains(g, [a], b, limit) == None;
  }

  lemma {:induction false} NoTokens(g: Graph)
    requires forall r :: r in g ==> r.model.Unset?
    ensures ModelsOk(g, ModelsOf(g)) && Tokens(ModelsOf(g)) == {} && TokensStuck(g, ModelsOf(g))
  {
  }

  lemma {:induction false} SaysException(g: Graph, limit: nat, tokens: set<Reference>, r: Reference, e: CycleError)
    requires Closed(g) && Cyclic(g, RefN(r)) && SaysLoop(g, limit, tokens, r, e)
    ensures Closes(g, r, tokens) && e == Exception(g, limit, tokens, r)
  {
  }

  /** The call for a reference that reaches a cycle, when no reference has been serialised before. */
  method SerializeCyclic(r: Reference, limit: nat, ghost g: Graph) returns (error: CycleError)
    requires r in g && Snapshot(g) && Cyclic(g, RefN(r)) && forall s :: s in g ==> s.model.Unset?
    modifies g.Keys`model
    ensures Closes(g, r, {}) && error == Exception(g, limit, {}, r)
  {
    hide Cyclic, SaysLoop, AllCyclic, Exception, Closes, Closed, ModelsOk, TokensStuck, Acyclic, TreeOf;
    NoTokens(g);
    var res := SerializeReference(r, limit, g);
    SaysException(g, limit, {}, r, res.error);
    error := res.error;
  }

  /** Whatever the limit, the call ends in a RecursionError. */
  method SerializeMutual(a: Reference, b: Reference, name: string, limit: nat) returns (error: CycleError)
    requires a != b && a.rtype == b.rtype && a.model == b.model == Unset
    requires a.args == [NamedNode(name, RefN(b))] && b.args == [NamedNode(name, RefN(a))]
    modifies a`model, b`model
    ensures error == RecursionError([a], b)
  {
    ghost var g: Graph := map[a := Shape(a.rtype, a.args), b := Shape(b.rtype, b.args)];
    assert g.Keys == {a, b};
    MutualArguments(g, a, b, a.rtype, name);
    MutualIsNotNamed(g, a, b, a.rtype, name, limit);
    hide Cyclic, Exception, Closes, Closed;
    error := SerializeCyclic(a, limit, g);
  }

  lemma {:induction false} CrossedArguments(g: Graph, x: Reference, y: Reference, u: Reference, v: Reference)
    requires Crossed(g, x, y, u, v)
    ensures ArgumentsOf(g, x) == [u, v] && ArgumentsOf(g, u) == [y] && ArgumentsOf(g, y) == [v, u]
    ensures ArgumentsOf(g, v) == [x]
    ensures Cyclic(g, RefN(x)) && Cyclic(g, RefN(u)) && Cyclic(g, RefN(y)) && Cyclic(g, RefN(v))
  {
    TwoArguments(g, x, "u", u, "v", v);
    TwoArguments(g, y, "v", v, "u", u);
    OneArgument(g, u, "r", y);
    OneArgument(g, v, "r", x);
    RoundOfFour(g, x, u, y, v);
    RoundOfFour(g, u, y, v, x);
    RoundOfFour(g, y, v, x, u);
    RoundOfFour(g, v, x, u, y);
  }

  lemma {:induction false} RoundOfFour(g: Graph, a: Reference, b: Reference, c: Reference, d: Reference)
    requires a in g && b in Succ(g, a) && c in Succ(g, b) && d in Succ(g, c) && a in Succ(g, d)
    ensures Cyclic(g, RefN(a))
  {
    hide Succ, Cyclic;
    assert Leads(g, a, a, 0) && Leads(g, d, a, 1) && Leads(g, c, a, 2) && Leads(g, b, a, 3);
    OnCycleIsCyclic(g, a, 4);
  }

  /** The trace after the frames of these references. */
  function AddedTwo(g: Graph, limit: nat, e: CycleError, a: Reference, b: Reference): CycleError {
    Added(g, Added(g, e, a, limit), b, limit)
  }

  lemma {:induction false} CrossedTrace(g: Graph, x: Reference, y: Reference, u: Reference, v: Reference, limit: nat)
    requires Crossed(g, x, y, u, v)
    ensures AddedTwo(g, limit, AddedTwo(g, limit, CycleError([x], false), v, y), u, x) ==
            if limit == 0 then RecursionError([x], v) else CycleError([x, v, y], true)
  {
    CrossedDiffer(g, x, y, u, v, limit);
    if limit > 0 { EqualOnACycle(g, x, y, u, v, limit); }
    hide ReferencesEqual;
    if limit == 0 {
      assert Added(g, CycleError([x], false), v, limit) == RecursionError([x], v);
    } else {
      assert Added(g, CycleError([x], false), v, limit) == CycleError([x, v], false);
      assert Contains(g, [x, v], y, limit) == Some(true);
    }
  }

  lemma {:induction false} CrossedDiffer(g: Graph, x: Reference, y: Reference, u: Reference, v: Reference, limit: nat)
    requires Crossed(g, x, y, u, v)
    ensures ReferencesEqual(g, x, v, limit) == if limit == 0 then None else Some(false)
  {
    assert x != v;
  }

  lemma {:induction false} FourFrames(g: Graph, limit: nat, a: Reference, b: Reference, c: Reference, d: Reference)
    requires Closed(g) && Distinct([a, b, c, d])
    requires Cyclic(g, RefN(a)) && Cyclic(g, RefN(b)) && Cyclic(g, RefN(c)) && Cyclic(g, RefN(d))
    requires Next(g, a) == b && Next(g, b) == c && Next(g, c) == d && Next(g, d) == a
    ensures Closes(g, a, {})
    ensures Exception(g, limit, {}, a)
         == AddedTwo(g, limit, AddedTwo(g, limit, CycleError([a], false), d, c), b, a)
  {
    var l := [a, b, c, d];
    assert l[0] == a && l[1] == b && l[2] == c && l[3] == d;
    hide Cyclic, Closes, Next, Exception, Added, Distinct;
    NotYet(l);
    ExceptionStep(g, limit, {}, a);
    ExceptionStep(g, limit, {} + {a}, b);
    ExceptionStep(g, limit, {} + {a} + {b}, c);
    ExceptionStep(g, limit, {} + {a} + {b} + {c}, d);
    ExceptionAtToken(g, limit, {} + {a} + {b} + {c} + {d}, a);
  }

  lemma {:induction false} NotYet(l: seq<Reference>)
    requires |l| == 4 && Distinct(l)
    ensures l[1] !in {l[0]} && l[2] !in {l[0]} + {l[1]} && l[3] !in {l[0]} + {l[1]} + {l[2]}
  {
  }

  lemma {:induction false} CrossedAreDistinct(g: Graph, x: Reference, y: Reference, u: Reference, v: Reference)
    requires Crossed(g, x, y, u, v)
    ensures Distinct([x, u, y, v])
  {
    assert TypeOf(g, x) == TypeOf(g, y) == "R" && TypeOf(g, u) == "U" && TypeOf(g, v) == "V" && x != y;
    assert "R"[0] != "U"[0] && "R"[0] != "V"[0] && "U"[0] != "V"[0];
    assert x != u && x != v && u != y && u != v && y != v;
    hide Crossed, TypeOf;
  }

  /** Two references on a cycle with the same two arguments in another order: the trace ends at the second one, which is
      equal to the first, and is no cycle. */
  lemma {:induction false} CrossedIsNotNamed(g: Graph, x: Reference, y: Reference, u: Reference, v: Reference,
        limit: nat)
    requires Crossed(g, x, y, u, v) && Closed(g)
    ensures Closes(g, x, {})
    ensures Exception(g, limit, {}, x) ==
            if limit == 0 then RecursionError([x], v) else CycleError([x, v, y], true)
  {
    CrossedArguments(g, x, y, u, v);
    CrossedAreDistinct(g, x, y, u, v);
    CrossedTrace(g, x, y, u, v, limit);
    hide Cyclic, Closes, Exception, Next, AddedTwo, Distinct, Crossed, Closed;
    HeadIsNext(g, x);
    HeadIsNext(g, u);
    HeadIsNext(g, y);
    HeadIsNext(g, v);
    FourFrames(g, limit, x, u, y, v);
  }

  lemma {:induction false} CrossedIsClosed(g: Graph, x: Reference, y: Reference, u: Reference, v: Reference)
    requires Crossed(g, x, y, u, v) && g.Keys == {x, y, u, v}
    ensures Closed(g)
  {
  }

  /** The same of the objects, none of which has been serialised. */
  ghost predicate CrossedObjects(x: Reference, y: Reference, u: Reference, v: Reference)
    reads x, y, u, v
  {
    && x != y && x.rtype == y.rtype == "R" && u.rtype == "U" && v.rtype == "V"
    && x.args == [NamedNode("u", RefN(u)), NamedNode("v", RefN(v))]
    && y.args == [NamedNode("v", RefN(v)), NamedNode("u", RefN(u))]
    && u.args == [NamedNode("r", RefN(y))] && v.args == [NamedNode("r", RefN(x))]
    && x.model == y.model == u.model == v.model == Unset
  }

  lemma {:induction false} CrossedGraph(g: Graph, x: Reference, y: Reference, u: Reference, v: Reference)
    requires CrossedObjects(x, y, u, v)
    requires g.Keys == {x, y, u, v} && forall r :: r in g ==> g[r] == Shape(r.rtype, r.args)
    ensures Crossed(g, x, y, u, v) && Snapshot(g) && forall r :: r in g ==> r.model.Unset?
  {
    assert Crossed(g, x, y, u, v);
    CrossedIsClosed(g, x, y, u, v);
    hide Closed, Crossed;
  }

  /** The call that serialises the first of them. */
  method SerializeCrossed(x: Reference, y: Reference, u: Reference, v: Reference, limit: nat)
    returns (error: CycleError)
    requires CrossedObjects(x, y, u, v)
    modifies x`model, y`model, u`model, v`model
    ensures error == if limit == 0 then RecursionError([x], v) else CycleError([x, v, y], true)
  {
    hide CrossedObjects, Cyclic, Exception, Closes, Closed, Crossed, ArgumentsOf;
    ghost var g: Graph := map r: Reference | r in {x, y, u, v} :: Shape(r.rtype, r.args);
    CrossedGraph(g, x, y, u, v);
    CrossedArguments(g, x, y, u, v);
    CrossedIsNotNamed(g, x, y, u, v, limit);
    error := SerializeCyclic(x, limit, g);
  }

  datatype Exported = Exported(fields: map<string, Value>, references: seq<ReferenceModel>, mutators: seq<MutatorModel>)

  /** The values of a map in some order, such as the order of its keys. */
  method ValuesOf<K, V>(m: map<K, V>) returns (s: seq<V>)
    ensures forall v :: v in s <==> exists k :: k in m && m[k] == v
  {
    s := [];
    var keys := m.Keys;
    while keys != {}
      invariant keys <= m.Keys
      invariant forall v :: v in s <==> exists k :: k in m.Keys - keys && m[k] == v
    {
      var k :| k in keys;
      s := s + [m[k]];
      keys := keys - {k};
    }
  }

  ghost predicate ReplacesAt(m: MutatorModel, resource: string, t: Tree, p: Path) {
    p in RefPaths(t, []) && m == Replace(resource, IdOf(RefAt(t, [], p)), p)
  }

  /** Whether `exported` is what the fields behind `t` leave behind. */
  ghost predicate IsExportOf(exported: Exported, resource: string, t: Tree) {
    && t.DictT? && exported.fields == Clean(t).fields
    && (forall m :: m in exported.references <==> exists id :: id in RefIds(t) && m == ModelWithId(id))
    && (forall m :: m in exported.mutators <==>
          exists p :: ReplacesAt(m, resource, t, p))
  }

  /** The exception is the one for the first reference, in the order of the fields, from which a cycle is reached. */
  ghost predicate SaysFirstLoop(g: Graph, limit: nat, tokens: set<Reference>, n: Node, e: CycleError) {
    && Closed(g) && AnyCloses(g, {}, InOrder(n))
    && var r := First(g, {}, InOrder(n));
    Cyclic(g, RefN(r)) && SaysLoop(g, limit, tokens, r, e)
  }

  lemma {:induction false} OutermostValue(g: Graph, limit: nat, n: Node, ms: Models, ms': Models, e: CycleError)
    requires Failed(g, limit, InOrder(n), ms, ms', e) && TokensStuck(g, ms) && Ordered(n)
    ensures ModelsOk(g, ms') && TokensStuck(g, ms') && Cyclic(g, n) && SaysFirstLoop(g, limit, Tokens(ms), n, e)
  {
    Outermost(g, limit, InOrder(n), ms, ms', e);
    var r := First(g, {}, InOrder(n));
    hide InOrder, SaysLoop, ModelsOk, TokensStuck;
    IsRef(n, r);
  }

  /** Resource.create_from_model: the fields of a resource are the outermost dict. */
  method Export(resource: string, fields: Node, limit: nat, ghost g: Graph) returns (res: Outcome<Exported>)
    requires fields.DictN? && Refs(fields) <= g.Keys && Ordered(fields)
    requires Snapshot(g) && ModelsOk(g, ModelsOf(g)) && TokensStuck(g, ModelsOf(g))
    modifies g.Keys`model
    ensures res.Raised? <==> Cyclic(g, fields)
    ensures ModelsOk(g, ModelsOf(g)) && TokensStuck(g, ModelsOf(g))
    ensures res.Raised? ==> SaysFirstLoop(g, limit, old(Tokens(ModelsOf(g))), fields, res.error)
    ensures res.Done? ==> Acyclic(g, fields) && IsExportOf(res.value, resource, TreeOf(g, fields))
  {
    hide TreeOf, IdOf, RefIds, Clean, Replacements, RefPaths, RefAt, Cyclic, Acyclic, Failed, MutatorsOf, ModelsOk,
         Progress, TokensStuck, SaysFirstLoop, Ordered, InOrder, Closed, Closes;
    var collector := new ReferenceSubCollector(Some(resource));
    var cleaned := collector.CollectReferences(fields, [], limit, g, Pending(ModelsOf(g)));
    if cleaned.Raised? {
      OutermostValue(g, limit, fields, old(ModelsOf(g)), ModelsOf(g), cleaned.error);
      return Raised(cleaned.error);
    }
    AcyclicIsNotCyclic(g, fields);
    StuckStays(g, old(ModelsOf(g)), ModelsOf(g));
    var references := ValuesOf(collector.references);
    var mutators := ValuesOf(collector.mutators);
    res := Done(Exported(cleaned.value.fields, references, mutators));
    assert collector.replacements == Replacements(TreeOf(g, fields), []);
    ReferencesAreModels(RefIds(TreeOf(g, fields)), collector.references, references);
    MutatorsAreReplacements(resource, TreeOf(g, fields), mutators);
  }

  lemma {:induction false} MutatorsAreReplacements(resource: string, t: Tree, mutators: seq<MutatorModel>)
    requires var m := MutatorsOf(resource, Replacements(t, []));
             forall v :: v in mutators <==> exists k :: k in m && m[k] == v
    ensures forall v :: v in mutators <==>
              exists p :: ReplacesAt(v, resource, t, p)
  {
    var replacements := Replacements(t, []);
    var m := MutatorsOf(resource, replacements);
    forall v
      ensures v in mutators <==> exists p :: ReplacesAt(v, resource, t, p)
    {
      if v in mutators {
        var k :| k in m && m[k] == v;
        var p :| p in replacements && k == HashOfMutator(Replace(resource, replacements[p].id, p));
        assert ReplacesAt(v, resource, t, p);
      }
      if p :| ReplacesAt(v, resource, t, p) {
        var k := HashOfMutator(Replace(resource, replacements[p].id, p));
        assert k in m && m[k] == v;
      }
    }
  }

  lemma {:induction false} ReferencesAreModels(ids: set<Uuid>, collected: map<Uuid, ReferenceModel>,
        references: seq<ReferenceModel>)
    requires collected.Keys == ids && forall id :: id in collected ==> collected[id] == ModelWithId(id)
    requires forall v :: v in references <==> exists k :: k in collected && collected[k] == v
    ensures forall m :: m in references <==> exists id :: id in ids && m == ModelWithId(id)
  {
    forall m | m in references ensures exists id :: id in ids && m == ModelWithId(id) {
      var k :| k in collected && collected[k] == m;
      assert k in ids;
    }
    forall id | id in ids ensures ModelWithId(id) in references {
      assert id in collected && collected[id] == ModelWithId(id);
    }
  }
}
