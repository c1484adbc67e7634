/** Values, paths into values, and value trees that still hold references.

    A `Value` is what a resource attribute holds once it is plain data (a JSON value, or a dataclass
    instance produced by a resolver).  A `Tree` is what the compiler hands to the exporter: the same
    shape, with reference objects at any position, whose arguments are trees again.  Reference
    identifiers are content hashes in the source; here an identifier is the term that is hashed. */
module JsonTrees {

  datatype Scalar = Null | Bool(b: bool) | Int(n: int) | Float(r: real) | Str(s: string)

  datatype Value =
    | Prim(scalar: Scalar)
    | List(items: seq<Value>)
    | Dict(fields: map<string, Value>)
    | Dataclass(handle: int)

  datatype Step = Key(name: string) | Index(i: nat)

  type Path = seq<Step>

  /** `jsonpath_expr.update(data, x)` for a path of keys and indexes: a path that leads nowhere
      changes nothing. */
  function Update(v: Value, path: Path, x: Value): Value
    decreases |path|
  {
    if path == [] then x
    else match (v, path[0])
      case (List(items), Index(i)) =>
        if i < |items| then List(items[i := Update(items[i], path[1..], x)]) else v
      case (Dict(fields), Key(k)) =>
        if k in fields then Dict(fields[k := Update(fields[k], path[1..], x)]) else v
      case _ => v
  }

  datatype Tree =
    | Leaf(scalar: Scalar)
    | ListT(items: seq<Tree>)
    | DictT(fields: map<string, Tree>)
    | RefT(rtype: string, args: seq<NamedTree>)

  datatype NamedTree = Named(name: string, value: Tree)

  type RefTree = t: Tree | t.RefT? witness RefT("", [])

  // ---------------------------------------------------------------- where the references are

  /** The paths at which `t`, itself standing at `path`, holds a reference. */
  function RefPaths(t: Tree, path: Path): set<Path> {
    match t
    case Leaf(_) => {}
    case ListT(items) =>
      set i: nat, p | i < |items| && p in RefPaths(items[i], path + [Index(i)]) :: p
    case DictT(fields) =>
      set k, p | k in fields && p in RefPaths(fields[k], path + [Key(k)]) :: p
    case RefT(_, _) => {path}
  }

  lemma {:induction false} RefPathsExtend(t: Tree, path: Path, p: Path)
    requires p in RefPaths(t, path)
    ensures path <= p
    ensures !t.RefT? ==> |path| < |p|
    ensures t.ListT? ==> p[|path|].Index? && p[|path|].i < |t.items|
                         && p in RefPaths(t.items[p[|path|].i], path + [p[|path|]])
    ensures t.DictT? ==> p[|path|].Key? && p[|path|].name in t.fields
                         && p in RefPaths(t.fields[p[|path|].name], path + [p[|path|]])
  {
    match t
    case ListT(items) =>
      var i: nat :| i < |items| && p in RefPaths(items[i], path + [Index(i)]);
      RefPathsExtend(items[i], path + [Index(i)], p);
      assert p[|path|] == Index(i);
    case DictT(fields) =>
      var k :| k in fields && p in RefPaths(fields[k], path + [Key(k)]);
      RefPathsExtend(fields[k], path + [Key(k)], p);
      assert p[|path|] == Key(k);
    case _ =>
  }

  predicate IsChild(t: Tree, step: Step, c: Tree) {
    || (t.ListT? && step.Index? && step.i < |t.items| && c == t.items[step.i])
    || (t.DictT? && step.Key? && step.name in t.fields && c == t.fields[step.name])
  }

  /** The reference that `t`, standing at `path`, holds at `p`. */
  function RefAt(t: Tree, path: Path, p: Path): (r: RefTree)
    requires p in RefPaths(t, path)
    ensures r == t || r < t
    ensures r == t <==> t.RefT?
  {
    RefPathsExtend(t, path, p);
    match t
    case ListT(items) =>
      var i := p[|path|].i;
      var r: RefTree := RefAt(items[i], path + [Index(i)], p);
      assert items[i] < t;
      r
    case DictT(fields) =>
      var k := p[|path|].name;
      var r: RefTree := RefAt(fields[k], path + [Key(k)], p);
      assert fields[k] < t;
      r
    case RefT(_, _) => t
  }

  /** The references of a child are those of its parent below the step to that child, so the
      references of two children never meet. */
  lemma {:induction false} RefPathsOfChild(t: Tree, path: Path, step: Step, c: Tree, p: Path)
    requires IsChild(t, step, c)
    ensures p in RefPaths(c, path + [step]) <==>
            p in RefPaths(t, path) && |path| < |p| && p[|path|] == step
    ensures p in RefPaths(c, path + [step]) ==> RefAt(t, path, p) == RefAt(c, path + [step], p)
  {
    if p in RefPaths(c, path + [step]) {
      RefPathsExtend(c, path + [step], p);
      assert p[|path|] == step;
    }
    if p in RefPaths(t, path) {
      RefPathsExtend(t, path, p);
    }
  }

  /** No recorded path is a prefix of another, so no replacement writes inside another one. */
  lemma {:induction false} PathsAreIncomparable(t: Tree, path: Path, p: Path, q: Path)
    requires p in RefPaths(t, path) && q in RefPaths(t, path) && p <= q
    ensures p == q
    decreases t
  {
    RefPathsExtend(t, path, p);
    RefPathsExtend(t, path, q);
    match t
    case ListT(items) => PathsAreIncomparable(items[p[|path|].i], path + [p[|path|]], p, q);
    case DictT(fields) => PathsAreIncomparable(fields[p[|path|].name], path + [p[|path|]], p, q);
    case _ =>
  }

  // ---------------------------------------------------------------- what the exporter writes down

  /** The tree with every reference replaced by null. */
  function Clean(t: Tree): (v: Value)
    ensures t.DictT? ==> v.Dict?
  {
    match t
    case Leaf(s) => Prim(s)
    case ListT(items) => List(seq(|items|, i requires 0 <= i < |items| => Clean(items[i])))
    case DictT(fields) => Dict(map k | k in fields :: Clean(fields[k]))
    case RefT(_, _) => Prim(Null)
  }

  datatype Uuid = HashOf(rtype: string, args: seq<Argument>)

  datatype Argument =
    | LiteralArgument(name: string, scalar: Scalar)
    | JsonArgument(name: string, value: Value)
    | ReferenceArgument(name: string, id: Uuid)
    | MutatedJsonArgument(name: string, value: Value, references: map<Path, Uuid>)

  datatype ReferenceModel = ReferenceModel(id: Uuid, rtype: string, args: seq<Argument>)

  /** The only model whose identifier is `id`, since the identifier hashes type and arguments. */
  function ModelWithId(id: Uuid): ReferenceModel {
    ReferenceModel(id, id.rtype, id.args)
  }

  function IdOf(r: RefTree): (id: Uuid)
    ensures |id.args| == |r.args|
    decreases r, 0
  {
    HashOf(r.rtype, seq(|r.args|, i requires 0 <= i < |r.args| =>
      assert r.args[i] < r; SerializeArgument(r.args[i].name, r.args[i].value)))
  }

  function SerializeArgument(name: string, t: Tree): Argument
    decreases t, 1
  {
    match t
    case Leaf(s) => LiteralArgument(name, s)
    case RefT(_, _) => ReferenceArgument(name, IdOf(t))
    case _ =>
      if RefPaths(t, []) == {} then JsonArgument(name, Clean(t))
      else MutatedJsonArgument(name, Clean(t), map p | p in RefPaths(t, []) :: IdOf(RefAt(t, [], p)))
  }

  /** The identifiers that an argument names. */
  function NamedIds(a: Argument): set<Uuid> {
    match a
    case ReferenceArgument(_, id) => {id}
    case MutatedJsonArgument(_, _, references) => references.Values
    case _ => {}
  }

  /** The identifiers of all references in `t`, those inside reference arguments included. */
  function RefIds(t: Tree): set<Uuid> {
    match t
    case Leaf(_) => {}
    case ListT(items) => set i: nat, id | i < |items| && id in RefIds(items[i]) :: id
    case DictT(fields) => set k, id | k in fields && id in RefIds(fields[k]) :: id
    case RefT(_, args) =>
      {IdOf(t)} + set i: nat, id | i < |args| && id in RefIds(args[i].value) :: id
  }

  lemma {:induction false} RefIdsOfRefAt(t: Tree, path: Path, p: Path)
    requires p in RefPaths(t, path)
    ensures RefIds(RefAt(t, path, p)) <= RefIds(t)
  {
    RefPathsExtend(t, path, p);
    match t
    case ListT(items) => RefIdsOfRefAt(items[p[|path|].i], path + [p[|path|]], p);
    case DictT(fields) => RefIdsOfRefAt(fields[p[|path|].name], path + [p[|path|]], p);
    case _ =>
  }

  lemma {:induction false} NamedIdsAreRefIds(name: string, t: Tree)
    ensures NamedIds(SerializeArgument(name, t)) <= RefIds(t)
  {
    forall id | id in NamedIds(SerializeArgument(name, t)) ensures id in RefIds(t) {
      if !t.RefT? {
        var p :| p in RefPaths(t, []) && id == IdOf(RefAt(t, [], p));
        RefIdsOfRefAt(t, [], p);
      }
    }
  }

  /** Whatever is collected from a tree hangs below one of the references at its paths. */
  lemma {:induction false} RefIdsComeFromPaths(t: Tree, path: Path, id: Uuid) returns (p: Path)
    requires id in RefIds(t)
    ensures p in RefPaths(t, path) && id in RefIds(RefAt(t, path, p))
  {
    match t
    case ListT(items) =>
      var i: nat :| i < |items| && id in RefIds(items[i]);
      p := RefIdsComeFromPaths(items[i], path + [Index(i)], id);
      RefPathsOfChild(t, path, Index(i), items[i], p);
    case DictT(fields) =>
      var k :| k in fields && id in RefIds(fields[k]);
      p := RefIdsComeFromPaths(fields[k], path + [Key(k)], id);
      RefPathsOfChild(t, path, Key(k), fields[k], p);
    case RefT(_, _) => p := path;
  }

  /** The reference that a collected identifier belongs to. */
  lemma {:induction false} RefBehind(t: Tree, id: Uuid) returns (s: RefTree)
    requires id in RefIds(t)
    ensures IdOf(s) == id && (s == t || s < t)
  {
    match t
    case ListT(items) =>
      var i: nat :| i < |items| && id in RefIds(items[i]);
      s := RefBehind(items[i], id);
    case DictT(fields) =>
      var k :| k in fields && id in RefIds(fields[k]);
      s := RefBehind(fields[k], id);
    case RefT(_, args) =>
      if id == IdOf(t) {
        s := t;
      } else {
        var j: nat :| j < |args| && id in RefIds(args[j].value);
        assert args[j] < t;
        s := RefBehind(args[j].value, id);
      }
  }

  /** The collected set is closed: whatever the arguments of a collected reference name is collected. */
  lemma {:induction false} RefIdsClosed(t: Tree, id: Uuid, i: nat)
    requires id in RefIds(t) && i < |id.args|
    ensures NamedIds(id.args[i]) <= RefIds(t)
  {
    match t
    case Leaf(_) =>
    case ListT(items) =>
      var j: nat :| j < |items| && id in RefIds(items[j]);
      RefIdsClosed(items[j], id, i);
    case DictT(fields) =>
      var k :| k in fields && id in RefIds(fields[k]);
      RefIdsClosed(fields[k], id, i);
    case RefT(_, args) =>
      if id == IdOf(t) {
        NamedIdsAreRefIds(args[i].name, args[i].value);
      } else {
        var j: nat :| j < |args| && id in RefIds(args[j].value);
        assert args[j] < t;
        RefIdsClosed(args[j].value, id, i);
      }
  }

  // ---------------------------------------------------------------- identifiers determine references

  /** Equal identifiers belong to equal references: serialisation loses nothing. */
  lemma {:induction false} IdOfInjective(r: RefTree, r': RefTree)
    requires IdOf(r) == IdOf(r')
    ensures r == r'
    decreases r, 0
  {
    assert |IdOf(r).args| == |r.args| && |IdOf(r').args| == |r'.args|;
    forall i | 0 <= i < |r.args| ensures r.args[i] == r'.args[i] {
      assert IdOf(r).args[i] == IdOf(r').args[i];
      assert r.args[i] < r;
      SerializeArgumentInjective(r.args[i].name, r.args[i].value, r'.args[i].name, r'.args[i].value);
    }
  }

  lemma {:induction false} SerializeArgumentInjective(name: string, t: Tree, name': string, t': Tree)
    requires SerializeArgument(name, t) == SerializeArgument(name', t')
    ensures name == name' && t == t'
    decreases t, 2
  {
    match t
    case Leaf(_) =>
    case RefT(_, _) => IdOfInjective(t, t');
    case _ =>
      var a, a' := SerializeArgument(name, t), SerializeArgument(name', t');
      if a.MutatedJsonArgument? {
        assert a.references.Keys == RefPaths(t, []);
        assert a'.references.Keys == RefPaths(t', []);
        forall p | p in RefPaths(t, []) ensures IdOf(RefAt(t, [], p)) == IdOf(RefAt(t', [], p)) {
          assert a.references[p] == a'.references[p];
        }
      }
      CleanAndRefsInjective(t, t', []);
  }

  lemma {:induction false} CleanAndRefsInjective(t: Tree, t': Tree, path: Path)
    requires Clean(t) == Clean(t') && RefPaths(t, path) == RefPaths(t', path)
    requires forall p :: p in RefPaths(t, path) ==> IdOf(RefAt(t, path, p)) == IdOf(RefAt(t', path, p))
    ensures t == t'
    decreases t, 1
  {
    if t.RefT? || t'.RefT? {
      assert path in RefPaths(t, path);
      RefPathsExtend(t, path, path);
      RefPathsExtend(t', path, path);
      IdOfInjective(t, t');
    } else {
      match t
      case Leaf(_) =>
      case ListT(items) =>
        assert |Clean(t').items| == |items|;
        forall i: nat | i < |items| ensures items[i] == t'.items[i] {
          assert Clean(t).items[i] == Clean(t').items[i];
          SameRefsInChild(t, t', path, Index(i), items[i], t'.items[i]);
          CleanAndRefsInjective(items[i], t'.items[i], path + [Index(i)]);
        }
      case DictT(fields) =>
        assert Clean(t).fields.Keys == fields.Keys;
        assert Clean(t').fields.Keys == t'.fields.Keys;
        forall k | k in fields ensures fields[k] == t'.fields[k] {
          assert Clean(t).fields[k] == Clean(t').fields[k];
          SameRefsInChild(t, t', path, Key(k), fields[k], t'.fields[k]);
          CleanAndRefsInjective(fields[k], t'.fields[k], path + [Key(k)]);
        }
    }
  }

  lemma {:induction false} SameRefsInChild(t: Tree, t': Tree, path: Path, step: Step, c: Tree, c': Tree)
    requires IsChild(t, step, c) && IsChild(t', step, c')
    requires RefPaths(t, path) == RefPaths(t', path)
    requires forall p :: p in RefPaths(t, path) ==> IdOf(RefAt(t, path, p)) == IdOf(RefAt(t', path, p))
    ensures RefPaths(c, path + [step]) == RefPaths(c', path + [step])
    ensures forall p :: p in RefPaths(c, path + [step]) ==>
              IdOf(RefAt(c, path + [step], p)) == IdOf(RefAt(c', path + [step], p))
  {
    forall p: Path
      ensures p in RefPaths(c, path + [step]) <==> p in RefPaths(c', path + [step])
      ensures p in RefPaths(c, path + [step]) ==>
                IdOf(RefAt(c, path + [step], p)) == IdOf(RefAt(c', path + [step], p))
    {
      RefPathsOfChild(t, path, step, c, p);
      RefPathsOfChild(t', path, step, c', p);
    }
  }

  /** A reference never depends on itself. */
  lemma {:induction false} ArgumentIds(r: RefTree, i: nat)
    requires i < |r.args|
    ensures RefIds(r.args[i].value) <= RefIds(r) - {IdOf(r)}
    ensures IdOf(r).args[i] == SerializeArgument(r.args[i].name, r.args[i].value)
    ensures IdOf(r).args[i].name == r.args[i].name
  {
    forall id | id in RefIds(r.args[i].value) ensures id in RefIds(r) - {IdOf(r)} {
      var s := RefBehind(r.args[i].value, id);
      assert r.args[i] < r;
      if id == IdOf(r) { IdOfInjective(r, s); }
    }
  }

  lemma {:induction false} OnlyArgumentIds(r: RefTree, known: set<Uuid>)
    requires forall i: nat :: i < |r.args| ==> RefIds(r.args[i].value) <= known
    ensures RefIds(r) - {IdOf(r)} <= known
  {
  }

  // ---------------------------------------------------------------- what the references mean

  /** What resolving a reference of some type does with its resolved arguments: any function. */
  type Resolver = (string, map<string, Value>) -> Value

  /** The original tree with every reference replaced by its resolved value. */
  function Denote(resolve: Resolver, t: Tree): Value {
    match t
    case Leaf(s) => Prim(s)
    case ListT(items) => List(seq(|items|, i requires 0 <= i < |items| => Denote(resolve, items[i])))
    case DictT(fields) => Dict(map k | k in fields :: Denote(resolve, fields[k]))
    case RefT(rtype, args) => resolve(rtype, DenoteArguments(resolve, args))
  }

  /** The keyword arguments of a reference, as a dict comprehension builds them. */
  function DenoteArguments(resolve: Resolver, args: seq<NamedTree>): map<string, Value> {
    if args == [] then map[]
    else
      var last := args[|args| - 1];
      DenoteArguments(resolve, args[..|args| - 1])[last.name := Denote(resolve, last.value)]
  }

  lemma {:induction false} NextArgument(resolve: Resolver, args: seq<NamedTree>, i: nat)
    requires i < |args|
    ensures DenoteArguments(resolve, args[..i + 1])
         == DenoteArguments(resolve, args[..i])[args[i].name := Denote(resolve, args[i].value)]
  {
    assert args[..i + 1][..i] == args[..i];
  }

  /** No two arguments of a reference, at any depth, have one name. */
  ghost predicate NamesDistinct(t: Tree) {
    match t
    case Leaf(_) => true
    case ListT(items) => forall i: nat :: i < |items| ==> NamesDistinct(items[i])
    case DictT(fields) => forall k :: k in fields ==> NamesDistinct(fields[k])
    case RefT(_, args) => DistinctArguments(args) && forall i: nat :: i < |args| ==> NamesDistinct(args[i].value)
  }

  function ArgumentNames(args: seq<NamedTree>): set<string> {
    set i: nat | i < |args| :: args[i].name
  }

  ghost predicate DistinctArguments(args: seq<NamedTree>) {
    forall i, j :: 0 <= i < j < |args| ==> args[i].name != args[j].name
  }

  /** `v` is what `t` stands for: the same value where there is no reference, and for a reference what its resolver
      gives for its type and for a dict that has under the name of each argument what that argument stands for. */
  ghost predicate StandsFor(resolve: Resolver, t: Tree, v: Value) {
    match t
    case Leaf(s) => v == Prim(s)
    case ListT(items) =>
      && v.List? && |v.items| == |items|
      && forall i: nat :: i < |items| ==> StandsFor(resolve, items[i], v.items[i])
    case DictT(fields) =>
      && v.Dict? && v.fields.Keys == fields.Keys
      && forall k :: k in fields ==> StandsFor(resolve, fields[k], v.fields[k])
    case RefT(rtype, args) =>
      exists m: map<string, Value> ::
        && resolve(rtype, m) == v && m.Keys == ArgumentNames(args)
        && forall i: nat :: i < |args| ==> args[i].name in m && StandsFor(resolve, args[i].value, m[args[i].name])
  }

  lemma {:induction false} ArgumentsByName(resolve: Resolver, args: seq<NamedTree>)
    requires DistinctArguments(args)
    ensures DenoteArguments(resolve, args).Keys == ArgumentNames(args)
    ensures forall i: nat :: i < |args| ==>
              DenoteArguments(resolve, args)[args[i].name] == Denote(resolve, args[i].value)
  {
    if args != [] {
      var last := |args| - 1;
      var others := args[..last];
      ArgumentsByName(resolve, others);
      assert forall i: nat :: i < last ==> others[i] == args[i] && args[i].name in ArgumentNames(others);
      assert ArgumentNames(args) == ArgumentNames(others) + {args[last].name};
    }
  }

  /** The value of a reference is what its resolver gives for its type and its arguments by name. */
  lemma {:induction false} ValueOfReference(resolve: Resolver, r: RefTree, m: map<string, Value>)
    requires DistinctArguments(r.args)
    requires m.Keys == ArgumentNames(r.args)
    requires forall i: nat :: i < |r.args| ==> m[r.args[i].name] == Denote(resolve, r.args[i].value)
    ensures Denote(resolve, r) == resolve(r.rtype, m)
  {
    var d := DenoteArguments(resolve, r.args);
    ArgumentsByName(resolve, r.args);
    forall k | k in m ensures k in d && d[k] == m[k] {
      var i: nat :| i < |r.args| && r.args[i].name == k;
    }
    assert m == d;
  }

  ghost predicate StandsForDenotation(resolve: Resolver, t: Tree) {
    forall v :: StandsFor(resolve, t, v) <==> v == Denote(resolve, t)
  }

  lemma {:induction false} ListStandsFor(resolve: Resolver, items: seq<Tree>, v: Value)
    requires forall i: nat :: i < |items| ==> StandsForDenotation(resolve, items[i])
    ensures StandsFor(resolve, ListT(items), v) <==> v == Denote(resolve, ListT(items))
  {
    if v.List? && |v.items| == |items| {
      forall i: nat | i < |items|
        ensures StandsFor(resolve, items[i], v.items[i]) <==> v.items[i] == Denote(resolve, items[i])
      {
        assert StandsForDenotation(resolve, items[i]);
      }
      var d := Denote(resolve, ListT(items));
      if forall i: nat :: i < |items| ==> v.items[i] == Denote(resolve, items[i]) {
        assert v.items == d.items;
      }
    }
  }

  lemma {:induction false} DictStandsFor(resolve: Resolver, fields: map<string, Tree>, v: Value)
    requires forall k :: k in fields ==> StandsForDenotation(resolve, fields[k])
    ensures StandsFor(resolve, DictT(fields), v) <==> v == Denote(resolve, DictT(fields))
  {
    var d := Denote(resolve, DictT(fields));
    assert d.fields.Keys == fields.Keys;
    if v.Dict? && v.fields.Keys == fields.Keys {
      forall k | k in fields
        ensures StandsFor(resolve, fields[k], v.fields[k]) <==> v.fields[k] == Denote(resolve, fields[k])
      {
        assert StandsForDenotation(resolve, fields[k]);
      }
      if forall k :: k in fields ==> v.fields[k] == Denote(resolve, fields[k]) {
        assert v.fields == d.fields;
      }
    }
  }

  lemma {:induction false} ReferenceStandsFor(resolve: Resolver, r: RefTree, v: Value)
    requires DistinctArguments(r.args)
    requires forall i: nat :: i < |r.args| ==> StandsForDenotation(resolve, r.args[i].value)
    ensures StandsFor(resolve, r, v) <==> v == Denote(resolve, r)
  {
    if StandsFor(resolve, r, v) {
      var m: map<string, Value> :|
        && resolve(r.rtype, m) == v && m.Keys == ArgumentNames(r.args)
        && forall i: nat :: i < |r.args| ==>
             r.args[i].name in m && StandsFor(resolve, r.args[i].value, m[r.args[i].name]);
      hide StandsFor, Denote, ArgumentNames;
      forall i: nat | i < |r.args| ensures m[r.args[i].name] == Denote(resolve, r.args[i].value) {
        assert StandsForDenotation(resolve, r.args[i].value);
      }
      ValueOfReference(resolve, r, m);
    }
    DenotationStands(resolve, r);
  }

  lemma {:induction false} DenotationStands(resolve: Resolver, r: RefTree)
    requires DistinctArguments(r.args)
    requires forall i: nat :: i < |r.args| ==> StandsForDenotation(resolve, r.args[i].value)
    ensures StandsFor(resolve, r, Denote(resolve, r))
  {
    var m := DenoteArguments(resolve, r.args);
    ArgumentsByName(resolve, r.args);
    forall i: nat | i < |r.args|
      ensures r.args[i].name in m && StandsFor(resolve, r.args[i].value, m[r.args[i].name])
    {
      assert r.args[i].name in ArgumentNames(r.args) && StandsForDenotation(resolve, r.args[i].value);
    }
    hide DenoteArguments, StandsForDenotation, ArgumentNames, DistinctArguments;
    assert resolve(r.rtype, m) == Denote(resolve, r);
  }

  /** What a tree stands for is its denotation, and nothing else. */
  lemma {:induction false} DenotesWhatItStandsFor(resolve: Resolver, t: Tree)
    requires NamesDistinct(t)
    ensures StandsForDenotation(resolve, t)
    decreases t
  {
    hide StandsForDenotation;
    match t {
    case Leaf(_) =>
    case ListT(items) =>
      forall i: nat | i < |items| ensures StandsForDenotation(resolve, items[i]) {
        DenotesWhatItStandsFor(resolve, items[i]);
      }
    case DictT(fields) =>
      forall k | k in fields ensures StandsForDenotation(resolve, fields[k]) {
        DenotesWhatItStandsFor(resolve, fields[k]);
      }
    case RefT(_, args) =>
      forall i: nat | i < |args| ensures StandsForDenotation(resolve, args[i].value) {
        assert args[i] < t;
        DenotesWhatItStandsFor(resolve, args[i].value);
      }
    }
    StandsForEach(resolve, t);
  }

  lemma {:induction false} StandsForEach(resolve: Resolver, t: Tree)
    requires NamesDistinct(t)
    requires match t
             case Leaf(_) => true
             case ListT(items) => forall i: nat :: i < |items| ==> StandsForDenotation(resolve, items[i])
             case DictT(fields) => forall k :: k in fields ==> StandsForDenotation(resolve, fields[k])
             case RefT(_, args) => forall i: nat :: i < |args| ==> StandsForDenotation(resolve, args[i].value)
    ensures StandsForDenotation(resolve, t)
  {
    hide StandsFor, Denote;
    forall v ensures StandsFor(resolve, t, v) <==> v == Denote(resolve, t) {
      match t
      case Leaf(s) => LeafStandsFor(resolve, s, v);
      case ListT(items) => ListStandsFor(resolve, items, v);
      case DictT(fields) => DictStandsFor(resolve, fields, v);
      case RefT(_, _) => ReferenceStandsFor(resolve, t, v);
    }
  }

  lemma {:induction false} LeafStandsFor(resolve: Resolver, s: Scalar, v: Value)
    ensures StandsFor(resolve, Leaf(s), v) <==> v == Denote(resolve, Leaf(s))
  {
  }

  /** The cleaned tree after the references at the paths `done` have been filled in. */
  ghost function Partial(resolve: Resolver, t: Tree, path: Path, done: set<Path>): (v: Value)
    ensures t.DictT? ==> v.Dict?
  {
    match t
    case Leaf(s) => Prim(s)
    case ListT(items) => List(seq(|items|, i requires 0 <= i < |items| =>
      Partial(resolve, items[i], path + [Index(i)], done)))
    case DictT(fields) => Dict(map k | k in fields :: Partial(resolve, fields[k], path + [Key(k)], done))
    case RefT(_, _) => if path in done then Denote(resolve, t) else Prim(Null)
  }

  lemma {:induction false} PartialNone(resolve: Resolver, t: Tree, path: Path, done: set<Path>)
    requires RefPaths(t, path) !! done
    ensures Partial(resolve, t, path, done) == Clean(t)
  {
    match t
    case ListT(items) =>
      forall i: nat | i < |items| ensures Partial(resolve, items[i], path + [Index(i)], done) == Clean(items[i]) {
        PartialNone(resolve, items[i], path + [Index(i)], done);
      }
    case DictT(fields) =>
      forall k | k in fields ensures Partial(resolve, fields[k], path + [Key(k)], done) == Clean(fields[k]) {
        PartialNone(resolve, fields[k], path + [Key(k)], done);
      }
    case _ =>
  }

  lemma {:induction false} PartialAll(resolve: Resolver, t: Tree, path: Path, done: set<Path>)
    requires RefPaths(t, path) <= done
    ensures Partial(resolve, t, path, done) == Denote(resolve, t)
  {
    match t
    case ListT(items) =>
      forall i: nat | i < |items|
        ensures Partial(resolve, items[i], path + [Index(i)], done) == Denote(resolve, items[i])
      {
        PartialAll(resolve, items[i], path + [Index(i)], done);
      }
    case DictT(fields) =>
      forall k | k in fields
        ensures Partial(resolve, fields[k], path + [Key(k)], done) == Denote(resolve, fields[k])
      {
        PartialAll(resolve, fields[k], path + [Key(k)], done);
      }
    case _ =>
  }

  /** A tree without a reference at `p` is the same before and after `p` is filled in. */
  lemma {:induction false} PartialElsewhere(resolve: Resolver, t: Tree, path: Path, done: set<Path>, p: Path)
    requires p !in RefPaths(t, path)
    ensures Partial(resolve, t, path, done + {p}) == Partial(resolve, t, path, done)
  {
    match t
    case ListT(items) =>
      forall i: nat | i < |items|
        ensures Partial(resolve, items[i], path + [Index(i)], done + {p})
             == Partial(resolve, items[i], path + [Index(i)], done)
      {
        PartialElsewhere(resolve, items[i], path + [Index(i)], done, p);
      }
    case DictT(fields) =>
      forall k | k in fields
        ensures Partial(resolve, fields[k], path + [Key(k)], done + {p})
             == Partial(resolve, fields[k], path + [Key(k)], done)
      {
        PartialElsewhere(resolve, fields[k], path + [Key(k)], done, p);
      }
    case _ =>
  }

  lemma {:induction false} PartialSiblings(resolve: Resolver, t: Tree, path: Path, done: set<Path>, p: Path,
        step: Step, c: Tree)
    requires p in RefPaths(t, path) && |path| < |p| && p[|path|] != step && IsChild(t, step, c)
    ensures Partial(resolve, c, path + [step], done + {p}) == Partial(resolve, c, path + [step], done)
  {
    RefPathsOfChild(t, path, step, c, p);
    PartialElsewhere(resolve, c, path + [step], done, p);
  }

  /** One mutator: writing the value of the reference at `p` fills in exactly that reference. */
  lemma {:induction false} UpdateFillsIn(resolve: Resolver, t: Tree, path: Path, done: set<Path>, p: Path)
    requires p in RefPaths(t, path)
    ensures path <= p
    ensures Update(Partial(resolve, t, path, done), p[|path|..], Denote(resolve, RefAt(t, path, p)))
         == Partial(resolve, t, path, done + {p})
  {
    RefPathsExtend(t, path, p);
    var x, q := Denote(resolve, RefAt(t, path, p)), p[|path|..];
    match t
    case Leaf(_) =>
    case RefT(_, _) =>
    case ListT(items) =>
      var step := p[|path|];
      assert q[1..] == p[|path + [step]|..];
      UpdateFillsIn(resolve, items[step.i], path + [step], done, p);
      FillsInList(resolve, t, path, done, p, x);
    case DictT(fields) =>
      var step := p[|path|];
      assert q[1..] == p[|path + [step]|..];
      UpdateFillsIn(resolve, fields[step.name], path + [step], done, p);
      FillsInDict(resolve, t, path, done, p, x);
  }

  lemma {:induction false} FillsInList(resolve: Resolver, t: Tree, path: Path, done: set<Path>, p: Path, x: Value)
    requires t.ListT? && p in RefPaths(t, path) && path < p
    requires p[|path|].Index? && p[|path|].i < |t.items|
    requires var i := p[|path|].i;
             Update(Partial(resolve, t.items[i], path + [Index(i)], done), p[|path| + 1..], x)
             == Partial(resolve, t.items[i], path + [Index(i)], done + {p})
    ensures Update(Partial(resolve, t, path, done), p[|path|..], x) == Partial(resolve, t, path, done + {p})
  {
    var i, q := p[|path|].i, p[|path|..];
    assert q[1..] == p[|path| + 1..];
    forall j: nat | j < |t.items| && j != i
      ensures Partial(resolve, t.items[j], path + [Index(j)], done + {p})
           == Partial(resolve, t.items[j], path + [Index(j)], done)
    {
      PartialSiblings(resolve, t, path, done, p, Index(j), t.items[j]);
    }
  }

  lemma {:induction false} FillsInDict(resolve: Resolver, t: Tree, path: Path, done: set<Path>, p: Path, x: Value)
    requires t.DictT? && p in RefPaths(t, path) && path < p
    requires p[|path|].Key? && p[|path|].name in t.fields
    requires var k := p[|path|].name;
             Update(Partial(resolve, t.fields[k], path + [Key(k)], done), p[|path| + 1..], x)
             == Partial(resolve, t.fields[k], path + [Key(k)], done + {p})
    ensures Update(Partial(resolve, t, path, done), p[|path|..], x) == Partial(resolve, t, path, done + {p})
  {
    var k, q := p[|path|].name, p[|path|..];
    assert q[1..] == p[|path| + 1..];
    forall j | j in t.fields && j != k
      ensures Partial(resolve, t.fields[j], path + [Key(j)], done + {p})
           == Partial(resolve, t.fields[j], path + [Key(j)], done)
    {
      PartialSiblings(resolve, t, path, done, p, Key(j), t.fields[j]);
    }
  }

  /** Running the updates for the references at `order`, one after the other. */
  ghost function Replay(resolve: Resolver, t: Tree, v: Value, order: seq<Path>): Value
    requires forall p :: p in order ==> p in RefPaths(t, [])
    decreases |order|
  {
    if order == [] then v
    else Replay(resolve, t, Update(v, order[0], Denote(resolve, RefAt(t, [], order[0]))), order[1..])
  }

  lemma {:induction false} ReplayPartial(resolve: Resolver, t: Tree, done: set<Path>, order: seq<Path>)
    requires forall p :: p in order ==> p in RefPaths(t, [])
    ensures Replay(resolve, t, Partial(resolve, t, [], done), order)
         == Partial(resolve, t, [], done + set p | p in order)
    decreases |order|
  {
    if order == [] {
      assert done + (set p | p in order) == done;
    } else {
      UpdateFillsIn(resolve, t, [], done, order[0]);
      assert order[0][0..] == order[0];
      ReplayPartial(resolve, t, done + {order[0]}, order[1..]);
      assert done + {order[0]} + (set p | p in order[1..]) == done + set p | p in order;
    }
  }

  /** Export then resolve: replaying the recorded replacements over the cleaned value, in any order
      and any number of times each as long as none is left out, restores the original tree with
      every reference replaced by its value. */
  lemma {:induction false} ReplayInAnyOrder(resolve: Resolver, t: Tree, order: seq<Path>)
    requires forall p :: p in order <==> p in RefPaths(t, [])
    ensures Replay(resolve, t, Clean(t), order) == Denote(resolve, t)
    ensures Replay(resolve, t, Denote(resolve, t), order) == Denote(resolve, t)
  {
    PartialNone(resolve, t, [], {});
    ReplayPartial(resolve, t, {}, order);
    PartialAll(resolve, t, [], {} + set p | p in order);
    PartialAll(resolve, t, [], RefPaths(t, []));
    ReplayPartial(resolve, t, RefPaths(t, []), order);
    PartialAll(resolve, t, [], RefPaths(t, []) + set p | p in order);
  }
}
