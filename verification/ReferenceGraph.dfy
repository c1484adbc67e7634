/** Reference objects on the compiler side, and the graph they form. */
module ReferenceGraph {
  import opened JsonTrees

  /** An attribute value. Lists and dicts are objects, told apart by their number, and a dict keeps the order in which
      its keys were added. */
  datatype Node =
    | Atom(scalar: Scalar)
    | ListN(address: nat, items: seq<Node>)
    | DictN(address: nat, order: seq<string>, fields: map<string, Node>)
    | RefN(ref: Reference)

  datatype NamedNode = NamedNode(name: string, value: Node)

  datatype ModelState = Unset | CycleToken | Serialized(model: ReferenceModel)

  class Reference {
    const rtype: string
    var args: seq<NamedNode>
    var model: ModelState

    constructor (rtype: string, args: seq<NamedNode>)
      ensures this.rtype == rtype && this.args == args && model == Unset
    {
      this.rtype, this.args, model := rtype, args, Unset;
    }
  }

  datatype Shape = Shape(rtype: string, args: seq<NamedNode>)

  /** The objects of a reference graph, with their types and arguments. */
  type Graph = map<Reference, Shape>

  /** The references in a value, inside lists and dicts but not inside other references. */
  function Refs(n: Node): set<Reference> {
    match n
    case Atom(_) => {}
    case ListN(_, items) => set i: nat, r | i < |items| && r in Refs(items[i]) :: r
    case DictN(_, _, fields) => set k, r | k in fields && r in Refs(fields[k]) :: r
    case RefN(r) => {r}
  }

  function ArgRefs(args: seq<NamedNode>): set<Reference> {
    set i: nat, r | i < |args| && r in Refs(args[i].value) :: r
  }

  /** Every dict lists each of its keys once. */
  ghost predicate Ordered(n: Node) {
    match n
    case ListN(_, items) => forall i: nat :: i < |items| ==> Ordered(items[i])
    case DictN(_, order, fields) =>
      && (forall k :: k in order <==> k in fields)
      && (forall i, j :: 0 <= i < j < |order| ==> order[i] != order[j])
      && forall k :: k in fields ==> Ordered(fields[k])
    case _ => true
  }

  /** Arguments are the entries of a dict, too. */
  ghost predicate OrderedArgs(args: seq<NamedNode>) {
    && (forall i, j :: 0 <= i < j < |args| ==> args[i].name != args[j].name)
    && forall i: nat :: i < |args| ==> Ordered(args[i].value)
  }

  /** A graph that is closed under arguments. */
  ghost predicate Closed(g: Graph) {
    forall r :: r in g ==> ArgRefs(g[r].args) <= g.Keys && OrderedArgs(g[r].args)
  }

  ghost predicate Snapshot(g: Graph)
    reads g.Keys`args
  {
    Closed(g) && forall r :: r in g ==> r.rtype == g[r].rtype && r.args == g[r].args
  }

  function Succ(g: Graph, r: Reference): set<Reference> {
    if r in g then ArgRefs(g[r].args) else {}
  }

  // ---------------------------------------------------------------- cycles

  /** From `r`, some chain of `k` arguments ends at `s`. */
  ghost predicate Leads(g: Graph, r: Reference, s: Reference, k: nat) {
    if k == 0 then r == s
    else exists m :: m in Succ(g, r) && Leads(g, m, s, k - 1)
  }

  /** From a reference in `n`, some chain of arguments leads to a reference that leads to itself. */
  ghost predicate Cyclic(g: Graph, n: Node) {
    exists r, s, j: nat, k: nat ::
      r in Refs(n) && s in g && Leads(g, r, s, j) && k > 0 && Leads(g, s, s, k)
  }

  /** Every chain of arguments that starts at `r` has fewer than `h` links. */
  ghost predicate GroundedRef(g: Graph, r: Reference, h: nat) {
    r in g && h > 0 && forall s :: s in Succ(g, r) ==> GroundedRef(g, s, h - 1)
  }

  ghost predicate Grounded(g: Graph, n: Node, h: nat) {
    forall r :: r in Refs(n) ==> GroundedRef(g, r, h)
  }

  ghost predicate Acyclic(g: Graph, n: Node) {
    exists h: nat :: Grounded(g, n, h)
  }

  lemma {:induction false} GroundedRefMonotone(g: Graph, r: Reference, h: nat, h': nat)
    requires GroundedRef(g, r, h) && h <= h'
    ensures GroundedRef(g, r, h')
  {
    forall s | s in Succ(g, r) ensures GroundedRef(g, s, h' - 1) {
      GroundedRefMonotone(g, s, h - 1, h' - 1);
    }
  }

  /** The least height, which shrinks on the way into a value and across every reference. */
  ghost function Height(g: Graph, n: Node): (h: nat)
    ensures !Acyclic(g, n) ==> h == 0
    ensures Acyclic(g, n) ==> Grounded(g, n, h) && forall k: nat :: Grounded(g, n, k) ==> h <= k
  {
    if Acyclic(g, n) then
      var h: nat :| Grounded(g, n, h);
      LeastHeight(g, n, h)
    else 0
  }

  ghost function LeastHeight(g: Graph, n: Node, h: nat): (l: nat)
    requires Grounded(g, n, h)
    ensures Grounded(g, n, l) && forall k: nat :: Grounded(g, n, k) ==> l <= k
  {
    if h > 0 && Grounded(g, n, h - 1) then LeastHeight(g, n, h - 1)
    else
      assert forall k: nat :: Grounded(g, n, k) ==> h <= k by {
        forall k: nat | k < h && Grounded(g, n, k) ensures false {
          forall r | r in Refs(n) ensures GroundedRef(g, r, h - 1) {
            GroundedRefMonotone(g, r, k, h - 1);
          }
        }
      }
      h
  }

  lemma {:induction false} HeightOfPart(g: Graph, n: Node, c: Node)
    requires Acyclic(g, n) && Refs(c) <= Refs(n)
    ensures Acyclic(g, c) && Height(g, c) <= Height(g, n)
  {
    assert Grounded(g, c, Height(g, n));
  }

  lemma {:induction false} HeightOfArgument(g: Graph, r: Reference, i: nat)
    requires Acyclic(g, RefN(r))
    ensures r in g
    ensures i < |g[r].args| ==> Acyclic(g, g[r].args[i].value) && Height(g, g[r].args[i].value) < Height(g, RefN(r))
  {
    assert GroundedRef(g, r, Height(g, RefN(r)));
    if i < |g[r].args| {
      assert Refs(g[r].args[i].value) <= Succ(g, r);
      assert Grounded(g, g[r].args[i].value, Height(g, RefN(r)) - 1);
    }
  }

  /** A value is acyclic when all its references are. */
  lemma {:induction false} AcyclicParts(g: Graph, n: Node)
    requires forall r :: r in Refs(n) ==> Acyclic(g, RefN(r))
    ensures Acyclic(g, n)
  {
    var h := CommonHeight(g, Refs(n));
    assert Grounded(g, n, h);
  }

  lemma {:induction false} AcyclicContainer(g: Graph, n: Node)
    requires match n
             case ListN(_, items) => forall i: nat :: i < |items| ==> Acyclic(g, items[i])
             case DictN(_, _, fields) => forall k :: k in fields ==> Acyclic(g, fields[k])
             case _ => false
    ensures Acyclic(g, n)
  {
    forall r | r in Refs(n) ensures Acyclic(g, RefN(r)) {
      match n
      case ListN(_, items) =>
        var i: nat :| i < |items| && r in Refs(items[i]);
        HeightOfPart(g, items[i], RefN(r));
      case DictN(_, _, fields) =>
        var k :| k in fields && r in Refs(fields[k]);
        HeightOfPart(g, fields[k], RefN(r));
    }
    AcyclicParts(g, n);
  }

  lemma {:induction false} AcyclicRef(g: Graph, r: Reference)
    requires r in g && forall i: nat :: i < |g[r].args| ==> Acyclic(g, g[r].args[i].value)
    ensures Acyclic(g, RefN(r))
  {
    forall s | s in Succ(g, r) ensures Acyclic(g, RefN(s)) {
      var i: nat :| i < |g[r].args| && s in Refs(g[r].args[i].value);
      HeightOfPart(g, g[r].args[i].value, RefN(s));
    }
    var h := CommonHeight(g, Succ(g, r));
    assert Grounded(g, RefN(r), h + 1);
  }

  lemma {:induction false} CommonHeight(g: Graph, rs: set<Reference>) returns (h: nat)
    requires forall r :: r in rs ==> Acyclic(g, RefN(r))
    ensures forall r :: r in rs ==> GroundedRef(g, r, h)
  {
    if rs == {} {
      h := 0;
    } else {
      var r :| r in rs;
      var h0 := CommonHeight(g, rs - {r});
      var h1 := Height(g, RefN(r));
      assert GroundedRef(g, r, h1);
      h := if h0 < h1 then h1 else h0;
      forall s | s in rs ensures GroundedRef(g, s, h) {
        GroundedRefMonotone(g, s, if s == r then h1 else h0, h);
      }
    }
  }

  lemma {:induction false} LeadsDown(g: Graph, r: Reference, s: Reference, k: nat)
    requires Leads(g, r, s, k) && Acyclic(g, RefN(r))
    ensures Acyclic(g, RefN(s)) && Height(g, RefN(s)) + k <= Height(g, RefN(r))
  {
    if k > 0 {
      var m :| m in Succ(g, r) && Leads(g, m, s, k - 1);
      HeightOfArgument(g, r, 0);
      var i: nat :| i < |g[r].args| && m in Refs(g[r].args[i].value);
      HeightOfArgument(g, r, i);
      HeightOfPart(g, g[r].args[i].value, RefN(m));
      LeadsDown(g, m, s, k - 1);
    }
  }

  lemma {:induction false} AcyclicIsNotCyclic(g: Graph, n: Node)
    requires Acyclic(g, n)
    ensures !Cyclic(g, n)
  {
    forall r, s, j: nat, k: nat |
      r in Refs(n) && s in g && Leads(g, r, s, j) && k > 0 && Leads(g, s, s, k)
      ensures false
    {
      HeightOfPart(g, n, RefN(r));
      LeadsDown(g, r, s, j);
      LeadsDown(g, s, s, k);
    }
  }

  // ---------------------------------------------------------------- the order of the references

  /** The references in a value, in the order in which lists and dicts are gone through. */
  function InOrder(n: Node): seq<Reference>
    decreases n, 1, 0
  {
    match n
    case Atom(_) => []
    case ListN(_, items) => InItems(n, |items|)
    case DictN(_, order, _) => InEntries(n, |order|)
    case RefN(r) => [r]
  }

  /** Those in the first `i` items. */
  function InItems(n: Node, i: nat): seq<Reference>
    requires n.ListN? && i <= |n.items|
    decreases n, 0, i
  {
    if i == 0 then [] else InItems(n, i - 1) + InOrder(n.items[i - 1])
  }

  /** Those in the first `i` entries. */
  function InEntries(n: Node, i: nat): seq<Reference>
    requires n.DictN? && i <= |n.order|
    decreases n, 0, i
  {
    if i == 0 then []
    else
      InEntries(n, i - 1) +
      if n.order[i - 1] in n.fields then
        assert n.fields[n.order[i - 1]] < n;
        InOrder(n.fields[n.order[i - 1]])
      else []
  }

  /** Those in the first `i` arguments. */
  function InArguments(args: seq<NamedNode>, i: nat): seq<Reference>
    requires i <= |args|
  {
    if i == 0 then [] else InArguments(args, i - 1) + InOrder(args[i - 1].value)
  }

  function ArgumentsOf(g: Graph, r: Reference): seq<Reference> {
    if r in g then InArguments(g[r].args, |g[r].args|) else []
  }

  ghost predicate InSomeItem(n: Node, i: nat, r: Reference)
    requires n.ListN? && i <= |n.items|
  {
    exists j: nat :: j < i && r in Refs(n.items[j])
  }

  ghost predicate InSomeEntry(n: Node, i: nat, r: Reference)
    requires n.DictN? && i <= |n.order|
  {
    exists j: nat :: j < i && n.order[j] in n.fields && r in Refs(n.fields[n.order[j]])
  }

  ghost predicate InSomeArgument(args: seq<NamedNode>, i: nat, r: Reference)
    requires i <= |args|
  {
    exists j: nat :: j < i && r in Refs(args[j].value)
  }

  lemma {:induction false} InOrderIsRefs(n: Node)
    requires Ordered(n)
    ensures forall r :: r in InOrder(n) <==> r in Refs(n)
    decreases n, 1, 0
  {
    match n
    case ListN(_, items) => InItemsIsRefs(n, |items|);
    case DictN(_, order, _) => InEntriesIsRefs(n, |order|);
    case _ =>
  }

  lemma {:induction false} IsRef(n: Node, r: Reference)
    requires Ordered(n) && r in InOrder(n)
    ensures r in Refs(n)
  {
    InOrderIsRefs(n);
  }

  lemma {:induction false} InItemsIsRefs(n: Node, i: nat)
    requires n.ListN? && i <= |n.items| && Ordered(n)
    ensures forall r :: r in InItems(n, i) <==> InSomeItem(n, i, r)
    decreases n, 0, i
  {
    if i > 0 {
      InItemsIsRefs(n, i - 1);
      InOrderIsRefs(n.items[i - 1]);
    }
  }

  lemma {:induction false} InEntriesIsRefs(n: Node, i: nat)
    requires n.DictN? && i <= |n.order| && Ordered(n)
    ensures forall r :: r in InEntries(n, i) <==> InSomeEntry(n, i, r)
    decreases n, 0, i
  {
    if i > 0 {
      InEntriesIsRefs(n, i - 1);
      assert n.fields[n.order[i - 1]] < n;
      InOrderIsRefs(n.fields[n.order[i - 1]]);
    }
  }

  lemma {:induction false} InArgumentsIsRefs(args: seq<NamedNode>, i: nat)
    requires i <= |args| && OrderedArgs(args)
    ensures forall r :: r in InArguments(args, i) <==> InSomeArgument(args, i, r)
  {
    if i > 0 {
      InArgumentsIsRefs(args, i - 1);
      InOrderIsRefs(args[i - 1].value);
    }
  }

  lemma {:induction false} ArgumentsAreSucc(g: Graph, r: Reference)
    requires Closed(g)
    ensures forall s :: s in ArgumentsOf(g, r) <==> s in Succ(g, r)
  {
    if r in g { InArgumentsIsRefs(g[r].args, |g[r].args|); }
  }

  // ---------------------------------------------------------------- the tree behind a value

  /** The value with every reference unfolded into its type and arguments. */
  ghost function TreeOf(g: Graph, n: Node): (t: Tree)
    requires Acyclic(g, n)
    ensures n.RefN? <==> t.RefT?
    ensures n.Atom? <==> t.Leaf?
    ensures n.DictN? <==> t.DictT?
    decreases Height(g, n), n
  {
    match n
    case Atom(s) => Leaf(s)
    case ListN(_, items) =>
      ListT(seq(|items|, i requires 0 <= i < |items| =>
        HeightOfPart(g, n, items[i]); TreeOf(g, items[i])))
    case DictN(_, _, fields) =>
      DictT(map k | k in fields :: HeightOfPart(g, n, fields[k]); TreeOf(g, fields[k]))
    case RefN(r) =>
      HeightOfArgument(g, r, 0);
      RefT(g[r].rtype, seq(|g[r].args|, i requires 0 <= i < |g[r].args| =>
        HeightOfArgument(g, r, i); Named(g[r].args[i].name, TreeOf(g, g[r].args[i].value))))
  }

  lemma {:induction false} TreeOfReference(g: Graph, r: Reference)
    requires Acyclic(g, RefN(r))
    ensures r in g && TreeOf(g, RefN(r)).rtype == g[r].rtype && |TreeOf(g, RefN(r)).args| == |g[r].args|
    ensures forall i: nat :: i < |g[r].args| ==>
              && Acyclic(g, g[r].args[i].value)
              && TreeOf(g, RefN(r)).args[i] == Named(g[r].args[i].name, TreeOf(g, g[r].args[i].value))
  {
    HeightOfArgument(g, r, 0);
    forall i: nat | i < |g[r].args| ensures Acyclic(g, g[r].args[i].value) {
      HeightOfArgument(g, r, i);
    }
  }

  lemma {:induction false} TreeHasDistinctNames(g: Graph, n: Node)
    requires Closed(g) && Acyclic(g, n)
    ensures NamesDistinct(TreeOf(g, n))
    decreases Height(g, n), n
  {
    match n
    case Atom(_) =>
    case ListN(_, items) =>
      forall i: nat | i < |items| ensures Acyclic(g, items[i]) && NamesDistinct(TreeOf(g, items[i])) {
        HeightOfPart(g, n, items[i]);
        TreeHasDistinctNames(g, items[i]);
      }
    case DictN(_, _, fields) =>
      forall k | k in fields ensures Acyclic(g, fields[k]) && NamesDistinct(TreeOf(g, fields[k])) {
        HeightOfPart(g, n, fields[k]);
        TreeHasDistinctNames(g, fields[k]);
      }
    case RefN(r) =>
      TreeOfReference(g, r);
      forall i: nat | i < |g[r].args| ensures NamesDistinct(TreeOf(g, n).args[i].value) {
        HeightOfArgument(g, r, i);
        TreeHasDistinctNames(g, g[r].args[i].value);
      }
  }
}
