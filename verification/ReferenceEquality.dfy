/** Comparing references with ==: by identity, then by type, then by arguments, which may hold references again. */
module ReferenceEquality {
  import opened JsonTrees
  import opened ReferenceGraph
  import opened Wrappers

  // ---------------------------------------------------------------- the comparison

  /** The number that a scalar equals: True is 1, and an int equals a float. */
  function Number(s: Scalar): Option<real> {
    match s
    case Bool(b) => Some(if b then 1.0 else 0.0)
    case Int(n) => Some(n as real)
    case Float(r) => Some(r)
    case _ => None
  }

  predicate ScalarsEqual(s: Scalar, t: Scalar) {
    s == t || (Number(s).Some? && Number(s) == Number(t))
  }

  /** Strings are equal when they are the same, numbers of any kind when they have one value, True counting as 1 and
      False as 0, and nothing else equals null or a string. */
  lemma {:induction false} ScalarEquality(x: string, y: string, m: int, n: int, r: real, q: real, b: bool, d: bool)
    ensures ScalarsEqual(Str(x), Str(y)) <==> x == y
    ensures ScalarsEqual(Int(m), Int(n)) <==> m == n
    ensures ScalarsEqual(Float(r), Float(q)) <==> r == q
    ensures ScalarsEqual(Bool(b), Bool(d)) <==> b == d
    ensures ScalarsEqual(Int(m), Float(r)) <==> m as real == r
    ensures ScalarsEqual(Bool(b), Int(m)) <==> m == if b then 1 else 0
    ensures ScalarsEqual(Bool(b), Float(r)) <==> r == if b then 1.0 else 0.0
    ensures forall s :: ScalarsEqual(Null, s) <==> s.Null?
    ensures forall s :: ScalarsEqual(Str(x), s) ==> s.Str?
  {
    assert m as real == n as real <==> m == n;
  }

  lemma {:induction false} ScalarEqualityIsEquivalence(s: Scalar, t: Scalar, u: Scalar)
    ensures ScalarsEqual(s, s) && (ScalarsEqual(s, t) <==> ScalarsEqual(t, s))
    ensures ScalarsEqual(s, t) && ScalarsEqual(t, u) ==> ScalarsEqual(s, u)
  {
  }

  function ArgsOf(g: Graph, r: Reference): seq<NamedNode> {
    if r in g then g[r].args else []
  }

  function TypeOf(g: Graph, r: Reference): string {
    if r in g then g[r].rtype else ""
  }

  /** The value of the attribute of this name. */
  function Lookup(args: seq<NamedNode>, name: string): (v: Option<Node>)
    ensures v.Some? ==> exists i :: 0 <= i < |args| && args[i].value == v.value
  {
    if args == [] then None
    else if args[0].name == name then Some(args[0].value)
    else
      var v := Lookup(args[1..], name);
      assert v.Some? ==> forall i :: 0 <= i < |args[1..]| ==> args[1..][i] == args[i + 1];
      v
  }

  /** Whether two attribute values are equal, or None for a RecursionError: the comparison of two references takes one
      more of the `limit` nested calls that the interpreter allows. */
  function Compared(g: Graph, m: Node, n: Node, limit: nat): Option<bool>
    decreases 2 * limit, m
  {
    match (m, n)
    case (Atom(s), Atom(t)) => Some(ScalarsEqual(s, t))
    case (ListN(a, items), ListN(b, items')) =>
      if a == b then Some(true) else if |items| != |items'| then Some(false) else ComparedItems(g, m, n, 0, limit)
    case (DictN(a, order, fields), DictN(b, order', fields')) =>
      if a == b then Some(true) else if |fields| != |fields'| then Some(false) else ComparedKeys(g, m, n, 0, limit)
    case (RefN(r), RefN(s)) =>
      if r == s then Some(true)
      else if limit == 0 then None
      else if TypeOf(g, r) != TypeOf(g, s) || |ArgsOf(g, r)| != |ArgsOf(g, s)| then Some(false)
      else ComparedArguments(g, r, s, 0, limit - 1)
    case _ => Some(false)
  }

  /** The items from the `i`th on, up to the first that differs. */
  function ComparedItems(g: Graph, m: Node, n: Node, i: nat, limit: nat): Option<bool>
    requires m.ListN? && n.ListN? && i <= |m.items| == |n.items|
    decreases 2 * limit, m, |m.items| - i
  {
    if i == |m.items| then Some(true)
    else
      var c := Compared(g, m.items[i], n.items[i], limit);
      if c == Some(true) then ComparedItems(g, m, n, i + 1, limit) else c
  }

  /** The entries from the `i`th key of the left dict on. */
  function ComparedKeys(g: Graph, m: Node, n: Node, i: nat, limit: nat): Option<bool>
    requires m.DictN? && n.DictN? && i <= |m.order|
    decreases 2 * limit, m, |m.order| - i
  {
    if i == |m.order| then Some(true)
    else if m.order[i] !in n.fields || m.order[i] !in m.fields then Some(false)
    else
      assert m.fields[m.order[i]] < m;
      var c := Compared(g, m.fields[m.order[i]], n.fields[m.order[i]], limit);
      if c == Some(true) then ComparedKeys(g, m, n, i + 1, limit) else c
  }

  /** The arguments from the `i`th of the left reference on. */
  function ComparedArguments(g: Graph, r: Reference, s: Reference, i: nat, limit: nat): Option<bool>
    requires i <= |ArgsOf(g, r)|
    decreases 2 * limit + 1, |ArgsOf(g, r)| - i
  {
    var args := ArgsOf(g, r);
    if i == |args| then Some(true)
    else
      var other := Lookup(ArgsOf(g, s), args[i].name);
      if other.None? then Some(false)
      else
        var c := Compared(g, args[i].value, other.value, limit);
        if c == Some(true) then ComparedArguments(g, r, s, i + 1, limit) else c
  }

  /** ReferenceLike.__eq__, behind the test for identity that containers make first. */
  function ReferencesEqual(g: Graph, r: Reference, s: Reference, limit: nat): Option<bool> {
    Compared(g, RefN(r), RefN(s), limit)
  }

  method Equal(m: Node, n: Node, limit: nat, ghost g: Graph) returns (c: Option<bool>)
    requires Snapshot(g) && Refs(m) <= g.Keys && Refs(n) <= g.Keys
    ensures c == Compared(g, m, n, limit)
    decreases 2 * limit, m
  {
    match (m, n)
    case (Atom(s), Atom(t)) => c := Some(ScalarsEqual(s, t));
    case (ListN(a, items), ListN(b, items')) =>
      if a == b {
        return Some(true);
      } else if |items| != |items'| {
        return Some(false);
      }
      c := EqualItems(m, n, 0, limit, g);
    case (DictN(a, order, fields), DictN(b, order', fields')) =>
      if a == b {
        return Some(true);
      } else if |fields| != |fields'| {
        return Some(false);
      }
      c := EqualKeys(m, n, 0, limit, g);
    case (RefN(r), RefN(s)) =>
      if r == s {
        return Some(true);
      } else if limit == 0 {
        return None;
      } else if r.rtype != s.rtype || |r.args| != |s.args| {
        return Some(false);
      }
      c := EqualArguments(r, s, 0, limit - 1, g);
    case _ => c := Some(false);
  }

  method EqualItems(m: Node, n: Node, i: nat, limit: nat, ghost g: Graph) returns (c: Option<bool>)
    requires Snapshot(g) && Refs(m) <= g.Keys && Refs(n) <= g.Keys
    requires m.ListN? && n.ListN? && i <= |m.items| == |n.items|
    ensures c == ComparedItems(g, m, n, i, limit)
    decreases 2 * limit, m, |m.items| - i
  {
    if i == |m.items| {
      return Some(true);
    }
    c := Equal(m.items[i], n.items[i], limit, g);
    if c == Some(true) {
      c := EqualItems(m, n, i + 1, limit, g);
    }
  }

  method EqualKeys(m: Node, n: Node, i: nat, limit: nat, ghost g: Graph) returns (c: Option<bool>)
    requires Snapshot(g) && Refs(m) <= g.Keys && Refs(n) <= g.Keys
    requires m.DictN? && n.DictN? && i <= |m.order|
    ensures c == ComparedKeys(g, m, n, i, limit)
    decreases 2 * limit, m, |m.order| - i
  {
    if i == |m.order| {
      return Some(true);
    } else if m.order[i] !in n.fields || m.order[i] !in m.fields {
      return Some(false);
    }
    assert m.fields[m.order[i]] < m;
    c := Equal(m.fields[m.order[i]], n.fields[m.order[i]], limit, g);
    if c == Some(true) {
      c := EqualKeys(m, n, i + 1, limit, g);
    }
  }

  method EqualArguments(r: Reference, s: Reference, i: nat, limit: nat, ghost g: Graph) returns (c: Option<bool>)
    requires Snapshot(g) && r in g && s in g && i <= |r.args|
    ensures i <= |ArgsOf(g, r)| && c == ComparedArguments(g, r, s, i, limit)
    decreases 2 * limit + 1, |r.args| - i
  {
    if i == |r.args| {
      return Some(true);
    }
    var other := Lookup(s.args, r.args[i].name);
    if other.None? {
      return Some(false);
    }
    assert Refs(r.args[i].value) <= ArgRefs(r.args) && Refs(other.value) <= ArgRefs(s.args);
    c := Equal(r.args[i].value, other.value, limit, g);
    if c == Some(true) {
      c := EqualArguments(r, s, i + 1, limit, g);
    }
  }

  // ---------------------------------------------------------------- when it returns

  /** A comparison that returns gives the same answer with a higher limit. */
  lemma {:induction false} HigherLimit(g: Graph, m: Node, n: Node, limit: nat, higher: nat)
    requires limit <= higher && Compared(g, m, n, limit).Some?
    ensures Compared(g, m, n, higher) == Compared(g, m, n, limit)
    decreases 2 * limit, m
  {
    match (m, n)
    case (ListN(a, items), ListN(b, items')) =>
      if a != b && |items| == |items'| { HigherLimitItems(g, m, n, 0, limit, higher); }
    case (DictN(a, order, fields), DictN(b, order', fields')) =>
      if a != b && |fields| == |fields'| { HigherLimitKeys(g, m, n, 0, limit, higher); }
    case (RefN(r), RefN(s)) =>
      if r != s && TypeOf(g, r) == TypeOf(g, s) && |ArgsOf(g, r)| == |ArgsOf(g, s)| {
        HigherLimitArguments(g, r, s, 0, limit - 1, higher - 1);
      }
    case _ =>
  }

  lemma {:induction false} HigherLimitItems(g: Graph, m: Node, n: Node, i: nat, limit: nat, higher: nat)
    requires m.ListN? && n.ListN? && i <= |m.items| == |n.items|
    requires limit <= higher && ComparedItems(g, m, n, i, limit).Some?
    ensures ComparedItems(g, m, n, i, higher) == ComparedItems(g, m, n, i, limit)
    decreases 2 * limit, m, |m.items| - i
  {
    if i < |m.items| {
      HigherLimit(g, m.items[i], n.items[i], limit, higher);
      if Compared(g, m.items[i], n.items[i], limit) == Some(true) { HigherLimitItems(g, m, n, i + 1, limit, higher); }
    }
  }

  lemma {:induction false} HigherLimitKeys(g: Graph, m: Node, n: Node, i: nat, limit: nat, higher: nat)
    requires m.DictN? && n.DictN? && i <= |m.order|
    requires limit <= higher && ComparedKeys(g, m, n, i, limit).Some?
    ensures ComparedKeys(g, m, n, i, higher) == ComparedKeys(g, m, n, i, limit)
    decreases 2 * limit, m, |m.order| - i
  {
    if i < |m.order| && m.order[i] in n.fields && m.order[i] in m.fields {
      assert m.fields[m.order[i]] < m;
      HigherLimit(g, m.fields[m.order[i]], n.fields[m.order[i]], limit, higher);
      if Compared(g, m.fields[m.order[i]], n.fields[m.order[i]], limit) == Some(true) {
        HigherLimitKeys(g, m, n, i + 1, limit, higher);
      }
    }
  }

  lemma {:induction false} HigherLimitArguments(g: Graph, r: Reference, s: Reference, i: nat, limit: nat, higher: nat)
    requires i <= |ArgsOf(g, r)|
    requires limit <= higher && ComparedArguments(g, r, s, i, limit).Some?
    ensures ComparedArguments(g, r, s, i, higher) == ComparedArguments(g, r, s, i, limit)
    decreases 2 * limit + 1, |ArgsOf(g, r)| - i
  {
    var args := ArgsOf(g, r);
    if i < |args| && Lookup(ArgsOf(g, s), args[i].name).Some? {
      var other := Lookup(ArgsOf(g, s), args[i].name).value;
      HigherLimit(g, args[i].value, other, limit, higher);
      if Compared(g, args[i].value, other, limit) == Some(true) { HigherLimitArguments(g, r, s, i + 1, limit, higher); }
    }
  }

  /** The first `i` arguments are scalars with the same values. */
  ghost predicate SameScalars(g: Graph, r: Reference, s: Reference, i: nat)
    requires i <= |ArgsOf(g, r)|
  {
    forall j :: 0 <= j < i ==>
      && ArgsOf(g, r)[j].value.Atom?
      && var other := Lookup(ArgsOf(g, s), ArgsOf(g, r)[j].name);
         other.Some? && other.value.Atom? && ScalarsEqual(ArgsOf(g, r)[j].value.scalar, other.value.scalar)
  }

  /** Two references differ in type, in the number of arguments, or in a scalar argument with only scalars before it. */
  ghost predicate DifferEarly(g: Graph, r: Reference, s: Reference) {
    || TypeOf(g, r) != TypeOf(g, s) || |ArgsOf(g, r)| != |ArgsOf(g, s)|
    || exists i :: 0 <= i < |ArgsOf(g, r)| && SameScalars(g, r, s, i) &&
         var other := Lookup(ArgsOf(g, s), ArgsOf(g, r)[i].name);
         || other.None?
         || (ArgsOf(g, r)[i].value.Atom?
             && (other.value.Atom? ==> !ScalarsEqual(ArgsOf(g, r)[i].value.scalar, other.value.scalar)))
  }

  lemma {:induction false} OverSameScalar(g: Graph, r: Reference, s: Reference, j: nat, limit: nat)
    requires j < |ArgsOf(g, r)| && SameScalars(g, r, s, j + 1)
    ensures ComparedArguments(g, r, s, j, limit) == ComparedArguments(g, r, s, j + 1, limit)
  {
    var m, other := ArgsOf(g, r)[j].value, Lookup(ArgsOf(g, s), ArgsOf(g, r)[j].name);
    assert other.Some? && Compared(g, m, other.value, limit) == Some(true);
    hide SameScalars, Lookup, Compared;
  }

  lemma {:induction false} PastSameScalars(g: Graph, r: Reference, s: Reference, i: nat, j: nat, limit: nat)
    requires j <= i <= |ArgsOf(g, r)| && SameScalars(g, r, s, i)
    ensures ComparedArguments(g, r, s, j, limit) == ComparedArguments(g, r, s, i, limit)
    decreases i - j
  {
    if j < i {
      assert SameScalars(g, r, s, j + 1);
      hide SameScalars, ComparedArguments;
      OverSameScalar(g, r, s, j, limit);
      PastSameScalars(g, r, s, i, j + 1, limit);
    }
  }

  /** Such references are told apart by any interpreter that allows one nested call. */
  lemma {:induction false} EarlyDifferenceIsFound(g: Graph, r: Reference, s: Reference, limit: nat)
    requires r != s && DifferEarly(g, r, s) && limit > 0
    ensures ReferencesEqual(g, r, s, limit) == Some(false)
  {
    if TypeOf(g, r) == TypeOf(g, s) && |ArgsOf(g, r)| == |ArgsOf(g, s)| {
      var i :| 0 <= i < |ArgsOf(g, r)| && SameScalars(g, r, s, i) &&
        var other := Lookup(ArgsOf(g, s), ArgsOf(g, r)[i].name);
        || other.None?
        || (ArgsOf(g, r)[i].value.Atom?
            && (other.value.Atom? ==> !ScalarsEqual(ArgsOf(g, r)[i].value.scalar, other.value.scalar)));
      PastSameScalars(g, r, s, i, 0, limit - 1);
    }
  }

  // ---------------------------------------------------------------- acyclic values

  /** On the left a value whose chains of arguments are shorter than the limit is enough for an answer. */
  lemma {:induction false} AcyclicReturns(g: Graph, m: Node, n: Node, limit: nat)
    requires Acyclic(g, m) && Height(g, m) <= limit
    ensures Compared(g, m, n, limit).Some?
    decreases 2 * limit, m
  {
    match (m, n)
    case (ListN(_, items), ListN(_, items')) => if |items| == |items'| { ItemsReturn(g, m, n, 0, limit); }
    case (DictN(_, _, _), DictN(_, _, _)) => KeysReturn(g, m, n, 0, limit);
    case (RefN(r), RefN(s)) =>
      HeightOfArgument(g, r, 0);
      assert GroundedRef(g, r, Height(g, m));
      ArgumentsReturn(g, r, s, 0, limit - 1);
    case _ =>
  }

  lemma {:induction false} ItemsReturn(g: Graph, m: Node, n: Node, i: nat, limit: nat)
    requires m.ListN? && n.ListN? && i <= |m.items| == |n.items| && Acyclic(g, m) && Height(g, m) <= limit
    ensures ComparedItems(g, m, n, i, limit).Some?
    decreases 2 * limit, m, |m.items| - i
  {
    if i < |m.items| {
      HeightOfPart(g, m, m.items[i]);
      AcyclicReturns(g, m.items[i], n.items[i], limit);
      ItemsReturn(g, m, n, i + 1, limit);
    }
  }

  lemma {:induction false} KeysReturn(g: Graph, m: Node, n: Node, i: nat, limit: nat)
    requires m.DictN? && n.DictN? && i <= |m.order| && Acyclic(g, m) && Height(g, m) <= limit
    ensures ComparedKeys(g, m, n, i, limit).Some?
    decreases 2 * limit, m, |m.order| - i
  {
    if i < |m.order| {
      if m.order[i] in n.fields && m.order[i] in m.fields {
        assert m.fields[m.order[i]] < m;
        HeightOfPart(g, m, m.fields[m.order[i]]);
        AcyclicReturns(g, m.fields[m.order[i]], n.fields[m.order[i]], limit);
      }
      KeysReturn(g, m, n, i + 1, limit);
    }
  }

  lemma {:induction false} ArgumentsReturn(g: Graph, r: Reference, s: Reference, i: nat, limit: nat)
    requires i <= |ArgsOf(g, r)| && Acyclic(g, RefN(r)) && Height(g, RefN(r)) <= limit + 1
    ensures ComparedArguments(g, r, s, i, limit).Some?
    decreases 2 * limit + 1, |ArgsOf(g, r)| - i
  {
    if i < |ArgsOf(g, r)| {
      HeightOfArgument(g, r, i);
      var other := Lookup(ArgsOf(g, s), ArgsOf(g, r)[i].name);
      if other.Some? { AcyclicReturns(g, ArgsOf(g, r)[i].value, other.value, limit); }
      ArgumentsReturn(g, r, s, i + 1, limit);
    }
  }

  /** Trees that are equal but for the order of arguments, and for scalars that are equal numbers. */
  ghost predicate TreesEqual(t: Tree, u: Tree) {
    match (t, u)
    case (Leaf(a), Leaf(b)) => ScalarsEqual(a, b)
    case (ListT(a), ListT(b)) => |a| == |b| && forall i: nat :: i < |a| ==> TreesEqual(a[i], b[i])
    case (DictT(a), DictT(b)) => a.Keys == b.Keys && forall k :: k in a ==> TreesEqual(a[k], b[k])
    case (RefT(a, args), RefT(b, args')) =>
      a == b && |args| == |args'| && forall i: nat :: i < |args| ==> HasEqualArgument(args[i], args')
    case _ => false
  }

  ghost predicate HasEqualArgument(arg: NamedTree, args: seq<NamedTree>)
    decreases arg
  {
    exists j: nat :: j < |args| && args[j].name == arg.name && TreesEqual(arg.value, args[j].value)
  }

  /** The lists and dicts inside a value, and the value itself. */
  ghost function Nodes(n: Node): set<Node> {
    {n} + match n
          case ListN(_, items) => set i: nat, x | i < |items| && x in Nodes(items[i]) :: x
          case DictN(_, _, fields) => set k, x | k in fields && x in Nodes(fields[k]) :: x
          case _ => {}
  }

  ghost predicate SameAddress(m: Node, n: Node) {
    (m.ListN? && n.ListN? && m.address == n.address) || (m.DictN? && n.DictN? && m.address == n.address)
  }

  /** Values that belong to one heap: an address tells what is there, in these values and in the graph. */
  ghost predicate OneHeap(g: Graph, ns: set<Node>) {
    && Closed(g)
    && (forall r, i: nat :: r in g && i < |g[r].args| ==> Nodes(g[r].args[i].value) <= ns)
    && forall m, n {:trigger SameAddress(m, n)} :: m in ns && n in ns && SameAddress(m, n) ==> m == n
  }

  /** A value from there that has a tree. */
  ghost predicate HasTree(g: Graph, ns: set<Node>, n: Node) {
    Nodes(n) <= ns && Ordered(n) && Acyclic(g, n)
  }

  ghost predicate Same(g: Graph, m: Node, n: Node) {
    Acyclic(g, m) && Acyclic(g, n) && TreesEqual(TreeOf(g, m), TreeOf(g, n))
  }

  lemma {:induction false} PartHasTree(g: Graph, ns: set<Node>, n: Node, c: Node)
    requires HasTree(g, ns, n) && ((n.ListN? && c in n.items) || (n.DictN? && c in n.fields.Values))
    ensures HasTree(g, ns, c) && Height(g, c) <= Height(g, n) && c < n
  {
    if n.ListN? {
      var i: nat :| i < |n.items| && n.items[i] == c;
      assert Nodes(c) <= Nodes(n);
    } else {
      var k :| k in n.fields && n.fields[k] == c;
      assert n.fields[k] < n && Nodes(c) <= Nodes(n);
    }
    HeightOfPart(g, n, c);
  }

  lemma {:induction false} ArgumentHasTree(g: Graph, ns: set<Node>, r: Reference, i: nat)
    requires OneHeap(g, ns) && HasTree(g, ns, RefN(r)) && i < |ArgsOf(g, r)|
    ensures HasTree(g, ns, ArgsOf(g, r)[i].value) && Height(g, ArgsOf(g, r)[i].value) < Height(g, RefN(r))
  {
    HeightOfArgument(g, r, i);
  }

  lemma {:induction false} SameLists(g: Graph, ns: set<Node>, m: Node, n: Node)
    requires m.ListN? && n.ListN? && HasTree(g, ns, m) && HasTree(g, ns, n)
    ensures Same(g, m, n) <==>
            |m.items| == |n.items| && forall i: nat :: i < |m.items| ==> Same(g, m.items[i], n.items[i])
  {
    TreeOfList(g, ns, m);
    TreeOfList(g, ns, n);
    hide TreeOf, Acyclic, HasTree;
  }

  lemma {:induction false} TreeOfList(g: Graph, ns: set<Node>, n: Node)
    requires n.ListN? && HasTree(g, ns, n)
    ensures Acyclic(g, n) && |TreeOf(g, n).items| == |n.items|
    ensures forall i: nat :: i < |n.items| ==> Acyclic(g, n.items[i]) && TreeOf(g, n).items[i] == TreeOf(g, n.items[i])
  {
    forall i: nat | i < |n.items| ensures Acyclic(g, n.items[i]) { PartHasTree(g, ns, n, n.items[i]); }
    hide HasTree, Acyclic;
  }

  lemma {:induction false} SameDicts(g: Graph, ns: set<Node>, m: Node, n: Node)
    requires m.DictN? && n.DictN? && HasTree(g, ns, m) && HasTree(g, ns, n)
    ensures Same(g, m, n) <==>
            m.fields.Keys == n.fields.Keys && forall k :: k in m.fields ==> Same(g, m.fields[k], n.fields[k])
  {
    TreeOfDict(g, ns, m);
    TreeOfDict(g, ns, n);
    hide TreeOf, Acyclic, HasTree;
  }

  lemma {:induction false} TreeOfDict(g: Graph, ns: set<Node>, n: Node)
    requires n.DictN? && HasTree(g, ns, n)
    ensures Acyclic(g, n) && TreeOf(g, n).fields.Keys == n.fields.Keys
    ensures forall k :: k in n.fields ==> Acyclic(g, n.fields[k]) && TreeOf(g, n).fields[k] == TreeOf(g, n.fields[k])
  {
    forall k | k in n.fields ensures Acyclic(g, n.fields[k]) { PartHasTree(g, ns, n, n.fields[k]); }
    hide HasTree, Acyclic;
  }

  /** The argument of `s` with the name of the `i`th argument of `r` is equal to it. */
  ghost predicate SameArgument(g: Graph, r: Reference, s: Reference, i: nat)
    requires i < |ArgsOf(g, r)|
  {
    var other := Lookup(ArgsOf(g, s), ArgsOf(g, r)[i].name);
    other.Some? && Same(g, ArgsOf(g, r)[i].value, other.value)
  }

  lemma {:induction false} LookupFinds(args: seq<NamedNode>, j: nat)
    requires j < |args| && forall i, k :: 0 <= i < k < |args| ==> args[i].name != args[k].name
    ensures Lookup(args, args[j].name) == Some(args[j].value)
  {
    if j > 0 {
      assert args[1..][j - 1] == args[j];
      LookupFinds(args[1..], j - 1);
    }
  }

  lemma {:induction false} LookedUp(args: seq<NamedNode>, name: string) returns (j: nat)
    requires Lookup(args, name).Some?
    ensures j < |args| && args[j] == NamedNode(name, Lookup(args, name).value)
  {
    if args[0].name == name {
      j := 0;
    } else {
      j := LookedUp(args[1..], name);
      j := j + 1;
    }
  }

  lemma {:induction false} SameArgumentIsEqual(g: Graph, ns: set<Node>, r: Reference, s: Reference, i: nat)
    requires OneHeap(g, ns) && HasTree(g, ns, RefN(r)) && HasTree(g, ns, RefN(s)) && i < |ArgsOf(g, r)|
    ensures |TreeOf(g, RefN(r)).args| == |ArgsOf(g, r)|
    ensures SameArgument(g, r, s, i) <==> HasEqualArgument(TreeOf(g, RefN(r)).args[i], TreeOf(g, RefN(s)).args)
  {
    TreeOfReference(g, r);
    TreeOfReference(g, s);
    var arg, args := TreeOf(g, RefN(r)).args[i], TreeOf(g, RefN(s)).args;
    hide TreeOf, Acyclic, Lookup, TreesEqual;
    if SameArgument(g, r, s, i) {
      var j := LookedUp(g[s].args, g[r].args[i].name);
      assert args[j].name == arg.name && TreesEqual(arg.value, args[j].value);
    }
    if j: nat :| j < |args| && args[j].name == arg.name && TreesEqual(arg.value, args[j].value) {
      LookupFinds(g[s].args, j);
    }
  }

  lemma {:induction false} SameReferences(g: Graph, ns: set<Node>, r: Reference, s: Reference)
    requires OneHeap(g, ns) && HasTree(g, ns, RefN(r)) && HasTree(g, ns, RefN(s))
    ensures Same(g, RefN(r), RefN(s)) <==>
            && TypeOf(g, r) == TypeOf(g, s) && |ArgsOf(g, r)| == |ArgsOf(g, s)|
            && forall i: nat :: i < |ArgsOf(g, r)| ==> SameArgument(g, r, s, i)
  {
    TreeOfReference(g, r);
    TreeOfReference(g, s);
    forall i: nat | i < |ArgsOf(g, r)|
      ensures SameArgument(g, r, s, i) <==> HasEqualArgument(TreeOf(g, RefN(r)).args[i], TreeOf(g, RefN(s)).args)
    {
      SameArgumentIsEqual(g, ns, r, s, i);
    }
    hide TreeOf, Acyclic, SameArgument, HasEqualArgument;
  }

  /** A value is equal to itself. */
  lemma {:induction false} SameAsItself(g: Graph, ns: set<Node>, n: Node)
    requires OneHeap(g, ns) && HasTree(g, ns, n)
    ensures Same(g, n, n)
    decreases Height(g, n), n
  {
    match n
    case Atom(_) =>
    case ListN(_, items) =>
      forall i: nat | i < |items| ensures Same(g, items[i], items[i]) {
        PartHasTree(g, ns, n, items[i]);
        SameAsItself(g, ns, items[i]);
      }
      SameLists(g, ns, n, n);
    case DictN(_, _, fields) =>
      forall k | k in fields ensures Same(g, fields[k], fields[k]) {
        PartHasTree(g, ns, n, fields[k]);
        SameAsItself(g, ns, fields[k]);
      }
      SameDicts(g, ns, n, n);
    case RefN(r) =>
      forall i: nat | i < |ArgsOf(g, r)| ensures SameArgument(g, r, r, i) {
        ArgumentHasTree(g, ns, r, i);
        SameAsItself(g, ns, ArgsOf(g, r)[i].value);
        LookupFinds(ArgsOf(g, r), i);
      }
      SameReferences(g, ns, r, r);
  }

  lemma {:induction false} OneObject(g: Graph, ns: set<Node>, m: Node, n: Node)
    requires OneHeap(g, ns) && HasTree(g, ns, m) && HasTree(g, ns, n) && SameAddress(m, n)
    ensures Same(g, m, n)
  {
    assert m in Nodes(m) && n in Nodes(n);
    assert m == n;
    hide OneHeap, HasTree, Same;
    SameAsItself(g, ns, m);
  }

  lemma {:induction false} AcyclicReference(g: Graph, r: Reference)
    requires Acyclic(g, RefN(r))
    ensures Height(g, RefN(r)) > 0
  {
    assert GroundedRef(g, r, Height(g, RefN(r)));
  }

  lemma {:induction false} SameAtoms(g: Graph, m: Node, n: Node)
    requires Acyclic(g, m) && Acyclic(g, n)
    ensures Same(g, m, n) <==> TreesEqual(TreeOf(g, m), TreeOf(g, n))
    ensures m.Atom? && n.Atom? ==> (Same(g, m, n) <==> ScalarsEqual(m.scalar, n.scalar))
    ensures m.Atom? != n.Atom? || m.ListN? != n.ListN? || m.DictN? != n.DictN? ==> !Same(g, m, n)
  {
  }

  /** Comparing acyclic values with a limit that is not below the height of the left one decides whether their trees are
      equal. */
  lemma {:induction false} ComparesTrees(g: Graph, ns: set<Node>, m: Node, n: Node, limit: nat)
    requires OneHeap(g, ns) && HasTree(g, ns, m) && HasTree(g, ns, n) && Height(g, m) <= limit
    ensures Compared(g, m, n, limit) == Some(Same(g, m, n))
    ensures Acyclic(g, m) && Acyclic(g, n) && (Same(g, m, n) <==> TreesEqual(TreeOf(g, m), TreeOf(g, n)))
    decreases 2 * limit, m
  {
    SameAtoms(g, m, n);
    hide Same, Acyclic, TreeOf, TreesEqual, OneHeap, Nodes;
    match (m, n)
    case (ListN(a, items), ListN(b, items')) =>
      if a == b {
        OneObject(g, ns, m, n);
      } else {
        SameLists(g, ns, m, n);
        if |items| == |items'| { ComparesItems(g, ns, m, n, 0, limit); }
      }
    case (DictN(a, order, fields), DictN(b, order', fields')) =>
      if a == b {
        OneObject(g, ns, m, n);
      } else {
        SameDicts(g, ns, m, n);
        if |fields| == |fields'| {
          ComparesKeys(g, ns, m, n, 0, limit);
          SameKeys(g, m, n);
        } else {
          assert fields.Keys != fields'.Keys;
        }
      }
    case (RefN(r), RefN(s)) =>
      if r == s {
        SameAsItself(g, ns, m);
      } else {
        AcyclicReference(g, r);
        SameReferences(g, ns, r, s);
        if TypeOf(g, r) == TypeOf(g, s) && |ArgsOf(g, r)| == |ArgsOf(g, s)| {
          ComparesArguments(g, ns, r, s, 0, limit - 1);
        }
      }
    case _ =>
  }

  lemma {:induction false} ComparesItems(g: Graph, ns: set<Node>, m: Node, n: Node, i: nat, limit: nat)
    requires m.ListN? && n.ListN? && i <= |m.items| == |n.items|
    requires OneHeap(g, ns) && HasTree(g, ns, m) && HasTree(g, ns, n) && Height(g, m) <= limit
    ensures ComparedItems(g, m, n, i, limit)
         == Some(forall j: nat :: i <= j < |m.items| ==> Same(g, m.items[j], n.items[j]))
    decreases 2 * limit, m, |m.items| - i
  {
    hide Same, HasTree, OneHeap, Acyclic, TreeOf, TreesEqual;
    if i < |m.items| {
      PartHasTree(g, ns, m, m.items[i]);
      PartHasTree(g, ns, n, n.items[i]);
      ComparesTrees(g, ns, m.items[i], n.items[i], limit);
      ComparesItems(g, ns, m, n, i + 1, limit);
    }
  }

  /** The entries of two dicts under this key of the left one. */
  ghost predicate SameEntry(g: Graph, m: Node, n: Node, j: nat)
    requires m.DictN? && n.DictN? && j < |m.order|
  {
    && m.order[j] in n.fields && m.order[j] in m.fields
    && Same(g, m.fields[m.order[j]], n.fields[m.order[j]])
  }

  lemma {:induction false} ComparesKeys(g: Graph, ns: set<Node>, m: Node, n: Node, i: nat, limit: nat)
    requires m.DictN? && n.DictN? && i <= |m.order|
    requires OneHeap(g, ns) && HasTree(g, ns, m) && HasTree(g, ns, n) && Height(g, m) <= limit
    ensures ComparedKeys(g, m, n, i, limit) == Some(forall j: nat :: i <= j < |m.order| ==> SameEntry(g, m, n, j))
    decreases 2 * limit, m, |m.order| - i
  {
    hide Same, HasTree, OneHeap, Acyclic, TreeOf, TreesEqual;
    if i < |m.order| {
      var k := m.order[i];
      if k in n.fields && k in m.fields {
        PartHasTree(g, ns, m, m.fields[k]);
        PartHasTree(g, ns, n, n.fields[k]);
        ComparesTrees(g, ns, m.fields[k], n.fields[k], limit);
      }
      ComparesKeys(g, ns, m, n, i + 1, limit);
      assert SameEntry(g, m, n, i) <==> k in n.fields && k in m.fields && Same(g, m.fields[k], n.fields[k]);
    }
  }

  /** Dicts of one size are the same when all entries of one are. */
  lemma {:induction false} SameKeys(g: Graph, m: Node, n: Node)
    requires m.DictN? && n.DictN? && Ordered(m) && |m.fields| == |n.fields|
    ensures (forall j: nat :: j < |m.order| ==> SameEntry(g, m, n, j)) <==>
            m.fields.Keys == n.fields.Keys && forall k :: k in m.fields ==> Same(g, m.fields[k], n.fields[k])
  {
    hide Same;
    if forall j: nat :: j < |m.order| ==> SameEntry(g, m, n, j) {
      forall k | k in m.fields ensures k in n.fields && Same(g, m.fields[k], n.fields[k]) {
        var j: nat :| j < |m.order| && m.order[j] == k;
        assert SameEntry(g, m, n, j);
      }
      SameSize(m.fields.Keys, n.fields.Keys);
    }
  }

  lemma {:induction false} SameSize<T>(a: set<T>, b: set<T>)
    requires |a| == |b| && a <= b
    ensures a == b
  {
    assert |b| == |a| + |b - a| by { assert b == a + (b - a); }
  }

  lemma {:induction false} ComparesArguments(g: Graph, ns: set<Node>, r: Reference, s: Reference, i: nat, limit: nat)
    requires i <= |ArgsOf(g, r)| && OneHeap(g, ns) && HasTree(g, ns, RefN(r)) && HasTree(g, ns, RefN(s))
    requires Height(g, RefN(r)) <= limit + 1
    ensures ComparedArguments(g, r, s, i, limit)
         == Some(forall j: nat :: i <= j < |ArgsOf(g, r)| ==> SameArgument(g, r, s, j))
    decreases 2 * limit + 1, |ArgsOf(g, r)| - i
  {
    hide Same, HasTree, OneHeap, Acyclic, TreeOf, TreesEqual;
    if i < |ArgsOf(g, r)| {
      ArgumentHasTree(g, ns, r, i);
      if Lookup(ArgsOf(g, s), ArgsOf(g, r)[i].name).Some? {
        var j := LookedUp(ArgsOf(g, s), ArgsOf(g, r)[i].name);
        ArgumentHasTree(g, ns, s, j);
        ComparesTrees(g, ns, ArgsOf(g, r)[i].value, ArgsOf(g, s)[j].value, limit);
      }
      ComparesArguments(g, ns, r, s, i + 1, limit);
      assert SameArgument(g, r, s, i) ==> Lookup(ArgsOf(g, s), ArgsOf(g, r)[i].name).Some?;
    }
  }

  // ---------------------------------------------------------------- when it does not

  /** Two references of one type that are each other's only argument. */
  ghost predicate Mutual(g: Graph, a: Reference, b: Reference, rtype: string, name: string) {
    && a != b && a in g && b in g
    && g[a] == Shape(rtype, [NamedNode(name, RefN(b))]) && g[b] == Shape(rtype, [NamedNode(name, RefN(a))])
  }

  /** No limit is high enough to compare them. */
  lemma {:induction false} MutualNeverReturns(g: Graph, a: Reference, b: Reference, rtype: string, name: string,
      limit: nat)
    requires Mutual(g, a, b, rtype, name)
    ensures ReferencesEqual(g, a, b, limit) == None
  {
    if limit > 0 {
      MutualNeverReturns(g, b, a, rtype, name, limit - 1);
      assert Lookup(ArgsOf(g, b), name) == Some(RefN(a)) && ArgsOf(g, a)[0] == NamedNode(name, RefN(b));
      assert Compared(g, RefN(b), RefN(a), limit - 1) == None;
      assert ComparedArguments(g, a, b, 0, limit - 1) == None;
    }
  }

  /** Two references with the same two arguments, given in another order, that reach each other through them. */
  ghost predicate Crossed(g: Graph, x: Reference, y: Reference, u: Reference, v: Reference) {
    && x != y && x in g && y in g && u in g && v in g
    && g[x] == Shape("R", [NamedNode("u", RefN(u)), NamedNode("v", RefN(v))])
    && g[y] == Shape("R", [NamedNode("v", RefN(v)), NamedNode("u", RefN(u))])
    && g[u] == Shape("U", [NamedNode("r", RefN(y))]) && g[v] == Shape("V", [NamedNode("r", RefN(x))])
  }

  /** They are equal and on a cycle. */
  lemma {:induction false} EqualOnACycle(g: Graph, x: Reference, y: Reference, u: Reference, v: Reference, limit: nat)
    requires Crossed(g, x, y, u, v) && limit > 0
    ensures ReferencesEqual(g, x, y, limit) == Some(true)
    ensures Leads(g, x, x, 4) && Leads(g, y, y, 4)
  {
    assert Lookup(ArgsOf(g, y), "u") == Some(RefN(u)) && Lookup(ArgsOf(g, y), "v") == Some(RefN(v));
    assert ArgsOf(g, x)[0] == NamedNode("u", RefN(u)) && ArgsOf(g, x)[1] == NamedNode("v", RefN(v));
    assert ComparedArguments(g, x, y, 2, limit - 1) == Some(true);
    assert ComparedArguments(g, x, y, 1, limit - 1) == Some(true);
    assert ComparedArguments(g, x, y, 0, limit - 1) == Some(true);
    assert u in Succ(g, x) by { assert u in Refs(g[x].args[0].value); }
    assert y in Succ(g, u) by { assert y in Refs(g[u].args[0].value); }
    assert v in Succ(g, y) by { assert v in Refs(g[y].args[0].value); }
    assert x in Succ(g, v) by { assert x in Refs(g[v].args[0].value); }
    hide Succ;
    assert Leads(g, x, x, 0) && Leads(g, v, x, 1) && Leads(g, y, x, 2) && Leads(g, u, x, 3);
    assert Leads(g, y, y, 0) && Leads(g, u, y, 1) && Leads(g, x, y, 2) && Leads(g, v, y, 3);
  }
}
