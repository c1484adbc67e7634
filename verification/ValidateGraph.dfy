/** The check of the exporter that the requires relation between resources has no cycle. */
module ValidateGraph {
  import opened Wrappers

  /** A resource object; the exporter holds one per id. */
  datatype Resource = Resource(id: string)

  /** The exported resources and what each of them requires. */
  type Graph = map<Resource, set<Resource>>

  ghost predicate Closed(g: Graph) {
    forall r :: r in g ==> g[r] <= g.Keys
  }

  /** Each element requires the one before it. */
  ghost predicate IsChain(g: Graph, c: seq<Resource>) {
    && (forall i :: 0 <= i < |c| ==> c[i] in g)
    && forall i :: 0 < i < |c| ==> c[i - 1] in g[c[i]]
  }

  ghost predicate Distinct(c: seq<Resource>) {
    forall i, j :: 0 <= i < j < |c| ==> c[i] != c[j]
  }

  /** A chain whose start requires its last element. */
  ghost predicate IsCycle(g: Graph, c: seq<Resource>) {
    c != [] && IsChain(g, c) && c[|c| - 1] in g[c[0]]
  }

  ghost predicate HasCycle(g: Graph) {
    exists c :: IsCycle(g, c)
  }

  /** Everything comes after what it requires. */
  ghost predicate IsTopological(g: Graph, order: seq<Resource>) {
    && Distinct(order)
    && forall i :: 0 <= i < |order| ==> order[i] in g && forall d :: d in g[order[i]] ==> d in order[..i]
  }

  lemma {:induction false} ChainClimbs(g: Graph, order: seq<Resource>, c: seq<Resource>, first: nat, k: nat)
    returns (last: nat)
    requires IsTopological(g, order) && IsChain(g, c) && k < |c| && (forall i :: 0 <= i < |c| ==> c[i] in order)
    requires first < |order| && order[first] == c[0]
    ensures first <= last < |order| && order[last] == c[k]
  {
    if k == 0 {
      last := first;
    } else {
      var before := ChainClimbs(g, order, c, first, k - 1);
      last :| 0 <= last < |order| && order[last] == c[k];
      assert c[k - 1] in order[..last];
      var i :| 0 <= i < last && order[i] == c[k - 1];
    }
  }

  /** A topological order of all resources excludes cycles. */
  lemma {:induction false} TopologicalHasNoCycle(g: Graph, order: seq<Resource>)
    requires IsTopological(g, order) && forall r :: r in g ==> r in order
    ensures !HasCycle(g)
  {
    forall c | IsCycle(g, c) ensures false {
      assert c[0] in order;
      var first :| 0 <= first < |order| && order[first] == c[0];
      var last := ChainClimbs(g, order, c, first, |c| - 1);
    }
  }

  lemma {:induction false} AppendDone(g: Graph, order: seq<Resource>, r: Resource)
    requires IsTopological(g, order) && r in g && r !in order && forall d :: d in g[r] ==> d in order
    ensures IsTopological(g, order + [r])
  {
    var order' := order + [r];
    forall i, d | 0 <= i < |order'| && d in g[order'[i]] ensures d in order'[..i] {
      assert order'[..i] == order[..i];
    }
  }

  class DependencyCycleException {
    const start: Resource
    var cycle: seq<Resource>
    var running: bool

    constructor (start: Resource)
      ensures this.start == start && cycle == [start] && running
    {
      this.start, cycle, running := start, [start], true;
    }

    /** Collects the resources that the exception passes, up to the one it started at. */
    method AddToCycle(node: Resource)
      modifies this
      ensures running == (old(running) && node != start)
      ensures cycle == if running then old(cycle) + [node] else old(cycle)
    {
      if node == start {
        running := false;
      } else if running {
        cycle := cycle + [node];
      }
    }
  }

  class CycleFinder {
    const graph: Graph
    var done: set<Resource>
    var working: set<Resource>
    ghost var order: seq<Resource>  // the resources in the order in which they were done

    constructor (graph: Graph)
      ensures this.graph == graph && done == {} && working == {} && order == []
    {
      this.graph, done, working, order := graph, {}, {}, [];
    }

    ghost predicate Valid()
      reads this
    {
      && Closed(graph) && IsTopological(graph, order) && (forall r :: r in done <==> r in order)
      && working <= graph.Keys && done !! working
    }

    /** Either finishes `current`, after everything that it requires, or fails with a cycle, of which the part
        between `current` and a resource that is being worked on may still be missing. */
    method FindCycle(current: Resource) returns (error: Option<DependencyCycleException>)
      requires Valid() && current in graph
      modifies this`done, this`working, this`order
      ensures error.None? ==>
                Valid() && working == old(working) && old(order) <= order && old(done) <= done && current in done
      ensures error.Some? ==> fresh(error.value) && IsPart(error.value.start, error.value.cycle)
      ensures error.Some? && error.value.running ==> Runs(error.value.cycle, current, old(working))
      ensures error.Some? && !error.value.running ==> IsCycle(graph, error.value.cycle)
      decreases graph.Keys - done - working
    {
      if current in done {
        return None;
      }
      if current in working {
        var e := new DependencyCycleException(current);
        return Some(e);
      }
      working := working + {current};
      var todo := graph[current];
      while todo != {}
        invariant Valid() && working == old(working) + {current} && todo <= graph[current]
        invariant old(order) <= order && old(done) <= done
        invariant forall d :: d in graph[current] - todo ==> d in done
        decreases todo
      {
        var dep :| dep in todo;
        var e := FindCycle(dep);
        if e.Some? {
          e.value.AddToCycle(current);
          return e;
        }
        todo := todo - {dep};
      }
      AppendDone(graph, order, current);
      done := done + {current};
      order := order + [current];
      working := working - {current};
      return None;
    }

    ghost predicate IsPart(start: Resource, cycle: seq<Resource>) {
      cycle != [] && cycle[0] == start && IsChain(graph, cycle) && Distinct(cycle)
    }

    /** The chain has come as far as `current`; it started at a resource above and has not passed one yet. */
    ghost predicate Runs(cycle: seq<Resource>, current: Resource, above: set<Resource>) {
      && cycle != [] && cycle[|cycle| - 1] == current && cycle[0] in above
      && forall i :: 0 < i < |cycle| ==> cycle[i] !in above
    }
  }

  /** Fails exactly when some resource requires itself in the end, and then with such a cycle. */
  method Validate(graph: Graph) returns (error: Option<DependencyCycleException>)
    requires Closed(graph)
    ensures error.Some? <==> HasCycle(graph)
    ensures error.Some? ==> IsCycle(graph, error.value.cycle) && Distinct(error.value.cycle)
    ensures error.Some? ==> error.value.cycle[0] == error.value.start
    ensures error.None? ==> exists order :: IsTopological(graph, order) && forall r :: r in order <==> r in graph
  {
    var finder := new CycleFinder(graph);
    var todo := graph.Keys;
    while todo != {}
      invariant finder.Valid() && finder.graph == graph && finder.working == {} && todo <= graph.Keys
      invariant forall r :: r in graph.Keys - todo ==> r in finder.done
      invariant fresh(finder)
    {
      var res :| res in todo;
      if res !in finder.done {
        finder.working := {};
        error := finder.FindCycle(res);
        if error.Some? {
          return;
        }
      }
      todo := todo - {res};
    }
    TopologicalHasNoCycle(graph, finder.order);
    error := None;
  }
}
