/** The dependency tree of a set of Python distributions, computed by a fold with an accumulator. */
module DependencyTree {
  type Name = string

  /** The installed distributions, each with the names of its requirements whose marker applies. */
  type WorkingSet = map<Name, seq<Name>>

  function Tree(installed: WorkingSet, dists: seq<Name>, acc: set<Name>): (tree: set<Name>)
    ensures acc <= tree && forall d :: d in dists ==> d in tree
    decreases installed.Keys - acc, |dists|
  {
    if dists == [] then acc
    else
      var acc' := TreeSingle(installed, acc, dists[0]);
      assert installed.Keys - acc' <= installed.Keys - acc;
      Tree(installed, dists[1..], acc')
  }

  function TreeSingle(installed: WorkingSet, acc: set<Name>, dist: Name): (tree: set<Name>)
    ensures acc <= tree && dist in tree
    decreases installed.Keys - acc, 0
  {
    if dist in acc then acc
    else if dist !in installed then acc + {dist}
    else
      assert dist in (installed.Keys - acc) - (installed.Keys - (acc + {dist}));
      Tree(installed, installed[dist], acc + {dist})
  }

  function GetDependencyTree(installed: WorkingSet, dists: seq<Name>): set<Name> {
    Tree(installed, dists, {})
  }

  // ---------------------------------------------------------------- reachability

  /** The direct dependencies; a distribution that is not installed has none. */
  function Dependencies(installed: WorkingSet, dist: Name): seq<Name> {
    if dist in installed then installed[dist] else []
  }

  /** `x` is `k` dependencies away from `dist`, on a way that avoids `avoid`. */
  ghost predicate Reaches(installed: WorkingSet, dist: Name, x: Name, avoid: set<Name>, k: nat)
    decreases k
  {
    dist !in avoid &&
    if k == 0 then dist == x
    else exists m :: m in Dependencies(installed, dist) && Reaches(installed, m, x, avoid, k - 1)
  }

  ghost predicate Reachable(installed: WorkingSet, dists: seq<Name>, x: Name, avoid: set<Name>) {
    exists d, k: nat :: d in dists && Reaches(installed, d, x, avoid, k)
  }

  lemma {:induction false} AvoidLess(installed: WorkingSet, dist: Name, x: Name, avoid: set<Name>, less: set<Name>,
        k: nat)
    requires Reaches(installed, dist, x, avoid, k) && less <= avoid
    ensures Reaches(installed, dist, x, less, k)
    decreases k
  {
    if k > 0 {
      var m :| m in Dependencies(installed, dist) && Reaches(installed, m, x, avoid, k - 1);
      AvoidLess(installed, m, x, avoid, less, k - 1);
    }
  }

  /** Whatever is new in `tree` has its dependencies there. */
  ghost predicate ClosedBeyond(installed: WorkingSet, tree: set<Name>, acc: set<Name>) {
    forall x, m :: x in tree && x !in acc && m in Dependencies(installed, x) ==> m in tree
  }

  lemma {:induction false} TreeCloses(installed: WorkingSet, dists: seq<Name>, acc: set<Name>)
    ensures ClosedBeyond(installed, Tree(installed, dists, acc), acc)
    decreases installed.Keys - acc, |dists|
  {
    if dists != [] {
      var acc' := TreeSingle(installed, acc, dists[0]);
      assert installed.Keys - acc' <= installed.Keys - acc;
      SingleCloses(installed, acc, dists[0]);
      TreeCloses(installed, dists[1..], acc');
    }
  }

  lemma {:induction false} SingleCloses(installed: WorkingSet, acc: set<Name>, dist: Name)
    ensures ClosedBeyond(installed, TreeSingle(installed, acc, dist), acc)
    decreases installed.Keys - acc, 0
  {
    if dist !in acc && dist in installed {
      assert dist in (installed.Keys - acc) - (installed.Keys - (acc + {dist}));
      TreeCloses(installed, installed[dist], acc + {dist});
    }
  }

  lemma {:induction false} ClosedHoldsReachable(installed: WorkingSet, tree: set<Name>, acc: set<Name>, dist: Name,
        x: Name, k: nat)
    requires ClosedBeyond(installed, tree, acc) && dist in tree && Reaches(installed, dist, x, acc, k)
    ensures x in tree
    decreases k
  {
    if k > 0 {
      var m :| m in Dependencies(installed, dist) && Reaches(installed, m, x, acc, k - 1);
      ClosedHoldsReachable(installed, tree, acc, m, x, k - 1);
    }
  }

  lemma {:induction false} NewIsReachable(installed: WorkingSet, dists: seq<Name>, acc: set<Name>, x: Name)
    requires x in Tree(installed, dists, acc) && x !in acc
    ensures Reachable(installed, dists, x, acc)
    decreases installed.Keys - acc, |dists|
  {
    var acc' := TreeSingle(installed, acc, dists[0]);
    assert installed.Keys - acc' <= installed.Keys - acc;
    if x in acc' {
      var k := NewIsReachableSingle(installed, acc, dists[0], x);
    } else {
      NewIsReachable(installed, dists[1..], acc', x);
      var d, k: nat :| d in dists[1..] && Reaches(installed, d, x, acc', k);
      AvoidLess(installed, d, x, acc', acc, k);
    }
  }

  lemma {:induction false} NewIsReachableSingle(installed: WorkingSet, acc: set<Name>, dist: Name, x: Name)
    returns (k: nat)
    requires x in TreeSingle(installed, acc, dist) && x !in acc
    ensures Reaches(installed, dist, x, acc, k)
    decreases installed.Keys - acc, 0
  {
    if x == dist { return 0; }
    assert dist in (installed.Keys - acc) - (installed.Keys - (acc + {dist}));
    NewIsReachable(installed, installed[dist], acc + {dist}, x);
    var d, j: nat :| d in installed[dist] && Reaches(installed, d, x, acc + {dist}, j);
    AvoidLess(installed, d, x, acc + {dist}, acc, j);
    k := j + 1;
    assert d in Dependencies(installed, dist) && Reaches(installed, d, x, acc, k - 1);
  }

  /** From an accumulator the fold adds exactly what is reachable without passing through it. */
  lemma {:induction false} AddsWhatIsReachable(installed: WorkingSet, dists: seq<Name>, acc: set<Name>, x: Name)
    ensures x in Tree(installed, dists, acc) <==> x in acc || Reachable(installed, dists, x, acc)
  {
    if x in Tree(installed, dists, acc) && x !in acc {
      NewIsReachable(installed, dists, acc, x);
    }
    if Reachable(installed, dists, x, acc) {
      var d, k: nat :| d in dists && Reaches(installed, d, x, acc, k);
      TreeCloses(installed, dists, acc);
      ClosedHoldsReachable(installed, Tree(installed, dists, acc), acc, d, x, k);
    }
  }

  /** The result is exactly what the given distributions reach. */
  lemma {:induction false} TreeIsReachable(installed: WorkingSet, dists: seq<Name>, x: Name)
    ensures x in GetDependencyTree(installed, dists) <==> Reachable(installed, dists, x, {})
  {
    AddsWhatIsReachable(installed, dists, {}, x);
  }

  // ---------------------------------------------------------------- order

  ghost predicate SameElements(a: seq<Name>, b: seq<Name>) {
    forall x :: x in a <==> x in b
  }

  lemma {:induction false} SameReach(installed: WorkingSet, installed': WorkingSet, dist: Name, x: Name, k: nat)
    requires installed.Keys == installed'.Keys
    requires forall d :: d in installed ==> SameElements(installed[d], installed'[d])
    requires Reaches(installed, dist, x, {}, k)
    ensures Reaches(installed', dist, x, {}, k)
    decreases k
  {
    if k > 0 {
      var m :| m in Dependencies(installed, dist) && Reaches(installed, m, x, {}, k - 1);
      SameReach(installed, installed', m, x, k - 1);
      assert m in Dependencies(installed', dist);
    }
  }

  lemma {:induction false} SubTree(installed: WorkingSet, installed': WorkingSet, dists: seq<Name>, dists': seq<Name>)
    requires installed.Keys == installed'.Keys
    requires forall d :: d in installed ==> SameElements(installed[d], installed'[d])
    requires SameElements(dists, dists')
    ensures GetDependencyTree(installed, dists) <= GetDependencyTree(installed', dists')
  {
    forall x | x in GetDependencyTree(installed, dists) ensures x in GetDependencyTree(installed', dists') {
      TreeIsReachable(installed, dists, x);
      var d, k: nat :| d in dists && Reaches(installed, d, x, {}, k);
      SameReach(installed, installed', d, x, k);
      TreeIsReachable(installed', dists', x);
    }
  }

  /** Neither the order of the input nor that of the requirements matters, nor repetitions in either. */
  lemma {:induction false} OrderIsIrrelevant(installed: WorkingSet, installed': WorkingSet, dists: seq<Name>,
        dists': seq<Name>)
    requires installed.Keys == installed'.Keys
    requires forall d :: d in installed ==> SameElements(installed[d], installed'[d])
    requires SameElements(dists, dists')
    ensures GetDependencyTree(installed, dists) == GetDependencyTree(installed', dists')
  {
    SubTree(installed, installed', dists, dists');
    SubTree(installed', installed, dists', dists);
  }

  /** Growing the set in two goes gives the tree of both. */
  lemma {:induction false} TreeOfTree(installed: WorkingSet, dists: seq<Name>, more: seq<Name>)
    ensures Tree(installed, more, GetDependencyTree(installed, dists)) == GetDependencyTree(installed, dists + more)
  {
    FoldConcat(installed, dists, more, {});
  }

  lemma {:induction false} FoldConcat(installed: WorkingSet, dists: seq<Name>, more: seq<Name>, acc: set<Name>)
    ensures Tree(installed, dists + more, acc) == Tree(installed, more, Tree(installed, dists, acc))
    decreases |dists|
  {
    if dists == [] {
      assert dists + more == more;
    } else {
      assert (dists + more)[1..] == dists[1..] + more;
      FoldConcat(installed, dists[1..], more, TreeSingle(installed, acc, dists[0]));
    }
  }
}
