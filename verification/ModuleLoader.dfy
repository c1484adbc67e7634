/** The recursive loading of the modules that a project imports. A name is the list of its parts; which modules
    are installed, which submodules have a file, and what those import, are given. */
module ModuleLoader {
  type Name = n: seq<string> | n != [] witness ["std"]

  datatype Sources = Sources(installed: set<string>, files: map<Name, seq<Name>>)

  datatype Result<T> = Ok(value: T) | ModuleLoadingException(name: Name)

  predicate Loadable(s: Sources, n: Name) {
    n[0] in s.installed && n in s.files
  }

  function Imports(s: Sources, n: Name): seq<Name> {
    if Loadable(s, n) then s.files[n] else []
  }

  /** Loading `m` loads its parent `n`, or is `m` itself. */
  predicate Covers(m: Name, n: Name) {
    n <= m
  }

  // ---------------------------------------------------------------- what is to be loaded

  /** The import `m` is met `k` imports away from those of the project. */
  ghost predicate Met(s: Sources, project: seq<Name>, m: Name, k: nat)
    decreases k
  {
    if k == 0 then m in project
    else exists i: Name, n: Name :: Met(s, project, i, k - 1) && Covers(i, n) && m in Imports(s, n)
  }

  /** `n` or one of its submodules is imported by the project or by a module that is itself wanted. */
  ghost predicate Wanted(s: Sources, project: seq<Name>, n: Name) {
    exists m: Name, k: nat :: Met(s, project, m, k) && Covers(m, n)
  }

  /** The set holds what the project imports and what its members import, with all parents. */
  ghost predicate ClosedUnderImports(s: Sources, project: seq<Name>, names: set<Name>) {
    && (forall m: Name, p: Name :: m in project && Covers(m, p) ==> p in names)
    && forall n: Name, m: Name, p: Name :: n in names && m in Imports(s, n) && Covers(m, p) ==> p in names
  }

  lemma {:induction false} ImportOfWanted(s: Sources, project: seq<Name>, n: Name, m: Name) returns (k: nat)
    requires Wanted(s, project, n) && m in Imports(s, n)
    ensures Met(s, project, m, k)
  {
    var i: Name, j: nat :| Met(s, project, i, j) && Covers(i, n);
    k := j + 1;
  }

  lemma {:induction false} ClosedHoldsMet(s: Sources, project: seq<Name>, names: set<Name>, m: Name, k: nat)
    requires ClosedUnderImports(s, project, names) && Met(s, project, m, k)
    ensures forall p: Name :: Covers(m, p) ==> p in names
    decreases k
  {
    if k > 0 {
      var i: Name, n: Name :| Met(s, project, i, k - 1) && Covers(i, n) && m in Imports(s, n);
      ClosedHoldsMet(s, project, names, i, k - 1);
    }
  }

  /** The wanted names are the least set that is closed under imports and parents. */
  lemma {:induction false} WantedIsLeast(s: Sources, project: seq<Name>, names: set<Name>)
    requires forall n: Name :: n in names <==> Wanted(s, project, n)
    ensures ClosedUnderImports(s, project, names)
    ensures forall other: set<Name> :: ClosedUnderImports(s, project, other) ==> names <= other
  {
    forall m: Name, p: Name | m in project && Covers(m, p) ensures p in names {
      assert Met(s, project, m, 0);
    }
    forall n: Name, m: Name, p: Name | n in names && m in Imports(s, n) && Covers(m, p) ensures p in names {
      var k := ImportOfWanted(s, project, n, m);
    }
    forall other: set<Name>, n: Name | ClosedUnderImports(s, project, other) && n in names ensures n in other {
      var m: Name, k: nat :| Met(s, project, m, k) && Covers(m, n);
      ClosedHoldsMet(s, project, other, m, k);
    }
  }

  // ---------------------------------------------------------------- the result, grouped by top-level module

  /** The submodules per top-level module; the keys of the dict in the order of their insertion. */
  datatype Asts = Asts(keys: seq<string>, names: map<string, seq<Name>>)

  function Flatten(keys: seq<string>, names: map<string, seq<Name>>): seq<Name>
    requires forall t :: t in keys ==> t in names
  {
    if keys == [] then [] else names[keys[0]] + Flatten(keys[1..], names)
  }

  ghost predicate Grouped(a: Asts) {
    && (forall t :: t in a.keys <==> t in a.names)
    && (forall i, j :: 0 <= i < j < |a.keys| ==> a.keys[i] != a.keys[j])
    && forall t, i :: t in a.names && 0 <= i < |a.names[t]| ==> a.names[t][i][0] == t
  }

  /** The values of the dict in order. */
  function Values(a: Asts): seq<Name>
    requires forall t :: t in a.keys ==> t in a.names
  {
    Flatten(a.keys, a.names)
  }

  function Append(a: Asts, n: Name): Asts {
    if n[0] in a.names then a.(names := a.names[n[0] := a.names[n[0]] + [n]])
    else Asts(a.keys + [n[0]], a.names[n[0] := [n]])
  }

  lemma {:induction false} NamesOfKeys(keys: seq<string>, names: map<string, seq<Name>>)
    requires forall t :: t in keys ==> t in names
    requires forall t, i :: t in names && 0 <= i < |names[t]| ==> names[t][i][0] == t
    ensures forall m :: m in Flatten(keys, names) ==> m[0] in keys
  {
    if keys != [] { NamesOfKeys(keys[1..], names); }
  }

  lemma {:induction false} OtherKey(keys: seq<string>, names: map<string, seq<Name>>, t: string, v: seq<Name>)
    requires (forall u :: u in keys ==> u in names) && t !in keys
    ensures Flatten(keys, names[t := v]) == Flatten(keys, names)
  {
    if keys != [] {
      assert keys[0] in keys;
      OtherKey(keys[1..], names, t, v);
    }
  }

  lemma {:induction false} InsertInGroup(keys: seq<string>, names: map<string, seq<Name>>, n: Name)
    returns (before: seq<Name>, after: seq<Name>)
    requires (forall t :: t in keys ==> t in names) && n[0] in keys
    requires forall i, j :: 0 <= i < j < |keys| ==> keys[i] != keys[j]
    requires forall t, i :: t in names && 0 <= i < |names[t]| ==> names[t][i][0] == t
    ensures Flatten(keys, names) == before + after && forall m :: m in after ==> m[0] != n[0]
    ensures Flatten(keys, names[n[0] := names[n[0]] + [n]]) == before + [n] + after
  {
    if keys[0] == n[0] {
      before, after := names[n[0]], Flatten(keys[1..], names);
      NamesOfKeys(keys[1..], names);
      OtherKey(keys[1..], names, n[0], names[n[0]] + [n]);
    } else {
      before, after := InsertInGroup(keys[1..], names, n);
      before := names[keys[0]] + before;
    }
  }

  lemma {:induction false} NewGroup(keys: seq<string>, names: map<string, seq<Name>>, n: Name)
    requires (forall t :: t in keys ==> t in names) && n[0] !in names
    ensures Flatten(keys + [n[0]], names[n[0] := [n]]) == Flatten(keys, names) + [n]
  {
    if keys != [] {
      assert keys[0] in keys && (keys + [n[0]])[1..] == keys[1..] + [n[0]];
      NewGroup(keys[1..], names, n);
    }
  }

  /** The new name comes after all others of its module, and nothing else moves. */
  lemma {:induction false} AppendInserts(a: Asts, n: Name) returns (before: seq<Name>, after: seq<Name>)
    requires Grouped(a)
    ensures Grouped(Append(a, n))
    ensures Values(a) == before + after && Values(Append(a, n)) == before + [n] + after
    ensures forall m :: m in after ==> m[0] != n[0]
  {
    if n[0] in a.names {
      before, after := InsertInGroup(a.keys, a.names, n);
    } else {
      before, after := Values(a), [];
      NewGroup(a.keys, a.names, n);
    }
  }

  ghost predicate Distinct(names: seq<Name>) {
    forall i, j :: 0 <= i < j < |names| ==> names[i] != names[j]
  }

  /** Every submodule comes after its parent. */
  ghost predicate ParentsFirst(names: seq<Name>) {
    forall i :: 0 <= i < |names| && |names[i]| > 1 ==> names[i][..|names[i]| - 1] in names[..i]
  }

  lemma {:induction false} InsertKeepsDistinct(before: seq<Name>, after: seq<Name>, n: Name)
    requires Distinct(before + after) && n !in before + after
    ensures Distinct(before + [n] + after)
  {
    var was, now, at := before + after, before + [n] + after, |before|;
    forall i, j | 0 <= i < j < |now| ensures now[i] != now[j] {
      assert i != at ==> now[i] == was[if i < at then i else i - 1];
      assert j != at ==> now[j] == was[if j < at then j else j - 1];
    }
  }

  lemma {:induction false} ParentStays(before: seq<Name>, after: seq<Name>, n: Name, i: nat, p: Name)
    requires i <= |before + after| && p in (before + after)[..i]
    ensures p in (before + [n] + after)[..if i < |before| then i else i + 1]
  {
    var now := before + [n] + after;
    var j :| 0 <= j < i && (before + after)[j] == p;
    assert now[if j < |before| then j else j + 1] == p;
  }

  lemma {:induction false} InsertKeepsParents(before: seq<Name>, after: seq<Name>, n: Name)
    requires ParentsFirst(before + after)
    requires |n| > 1 ==> n[..|n| - 1] in before + after
    requires forall m :: m in after ==> m[0] != n[0]
    ensures ParentsFirst(before + [n] + after)
  {
    var now := before + [n] + after;
    forall i | 0 <= i < |now| && |now[i]| > 1 ensures now[i][..|now[i]| - 1] in now[..i] {
      if i == |before| {
        NewParent(before, after, n);
      } else {
        OldParent(before, after, n, i);
      }
    }
  }

  lemma {:induction false} NewParent(before: seq<Name>, after: seq<Name>, n: Name)
    requires |n| > 1 && n[..|n| - 1] in before + after && forall m :: m in after ==> m[0] != n[0]
    ensures n[..|n| - 1] in (before + [n] + after)[..|before|]
  {
    assert n[..|n| - 1][0] == n[0] && (before + [n] + after)[..|before|] == before;
  }

  lemma {:induction false} OldParent(before: seq<Name>, after: seq<Name>, n: Name, i: nat)
    requires ParentsFirst(before + after) && i < |before + after| + 1 && i != |before|
             && |(before + [n] + after)[i]| > 1
    ensures var now := before + [n] + after; now[i][..|now[i]| - 1] in now[..i]
  {
    var now, j := before + [n] + after, if i < |before| then i else i - 1;
    assert (before + after)[j] == now[i];
    ParentStays(before, after, n, j, now[i][..|now[i]| - 1]);
  }

  // ---------------------------------------------------------------- the loader

  /** The imports of what is done are done or queued, `current` being taken from the queue. */
  ghost predicate Progress(s: Sources, project: seq<Name>, imports: seq<Name>, done: set<Name>, current: seq<Name>) {
    && (forall m :: m in project ==> m in done || m in imports || m in current)
    && (forall n, m :: n in done && m in Imports(s, n) ==> m in done || m in imports || m in current)
  }

  ghost predicate AllMet(s: Sources, project: seq<Name>, imports: seq<Name>) {
    forall m :: m in imports ==> exists k: nat :: Met(s, project, m, k)
  }

  ghost predicate DoneOk(s: Sources, project: seq<Name>, done: set<Name>, a: Asts) {
    && (forall n :: n in done ==> Loadable(s, n) && Wanted(s, project, n))
    && (forall n, p: Name :: n in done && Covers(n, p) ==> p in done)
    && Grouped(a) && (forall n :: n in Values(a) <==> n in done) && Distinct(Values(a)) && ParentsFirst(Values(a))
  }

  lemma {:induction false} OneMoreDone(s: Sources, project: seq<Name>, done: set<Name>, a: Asts, n: Name)
    requires DoneOk(s, project, done, a) && n !in done && Loadable(s, n) && Wanted(s, project, n)
    requires |n| > 1 ==> n[..|n| - 1] in done
    ensures DoneOk(s, project, done + {n}, Append(a, n))
    ensures forall t :: t in Append(a, n).keys ==> t in Append(a, n).names
  {
    var before, after := AppendInserts(a, n);
    InsertKeepsDistinct(before, after, n);
    InsertKeepsParents(before, after, n);
    forall p: Name | Covers(n, p) && p != n ensures p in done {
      assert Covers(n[..|n| - 1], p);
    }
  }

  lemma {:induction false} QueuedMet(s: Sources, project: seq<Name>, imports: seq<Name>, n: Name)
    requires AllMet(s, project, imports) && Wanted(s, project, n)
    ensures AllMet(s, project, imports + Imports(s, n))
  {
    forall m | m in Imports(s, n) ensures exists k: nat :: Met(s, project, m, k) {
      var k := ImportOfWanted(s, project, n, m);
    }
  }

  lemma {:induction false} TakeLast(s: Sources, project: seq<Name>, imports: seq<Name>, done: set<Name>)
    requires imports != [] && Progress(s, project, imports, done, []) && AllMet(s, project, imports)
    ensures var last := imports[|imports| - 1];
            && Progress(s, project, imports[..|imports| - 1], done, [last])
            && AllMet(s, project, imports[..|imports| - 1])
            && exists k: nat :: Met(s, project, last, k)
  {
    var last := imports[|imports| - 1];
    var rest := imports[..|imports| - 1];
    assert imports == rest + [last];
    assert forall m :: m in imports <==> m in rest || m in [last];
    assert last in imports;
  }

  lemma {:induction false} CurrentDone(s: Sources, project: seq<Name>, imports: seq<Name>, done: set<Name>, imp: Name)
    requires Progress(s, project, imports, done, [imp]) && imp in done
    ensures Progress(s, project, imports, done, [])
  {
  }

  lemma {:induction false} PartWanted(s: Sources, project: seq<Name>, imp: Name, p: Name)
    requires (exists k: nat :: Met(s, project, imp, k)) && Covers(imp, p)
    ensures Wanted(s, project, p)
  {
  }

  lemma {:induction false} Finished(s: Sources, project: seq<Name>, done: set<Name>, a: Asts)
    requires DoneOk(s, project, done, a) && Progress(s, project, [], done, [])
    requires forall t :: t in a.keys ==> t in a.names
    ensures forall n :: n in Values(a) <==> Wanted(s, project, n)
    ensures Distinct(Values(a)) && ParentsFirst(Values(a)) && forall n :: Wanted(s, project, n) ==> Loadable(s, n)
  {
    assert ClosedUnderImports(s, project, done);
    forall n | Wanted(s, project, n) ensures n in done {
      var m: Name, k: nat :| Met(s, project, m, k) && Covers(m, n);
      ClosedHoldsMet(s, project, done, m, k);
    }
  }

  class Loader {
    const sources: Sources
    const project: seq<Name>
    var imports: seq<Name>
    var done: set<Name>
    var asts: Asts

    ghost predicate Valid(current: seq<Name>)
      reads this
    {
      && DoneOk(sources, project, done, asts) && AllMet(sources, project, imports)
      && Progress(sources, project, imports, done, current)
      && done <= sources.files.Keys && forall t :: t in asts.keys ==> t in asts.names
    }

    constructor (sources: Sources, project: seq<Name>)
      ensures Valid([]) && this.sources == sources && this.project == project
    {
      this.sources, this.project := sources, project;
      imports, done, asts := project, {}, Asts([], map[]);
      new;
      forall m | m in project ensures exists k: nat :: Met(sources, project, m, k) {
        assert Met(sources, project, m, 0);
      }
    }

    /** Loads the parents of the import and the import itself, and queues what they import; fails when one of
        them has no file. */
    method LoadSubModule(imp: Name) returns (missing: bool)
      requires Valid([imp]) && (exists k: nat :: Met(sources, project, imp, k)) && imp[0] in sources.installed
               && imp !in done
      modifies this
      ensures missing ==> exists p: Name :: Covers(imp, p) && Wanted(sources, project, p) && !Loadable(sources, p)
      ensures !missing ==> Valid([]) && old(done) < done
    {
      hide DoneOk, AllMet, Progress, Wanted, Met, Append;
      var i := 1;
      while i <= |imp|
        invariant 1 <= i <= |imp| + 1 && Valid([imp]) && old(done) <= done
        invariant i > 1 ==> imp[..i - 1] in done
      {
        var subs: Name := imp[..i];
        PartWanted(sources, project, imp, subs);
        if subs !in done {
          if subs !in sources.files {
            return true;
          }
          assert i > 1 ==> subs[..|subs| - 1] == imp[..i - 1];
          LoadOne(imp, subs);
        }
        i := i + 1;
      }
      assert imp[..|imp|] == imp;
      CurrentDone(sources, project, imports, done, imp);
      return false;
    }

    method LoadOne(ghost imp: Name, subs: Name)
      requires Valid([imp]) && subs !in done && Loadable(sources, subs) && Wanted(sources, project, subs)
      requires |subs| > 1 ==> subs[..|subs| - 1] in done
      modifies this
      ensures Valid([imp]) && done == old(done) + {subs}
    {
      hide DoneOk, AllMet, Wanted, Append, Covers;
      OneMoreDone(sources, project, done, asts, subs);
      QueuedMet(sources, project, imports, subs);
      done := done + {subs};
      asts := Append(asts, subs);
      imports := imports + sources.files[subs];
    }
  }

  /** Loads every wanted submodule once, parents first, or fails exactly when one of them cannot be loaded. */
  method LoadModuleRecursive(s: Sources, project: seq<Name>) returns (r: Result<seq<Name>>)
    ensures r.Ok? ==> forall n :: n in r.value <==> Wanted(s, project, n)
    ensures r.Ok? ==> Distinct(r.value) && ParentsFirst(r.value)
    ensures r.Ok? <==> forall n :: Wanted(s, project, n) ==> Loadable(s, n)
    ensures r.ModuleLoadingException? ==>
              exists p: Name :: Covers(r.name, p) && Wanted(s, project, p) && !Loadable(s, p)
  {
    hide DoneOk, AllMet, Progress, Wanted, Met;
    var loader := new Loader(s, project);
    while |loader.imports| > 0
      invariant fresh(loader) && loader.Valid([]) && loader.sources == s && loader.project == project
      decreases s.files.Keys - loader.done, |loader.imports|
    {
      TakeLast(s, project, loader.imports, loader.done);
      var imp := loader.imports[|loader.imports| - 1];
      loader.imports := loader.imports[..|loader.imports| - 1];
      if imp in loader.done {
        CurrentDone(s, project, loader.imports, loader.done, imp);
        continue;
      }
      PartWanted(s, project, imp, imp);
      if imp[0] !in s.installed {
        return ModuleLoadingException(imp);
      }
      var missing := loader.LoadSubModule(imp);
      if missing {
        return ModuleLoadingException(imp);
      }
    }
    Finished(s, project, loader.done, loader.asts);
    r := Ok(Values(loader.asts));
  }
}
