/** Plugins of the compiler: the signature loaded from a Python function, and the check of the arguments of a call. */
module Plugins {
  import opened CallBinding
  import opened Wrappers

  /** What is known of an annotation: whether it is Context. */
  datatype Annotation = ContextType | OtherType

  /** The result of inspect.getfullargspec; the last `defaults` of the positional parameters have a default. */
  datatype ArgSpec = ArgSpec(
    args: seq<string>, defaults: nat, varargs: Option<string>,
    kwonlyargs: seq<string>, kwonlydefaults: set<string>, varkw: Option<string>,
    annotations: map<string, Annotation>)

  datatype PluginArgument = PluginArgument(name: string, position: Option<int>, hasDefault: bool)

  /** A value of the model. */
  datatype Value = Unknown | Known(v: int)

  // ---------------------------------------------------------------- the signature

  ghost predicate Annotated(spec: ArgSpec) {
    && (forall i :: 0 <= i < |spec.args| ==> spec.args[i] in spec.annotations)
    && (forall i :: 0 <= i < |spec.kwonlyargs| ==> spec.kwonlyargs[i] in spec.annotations)
    && (spec.varargs.Some? ==> spec.varargs.value in spec.annotations)
    && (spec.varkw.Some? ==> spec.varkw.value in spec.annotations)
  }

  predicate IsContext(spec: ArgSpec, i: nat)
    requires i < |spec.args|
  {
    spec.args[i] in spec.annotations && spec.annotations[spec.args[i]] == ContextType
  }

  predicate HasDefault(spec: ArgSpec, i: nat) {
    i >= |spec.args| - spec.defaults
  }

  /** The number of Context parameters among the first `n`. */
  function Contexts(spec: ArgSpec, n: nat): (c: nat)
    requires n <= |spec.args|
    ensures c <= n
  {
    if n == 0 then 0 else Contexts(spec, n - 1) + if IsContext(spec, n - 1) then 1 else 0
  }

  /** The last Context parameter among the first `n`, or -1. */
  function LastContext(spec: ArgSpec, n: nat): (c: int)
    requires n <= |spec.args|
    ensures -1 <= c < n && (c >= 0 ==> IsContext(spec, c)) && (c == -1 <==> Contexts(spec, n) == 0)
  {
    if n == 0 then -1 else if IsContext(spec, n - 1) then n - 1 else LastContext(spec, n - 1)
  }

  /** The positional parameters that a model can pass, among the first `n`. */
  function Visible(spec: ArgSpec, n: nat): (ps: seq<Param>)
    requires n <= |spec.args|
    ensures |ps| == n - Contexts(spec, n)
  {
    if n == 0 then []
    else if IsContext(spec, n - 1) then Visible(spec, n - 1)
    else Visible(spec, n - 1) + [Param(spec.args[n - 1], HasDefault(spec, n - 1))]
  }

  function KeywordOnly(spec: ArgSpec): (ps: seq<Param>)
    ensures |ps| == |spec.kwonlyargs|
  {
    seq(|spec.kwonlyargs|, i requires 0 <= i < |spec.kwonlyargs| =>
      Param(spec.kwonlyargs[i], spec.kwonlyargs[i] in spec.kwonlydefaults))
  }

  /** The formal parameters without the Context. */
  function ModelFormals(spec: ArgSpec): Formals {
    Formals(Visible(spec, |spec.args|), KeywordOnly(spec), spec.varargs.Some?, spec.varkw.Some?)
  }

  /** Distinct names, and no more defaults than parameters: what Python demands of a function. */
  ghost predicate IsFunction(spec: ArgSpec) {
    && spec.defaults <= |spec.args|
    && forall i, j :: 0 <= i < j < |spec.args + spec.kwonlyargs| ==>
         (spec.args + spec.kwonlyargs)[i] != (spec.args + spec.kwonlyargs)[j]
  }

  /** What is stored for the first `n` positional parameters: the position counts one Context, wherever it is. */
  function Stored(spec: ArgSpec, n: nat): (stored: seq<PluginArgument>)
    requires n <= |spec.args|
  {
    if n == 0 then []
    else
      var position := n - 1 - if LastContext(spec, n - 1) != -1 then 1 else 0;
      if IsContext(spec, n - 1) then Stored(spec, n - 1)
      else Stored(spec, n - 1) + [PluginArgument(spec.args[n - 1], Some(position), HasDefault(spec, n - 1))]
  }

  function StoredKeywordOnly(spec: ArgSpec, m: nat): (stored: seq<PluginArgument>)
    requires m <= |spec.kwonlyargs|
    ensures |stored| == m
  {
    seq(m, i requires 0 <= i < m => PluginArgument(spec.kwonlyargs[i], None, spec.kwonlyargs[i] in spec.kwonlydefaults))
  }

  /** The dict from names to arguments. */
  function ByName(stored: seq<PluginArgument>): map<string, PluginArgument> {
    if stored == [] then map[] else ByName(stored[..|stored| - 1])[stored[|stored| - 1].name := stored[|stored| - 1]]
  }

  lemma {:induction false} ByNameAppend(stored: seq<PluginArgument>, arg: PluginArgument)
    ensures ByName(stored + [arg]) == ByName(stored)[arg.name := arg]
  {
    assert (stored + [arg])[..|stored|] == stored;
  }

  lemma {:induction false} NextKeywordOnly(spec: ArgSpec, m: nat, stored: seq<PluginArgument>)
    requires m < |spec.kwonlyargs|
    ensures var name, was := spec.kwonlyargs[m], StoredKeywordOnly(spec, m);
            var arg := PluginArgument(name, None, name in spec.kwonlydefaults);
            && ByName(StoredKeywordOnly(spec, m + 1)) == ByName(was)[arg.name := arg]
            && ByName(stored + StoredKeywordOnly(spec, m + 1)) == ByName(stored + was)[arg.name := arg]
  {
    var name, was := spec.kwonlyargs[m], StoredKeywordOnly(spec, m);
    var arg := PluginArgument(name, None, name in spec.kwonlydefaults);
    assert StoredKeywordOnly(spec, m + 1) == was + [arg];
    assert stored + StoredKeywordOnly(spec, m + 1) == stored + was + [arg];
    ByNameAppend(was, arg);
    ByNameAppend(stored + was, arg);
  }

  /** Without their positions, the stored arguments are the parameters that a model can pass. */
  ghost predicate SameParams(stored: seq<PluginArgument>, ps: seq<Param>) {
    && |stored| == |ps|
    && forall k :: 0 <= k < |ps| ==> stored[k].name == ps[k].name && stored[k].hasDefault == ps[k].hasDefault
  }

  lemma {:induction false} StoredAreVisible(spec: ArgSpec, n: nat)
    requires n <= |spec.args|
    ensures SameParams(Stored(spec, n), Visible(spec, n))
    ensures forall k :: 0 <= k < |Stored(spec, n)| ==> Stored(spec, n)[k].position.Some?
  {
    if n > 0 { StoredAreVisible(spec, n - 1); }
  }

  /** A parameter that a model can pass comes after at most one Context. */
  predicate OneContextAtMost(spec: ArgSpec, i: nat)
    requires i < |spec.args|
  {
    IsContext(spec, i) || Contexts(spec, i) <= 1
  }

  predicate PositionsRight(stored: seq<PluginArgument>) {
    forall k :: 0 <= k < |stored| ==> stored[k].position == Some(k)
  }

  lemma {:induction false} OneMoreRight(stored: seq<PluginArgument>, arg: PluginArgument)
    ensures PositionsRight(stored + [arg]) <==> PositionsRight(stored) && arg.position == Some(|stored|)
  {
    var now := stored + [arg];
    assert now[|stored|] == arg;
    if PositionsRight(now) {
      forall k | 0 <= k < |stored| ensures stored[k].position == Some(k) { assert now[k] == stored[k]; }
    }
  }

  lemma {:induction false} OneMorePosition(spec: ArgSpec, i: nat)
    requires i < |spec.args|
    ensures PositionsRight(Stored(spec, i + 1)) <==> PositionsRight(Stored(spec, i)) && OneContextAtMost(spec, i)
  {
    StoredAreVisible(spec, i);
    if !IsContext(spec, i) {
      var position := i - if LastContext(spec, i) != -1 then 1 else 0;
      var arg := PluginArgument(spec.args[i], Some(position), HasDefault(spec, i));
      assert Stored(spec, i + 1) == Stored(spec, i) + [arg];
      hide Stored, PositionsRight, Visible;
      OneMoreRight(Stored(spec, i), arg);
    } else {
      assert Stored(spec, i + 1) == Stored(spec, i) + [];
    }
  }

  predicate AllAfterOneContext(spec: ArgSpec, n: nat)
    requires n <= |spec.args|
  {
    n == 0 || (AllAfterOneContext(spec, n - 1) && OneContextAtMost(spec, n - 1))
  }

  lemma {:induction false} AfterOneContext(spec: ArgSpec, n: nat)
    requires n <= |spec.args|
    ensures AllAfterOneContext(spec, n) <==>
            forall i: nat {:trigger OneContextAtMost(spec, i)} :: i < n ==> OneContextAtMost(spec, i)
  {
    hide OneContextAtMost;
    if n > 0 { AfterOneContext(spec, n - 1); }
  }

  lemma {:induction false} NoPositions(spec: ArgSpec)
    ensures PositionsRight(Stored(spec, 0)) && AllAfterOneContext(spec, 0)
  {
    assert Stored(spec, 0) == [];
  }

  lemma {:induction false} NextPosition(spec: ArgSpec, i: nat)
    requires i < |spec.args| && (PositionsRight(Stored(spec, i)) <==> AllAfterOneContext(spec, i))
    ensures PositionsRight(Stored(spec, i + 1)) <==> AllAfterOneContext(spec, i + 1)
  {
    OneMorePosition(spec, i);
    assert AllAfterOneContext(spec, i + 1) == (AllAfterOneContext(spec, i) && OneContextAtMost(spec, i));
  }

  lemma {:induction false} PositionsUpTo(spec: ArgSpec, n: nat)
    requires n <= |spec.args|
    ensures PositionsRight(Stored(spec, n)) <==> AllAfterOneContext(spec, n)
  {
    hide *;
    if n == 0 {
      NoPositions(spec);
    } else {
      PositionsUpTo(spec, n - 1);
      NextPosition(spec, n - 1);
    }
  }

  /** Every stored position is the index of its argument exactly when at most one Context comes before any of them. */
  lemma {:induction false} PositionsAreIndices(spec: ArgSpec, n: nat)
    requires n <= |spec.args|
    ensures PositionsRight(Stored(spec, n)) <==>
            forall i: nat {:trigger OneContextAtMost(spec, i)} :: i < n ==> OneContextAtMost(spec, i)
  {
    hide Stored, PositionsRight, OneContextAtMost, AllAfterOneContext;
    PositionsUpTo(spec, n);
    AfterOneContext(spec, n);
  }

  lemma {:induction false} FewContexts(spec: ArgSpec, i: nat, n: nat)
    requires i <= n <= |spec.args|
    ensures Contexts(spec, i) <= Contexts(spec, n)
  {
    if i < n { FewContexts(spec, i, n - 1); }
  }

  lemma {:induction false} ByNameFinds(stored: seq<PluginArgument>, ps: seq<Param>, name: string)
    requires SameParams(stored, ps) && DistinctParams(ps)
    ensures name in ByName(stored) <==> IsParam(ps, name)
    ensures name in ByName(stored) ==> ByName(stored)[name] == stored[ParamIndex(ps, name).value]
    decreases |stored|
  {
    if stored != [] {
      var last := |ps| - 1;
      ByNameFinds(stored[..last], ps[..last], name);
      var i, j := ParamIndex(ps, name), ParamIndex(ps[..last], name);
      if j.Some? { assert ps[j.value].name == name; }
      if i.Some? && i.value < last { assert ps[..last][i.value].name == name; }
      if name == ps[last].name { IndexOfParam(ps, last); }
    }
  }

  datatype Error =
    | TooManyPositional
    | MissingPositionalArguments(names: seq<string>)
    | MissingKeywordOnly(keywords: set<string>)
    | UnexpectedKeyword(name: string)
    | MultipleValues(name: string)
    | WrongType(name: string)

  datatype Result<T> = Ok(value: T) | Err(error: Error)

  datatype CheckedArgs = CheckedArgs(args: seq<Value>, kwargs: seq<Keyword<Value>>, unknowns: bool)

  /** Unknown values are passed on; others are validated and converted to the Python domain. */
  function Convert(value: Value, arg: PluginArgument, convert: (PluginArgument, int) -> Option<int>): Option<Value> {
    match value
    case Unknown => Some(Unknown)
    case Known(v) => var converted := convert(arg, v); if converted.Some? then Some(Known(converted.value)) else None
  }

  /** The argument was passed by position. */
  predicate Taken(arg: PluginArgument, given: nat) {
    arg.position.Some? && arg.position.value < given
  }

  /** The positional arguments that are given neither by position nor by name and have no default. */
  function MissingPositional(args: seq<PluginArgument>, given: nat, kws: seq<Keyword<Value>>): (missing: seq<string>)
    ensures missing == [] <==> forall i :: given <= i < |args| ==> IsKeyword(kws, args[i].name) || args[i].hasDefault
  {
    if |args| <= given then []
    else
      var last := args[|args| - 1];
      MissingPositional(args[..|args| - 1], given, kws)
      + if IsKeyword(kws, last.name) || last.hasDefault then [] else [last.name]
  }

  lemma {:induction false} MissingIsListed(args: seq<PluginArgument>, given: nat, kws: seq<Keyword<Value>>, i: nat)
    requires given <= i < |args| && !IsKeyword(kws, args[i].name) && !args[i].hasDefault
    ensures args[i].name in MissingPositional(args, given, kws)
    decreases |args|
  {
    if i < |args| - 1 { MissingIsListed(args[..|args| - 1], given, kws, i); }
  }

  lemma {:induction false} ListedIsMissing(args: seq<PluginArgument>, given: nat, kws: seq<Keyword<Value>>,
        name: string)
    returns (i: nat)
    requires name in MissingPositional(args, given, kws)
    ensures given <= i < |args| && args[i].name == name && !IsKeyword(kws, name) && !args[i].hasDefault
    decreases |args|
  {
    i := |args| - 1;
    if name in MissingPositional(args[..i], given, kws) { i := ListedIsMissing(args[..i], given, kws, name); }
  }

  lemma {:induction false} MissingPositionalAre(args: seq<PluginArgument>, given: nat, kws: seq<Keyword<Value>>,
        name: string)
    ensures name in MissingPositional(args, given, kws) <==>
            exists i :: given <= i < |args| && args[i].name == name && !IsKeyword(kws, name) && !args[i].hasDefault
  {
    if name in MissingPositional(args, given, kws) {
      var i := ListedIsMissing(args, given, kws, name);
    }
    if i: nat :| given <= i < |args| && args[i].name == name && !IsKeyword(kws, name) && !args[i].hasDefault {
      MissingIsListed(args, given, kws, i);
    }
  }

  class Plugin {
    var context: int
    var args: seq<PluginArgument>
    var varArgs: Option<PluginArgument>
    var kwargs: map<string, PluginArgument>
    var varKwargs: Option<PluginArgument>
    var allArgs: map<string, PluginArgument>

    constructor ()
      ensures context == -1
    {
      context := -1;
    }

    ghost predicate Loaded(spec: ArgSpec)
      reads this
    {
      && context == LastContext(spec, |spec.args|)
      && args == Stored(spec, |spec.args|)
      && kwargs == ByName(StoredKeywordOnly(spec, |spec.kwonlyargs|))
      && allArgs == ByName(Stored(spec, |spec.args|) + StoredKeywordOnly(spec, |spec.kwonlyargs|))
      && varArgs == (if spec.varargs.Some? then Some(PluginArgument(spec.varargs.value, None, false)) else None)
      && varKwargs == (if spec.varkw.Some? then Some(PluginArgument(spec.varkw.value, None, false)) else None)
    }

    /** Stores the parameters, or fails with the name of one that has no annotation. */
    method LoadSignature(spec: ArgSpec) returns (missing: Option<string>)
      requires context == -1 && IsFunction(spec)
      modifies this
      ensures missing.None? <==> Annotated(spec)
      ensures missing.Some? ==> missing.value !in spec.annotations
      ensures missing.None? ==> Loaded(spec)
    {
      args, varArgs, kwargs, varKwargs, allArgs := [], None, map[], None, map[];
      if spec.varargs.Some? {
        if spec.varargs.value !in spec.annotations { return spec.varargs; }
        varArgs := Some(PluginArgument(spec.varargs.value, None, false));
      }
      if spec.varkw.Some? {
        if spec.varkw.value !in spec.annotations { return spec.varkw; }
        varKwargs := Some(PluginArgument(spec.varkw.value, None, false));
      }
      missing := LoadPositional(spec);
      if missing.None? {
        missing := LoadKeywordOnly(spec);
      }
    }

    method LoadPositional(spec: ArgSpec) returns (missing: Option<string>)
      requires context == -1 && IsFunction(spec) && args == [] && allArgs == map[]
      modifies `context, `args, `allArgs
      ensures missing.None? ==> context == LastContext(spec, |spec.args|)
      ensures missing.None? ==> args == Stored(spec, |spec.args|) && allArgs == ByName(args)
      ensures missing.None? ==> forall i :: 0 <= i < |spec.args| ==> spec.args[i] in spec.annotations
      ensures missing.Some? ==> missing.value in spec.args && missing.value !in spec.annotations
    {
      assert allArgs == ByName(args);
      hide ByName, Contexts;
      var defaultsStartAt := |spec.args| - spec.defaults;
      for n := 0 to |spec.args|
        invariant context == LastContext(spec, n) && args == Stored(spec, n) && allArgs == ByName(args)
        invariant forall i :: 0 <= i < n ==> spec.args[i] in spec.annotations
      {
        var arg := spec.args[n];
        if arg !in spec.annotations { return Some(arg); }
        if spec.annotations[arg] == ContextType {
          context := n;
          continue;
        }
        var position := n;
        if context != -1 {
          position := position - 1;
        }
        var argument := PluginArgument(arg, Some(position), n >= defaultsStartAt);
        ByNameAppend(args, argument);
        args := args + [argument];
        allArgs := allArgs[arg := argument];
      }
      missing := None;
    }

    method LoadKeywordOnly(spec: ArgSpec) returns (missing: Option<string>)
      requires kwargs == map[] && allArgs == ByName(args)
      modifies `kwargs, `allArgs
      ensures missing.None? ==> kwargs == ByName(StoredKeywordOnly(spec, |spec.kwonlyargs|))
      ensures missing.None? ==> allArgs == ByName(args + StoredKeywordOnly(spec, |spec.kwonlyargs|))
      ensures missing.None? ==> forall i :: 0 <= i < |spec.kwonlyargs| ==> spec.kwonlyargs[i] in spec.annotations
      ensures missing.Some? ==> missing.value in spec.kwonlyargs && missing.value !in spec.annotations
    {
      assert args + StoredKeywordOnly(spec, 0) == args && kwargs == ByName(StoredKeywordOnly(spec, 0));
      hide ByName, StoredKeywordOnly;
      for m := 0 to |spec.kwonlyargs|
        invariant kwargs == ByName(StoredKeywordOnly(spec, m)) && allArgs == ByName(args + StoredKeywordOnly(spec, m))
        invariant forall i :: 0 <= i < m ==> spec.kwonlyargs[i] in spec.annotations
      {
        var arg := spec.kwonlyargs[m];
        if arg !in spec.annotations { return Some(arg); }
        var argument := PluginArgument(arg, None, arg in spec.kwonlydefaults);
        NextKeywordOnly(spec, m, args);
        kwargs := kwargs[arg := argument];
        allArgs := allArgs[arg := argument];
      }
      return None;
    }

    /** The argument at a position that the model passes. */
    function GetArg(position: nat): Option<PluginArgument>
      reads this
    {
      if position < |args| then Some(args[position]) else varArgs
    }

    function GetKwarg(name: string): Option<PluginArgument>
      reads this
    {
      if name in allArgs then Some(allArgs[name]) else varKwargs
    }

    /** The parameter that takes the value at a position. */
    ghost function ArgAt(i: nat): PluginArgument
      requires i < |args| || varArgs.Some?
      reads this
    {
      if i < |args| then args[i] else varArgs.value
    }

    /** The parameter that takes the value of a keyword. */
    ghost function KwargOf(name: string): PluginArgument
      requires name in allArgs || varKwargs.Some?
      reads this
    {
      if name in allArgs then allArgs[name] else varKwargs.value
    }

    /** Accepts a call exactly when the checks pass and every known value can be converted, and converts each in its
        place, as the parameter there says; an unknown stays unknown. */
    method CheckArgs(spec: ArgSpec, values: seq<Value>, kws: seq<Keyword<Value>>,
          convert: (PluginArgument, int) -> Option<int>)
      returns (r: Result<CheckedArgs>)
      requires Loaded(spec) && IsFunction(spec) && DistinctKeywords(kws)
      ensures r.Ok? <==>
                && Accepts(values, kws)
                && (forall i :: 0 <= i < |values| && values[i].Known? ==> convert(ArgAt(i), values[i].v).Some?)
                && forall j :: 0 <= j < |kws| && kws[j].value.Known? ==>
                     convert(KwargOf(kws[j].name), kws[j].value.v).Some?
      ensures r.Ok? ==> |r.value.args| == |values| && |r.value.kwargs| == |kws|
      ensures r.Ok? ==> forall i :: 0 <= i < |values| ==>
                if values[i].Unknown? then r.value.args[i] == Unknown
                else r.value.args[i].Known? && convert(ArgAt(i), values[i].v) == Some(r.value.args[i].v)
      ensures r.Ok? ==> forall j :: 0 <= j < |kws| ==>
                && r.value.kwargs[j].name == kws[j].name
                && var value := r.value.kwargs[j].value;
                   if kws[j].value.Unknown? then value == Unknown
                   else value.Known? && convert(KwargOf(kws[j].name), kws[j].value.v) == Some(value.v)
      ensures r.Ok? ==> (r.value.unknowns <==>
                           || (exists i :: 0 <= i < |values| && values[i].Unknown?)
                           || exists j :: 0 <= j < |kws| && kws[j].value.Unknown?)
      ensures r.Err? ==> Blames(r.error, values, kws, convert)
    {
      hide Loaded, MissingPositional, IsKeyword, Taken, DistinctKeywords, IsFunction;
      if varArgs.None? && |values| > |args| {
        return Err(TooManyPositional);
      }
      var missing := MissingPositional(args, |values|, kws);
      if missing != [] {
        return Err(MissingPositionalArguments(missing));
      }
      var missingKeywords := set name | name in kwargs && !IsKeyword(kws, name) && !kwargs[name].hasDefault;
      if missingKeywords != {} {
        return Err(MissingKeywordOnly(missingKeywords));
      }
      forall name | name in kwargs ensures IsKeyword(kws, name) || kwargs[name].hasDefault {
        assert name !in missingKeywords;
      }
      var byPosition := ConvertArgs(values, convert);
      if byPosition.Err? {
        return Err(byPosition.error);
      }
      var byName := ConvertKwargs(|values|, kws, convert);
      if byName.Err? {
        return Err(byName.error);
      }
      return Ok(CheckedArgs(byPosition.value.0, byName.value.0, byPosition.value.1 || byName.value.1));
    }

    method ConvertArgs(values: seq<Value>, convert: (PluginArgument, int) -> Option<int>)
      returns (r: Result<(seq<Value>, bool)>)
      requires varArgs.Some? || |values| <= |args|
      ensures r.Ok? <==> forall i :: 0 <= i < |values| && values[i].Known? ==> convert(ArgAt(i), values[i].v).Some?
      ensures r.Err? ==>
                r.error.WrongType? && exists i: nat :: i < |values| && WrongAt(values, convert, r.error.name, i)
      ensures r.Ok? ==> |r.value.0| == |values| && (r.value.1 <==> exists i :: 0 <= i < |values| && values[i].Unknown?)
      ensures r.Ok? ==> forall i :: 0 <= i < |values| ==>
                if values[i].Unknown? then r.value.0[i] == Unknown
                else r.value.0[i].Known? && convert(ArgAt(i), values[i].v) == Some(r.value.0[i].v)
    {
      var convertedArgs: seq<Value>, isUnknown := [], false;
      for position := 0 to |values|
        invariant |convertedArgs| == position
        invariant forall i :: 0 <= i < position ==>
                    if values[i].Unknown? then convertedArgs[i] == Unknown
                    else convertedArgs[i].Known? && convert(ArgAt(i), values[i].v) == Some(convertedArgs[i].v)
        invariant isUnknown <==> exists i :: 0 <= i < position && values[i].Unknown?
      {
        var arg := GetArg(position);
        var result := Convert(values[position], arg.value, convert);
        if result.None? {
          assert WrongAt(values, convert, arg.value.name, position);
          return Err(WrongType(arg.value.name));
        }
        isUnknown := isUnknown || values[position].Unknown?;
        convertedArgs := convertedArgs + [result.value];
      }
      return Ok((convertedArgs, isUnknown));
    }

    method ConvertKwargs(given: nat, kws: seq<Keyword<Value>>, convert: (PluginArgument, int) -> Option<int>)
      returns (r: Result<(seq<Keyword<Value>>, bool)>)
      ensures r.Ok? <==> forall j :: 0 <= j < |kws| ==>
                && GetKwarg(kws[j].name).Some? && !Taken(GetKwarg(kws[j].name).value, given)
                && (kws[j].value.Known? ==> convert(KwargOf(kws[j].name), kws[j].value.v).Some?)
      ensures r.Err? ==> r.error.WrongType? || r.error.UnexpectedKeyword? || r.error.MultipleValues?
      ensures r.Err? && r.error.UnexpectedKeyword? ==> IsKeyword(kws, r.error.name) && GetKwarg(r.error.name).None?
      ensures r.Err? && r.error.MultipleValues? ==>
                && IsKeyword(kws, r.error.name) && GetKwarg(r.error.name).Some?
                && Taken(GetKwarg(r.error.name).value, given)
      ensures r.Err? && r.error.WrongType? ==> exists j: nat :: j < |kws| && WrongKeyword(kws, convert, r.error.name, j)
      ensures r.Ok? ==> |r.value.0| == |kws| && (r.value.1 <==> exists j :: 0 <= j < |kws| && kws[j].value.Unknown?)
      ensures r.Ok? ==> forall j :: 0 <= j < |kws| ==>
                && r.value.0[j].name == kws[j].name && GetKwarg(kws[j].name).Some?
                && var value := r.value.0[j].value;
                   if kws[j].value.Unknown? then value == Unknown
                   else value.Known? && convert(KwargOf(kws[j].name), kws[j].value.v) == Some(value.v)
    {
      var convertedKwargs: seq<Keyword<Value>>, isUnknown := [], false;
      for j := 0 to |kws|
        invariant |convertedKwargs| == j
        invariant forall i :: 0 <= i < j ==>
                    && convertedKwargs[i].name == kws[i].name && GetKwarg(kws[i].name).Some?
                    && !Taken(GetKwarg(kws[i].name).value, given)
                    && if kws[i].value.Unknown? then convertedKwargs[i].value == Unknown
                       else convertedKwargs[i].value.Known?
                            && convert(KwargOf(kws[i].name), kws[i].value.v) == Some(convertedKwargs[i].value.v)
        invariant isUnknown <==> exists i :: 0 <= i < j && kws[i].value.Unknown?
      {
        var kwarg := GetKwarg(kws[j].name);
        if kwarg.None? {
          return Err(UnexpectedKeyword(kws[j].name));
        }
        if kwarg.value.position.Some? && kwarg.value.position.value < given {
          return Err(MultipleValues(kws[j].name));
        }
        var result := Convert(kws[j].value, kwarg.value, convert);
        if result.None? {
          assert WrongKeyword(kws, convert, kwarg.value.name, j);
          return Err(WrongType(kwarg.value.name));
        }
        isUnknown := isUnknown || kws[j].value.Unknown?;
        convertedKwargs := convertedKwargs + [Keyword(kws[j].name, result.value)];
      }
      return Ok((convertedKwargs, isUnknown));
    }

    /** The checks that do not look at values. */
    ghost predicate Accepts(values: seq<Value>, kws: seq<Keyword<Value>>)
      reads this
    {
      && (varArgs.Some? || |values| <= |args|)
      && (forall i :: |values| <= i < |args| ==> IsKeyword(kws, args[i].name) || args[i].hasDefault)
      && (forall name :: name in kwargs ==> IsKeyword(kws, name) || kwargs[name].hasDefault)
      && (forall j :: 0 <= j < |kws| ==> GetKwarg(kws[j].name).Some? && !Taken(GetKwarg(kws[j].name).value, |values|))
    }

    /** What each error says of the call. */
    ghost predicate Blames(error: Error, values: seq<Value>, kws: seq<Keyword<Value>>,
          convert: (PluginArgument, int) -> Option<int>)
      reads this
    {
      match error
      case TooManyPositional => varArgs.None? && |values| > |args|
      case MissingPositionalArguments(names) => names != [] && names == MissingPositional(args, |values|, kws)
      case MissingKeywordOnly(names) =>
        && names != {}
        && forall name :: name in names <==> name in kwargs && !IsKeyword(kws, name) && !kwargs[name].hasDefault
      case UnexpectedKeyword(name) => IsKeyword(kws, name) && GetKwarg(name).None?
      case MultipleValues(name) => IsKeyword(kws, name) && GetKwarg(name).Some? && Taken(GetKwarg(name).value, |values|)
      case WrongType(name) =>
        || (exists i: nat :: i < |values| && WrongAt(values, convert, name, i))
        || exists j: nat :: j < |kws| && WrongKeyword(kws, convert, name, j)
    }

    /** This value is known, and the parameter that takes it cannot convert it. */
    ghost predicate WrongAt(values: seq<Value>, convert: (PluginArgument, int) -> Option<int>, name: string, i: nat)
      requires i < |values|
      reads this
    {
      && (i < |args| || varArgs.Some?) && values[i].Known?
      && ArgAt(i).name == name && convert(ArgAt(i), values[i].v).None?
    }

    ghost predicate WrongKeyword(kws: seq<Keyword<Value>>, convert: (PluginArgument, int) -> Option<int>, name: string,
          j: nat)
      requires j < |kws|
      reads this
    {
      && (kws[j].name in allArgs || varKwargs.Some?) && kws[j].value.Known?
      && KwargOf(kws[j].name).name == name && convert(KwargOf(kws[j].name), kws[j].value.v).None?
    }
  }

  // ---------------------------------------------------------------- the check is the binding

  lemma {:induction false} VisibleDistinct(spec: ArgSpec, n: nat)
    requires IsFunction(spec) && n <= |spec.args|
    ensures DistinctParams(Visible(spec, n))
    ensures forall k :: 0 <= k < |Visible(spec, n)| ==> Visible(spec, n)[k].name in spec.args[..n]
  {
    if n > 0 {
      VisibleDistinct(spec, n - 1);
      assert spec.args[..n] == spec.args[..n - 1] + [spec.args[n - 1]];
      assert forall i :: 0 <= i < |spec.args| ==> (spec.args + spec.kwonlyargs)[i] == spec.args[i];
      assert spec.args[n - 1] !in spec.args[..n - 1];
    }
  }

  lemma {:induction false} KeywordOnlyDistinct(spec: ArgSpec)
    requires IsFunction(spec)
    ensures DistinctParams(KeywordOnly(spec))
    ensures forall i, name :: 0 <= i < |spec.kwonlyargs| && name in spec.args ==> KeywordOnly(spec)[i].name != name
  {
    var names := spec.args + spec.kwonlyargs;
    assert forall i :: 0 <= i < |spec.args| ==> names[i] == spec.args[i];
    assert forall i :: 0 <= i < |spec.kwonlyargs| ==> names[|spec.args| + i] == spec.kwonlyargs[i];
  }

  lemma {:induction false} ModelFormalsOk(spec: ArgSpec)
    requires IsFunction(spec)
    ensures WellFormed(ModelFormals(spec)) && DistinctParams(KeywordOnly(spec))
  {
    var f := ModelFormals(spec);
    VisibleDistinct(spec, |spec.args|);
    KeywordOnlyDistinct(spec);
    hide IsFunction, Visible, KeywordOnly;
    assert spec.args[..|spec.args|] == spec.args;
    assert forall i, j :: 0 <= i < |f.positional| && 0 <= j < |f.keywordOnly| ==>
             f.positional[i].name in spec.args && f.positional[i].name != f.keywordOnly[j].name;
  }

  /** What the dicts of the plugin hold under a name. */
  lemma {:induction false} LookUpKeywordOnly(p: Plugin, spec: ArgSpec, name: string)
    requires p.Loaded(spec) && IsFunction(spec)
    ensures name in p.kwargs <==> IsParam(KeywordOnly(spec), name)
    ensures name in p.kwargs ==>
              p.kwargs[name].hasDefault == KeywordOnly(spec)[ParamIndex(KeywordOnly(spec), name).value].hasDefault
  {
    ModelFormalsOk(spec);
    ByNameFinds(StoredKeywordOnly(spec, |spec.kwonlyargs|), KeywordOnly(spec), name);
  }

  /** All parameters as they are stored. */
  function AllStored(spec: ArgSpec): seq<PluginArgument> {
    Stored(spec, |spec.args|) + StoredKeywordOnly(spec, |spec.kwonlyargs|)
  }

  lemma {:induction false} AllStoredAreAllParams(spec: ArgSpec)
    ensures SameParams(AllStored(spec), AllParams(ModelFormals(spec)))
    ensures |Stored(spec, |spec.args|)| == |Visible(spec, |spec.args|)|
    ensures forall k :: |Stored(spec, |spec.args|)| <= k < |AllStored(spec)| ==> AllStored(spec)[k].position == None
  {
    StoredAreVisible(spec, |spec.args|);
    assert SameParams(StoredKeywordOnly(spec, |spec.kwonlyargs|), KeywordOnly(spec));
    hide Stored, Visible, KeywordOnly;
  }

  lemma {:induction false} LookUpAny(p: Plugin, spec: ArgSpec, name: string)
    requires p.Loaded(spec) && IsFunction(spec)
    ensures name in p.allArgs <==> IsParam(AllParams(ModelFormals(spec)), name)
    ensures name in p.allArgs ==> var i := ParamIndex(Visible(spec, |spec.args|), name);
              && |p.args| == |Visible(spec, |spec.args|)|
              && p.allArgs[name].position == if i.Some? then p.args[i.value].position else None
  {
    var f := ModelFormals(spec);
    AllStoredAreAllParams(spec);
    ModelFormalsOk(spec);
    hide IsFunction, SameParams, Stored, StoredKeywordOnly, Visible, KeywordOnly, ByName;
    ByNameFinds(AllStored(spec), AllParams(f), name);
    IndexInBoth(f.positional, f.keywordOnly, name);
  }

  lemma {:induction false} KeywordsAgree(p: Plugin, spec: ArgSpec, values: seq<Value>, kws: seq<Keyword<Value>>)
    requires p.Loaded(spec) && IsFunction(spec) && PositionsRight(Stored(spec, |spec.args|))
    ensures KeywordsFit(First(ModelFormals(spec), values), kws, spec.varkw.Some?) <==>
            forall j :: 0 <= j < |kws| ==>
              p.GetKwarg(kws[j].name).Some? && !Taken(p.GetKwarg(kws[j].name).value, |values|)
  {
    var f := ModelFormals(spec);
    ModelFormalsOk(spec);
    forall j | 0 <= j < |kws| ensures
      (if kws[j].name in First(f, values) then First(f, values)[kws[j].name].Unfilled? else spec.varkw.Some?) <==>
      (p.GetKwarg(kws[j].name).Some? && !Taken(p.GetKwarg(kws[j].name).value, |values|))
    {
      LookUpAny(p, spec, kws[j].name);
      FirstSlot(f, values, kws[j].name);
    }
  }

  lemma {:induction false} KeywordOnlyAgree(p: Plugin, spec: ArgSpec, kws: seq<Keyword<Value>>)
    requires p.Loaded(spec) && IsFunction(spec)
    ensures (forall i :: 0 <= i < |spec.kwonlyargs| ==>
               IsKeyword(kws, KeywordOnly(spec)[i].name) || KeywordOnly(spec)[i].hasDefault) <==>
            (forall name :: name in p.kwargs ==> IsKeyword(kws, name) || p.kwargs[name].hasDefault)
  {
    ModelFormalsOk(spec);
    forall i | 0 <= i < |spec.kwonlyargs| ensures
      var q := KeywordOnly(spec)[i]; q.name in p.kwargs && p.kwargs[q.name].hasDefault == q.hasDefault
    {
      LookUpKeywordOnly(p, spec, KeywordOnly(spec)[i].name);
      IndexOfParam(KeywordOnly(spec), i);
    }
    forall name | name in p.kwargs ensures
      var i := ParamIndex(KeywordOnly(spec), name);
      i.Some? && p.kwargs[name].hasDefault == KeywordOnly(spec)[i.value].hasDefault
    {
      LookUpKeywordOnly(p, spec, name);
    }
  }

  /** With at most one Context before any parameter, the checks that do not look at values pass exactly when Python
      would bind the call to the parameters other than the Context. */
  lemma {:induction false} AcceptsWhatBinds(p: Plugin, spec: ArgSpec, values: seq<Value>, kws: seq<Keyword<Value>>)
    requires p.Loaded(spec) && IsFunction(spec) && DistinctKeywords(kws)
    requires forall i: nat {:trigger OneContextAtMost(spec, i)} :: i < |spec.args| ==> OneContextAtMost(spec, i)
    ensures p.Accepts(values, kws) <==> Bind(ModelFormals(spec), values, kws).Some?
  {
    var f := ModelFormals(spec);
    ModelFormalsOk(spec);
    PositionsAreIndices(spec, |spec.args|);
    StoredAreVisible(spec, |spec.args|);
    BindsWhenItFits(f, values, kws);
    KeywordsAgree(p, spec, values, kws);
    KeywordsFitFirst(f, values, kws);
    KeywordOnlyAgree(p, spec, kws);
  }

  // ---------------------------------------------------------------- two Contexts

  lemma {:induction false} VisibleBefore(spec: ArgSpec, i: nat, j: nat)
    requires i <= j <= |spec.args|
    ensures i - Contexts(spec, i) <= j - Contexts(spec, j)
  {
    if i < j { VisibleBefore(spec, i, j - 1); }
  }

  /** The parameter that a stored argument comes from. */
  lemma {:induction false} Origin(spec: ArgSpec, n: nat, k: nat) returns (i: nat)
    requires n <= |spec.args| && k < |Stored(spec, n)|
    ensures i < n && !IsContext(spec, i) && k == i - Contexts(spec, i)
    ensures Stored(spec, n)[k].position == Some(i - if Contexts(spec, i) > 0 then 1 else 0)
  {
    StoredAreVisible(spec, n - 1);
    if k < |Stored(spec, n - 1)| {
      i := Origin(spec, n - 1, k);
    } else {
      i := n - 1;
    }
  }

  lemma {:induction false} StoredTooFar(spec: ArgSpec, i: nat, k: nat)
    requires i < |spec.args| && !OneContextAtMost(spec, i) && i - Contexts(spec, i) <= k < |Stored(spec, |spec.args|)|
    ensures var position := Stored(spec, |spec.args|)[k].position;
            position.Some? && position.value > i - Contexts(spec, i)
  {
    var j := Origin(spec, |spec.args|, k);
    if j < i {
      VisibleBefore(spec, j + 1, i);
    } else {
      FewContexts(spec, i, j);
    }
  }

  /** Names all parameters from the `k`th on. */
  function NameFrom(f: Formals, k: nat): (kws: seq<Keyword<Value>>)
    requires k < |f.positional|
    ensures |kws| == |AllParams(f)| - k && forall j :: 0 <= j < |kws| ==> kws[j].name == AllParams(f)[k + j].name
  {
    seq(|AllParams(f)| - k, j requires 0 <= j < |AllParams(f)| - k => Keyword(AllParams(f)[k + j].name, Unknown))
  }

  lemma {:induction false} NamedFrom(f: Formals, k: nat)
    requires WellFormed(f) && k < |f.positional|
    ensures DistinctKeywords(NameFrom(f, k))
    ensures forall j :: k <= j < |f.positional| ==> IsKeyword(NameFrom(f, k), f.positional[j].name)
    ensures forall j :: 0 <= j < |f.keywordOnly| ==> IsKeyword(NameFrom(f, k), f.keywordOnly[j].name)
  {
    var kws := NameFrom(f, k);
    forall j | k <= j < |f.positional| ensures IsKeyword(kws, f.positional[j].name) {
      assert kws[j - k].name == f.positional[j].name;
    }
    forall j | 0 <= j < |f.keywordOnly| ensures IsKeyword(kws, f.keywordOnly[j].name) {
      assert kws[|f.positional| - k + j].name == f.keywordOnly[j].name;
    }
  }

  /** If two Contexts come before a parameter, some call passes that Python would refuse: one that gives this
      parameter by position and again by name. */
  lemma {:induction false} TwoContextsPassTooMuch(p: Plugin, spec: ArgSpec, i: nat)
    returns (values: seq<Value>, kws: seq<Keyword<Value>>)
    requires p.Loaded(spec) && IsFunction(spec) && i < |spec.args| && !OneContextAtMost(spec, i)
    ensures DistinctKeywords(kws) && p.Accepts(values, kws) && Bind(ModelFormals(spec), values, kws).None?
  {
    var f, k := ModelFormals(spec), i - Contexts(spec, i);
    ModelFormalsOk(spec);
    StoredAreVisible(spec, |spec.args|);
    VisibleBefore(spec, i + 1, |spec.args|);
    hide Bind, Stored, Visible, StoredKeywordOnly, KeywordOnly, ByName, Contexts, IsKeyword, DistinctKeywords;
    values, kws := seq(k + 1, _ => Unknown), NameFrom(f, k);
    NamedFrom(f, k);
    GivenTwice(f, values, kws, k);
    hide AllParams;
    PassesTooMuch(p, spec, i);
    PassesNamed(p, spec, values, k);
  }

  lemma {:induction false} PassesNamed(p: Plugin, spec: ArgSpec, values: seq<Value>, k: nat)
    requires p.Loaded(spec) && IsFunction(spec) && k < |ModelFormals(spec).positional| && |values| == k + 1
    requires var kws := NameFrom(ModelFormals(spec), k);
             forall j :: 0 <= j < |kws| ==>
               p.GetKwarg(kws[j].name).Some? && !Taken(p.GetKwarg(kws[j].name).value, |values|)
    ensures p.Accepts(values, NameFrom(ModelFormals(spec), k))
  {
    ModelFormalsOk(spec);
    NamedFrom(ModelFormals(spec), k);
    StoredAreVisible(spec, |spec.args|);
    KeywordOnlyAgree(p, spec, NameFrom(ModelFormals(spec), k));
  }

  lemma {:induction false} GivenTwice<V>(f: Formals, values: seq<V>, kws: seq<Keyword<V>>, k: nat)
    requires WellFormed(f) && DistinctKeywords(kws) && k < |f.positional| && k < |values|
             && IsKeyword(kws, f.positional[k].name)
    ensures Bind(f, values, kws).None?
  {
    BindsWhenItFits(f, values, kws);
  }

  lemma {:induction false} PassesTooMuch(p: Plugin, spec: ArgSpec, i: nat)
    requires p.Loaded(spec) && IsFunction(spec) && i < |spec.args| && !OneContextAtMost(spec, i)
    requires i - Contexts(spec, i) < |ModelFormals(spec).positional|
    ensures var k := i - Contexts(spec, i); var kws := NameFrom(ModelFormals(spec), k);
            forall j :: 0 <= j < |kws| ==> p.GetKwarg(kws[j].name).Some? && !Taken(p.GetKwarg(kws[j].name).value, k + 1)
  {
    var f, k := ModelFormals(spec), i - Contexts(spec, i);
    var kws := NameFrom(f, k);
    hide ModelFormals, IsFunction, Contexts, OneContextAtMost;
    forall j | 0 <= j < |kws| ensures p.GetKwarg(kws[j].name).Some? && !Taken(p.GetKwarg(kws[j].name).value, k + 1) {
      PassesOne(p, spec, i, k + j);
    }
  }

  lemma {:induction false} PassesOne(p: Plugin, spec: ArgSpec, i: nat, l: nat)
    requires p.Loaded(spec) && IsFunction(spec) && i < |spec.args| && !OneContextAtMost(spec, i)
    requires i - Contexts(spec, i) <= l < |AllParams(ModelFormals(spec))|
    ensures var name := AllParams(ModelFormals(spec))[l].name;
            p.GetKwarg(name).Some? && !Taken(p.GetKwarg(name).value, i - Contexts(spec, i) + 1)
  {
    var f := ModelFormals(spec);
    var name := AllParams(f)[l].name;
    ModelFormalsOk(spec);
    StoredAreVisible(spec, |spec.args|);
    IndexOfParam(AllParams(f), l);
    IndexInBoth(f.positional, f.keywordOnly, name);
    LookUpAny(p, spec, name);
    hide Stored, Visible, KeywordOnly, IsFunction, ByName, StoredKeywordOnly, IsParam, WellFormed, DistinctParams;
    if l < |f.positional| { StoredTooFar(spec, i, l); }
  }

  // ---------------------------------------------------------------- the call

  /** All parameters, with the Context. */
  function FunctionFormals(spec: ArgSpec): Formals {
    Formals(seq(|spec.args|, i requires 0 <= i < |spec.args| => Param(spec.args[i], HasDefault(spec, i))),
            KeywordOnly(spec), spec.varargs.Some?, spec.varkw.Some?)
  }

  /** list.insert: past the end it appends. */
  function Insert<V>(args: seq<V>, at: nat, v: V): seq<V> {
    if at <= |args| then args[..at] + [v] + args[at..] else args + [v]
  }

  lemma {:induction false} OneContext(spec: ArgSpec, i: nat)
    requires Contexts(spec, |spec.args|) == 1 && i <= |spec.args|
    ensures LastContext(spec, |spec.args|) >= 0
    ensures Contexts(spec, i) == if i <= LastContext(spec, |spec.args|) then 0 else 1
  {
    OneContextUpTo(spec, i, |spec.args|);
  }

  lemma {:induction false} OneContextUpTo(spec: ArgSpec, i: nat, n: nat)
    requires n <= |spec.args| && Contexts(spec, n) == 1 && i <= n
    ensures LastContext(spec, n) >= 0 && Contexts(spec, i) == if i <= LastContext(spec, n) then 0 else 1
  {
    if IsContext(spec, n - 1) {
      FewContexts(spec, i, if i < n then n - 1 else n);
    } else if i < n {
      OneContextUpTo(spec, i, n - 1);
    } else {
      OneContextUpTo(spec, i - 1, n - 1);
    }
  }

  lemma {:induction false} VisibleAt(spec: ArgSpec, n: nat, i: nat)
    requires i < n <= |spec.args| && !IsContext(spec, i)
    ensures i - Contexts(spec, i) < |Visible(spec, n)|
    ensures Visible(spec, n)[i - Contexts(spec, i)] == Param(spec.args[i], HasDefault(spec, i))
  {
    if i < n - 1 {
      VisibleAt(spec, n - 1, i);
    }
  }

  /** The parameters of a loaded plugin have the names of the signature, in order and without the Context; with `d`
      defaults, the last `d` positional parameters have one, a Context counted in. */
  lemma {:induction false} LastParametersHaveDefaults(p: Plugin, spec: ArgSpec, i: nat)
    requires p.Loaded(spec) && i < |spec.args| && !IsContext(spec, i)
    ensures var k := i - Contexts(spec, i);
            && k < |p.args| && p.args[k].name == spec.args[i]
            && (p.args[k].hasDefault <==> |spec.args| - i <= spec.defaults)
  {
    VisibleAt(spec, |spec.args|, i);
    StoredAreVisible(spec, |spec.args|);
  }

  lemma {:induction false} KeywordOnlyDefaults(p: Plugin, spec: ArgSpec, m: nat)
    requires p.Loaded(spec) && IsFunction(spec) && m < |spec.kwonlyargs|
    ensures var name := spec.kwonlyargs[m];
            name in p.kwargs && (p.kwargs[name].hasDefault <==> name in spec.kwonlydefaults)
  {
    ModelFormalsOk(spec);
    IndexOfParam(KeywordOnly(spec), m);
    LookUpKeywordOnly(p, spec, spec.kwonlyargs[m]);
  }

  /** A value is converted as the parameter says to which Python would bind it. */
  lemma {:induction false} ConvertedAsBound(p: Plugin, spec: ArgSpec, values: seq<Value>, kws: seq<Keyword<Value>>)
    requires p.Loaded(spec) && IsFunction(spec) && DistinctKeywords(kws)
    requires Bind(ModelFormals(spec), values, kws).Some?
    ensures forall i: nat :: i < |values| && i < |p.args| ==>
              var name, bound := p.ArgAt(i).name, Bind(ModelFormals(spec), values, kws).value;
              name in bound && bound[name] == Given(values[i])
    ensures forall j :: 0 <= j < |kws| && kws[j].name in p.allArgs ==>
              var name, bound := p.KwargOf(kws[j].name).name, Bind(ModelFormals(spec), values, kws).value;
              name == kws[j].name && name in bound && bound[name] == Given(kws[j].value)
  {
    hide Bind, IsFunction, DistinctKeywords;
    forall i: nat | i < |values| && i < |p.args| ensures
      p.ArgAt(i).name in Bind(ModelFormals(spec), values, kws).value
      && Bind(ModelFormals(spec), values, kws).value[p.ArgAt(i).name] == Given(values[i])
    {
      PositionBound(p, spec, values, kws, i);
    }
    forall j | 0 <= j < |kws| && kws[j].name in p.allArgs ensures
      var name := p.KwargOf(kws[j].name).name;
      && name == kws[j].name && name in Bind(ModelFormals(spec), values, kws).value
      && Bind(ModelFormals(spec), values, kws).value[name] == Given(kws[j].value)
    {
      KeywordBound(p, spec, values, kws, j);
    }
  }

  lemma {:induction false} PositionBound(p: Plugin, spec: ArgSpec, values: seq<Value>, kws: seq<Keyword<Value>>, i: nat)
    requires p.Loaded(spec) && IsFunction(spec) && DistinctKeywords(kws) && i < |values| && i < |p.args|
    requires Bind(ModelFormals(spec), values, kws).Some?
    ensures p.args[i].name in Bind(ModelFormals(spec), values, kws).value
    ensures Bind(ModelFormals(spec), values, kws).value[p.args[i].name] == Given(values[i])
  {
    var f := ModelFormals(spec);
    ModelFormalsOk(spec);
    VisibleDistinct(spec, |spec.args|);
    StoredAreVisible(spec, |spec.args|);
    hide Bind, Visible, Stored, StoredKeywordOnly, KeywordOnly, ByName, IsFunction;
    IndexOfParam(f.positional, i);
    IndexOfParam(AllParams(f), i);
    BoundSlot(f, values, kws, p.args[i].name);
  }

  lemma {:induction false} KeywordBound(p: Plugin, spec: ArgSpec, values: seq<Value>, kws: seq<Keyword<Value>>, j: nat)
    requires p.Loaded(spec) && IsFunction(spec) && DistinctKeywords(kws) && j < |kws| && kws[j].name in p.allArgs
    requires Bind(ModelFormals(spec), values, kws).Some?
    ensures p.allArgs[kws[j].name].name == kws[j].name
    ensures kws[j].name in Bind(ModelFormals(spec), values, kws).value
    ensures Bind(ModelFormals(spec), values, kws).value[kws[j].name] == Given(kws[j].value)
  {
    var f, name := ModelFormals(spec), kws[j].name;
    ModelFormalsOk(spec);
    AllStoredAreAllParams(spec);
    BindsWhenItFits(f, values, kws);
    hide Bind, Visible, Stored, StoredKeywordOnly, KeywordOnly, ByName;
    ByNameFinds(AllStored(spec), AllParams(f), name);
    BoundSlot(f, values, kws, name);
    KeywordAt(kws, j);
  }

  lemma {:induction false} KeywordAt<V>(kws: seq<Keyword<V>>, j: nat)
    requires DistinctKeywords(kws) && j < |kws|
    ensures KeywordIndex(kws, kws[j].name) == Some(j)
  {
  }

  /** The parameters of the model are those of the function but the Context. */
  lemma {:induction false} WithoutContext(spec: ArgSpec)
    requires Contexts(spec, |spec.args|) == 1
    ensures var c, f, m := LastContext(spec, |spec.args|), FunctionFormals(spec), ModelFormals(spec);
            && 0 <= c < |f.positional| && |m.positional| == |f.positional| - 1
            && (forall k :: 0 <= k < c ==> m.positional[k] == f.positional[k])
            && (forall k :: c < k < |f.positional| ==> m.positional[k - 1] == f.positional[k])
  {
    OneContext(spec, |spec.args|);
    var c := LastContext(spec, |spec.args|);
    forall k | 0 <= k < |spec.args| && k != c ensures
      ModelFormals(spec).positional[if k < c then k else k - 1] == FunctionFormals(spec).positional[k]
    {
      OneContext(spec, k);
      OneContext(spec, k + 1);
      VisibleAt(spec, |spec.args|, k);
    }
  }

  lemma {:induction false} FunctionFormalsOk(spec: ArgSpec)
    requires IsFunction(spec)
    ensures WellFormed(FunctionFormals(spec))
  {
    assert forall i :: 0 <= i < |AllParams(FunctionFormals(spec))| ==>
        AllParams(FunctionFormals(spec))[i].name == (spec.args + spec.kwonlyargs)[i];
  }

  /** What becomes of the Context of an accepted call, as long as it is none of the keyword values: the call binds and
      gives it to its parameter exactly when the arguments before it are passed by position and none has its name. */
  lemma {:induction false} ContextReachesItsParameter<V>(spec: ArgSpec, args: seq<V>, kws: seq<Keyword<V>>, context: V)
    requires IsFunction(spec) && DistinctKeywords(kws) && Contexts(spec, |spec.args|) == 1
    requires Bind(ModelFormals(spec), args, kws).Some? && forall j :: 0 <= j < |kws| ==> kws[j].value != context
    ensures var c := LastContext(spec, |spec.args|);
            && c >= 0
            && var bound := Bind(FunctionFormals(spec), Insert(args, c, context), kws);
               (bound.Some? && spec.args[c] in bound.value && bound.value[spec.args[c]] == Given(context)) <==>
               (c <= |args| && !IsKeyword(kws, spec.args[c]))
  {
    OneContext(spec, 0);
    var c, f := LastContext(spec, |spec.args|), FunctionFormals(spec);
    FunctionFormalsOk(spec);
    if IsKeyword(kws, spec.args[c]) && c <= |args| {
      assert f.positional[c].name == spec.args[c] && |Insert(args, c, context)| == |args| + 1;
      GivenTwice(f, Insert(args, c, context), kws, c);
    } else if c <= |args| {
      ContextBinds(spec, args, kws, context);
    } else if Bind(f, Insert(args, c, context), kws).Some? {
      NotByPosition(spec, args, kws, context);
    }
  }

  /** Past the end the Context is appended, and its parameter has a keyword value or its default. */
  lemma {:induction false} NotByPosition<V>(spec: ArgSpec, args: seq<V>, kws: seq<Keyword<V>>, context: V)
    requires IsFunction(spec) && DistinctKeywords(kws) && |args| < LastContext(spec, |spec.args|)
    requires forall j :: 0 <= j < |kws| ==> kws[j].value != context
    requires Bind(FunctionFormals(spec), Insert(args, LastContext(spec, |spec.args|), context), kws).Some?
    ensures var c := LastContext(spec, |spec.args|);
            var bound := Bind(FunctionFormals(spec), Insert(args, c, context), kws).value;
            spec.args[c] in bound && bound[spec.args[c]] != Given(context)
  {
    var c, f := LastContext(spec, |spec.args|), FunctionFormals(spec);
    FunctionFormalsOk(spec);
    PositionalDistinct(f);
    assert f.positional[c].name == spec.args[c];
    IndexOfParam(f.positional, c);
    IndexOfParam(AllParams(f), c);
    BoundSlot(f, Insert(args, c, context), kws, spec.args[c]);
  }

  lemma {:induction false} ContextBinds<V>(spec: ArgSpec, args: seq<V>, kws: seq<Keyword<V>>, context: V)
    requires IsFunction(spec) && DistinctKeywords(kws) && Contexts(spec, |spec.args|) == 1
    requires Bind(ModelFormals(spec), args, kws).Some? && !IsKeyword(kws, spec.args[LastContext(spec, |spec.args|)])
    requires LastContext(spec, |spec.args|) <= |args|
    ensures var c := LastContext(spec, |spec.args|);
            var bound := Bind(FunctionFormals(spec), Insert(args, c, context), kws);
            && bound.Some? && spec.args[c] in bound.value && bound.value[spec.args[c]] == Given(context)
  {
    var c, f, m := LastContext(spec, |spec.args|), FunctionFormals(spec), ModelFormals(spec);
    ModelFormalsOk(spec);
    FunctionFormalsOk(spec);
    WithoutContext(spec);
    BindsWhenItFits(m, args, kws);
    FitsWithContext(spec, args, kws, context);
    BindsWhenItFits(f, Insert(args, c, context), kws);
    AtPosition(f, Insert(args, c, context), kws, c);
  }

  lemma {:induction false} FitsWithContext<V>(spec: ArgSpec, args: seq<V>, kws: seq<Keyword<V>>, context: V)
    requires IsFunction(spec) && Contexts(spec, |spec.args|) == 1
    requires Fits(ModelFormals(spec), args, kws) && !IsKeyword(kws, spec.args[LastContext(spec, |spec.args|)])
    requires LastContext(spec, |spec.args|) <= |args|
    ensures Fits(FunctionFormals(spec), Insert(args, LastContext(spec, |spec.args|), context), kws)
  {
    var c, f, m := LastContext(spec, |spec.args|), FunctionFormals(spec), ModelFormals(spec);
    WithoutContext(spec);
    forall name | IsParam(AllParams(m), name) ensures IsParam(AllParams(f), name) { StaysParam(spec, name); }
    hide Visible, KeywordOnly, Contexts, LastContext, HasDefault, IsParam, IsKeyword;
    assert |Insert(args, c, context)| == |args| + 1;
    forall i | 0 <= i < |f.positional| && i != c ensures f.positional[i] == m.positional[if i < c then i else i - 1] { }
    assert f.positional[c].name == spec.args[c];
  }

  lemma {:induction false} StaysParam(spec: ArgSpec, name: string)
    requires Contexts(spec, |spec.args|) == 1 && IsParam(AllParams(ModelFormals(spec)), name)
    ensures IsParam(AllParams(FunctionFormals(spec)), name)
  {
    var c, f, m := LastContext(spec, |spec.args|), FunctionFormals(spec), ModelFormals(spec);
    WithoutContext(spec);
    IndexInBoth(m.positional, m.keywordOnly, name);
    IndexInBoth(f.positional, f.keywordOnly, name);
    var i := ParamIndex(m.positional, name);
    if i.Some? { assert f.positional[if i.value < c then i.value else i.value + 1].name == name; }
  }

  /** A positional argument fills the slot of the parameter at its place. */
  lemma {:induction false} AtPosition<V>(f: Formals, args: seq<V>, kws: seq<Keyword<V>>, i: nat)
    requires WellFormed(f) && DistinctKeywords(kws) && i < |f.positional| && i < |args| && Bind(f, args, kws).Some?
    ensures f.positional[i].name in Bind(f, args, kws).value
            && Bind(f, args, kws).value[f.positional[i].name] == Given(args[i])
  {
    PositionalDistinct(f);
    IndexOfParam(f.positional, i);
    IndexOfParam(AllParams(f), i);
    BoundSlot(f, args, kws, f.positional[i].name);
  }

  /** With fewer arguments by position the Context is appended, and fills another parameter if the call binds at all. */
  lemma {:induction false} ContextMissesItsParameter<V>(spec: ArgSpec, args: seq<V>, kws: seq<Keyword<V>>, context: V)
    requires IsFunction(spec) && DistinctKeywords(kws) && Contexts(spec, |spec.args|) == 1
    requires |args| < LastContext(spec, |spec.args|)
    ensures var bound := Bind(FunctionFormals(spec), Insert(args, LastContext(spec, |spec.args|), context), kws);
            bound.Some? ==> spec.args[|args|] in bound.value && bound.value[spec.args[|args|]] == Given(context)
  {
    FunctionFormalsOk(spec);
    var f, args' := FunctionFormals(spec), Insert(args, LastContext(spec, |spec.args|), context);
    if Bind(f, args', kws).Some? {
      AtPosition(f, args', kws, |args|);
    }
  }

  /** f(a, context: Context) */
  function ExampleSpec(): ArgSpec {
    ArgSpec(["a", "context"], 0, None, [], {}, None, map["a" := OtherType, "context" := ContextType])
  }

  lemma {:induction false} ExampleFormals()
    ensures IsFunction(ExampleSpec()) && LastContext(ExampleSpec(), 2) == 1
    ensures OneContextAtMost(ExampleSpec(), 0) && OneContextAtMost(ExampleSpec(), 1)
    ensures ModelFormals(ExampleSpec()) == Formals([Param("a", false)], [], false, false)
    ensures |FunctionFormals(ExampleSpec()).positional| == 2
            && FunctionFormals(ExampleSpec()).positional[0] == Param("a", false)
  {
    var spec := ExampleSpec();
    assert Contexts(spec, 0) == 0 && Contexts(spec, 1) == 0 && Contexts(spec, 2) == 1;
    assert Visible(spec, 0) == [] && Visible(spec, 1) == [Param("a", false)] && Visible(spec, 2) == [Param("a", false)];
    assert KeywordOnly(spec) == [];
  }

  /** So a check can pass and the call still fail: with a passed by name. */
  lemma {:induction false} AcceptedCallFails(p: Plugin, a: Value)
    requires p.Loaded(ExampleSpec())
    ensures p.Accepts([], [Keyword("a", a)])
    ensures Bind(FunctionFormals(ExampleSpec()), Insert([], 1, Unknown), [Keyword("a", a)]).None?
  {
    var spec, kws := ExampleSpec(), [Keyword("a", a)];
    ExampleFormals();
    assert IsKeyword(kws, "a") && IsParam([Param("a", false)], "a");
    var m := ModelFormals(spec);
    assert AllParams(m) == [Param("a", false)];
    assert Fits(m, [], kws);
    hide ExampleSpec, LastContext, OneContextAtMost, ModelFormals, FunctionFormals, IsKeyword, Fits, Bind;
    AcceptsWhatBinds(p, spec, [], kws);
    ModelFormalsOk(spec);
    BindsWhenItFits(m, [], kws);
    FunctionFormalsOk(spec);
    GivenTwice(FunctionFormals(spec), Insert([], 1, Unknown), kws, 0);
  }

  /** f(context: Context, **kw) */
  function KeywordExampleSpec(): ArgSpec {
    ArgSpec(["context"], 0, None, [], {}, Some("kw"), map["context" := ContextType, "kw" := OtherType])
  }

  lemma {:induction false} KeywordExampleFormals()
    ensures IsFunction(KeywordExampleSpec()) && LastContext(KeywordExampleSpec(), 1) == 0
    ensures OneContextAtMost(KeywordExampleSpec(), 0)
    ensures ModelFormals(KeywordExampleSpec()) == Formals([], [], false, true)
    ensures FunctionFormals(KeywordExampleSpec()).positional == [Param("context", false)]
  {
    var spec := KeywordExampleSpec();
    assert Contexts(spec, 0) == 0 && Contexts(spec, 1) == 1;
    assert Visible(spec, 0) == [] && Visible(spec, 1) == [];
    assert KeywordOnly(spec) == [];
  }

  /** It can also fail with the name of the Context among the keywords, which a catch-all lets through. */
  lemma {:induction false} AcceptedContextNameFails(p: Plugin, a: Value)
    requires p.Loaded(KeywordExampleSpec())
    ensures p.Accepts([], [Keyword("context", a)])
    ensures Bind(FunctionFormals(KeywordExampleSpec()), Insert([], 0, Unknown), [Keyword("context", a)]).None?
  {
    var spec, kws := KeywordExampleSpec(), [Keyword("context", a)];
    KeywordExampleFormals();
    assert IsKeyword(kws, "context");
    var m := ModelFormals(spec);
    assert Fits(m, [], kws);
    hide KeywordExampleSpec, LastContext, OneContextAtMost, ModelFormals, FunctionFormals, IsKeyword, Fits, Bind;
    AcceptsWhatBinds(p, spec, [], kws);
    ModelFormalsOk(spec);
    BindsWhenItFits(m, [], kws);
    FunctionFormalsOk(spec);
    GivenTwice(FunctionFormals(spec), Insert([], 0, Unknown), kws, 0);
  }
}
