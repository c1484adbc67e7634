/** How a Python call binds its arguments: the slots of section 6.3.4 (Calls) of the Python Language Reference. */
module CallBinding {
  import opened Wrappers

  datatype Param = Param(name: string, hasDefault: bool)

  datatype Formals = Formals(positional: seq<Param>, keywordOnly: seq<Param>, varArgs: bool, varKwargs: bool)

  datatype Keyword<V> = Keyword(name: string, value: V)

  datatype Slot<V> = Unfilled | Given(value: V) | FromDefault

  type Slots<V> = map<string, Slot<V>>

  ghost predicate DistinctParams(ps: seq<Param>) {
    forall i, j :: 0 <= i < j < |ps| ==> ps[i].name != ps[j].name
  }

  /** The keys of a dict of keyword arguments. */
  ghost predicate DistinctKeywords<V>(kws: seq<Keyword<V>>) {
    forall i, j :: 0 <= i < j < |kws| ==> kws[i].name != kws[j].name
  }

  ghost predicate WellFormed(f: Formals) {
    DistinctParams(AllParams(f))
  }

  /** The place of a name among the parameters. */
  function ParamIndex(ps: seq<Param>, name: string): (i: Option<nat>)
    ensures i.Some? ==> i.value < |ps| && ps[i.value].name == name
    ensures i.None? ==> forall k :: 0 <= k < |ps| ==> ps[k].name != name
  {
    if ps == [] then None
    else if ps[0].name == name then Some(0)
    else
      var i := ParamIndex(ps[1..], name);
      if i.Some? then Some(i.value + 1) else None
  }

  function KeywordIndex<V>(kws: seq<Keyword<V>>, name: string): (i: Option<nat>)
    ensures i.Some? ==> i.value < |kws| && kws[i.value].name == name
    ensures i.None? ==> forall k :: 0 <= k < |kws| ==> kws[k].name != name
  {
    if kws == [] then None
    else if kws[0].name == name then Some(0)
    else
      var i := KeywordIndex(kws[1..], name);
      if i.Some? then Some(i.value + 1) else None
  }

  predicate IsParam(ps: seq<Param>, name: string) {
    ParamIndex(ps, name).Some?
  }

  predicate IsKeyword<V>(kws: seq<Keyword<V>>, name: string) {
    KeywordIndex(kws, name).Some?
  }

  function EmptySlots<V>(ps: seq<Param>): (slots: Slots<V>)
    ensures forall name :: name in slots <==> IsParam(ps, name)
    ensures forall name :: name in slots ==> slots[name] == Unfilled
  {
    map i | 0 <= i < |ps| :: ps[i].name := Unfilled
  }

  /** Places the positional arguments in the first slots. */
  function PlacePositional<V>(slots: Slots<V>, ps: seq<Param>, args: seq<V>): Slots<V>
    decreases |ps|
  {
    if ps == [] || args == [] then slots
    else PlacePositional(slots[ps[0].name := Given(args[0])], ps[1..], args[1..])
  }

  /** Places each keyword argument in its slot, which must be unfilled; without one it needs a catch-all. */
  function PlaceKeywords<V>(slots: Slots<V>, kws: seq<Keyword<V>>, varKwargs: bool): Option<Slots<V>>
    decreases |kws|
  {
    if kws == [] then Some(slots)
    else if kws[0].name in slots then
      if !slots[kws[0].name].Unfilled? then None
      else PlaceKeywords(slots[kws[0].name := Given(kws[0].value)], kws[1..], varKwargs)
    else if varKwargs then PlaceKeywords(slots, kws[1..], varKwargs) else None
  }

  /** Fills what is still unfilled with the default values. */
  function FillDefaults<V>(slots: Slots<V>, ps: seq<Param>): Option<Slots<V>>
    decreases |ps|
  {
    if ps == [] then Some(slots)
    else if ps[0].name !in slots || !slots[ps[0].name].Unfilled? then FillDefaults(slots, ps[1..])
    else if ps[0].hasDefault then FillDefaults(slots[ps[0].name := FromDefault], ps[1..])
    else None
  }

  /** The slots of a call, or None for a TypeError. */
  function Bind<V>(f: Formals, args: seq<V>, kws: seq<Keyword<V>>): Option<Slots<V>> {
    if |args| > |f.positional| && !f.varArgs then None
    else
      var placed := PlaceKeywords(First(f, args), kws, f.varKwargs);
      if placed.None? then None else FillDefaults(placed.value, AllParams(f))
  }

  // ---------------------------------------------------------------- when a call binds

  /** No surplus of positional arguments, no keyword for a parameter that has its value or for none at all, and
      every other parameter has a default. */
  ghost predicate Fits<V>(f: Formals, args: seq<V>, kws: seq<Keyword<V>>) {
    && (|args| <= |f.positional| || f.varArgs)
    && (forall i :: 0 <= i < |f.positional| && i < |args| ==> !IsKeyword(kws, f.positional[i].name))
    && (forall j :: 0 <= j < |kws| ==> IsParam(AllParams(f), kws[j].name) || f.varKwargs)
    && (forall i :: |args| <= i < |f.positional| ==> IsKeyword(kws, f.positional[i].name) || f.positional[i].hasDefault)
    && (forall i :: 0 <= i < |f.keywordOnly| ==> IsKeyword(kws, f.keywordOnly[i].name) || f.keywordOnly[i].hasDefault)
  }

  /** The slot of a parameter after a call that binds. */
  function SlotOf<V>(f: Formals, args: seq<V>, kws: seq<Keyword<V>>, name: string): Slot<V> {
    var i, j := ParamIndex(f.positional, name), KeywordIndex(kws, name);
    if i.Some? && i.value < |args| then Given(args[i.value])
    else if j.Some? then Given(kws[j.value].value)
    else FromDefault
  }

  lemma {:induction false} PlacedPositional<V>(slots: Slots<V>, ps: seq<Param>, args: seq<V>, name: string)
    requires DistinctParams(ps)
    ensures var i, placed := ParamIndex(ps, name), PlacePositional(slots, ps, args);
            if i.Some? && i.value < |args| then name in placed && placed[name] == Given(args[i.value])
            else (name in slots <==> name in placed) && (name in slots ==> placed[name] == slots[name])
    decreases |ps|
  {
    if ps != [] && args != [] {
      PlacedPositional(slots[ps[0].name := Given(args[0])], ps[1..], args[1..], name);
    }
  }

  /** Every keyword has an unfilled slot, or none and the function takes any. */
  ghost predicate KeywordsFit<V>(slots: Slots<V>, kws: seq<Keyword<V>>, varKwargs: bool) {
    forall j :: 0 <= j < |kws| ==> if kws[j].name in slots then slots[kws[j].name].Unfilled? else varKwargs
  }

  lemma {:induction false} PlacedKeywords<V>(slots: Slots<V>, kws: seq<Keyword<V>>, varKwargs: bool)
    requires DistinctKeywords(kws)
    ensures PlaceKeywords(slots, kws, varKwargs).Some? <==> KeywordsFit(slots, kws, varKwargs)
    decreases |kws|
  {
    if kws != [] {
      var k := kws[0].name;
      if k in slots && slots[k].Unfilled? {
        var slots' := slots[k := Given(kws[0].value)];
        PlacedKeywords(slots', kws[1..], varKwargs);
        forall j | 0 < j < |kws| ensures kws[j] == kws[1..][j - 1] && kws[j].name != k { }
      } else {
        PlacedKeywords(slots, kws[1..], varKwargs);
        forall j | 0 < j < |kws| ensures kws[j] == kws[1..][j - 1] { }
      }
    }
  }

  lemma {:induction false} PlacedKeyword<V>(slots: Slots<V>, kws: seq<Keyword<V>>, varKwargs: bool, name: string)
    requires DistinctKeywords(kws) && PlaceKeywords(slots, kws, varKwargs).Some?
    ensures var j, placed := KeywordIndex(kws, name), PlaceKeywords(slots, kws, varKwargs).value;
            && (name in placed <==> name in slots)
            && (name in slots ==> placed[name] == if j.Some? then Given(kws[j.value].value) else slots[name])
    decreases |kws|
  {
    if kws != [] {
      var k := kws[0].name;
      PlacedKeyword(if k in slots then slots[k := Given(kws[0].value)] else slots, kws[1..], varKwargs, name);
    }
  }

  lemma {:induction false} FilledDefaults<V>(slots: Slots<V>, ps: seq<Param>)
    requires DistinctParams(ps) && forall i :: 0 <= i < |ps| ==> ps[i].name in slots
    ensures FillDefaults(slots, ps).Some? <==>
            forall i :: 0 <= i < |ps| ==>
              !slots[ps[i].name].Unfilled? || ps[i].hasDefault
    decreases |ps|
  {
    if ps != [] {
      assert ps[0].name in slots;
      var slots' := if slots[ps[0].name].Unfilled? then slots[ps[0].name := FromDefault] else slots;
      assert forall i :: 0 <= i < |ps[1..]| ==>
          ps[1..][i] == ps[i + 1] && ps[i + 1].name in slots && ps[i + 1].name != ps[0].name;
      FilledDefaults(slots', ps[1..]);
      forall i | 0 < i < |ps| ensures ps[i] == ps[1..][i - 1] { }
    }
  }

  lemma {:induction false} FilledDefault<V>(slots: Slots<V>, ps: seq<Param>, name: string)
    requires FillDefaults(slots, ps).Some? && name in slots
    ensures var filled := FillDefaults(slots, ps).value;
            && name in filled
            && filled[name] == if slots[name].Unfilled? && IsParam(ps, name) then FromDefault else slots[name]
    decreases |ps|
  {
    if ps != [] {
      var unfilled := ps[0].name in slots && slots[ps[0].name].Unfilled?;
      FilledDefault(if unfilled then slots[ps[0].name := FromDefault] else slots, ps[1..], name);
    }
  }

  // ---------------------------------------------------------------- the three steps together

  function AllParams(f: Formals): seq<Param> {
    f.positional + f.keywordOnly
  }

  function First<V>(f: Formals, args: seq<V>): Slots<V> {
    PlacePositional(EmptySlots(AllParams(f)), f.positional, args)
  }

  lemma {:induction false} IndexOfParam(ps: seq<Param>, i: nat)
    requires DistinctParams(ps) && i < |ps|
    ensures ParamIndex(ps, ps[i].name) == Some(i)
  {
  }

  lemma {:induction false} FirstSlot<V>(f: Formals, args: seq<V>, name: string)
    requires WellFormed(f)
    ensures name in First(f, args) <==> IsParam(AllParams(f), name)
    ensures var i := ParamIndex(f.positional, name);
            name in First(f, args) ==>
              First(f, args)[name] == if i.Some? && i.value < |args| then Given(args[i.value]) else Unfilled
  {
    PositionalDistinct(f);
    PlacedPositional(EmptySlots(AllParams(f)), f.positional, args, name);
    var i := ParamIndex(f.positional, name);
    if i.Some? { assert AllParams(f)[i.value].name == name; }
  }

  lemma {:induction false} PositionalDistinct(f: Formals)
    requires WellFormed(f)
    ensures DistinctParams(f.positional)
    ensures forall i :: 0 <= i < |f.positional| ==> AllParams(f)[i] == f.positional[i]
    ensures forall i :: 0 <= i < |f.keywordOnly| ==> AllParams(f)[|f.positional| + i] == f.keywordOnly[i]
  {
    assert forall i :: 0 <= i < |f.positional| ==> AllParams(f)[i] == f.positional[i];
  }

  /** A keyword of this name is known, or the function takes any, and its parameter has no value yet. */
  ghost predicate NameFits(f: Formals, given: nat, name: string) {
    && (IsParam(AllParams(f), name) || f.varKwargs)
    && (ParamIndex(f.positional, name).None? || ParamIndex(f.positional, name).value >= given)
  }

  lemma {:induction false} FirstUnfilled<V>(f: Formals, args: seq<V>, name: string)
    requires WellFormed(f)
    ensures (if name in First(f, args) then First(f, args)[name].Unfilled? else f.varKwargs) <==>
              NameFits(f, |args|, name)
  {
    FirstSlot(f, args, name);
    var i := ParamIndex(f.positional, name);
    if i.Some? { assert AllParams(f)[i.value].name == name; }
  }

  lemma {:induction false} NamesFit<V>(f: Formals, args: seq<V>, kws: seq<Keyword<V>>)
    requires WellFormed(f)
    ensures KeywordsFit(First(f, args), kws, f.varKwargs) <==>
            forall j :: 0 <= j < |kws| ==> NameFits(f, |args|, kws[j].name)
  {
    hide First, NameFits, AllParams;
    forall j | 0 <= j < |kws| ensures
      (if kws[j].name in First(f, args) then First(f, args)[kws[j].name].Unfilled? else f.varKwargs) <==>
      NameFits(f, |args|, kws[j].name)
    {
      FirstUnfilled(f, args, kws[j].name);
    }
  }

  lemma {:induction false} NotGivenTwice<V>(f: Formals, given: nat, kws: seq<Keyword<V>>, i: nat)
    requires DistinctParams(f.positional) && i < |f.positional| && i < given
    requires forall j :: 0 <= j < |kws| ==> NameFits(f, given, kws[j].name)
    ensures !IsKeyword(kws, f.positional[i].name)
  {
    IndexOfParam(f.positional, i);
  }

  lemma {:induction false} KeywordNameFits<V>(f: Formals, given: nat, kws: seq<Keyword<V>>, j: nat)
    requires j < |kws| && (IsParam(AllParams(f), kws[j].name) || f.varKwargs)
    requires forall i :: 0 <= i < |f.positional| && i < given ==> !IsKeyword(kws, f.positional[i].name)
    ensures NameFits(f, given, kws[j].name)
  {
    assert IsKeyword(kws, kws[j].name);
  }

  lemma {:induction false} KeywordsFitFirst<V>(f: Formals, args: seq<V>, kws: seq<Keyword<V>>)
    requires WellFormed(f)
    ensures KeywordsFit(First(f, args), kws, f.varKwargs) <==>
            && (forall i :: 0 <= i < |f.positional| && i < |args| ==> !IsKeyword(kws, f.positional[i].name))
            && (forall j :: 0 <= j < |kws| ==> IsParam(AllParams(f), kws[j].name) || f.varKwargs)
  {
    NamesFit(f, args, kws);
    PositionalDistinct(f);
    hide First, KeywordsFit, IsParam, IsKeyword, AllParams, ParamIndex;
    if forall j :: 0 <= j < |kws| ==> NameFits(f, |args|, kws[j].name) {
      forall i | 0 <= i < |f.positional| && i < |args| ensures !IsKeyword(kws, f.positional[i].name) {
        NotGivenTwice(f, |args|, kws, i);
      }
    } else {
      var j :| 0 <= j < |kws| && !NameFits(f, |args|, kws[j].name);
      if (IsParam(AllParams(f), kws[j].name) || f.varKwargs)
         && forall i :: 0 <= i < |f.positional| && i < |args| ==> !IsKeyword(kws, f.positional[i].name) {
        KeywordNameFits(f, |args|, kws, j);
      }
    }
  }

  lemma {:induction false} SecondSlot<V>(f: Formals, args: seq<V>, kws: seq<Keyword<V>>, name: string)
    requires WellFormed(f) && DistinctKeywords(kws) && IsParam(AllParams(f), name)
    requires PlaceKeywords(First(f, args), kws, f.varKwargs).Some?
    ensures var second := PlaceKeywords(First(f, args), kws, f.varKwargs).value;
            name in second &&
            var i, j := ParamIndex(f.positional, name), KeywordIndex(kws, name);
            second[name] == if j.Some? then Given(kws[j.value].value)
                            else if i.Some? && i.value < |args| then Given(args[i.value]) else Unfilled
  {
    FirstSlot(f, args, name);
    PlacedKeyword(First(f, args), kws, f.varKwargs, name);
  }

  lemma {:induction false} SecondUnfilled<V>(f: Formals, args: seq<V>, kws: seq<Keyword<V>>, i: nat)
    requires WellFormed(f) && DistinctKeywords(kws) && PlaceKeywords(First(f, args), kws, f.varKwargs).Some?
             && i < |AllParams(f)|
    ensures var second, name := PlaceKeywords(First(f, args), kws, f.varKwargs).value, AllParams(f)[i].name;
            && name in second
            && (second[name].Unfilled? <==> !IsKeyword(kws, name) && (i < |f.positional| ==> |args| <= i))
  {
    var all := AllParams(f);
    PositionalDistinct(f);
    IndexOfParam(all, i);
    SecondSlot(f, args, kws, all[i].name);
    if i < |f.positional| { IndexOfParam(f.positional, i); }
    var p := ParamIndex(f.positional, all[i].name);
    if p.Some? { assert all[p.value].name == all[i].name; }
  }

  lemma {:induction false} DefaultsFit<V>(f: Formals, args: seq<V>, kws: seq<Keyword<V>>)
    requires WellFormed(f) && DistinctKeywords(kws) && PlaceKeywords(First(f, args), kws, f.varKwargs).Some?
    ensures FillDefaults(PlaceKeywords(First(f, args), kws, f.varKwargs).value, AllParams(f)).Some? <==>
            && (forall i :: |args| <= i < |f.positional| ==>
                  IsKeyword(kws, f.positional[i].name) || f.positional[i].hasDefault)
            && (forall i :: 0 <= i < |f.keywordOnly| ==>
                  IsKeyword(kws, f.keywordOnly[i].name) || f.keywordOnly[i].hasDefault)
  {
    var all, second := AllParams(f), PlaceKeywords(First(f, args), kws, f.varKwargs).value;
    PositionalDistinct(f);
    hide First, PlaceKeywords, IsKeyword;
    forall i | 0 <= i < |all| ensures
      all[i].name in second &&
      (second[all[i].name].Unfilled? <==> !IsKeyword(kws, all[i].name) && (i < |f.positional| ==> |args| <= i))
    {
      SecondUnfilled(f, args, kws, i);
    }
    FilledDefaults(second, all);
  }

  lemma {:induction false} IndexInBoth(a: seq<Param>, b: seq<Param>, name: string)
    ensures var i, j := ParamIndex(a, name), ParamIndex(b, name);
            ParamIndex(a + b, name) == if i.Some? then i else if j.Some? then Some(|a| + j.value) else None
    decreases |a|
  {
    if a == [] {
      assert a + b == b;
    } else {
      assert (a + b)[1..] == a[1..] + b;
      IndexInBoth(a[1..], b, name);
    }
  }

  /** A call binds exactly when it fits. */
  lemma {:induction false} BindsWhenItFits<V>(f: Formals, args: seq<V>, kws: seq<Keyword<V>>)
    requires WellFormed(f) && DistinctKeywords(kws)
    ensures Bind(f, args, kws).Some? <==> Fits(f, args, kws)
  {
    PlacedKeywords(First(f, args), kws, f.varKwargs);
    KeywordsFitFirst(f, args, kws);
    if PlaceKeywords(First(f, args), kws, f.varKwargs).Some? {
      DefaultsFit(f, args, kws);
    }
  }

  /** Then every parameter has its one value: by position, by name, or from its default. */
  lemma {:induction false} BoundSlot<V>(f: Formals, args: seq<V>, kws: seq<Keyword<V>>, name: string)
    requires WellFormed(f) && DistinctKeywords(kws) && Bind(f, args, kws).Some? && IsParam(AllParams(f), name)
    ensures name in Bind(f, args, kws).value && Bind(f, args, kws).value[name] == SlotOf(f, args, kws, name)
  {
    BindsWhenItFits(f, args, kws);
    SecondSlot(f, args, kws, name);
    FilledDefault(PlaceKeywords(First(f, args), kws, f.varKwargs).value, AllParams(f), name);
    var i := ParamIndex(f.positional, name);
    if i.Some? && i.value < |args| { assert !IsKeyword(kws, f.positional[i.value].name); }
  }
}
