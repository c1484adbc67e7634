/** Printing and parsing of resource ids: <type>[<agent>,<attribute>=<value>], with ,v=<version> or without. */
module ResourceIds {
  import opened Wrappers

  datatype Id = Id(entityType: string, agentName: string, attribute: string, attributeValue: string, version: nat)

  datatype Result<T> = Ok(value: T) | ValueError

  /** The checks of the constructor. */
  function MakeId(entityType: string, agentName: string, attribute: string, attributeValue: string,
        version: nat): (r: Result<Id>) {
    if ',' in agentName || ',' in attribute || '=' in attribute || ']' in attributeValue then ValueError
    else Ok(Id(entityType, agentName, attribute, attributeValue, version))
  }

  ghost predicate Constructed(id: Id) {
    MakeId(id.entityType, id.agentName, id.attribute, id.attributeValue, id.version) == Ok(id)
  }

  // ---------------------------------------------------------------- numbers

  function Digit(n: nat): char
    requires n < 10
  {
    ['0', '1', '2', '3', '4', '5', '6', '7', '8', '9'][n]
  }

  predicate IsDigit(c: char) { '0' <= c <= '9' }

  function Digits(n: nat): (s: string)
    ensures s != [] && forall i :: 0 <= i < |s| ==> IsDigit(s[i])
  {
    if n < 10 then [Digit(n)] else Digits(n / 10) + [Digit(n % 10)]
  }

  function DigitValue(c: char): (n: nat)
    requires IsDigit(c)
    ensures n < 10 && Digit(n) == c
  {
    c as int - '0' as int
  }

  function Number(s: string): nat
    requires forall i :: 0 <= i < |s| ==> IsDigit(s[i])
  {
    if s == [] then 0 else 10 * Number(s[..|s| - 1]) + DigitValue(s[|s| - 1])
  }

  lemma {:induction false} NumberOfDigits(n: nat)
    ensures Number(Digits(n)) == n
  {
    if n >= 10 {
      NumberOfDigits(n / 10);
      assert Digits(n)[..|Digits(n)| - 1] == Digits(n / 10);
    } else {
      assert Digits(n)[..0] == [];
    }
  }

  function PowerOfTen(n: nat): (p: nat)
    ensures p > 0
  {
    if n == 0 then 1 else 10 * PowerOfTen(n - 1)
  }

  /** The digits are the decimal ones, most significant first, without leading zeros. */
  lemma {:induction false} DigitsAreDecimal(n: nat)
    ensures PowerOfTen(|Digits(n)| - 1) <= n < PowerOfTen(|Digits(n)|) || (n == 0 && Digits(n) == "0")
    ensures var s := Digits(n); s[|s| - 1] as int - '0' as int == n % 10 && (n >= 10 ==> s[..|s| - 1] == Digits(n / 10))
  {
    if n >= 10 {
      DigitsAreDecimal(n / 10);
      assert Digits(n)[..|Digits(n)| - 1] == Digits(n / 10);
      assert |Digits(n)| == |Digits(n / 10)| + 1;
    }
  }

  // ---------------------------------------------------------------- the printers

  function ResourceStr(id: Id): string {
    id.entityType + "[" + id.agentName + "," + id.attribute + "=" + id.attributeValue + "]"
  }

  function ResourceVersionStr(id: Id): string {
    ResourceStr(id) + ",v=" + Digits(id.version)
  }

  function Str(id: Id): string {
    if id.version > 0 then ResourceVersionStr(id) else ResourceStr(id)
  }

  // ---------------------------------------------------------------- the regular expression

  datatype Groups = Groups(
    etype: string, hostname: string, attr: string, value: string, version: Option<string>, newline: bool)

  predicate IsWord(c: char) {
    'a' <= c <= 'z' || 'A' <= c <= 'Z' || '0' <= c <= '9' || c == '_' || c == '-'
  }

  /** By their code points: the digits, upper-case and lower-case letters, the underscore and the hyphen. */
  lemma {:induction false} WordCharacters(c: char)
    ensures var n := c as int;
            IsWord(c) <==> 48 <= n <= 57 || 65 <= n <= 90 || 97 <= n <= 122 || n == 95 || n == 45
  {
    assert '0' as int == 48 && '9' as int == 57 && 'A' as int == 65 && 'Z' as int == 90;
    assert 'a' as int == 97 && 'z' as int == 122 && '_' as int == 95 && '-' as int == 45;
  }

  /** The number of word characters at the start. */
  function WordLength(t: string): (n: nat)
    ensures n <= |t| && forall i :: 0 <= i < n ==> IsWord(t[i])
    ensures n < |t| ==> !IsWord(t[n])
  {
    if t != [] && IsWord(t[0]) then 1 + WordLength(t[1..]) else 0
  }

  /** Words with :: between them, at least `least` of them. */
  predicate IsType(t: string, least: nat) {
    var n := WordLength(t);
    n > 0 &&
    if n == |t| then least <= 1
    else n + 2 <= |t| && t[n] == ':' && t[n + 1] == ':' && IsType(t[n + 2..], if least > 0 then least - 1 else 0)
  }

  lemma {:induction false} NoBracketInType(t: string, least: nat)
    requires IsType(t, least)
    ensures '[' !in t
  {
    var n := WordLength(t);
    if n < |t| {
      NoBracketInType(t[n + 2..], if least > 0 then least - 1 else 0);
      assert t == t[..n] + [':', ':'] + t[n + 2..];
    }
  }

  /** A type is a name in a namespace. */
  lemma {:induction false} NamespacedTypes()
    ensures IsType("m::T", 2) && !IsType("T", 2) && !IsType("m:T", 2) && !IsType("::T", 2) && !IsType("m::", 2)
  {
    assert WordLength("m::T") == 1 && "m::T"[3..] == "T" && WordLength("T") == 1;
    assert WordLength("m:T") == 1 && WordLength("::T") == 0;
    assert WordLength("m::") == 1 && "m::"[3..] == "" && WordLength("") == 0;
  }

  predicate AllDigits(s: string) {
    s != [] && forall i :: 0 <= i < |s| ==> IsDigit(s[i])
  }

  /** What follows the value; the end of the string may be preceded by a newline. */
  function Tail(version: Option<string>, newline: bool): string {
    (if version.Some? then ",v=" + version.value else "") + if newline then "\n" else ""
  }

  /** The string has the form of the expression, and these are its groups. */
  ghost predicate Matches(s: string, g: Groups) {
    && s == g.etype + "[" + (g.hostname + "," + (g.attr + "=" + (g.value + "]" + Tail(g.version, g.newline))))
    && IsType(g.etype, 2)
    && g.hostname != "" && ',' !in g.hostname
    && g.attr != "" && '=' !in g.attr
    && g.value != "" && ']' !in g.value
    && (g.version.Some? ==> AllDigits(g.version.value))
  }

  /** The first occurrence of a character. */
  function Find(s: string, c: char): (i: Option<nat>)
    ensures i.Some? ==> i.value < |s| && s[i.value] == c && c !in s[..i.value]
    ensures i.None? ==> c !in s
  {
    if s == [] then None
    else if s[0] == c then Some(0)
    else
      var i := Find(s[1..], c);
      if i.Some? then
        assert s[..i.value + 1] == [s[0]] + s[1..][..i.value];
        Some(i.value + 1)
      else None
  }

  /** Splits at the first occurrence, which is left out. */
  function Split(s: string, c: char): (r: Option<(string, string)>)
    ensures r.Some? ==> s == r.value.0 + [c] + r.value.1 && c !in r.value.0
    ensures r.None? ==> c !in s
  {
    var i := Find(s, c);
    if i.Some? then Some((s[..i.value], s[i.value + 1..])) else None
  }

  lemma {:induction false} SplitAt(a: string, c: char, b: string)
    requires c !in a
    ensures Split(a + [c] + b, c) == Some((a, b))
  {
    FindAt(a, c, b);
    var s := a + [c] + b;
    assert s[..|a|] == a && s[|a| + 1..] == b;
  }

  lemma {:induction false} FindAt(a: string, c: char, b: string)
    requires c !in a
    ensures Find(a + [c] + b, c) == Some(|a|)
  {
    if a != [] {
      assert (a + [c] + b)[1..] == a[1..] + [c] + b;
      FindAt(a[1..], c, b);
    }
  }

  function ParseTail(tail: string): (r: Option<(Option<string>, bool)>)
    ensures r.Some? && r.value.0.Some? ==> AllDigits(r.value.0.value)
  {
    var newline := tail != [] && tail[|tail| - 1] == '\n';
    var body := if newline then tail[..|tail| - 1] else tail;
    if body == "" then Some((None, newline))
    else if |body| > 3 && body[..3] == ",v=" && AllDigits(body[3..]) then Some((Some(body[3..]), newline))
    else None
  }

  lemma {:induction false} TailParses(tail: string)
    ensures var r := ParseTail(tail); r.Some? ==>
              tail == Tail(r.value.0, r.value.1) && (r.value.0.Some? ==> AllDigits(r.value.0.value))
  {
    var newline := tail != [] && tail[|tail| - 1] == '\n';
    var body := if newline then tail[..|tail| - 1] else tail;
    assert tail == body + if newline then "\n" else "";
    if |body| > 3 { assert body == body[..3] + body[3..]; }
  }

  lemma {:induction false} BodyOf(body: string, newline: bool)
    requires body == "" || body[|body| - 1] != '\n'
    ensures var tail := body + if newline then "\n" else "";
            && newline == (tail != [] && tail[|tail| - 1] == '\n')
            && body == if newline then tail[..|tail| - 1] else tail
  {
  }

  lemma {:induction false} ParsesTail(version: Option<string>, newline: bool)
    requires version.Some? ==> AllDigits(version.value)
    ensures ParseTail(Tail(version, newline)) == Some((version, newline))
  {
    var tail := Tail(version, newline);
    var body := if version.Some? then ",v=" + version.value else "";
    assert tail == body + if newline then "\n" else "";
    if version.Some? {
      assert body[|body| - 1] == version.value[|version.value| - 1];
      assert IsDigit(body[|body| - 1]);
    }
    BodyOf(body, newline);
    if version.Some? {
      assert |body| > 3 && body[..3] == ",v=" && body[3..] == version.value;
    }
  }

  /** The part of the expression after the opening bracket. */
  function SearchArguments(s: string): (r: Option<(string, string, string, (Option<string>, bool))>)
    ensures r.Some? && r.value.3.0.Some? ==> AllDigits(r.value.3.0.value)
  {
    var h := Split(s, ',');
    if h.None? || h.value.0 == "" then None else
    var a := Split(h.value.1, '=');
    if a.None? || a.value.0 == "" then None else
    var v := Split(a.value.1, ']');
    if v.None? || v.value.0 == "" then None else
    var tail := ParseTail(v.value.1);
    if tail.None? then None else Some((h.value.0, a.value.0, v.value.0, tail.value))
  }

  /** The search for the expression. */
  function Search(s: string): (g: Option<Groups>)
    ensures g.Some? && g.value.version.Some? ==> AllDigits(g.value.version.value)
  {
    var t := Split(s, '[');
    if t.None? || !IsType(t.value.0, 2) then None else
    var r := SearchArguments(t.value.1);
    if r.None? then None else Some(Groups(t.value.0, r.value.0, r.value.1, r.value.2, r.value.3.0, r.value.3.1))
  }

  lemma {:induction false} ArgumentsAreFound(hostname: string, attr: string, value: string, tail: string)
    requires hostname != "" && ',' !in hostname && attr != "" && '=' !in attr && value != "" && ']' !in value
    requires ParseTail(tail).Some?
    ensures SearchArguments(hostname + "," + (attr + "=" + (value + "]" + tail)))
         == Some((hostname, attr, value, ParseTail(tail).value))
  {
    hide AllDigits, ParseTail, Split;
    SplitAt(hostname, ',', attr + "=" + (value + "]" + tail));
    SplitAt(attr, '=', value + "]" + tail);
    SplitAt(value, ']', tail);
  }

  lemma {:induction false} MatchIsFound(s: string, g: Groups)
    requires Matches(s, g)
    ensures Search(s) == Some(g)
  {
    var tail := Tail(g.version, g.newline);
    NoBracketInType(g.etype, 2);
    ParsesTail(g.version, g.newline);
    ArgumentsAreFound(g.hostname, g.attr, g.value, tail);
    hide AllDigits, ParseTail, Split, Tail, SearchArguments;
    SplitAt(g.etype, '[', g.hostname + "," + (g.attr + "=" + (g.value + "]" + tail)));
  }

  lemma {:induction false} FoundMatches(s: string)
    requires Search(s).Some?
    ensures Matches(s, Search(s).value)
  {
    var g := Search(s).value;
    hide IsType, AllDigits, ParseTail;
    var r1 := Split(s, '[').value.1;
    var r2 := Split(r1, ',').value.1;
    var r3 := Split(r2, '=').value.1;
    var tail := Split(r3, ']').value.1;
    TailParses(tail);
  }

  lemma {:induction false} Assoc(a: string, b: string, c: string)
    ensures a + (b + c) == a + b + c
  {
  }

  /** The expression matches in one way at most, and the search finds it. */
  lemma {:induction false} SearchIsMatch(s: string, g: Groups)
    ensures Search(s) == Some(g) <==> Matches(s, g)
  {
    hide Matches, Search;
    if Search(s).Some? { FoundMatches(s); }
    if Matches(s, g) { MatchIsFound(s, g); }
  }

  // ---------------------------------------------------------------- parsing

  function ParseId(s: string, version: Option<nat>): Result<Id> {
    var g := Search(s);
    if g.None? then ValueError
    else
      var found := if g.value.version.Some? then Number(g.value.version.value) else 0;
      var v := if version.Some? then version.value else found;
      MakeId(g.value.etype, g.value.hostname, g.value.attr, g.value.value, v)
  }

  function SetVersionInId(s: string, version: nat): Result<string> {
    var id := ParseId(s, None);
    if id.ValueError? then ValueError
    else
      var copy := MakeId(id.value.entityType, id.value.agentName, id.value.attribute, id.value.attributeValue, version);
      if copy.ValueError? then ValueError else Ok(ResourceVersionStr(copy.value))
  }

  predicate IsResourceId(s: string) {
    Search(s).Some?
  }

  predicate IsResourceVersionId(s: string) {
    Search(s).Some? && Search(s).value.version.Some?
  }

  /** A type with a namespace, and no part empty: exactly what can be parsed back. */
  predicate Parseable(id: Id) {
    IsType(id.entityType, 2) && id.agentName != "" && id.attribute != "" && id.attributeValue != ""
  }

  function GroupsOf(id: Id, withVersion: bool): Groups {
    Groups(id.entityType, id.agentName, id.attribute, id.attributeValue,
        if withVersion then Some(Digits(id.version)) else None, false)
  }

  lemma {:induction false} PrintedMatches(id: Id)
    requires Constructed(id) && Parseable(id)
    ensures Search(ResourceStr(id)) == Some(GroupsOf(id, false))
    ensures Search(ResourceVersionStr(id)) == Some(GroupsOf(id, true))
  {
    hide IsType, Digits;
    PrintedNested(id, Tail(None, false));
    PrintedNested(id, Tail(Some(Digits(id.version)), false));
    assert ResourceStr(id) + Tail(None, false) == ResourceStr(id);
    assert Tail(Some(Digits(id.version)), false) == ",v=" + Digits(id.version);
    Assoc(ResourceStr(id), ",v=", Digits(id.version));
    MatchIsFound(ResourceStr(id), GroupsOf(id, false));
    MatchIsFound(ResourceVersionStr(id), GroupsOf(id, true));
  }

  lemma {:induction false} Joined(a: string, b: string, c: string, d: string, e: string, f: string, g: string,
        h: string, i: string)
    ensures a + b + (c + d + (e + f + (g + h + i))) == a + b + c + d + e + f + g + h + i
  {
    Assoc(a + b, c + d, e + f + (g + h + i));
    Assoc(a + b + (c + d), e + f, g + h + i);
    Assoc(a + b, c, d);
    Assoc(a + b + c + d, e, f);
    Assoc(a + b + c + d + e + f, g + h, i);
    Assoc(a + b + c + d + e + f, g, h);
  }

  lemma {:induction false} PrintedNested(id: Id, tail: string)
    ensures ResourceStr(id) + tail
         == id.entityType + "[" + (id.agentName + "," + (id.attribute + "=" + (id.attributeValue + "]" + tail)))
  {
    Joined(id.entityType, "[", id.agentName, ",", id.attribute, "=", id.attributeValue, "]", tail);
  }

  lemma {:induction false} RemadeWith(id: Id, version: nat)
    requires Constructed(id)
    ensures MakeId(id.entityType, id.agentName, id.attribute, id.attributeValue, version) == Ok(id.(version := version))
  {
  }

  /** Parsing undoes the printer with the version. */
  lemma {:induction false} ParseUndoesVersionStr(id: Id)
    requires Constructed(id) && Parseable(id)
    ensures ParseId(ResourceVersionStr(id), None) == Ok(id) && IsResourceVersionId(ResourceVersionStr(id))
  {
    PrintedMatches(id);
    NumberOfDigits(id.version);
    hide Search, Digits, Number, ResourceStr, ResourceVersionStr, IsType;
  }

  /** Parsing undoes the printer without a version, but for the version, which is what the caller says, or zero. */
  lemma {:induction false} ParseUndoesResourceStr(id: Id, version: Option<nat>)
    requires Constructed(id) && Parseable(id)
    ensures ParseId(ResourceStr(id), version) == Ok(id.(version := if version.Some? then version.value else 0))
    ensures IsResourceId(ResourceStr(id)) && !IsResourceVersionId(ResourceStr(id))
  {
    PrintedMatches(id);
    hide Search, Digits, Number, ResourceStr, ResourceVersionStr, IsType;
  }

  lemma {:induction false} EitherForm(id: Id)
    requires ParseId(ResourceVersionStr(id), None) == Ok(id) && ParseId(ResourceStr(id), None) == Ok(id.(version := 0))
    ensures ParseId(Str(id), None) == Ok(id)
  {
    hide ParseId, ResourceVersionStr, ResourceStr;
  }

  /** Parsing undoes the printer that leaves out a version of zero. */
  lemma {:induction false} ParseUndoesStr(id: Id)
    requires Constructed(id) && Parseable(id)
    ensures ParseId(Str(id), None) == Ok(id)
  {
    ParseUndoesVersionStr(id);
    ParseUndoesResourceStr(id, None);
    hide *;
    EitherForm(id);
  }

  /** A string can be parsed exactly when it matches with no comma in the attribute; then the groups are the
      components, and the version is the one passed in, or the one in the string, or zero. */
  lemma {:induction false} ParsesExactly(s: string, version: Option<nat>)
    ensures ParseId(s, version).Ok? <==> exists g :: Matches(s, g) && ',' !in g.attr
    ensures forall g :: Matches(s, g) && ',' !in g.attr ==>
              ParseId(s, version) ==
              Ok(Id(g.etype, g.hostname, g.attr, g.value,
                    if version.Some? then version.value else if g.version.Some? then Number(g.version.value) else 0))
  {
    if Search(s).Some? { FoundMatches(s); }
    forall g | Matches(s, g) ensures Search(s) == Some(g) { MatchIsFound(s, g); }
  }

  /** Whatever is parsed is an id that can be parsed back, so no other id survives the round trip. */
  lemma {:induction false} ParsedIsParseable(s: string, version: Option<nat>)
    ensures ParseId(s, version).Ok? ==> Constructed(ParseId(s, version).value) && Parseable(ParseId(s, version).value)
  {
    if Search(s).Some? { FoundMatches(s); }
  }

  lemma {:induction false} RoundTripExactly(id: Id)
    requires Constructed(id)
    ensures ParseId(ResourceVersionStr(id), None) == Ok(id) <==> Parseable(id)
  {
    if Parseable(id) { ParseUndoesVersionStr(id); }
    if ParseId(ResourceVersionStr(id), None) == Ok(id) { ParsedIsParseable(ResourceVersionStr(id), None); }
  }

  /** Setting the version changes the version and nothing else, in either form of the string. */
  lemma {:induction false} SetVersionChangesVersion(s: string, version: nat)
    ensures SetVersionInId(s, version).Ok? <==> ParseId(s, None).Ok?
    ensures ParseId(s, None).Ok? ==>
              && ParseId(SetVersionInId(s, version).value, None) == Ok(ParseId(s, None).value.(version := version))
              && IsResourceVersionId(SetVersionInId(s, version).value)
  {
    if ParseId(s, None).Ok? { VersionIsSet(s, version); }
  }

  lemma {:induction false} VersionIsSet(s: string, version: nat)
    requires ParseId(s, None).Ok?
    ensures SetVersionInId(s, version).Ok?
    ensures ParseId(SetVersionInId(s, version).value, None) == Ok(ParseId(s, None).value.(version := version))
    ensures IsResourceVersionId(SetVersionInId(s, version).value)
  {
    var id := ParseId(s, None).value;
    ParsedIsParseable(s, None);
    RemadeWith(id, version);
    hide ParseId, MakeId, ResourceVersionStr, ResourceStr, IsResourceVersionId, IsType;
    assert SetVersionInId(s, version) == Ok(ResourceVersionStr(id.(version := version)));
    hide SetVersionInId;
    ParseUndoesVersionStr(id.(version := version));
  }

  lemma {:induction false} SplitIsUnique(a: string, c: char, b: string, a': string, b': string)
    requires c !in a && c !in a' && a + [c] + b == a' + [c] + b'
    ensures a == a' && b == b'
  {
    SplitAt(a, c, b);
    SplitAt(a', c, b');
  }

  function VersionTail(id: Id): string {
    if id.version > 0 then ",v=" + Digits(id.version) else ""
  }

  lemma {:induction false} StrNested(id: Id)
    ensures Str(id) == id.entityType + "["
                       + (id.agentName + "," + (id.attribute + "=" + (id.attributeValue + "]" + VersionTail(id))))
  {
    hide Digits;
    PrintedNested(id, VersionTail(id));
    Assoc(ResourceStr(id), ",v=", Digits(id.version));
  }

  lemma {:induction false} SameVersion(a: Id, b: Id)
    requires VersionTail(a) == VersionTail(b)
    ensures a.version == b.version
  {
    NumberOfDigits(a.version);
    NumberOfDigits(b.version);
    hide Digits, Number;
    if a.version > 0 {
      assert VersionTail(a)[3..] == Digits(a.version);
      assert VersionTail(b)[3..] == Digits(b.version);
    }
  }

  lemma {:induction false} SameArguments(a: Id, b: Id)
    requires Constructed(a) && Constructed(b)
    requires a.agentName + "," + (a.attribute + "=" + (a.attributeValue + "]" + VersionTail(a)))
          == b.agentName + "," + (b.attribute + "=" + (b.attributeValue + "]" + VersionTail(b)))
    ensures a == b.(entityType := a.entityType)
  {
    hide VersionTail;
    var a1, b1 := a.attributeValue + "]" + VersionTail(a), b.attributeValue + "]" + VersionTail(b);
    SplitIsUnique(a.agentName, ',', a.attribute + "=" + a1, b.agentName, b.attribute + "=" + b1);
    SplitIsUnique(a.attribute, '=', a1, b.attribute, b1);
    SplitIsUnique(a.attributeValue, ']', VersionTail(a), b.attributeValue, VersionTail(b));
    SameVersion(a, b);
  }

  /** Ids are compared by their strings, which together with the type determine all components; the type is determined
      unless one of the two holds a bracket. */
  lemma {:induction false} StrIsInjective(a: Id, b: Id)
    requires Constructed(a) && Constructed(b)
    ensures a == b <==> Str(a) == Str(b) && a.entityType == b.entityType
    ensures '[' !in a.entityType && '[' !in b.entityType ==> (a == b <==> Str(a) == Str(b))
  {
    StrNested(a);
    StrNested(b);
    hide Str, VersionTail, Constructed;
    var a1 := a.agentName + "," + (a.attribute + "=" + (a.attributeValue + "]" + VersionTail(a)));
    var b1 := b.agentName + "," + (b.attribute + "=" + (b.attributeValue + "]" + VersionTail(b)));
    if Str(a) == Str(b) {
      if a.entityType == b.entityType {
        assert Str(a)[|a.entityType| + 1..] == a1 && Str(b)[|b.entityType| + 1..] == b1;
        SameArguments(a, b);
      } else if '[' !in a.entityType && '[' !in b.entityType {
        SplitIsUnique(a.entityType, '[', a1, b.entityType, b1);
        assert false;
      }
    }
  }

  /** With a bracket in a type two ids can have one string. */
  lemma {:induction false} BracketsClash(a: Id, b: Id)
    requires a == Id("t[a", "b", "x", "y", 0) && b == Id("t", "a[b", "x", "y", 0)
    ensures Constructed(a) && Constructed(b) && a != b && Str(a) == Str(b)
  {
    StrNested(a);
    StrNested(b);
    assert |"t[a"| == 3 && |"t"| == 1;
  }

  /** An id in both forms. */
  lemma {:induction false} PrintedForms()
    ensures ResourceStr(Id("m::T", "h", "n", "x", 12)) == "m::T[h,n=x]"
    ensures Str(Id("m::T", "h", "n", "x", 12)) == "m::T[h,n=x],v=12"
  {
    var id := Id("m::T", "h", "n", "x", 12);
    assert "m::T" + "[" == "m::T[";
    assert "m::T[" + "h" == "m::T[h";
    assert "m::T[h" + "," == "m::T[h,";
    assert "m::T[h," + "n" == "m::T[h,n";
    assert "m::T[h,n" + "=" == "m::T[h,n=";
    assert "m::T[h,n=" + "x" == "m::T[h,n=x";
    assert "m::T[h,n=x" + "]" == "m::T[h,n=x]";
    TwelveIsPrinted();
    hide Digits;
    assert "m::T[h,n=x]" + ",v=" == "m::T[h,n=x],v=";
    assert "m::T[h,n=x],v=" + "12" == "m::T[h,n=x],v=12";
  }

  lemma {:induction false} TwelveIsPrinted()
    ensures Digits(12) == "12"
  {
    assert Digits(1) == ['1'] && Digit(2) == '2';
    assert Digits(12) == Digits(1) + [Digit(2)];
  }
}
