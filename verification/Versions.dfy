/** Version numbers as PEP 440 orders them, without an epoch; the kind of change between two of them; and the
    choice of the next development version. */
module Versions {
  import opened Wrappers

  datatype PreRelease = PreRelease(phase: nat, number: nat)  // phase 0 is a, 1 is b, 2 is rc

  datatype Suffix = Suffix(pre: Option<PreRelease>, post: Option<nat>, dev: Option<nat>)

  /** A local label is given by its place among the local labels. */
  datatype Version = Version(release: seq<nat>, suffix: Suffix, local: Option<nat>)

  const NO_TAG := Suffix(None, None, None)
  const DEV0 := Suffix(None, None, Some(0))
  const FIRST := Version([0, 0, 0], NO_TAG, None)

  // ---------------------------------------------------------------- the order

  /** A component of a release; a missing one is zero. */
  function Part(release: seq<nat>, i: nat): nat {
    if i < |release| then release[i] else 0
  }

  function Max(a: nat, b: nat): nat { if a < b then b else a }

  /** The first component from `i` on in which two releases differ. */
  function FirstDifference(a: seq<nat>, b: seq<nat>, i: nat): (k: Option<nat>)
    ensures k.None? ==> forall j: nat :: i <= j ==> Part(a, j) == Part(b, j)
    ensures k.Some? ==> i <= k.value < Max(|a|, |b|) && Part(a, k.value) != Part(b, k.value)
    ensures k.Some? ==> forall j: nat :: i <= j < k.value ==> Part(a, j) == Part(b, j)
    decreases Max(|a|, |b|) - i
  {
    if i >= Max(|a|, |b|) then None
    else if Part(a, i) != Part(b, i) then Some(i)
    else FirstDifference(a, b, i + 1)
  }

  function Differs(a: seq<nat>, b: seq<nat>): Option<nat> {
    FirstDifference(a, b, 0)
  }

  /** A development release comes before the pre-releases, those before the release, that before the
      post-releases; without a local label comes first. */
  function SuffixKey(v: Version): (key: seq<int>)
    ensures |key| == 8
  {
    var s := v.suffix;
    (if s.pre.Some? then [0, s.pre.value.phase, s.pre.value.number]
     else if s.post.None? && s.dev.Some? then [-1, 0, 0] else [1, 0, 0])
    + [if s.post.Some? then s.post.value else -1]
    + (if s.dev.Some? then [0, s.dev.value] else [1, 0])
    + (if v.local.Some? then [1, v.local.value] else [0, 0])
  }

  predicate LexLess(a: seq<int>, b: seq<int>)
    requires |a| == |b|
  {
    a != [] && (a[0] < b[0] || (a[0] == b[0] && LexLess(a[1..], b[1..])))
  }

  predicate Less(v: Version, w: Version) {
    match Differs(v.release, w.release)
    case Some(k) => Part(v.release, k) < Part(w.release, k)
    case None => LexLess(SuffixKey(v), SuffixKey(w))
  }

  predicate Le(v: Version, w: Version) {
    !Less(w, v)
  }

  predicate ReleaseLe(a: seq<nat>, b: seq<nat>) {
    match Differs(a, b) case None => true case Some(k) => Part(a, k) < Part(b, k)
  }

  lemma {:induction false} LexTrichotomy(a: seq<int>, b: seq<int>)
    requires |a| == |b|
    ensures LexLess(a, b) ==> !LexLess(b, a) && a != b
    ensures !LexLess(a, b) && !LexLess(b, a) ==> a == b
  {
    if a != [] {
      LexTrichotomy(a[1..], b[1..]);
      assert a == [a[0]] + a[1..] && b == [b[0]] + b[1..];
    }
  }

  lemma {:induction false} LexTransitive(a: seq<int>, b: seq<int>, c: seq<int>)
    requires |a| == |b| == |c| && !LexLess(b, a) && !LexLess(c, b)
    ensures !LexLess(c, a)
  {
    if a != [] && a[0] == b[0] == c[0] { LexTransitive(a[1..], b[1..], c[1..]); }
  }

  /** The difference between two releases is where their parts say it is. */
  lemma {:induction false} DiffersAt(a: seq<nat>, b: seq<nat>, k: nat)
    requires (forall j: nat :: j < k ==> Part(a, j) == Part(b, j)) && Part(a, k) != Part(b, k)
    ensures Differs(a, b) == Some(k)
  {
    if Differs(a, b).Some? {
      var d := Differs(a, b).value;
      assert d == k || d < k || k < d;
    }
  }

  lemma {:induction false} DiffersSymmetric(a: seq<nat>, b: seq<nat>)
    ensures Differs(a, b) == Differs(b, a)
  {
    if Differs(a, b).Some? {
      DiffersAt(b, a, Differs(a, b).value);
    } else if Differs(b, a).Some? {
      DiffersAt(a, b, Differs(b, a).value);
    }
  }

  lemma {:induction false} LeTotal(v: Version, w: Version)
    ensures Le(v, w) || Le(w, v)
    ensures Le(v, w) ==> ReleaseLe(v.release, w.release)
    ensures Less(v, w) ==> Le(v, w)
  {
    DiffersSymmetric(v.release, w.release);
    LexTrichotomy(SuffixKey(v), SuffixKey(w));
  }

  lemma {:induction false} LeTransitive(v: Version, w: Version, x: Version)
    requires Le(v, w) && Le(w, x)
    ensures Le(v, x)
  {
    hide SuffixKey, LexLess;
    DiffersSymmetric(v.release, w.release);
    DiffersSymmetric(w.release, x.release);
    DiffersSymmetric(v.release, x.release);
    var d, e := Differs(v.release, w.release), Differs(w.release, x.release);
    if d.Some? && (e.None? || d.value <= e.value) {
      DiffersAt(v.release, x.release, d.value);
    } else if e.Some? {
      DiffersAt(v.release, x.release, e.value);
    } else {
      LexTransitive(SuffixKey(v), SuffixKey(w), SuffixKey(x));
    }
  }

  // ---------------------------------------------------------------- what the order says

  lemma {:induction false} LexLessAt(a: seq<int>, b: seq<int>, k: nat)
    requires |a| == |b| && k < |a| && a[..k] == b[..k] && a[k] < b[k]
    ensures LexLess(a, b)
  {
    if k > 0 {
      assert a[0] == a[..k][0] == b[0];
      assert a[1..][..k - 1] == a[..k][1..] == b[1..][..k - 1];
      LexLessAt(a[1..], b[1..], k - 1);
    }
  }

  predicate SameRelease(v: Version, w: Version) {
    Differs(v.release, w.release).None?
  }

  predicate OnlyDev(s: Suffix) {
    s.pre.None? && s.post.None? && s.dev.Some?
  }

  /** A version that is not a pre-release, nor a development release of the release itself. */
  predicate FromFinalOn(s: Suffix) {
    s.pre.None? && (s.post.Some? || s.dev.None?)
  }

  /** Development releases come before all pre-releases of a release, these before the final release, and that before
      the post-releases. */
  lemma {:induction false} StagesInOrder(v: Version, w: Version)
    requires SameRelease(v, w)
    ensures OnlyDev(v.suffix) && !OnlyDev(w.suffix) ==> Less(v, w)
    ensures v.suffix.pre.Some? && FromFinalOn(w.suffix) ==> Less(v, w)
    ensures v.suffix == NO_TAG && w.suffix.pre.None? && w.suffix.post.Some? ==> Less(v, w)
  {
    var a, b := SuffixKey(v), SuffixKey(w);
    if a[0] < b[0] { LexLessAt(a, b, 0); }
    if a[..3] == b[..3] && a[3] < b[3] { LexLessAt(a, b, 3); }
  }

  /** Of the pre-releases, a comes before b and b before rc; within one phase the numbers grow. */
  lemma {:induction false} PreReleasesInOrder(v: Version, w: Version)
    requires SameRelease(v, w) && v.suffix.pre.Some? && w.suffix.pre.Some?
    requires var p, q := v.suffix.pre.value, w.suffix.pre.value;
             p.phase < q.phase || (p.phase == q.phase && p.number < q.number)
    ensures Less(v, w)
  {
    var a, b := SuffixKey(v), SuffixKey(w);
    if a[1] < b[1] { LexLessAt(a, b, 1); } else { LexLessAt(a, b, 2); }
  }

  /** A post-release of a version comes after it, and post-releases grow. */
  lemma {:induction false} PostReleasesInOrder(v: Version, w: Version)
    requires SameRelease(v, w) && v.suffix.pre == w.suffix.pre && w.suffix.post.Some?
    requires v.suffix.post.Some? ==> v.suffix.post.value < w.suffix.post.value
    ensures Less(v, w)
  {
    var a, b := SuffixKey(v), SuffixKey(w);
    if a[0] < b[0] { LexLessAt(a, b, 0); } else { LexLessAt(a, b, 3); }
  }

  /** A development release comes before what it leads to, be that a pre-release, a release or a post-release, and
      development releases grow. */
  lemma {:induction false} DevReleasesInOrder(v: Version, w: Version)
    requires SameRelease(v, w) && v.suffix.pre == w.suffix.pre && v.suffix.post == w.suffix.post && v.suffix.dev.Some?
    requires w.suffix.dev.Some? ==> v.suffix.dev.value < w.suffix.dev.value
    ensures Less(v, w)
  {
    var a, b := SuffixKey(v), SuffixKey(w);
    if a[0] < b[0] { LexLessAt(a, b, 0); } else if a[4] < b[4] { LexLessAt(a, b, 4); } else { LexLessAt(a, b, 5); }
  }

  /** Without a local label comes before any, and labels keep their order. */
  lemma {:induction false} LocalLabelsInOrder(v: Version, w: Version)
    requires SameRelease(v, w) && v.suffix == w.suffix && w.local.Some?
    requires v.local.Some? ==> v.local.value < w.local.value
    ensures Less(v, w)
  {
    var a, b := SuffixKey(v), SuffixKey(w);
    if a[6] < b[6] { LexLessAt(a, b, 6); } else { LexLessAt(a, b, 7); }
  }

  /** A lower release comes first whatever follows it, component by component from the left. */
  lemma {:induction false} ReleasesInOrder(v: Version, w: Version, k: nat)
    requires k < |w.release| && (forall j: nat :: j < k && j < |v.release| ==> v.release[j] == w.release[j])
    requires forall j: nat :: |v.release| <= j < k ==> w.release[j] == 0
    requires (if k < |v.release| then v.release[k] else 0) < w.release[k]
    ensures Less(v, w)
  {
    DiffersAt(v.release, w.release, k);
  }

  /** Trailing zeros make no difference. */
  lemma {:induction false} TrailingZeros(v: Version, n: nat)
    ensures var padded := v.(release := v.release + Zeros(n)); !Less(v, padded) && !Less(padded, v)
  {
    var w := v.(release := v.release + Zeros(n));
    assert forall j: nat :: Part(v.release, j) == Part(w.release, j);
    DiffersSymmetric(v.release, w.release);
    assert SuffixKey(v) == SuffixKey(w);
    LexTrichotomy(SuffixKey(v), SuffixKey(w));
  }

  // ---------------------------------------------------------------- the kind of change

  datatype ChangeType = MAJOR | MINOR | PATCH | REVISION

  /** The place in the order of the source: a revision is the least change. */
  function Rank(c: ChangeType): nat {
    match c case REVISION => 0 case PATCH => 1 case MINOR => 2 case MAJOR => 3
  }

  predicate AtLeast(d: Option<ChangeType>, c: ChangeType) {
    d.Some? && Rank(d.value) >= Rank(c)
  }

  datatype Error = ValueError | Unreachable | AssertionError | StableBetween(v: Version)

  datatype Result<T> = Ok(value: T) | Err(error: Error)

  function Diff(low: Version, high: Version): Result<Option<ChangeType>> {
    if Less(high, low) then Err(ValueError)
    else if Differs(low.release, high.release).None? then Ok(None)
    else if Part(high.release, 0) > Part(low.release, 0) then Ok(Some(MAJOR))
    else if Part(high.release, 1) > Part(low.release, 1) then Ok(Some(MINOR))
    else if Part(high.release, 2) > Part(low.release, 2) then Ok(Some(PATCH))
    else if |high.release| >= 4 && (|low.release| < 4 || high.release[3] > low.release[3]) then Ok(Some(REVISION))
    else Err(Unreachable)
  }

  function ByIndex(k: nat): ChangeType {
    if k == 0 then MAJOR else if k == 1 then MINOR else if k == 2 then PATCH else REVISION
  }

  function BumpIndex(c: ChangeType): nat {
    match c case REVISION => 3 case PATCH => 2 case MINOR => 1 case MAJOR => 0
  }

  /** The kind of change is the first component that differs; what the source calls unreachable is reached
      exactly when that is the fifth or a later one and the lower version has a fourth. */
  lemma {:induction false} DiffIsFirstDifference(low: Version, high: Version)
    requires Le(low, high)
    ensures var d := Differs(low.release, high.release);
            Diff(low, high) == if d.None? then Ok(None)
                               else if d.value >= 4 && |low.release| >= 4 then Err(Unreachable)
                               else Ok(Some(ByIndex(d.value)))
  {
    hide SuffixKey, LexLess;
    DiffersSymmetric(low.release, high.release);
    var d := Differs(low.release, high.release);
    if d.Some? && d.value >= 3 {
      assert Part(low.release, 3) <= Part(high.release, 3);
    }
  }

  /** A change is large enough when it is the requested one or one further to the left. */
  lemma {:induction false} AtLeastMeans(d: ChangeType)
    ensures AtLeast(Some(d), MAJOR) <==> d == MAJOR
    ensures AtLeast(Some(d), MINOR) <==> d == MAJOR || d == MINOR
    ensures AtLeast(Some(d), PATCH) <==> d == MAJOR || d == MINOR || d == PATCH
    ensures AtLeast(Some(d), REVISION) && forall c :: !AtLeast(None, c)
  {
  }

  /** The kinds of change by their names, for releases of three components. */
  lemma {:induction false} DiffByName(low: Version, high: Version)
    requires |low.release| == 3 && |high.release| == 3 && Le(low, high)
    ensures Diff(low, high) == Ok(Some(MAJOR)) <==> low.release[0] != high.release[0]
    ensures Diff(low, high) == Ok(Some(MINOR)) <==>
            low.release[0] == high.release[0] && low.release[1] != high.release[1]
    ensures Diff(low, high) == Ok(Some(PATCH)) <==> low.release[..2] == high.release[..2] && low.release != high.release
    ensures Diff(low, high) == Ok(None) <==> low.release == high.release
  {
    DiffIsFirstDifference(low, high);
    var a, b := low.release, high.release;
    if d: nat :| d < 3 && a[d] != b[d] {
      if a[0] != b[0] { DiffersAt(a, b, 0); } else if a[1] != b[1] { DiffersAt(a, b, 1); } else { DiffersAt(a, b, 2); }
    } else {
      assert a == b;
    }
    assert a[..2] == [a[0], a[1]] && b[..2] == [b[0], b[1]];
  }

  /** A lower version that is not lower is an error, and the only one but that. */
  lemma {:induction false} DiffNeedsOrder(low: Version, high: Version)
    ensures Diff(low, high) == Err(ValueError) <==> Less(high, low)
    ensures Diff(low, high).Err? ==> Diff(low, high).error.ValueError? || Diff(low, high).error.Unreachable?
  {
  }

  /** Up to four components the raise that the source calls unreachable is unreachable. */
  lemma {:induction false} FourComponentsAreEnough(low: Version, high: Version)
    requires |high.release| <= 4
    ensures Diff(low, high) != Err(Unreachable)
  {
    LeTotal(low, high);
    if Le(low, high) {
      DiffIsFirstDifference(low, high);
    }
  }

  /** Five components are not. */
  lemma {:induction false} UnreachableIsReached()
    ensures Diff(Version([1, 2, 3, 4], NO_TAG, None), Version([1, 2, 3, 4, 5], NO_TAG, None)) == Err(Unreachable)
  {
    DiffersAt([1, 2, 3, 4], [1, 2, 3, 4, 5], 4);
    DiffersAt([1, 2, 3, 4, 5], [1, 2, 3, 4], 4);
  }

  // ---------------------------------------------------------------- bumping

  function Bumped(c: ChangeType, release: seq<nat>): (parts: seq<nat>)
    ensures |parts| == Max(3, BumpIndex(c) + 1)
  {
    var at := BumpIndex(c);
    seq(Max(3, at + 1), i requires 0 <= i =>
      if i < at then Part(release, i) else if i == at then Part(release, at) + 1 else 0)
  }

  function Zeros(n: nat): (zs: seq<nat>)
    ensures |zs| == n && forall i :: 0 <= i < n ==> zs[i] == 0
  {
    seq(n, i => 0)
  }

  method BumpVersion(c: ChangeType, version: Version, tag: Suffix) returns (bumped: Version)
    ensures bumped == Version(Bumped(c, version.release), tag, None)
    ensures bumped.release == match c
                              case MAJOR => [Part(version.release, 0) + 1, 0, 0]
                              case MINOR => [Part(version.release, 0), Part(version.release, 1) + 1, 0]
                              case PATCH =>
                                [Part(version.release, 0), Part(version.release, 1), Part(version.release, 2) + 1]
                              case REVISION =>
                                [Part(version.release, 0), Part(version.release, 1), Part(version.release, 2),
                                 Part(version.release, 3) + 1]
  {
    var bumpIndex := BumpIndex(c);
    var base := version.release;
    var digits := Max(Max(bumpIndex + 1, 3), |base|);
    var parts := ((if bumpIndex + 1 <= |base| then base[..bumpIndex + 1] else base) + Zeros(digits))[..digits];
    assert forall i :: 0 <= i < digits ==> parts[i] == if i <= bumpIndex then Part(base, i) else 0;
    parts := parts[bumpIndex := parts[bumpIndex] + 1];
    while |parts| > 3 && parts[|parts| - 1] == 0
      invariant Max(bumpIndex + 1, 3) <= |parts| <= digits
      invariant forall i :: 0 <= i < |parts| ==>
                  parts[i] == if i < bumpIndex then Part(base, i) else if i == bumpIndex then Part(base, i) + 1 else 0
    {
      parts := parts[..|parts| - 1];
    }
    bumped := Version(parts, tag, None);
  }

  /** Up to `v`, a release first differs from the bumped one where it differs from `v`, or at the bumped component. */
  lemma {:induction false} DiffersFromBumped(p: seq<nat>, v: seq<nat>, c: ChangeType)
    requires ReleaseLe(p, v)
    ensures var d, at := Differs(p, v), BumpIndex(c);
            var k := if d.Some? && d.value < at then d.value else at;
            Differs(p, Bumped(c, v)) == Some(k) && Part(p, k) < Part(Bumped(c, v), k)
  {
    var d, at := Differs(p, v), BumpIndex(c);
    DiffersAt(p, Bumped(c, v), if d.Some? && d.value < at then d.value else at);
  }

  /** A bumped version is greater than everything up to the version, whatever its tag. */
  lemma {:induction false} BumpedIsGreater(p: Version, v: Version, c: ChangeType, tag: Suffix)
    requires Le(p, v)
    ensures Less(p, Version(Bumped(c, v.release), tag, None))
  {
    LeTotal(p, v);
    hide SuffixKey, LexLess;
    DiffersFromBumped(p.release, v.release, c);
  }

  /** diff(p, bump(c, v)) >= c for every p up to v. */
  lemma {:induction false} BumpedIsFurther(p: Version, v: Version, c: ChangeType, tag: Suffix)
    requires Le(p, v)
    ensures var diff := Diff(p, Version(Bumped(c, v.release), tag, None)); diff.Ok? && AtLeast(diff.value, c)
  {
    BumpedIsGreater(p, v, c, tag);
    LeTotal(p, v);
    LeTotal(p, Version(Bumped(c, v.release), tag, None));
    DiffersFromBumped(p.release, v.release, c);
    DiffIsFirstDifference(p, Version(Bumped(c, v.release), tag, None));
  }

  /** Nor does bumping lessen a greater distance. */
  lemma {:induction false} BumpedIsNotNearer(p: Version, v: Version, c: ChangeType, tag: Suffix)
    requires Le(p, v) && Diff(p, v).Ok? && Diff(p, v).value.Some?
    ensures var diff := Diff(p, Version(Bumped(c, v.release), tag, None));
            diff.Ok? && AtLeast(diff.value, Diff(p, v).value.value)
  {
    BumpedIsGreater(p, v, c, tag);
    LeTotal(p, v);
    LeTotal(p, Version(Bumped(c, v.release), tag, None));
    DiffersFromBumped(p.release, v.release, c);
    DiffIsFirstDifference(p, Version(Bumped(c, v.release), tag, None));
    DiffIsFirstDifference(p, v);
  }

  // ---------------------------------------------------------------- the next development version

  /** sorted([v for v in stables if v <= current])[-1]: the last of the largest. */
  function LargestUpTo(stables: seq<Version>, current: Version): (largest: Option<Version>)
  {
    if stables == [] then None
    else
      var last := stables[|stables| - 1];
      var others := LargestUpTo(stables[..|stables| - 1], current);
      if Le(last, current) && (others.None? || Le(others.value, last)) then Some(last) else others
  }

  lemma {:induction false} LargestIsLargest(stables: seq<Version>, current: Version)
    ensures var largest := LargestUpTo(stables, current);
            && (largest.None? ==> forall s :: s in stables ==> !Le(s, current))
            && (largest.Some? ==> largest.value in stables && Le(largest.value, current))
            && (largest.Some? ==> forall s :: s in stables && Le(s, current) ==> Le(s, largest.value))
  {
    if stables != [] {
      var last, others := stables[|stables| - 1], LargestUpTo(stables[..|stables| - 1], current);
      LargestIsLargest(stables[..|stables| - 1], current);
      LeTotal(last, last);
      forall s | s in stables && Le(s, current) && LargestUpTo(stables, current).Some?
        ensures Le(s, LargestUpTo(stables, current).value)
      {
        if s != last {
          assert s in stables[..|stables| - 1];
          if Le(last, current) && Le(others.value, last) { LeTransitive(s, others.value, last); }
        } else if others.Some? {
          LeTotal(others.value, last);
        }
      }
    }
  }

  function PreviousRelease(stables: seq<Version>, current: Version): Version {
    var largest := LargestUpTo(stables, current);
    if largest.Some? then largest.value else FIRST
  }

  predicate Between(current: Version, s: Version, next: Version) {
    Less(current, s) && Le(s, next)
  }

  /** When nothing released lies between, what is released up to the new version is up to the current one, and so
      no further away than the previous release. */
  lemma {:induction false} OlderIsFurther(s: Version, p: Version, w: Version, c: ChangeType)
    requires Le(s, p) && Le(p, w) && Diff(p, w).Ok? && AtLeast(Diff(p, w).value, c) && |w.release| <= 4
    ensures Diff(s, w).Ok? && AtLeast(Diff(s, w).value, c)
  {
    hide SuffixKey, LexLess;
    LeTransitive(s, p, w);
    DiffIsFirstDifference(p, w);
    DiffIsFirstDifference(s, w);
    DiffersSymmetric(s.release, p.release);
    DiffersSymmetric(p.release, w.release);
    var d, e := Differs(s.release, p.release), Differs(p.release, w.release);
    var k := if d.Some? && d.value < e.value then d.value else e.value;
    DiffersAt(s.release, w.release, k);
  }

  /** The stable releases after the current version, up to the next one. */
  function StablesBetween(stables: seq<Version>, current: Version, next: Version): (between: seq<Version>)
    ensures forall s :: s in between <==> s in stables && Between(current, s, next)
  {
    if stables == [] then []
    else (if Between(current, stables[0], next) then [stables[0]] else []) + StablesBetween(stables[1..], current, next)
  }

  /** Where to go from the current version, whose distance to the previous release is `diff`. */
  function Candidate(current: Version, diff: Option<ChangeType>, c: ChangeType): Version {
    if diff.None? || Rank(c) > Rank(diff.value) then Version(Bumped(c, current.release), DEV0, None)
    else if current.suffix.dev.Some? then current
    else Version(Bumped(PATCH, current.release), DEV0, None)
  }

  function DevVersion(current: Version, stables: seq<Version>, c: ChangeType): Result<Version> {
    var previous := PreviousRelease(stables, current);
    if !Le(previous, current) then Err(AssertionError)
    else
      match Diff(previous, current)
      case Err(error) => Err(error)
      case Ok(diff) =>
        var next := Candidate(current, diff, c);
        var between := StablesBetween(stables, current, next);
        if between != [] then Err(StableBetween(between[0])) else Ok(next)
  }

  /** The next version is a development version, not below the current one, and at least the requested change away
      from the previous release. */
  lemma {:induction false} CandidateKeepsInvariants(current: Version, previous: Version, c: ChangeType)
    requires Le(previous, current) && Diff(previous, current).Ok?
    ensures var next := Candidate(current, Diff(previous, current).value, c);
            && next.suffix.dev.Some? && Le(current, next)
            && Diff(previous, next).Ok? && AtLeast(Diff(previous, next).value, c)
  {
    LeTotal(current, current);
    var diff := Diff(previous, current).value;
    if diff.None? || Rank(c) > Rank(diff.value) {
      BumpedIsFurther(previous, current, c, DEV0);
      BumpedIsGreater(current, current, c, DEV0);
      LeTotal(current, Version(Bumped(c, current.release), DEV0, None));
    } else {
      BumpedIsNotNearer(previous, current, PATCH, DEV0);
      BumpedIsGreater(current, current, PATCH, DEV0);
      LeTotal(current, Version(Bumped(PATCH, current.release), DEV0, None));
    }
  }

  /** The three promises of the source for every version that is returned; no stable release lies between the current
      and the new version, and up to four components the distance holds to every stable release up to the new one. */
  lemma {:induction false} DevVersionKeepsInvariants(current: Version, stables: seq<Version>, c: ChangeType)
    requires DevVersion(current, stables, c).Ok?
    ensures var next := DevVersion(current, stables, c).value;
            && next.suffix.dev.Some? && Le(current, next)
            && (next == current || (next.suffix == Suffix(None, None, Some(0)) && next.local.None?))
            && Diff(PreviousRelease(stables, current), next).Ok?
            && AtLeast(Diff(PreviousRelease(stables, current), next).value, c)
            && (forall s :: s in stables ==> !Between(current, s, next))
            && (|next.release| <= 4 ==>
                  forall s :: s in stables && Le(s, next) ==> Diff(s, next).Ok? && AtLeast(Diff(s, next).value, c))
  {
    var next, previous := DevVersion(current, stables, c).value, PreviousRelease(stables, current);
    CandidateKeepsInvariants(current, previous, c);
    LargestIsLargest(stables, current);
    assert forall s :: s in stables ==> !Between(current, s, next);
    hide SuffixKey, LexLess, Less, DevVersion, Diff, LargestUpTo;
    LeTransitive(previous, current, next);
    forall s | |next.release| <= 4 && s in stables && Le(s, next)
      ensures Diff(s, next).Ok? && AtLeast(Diff(s, next).value, c)
    {
      assert Le(s, current);
      OlderIsFurther(s, previous, next, c);
    }
  }

  /** It fails exactly when the current version precedes 0.0.0 and every stable release, when the distance to the
      previous release cannot be told, for which it needs five components, or when a stable release is in the way. */
  lemma {:induction false} DevVersionFails(current: Version, stables: seq<Version>, c: ChangeType)
    ensures var r, previous := DevVersion(current, stables, c), PreviousRelease(stables, current);
            && (r == Err(AssertionError) <==>
                  && Less(current, Version([0, 0, 0], Suffix(None, None, None), None))
                  && forall s :: s in stables ==> Less(current, s))
            && (r == Err(Unreachable) <==> Le(previous, current) && Diff(previous, current) == Err(Unreachable))
            && (r == Err(Unreachable) ==> |current.release| > 4)
            && r != Err(ValueError)
            && (r.Err? && r.error.StableBetween? <==>
                  && Le(previous, current) && Diff(previous, current).Ok?
                  && exists s :: s in stables &&
                       Between(current, s, Candidate(current, Diff(previous, current).value, c)))
            && (r.Err? && r.error.StableBetween? ==> r.error.v in stables && Less(current, r.error.v))
  {
    var previous := PreviousRelease(stables, current);
    LargestIsLargest(stables, current);
    hide SuffixKey, LexLess, Less, LargestUpTo, Bumped;
    if |current.release| <= 4 { FourComponentsAreEnough(previous, current); }
    if Le(previous, current) && Diff(previous, current).Ok? {
      var next := Candidate(current, Diff(previous, current).value, c);
      var between := StablesBetween(stables, current, next);
      assert between != [] ==> between[0] in between;
      forall s | s in stables && Between(current, s, next) ensures between != [] { assert s in between; }
    }
  }

  lemma {:induction false} SameBumped(v: Version, w: Version, c: ChangeType)
    requires SameRelease(v, w)
    ensures Bumped(c, v.release) == Bumped(c, w.release)
  {
    assert forall j: nat :: Part(v.release, j) == Part(w.release, j);
  }

  /** The final release of a development release comes after it, so it is not what was released before: it can only
      stand in the way. */
  lemma {:induction false} FinalOfDevIsNotPrevious(current: Version, stables: seq<Version>, c: ChangeType,
        final: Version)
    requires OnlyDev(current.suffix) && SameRelease(current, final) && final.suffix == NO_TAG && final in stables
    ensures Less(current, final) && LargestUpTo(stables, current) != Some(final)
    ensures var r := DevVersion(current, stables, c); r.Ok? ==> r == Ok(current)
  {
    StagesInOrder(current, final);
    LargestIsLargest(stables, current);
    FinalIsInTheWay(current, final, c);
    FinalIsInTheWay(current, final, PATCH);
    hide SuffixKey, LexLess, Less, LargestUpTo, Bumped, DevVersion, Between, Diff, AtLeast;
    ThreeCandidates(current, stables, c);
    if DevVersion(current, stables, c).Ok? { DevVersionKeepsInvariants(current, stables, c); }
  }

  lemma {:induction false} ThreeCandidates(current: Version, stables: seq<Version>, c: ChangeType)
    ensures var r := DevVersion(current, stables, c); r.Ok? ==>
              || r.value == current || r.value == Version(Bumped(c, current.release), DEV0, None)
              || r.value == Version(Bumped(PATCH, current.release), DEV0, None)
  {
    hide SuffixKey, LexLess, Less, LargestUpTo, Bumped, StablesBetween, Diff;
  }

  lemma {:induction false} FinalIsInTheWay(current: Version, final: Version, c: ChangeType)
    requires SameRelease(current, final) && Less(current, final)
    ensures Between(current, final, Version(Bumped(c, current.release), DEV0, None))
  {
    SameBumped(current, final, c);
    LeTotal(final, final);
    hide SuffixKey, LexLess, Less, Bumped;
    BumpedIsGreater(final, final, c, DEV0);
    LeTotal(final, Version(Bumped(c, current.release), DEV0, None));
  }

  /** The new version is no further away than it need be: one step of the requested kind, or a patch at most when the
      current version is far enough from the previous release. */
  lemma {:induction false} DevVersionStaysClose(current: Version, stables: seq<Version>, c: ChangeType)
    requires DevVersion(current, stables, c).Ok?
    ensures var next, diff := DevVersion(current, stables, c).value, Diff(PreviousRelease(stables, current), current);
            var step := if AtLeast(diff.value, c) then PATCH else c;
            && diff.Ok?
            && (AtLeast(diff.value, c) && current.suffix.dev.Some? ==> next == current)
            && (next != current ==>
                  && Part(next.release, BumpIndex(step)) == Part(current.release, BumpIndex(step)) + 1
                  && (step != MAJOR ==> Part(next.release, 0) == Part(current.release, 0))
                  && (step == PATCH || step == REVISION ==> Part(next.release, 1) == Part(current.release, 1))
                  && (step == REVISION ==> Part(next.release, 2) == Part(current.release, 2)))
  {
    hide SuffixKey, LexLess, Less, LargestUpTo, StablesBetween, Diff;
  }

  lemma {:induction false} SameLargest(stables: seq<Version>, current: Version, next: Version)
    requires forall s :: s in stables ==> (Le(s, current) <==> Le(s, next))
    ensures LargestUpTo(stables, current) == LargestUpTo(stables, next)
  {
    hide Le;
    if stables != [] { SameLargest(stables[..|stables| - 1], current, next); }
  }

  /** Asking again changes nothing. */
  lemma {:induction false} DevVersionSettles(current: Version, stables: seq<Version>, c: ChangeType)
    requires DevVersion(current, stables, c).Ok?
    ensures var next := DevVersion(current, stables, c).value; DevVersion(next, stables, c) == Ok(next)
  {
    var next, previous := DevVersion(current, stables, c).value, PreviousRelease(stables, current);
    DevVersionKeepsInvariants(current, stables, c);
    hide SuffixKey, LexLess, Less, DevVersion, Diff, LargestUpTo, Rank;
    forall s | s in stables ensures Le(s, current) <==> Le(s, next) {
      if Le(s, current) { LeTransitive(s, current, next); }
    }
    SameLargest(stables, current, next);
    LargestIsLargest(stables, current);
    Settled(next, stables, c);
  }

  lemma {:induction false} Settled(next: Version, stables: seq<Version>, c: ChangeType)
    requires var previous := PreviousRelease(stables, next);
             Le(previous, next) && Diff(previous, next).Ok? && AtLeast(Diff(previous, next).value, c)
    requires next.suffix.dev.Some?
    ensures DevVersion(next, stables, c) == Ok(next)
  {
    hide SuffixKey, LexLess, Less, LargestUpTo, Diff;
    var between := StablesBetween(stables, next, next);
    assert between != [] ==> between[0] in between && Between(next, between[0], next);
  }
}
