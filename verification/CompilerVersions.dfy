/** The search for the newest version of a module that the compiler can handle. Versions are listed newest first;
    each names the compiler version it needs, if any. */
module CompilerVersions {
  import opened Wrappers

  predicate Suitable(atleast: Option<int>, comp: int) {
    atleast.None? || comp >= atleast.value
  }

  /** The specification: the first suitable version. */
  function LinearScan(atleast: seq<Option<int>>, comp: int, from: nat): (best: Option<nat>)
    requires from <= |atleast|
    ensures best.None? ==> forall i :: from <= i < |atleast| ==> !Suitable(atleast[i], comp)
    ensures best.Some? ==> from <= best.value < |atleast| && Suitable(atleast[best.value], comp)
    ensures best.Some? ==> forall i :: from <= i < best.value ==> !Suitable(atleast[i], comp)
    decreases |atleast| - from
  {
    if from == |atleast| then None
    else if Suitable(atleast[from], comp) then Some(from)
    else LinearScan(atleast, comp, from + 1)
  }

  /** Where the binary search between `lo` and `hi` ends. */
  function Bisect(atleast: seq<Option<int>>, comp: int, lo: nat, hi: nat): (at: nat)
    requires lo <= hi <= |atleast|
    ensures lo <= at <= hi
    decreases hi - lo
  {
    if lo == hi then lo
    else
      var mid := (lo + hi) / 2;
      if Suitable(atleast[mid], comp) then Bisect(atleast, comp, lo, mid) else Bisect(atleast, comp, mid + 1, hi)
  }

  lemma {:induction false} BisectStep(atleast: seq<Option<int>>, comp: int, lo: nat, hi: nat)
    requires lo <= hi <= |atleast|
    ensures lo == hi ==> Bisect(atleast, comp, lo, hi) == lo
    ensures lo < hi ==>
              var mid := (lo + hi) / 2;
              && lo <= mid < hi
              && Bisect(atleast, comp, lo, hi)
                 == if Suitable(atleast[mid], comp) then Bisect(atleast, comp, lo, mid)
                    else Bisect(atleast, comp, mid + 1, hi)
  {
  }

  /** The search ends at a boundary: what it ends at is suitable, and what precedes it is not. */
  lemma {:induction false} EndsAtBoundary(atleast: seq<Option<int>>, comp: int, lo: nat, hi: nat)
    requires 0 < lo <= hi <= |atleast| && !Suitable(atleast[lo - 1], comp)
    requires hi < |atleast| ==> Suitable(atleast[hi], comp)
    ensures var at := Bisect(atleast, comp, lo, hi);
            !Suitable(atleast[at - 1], comp) && (at < |atleast| ==> Suitable(atleast[at], comp))
    decreases hi - lo
  {
    BisectStep(atleast, comp, lo, hi);
    hide Suitable, Bisect;
    if lo < hi {
      var mid := (lo + hi) / 2;
      if Suitable(atleast[mid], comp) {
        EndsAtBoundary(atleast, comp, lo, mid);
      } else {
        assert mid + 1 - 1 == mid;
        EndsAtBoundary(atleast, comp, mid + 1, hi);
      }
    }
  }

  /** Of the versions that the search tries on its way to `target`, those from `target` on are suitable. */
  predicate OnTheWay(atleast: seq<Option<int>>, comp: int, lo: nat, hi: nat, target: nat)
    requires lo <= target <= hi <= |atleast|
    decreases hi - lo
  {
    lo == hi ||
    var mid := (lo + hi) / 2;
    if mid >= target then Suitable(atleast[mid], comp) && OnTheWay(atleast, comp, lo, mid, target)
    else OnTheWay(atleast, comp, mid + 1, hi, target)
  }

  /** Then, and only then, the search ends there. */
  lemma {:induction false} EndsOnTheWay(atleast: seq<Option<int>>, comp: int, lo: nat, hi: nat, target: nat)
    requires lo <= target <= hi <= |atleast| && forall i :: lo <= i < target ==> !Suitable(atleast[i], comp)
    ensures Bisect(atleast, comp, lo, hi) == target <==> OnTheWay(atleast, comp, lo, hi, target)
    decreases hi - lo
  {
    hide Suitable;
    if lo < hi {
      var mid := (lo + hi) / 2;
      if mid >= target {
        if Suitable(atleast[mid], comp) { EndsOnTheWay(atleast, comp, lo, mid, target); }
      } else {
        EndsOnTheWay(atleast, comp, mid + 1, hi, target);
      }
    }
  }

  /** No version needs a newer compiler than a later, older, one, as far as this compiler can tell. */
  ghost predicate Monotone(atleast: seq<Option<int>>, comp: int) {
    forall i, j :: 0 <= i < j < |atleast| && Suitable(atleast[i], comp) ==> Suitable(atleast[j], comp)
  }

  lemma {:induction false} MonotoneIsOnTheWay(atleast: seq<Option<int>>, comp: int, lo: nat, hi: nat, target: nat)
    requires lo <= target <= hi <= |atleast| && Monotone(atleast, comp)
    requires target < |atleast| ==> Suitable(atleast[target], comp)
    ensures OnTheWay(atleast, comp, lo, hi, target)
    decreases hi - lo
  {
    hide Suitable;
    if lo < hi {
      var mid := (lo + hi) / 2;
      if mid >= target {
        MonotoneIsOnTheWay(atleast, comp, lo, mid, target);
      } else {
        MonotoneIsOnTheWay(atleast, comp, mid + 1, hi, target);
      }
    }
  }

  /** The place of the first suitable version, or the number of versions. */
  function FirstSuitable(atleast: seq<Option<int>>, comp: int, from: nat): (at: nat)
    requires from <= |atleast|
    ensures from <= at <= |atleast|
  {
    match LinearScan(atleast, comp, from) case Some(at) => at case None => |atleast|
  }

  /** What the search returns when the first version does not suit. */
  function Searched(atleast: seq<Option<int>>, comp: int): Option<nat>
    requires atleast != []
  {
    var at := Bisect(atleast, comp, 1, |atleast|);
    if at == |atleast| then None else Some(at)
  }

  lemma {:induction false} AgreesOnTheWay(atleast: seq<Option<int>>, comp: int)
    requires atleast != [] && !Suitable(atleast[0], comp)
    ensures Searched(atleast, comp) == LinearScan(atleast, comp, 0) <==>
            OnTheWay(atleast, comp, 1, |atleast|, FirstSuitable(atleast, comp, 1))
    ensures Monotone(atleast, comp) ==> Searched(atleast, comp) == LinearScan(atleast, comp, 0)
  {
    var target := FirstSuitable(atleast, comp, 1);
    EndsOnTheWay(atleast, comp, 1, |atleast|, target);
    assert LinearScan(atleast, comp, 0) == LinearScan(atleast, comp, 1);
    if Monotone(atleast, comp) { MonotoneIsOnTheWay(atleast, comp, 1, |atleast|, target); }
  }

  method BestForCompilerVersion(atleast: seq<Option<int>>, comp: int) returns (best: Option<nat>)
    ensures best == if atleast == [] then None
                    else if Suitable(atleast[0], comp) then Some(0) else Searched(atleast, comp)
    ensures best.Some? ==>
              best.value < |atleast| && (atleast[best.value].Some? ==> atleast[best.value].value <= comp)
    ensures best.Some? && best.value > 0 ==>
              var newer := atleast[best.value - 1]; newer.Some? && newer.value > comp
    ensures best.None? && atleast != [] ==>
              var oldest := atleast[|atleast| - 1]; oldest.Some? && oldest.value > comp
    ensures atleast != [] ==> (best == Some(0) <==> atleast[0].None? || atleast[0].value <= comp)
    ensures best == LinearScan(atleast, comp, 0) <==>
            || atleast == [] || Suitable(atleast[0], comp)
            || OnTheWay(atleast, comp, 1, |atleast|, FirstSuitable(atleast, comp, 1))
    ensures Monotone(atleast, comp) ==> best == LinearScan(atleast, comp, 0)
  {
    if atleast == [] {
      return None;
    }
    if atleast[0].None? || comp >= atleast[0].value {
      return Some(0);
    }
    var hi := |atleast|;
    var lo := 1;
    EndsAtBoundary(atleast, comp, lo, hi);
    AgreesOnTheWay(atleast, comp);
    hide OnTheWay, Monotone, LinearScan, FirstSuitable, Bisect;
    while lo < hi
      invariant 1 <= lo <= hi <= |atleast|
      invariant Bisect(atleast, comp, lo, hi) == Bisect(atleast, comp, 1, |atleast|)
    {
      var mid := (lo + hi) / 2;
      BisectStep(atleast, comp, lo, hi);
      if atleast[mid].Some? && atleast[mid].value > comp {
        lo := mid + 1;
      } else {
        hi := mid;
      }
    }
    BisectStep(atleast, comp, lo, hi);
    if hi == |atleast| {
      return None;
    }
    return Some(lo);
  }

  /** Otherwise the search can report that no version will do although one would. */
  lemma {:induction false} SearchMisses()
    ensures var atleast := [Some(5), Some(1), Some(9), Some(9)];
            && Bisect(atleast, 3, 1, 4) == 4 && LinearScan(atleast, 3, 0) == Some(1)
            && !OnTheWay(atleast, 3, 1, 4, FirstSuitable(atleast, 3, 1))
  {
    var atleast := [Some(5), Some(1), Some(9), Some(9)];
    assert Bisect(atleast, 3, 4, 4) == 4;
    assert Bisect(atleast, 3, 3, 4) == 4;
    assert Suitable(atleast[1], 3) && !Suitable(atleast[2], 3);
    EndsOnTheWay(atleast, 3, 1, 4, 1);
  }
}
