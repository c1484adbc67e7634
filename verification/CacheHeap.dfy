/** Cache items, and the binary heap of items ordered by expiry time. */
module CacheHeap {

  function PowerOfTwo(n: nat): real {
    if n == 0 then 1.0 else 2.0 * PowerOfTwo(n - 1)
  }

  /** The largest float, which stands for "never". */
  const NEVER: real := 9007199254740991.0 * PowerOfTwo(971)

  /** What a producer returns: None, or some object. */
  datatype Value = PythonNone | Object(id: int)

  function Min(a: real, b: real): real { if a < b then a else b }

  class CacheItem {
    const key: string
    const value: Value
    const finalizable: bool
    const refreshAfterAccess: real
    const afterCreationExpiryTime: real
    var expiryTime: real
    var calledFinalizer: bool
    ghost var finalizerRuns: nat

    /** Times are floats, so no deadline lies beyond the largest one. */
    constructor (key: string, value: Value, finalizable: bool,
                 evictAfterLastAccess: real, evictAfterCreation: real, now: real)
      requires now + evictAfterLastAccess <= NEVER && now + evictAfterCreation <= NEVER
      ensures this.key == key && this.value == value && this.finalizable == finalizable
      ensures refreshAfterAccess == evictAfterLastAccess
      ensures !calledFinalizer && finalizerRuns == 0
      ensures afterCreationExpiryTime == if evictAfterCreation > 0.0 then now + evictAfterCreation else NEVER
      ensures expiryTime == Min(if evictAfterLastAccess > 0.0 then now + evictAfterLastAccess else NEVER,
                                afterCreationExpiryTime)
    {
      this.key, this.value, this.finalizable := key, value, finalizable;
      refreshAfterAccess := evictAfterLastAccess;
      var expiry, deadline := NEVER, NEVER;
      if evictAfterLastAccess > 0.0 {
        expiry := now + evictAfterLastAccess;
      }
      if evictAfterCreation > 0.0 {
        deadline := now + evictAfterCreation;
        expiry := Min(expiry, deadline);
      }
      afterCreationExpiryTime, expiryTime := deadline, expiry;
      calledFinalizer, finalizerRuns := false, 0;
    }

    /** Runs the finalizer unless it ran before. */
    method Delete()
      modifies this`calledFinalizer, this`finalizerRuns
      ensures finalizable && !old(calledFinalizer) ==> calledFinalizer && finalizerRuns == old(finalizerRuns) + 1
      ensures !finalizable || old(calledFinalizer) ==>
                calledFinalizer == old(calledFinalizer) && finalizerRuns == old(finalizerRuns)
    {
      if finalizable && !calledFinalizer {
        calledFinalizer := true;
        finalizerRuns := finalizerRuns + 1;
      }
    }

    method Refresh(now: real)
      modifies this`expiryTime
      ensures expiryTime == if refreshAfterAccess <= 0.0 then old(expiryTime)
                            else Min(now + refreshAfterAccess, afterCreationExpiryTime)
    {
      if refreshAfterAccess <= 0.0 {
        return;
      }
      expiryTime := Min(now + refreshAfterAccess, afterCreationExpiryTime);
    }
  }

  // ---------------------------------------------------------------- the heap

  function Parent(i: nat): nat
    requires i > 0
  {
    (i - 1) / 2
  }

  ghost function Times(q: seq<CacheItem>): (ts: seq<real>)
    reads (set x | x in q)`expiryTime
    ensures |ts| == |q|
  {
    if q == [] then [] else Times(q[..|q| - 1]) + [q[|q| - 1].expiryTime]
  }

  lemma {:induction false} TimesAt(q: seq<CacheItem>, i: nat)
    requires i < |q|
    ensures Times(q)[i] == q[i].expiryTime
    decreases |q|
  {
    if i < |q| - 1 { TimesAt(q[..|q| - 1], i); }
  }

  /** The heap order between every position from `start` on and its children. */
  ghost predicate HeapFrom(ts: seq<real>, start: nat) {
    forall i: nat {:trigger Parent(i)} :: 0 < i < |ts| && start <= Parent(i) ==> ts[Parent(i)] <= ts[i]
  }

  /** The heap order everywhere but around `hole`, whose parent and children are in order. */
  ghost predicate HeapAround(ts: seq<real>, start: nat, hole: nat) {
    && (forall i: nat {:trigger Parent(i)} ::
          0 < i < |ts| && start <= Parent(i) && i != hole && Parent(i) != hole ==> ts[Parent(i)] <= ts[i])
    && (0 < hole < |ts| && start <= Parent(hole) ==>
          forall i: nat {:trigger Parent(i)} :: 0 < i < |ts| && Parent(i) == hole ==> ts[Parent(hole)] <= ts[i])
  }

  ghost predicate AboveChildren(ts: seq<real>, at: nat)
    requires at < |ts|
  {
    forall i: nat {:trigger Parent(i)} :: 0 < i < |ts| && Parent(i) == at ==> ts[at] <= ts[i]
  }

  ghost predicate Below(start: nat, i: nat) {
    i == start || (i > start && Below(start, Parent(i)))
  }

  ghost predicate Rearranged(q: seq<CacheItem>, q': seq<CacheItem>, start: nat) {
    multiset(q') == multiset(q) && |q'| == |q| && forall i: nat :: i < start && i < |q| ==> q'[i] == q[i]
  }

  function Swap<T>(s: seq<T>, i: nat, j: nat): seq<T>
    requires i < |s| && j < |s|
  {
    s[i := s[j]][j := s[i]]
  }

  lemma {:induction false} OpenAtTop(ts: seq<real>, start: nat)
    requires HeapFrom(ts, start + 1)
    ensures Below(start, start) && HeapAround(ts, start, start)
  {
  }

  lemma {:induction false} NoChildren(ts: seq<real>, pos: nat)
    requires pos < |ts| <= 2 * pos + 1
    ensures AboveChildren(ts, pos)
  {
  }

  lemma {:induction false} SwapWithParent(ts: seq<real>, start: nat, pos: nat)
    requires start < pos < |ts| && Below(start, pos) && HeapAround(ts, start, pos) && AboveChildren(ts, pos)
    requires ts[pos] < ts[Parent(pos)]
    ensures start <= Parent(pos) && Below(start, Parent(pos))
    ensures HeapAround(Swap(ts, pos, Parent(pos)), start, Parent(pos))
    ensures AboveChildren(Swap(ts, pos, Parent(pos)), Parent(pos))
  {
  }

  lemma {:induction false} SwapWithChild(ts: seq<real>, start: nat, pos: nat, child: nat)
    requires start <= pos < child < |ts| && Parent(child) == pos && Below(start, pos) && HeapAround(ts, start, pos)
    requires ts[child] <= ts[2 * pos + 1] && (2 * pos + 2 < |ts| ==> ts[child] <= ts[2 * pos + 2])
    ensures Below(start, child) && HeapAround(Swap(ts, pos, child), start, child)
  {
  }

  lemma {:induction false} SwapRearranges(q: seq<CacheItem>, q': seq<CacheItem>, start: nat, i: nat, j: nat)
    requires Rearranged(q, q', start) && start <= i < |q| && start <= j < |q|
    ensures Rearranged(q, Swap(q', i, j), start) && Times(Swap(q', i, j)) == Swap(Times(q'), i, j)
  {
    forall k: nat | k < |q| ensures Times(Swap(q', i, j))[k] == Swap(Times(q'), i, j)[k] {
      TimesAt(Swap(q', i, j), k);
      TimesAt(q', k);
      TimesAt(q', i);
      TimesAt(q', j);
    }
  }

  /** heapq._siftdown: moves an item up towards `start` while it expires before its parent. */
  method SiftDown(q: seq<CacheItem>, start: nat, at: nat) returns (q': seq<CacheItem>)
    requires start <= at < |q| && Below(start, at) && HeapAround(Times(q), start, at) && AboveChildren(Times(q), at)
    ensures HeapFrom(Times(q'), start) && Rearranged(q, q', start)
  {
    q' := q;
    var pos := at;
    while pos > start
      invariant start <= pos < |q'| && Below(start, pos) && Rearranged(q, q', start)
      invariant HeapAround(Times(q'), start, pos) && AboveChildren(Times(q'), pos)
    {
      var parent := Parent(pos);
      TimesAt(q', pos);
      TimesAt(q', parent);
      if !(q'[pos].expiryTime < q'[parent].expiryTime) {
        break;
      }
      SwapWithParent(Times(q'), start, pos);
      SwapRearranges(q, q', start, pos, parent);
      q' := Swap(q', pos, parent);
      pos := parent;
    }
  }

  /** heapq._siftup: moves the smaller children up until a leaf is free, puts the item there and lets it rise. */
  method SiftUp(q: seq<CacheItem>, start: nat) returns (q': seq<CacheItem>)
    requires start < |q| && HeapFrom(Times(q), start + 1)
    ensures HeapFrom(Times(q'), start) && Rearranged(q, q', start)
  {
    hide Times, Below, HeapFrom, HeapAround, AboveChildren;
    OpenAtTop(Times(q), start);
    q' := q;
    var pos := start;
    while 2 * pos + 1 < |q|
      invariant start <= pos < |q'| && Below(start, pos) && Rearranged(q, q', start)
      invariant HeapAround(Times(q'), start, pos)
      decreases |q| - pos
    {
      var child := 2 * pos + 1;
      TimesAt(q', child);
      if child + 1 < |q| {
        TimesAt(q', child + 1);
        if !(q'[child].expiryTime < q'[child + 1].expiryTime) {
          child := child + 1;
        }
      }
      SwapWithChild(Times(q'), start, pos, child);
      SwapRearranges(q, q', start, pos, child);
      q' := Swap(q', pos, child);
      pos := child;
    }
    NoChildren(Times(q'), pos);
    q' := SiftDown(q', start, pos);
  }

  lemma {:induction false} BelowZero(i: nat)
    ensures Below(0, i)
  {
    if i > 0 { BelowZero(Parent(i)); }
  }

  /** `q'` holds the items of `q` and one more. */
  ghost predicate Added(q: seq<CacheItem>, item: CacheItem, q': seq<CacheItem>) {
    multiset(q') == multiset(q) + multiset{item}
  }

  lemma {:induction false} AppendLeaf(ts: seq<real>, t: real)
    requires HeapFrom(ts, 0)
    ensures HeapAround(ts + [t], 0, |ts|) && AboveChildren(ts + [t], |ts|)
  {
    assert forall i: nat :: i < |ts| ==> (ts + [t])[i] == ts[i];
  }

  lemma {:induction false} PushKeepsHeap(q: seq<CacheItem>, item: CacheItem)
    requires HeapFrom(Times(q), 0)
    ensures Below(0, |q|) && HeapAround(Times(q + [item]), 0, |q|) && AboveChildren(Times(q + [item]), |q|)
  {
    hide HeapFrom, HeapAround, AboveChildren, Below;
    BelowZero(|q|);
    assert (q + [item])[..|q|] == q;
    AppendLeaf(Times(q), item.expiryTime);
  }

  method HeapPush(q: seq<CacheItem>, item: CacheItem) returns (q': seq<CacheItem>)
    requires HeapFrom(Times(q), 0)
    ensures HeapFrom(Times(q'), 0) && Added(q, item, q')
  {
    PushKeepsHeap(q, item);
    hide HeapFrom, HeapAround, AboveChildren, Below, Times;
    q' := SiftDown(q + [item], 0, |q|);
  }

  method HeapPop(q: seq<CacheItem>) returns (item: CacheItem, q': seq<CacheItem>)
    requires |q| > 0 && HeapFrom(Times(q), 0)
    ensures item == q[0] && HeapFrom(Times(q'), 0) && Added(q', item, q)
  {
    var last := q[|q| - 1];
    var rest := q[..|q| - 1];
    if rest == [] {
      return last, rest;
    }
    item := rest[0];
    assert q == rest + [last];
    forall i: nat | 0 < i < |rest| ensures Times(rest[0 := last])[i] == Times(q)[i] {
      TimesAt(rest[0 := last], i);
      TimesAt(q, i);
    }
    assert multiset(rest[0 := last]) == multiset(rest) - multiset{item} + multiset{last};
    q' := SiftUp(rest[0 := last], 0);
  }

  method Heapify(q: seq<CacheItem>) returns (q': seq<CacheItem>)
    ensures HeapFrom(Times(q'), 0) && multiset(q') == multiset(q)
  {
    q' := q;
    var i := |q| / 2;
    while i > 0
      invariant 0 <= i <= |q'| && |q'| == |q| && HeapFrom(Times(q'), i) && multiset(q') == multiset(q)
    {
      i := i - 1;
      q' := SiftUp(q', i);
    }
  }

  /** The first item of a heap expires first. */
  lemma {:induction false} HeapTopIsLeast(ts: seq<real>, i: nat)
    requires HeapFrom(ts, 0) && i < |ts|
    ensures ts[0] <= ts[i]
  {
    if i > 0 {
      HeapTopIsLeast(ts, Parent(i));
    }
  }
}
