/** The ring of mounted disks (BKTREC_updateHddInfo) and the choice of the disk to
    record on (BKTREC_getTargetDisk), both in src/basket_rec.c. */
module DiskRing {

  datatype Option<T> = None | Some(value: T)

  /** The indices below n of the mounted disks, in increasing order. */
  function MountedBelow(mounted: seq<bool>, n: nat): (ds: seq<nat>)
    requires n <= |mounted|
  {
    if n == 0 then []
    else if mounted[n - 1] then MountedBelow(mounted, n - 1) + [n - 1]
    else MountedBelow(mounted, n - 1)
  }

  lemma {:induction false} MountedFacts(mounted: seq<bool>, n: nat)
    requires n <= |mounted|
    ensures forall d :: d in MountedBelow(mounted, n) <==> 0 <= d < n && mounted[d]
    ensures Increasing(MountedBelow(mounted, n))
  {
    if n > 0 {
      MountedFacts(mounted, n - 1);
      var below := MountedBelow(mounted, n - 1);
      assert forall j :: 0 <= j < |below| ==> below[j] in below;
    }
  }

  predicate Increasing(ds: seq<nat>) {
    forall j, k :: 0 <= j < k < |ds| ==> ds[j] < ds[k]
  }

  function Mounted(mounted: seq<bool>): seq<nat> {
    MountedBelow(mounted, |mounted|)
  }

  /** What the links have to say: the mounted disks, in index order, each point to
      the one after them and the last one to the first; prev is the inverse. */
  ghost predicate IsRing(ds: seq<nat>, next: seq<int>, prev: seq<int>) {
    (forall j :: 0 <= j < |ds| ==> ds[j] < |next| && ds[j] < |prev|) &&
    (forall j :: 0 <= j < |ds| ==> next[ds[j]] == ds[Successor(j, |ds|)]) &&
    (forall j :: 0 <= j < |ds| ==> prev[ds[Successor(j, |ds|)]] == ds[j])
  }

  function Successor(j: nat, n: nat): (k: nat)
    requires j < n
    ensures k < n
  {
    if j + 1 == n then 0 else j + 1
  }

  class MountInfo {
    const isMounted: array<bool>
    const nextHddIdx: array<int>
    const prevHddIdx: array<int>
    var hddCnt: int
    var curHddIdx: int

    ghost predicate Valid()
      reads this, isMounted
    {
      isMounted.Length > 0 &&
      nextHddIdx.Length == isMounted.Length && prevHddIdx.Length == isMounted.Length &&
      nextHddIdx != prevHddIdx &&
      hddCnt == |Mounted(isMounted[..])|
    }

    constructor (mounted: seq<bool>)
      requires |mounted| > 0
      ensures Valid() && isMounted[..] == mounted && curHddIdx == 0
      ensures fresh(isMounted) && fresh(nextHddIdx) && fresh(prevHddIdx)
    {
      var m := new bool[|mounted|](i requires 0 <= i < |mounted| => mounted[i]);
      isMounted := m;
      nextHddIdx := new int[|mounted|](_ => 0);
      prevHddIdx := new int[|mounted|](_ => 0);
      hddCnt := |Mounted(mounted)|;
      curHddIdx := 0;
      new;
      assert isMounted[..] == mounted;
    }

    /** The link-building loop of BKTREC_updateHddInfo.  The loop starts with
        prevIdx = 0, so it may first write a link of an unmounted disk 0; the two
        assignments after it close the ring. */
    method BuildRing()
      requires Valid()
      modifies nextHddIdx, prevHddIdx
      ensures Valid()
      ensures IsRing(Mounted(isMounted[..]), nextHddIdx[..], prevHddIdx[..])
    {
      hide MountedBelow, IsRing, Linked;
      ghost var mounted := isMounted[..];
      MountedStep(mounted, 0);
      NoLinks(nextHddIdx[..], prevHddIdx[..]);
      var prevIdx, firstIdx, findFirst := 0, 0, false;
      var i := 0;
      while i < isMounted.Length
        invariant 0 <= i <= isMounted.Length
        invariant findFirst <==> MountedBelow(mounted, i) != []
        invariant !findFirst ==> prevIdx == 0 && firstIdx == 0
        invariant findFirst ==> var ds := MountedBelow(mounted, i);
          firstIdx == ds[0] && prevIdx == ds[|ds| - 1]
        invariant 0 <= prevIdx < isMounted.Length && 0 <= firstIdx < isMounted.Length
        invariant Linked(MountedBelow(mounted, i), nextHddIdx[..], prevHddIdx[..])
      {
        MountedStep(mounted, i);
        if isMounted[i] {
          if !findFirst {
            findFirst := true;
            firstIdx := i;
          }
          ghost var next, prev := nextHddIdx[..], prevHddIdx[..];
          MountedFacts(mounted, i);
          ExtendLinks(MountedBelow(mounted, i), next, prev, prevIdx, i);
          Link(prevIdx, i);
          prevIdx := i;
        }
        i := i + 1;
      }
      ghost var next, prev := nextHddIdx[..], prevHddIdx[..];
      MountedFacts(mounted, i);
      CloseRing(Mounted(mounted), next, prev);
      Link(prevIdx, firstIdx);
    }

    /** Two disks become neighbours in the ring. */
    method Link(before: int, after: int)
      requires Valid() && 0 <= before < isMounted.Length && 0 <= after < isMounted.Length
      modifies nextHddIdx, prevHddIdx
      ensures Valid() && nextHddIdx[..] == old(nextHddIdx[..])[before := after] && prevHddIdx[..] == old(prevHddIdx[..])[after := before]
    {
      prevHddIdx[after] := before;
      nextHddIdx[before] := after;
    }

    /** BKTREC_getTargetDisk after the ring is built.  `saved` is the disk index read
        from the disk manager file, None when that file cannot be opened. */
    method ChooseTarget(saved: Option<int>) returns (newSaved: Option<int>)
      requires Valid() && curHddIdx == 0
      requires saved.Some? ==> saved.value < isMounted.Length
      modifies this`curHddIdx
      ensures Valid()
      ensures curHddIdx == TargetOf(isMounted[..], saved)
      ensures newSaved == if hddCnt > 0 && (saved.None? || saved.value >= 0) then Some(curHddIdx) else saved
    {
      newSaved := saved;
      if hddCnt > 0 {
        if saved.None? {
          curHddIdx := 0;
          newSaved := Some(0);
        } else {
          var curid := saved.value;
          if curid >= 0 {
            if isMounted[curid] {
              curHddIdx := curid;
            } else {
              var idxFind, isFirst, idxFirst := false, false, 0;
              var i := 0;
              ghost var ds := Mounted(isMounted[..]);
              MountedFacts(isMounted[..], isMounted.Length);
              while i < isMounted.Length
                invariant 0 <= i <= isMounted.Length
                invariant !idxFind
                invariant isFirst <==> exists d :: 0 <= d < i && isMounted[d]
                invariant isFirst ==> 0 <= idxFirst < i && isMounted[idxFirst]
                invariant isFirst ==> forall d :: 0 <= d < idxFirst ==> !isMounted[d]
                invariant forall d :: curid < d < i ==> !isMounted[d]
              {
                if isMounted[i] {
                  if !isFirst {
                    isFirst := true;
                    idxFirst := i;
                  }
                  if i > curid {
                    curHddIdx := i;
                    idxFind := true;
                    break;
                  }
                }
                i := i + 1;
              }
              assert ds != [] && ds[0] in ds;
              if !idxFind {
                curHddIdx := idxFirst;
              }
              CyclicSuccessorIs(isMounted[..], curid, curHddIdx);
            }
            newSaved := Some(curHddIdx);
          }
        }
      }
    }
  }

  /** The part of IsRing that holds before the ring is closed. */
  ghost predicate Linked(ds: seq<nat>, next: seq<int>, prev: seq<int>) {
    (forall j :: 0 <= j < |ds| ==> ds[j] < |next| && ds[j] < |prev|) &&
    (forall j :: 0 <= j < |ds| - 1 ==> next[ds[j]] == ds[j + 1]) &&
    (forall j :: 0 < j < |ds| ==> prev[ds[j]] == ds[j - 1])
  }

  lemma MountedStep(mounted: seq<bool>, i: nat)
    requires i <= |mounted|
    ensures i == 0 ==> MountedBelow(mounted, i) == []
    ensures i < |mounted| ==>
      MountedBelow(mounted, i + 1) == if mounted[i] then MountedBelow(mounted, i) + [i] else MountedBelow(mounted, i)
  {
  }

  lemma NoLinks(next: seq<int>, prev: seq<int>)
    ensures Linked([], next, prev)
  {
  }

  lemma {:induction false} ExtendLinks(ds: seq<nat>, next: seq<int>, prev: seq<int>, p: nat, i: nat)
    requires Linked(ds, next, prev) && Increasing(ds) && (forall d :: d in ds ==> d < i)
    requires i < |next| && i < |prev| && p < |next|
    requires ds != [] ==> p == ds[|ds| - 1]
    ensures Linked(ds + [i], next[p := i], prev[i := p])
  {
    var es, next', prev' := ds + [i], next[p := i], prev[i := p];
    forall j | 0 <= j < |es| - 1
      ensures next'[es[j]] == es[j + 1]
    {
      assert j < |ds| - 1 ==> ds[j] < p;
    }
    forall j | 0 < j < |es|
      ensures prev'[es[j]] == es[j - 1]
    {
      assert j < |ds| ==> ds[j] in ds;
    }
  }

  lemma CloseRing(ds: seq<nat>, next: seq<int>, prev: seq<int>)
    requires Linked(ds, next, prev) && Increasing(ds)
    ensures ds != [] ==> var first, last := ds[0], ds[|ds| - 1];
      IsRing(ds, next[last := first], prev[first := last])
    ensures ds == [] && |next| > 0 && |prev| > 0 ==> IsRing(ds, next[0 := 0], prev[0 := 0])
  {
  }

  /** The cyclic successor of an unmounted index among the mounted ones: the least
      mounted index above it, or the least of all when there is none above. */
  ghost predicate IsCyclicSuccessor(mounted: seq<bool>, cur: int, d: int) {
    0 <= d < |mounted| && mounted[d] &&
    if d > cur then forall e :: 0 <= e < d && cur < e ==> !mounted[e]
    else forall e :: 0 <= e < |mounted| && (cur < e || e < d) ==> !mounted[e]
  }

  ghost function TargetOf(mounted: seq<bool>, saved: Option<int>): int
    requires saved.Some? ==> saved.value < |mounted|
  {
    if Mounted(mounted) == [] || saved.None? || saved.value < 0 then 0
    else if mounted[saved.value] then saved.value
    else
      SomeMounted(mounted, saved.value);
      var d :| IsCyclicSuccessor(mounted, saved.value, d); d
  }

  lemma {:induction false} SomeMounted(mounted: seq<bool>, cur: int)
    requires 0 <= cur < |mounted| && Mounted(mounted) != []
    ensures exists d :: IsCyclicSuccessor(mounted, cur, d)
  {
    var ds := Mounted(mounted);
    MountedFacts(mounted, |mounted|);
    var j := 0;
    while j < |ds| && ds[j] <= cur
      invariant 0 <= j <= |ds|
      invariant forall k :: 0 <= k < j ==> ds[k] <= cur
    {
      j := j + 1;
    }
    var d := if j < |ds| then ds[j] else ds[0];
    assert d in ds;
    forall e | 0 <= e < |mounted| && mounted[e]
      ensures exists k :: 0 <= k < |ds| && ds[k] == e
    {
      assert e in ds;
    }
    assert IsCyclicSuccessor(mounted, cur, d);
  }

  lemma CyclicSuccessorIs(mounted: seq<bool>, cur: int, d: int)
    requires 0 <= cur < |mounted| && !mounted[cur]
    requires IsCyclicSuccessor(mounted, cur, d)
    ensures forall e :: IsCyclicSuccessor(mounted, cur, e) ==> e == d
  {
  }

  // ---------------------------------------------------------------- what the ring is for

  function Walk(next: seq<int>, d: int, steps: nat): int
    decreases steps
  {
    if steps == 0 then d
    else if 0 <= d < |next| then Walk(next, next[d], steps - 1)
    else d
  }

  ghost predicate Reaches(next: seq<int>, d: int, e: int, n: nat) {
    exists k :: 0 <= k < n && Walk(next, d, k) == e
  }

  /** Following the next links from the j-th mounted disk for k steps. */
  lemma {:induction false} WalkAlongRing(ds: seq<nat>, next: seq<int>, prev: seq<int>, j: nat, k: nat)
    requires IsRing(ds, next, prev) && j < |ds| && k <= |ds|
    ensures Walk(next, ds[j], k) == ds[if j + k < |ds| then j + k else j + k - |ds|]
    decreases k
  {
    if k > 0 {
      assert next[ds[j]] == ds[Successor(j, |ds|)];
      WalkAlongRing(ds, next, prev, Successor(j, |ds|), k - 1);
    }
  }

  /** From any mounted disk, the next links visit every mounted disk exactly once
      before they return to it, and prev undoes next. */
  lemma {:induction false} RingVisitsEachDiskOnce(mounted: seq<bool>, next: seq<int>, prev: seq<int>, d: nat)
    requires IsRing(Mounted(mounted), next, prev)
    requires d < |mounted| && mounted[d]
    ensures Walk(next, d, |Mounted(mounted)|) == d
    ensures forall e :: 0 <= e < |mounted| && mounted[e] ==> Reaches(next, d, e, |Mounted(mounted)|)
    ensures NoRepeat(next, d, |Mounted(mounted)|)
    ensures d < |next| && var n := next[d]; 0 <= n < |mounted| && mounted[n] && n < |prev| && prev[n] == d
  {
    var ds := Mounted(mounted);
    MountedFacts(mounted, |mounted|);
    hide IsRing, MountedBelow, Walk, Reaches, NoRepeat;
    assert d in ds;
    var j :| 0 <= j < |ds| && ds[j] == d;
    WalkAlongRing(ds, next, prev, j, |ds|);
    forall e | 0 <= e < |mounted| && mounted[e]
      ensures Reaches(next, d, e, |ds|)
    {
      assert e in ds;
      var i :| 0 <= i < |ds| && ds[i] == e;
      ReachesFrom(ds, next, prev, j, i);
    }
    WalksDiffer(ds, next, prev, j);
    NextIsMounted(ds, next, prev, j);
  }

  lemma {:induction false} ReachesFrom(ds: seq<nat>, next: seq<int>, prev: seq<int>, j: nat, i: nat)
    requires IsRing(ds, next, prev) && j < |ds| && i < |ds|
    ensures Reaches(next, ds[j], ds[i], |ds|)
  {
    var k := if i >= j then i - j else i - j + |ds|;
    WalkAlongRing(ds, next, prev, j, k);
    assert 0 <= k < |ds| && Walk(next, ds[j], k) == ds[i];
  }

  ghost predicate NoRepeat(next: seq<int>, d: int, n: nat) {
    forall k, l :: 0 <= k < l < n ==> Walk(next, d, k) != Walk(next, d, l)
  }

  lemma {:induction false} WalksDiffer(ds: seq<nat>, next: seq<int>, prev: seq<int>, j: nat)
    requires IsRing(ds, next, prev) && Increasing(ds) && j < |ds|
    ensures NoRepeat(next, ds[j], |ds|)
  {
    forall k, l | 0 <= k < l < |ds|
      ensures Walk(next, ds[j], k) != Walk(next, ds[j], l)
    {
      WalkAlongRing(ds, next, prev, j, k);
      WalkAlongRing(ds, next, prev, j, l);
    }
  }

  lemma NextIsMounted(ds: seq<nat>, next: seq<int>, prev: seq<int>, j: nat)
    requires IsRing(ds, next, prev) && j < |ds|
    ensures ds[j] < |next| && next[ds[j]] in ds && 0 <= next[ds[j]] < |prev| && prev[next[ds[j]]] == ds[j]
  {
  }

  /** The chosen disk is mounted whenever some disk is and the manager file named a
      disk; without that file, or with a negative index in it, disk 0 is chosen
      unseen, and that is a mounted disk only if disk 0 is. */
  lemma TargetIsMountedIff(mounted: seq<bool>, saved: Option<int>)
    requires Mounted(mounted) != [] && (saved.Some? ==> saved.value < |mounted|)
    ensures var t := TargetOf(mounted, saved);
      (0 <= t < |mounted| && mounted[t]) <==> (saved.Some? && saved.value >= 0) || mounted[0]
  {
  }

  /** A disk that was saved is chosen if it is mounted; otherwise the first mounted one above
      it, and if there is none the first of all. */
  lemma {:induction false} SavedIsChosen(mounted: seq<bool>, cur: int)
    requires 0 <= cur < |mounted| && exists d :: 0 <= d < |mounted| && mounted[d]
    ensures var t := TargetOf(mounted, Some(cur));
      0 <= t < |mounted| && mounted[t] && (mounted[cur] ==> t == cur) &&
      (t > cur ==> forall e :: cur <= e < t ==> !mounted[e]) &&
      (t < cur ==> forall e :: 0 <= e < t || cur <= e < |mounted| ==> !mounted[e])
  {
    MountedFacts(mounted, |mounted|);
    SomeMounted(mounted, cur);
  }

  /** With only disk 1 mounted and no manager file, disk 0 is chosen. */
  lemma {:induction false} UnmountedDiskIsChosen(mounted: seq<bool>)
    requires mounted == [false, true]
    ensures TargetOf(mounted, None) == 0 && !mounted[0] && Mounted(mounted) != []
  {
    assert mounted[1];
  }
}
