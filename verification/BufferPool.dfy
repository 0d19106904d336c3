/** The frame buffer pool of src/app_writer.c: a table of buffers on an index-linked
    free list, a queue of free buffers, a queue of full buffers, a receiver thread
    that fills buffers and a recorder thread that empties and recycles them. */
module BufferPool {

  datatype Option<T> = None | Some(value: T)

  const INVALID_ID := 0xFFFF_FFFF

  /** The links of a buffer table. */
  datatype Table = Table(next: seq<int>, freeIndex: int)

  /** `free` is what the links spell out from freeIndex on, ending in INVALID_ID. */
  ghost predicate IsFreeList(t: Table, free: seq<int>) {
    |t.next| < INVALID_ID &&
    InTable(t, free) && Distinct(free) &&
    t.freeIndex == EntryAt(free, 0) &&
    forall i :: 0 <= i < |free| ==> t.next[free[i]] == EntryAt(free, i + 1)
  }

  ghost predicate InTable(t: Table, es: seq<int>) {
    forall i :: 0 <= i < |es| ==> 0 <= es[i] < |t.next|
  }

  function EntryAt(free: seq<int>, i: nat): int {
    if i < |free| then free[i] else INVALID_ID
  }

  ghost predicate Distinct(s: seq<int>) {
    forall i, j :: 0 <= i < j < |s| ==> s[i] != s[j]
  }

  function Allocated(t: Table): Table
    requires 0 <= t.freeIndex < |t.next|
  {
    Table(t.next[t.freeIndex := INVALID_ID], t.next[t.freeIndex])
  }

  function Freed(t: Table, e: int): Table
    requires 0 <= e < |t.next|
  {
    Table(t.next[e := t.freeIndex], e)
  }

  /** Taking an entry removes the head of the free list; the allocation assert of the
      source holds exactly when the list is not empty. */
  lemma {:induction false} AllocTakesHead(t: Table, free: seq<int>)
    requires IsFreeList(t, free)
    ensures 0 <= t.freeIndex < |t.next| <==> free != []
    ensures free != [] ==> t.freeIndex == free[0] && IsFreeList(Allocated(t), free[1..])
  {
  }

  /** Giving back an entry that is not on the free list puts it at the head. */
  lemma {:induction false} FreePutsHead(t: Table, free: seq<int>, e: int)
    requires IsFreeList(t, free) && 0 <= e < |t.next|
    requires forall i :: 0 <= i < |free| ==> free[i] != e
    ensures IsFreeList(Freed(t, e), [e] + free)
  {
  }

  class BufInfoTbl {
    const next: array<int>
    var freeIndex: int

    ghost function Links(): Table
      reads this, next
    {
      Table(next[..], freeIndex)
    }

    /** WRITER_bufInit: entry i links to i + 1; the last entry ends the list. */
    constructor (size: nat)
      requires 1 <= size < INVALID_ID
      ensures next.Length == size && fresh(next)
      ensures IsFreeList(Links(), Iota(size))
    {
      next := new int[size];
      freeIndex := 0;
      new;
      var i := 0;
      while i < next.Length - 1
        invariant 0 <= i <= next.Length - 1 && freeIndex == 0
        invariant forall k :: 0 <= k < i ==> next[k] == k + 1
      {
        next[i] := i + 1;
        i := i + 1;
      }
      next[i] := INVALID_ID;
    }

    /** WRITER_bufAlloc; the precondition is the source's assert. */
    method Alloc() returns (e: nat)
      requires 0 <= freeIndex < next.Length
      modifies this, next
      ensures e == old(freeIndex) && Links() == Allocated(old(Links()))
    {
      e := freeIndex;
      freeIndex := next[e];
      next[e] := INVALID_ID;
    }

    /** WRITER_bufFree. */
    method Free(e: nat)
      requires e < next.Length
      modifies this, next
      ensures Links() == Freed(old(Links()), e)
    {
      next[e] := freeIndex;
      freeIndex := e;
    }
  }

  function Iota(n: nat): (s: seq<int>)
    ensures |s| == n && forall i :: 0 <= i < n ==> s[i] == i
  {
    seq(n, i => i)
  }

  /** The prefill of WRITER_initThrObj: every entry but the last one is allocated and
      put on the free queue, and no put can fail. */
  method Prefill(tbl: BufInfoTbl, queueLen: nat) returns (freeQ: seq<int>)
    requires 1 <= tbl.next.Length <= queueLen
    requires IsFreeList(tbl.Links(), Iota(tbl.next.Length))
    modifies tbl, tbl.next
    ensures freeQ == Iota(tbl.next.Length - 1)
    ensures IsFreeList(tbl.Links(), [tbl.next.Length - 1])
  {
    hide Suffix, Iota, IsFreeList;
    freeQ := [];
    var i := 0;
    SuffixStep(tbl.next.Length, 0);
    while i < tbl.next.Length - 1
      invariant 0 <= i <= tbl.next.Length - 1
      invariant freeQ == Iota(i)
      invariant IsFreeList(tbl.Links(), Suffix(tbl.next.Length, i))
    {
      SuffixStep(tbl.next.Length, i);
      AllocTakesHead(tbl.Links(), Suffix(tbl.next.Length, i));
      var e := tbl.Alloc();
      assert |freeQ| < queueLen;
      freeQ := freeQ + [e];
      i := i + 1;
    }
  }

  /** The entries from i on. */
  function Suffix(n: nat, i: nat): (s: seq<int>)
    requires i <= n
  {
    seq(n - i, k => i + k)
  }

  lemma SuffixStep(n: nat, i: nat)
    requires i < n
    ensures Suffix(n, i) != [] && Suffix(n, i)[0] == i && Suffix(n, i)[1..] == Suffix(n, i + 1)
    ensures Suffix(n, 0) == Iota(n) && Suffix(n, n - 1) == [n - 1] && Iota(i) + [i] == Iota(i + 1)
  {
  }

  // ---------------------------------------------------------------- two threads

  /** Where a receiver thread stands in WRITER_videoProcessFullBufs. */
  datatype Receiver = Waiting | Holding(e: int) | Filled(e: int)

  /** Where the recorder thread stands in WRITER_recordFxn. */
  datatype Recorder = Idle | Reading(e: int) | Read(e: int) | Returned | Renewed(e: int)

  /** The shared state, both threads' places, and two histories: the frames the
      receiver has copied in and the frames the recorder has been handed. */
  datatype State<F> = State(
    tbl: Table, freeQ: seq<int>, fullQ: seq<int>, mem: map<int, F>,
    receiver: Receiver, recorder: Recorder,
    copied: seq<F>, recorded: seq<F>)

  datatype Action<F> = TakeFree | Copy(frame: F) | PutFull | TakeFull | Record | GiveBack | Renew | PutFree

  /** Whether the acting thread has reached the action and is not blocked in it. */
  predicate Enabled<F>(s: State<F>, a: Action<F>) {
    match a
    case TakeFree => s.receiver.Waiting? && s.freeQ != []
    case Copy(_) => s.receiver.Holding?
    case PutFull => s.receiver.Filled?
    case TakeFull => s.recorder.Idle? && s.fullQ != []
    case Record => s.recorder.Reading?
    case GiveBack => s.recorder.Read?
    case Renew => s.recorder.Returned?
    case PutFree => s.recorder.Renewed?
  }

  /** What could go wrong in an action: the asserts of WRITER_bufAlloc and
      WRITER_bufFree, a put on a queue that is full (the source ignores the failed
      put and loses the buffer), and a read of a buffer nobody has filled. */
  predicate Succeeds<F>(s: State<F>, a: Action<F>, queueLen: nat) {
    match a
    case PutFull => |s.fullQ| < queueLen
    case PutFree => |s.freeQ| < queueLen
    case Renew => 0 <= s.tbl.freeIndex < |s.tbl.next|
    case GiveBack => s.recorder.Read? ==> 0 <= s.recorder.e < |s.tbl.next|
    case Record => s.recorder.Reading? ==> s.recorder.e in s.mem
    case _ => true
  }

  function Step<F>(s: State<F>, a: Action<F>, queueLen: nat): State<F>
    requires Enabled(s, a) && Succeeds(s, a, queueLen)
  {
    match a
    case TakeFree => s.(receiver := Holding(s.freeQ[0]), freeQ := s.freeQ[1..])
    case Copy(f) => s.(receiver := Filled(s.receiver.e), mem := s.mem[s.receiver.e := f], copied := s.copied + [f])
    case PutFull => s.(receiver := Waiting, fullQ := s.fullQ + [s.receiver.e])
    case TakeFull => s.(recorder := Reading(s.fullQ[0]), fullQ := s.fullQ[1..])
    case Record => s.(recorder := Read(s.recorder.e), recorded := s.recorded + [s.mem[s.recorder.e]])
    case GiveBack => s.(recorder := Returned, tbl := Freed(s.tbl, s.recorder.e))
    case Renew => s.(recorder := Renewed(s.tbl.freeIndex), tbl := Allocated(s.tbl))
    case PutFree => s.(recorder := Idle, freeQ := s.freeQ + [s.recorder.e])
  }

  // ---------------------------------------------------------------- the invariant

  function ReceiverHand(r: Receiver): seq<int> {
    if r.Waiting? then [] else [r.e]
  }

  function RecorderHand(r: Recorder): seq<int> {
    if r.Reading? || r.Read? || r.Renewed? then [r.e] else []
  }

  /** The frames still on their way, oldest first. */
  function InFlight(s: State): seq<int> {
    (if s.recorder.Reading? then [s.recorder.e] else []) + s.fullQ +
    (if s.receiver.Filled? then [s.receiver.e] else [])
  }

  ghost predicate AllFilled(s: State) {
    forall i :: 0 <= i < |InFlight(s)| ==> InFlight(s)[i] in s.mem
  }

  function Frames<F>(mem: map<int, F>, es: seq<int>): (fs: seq<F>)
    requires forall i :: 0 <= i < |es| ==> es[i] in mem
    ensures |fs| == |es|
  {
    seq(|es|, i requires 0 <= i < |es| => mem[es[i]])
  }

  /** All places together. */
  ghost function Places(s: State, free: seq<int>): multiset<int> {
    multiset(free) + multiset(s.freeQ) + multiset(s.fullQ) +
    multiset(ReceiverHand(s.receiver)) + multiset(RecorderHand(s.recorder))
  }

  /** Every table entry is in exactly one place. */
  ghost predicate Conserved(s: State, free: seq<int>) {
    Places(s, free) == multiset(Iota(|s.tbl.next|))
  }

  ghost predicate InvWith(s: State, free: seq<int>) {
    IsFreeList(s.tbl, free) &&
    free != [] && free[|free| - 1] == |s.tbl.next| - 1 &&
    |free| == (if s.recorder.Returned? then 2 else 1) &&
    Conserved(s, free) &&
    InOrder(s)
  }

  ghost predicate Inv(s: State) {
    exists free :: InvWith(s, free)
  }

  /** The state that initialisation and prefill leave. */
  ghost predicate IsInitial(s: State) {
    |s.tbl.next| > 0 && IsFreeList(s.tbl, [|s.tbl.next| - 1]) && s.freeQ == Iota(|s.tbl.next| - 1) &&
    s.fullQ == [] && s.receiver == Waiting && s.recorder == Idle && s.copied == [] && s.recorded == []
  }

  lemma {:induction false} InitialInv(s: State)
    requires IsInitial(s)
    ensures Inv(s)
  {
    var n := |s.tbl.next|;
    assert Iota(n) == Iota(n - 1) + [n - 1];
    assert InvWith(s, [n - 1]);
  }

  /** Conservation bounds both queues and keeps the places apart. */
  lemma {:induction false} ConservedBounds(s: State, free: seq<int>)
    requires Conserved(s, free)
    ensures |free| + |s.freeQ| + |s.fullQ| + |ReceiverHand(s.receiver)| + |RecorderHand(s.recorder)| == |s.tbl.next|
    ensures forall e :: Places(s, free)[e] == if 0 <= e < |s.tbl.next| then 1 else 0
  {
    assert |Places(s, free)| == |Iota(|s.tbl.next|)|;
    IotaCounts(|s.tbl.next|);
  }

  lemma {:induction false} IotaCounts(n: nat)
    ensures forall e :: multiset(Iota(n))[e] == if 0 <= e < n then 1 else 0
  {
    if n > 0 {
      IotaCounts(n - 1);
      assert Iota(n) == Iota(n - 1) + [n - 1];
    }
  }

  /** What the recorder holds is no longer on the free list. */
  lemma {:induction false} HandIsNotFree(s: State, free: seq<int>)
    requires Conserved(s, free) && RecorderHand(s.recorder) != []
    ensures 0 <= s.recorder.e < |s.tbl.next|
    ensures forall i :: 0 <= i < |free| ==> free[i] != s.recorder.e
  {
    ConservedBounds(s, free);
    var e := s.recorder.e;
    assert multiset(RecorderHand(s.recorder))[e] == 1;
    assert Places(s, free)[e] >= multiset(free)[e] + multiset(RecorderHand(s.recorder))[e];
    forall i | 0 <= i < |free|
      ensures free[i] != e
    {
      assert free[i] in multiset(free);
    }
  }

  /** The buffer the receiver is filling is not on its way to the recorder. */
  lemma {:induction false} FillingIsNotInFlight(s: State, free: seq<int>)
    requires Conserved(s, free) && s.receiver.Holding?
    ensures forall i :: 0 <= i < |InFlight(s)| ==> InFlight(s)[i] != s.receiver.e
  {
    ConservedBounds(s, free);
    var e := s.receiver.e;
    var r := if s.recorder.Reading? then [s.recorder.e] else [];
    assert InFlight(s) == r + s.fullQ;
    assert multiset(InFlight(s)) == multiset(r) + multiset(s.fullQ);
    assert multiset(ReceiverHand(s.receiver))[e] == 1;
    assert multiset(r)[e] <= multiset(RecorderHand(s.recorder))[e];
    assert Places(s, free)[e] >= multiset(s.fullQ)[e] + multiset(RecorderHand(s.recorder))[e] + 1;
    forall i | 0 <= i < |InFlight(s)|
      ensures InFlight(s)[i] != e
    {
      assert InFlight(s)[i] in multiset(InFlight(s));
    }
  }

  /** No action a thread can reach ever fails. */
  lemma {:induction false} EnabledSucceeds<F>(s: State<F>, a: Action<F>, queueLen: nat)
    requires Inv(s) && Enabled(s, a) && |s.tbl.next| <= queueLen
    ensures Succeeds(s, a, queueLen)
  {
    var free :| InvWith(s, free);
    ConservedBounds(s, free);
    AllocTakesHead(s.tbl, free);
    if a.GiveBack? {
      HandIsNotFree(s, free);
    } else if a.Record? {
      assert InFlight(s)[0] == s.recorder.e;
      assert InFlight(s)[0] in InFlight(s);
    }
  }

  /** The free list after an action. */
  ghost function FreeAfter<F>(s: State<F>, a: Action<F>, free: seq<int>): seq<int>
    requires Enabled(s, a) && (a.Renew? ==> free != [])
  {
    if a.GiveBack? then [s.recorder.e] + free else if a.Renew? then free[1..] else free
  }

  lemma {:induction false} StepKeepsFreeList<F>(s: State<F>, a: Action<F>, queueLen: nat, free: seq<int>)
    requires InvWith(s, free) && Enabled(s, a) && Succeeds(s, a, queueLen)
    ensures var s' := Step(s, a, queueLen); var free' := FreeAfter(s, a, free);
      IsFreeList(s'.tbl, free') && |s'.tbl.next| == |s.tbl.next| &&
      free' != [] && free'[|free'| - 1] == |s.tbl.next| - 1 &&
      |free'| == if s'.recorder.Returned? then 2 else 1
  {
    if a.GiveBack? {
      HandIsNotFree(s, free);
      FreePutsHead(s.tbl, free, s.recorder.e);
    } else if a.Renew? {
      AllocTakesHead(s.tbl, free);
    }
  }

  lemma Push(s: seq<int>, e: int)
    ensures multiset(s + [e]) == multiset(s) + multiset{e} && multiset([e] + s) == multiset(s) + multiset{e}
  {
  }

  lemma {:induction false} Pop(s: seq<int>)
    requires s != []
    ensures multiset(s) == multiset(s[1..]) + multiset{s[0]}
  {
    assert s == [s[0]] + s[1..];
  }

  /** The receiver moves entries from the free queue to its hand to the full queue. */
  lemma {:induction false} ReceiverKeepsPlaces<F>(s: State<F>, a: Action<F>, queueLen: nat, free: seq<int>)
    requires Conserved(s, free) && Enabled(s, a) && Succeeds(s, a, queueLen)
    requires a.TakeFree? || a.Copy? || a.PutFull?
    ensures Conserved(Step(s, a, queueLen), free)
  {
    hide Iota;
    match a
    case TakeFree => Pop(s.freeQ);
    case PutFull => Push(s.fullQ, s.receiver.e);
    case Copy(_) =>
  }

  /** The recorder moves them from the full queue to its hand and, in the end, to the
      free queue. */
  lemma {:induction false} TakeFullKeepsPlaces<F>(s: State<F>, a: Action<F>, queueLen: nat, free: seq<int>)
    requires Conserved(s, free) && Enabled(s, a) && a.TakeFull?
    ensures Conserved(Step(s, a, queueLen), free)
  {
    Pop(s.fullQ);
  }

  lemma RecordKeepsPlaces<F>(s: State<F>, a: Action<F>, queueLen: nat, free: seq<int>)
    requires Conserved(s, free) && Enabled(s, a) && Succeeds(s, a, queueLen) && a.Record?
    ensures Conserved(Step(s, a, queueLen), free)
  {
  }

  lemma PutFreeKeepsPlaces<F>(s: State<F>, a: Action<F>, queueLen: nat, free: seq<int>)
    requires Conserved(s, free) && Enabled(s, a) && Succeeds(s, a, queueLen) && a.PutFree?
    ensures Conserved(Step(s, a, queueLen), free)
  {
  }

  /** In between it moves them through the free list. */
  lemma {:induction false} GiveBackKeepsPlaces<F>(s: State<F>, a: Action<F>, queueLen: nat, free: seq<int>)
    requires Conserved(s, free) && Enabled(s, a) && Succeeds(s, a, queueLen) && a.GiveBack?
    ensures Conserved(Step(s, a, queueLen), FreeAfter(s, a, free))
  {
    hide Iota;
    Push(free, s.recorder.e);
    assert multiset([s.recorder.e]) == multiset{s.recorder.e};
  }

  lemma {:induction false} RenewKeepsPlaces<F>(s: State<F>, a: Action<F>, queueLen: nat, free: seq<int>)
    requires Conserved(s, free) && Enabled(s, a) && Succeeds(s, a, queueLen) && a.Renew? && free != [] && s.tbl.freeIndex == free[0]
    ensures Conserved(Step(s, a, queueLen), FreeAfter(s, a, free))
  {
    hide Iota;
    Pop(free);
    assert multiset([free[0]]) == multiset{free[0]};
  }

  /** Frames reach the recorder in the order they were copied in. */
  ghost predicate InOrder(s: State) {
    AllFilled(s) && s.copied == s.recorded + Frames(s.mem, InFlight(s))
  }

  lemma {:induction false} CopyKeepsOrder<F>(s: State<F>, a: Action<F>, queueLen: nat, free: seq<int>)
    requires Conserved(s, free) && InOrder(s) && Enabled(s, a) && a.Copy?
    ensures InOrder(Step(s, a, queueLen))
  {
    var s' := Step(s, a, queueLen);
    FillingIsNotInFlight(s, free);
    var before, after := InFlight(s), InFlight(s');
    assert after == before + [s.receiver.e];
    forall i | 0 <= i < |after|
      ensures after[i] in s'.mem && s'.mem[after[i]] == (Frames(s.mem, before) + [a.frame])[i]
    {
      if i < |before| {
        assert before[i] != s.receiver.e;
      }
    }
    assert Frames(s'.mem, after) == Frames(s.mem, before) + [a.frame];
  }

  lemma {:induction false} RecordKeepsOrder<F>(s: State<F>, a: Action<F>, queueLen: nat)
    requires InOrder(s) && Enabled(s, a) && Succeeds(s, a, queueLen) && a.Record?
    ensures InOrder(Step(s, a, queueLen))
  {
    var s' := Step(s, a, queueLen);
    var before, after := InFlight(s), InFlight(s');
    assert before == [s.recorder.e] + after;
    forall i | 0 <= i < |after|
      ensures after[i] in s'.mem
    {
      assert after[i] == before[i + 1];
    }
    assert Frames(s.mem, before) == [s.mem[s.recorder.e]] + Frames(s'.mem, after);
  }

  lemma {:induction false} OthersKeepOrder<F>(s: State<F>, a: Action<F>, queueLen: nat)
    requires InOrder(s) && Enabled(s, a) && Succeeds(s, a, queueLen) && !a.Copy? && !a.Record?
    ensures InOrder(Step(s, a, queueLen))
  {
    var s' := Step(s, a, queueLen);
    if a.TakeFull? {
      assert s.fullQ == [s.fullQ[0]] + s'.fullQ;
    }
    assert InFlight(s') == InFlight(s);
  }

  lemma {:induction false} StepKeepsInv<F>(s: State<F>, a: Action<F>, queueLen: nat)
    requires Inv(s) && Enabled(s, a) && Succeeds(s, a, queueLen)
    ensures Inv(Step(s, a, queueLen)) && |Step(s, a, queueLen).tbl.next| == |s.tbl.next|
  {
    hide Places, IsFreeList, InOrder, Frames, InFlight;
    var free :| InvWith(s, free);
    StepKeepsFreeList(s, a, queueLen, free);
    if a.TakeFree? || a.Copy? || a.PutFull? {
      ReceiverKeepsPlaces(s, a, queueLen, free);
    } else if a.TakeFull? {
      TakeFullKeepsPlaces(s, a, queueLen, free);
    } else if a.PutFree? {
      PutFreeKeepsPlaces(s, a, queueLen, free);
    } else if a.Record? {
      RecordKeepsPlaces(s, a, queueLen, free);
    } else if a.GiveBack? {
      GiveBackKeepsPlaces(s, a, queueLen, free);
    } else {
      AllocTakesHead(s.tbl, free);
      RenewKeepsPlaces(s, a, queueLen, free);
    }
    if a.Copy? {
      CopyKeepsOrder(s, a, queueLen, free);
    } else if a.Record? {
      RecordKeepsOrder(s, a, queueLen);
    } else {
      OthersKeepOrder(s, a, queueLen);
    }
    assert InvWith(Step(s, a, queueLen), FreeAfter(s, a, free));
  }

  // ---------------------------------------------------------------- whole runs

  /** A run: each action is enabled where it is taken; nothing is said about the state
      after one that goes wrong. */
  ghost predicate IsRun<F>(ss: seq<State<F>>, acts: seq<Action<F>>, queueLen: nat) {
    |ss| == |acts| + 1 && IsInitial(ss[0]) && |ss[0].tbl.next| <= queueLen &&
    (forall i :: 0 <= i < |acts| ==> Enabled(ss[i], acts[i])) &&
    (forall i :: 0 <= i < |acts| && Succeeds(ss[i], acts[i], queueLen) ==> ss[i + 1] == Step(ss[i], acts[i], queueLen))
  }

  /** Under every interleaving of the two threads: every entry is in exactly one
      place, no assert fires and no put fails, the last entry is never handed out,
      and the recorder gets the copied frames in order, none lost and none twice. */
  lemma {:induction false} EveryInterleaving<F>(ss: seq<State<F>>, acts: seq<Action<F>>, queueLen: nat, i: nat)
    requires IsRun(ss, acts, queueLen) && i < |ss|
    ensures Inv(ss[i]) && |ss[i].tbl.next| == |ss[0].tbl.next|
    ensures i < |acts| ==> Succeeds(ss[i], acts[i], queueLen)
    ensures ss[i].recorded <= ss[i].copied
    ensures LastNeverHandedOut(ss[i])
    decreases i
  {
    hide Inv, InvWith, Enabled, Succeeds, Step, LastNeverHandedOut, IsInitial;
    if i == 0 {
      InitialInv(ss[0]);
    } else {
      EveryInterleaving(ss, acts, queueLen, i - 1);
      StepKeepsInv(ss[i - 1], acts[i - 1], queueLen);
    }
    if i < |acts| {
      EnabledSucceeds(ss[i], acts[i], queueLen);
    }
    InvSaysLastIsFree(ss[i]);
  }

  /** The last entry of the table, the one without memory, is in nobody's hands. */
  ghost predicate LastNeverHandedOut(s: State) {
    var last := |s.tbl.next| - 1;
    last !in s.freeQ && last !in s.fullQ &&
    last !in ReceiverHand(s.receiver) && last !in RecorderHand(s.recorder)
  }

  lemma {:induction false} InvSaysLastIsFree(s: State)
    requires Inv(s)
    ensures LastNeverHandedOut(s) && s.recorded <= s.copied
  {
    var free :| InvWith(s, free);
    ConservedBounds(s, free);
    var last := |s.tbl.next| - 1;
    assert last in multiset(free);
    assert Places(s, free)[last] == 1;
  }

  /** The receiver thread can go on unless it waits for a buffer, and then the recorder
      thread can. */
  lemma {:induction false} NoDeadlock<F>(s: State<F>, f: F)
    requires Inv(s) && |s.tbl.next| >= 2
    ensures !(s.receiver.Waiting? && s.freeQ == []) ==>
      Enabled(s, match s.receiver case Waiting => TakeFree case Holding(_) => Copy(f) case Filled(_) => PutFull)
    ensures s.receiver.Waiting? && s.freeQ == [] ==>
      exists a: Action<F> :: a in {TakeFull, Record, GiveBack, Renew, PutFree} && Enabled(s, a)
  {
    if s.receiver.Waiting? && s.freeQ == [] {
      var free :| InvWith(s, free);
      ConservedBounds(s, free);
      var a: Action<F> := match s.recorder
        case Idle => TakeFull
        case Reading(_) => Record
        case Read(_) => GiveBack
        case Returned => Renew
        case Renewed(_) => PutFree;
      assert Enabled(s, a);
    }
  }

  /** A thread that is about to put a buffer into a queue finds room for it among as many
      places as there are buffers. */
  lemma {:induction false} QueuesHaveRoom(s: State)
    requires Inv(s)
    ensures s.receiver.Filled? ==> |s.fullQ| < |s.tbl.next|
    ensures s.recorder.Renewed? ==> |s.freeQ| < |s.tbl.next|
  {
    var free :| InvWith(s, free);
    ConservedBounds(s, free);
  }
}
