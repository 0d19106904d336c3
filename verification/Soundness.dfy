/** What holds of the minute table, the manager file and the recorder's times while frames
    are recorded and baskets are recycled, and why each step keeps it (src/basket_rec.c). */
module Soundness {
  import opened Layout
  import opened MinuteTable
  import opened Recycling
  import S = RdbSearch

  /** tm_min. */
  function HourMinute(sec: int): int {
    sec / 60 % 60
  }

  /** Two times are on the same day if their days have the same number in the month. */
  predicate SameIfNamedSame(mday: int -> int, a: int, b: int) {
    MonthDay(mday, a) == MonthDay(mday, b) ==> S.DayOf(a) == S.DayOf(b)
  }

  ghost predicate Calendar(es: seq<Entry>, mday: int -> int) {
    forall j, k :: 0 <= j < |es| && 0 <= k < |es| ==> SameIfNamedSame(mday, es[j].sec, es[k].sec)
  }

  /** No day of the month comes again within 28 days, because no month is shorter. */
  ghost predicate RealCalendar(mday: int -> int) {
    forall d, d' :: d < d' < d + 28 ==> mday(d) != mday(d')
  }

  /** A frame's time is a time, not before the last frame's; and not so long after the last
      frame in the basket, or after an entry that still waits, that the day of the month
      comes again. */
  ghost predicate Regular(es: seq<Entry>, lastSec: int, sec: int, mday: int -> int, first: bool) {
    0 < sec <= NO_TIME && lastSec <= sec && (first || SameIfNamedSame(mday, lastSec, sec)) &&
    forall k :: 0 <= k < |es| ==> SameIfNamedSame(mday, es[k].sec, sec) && SameIfNamedSame(mday, sec, es[k].sec)
  }

  /** Frames on a day less than 28 days after that of the last frame and of all that waits
      are regular. */
  lemma WithinAMonthIsRegular(es: seq<Entry>, lastSec: int, sec: int, mday: int -> int, first: bool)
    requires RealCalendar(mday) && 0 < sec <= NO_TIME && lastSec <= sec
    requires first || S.DayOf(sec) < S.DayOf(lastSec) + 28
    requires forall k :: 0 <= k < |es| ==> S.DayOf(es[k].sec) <= S.DayOf(sec) < S.DayOf(es[k].sec) + 28
    ensures Regular(es, lastSec, sec, mday, first)
  {
  }

  /** What holds as long as nothing irregular has happened: the table and its buffer are
      right, and every basket's times cover what it holds and are on one day. */
  ghost predicate Sound(uses: map<int, Use>, t: Table, es: seq<Entry>, mday: int -> int) {
    RightTable(uses, t) && RightEntries(uses, es) && AllCover(uses) && Calendar(es, mday)
  }

  /** No video frame has been recorded yet. */
  predicate Fresh(u: Use) {
    forall c :: 0 <= c < |u.t2| ==> u.t2[c] == 0
  }

  ghost predicate SoundBasket(u: Use, idxT2: seq<int>, idxPos: seq<int>, lastSec: int, prevDay: int, mday: int -> int) {
    Tracks(u, idxT2, idxPos, lastSec) && (Fresh(u) || prevDay == MonthDay(mday, lastSec))
  }

  lemma {:induction false} FlushIsSound(uses: map<int, Use>, t: Table, es: seq<Entry>, mday: int -> int)
    requires Sound(uses, t, es, mday) && IsTable(t) && EntriesOk(es) && es != []
    ensures var n := RunLength(es, mday); var d := DayOfEntry(es[0]); var t' := t[d := PutAll(DayFile(t, d), es[..n])];
      Sound(uses, t', es[n..], mday) && Keeps(t, t', 0)
  {
    hide RightEntry, RightTable, AllCover, Keeps, RunLength;
    RunIs(es, mday);
    var n, d := RunLength(es, mday), DayOfEntry(es[0]);
    forall k | 0 <= k < n
      ensures RightEntry(uses, es[..n][k]) && DayOfEntry(es[..n][k]) == d
    {
      assert RightEntry(uses, es[k]);
      assert SameIfNamedSame(mday, es[k].sec, es[0].sec);
    }
    FlushedIsRight(uses, t, es[..n], d);
    forall k | 0 <= k < |es[n..]|
      ensures RightEntry(uses, es[n..][k])
    {
      assert RightEntry(uses, es[n + k]);
    }
  }

  lemma {:induction false} EntryIsRight(uses: map<int, Use>, u: Use, bid: int, e: Entry, idxT2: seq<int>, idxPos: seq<int>)
    requires bid in uses && uses[bid] == u && bid != 0 && e.bid == bid && 0 <= e.ch < MAX_CHANNEL
    requires Tracks(u, idxT2, idxPos, e.sec) && u.t1[e.ch] != 0 && idxT2[e.ch] >= e.sec && e.pos == idxPos[e.ch]
    ensures RightEntry(uses, e)
  {
  }

  lemma {:induction false} AppendSound(uses: map<int, Use>, t: Table, es: seq<Entry>, mday: int -> int, lastSec: int, e: Entry, first: bool)
    requires Sound(uses, t, es, mday) && RightEntry(uses, e) && Regular(es, lastSec, e.sec, mday, first)
    ensures Sound(uses, t, es + [e], mday)
  {
    hide RightTable, RightEntry, AllCover;
  }

  lemma {:induction false} FlushKeeps(t: Table)
    ensures Keeps(t, t, 0)
  {
  }

  lemma {:induction false} DroppedIsSound(uses: map<int, Use>, t: Table, es: seq<Entry>, mday: int -> int)
    ensures Sound(uses, t, es, mday) ==> Sound(uses, t, [], mday)
  {
  }

  /** A basket that has not been used is not in the table. */
  lemma {:induction false} UnusedIsNowhere(uses: map<int, Use>, t: Table, es: seq<Entry>, mday: int -> int, b: int)
    requires Sound(uses, t, es, mday) && b !in uses && b != 0
    ensures Nowhere(t, b) && Unnamed(es, b) && Keeps(t, t, b)
  {
  }

  lemma {:induction false} RemovedIsTable(t: Table, b: int, sec: int)
    requires IsTable(t)
    ensures IsTable(Removed(t, b, sec))
  {
  }

  lemma OldestInRange(bodies: seq<Body>, bid: int)
    requires IsOldest(bodies, bid)
    ensures 1 <= bid <= |bodies|
  {
  }

  /** Picking the oldest basket leaves the table sound, and keeps the others' cells. */
  lemma {:induction false} PickIsSound(bodies: seq<Body>, uses: map<int, Use>, t: Table, es: seq<Entry>, mday: int -> int,
      bid: int, removed: bool, t': Table)
    requires AllFull(bodies, uses) && IsTable(t) && Sound(uses, t, es, mday) && IsOldest(bodies, bid)
    requires var sec := MinTs(bodies[bid - 1].t2);
      t' == (if removed then Removed(t, bid, sec) else map d | d in t && d >= S.DayOf(sec) :: t[d]) &&
      (removed ==> S.DayOf(sec) in t)
    ensures Sound(uses, t', es, mday) && Keeps(t, t', bid)
    ensures removed || S.DayOf(MinTs(bodies[bid - 1].t2)) !in t ==> Nowhere(t', bid)
  {
    hide AllCover, RightEntries, AllFull, IsOldest, MinTs, RightCell;
    RecyclingIsSafe(bodies, uses, t, bid);
    FailedRemovalKeeps(bodies, uses, t, bid);
    forall d | d in t'
      ensures RightDay(uses, d, t'[d])
    {
      assert RightDay(uses, d, t[d]);
      forall i | 0 <= i < |t'[d]|
        ensures RightCell(uses, t'[d][i], d, i)
      {
        assert RightCell(uses, t[d][i], d, i);
        NothingIsRight(uses, d, i);
      }
    }
  }

  lemma {:induction false} NothingIsRight(uses: map<int, Use>, d: int, i: int)
    ensures RightCell(uses, NOTHING, d, i)
  {
  }

  lemma NewFits(u: Use)
    requires u == Use(NoTimes(), NoTimes(), [])
    ensures Fits(u, Secs(NoTimes(), NoTimes()), INDEX_HDR) && Fresh(u)
  {
  }

  lemma {:induction false} ReuseIsSound(uses: map<int, Use>, b: int, t: Table, es: seq<Entry>, mday: int -> int,
      idxT2: seq<int>, idxPos: seq<int>, lastSec: int, prevDay: int)
    requires Sound(uses, t, es, mday) && b != 0 && |idxT2| == |idxPos| == MAX_CHANNEL && lastSec >= 0
    ensures var u := Use(NoTimes(), NoTimes(), []);
      Fresh(u) && SoundBasket(u, idxT2, idxPos, lastSec, prevDay, mday) &&
      (Nowhere(t, b) && Unnamed(es, b) ==> Sound(uses[b := u], t, es, mday))
  {
    hide RightTable, RightEntries;
    var u := Use(NoTimes(), NoTimes(), []);
    ReuseKeepsRightIff(uses, b, u, t, es);
    assert Covers(u, S.DayOf(lastSec));
  }

  /** One more video frame, in a basket that is new or of the frame's day. */
  lemma {:induction false} FrameIsSound(uses: map<int, Use>, bid: int, t: Table, es: seq<Entry>, es': seq<Entry>, mday: int -> int,
      idxT2: seq<int>, idxPos: seq<int>, lastSec: int, prevDay: int, e: IdxEntry, iframe: bool, event: int)
    requires Sound(uses, t, es, mday) && bid in uses && bid != 0 && SoundBasket(uses[bid], idxT2, idxPos, lastSec, prevDay, mday)
    requires Regular(es, lastSec, e.ts.sec, mday, Fresh(uses[bid])) && 0 <= e.ch < MAX_CHANNEL && |uses[bid].t1| == |uses[bid].t2| == MAX_CHANNEL
    requires Fresh(uses[bid]) || prevDay == MonthDay(mday, e.ts.sec)
    requires var u' := WithFrame(uses[bid], e, iframe);
      var idxT2' := if iframe then idxT2[e.ch := e.ts.sec] else idxT2;
      var idxPos' := if iframe then idxPos[e.ch := IndexNumToPos(|uses[bid].entries|)] else idxPos;
      es' == es || (u'.t1[e.ch] != 0 && idxT2'[e.ch] >= e.ts.sec && es' == es + [Entry(e.ch, e.ts.sec, event, bid, idxPos'[e.ch])])
    ensures var u' := WithFrame(uses[bid], e, iframe);
      var idxT2' := if iframe then idxT2[e.ch := e.ts.sec] else idxT2;
      var idxPos' := if iframe then idxPos[e.ch := IndexNumToPos(|uses[bid].entries|)] else idxPos;
      Sound(uses[bid := u'], t, es', mday) && SoundBasket(u', idxT2', idxPos', e.ts.sec, MonthDay(mday, e.ts.sec), mday)
  {
    hide RightTable, RightEntries, RightEntry, Covers;
    var u, u' := uses[bid], WithFrame(uses[bid], e, iframe);
    FrameTracked(u, idxT2, idxPos, lastSec, e, iframe);
    var idxT2' := if iframe then idxT2[e.ch := e.ts.sec] else idxT2;
    var idxPos' := if iframe then idxPos[e.ch := IndexNumToPos(|uses[bid].entries|)] else idxPos;
    var uses' := uses[bid := u'];
    GrowingKeepsRight(uses, bid, u', t, es);
    assert Covers(u', S.DayOf(e.ts.sec));
    assert Sound(uses', t, es, mday);
    if es' != es {
      var entry := Entry(e.ch, e.ts.sec, event, bid, idxPos'[e.ch]);
      EntryIsRight(uses', u', bid, entry, idxT2', idxPos');
      AppendSound(uses', t, es, mday, lastSec, entry, Fresh(u));
    }
  }

  /** T_BASKET_TIME: for every channel two times, in seconds. */
  datatype Secs = Secs(t1: seq<int>, t2: seq<int>)

  ghost predicate TableOk(t: Table, es: seq<Entry>) {
    IsTable(t) && EntriesOk(es)
  }

  lemma {:induction false} EntryAppended(t: Table, es: seq<Entry>, es': seq<Entry>)
    requires TableOk(t, es) && (es' == es || (|es'| == |es| + 1 && es'[..|es|] == es && EntryOk(es'[|es|])))
    ensures TableOk(t, es')
  {
  }

  /** The manager file's view of the baskets: empty ones, full ones with the times of what
      they hold, and the current one in use. */
  ghost predicate ManagerOk(bodies: seq<Body>, noSpace: bool, uses: map<int, Use>, isOpen: bool, bid: int) {
    (forall i :: 0 <= i < |bodies| ==>
       bodies[i].flag == (if isOpen && i + 1 == bid then Using else if i + 1 in uses then Full else Empty)) &&
    (noSpace ==> forall i :: 0 <= i < |bodies| ==> bodies[i].flag != Empty) &&
    (forall i :: 0 <= i < |bodies| && bodies[i].flag == Full ==> uses[i + 1].t2 == bodies[i].t2) &&
    (forall b :: b in uses ==> 1 <= b <= |bodies|) && (isOpen ==> bid in uses)
  }

  lemma {:induction false} ManagerSaves(bodies: seq<Body>, noSpace: bool, uses: map<int, Use>, bid: int)
    requires ManagerOk(bodies, noSpace, uses, true, bid)
    ensures 1 <= bid <= |bodies|
    ensures ManagerOk(bodies[bid - 1 := Body(Full, uses[bid].t2)], noSpace, uses, false, bid)
  {
  }

  /** BKTREC_setBasketStatus lists the basket as in use. */
  lemma {:induction false} ManagerOpens(bodies: seq<Body>, noSpace: bool, uses: map<int, Use>, bid: int, bid0: int, u: Use)
    requires ManagerOk(bodies, noSpace, uses, false, bid0) && 1 <= bid <= |bodies|
    ensures ManagerOk(bodies[bid - 1 := bodies[bid - 1].(flag := Using)], noSpace, uses[bid := u], true, bid)
  {
  }

  lemma {:induction false} ManagerRecords(bodies: seq<Body>, noSpace: bool, uses: map<int, Use>, bid: int, u: Use)
    requires ManagerOk(bodies, noSpace, uses, true, bid)
    ensures ManagerOk(bodies, noSpace, uses[bid := u], true, bid) && bid != 0
  {
  }

  lemma {:induction false} ManagerSearched(bodies: seq<Body>, noSpace: bool, uses: map<int, Use>, bid0: int)
    requires ManagerOk(bodies, noSpace, uses, false, bid0)
    ensures (forall i :: 0 <= i < |bodies| ==> bodies[i].flag != Empty) ==>
      AllFull(bodies, uses) && ManagerOk(bodies, true, uses, false, bid0)
    ensures forall i :: 0 <= i < |bodies| && bodies[i].flag == Empty ==> !noSpace && i + 1 !in uses
  {
    if forall i :: 0 <= i < |bodies| ==> bodies[i].flag != Empty {
      forall i | 0 <= i < |bodies|
        ensures bodies[i].flag == Full && i + 1 in uses && uses[i + 1].t2 == bodies[i].t2
      {
      }
    }
  }

  ghost predicate TurnsOk(bodies: seq<Body>, order: seq<int>, ends: seq<int>, isOpen: bool, bid: int) {
    |order| == |ends| + (if isOpen then 1 else 0) && (isOpen ==> bid == order[|ends|]) &&
    (Increasing(ends) ==> InTurn(order, |bodies|) && Rotated(bodies, ends, if isOpen then 1 else 0))
  }

  lemma {:induction false} TurnFilled(bodies: seq<Body>, order: seq<int>, ends: seq<int>, bid: int, filled: Body)
    requires TurnsOk(bodies, order, ends, true, bid) && 1 <= bid <= |bodies| && filled.flag == Full
    ensures TurnsOk(bodies[bid - 1 := filled], order, ends + [MinTs(filled.t2)], false, bid)
  {
    hide MinTs, Rotated;
    var ends' := ends + [MinTs(filled.t2)];
    if Increasing(ends') {
      assert forall i :: 0 <= i < |ends| ==> ends'[i] == ends[i];
      assert Increasing(ends);
      RotatedNext(bodies, ends, filled);
    }
  }

  lemma {:induction false} TurnOpened(bodies: seq<Body>, order: seq<int>, ends: seq<int>, bid0: int, bid: int)
    requires TurnsOk(bodies, order, ends, false, bid0) && 1 <= bid <= |bodies|
    requires Increasing(ends) ==> bid == |ends| % |bodies| + 1
    ensures TurnsOk(bodies[bid - 1 := bodies[bid - 1].(flag := Using)], order + [bid], ends, true, bid)
  {
    hide Rotated, Increasing;
    if Increasing(ends) {
      RotatedTaken(bodies, ends, bodies[bid - 1].(flag := Using));
    }
  }

  lemma {:induction false} NextInTurn(bodies: seq<Body>, order: seq<int>, ends: seq<int>, bid0: int, bid: int)
    requires TurnsOk(bodies, order, ends, false, bid0) && bodies != [] && 1 <= bid <= |bodies|
    requires if exists i :: 0 <= i < |bodies| && bodies[i].flag == Empty then
        bodies[bid - 1].flag == Empty && forall i :: 0 <= i < bid - 1 ==> bodies[i].flag != Empty
      else IsOldest(bodies, bid)
    ensures Increasing(ends) ==> bid == |ends| % |bodies| + 1
  {
    hide Rotated, Increasing, IsOldest;
    if Increasing(ends) {
      if exists i :: 0 <= i < |bodies| && bodies[i].flag == Empty {
        FirstEmptyIsNext(bodies, ends, bid);
      } else {
        OldestIsNext(bodies, ends, bid);
      }
    }
  }

  /** The recorder's times and index position are those of what it recorded. */
  predicate Fits(u: Use, bkt: Secs, idxEnd: int) {
    u.t1 == bkt.t1 && u.t2 == bkt.t2 && idxEnd == IndexNumToPos(|u.entries|)
  }

  lemma FrameFits(u: Use, bkt: Secs, idxEnd: int, e: IdxEntry, iframe: bool)
    requires Fits(u, bkt, idxEnd) && |bkt.t1| == |bkt.t2| == MAX_CHANNEL && 0 <= e.ch < MAX_CHANNEL
    ensures |u.t1| == |u.t2| == MAX_CHANNEL && idxEnd == IndexNumToPos(|u.entries|)
    ensures var u' := WithFrame(u, e, iframe);
      u'.t1 == (if iframe && bkt.t1[e.ch] == 0 then bkt.t1[e.ch := e.ts.sec] else bkt.t1) &&
      Fits(u', Secs(u'.t1, bkt.t2[e.ch := e.ts.sec]), if iframe then idxEnd + INDEX_DATA else idxEnd)
  {
  }

  lemma RegularTime(es: seq<Entry>, lastSec: int, sec: int, mday: int -> int, first: bool)
    requires Regular(es, lastSec, sec, mday, first)
    ensures sec > 0
  {
  }

  /** What each basket in use holds, the time of the last frame, the baskets opened and the
      earliest end times of those filled, in order; and whether nothing irregular has
      happened so far. */
  datatype Past = Past(uses: map<int, Use>, lastSec: int, order: seq<int>, ends: seq<int>, clean: bool)

  lemma RegularAfterFlush(es: seq<Entry>, lastSec: int, sec: int, mday: int -> int, first: bool)
    ensures es != [] && Regular(es, lastSec, sec, mday, first) ==> Regular(es[RunLength(es, mday)..], lastSec, sec, mday, first)
    ensures Regular(es, lastSec, sec, mday, first) ==> Regular([], lastSec, sec, mday, first)
  {
  }

  lemma {:induction false} KeepsOn(t0: Table, t1: Table, t2: Table, b: int)
    ensures Keeps(t0, t1, 0) && Keeps(t1, t2, b) ==> Keeps(t0, t2, b)
  {
  }

  /** What BKTREC_removeRDB leaves of the table. */
  ghost function Cleaned(t: Table, bid: int, sec: int, ok: bool): Table {
    if S.DayOf(sec) in t && ok then Removed(t, bid, sec) else map d | d in t && d >= S.DayOf(sec) :: t[d]
  }

  /** Every taken cell of t1 is one of t0. */
  ghost predicate Shrinks(t0: Table, t1: Table) {
    t1.Keys <= t0.Keys &&
    forall d, i :: d in t1 && 0 <= i < |t1[d]| && t1[d][i].bid != 0 ==> i < |t0[d]| && t0[d][i] == t1[d][i]
  }

  /** The table and the buffer after BKTREC_FlushWriteBuffer, all of whose writes succeed. */
  function TableAfterFlush(t: Table, es: seq<Entry>, skip: bool, mday: int -> int): Table
    requires IsTable(t) && EntriesOk(es)
  {
    if es == [] || !skip then t
    else
      var d := DayOfEntry(es[0]);
      t[d := PutAll(DayFile(t, d), es[..RunLength(es, mday)])]
  }

  function BufferAfterFlush(es: seq<Entry>, skip: bool, mday: int -> int): seq<Entry> {
    if es == [] || !skip then es else es[RunLength(es, mday)..]
  }
}
