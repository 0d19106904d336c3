/** Whole runs of a disk in recycle mode: what the frames themselves have to satisfy so that
    the minute table stays right, baskets are used in turn, and recycling loses nothing but
    the basket it reuses; and a run that shows the condition is needed. */
module DiskRuns {
  import opened Layout
  import opened MinuteTable
  import opened Recycling
  import opened Soundness
  import opened Storage
  import opened Coverage
  import C = Claims
  import S = RdbSearch

  datatype Step = Video(f: Frame, io: Io) | Audio(size: nat, io: Io)

  // ---------------------------------------------------------------- the condition on the steps

  /** What the steps so far tell of the recorder, when every write succeeds: the second of
      the last video frame, and of the last one before the current basket; the day of the
      month; whether the current basket has video, and whether the table has been flushed
      since it was opened; and the positions. */
  datatype Watch = Watch(lastSec: int, since: int, prevDay: int, seen: bool, flushed: bool, fill: Fill)

  function StartWatch(prevDay: int): Watch {
    Watch(0, 0, prevDay, false, true, NEW_FILL)
  }

  predicate Changes(w: Watch, step: Step, mday: int -> int) {
    match step
    case Video(f, _) => Rolls(w.fill, w.prevDay, f, mday)
    case Audio(size, _) => Overflows(w.fill, AudioSize(size), 0)
  }

  function After(w: Watch, step: Step, mday: int -> int): Watch {
    match step
    case Video(f, _) =>
      var rolls, day := Rolls(w.fill, w.prevDay, f, mday), MonthDay(mday, f.ts.sec);
      var fill := Added(StartFill(rolls, w.fill, VideoSize(f)), VideoSize(f), IdxSize(f));
      if rolls then Watch(f.ts.sec, w.lastSec, day, true, false, fill)
      else Watch(f.ts.sec, w.since, day, true, w.flushed || BuffersFull(w.fill, VideoSize(f), INDEX_DATA), fill)
    case Audio(size, _) =>
      var n := AudioSize(size);
      if Overflows(w.fill, n, 0) then Watch(w.lastSec, w.lastSec, w.prevDay, false, false, Added(NEW_FILL, n, 0))
      else w.(fill := Added(if BuffersFull(w.fill, n, 0) then Emptied(w.fill) else w.fill, n, 0))
  }

  /** Every write succeeds; the times of the video frames do not go back, never leave out
      more than 13 days, and get later by a second where a basket begins; and between two
      changes of baskets a video frame is recorded and the buffers get full. */
  predicate Orderly1(w: Watch, step: Step, mday: int -> int) {
    (match step
     case Video(f, io) =>
       AllSucceed(io) && 0 < f.ts.sec <= NO_TIME && w.lastSec <= f.ts.sec &&
       (w.lastSec != 0 ==> S.DayOf(f.ts.sec) <= S.DayOf(w.lastSec) + 13) &&
       (!w.seen || Changes(w, step, mday) ==> w.lastSec < f.ts.sec)
     case Audio(_, io) => AllSucceed(io)) &&
    (Changes(w, step, mday) ==> w.seen && w.flushed)
  }

  predicate Orderly(w: Watch, steps: seq<Step>, mday: int -> int)
    decreases |steps|
  {
    steps == [] || (Orderly1(w, steps[0], mday) && Orderly(After(w, steps[0], mday), steps[1..], mday))
  }

  function AfterAll(w: Watch, steps: seq<Step>, mday: int -> int): Watch
    decreases |steps|
  {
    if steps == [] then w else AfterAll(After(w, steps[0], mday), steps[1..], mday)
  }

  function CountChanges(w: Watch, steps: seq<Step>, mday: int -> int): nat
    decreases |steps|
  {
    if steps == [] then 0
    else (if Changes(w, steps[0], mday) then 1 else 0) + CountChanges(After(w, steps[0], mday), steps[1..], mday)
  }

  // ---------------------------------------------------------------- what it keeps

  ghost predicate OnlyNames(es: seq<Entry>, bid: int) {
    forall k :: 0 <= k < |es| ==> es[k].bid == bid
  }

  /** Entries of the current basket wait behind those of the one before, which are all of
      one day. */
  ghost predicate Waiting(es: seq<Entry>, bid: int) {
    (forall j, k :: 0 <= j < k < |es| && es[j].bid == bid ==> es[k].bid == bid) &&
    (forall j, k :: 0 <= j < |es| && 0 <= k < |es| && es[j].bid != bid && es[k].bid != bid ==> DayOfEntry(es[j]) == DayOfEntry(es[k]))
  }

  ghost predicate Near(es: seq<Entry>, lastSec: int) {
    forall k :: 0 <= k < |es| ==> S.DayOf(lastSec) - 13 <= DayOfEntry(es[k]) <= S.DayOf(lastSec)
  }

  /** The current basket's frames are all later than every other basket's earliest end. */
  ghost predicate LaterThan(uses: map<int, Use>, bid: int, since: int, lastSec: int) {
    bid in uses && (forall b :: b in uses && b != bid ==> MinTs(uses[b].t2) <= since) &&
    forall c :: 0 <= c < |uses[bid].t2| ==> uses[bid].t2[c] == 0 || since < uses[bid].t2[c] <= lastSec
  }

  ghost predicate EndsUpTo(ends: seq<int>, since: int) {
    Increasing(ends) && forall i :: 0 <= i < |ends| ==> ends[i] <= since
  }

  ghost predicate Steady(w: Watch, past: Past, bid: int, es: seq<Entry>, prevDay: int, fill: Fill, mday: int -> int) {
    w.lastSec == past.lastSec && w.prevDay == prevDay && w.fill == fill && 0 <= w.since <= w.lastSec <= NO_TIME &&
    LaterThan(past.uses, bid, w.since, w.lastSec) && EndsUpTo(past.ends, w.since) &&
    (w.seen <==> !Fresh(past.uses[bid])) && (w.lastSec == 0 ==> es == []) &&
    (w.lastSec != 0 ==> prevDay == MonthDay(mday, w.lastSec)) &&
    Waiting(es, bid) && (w.flushed ==> OnlyNames(es, bid)) && Near(es, w.lastSec)
  }

  ghost predicate Follows(d: Disk, w: Watch)
    reads d
  {
    d.Valid() && d.isOpen && d.past.clean && Steady(w, d.past, d.bid, d.rBuf, d.prevDay, d.fill, d.mday)
  }

  /** A flush of the table leaves none but the current basket's entries waiting. */
  lemma {:induction false} FlushLeavesCurrent(es: seq<Entry>, bid: int, mday: int -> int)
    requires Waiting(es, bid)
    ensures OnlyNames(BufferAfterFlush(es, true, mday), bid) && Waiting(BufferAfterFlush(es, true, mday), bid)
  {
    if es != [] {
      var n := RunLength(es, mday);
      assert n < |es| && es[n].bid != bid ==> DayOfEntry(es[0]) == DayOfEntry(es[n]);
      RunIs(es, mday);
      forall k | 0 <= k < |es[n..]|
        ensures es[n..][k].bid == bid
      {
        assert es[n..][k] == es[n + k];
      }
    }
  }

  lemma NearAfterFlush(es: seq<Entry>, lastSec: int, skip: bool, mday: int -> int)
    requires Near(es, lastSec)
    ensures Near(BufferAfterFlush(es, skip, mday), lastSec) && (es == [] ==> BufferAfterFlush(es, skip, mday) == [])
  {
  }

  lemma {:induction false} WaitingAfterFlush(es: seq<Entry>, bid: int, skip: bool, mday: int -> int)
    requires Waiting(es, bid)
    ensures var es' := BufferAfterFlush(es, skip, mday);
      Waiting(es', bid) && (OnlyNames(es, bid) || (skip && es != []) ==> OnlyNames(es', bid))
  {
    if skip {
      FlushLeavesCurrent(es, bid, mday);
    }
  }

  /** One more entry of the current basket. */
  lemma {:induction false} ClaimKeepsWaiting(before: seq<Entry>, after: seq<Entry>, bid: int, sec: int, lastSec: int)
    requires Claimed(before, after, bid, sec) && Waiting(before, bid) && Near(before, lastSec)
    requires S.DayOf(sec) == S.DayOf(lastSec)
    ensures Waiting(after, bid) && Near(after, lastSec) && (OnlyNames(before, bid) ==> OnlyNames(after, bid))
  {
    if after != before {
      forall k | 0 <= k < |before|
        ensures after[k] == before[k]
      {
        assert after[..|before|][k] == before[k];
      }
    }
  }

  /** Once a video frame has been recorded, all other baskets end earlier. */
  lemma {:induction false} OthersAreEarlier(uses: map<int, Use>, bid: int, since: int, lastSec: int)
    requires LaterThan(uses, bid, since, lastSec) && !Fresh(uses[bid]) && lastSec <= NO_TIME
    ensures OthersEndEarlier(uses, bid) && since < MinTs(uses[bid].t2) <= lastSec
  {
    hide MinTs;
    MinTsIsOne(uses[bid].t2);
    var c :| 0 <= c < |uses[bid].t2| && uses[bid].t2[c] != 0;
    MinTsIsLeast(uses[bid].t2, c);
  }

  lemma {:induction false} EndsAppend(ends: seq<int>, since: int, e: int)
    requires EndsUpTo(ends, since) && since < e
    ensures EndsUpTo(ends + [e], e)
  {
  }

  /** The entries of the current basket are of the last frame's day. */
  lemma {:induction false} OwnEntriesToday(uses: map<int, Use>, es: seq<Entry>, bid: int, idxT2: seq<int>, idxPos: seq<int>, lastSec: int)
    requires RightEntries(uses, es) && bid in uses && Tracks(uses[bid], idxT2, idxPos, lastSec)
    ensures forall k :: 0 <= k < |es| && es[k].bid == bid ==> DayOfEntry(es[k]) == S.DayOf(lastSec)
  {
    hide IndexPosToNum, IndexNumToPos;
    forall k | 0 <= k < |es| && es[k].bid == bid
      ensures DayOfEntry(es[k]) == S.DayOf(lastSec)
    {
      assert RightEntry(uses, es[k]);
      var u := uses[bid];
      var e := u.entries[IndexPosToNum(es[k].pos)];
      assert EntryWithin(u, e);
      SameDayBetween(u.t1[e.ch], e.ts.sec, u.t2[e.ch], S.DayOf(lastSec));
    }
  }

  /** A frame in time, near enough to all that waits, is regular. */
  lemma {:induction false} OrderlyIsRegular(w: Watch, past: Past, bid: int, es: seq<Entry>, prevDay: int, fill: Fill, mday: int -> int, f: Frame, io: Io)
    requires Steady(w, past, bid, es, prevDay, fill, mday) && Orderly1(w, Video(f, io), mday) && RealCalendar(mday)
    requires bid in past.uses
    ensures Regular(es, past.lastSec, f.ts.sec, mday, Rolls(fill, prevDay, f, mday) || Fresh(past.uses[bid]))
  {
    hide EndsUpTo, Waiting, OnlyNames, MinTs, Fresh;
    if !Fresh(past.uses[bid]) {
      SomeTime(past.uses, bid, w.since, w.lastSec);
    }
    DayMonotone(w.lastSec, f.ts.sec);
    WithinAMonthIsRegular(es, w.lastSec, f.ts.sec, mday, Rolls(fill, prevDay, f, mday) || Fresh(past.uses[bid]));
  }

  lemma DayMonotone(a: int, b: int)
    requires a <= b
    ensures S.DayOf(a) <= S.DayOf(b)
  {
  }

  /** The frame is of the last frame's day, if it does not change baskets. */
  lemma {:induction false} SameDayWithin(w: Watch, f: Frame, io: Io, mday: int -> int)
    requires Orderly1(w, Video(f, io), mday) && RealCalendar(mday) && !Changes(w, Video(f, io), mday) && w.lastSec != 0
    requires w.prevDay == MonthDay(mday, w.lastSec)
    ensures S.DayOf(f.ts.sec) == S.DayOf(w.lastSec)
  {
    DayMonotone(w.lastSec, f.ts.sec);
  }

  /** A frame later than what the other baskets end with. */
  lemma {:induction false} FrameIsLater(uses: map<int, Use>, bid: int, since: int, lastSec: int, e: IdxEntry, iframe: bool)
    requires LaterThan(uses, bid, since, lastSec) && |uses[bid].t1| == |uses[bid].t2| == MAX_CHANNEL && 0 <= e.ch < MAX_CHANNEL
    requires since < e.ts.sec && lastSec <= e.ts.sec && e.ts.sec > 0
    ensures var uses' := uses[bid := WithFrame(uses[bid], e, iframe)];
      LaterThan(uses', bid, since, e.ts.sec) && !Fresh(uses'[bid])
  {
    hide MinTs;
    var u' := WithFrame(uses[bid], e, iframe);
    assert u'.t2[e.ch] == e.ts.sec;
  }

  /** A video frame that stays in its basket. */
  lemma {:induction false} StayIsSteady(w: Watch, past: Past, bid: int, es: seq<Entry>, prevDay: int, fill: Fill, mday: int -> int,
      f: Frame, io: Io, past': Past, es': seq<Entry>, fill': Fill)
    requires Steady(w, past, bid, es, prevDay, fill, mday) && Orderly1(w, Video(f, io), mday) && RealCalendar(mday)
    requires !Changes(w, Video(f, io), mday) && Wrote(f, false, fill, past, [], bid, past', fill')
    requires Claimed(BufferAfterFlush(es, BuffersFull(fill, VideoSize(f), INDEX_DATA), mday), es', bid, f.ts.sec)
    ensures Steady(After(w, Video(f, io), mday), past', bid, es', MonthDay(mday, f.ts.sec), fill', mday)
  {
    hide MinTs, EndsUpTo, Claimed, Near, Waiting, OnlyNames, BufferAfterFlush, LaterThan, Fresh, WithFrame, MonthDay;
    var skip := BuffersFull(fill, VideoSize(f), INDEX_DATA);
    var mid := BufferAfterFlush(es, skip, mday);
    WaitingAfterFlush(es, bid, skip, mday);
    NearAfterFlush(es, w.lastSec, skip, mday);
    if w.lastSec != 0 {
      SameDayWithin(w, f, io, mday);
    }
    if w.seen {
      SomeTime(past.uses, bid, w.since, w.lastSec);
    }
    FrameIsLater(past.uses, bid, w.since, w.lastSec, EntryAt(f, StartFill(false, fill, VideoSize(f)).bktEnd), f.iframe);
    NearSameDay(mid, w.lastSec, f.ts.sec);
    ClaimKeepsWaiting(mid, es', bid, f.ts.sec, f.ts.sec);
    EmptyNames(es, bid);
  }

  lemma EmptyNames(es: seq<Entry>, bid: int)
    ensures es == [] ==> OnlyNames(es, bid)
  {
  }

  lemma NearSameDay(es: seq<Entry>, a: int, b: int)
    requires Near(es, a) && (es == [] || S.DayOf(a) == S.DayOf(b))
    ensures Near(es, b)
  {
  }

  /** What is left when the current basket has been closed with video in it. */
  lemma {:induction false} ChangeIsSteady(w: Watch, past: Past, bid: int, es: seq<Entry>, es': seq<Entry>, lastSec': int, bid': int)
    requires LaterThan(past.uses, bid, w.since, w.lastSec) && EndsUpTo(past.ends, w.since) && !Fresh(past.uses[bid]) && w.lastSec <= NO_TIME
    requires OnlyNames(es, bid) && bid' != bid && (forall k :: 0 <= k < |es| ==> DayOfEntry(es[k]) == S.DayOf(w.lastSec))
    requires w.lastSec <= lastSec' && S.DayOf(lastSec') <= S.DayOf(w.lastSec) + 13
    requires |es'| <= |es| && es' == es[|es| - |es'|..]
    ensures var past' := AfterChange(past, bid', past.uses[bid].t2, true);
      EndsUpTo(past'.ends, w.lastSec) && LaterThan(past'.uses, bid', w.lastSec, lastSec') &&
      Waiting(es', bid') && Near(es', lastSec') && Fresh(past'.uses[bid']) && Unnamed(es', bid')
  {
    hide MinTs;
    OthersAreEarlier(past.uses, bid, w.since, w.lastSec);
    EndsAppend(past.ends, w.since, MinTs(past.uses[bid].t2));
    DayMonotone(w.lastSec, lastSec');
    forall k | 0 <= k < |es'|
      ensures es'[k].bid == bid && DayOfEntry(es'[k]) == S.DayOf(w.lastSec)
    {
      assert es'[k] == es[|es| - |es'| + k];
    }
  }

  /** A video frame that changes baskets. */
  lemma {:induction false} RollIsSteady(w: Watch, past: Past, bid: int, es: seq<Entry>, prevDay: int, fill: Fill, mday: int -> int,
      f: Frame, io: Io, past': Past, bid': int, es': seq<Entry>, fill': Fill)
    requires Steady(w, past, bid, es, prevDay, fill, mday) && Orderly1(w, Video(f, io), mday) && RealCalendar(mday)
    requires Changes(w, Video(f, io), mday) && Wrote(f, true, fill, past, past.uses[bid].t2, bid', past', fill') && bid' != bid
    requires forall k :: 0 <= k < |es| ==> DayOfEntry(es[k]) == S.DayOf(w.lastSec)
    requires Claimed(es, es', bid', f.ts.sec)
    ensures Steady(After(w, Video(f, io), mday), past', bid', es', MonthDay(mday, f.ts.sec), fill', mday)
  {
    assert bid in past.uses;
    hide MinTs, Claimed, Near, Waiting, OnlyNames, EndsUpTo, BufferAfterFlush, LaterThan, Fresh, WithFrame, MonthDay;
    if w.lastSec == 0 {
      SomeTime(past.uses, bid, w.since, w.lastSec);
    }
    ChangeIsSteady(w, past, bid, es, es, f.ts.sec, bid');
    var base := AfterChange(past, bid', past.uses[bid].t2, past.clean);
    FrameIsLater(base.uses, bid', w.lastSec, f.ts.sec, EntryAt(f, NEW_FILL.bktEnd), f.iframe);
    ClaimKeepsWaiting(es, es', bid', f.ts.sec, f.ts.sec);
  }

  /** A basket with video has a time. */
  lemma {:induction false} SomeTime(uses: map<int, Use>, bid: int, since: int, lastSec: int)
    requires LaterThan(uses, bid, since, lastSec) && !Fresh(uses[bid]) && since >= 0
    ensures lastSec > since
  {
  }

  /** A record of audio, whether it changes baskets or not. */
  lemma {:induction false} AudioIsSteady(w: Watch, past: Past, bid: int, es: seq<Entry>, prevDay: int, fill: Fill, mday: int -> int,
      size: nat, io: Io, past': Past, bid': int, es': seq<Entry>, skip: bool)
    requires Steady(w, past, bid, es, prevDay, fill, mday) && Orderly1(w, Audio(size, io), mday)
    requires es' == BufferAfterFlush(es, skip, mday)
    requires forall k :: 0 <= k < |es| && es[k].bid == bid ==> DayOfEntry(es[k]) == S.DayOf(w.lastSec)
    requires if Changes(w, Audio(size, io), mday) then bid' != bid && past' == AfterChange(past, bid', past.uses[bid].t2, past'.clean)
      else bid' == bid && past' == past
    ensures var w' := After(w, Audio(size, io), mday); Steady(w', past', bid', es', prevDay, w'.fill, mday)
    ensures Changes(w, Audio(size, io), mday) ==> Unnamed(es', bid')
  {
    hide MinTs, LaterThan, EndsUpTo, Near;
    WaitingAfterFlush(es, bid, skip, mday);
    NearAfterFlush(es, w.lastSec, skip, mday);
    if Changes(w, Audio(size, io), mday) {
      ChangeIsSteady(w, past, bid, es, es', w.lastSec, bid');
    }
  }

  // ---------------------------------------------------------------- runs

  /** Every cell of t0 that names a basket not among bs is still there. */
  ghost predicate KeepsAllBut(t0: Table, t1: Table, bs: set<int>) {
    forall d, i :: d in t0 && 0 <= i < |t0[d]| && t0[d][i].bid != 0 && t0[d][i].bid !in bs ==>
      d in t1 && i < |t1[d]| && t1[d][i] == t0[d][i]
  }

  lemma {:induction false} KeepsAllOn(t0: Table, t1: Table, t2: Table, bs: set<int>, b: int)
    requires KeepsAllBut(t0, t1, bs) && Keeps(t1, t2, b)
    ensures KeepsAllBut(t0, t2, bs + {b}) && (b == 0 ==> KeepsAllBut(t0, t2, bs))
  {
  }

  function Opened(order: seq<int>, from: nat): set<int> {
    set k | from <= k < |order| :: order[k]
  }

  lemma {:induction false} OpenedOne(order: seq<int>, from: nat, b: int)
    requires from <= |order|
    ensures Opened(order + [b], from) == Opened(order, from) + {b}
  {
    assert forall k :: from <= k < |order| ==> (order + [b])[k] == order[k];
    forall x | x in Opened(order, from) + {b}
      ensures x in Opened(order + [b], from)
    {
      if x == b {
        assert (order + [b])[|order|] == b;
      } else {
        var k :| from <= k < |order| && order[k] == x;
        assert (order + [b])[k] == x;
      }
    }
  }

  // ---------------------------------------------------------------- what gets into the table

  /** The entry that a step's I-frame would have in basket bid. */
  function ShotOf(w: Watch, step: Step, bid: int, mday: int -> int): seq<Entry> {
    match step
    case Video(f, _) => Shot(f, bid, if Changes(w, step, mday) then INDEX_HDR else w.fill.idxEnd)
    case Audio(_, _) => []
  }

  /** The entries that the I-frames of the steps would have, the baskets being taken in turn;
      n have been opened before. */
  function Shots(w: Watch, steps: seq<Step>, n: int, count: nat, mday: int -> int): seq<Entry>
    requires count > 0
    decreases |steps|
  {
    if steps == [] then []
    else
      var n' := n + if Changes(w, steps[0], mday) then 1 else 0;
      ShotOf(w, steps[0], (n' - 1) % count + 1, mday) + Shots(After(w, steps[0], mday), steps[1..], n', count, mday)
  }

  /** The table and what waits hold of these entries what they should. */
  ghost predicate NotedBy(d: Disk, w: Watch, shots: seq<Entry>)
    reads d
  {
    Noted(d.past.uses, d.table, d.rBuf, d.prevMin, d.idxSecs, shots, w.lastSec, w.since)
  }

  /** A video frame that stays in its basket. */
  lemma {:induction false} StayIsNoted(w: Watch, past: Past, bid: int, t: Table, es: seq<Entry>, marks: seq<int>, idx: Secs, prevDay: int, fill: Fill,
      mday: int -> int, shots: seq<Entry>, f: Frame, io: Io, past': Past, es': seq<Entry>, marks': seq<int>, idx': Secs, fill': Fill)
    requires Steady(w, past, bid, es, prevDay, fill, mday) && Orderly1(w, Video(f, io), mday) && !Changes(w, Video(f, io), mday)
    requires Noted(past.uses, t, es, marks, idx, shots, w.lastSec, w.since) && TableOk(t, es) && Calendar(es, mday) && bid != 0
    requires Wrote(f, false, fill, past, [], bid, past', fill') && fill.idxEnd == IndexNumToPos(|past.uses[bid].entries|)
    requires var skip := BuffersFull(fill, VideoSize(f), INDEX_DATA);
      MinuteNoted(f, bid, idx, StartFill(false, fill, VideoSize(f)).idxEnd, marks, BufferAfterFlush(es, skip, mday), idx', marks', es')
    ensures var skip, w' := BuffersFull(fill, VideoSize(f), INDEX_DATA), After(w, Video(f, io), mday);
      Noted(past'.uses, TableAfterFlush(t, es, skip, mday), es', marks', idx', shots + ShotOf(w, Video(f, io), bid, mday), w'.lastSec, w'.since)
  {
    hide MinTs, Noted, EndsUpTo, Near, Waiting, OnlyNames, BufferAfterFlush, TableAfterFlush, LaterThan, Fresh, MonthDay, MinuteNoted, BuffersFull;
    hide Shot, Rolls, Calendar;
    var skip := BuffersFull(fill, VideoSize(f), INDEX_DATA);
    NotedFlush(past.uses, t, es, marks, idx, shots, w.lastSec, w.since, skip, mday);
    if w.seen {
      SomeTime(past.uses, bid, w.since, w.lastSec);
    }
    NotedFrame(past.uses, TableAfterFlush(t, es, skip, mday), BufferAfterFlush(es, skip, mday), marks, idx, shots, w.lastSec, w.since,
      f, bid, fill.idxEnd, past'.uses[bid], StartFill(false, fill, VideoSize(f)).bktEnd, idx', marks', es');
    assert past'.uses == past.uses[bid := past'.uses[bid]];
  }

  /** A video frame that changes baskets. */
  lemma {:induction false} RollIsNoted(w: Watch, past: Past, bid: int, t: Table, es: seq<Entry>, marks: seq<int>, idx: Secs, prevDay: int, fill: Fill,
      mday: int -> int, shots: seq<Entry>, f: Frame, io: Io, past': Past, bid': int, t': Table, es': seq<Entry>, marks': seq<int>, idx': Secs, fill': Fill)
    requires Steady(w, past, bid, es, prevDay, fill, mday) && Orderly1(w, Video(f, io), mday) && Changes(w, Video(f, io), mday)
    requires Noted(past.uses, t, es, marks, idx, shots, w.lastSec, w.since) && bid' != 0
    requires bid in past.uses && Wrote(f, true, fill, past, past.uses[bid].t2, bid', past', fill') && Unnamed(es, bid')
    requires Keeps(t, t', bid') && Shrinks(t, t') && Nowhere(t', bid')
    requires MinuteNoted(f, bid', Secs(NoTimes(), NoTimes()), StartFill(true, fill, VideoSize(f)).idxEnd, marks, es, idx', marks', es')
    ensures var w' := After(w, Video(f, io), mday);
      Noted(past'.uses, t', es', marks', idx', shots + ShotOf(w, Video(f, io), bid', mday), w'.lastSec, w'.since)
  {
    hide MinTs, Noted, EndsUpTo, Near, Waiting, OnlyNames, LaterThan, Fresh, MonthDay, MinuteNoted, BuffersFull, Keeps, Shrinks, Nowhere;
    hide Shot, Rolls, NoTimes;
    NotedRecycled(past.uses, t, es, marks, idx, shots, w.lastSec, w.since, t', bid');
    var uses := past.uses[bid' := NO_USE];
    NotedFrame(uses, t', es, marks, Secs(NoTimes(), NoTimes()), shots, w.lastSec, w.lastSec,
      f, bid', INDEX_HDR, past'.uses[bid'], BASKET_HDR, idx', marks', es');
    assert past'.uses == uses[bid' := past'.uses[bid']];
  }

  /** A record of audio. */
  lemma {:induction false} AudioIsNoted(w: Watch, past: Past, bid: int, t: Table, es: seq<Entry>, marks: seq<int>, idx: Secs, prevDay: int, fill: Fill,
      mday: int -> int, shots: seq<Entry>, size: nat, io: Io, past': Past, bid': int, t': Table, idx': Secs, skip: bool)
    requires Steady(w, past, bid, es, prevDay, fill, mday)
    requires Noted(past.uses, t, es, marks, idx, shots, w.lastSec, w.since) && TableOk(t, es) && Calendar(es, mday)
    requires var mid, es' := TableAfterFlush(t, es, skip, mday), BufferAfterFlush(es, skip, mday);
      if Changes(w, Audio(size, io), mday) then
        past' == AfterChange(past, bid', past.uses[bid].t2, past'.clean) && Unnamed(es', bid') && idx' == Secs(NoTimes(), NoTimes()) &&
        Keeps(mid, t', bid') && Shrinks(mid, t') && Nowhere(t', bid')
      else past' == past && t' == mid && idx' == idx
    ensures var w' := After(w, Audio(size, io), mday);
      Noted(past'.uses, t', BufferAfterFlush(es, skip, mday), marks, idx', shots + ShotOf(w, Audio(size, io), bid', mday), w'.lastSec, w'.since)
  {
    hide MinTs, Noted, EndsUpTo, Near, Waiting, OnlyNames, BufferAfterFlush, TableAfterFlush, LaterThan, Fresh, BuffersFull, Keeps, Shrinks, Nowhere;
    hide NoTimes, Calendar;
    assert shots + [] == shots;
    NotedFlush(past.uses, t, es, marks, idx, shots, w.lastSec, w.since, skip, mday);
    if Changes(w, Audio(size, io), mday) {
      NotedRecycled(past.uses, TableAfterFlush(t, es, skip, mday), BufferAfterFlush(es, skip, mday), marks, idx, shots, w.lastSec, w.since, t', bid');
    }
  }

  /** What the disk's invariant gives for this. */
  lemma Ready(d: Disk, w: Watch)
    requires Follows(d, w)
    ensures TableOk(d.table, d.rBuf) && Calendar(d.rBuf, d.mday) && d.bid in d.past.uses && d.bid != 0
    ensures d.fill.idxEnd == IndexNumToPos(|d.past.uses[d.bid].entries|)
    ensures InTurn(d.past.order, |d.bodies|) && d.past.order != [] && d.bid == (|d.past.order| - 1) % |d.bodies| + 1
  {
    hide RightTable, RightEntries, AllCover, LaterThan, Rotated, Tracks, MinTs, Calendar;
  }

  /** What the steady state gives before a step. */
  lemma {:induction false} BeforeStep(d: Disk, w: Watch)
    requires Follows(d, w)
    ensures d.bid in d.past.uses && d.bktSecs.t2 == d.past.uses[d.bid].t2 && w.lastSec == d.past.lastSec
    ensures forall k :: 0 <= k < |d.rBuf| && d.rBuf[k].bid == d.bid ==> DayOfEntry(d.rBuf[k]) == S.DayOf(w.lastSec)
    ensures w.flushed ==> OnlyNames(d.rBuf, d.bid)
    ensures w.seen ==> OthersEndEarlier(d.past.uses, d.bid)
    ensures w.prevDay == d.prevDay && w.fill == d.fill
  {
    hide MinTs, RightEntries, Tracks, LaterThan, Fresh;
    d.FitsTimes();
    OwnEntriesToday(d.past.uses, d.rBuf, d.bid, d.idxSecs.t2, d.idxPos, d.past.lastSec);
    if w.seen {
      OthersAreEarlier(d.past.uses, d.bid, w.since, w.lastSec);
    }
  }

  /** Entries of another basket alone do not name this one. */
  lemma {:induction false} NamesAnother(es: seq<Entry>, bid: int, bid': int)
    requires OnlyNames(es, bid) && bid != bid'
    ensures Unnamed(es, bid')
  {
  }

  /** What a step of an orderly run does. */
  ghost predicate StepDone(d: Disk, w: Watch, step: Step, order: seq<int>, table: Table)
    reads d
  {
    Follows(d, After(w, step, d.mday)) &&
    d.past.order == order + (if Changes(w, step, d.mday) then [d.bid] else []) &&
    Keeps(table, d.table, if Changes(w, step, d.mday) then d.bid else 0) &&
    (Changes(w, step, d.mday) ==> Nowhere(d.table, d.bid))
  }

  method VideoStep(d: Disk, f: Frame, io: Io, ghost w: Watch, ghost shots: seq<Entry>) returns (ok: bool)
    requires d.Valid() && d.isOpen && 0 <= f.ch < MAX_CHANNEL
    modifies d
    ensures d.Valid() && d.isOpen && |d.bodies| == old(|d.bodies|)
    ensures d.past.order == old(d.past.order) || d.past.order == old(d.past.order) + [d.bid]
    ensures old(Follows(d, w)) && Orderly1(w, Video(f, io), d.mday) && |d.bodies| >= 2 && RealCalendar(d.mday) ==>
      ok && StepDone(d, w, Video(f, io), old(d.past.order), old(d.table)) &&
      (old(NotedBy(d, w, shots)) ==> NotedBy(d, After(w, Video(f, io), d.mday), shots + ShotOf(w, Video(f, io), d.bid, d.mday)))
  {
    hide Noted, MinuteNoted, Shrinks, ShotOf, Calendar;
    hide Steady, Regular, Keeps, Nowhere, RealCalendar, Handed, Claimed, Rolls, BuffersFull, BufferAfterFlush, Sound, SoundBasket;
    hide TableAfterFlush, StartFill, MonthDay, OthersEndEarlier, Unnamed, OnlyNames, ManagerOk, TurnsOk, TableOk;
    hide Fits, MinTs, WithFrame, Emptied;
    ghost var orderly := Follows(d, w) && Orderly1(w, Video(f, io), d.mday) && |d.bodies| >= 2 && RealCalendar(d.mday);
    ghost var noted := NotedBy(d, w, shots);
    ghost var rolls := Rolls(d.fill, d.prevDay, f, d.mday);
    if orderly {
      BeforeStep(d, w);
      Ready(d, w);
      OrderlyIsRegular(w, d.past, d.bid, d.rBuf, d.prevDay, d.fill, d.mday, f, io);
    }
    ok := d.WriteVideo(f, io);
    if orderly {
      if rolls {
        NamesAnother(old(d.rBuf), old(d.bid), d.bid);
        OnlyOwnDay(old(d.rBuf), old(d.bid), w.lastSec);
        NoFlushNeeded(old(d.rBuf), d.mday);
        RollIsSteady(w, old(d.past), old(d.bid), old(d.rBuf), old(d.prevDay), old(d.fill), d.mday, f, io, d.past, d.bid, d.rBuf, d.fill);
        if noted {
          Ready(d, After(w, Video(f, io), d.mday));
          RollIsNoted(w, old(d.past), old(d.bid), old(d.table), old(d.rBuf), old(d.prevMin), old(d.idxSecs), old(d.prevDay), old(d.fill),
            d.mday, shots, f, io, d.past, d.bid, d.table, d.rBuf, d.prevMin, d.idxSecs, d.fill);
        }
      } else {
        StayIsSteady(w, old(d.past), d.bid, old(d.rBuf), old(d.prevDay), old(d.fill), d.mday, f, io, d.past, d.rBuf, d.fill);
        if noted {
          StayIsNoted(w, old(d.past), d.bid, old(d.table), old(d.rBuf), old(d.prevMin), old(d.idxSecs), old(d.prevDay), old(d.fill),
            d.mday, shots, f, io, d.past, d.rBuf, d.prevMin, d.idxSecs, d.fill);
        }
      }
    }
  }

  lemma NoFlushNeeded(es: seq<Entry>, mday: int -> int)
    ensures BufferAfterFlush(es, false, mday) == es
  {
  }

  lemma OnlyOwnDay(es: seq<Entry>, bid: int, lastSec: int)
    requires OnlyNames(es, bid) && forall k :: 0 <= k < |es| && es[k].bid == bid ==> DayOfEntry(es[k]) == S.DayOf(lastSec)
    ensures forall k :: 0 <= k < |es| ==> DayOfEntry(es[k]) == S.DayOf(lastSec)
  {
  }

  method AudioStep(d: Disk, size: nat, io: Io, ghost w: Watch, ghost shots: seq<Entry>) returns (ok: bool)
    requires d.Valid() && d.isOpen
    modifies d
    ensures d.Valid() && d.isOpen && |d.bodies| == old(|d.bodies|)
    ensures d.past.order == old(d.past.order) || d.past.order == old(d.past.order) + [d.bid]
    ensures old(Follows(d, w)) && Orderly1(w, Audio(size, io), d.mday) && |d.bodies| >= 2 && RealCalendar(d.mday) ==>
      ok && StepDone(d, w, Audio(size, io), old(d.past.order), old(d.table)) &&
      (old(NotedBy(d, w, shots)) ==> NotedBy(d, After(w, Audio(size, io), d.mday), shots + ShotOf(w, Audio(size, io), d.bid, d.mday)))
  {
    hide Noted, MinuteNoted, Shrinks, ShotOf, Calendar;
    hide Steady, Regular, Keeps, Nowhere, RealCalendar, Handed, Claimed, BuffersFull, BufferAfterFlush, Sound, SoundBasket;
    hide TableAfterFlush, StartFill, MonthDay, OthersEndEarlier, Unnamed, OnlyNames, ManagerOk, TurnsOk, TableOk;
    hide Fits, MinTs, Emptied, Overflows;
    ghost var orderly := Follows(d, w) && Orderly1(w, Audio(size, io), d.mday) && |d.bodies| >= 2 && RealCalendar(d.mday);
    ghost var noted := NotedBy(d, w, shots);
    ghost var skip := d.rSkip && (Overflows(d.fill, AudioSize(size), 0) || BuffersFull(d.fill, AudioSize(size), 0));
    if orderly {
      BeforeStep(d, w);
      Ready(d, w);
    }
    ok := d.WriteAudio(size, io);
    if orderly {
      AudioIsSteady(w, old(d.past), old(d.bid), old(d.rBuf), d.prevDay, old(d.fill), d.mday, size, io, d.past, d.bid, d.rBuf, skip);
      if noted {
        AudioIsNoted(w, old(d.past), old(d.bid), old(d.table), old(d.rBuf), old(d.prevMin), old(d.idxSecs), d.prevDay, old(d.fill),
          d.mday, shots, size, io, d.past, d.bid, d.table, d.idxSecs, skip);
      }
    }
  }

  /** A change of baskets: which one was taken, and the table's files at that moment. */
  datatype Pick = Pick(bid: int, table: Table)

  /** The baskets taken from some moment on, none of which the table named when it was taken. */
  ghost predicate TakenUnnamed(picks: seq<Pick>, order: seq<int>, from: nat) {
    |order| == from + |picks| &&
    forall i :: 0 <= i < |picks| ==> picks[i].bid == order[from + i] && Nowhere(picks[i].table, picks[i].bid)
  }

  /** Any run: as long as the baskets filled end later and later, they are taken in turn.  If
      its steps are orderly they do, the table names no basket when it is taken, in the end it
      is right, and no cell has been lost but those of the baskets opened on the way; and what
      the steps tell is what the recorder ends with. */
  lemma Unrolled(w: Watch, steps: seq<Step>, mday: int -> int)
    ensures AfterAll(w, steps, mday) == if steps == [] then w else AfterAll(After(w, steps[0], mday), steps[1..], mday)
    ensures CountChanges(w, steps, mday) ==
      if steps == [] then 0
      else (if Changes(w, steps[0], mday) then 1 else 0) + CountChanges(After(w, steps[0], mday), steps[1..], mday)
    ensures Orderly(w, steps, mday) <==>
      steps == [] || (Orderly1(w, steps[0], mday) && Orderly(After(w, steps[0], mday), steps[1..], mday))
  {
  }

  method Run(d: Disk, steps: seq<Step>, ghost w: Watch, ghost shots: seq<Entry>) returns (oks: seq<bool>, ghost picks: seq<Pick>)
    requires d.Valid() && d.isOpen && forall i :: 0 <= i < |steps| && steps[i].Video? ==> 0 <= steps[i].f.ch < MAX_CHANNEL
    modifies d
    ensures d.Valid() && d.isOpen && |d.bodies| == old(|d.bodies|) && |oks| == |steps|
    ensures old(d.past.order) <= d.past.order && (Increasing(d.past.ends) ==> InTurn(d.past.order, |d.bodies|))
    ensures old(Follows(d, w)) && Orderly(w, steps, d.mday) && |d.bodies| >= 2 && RealCalendar(d.mday) ==>
      Follows(d, AfterAll(w, steps, d.mday)) && RanOrderly(d, steps, w, picks, old(d.past.order), old(d.table)) &&
      (forall i :: 0 <= i < |oks| ==> oks[i]) &&
      (old(NotedBy(d, w, shots)) ==>
         NotedBy(d, AfterAll(w, steps, d.mday), shots + Shots(w, steps, old(|d.past.order|), |d.bodies|, d.mday)))
  {
    hide NotedBy, Underway, ShotOf, Steady, RealCalendar, Sound, SoundBasket, ManagerOk, TurnsOk, TableOk, Fits;
    hide MinTs, Orderly, Orderly1, Changes, After, StepDone, Increasing, InTurn, RanOrderly;
    oks, picks := [], [];
    ghost var order0, table0, at, known, noted := d.past.order, d.table, w, shots, NotedBy(d, w, shots);
    ghost var orderly := Follows(d, w) && Orderly(w, steps, d.mday) && |d.bodies| >= 2 && RealCalendar(d.mday);
    if orderly {
      SetOut(steps, w, order0, table0, shots, |d.bodies|, d.mday);
    }
    var i := 0;
    while i < |steps|
      invariant 0 <= i <= |steps| && |oks| == i
      invariant d.Valid() && d.isOpen && |d.bodies| == old(|d.bodies|) && order0 <= d.past.order
      invariant orderly ==> Follows(d, at) && (noted ==> NotedBy(d, at, known))
      invariant orderly ==> Underway(steps, w, i, at, picks, order0, d.past.order, table0, d.table, shots, known, |d.bodies|, d.mday)
      invariant orderly ==> forall k :: 0 <= k < i ==> oks[k]
    {
      ghost var t, order := d.table, d.past.order;
      if orderly {
        NextIsOrderly(steps, w, i, at, picks, order0, order, table0, t, shots, known, |d.bodies|, d.mday);
      }
      var ok;
      match steps[i] {
        case Video(f, io) => ok := VideoStep(d, f, io, at, known);
        case Audio(size, io) => ok := AudioStep(d, size, io, at, known);
      }
      if orderly {
        picks := OneStepOn(d, steps, w, i, at, picks, order0, order, table0, t, shots, known);
        known := known + ShotOf(at, steps[i], d.bid, d.mday);
        at := After(at, steps[i], d.mday);
      }
      oks := oks + [ok];
      i := i + 1;
    }
    TakenInTurn(d);
    if orderly {
      Arrived(d, steps, w, at, picks, order0, table0, shots, known);
    }
  }

  /** What the first i steps of an orderly run have come to. */
  ghost predicate Underway(steps: seq<Step>, w: Watch, i: nat, at: Watch, picks: seq<Pick>, order0: seq<int>, order: seq<int>,
      table0: Table, table: Table, shots: seq<Entry>, known: seq<Entry>, count: nat, mday: int -> int)
  {
    count > 0 && i <= |steps| && order0 <= order && Orderly(at, steps[i..], mday) &&
    AfterAll(at, steps[i..], mday) == AfterAll(w, steps, mday) &&
    |order| + CountChanges(at, steps[i..], mday) == |order0| + CountChanges(w, steps, mday) &&
    KeepsAllBut(table0, table, Opened(order, |order0|)) && TakenUnnamed(picks, order, |order0|) &&
    known + Shots(at, steps[i..], |order|, count, mday) == shots + Shots(w, steps, |order0|, count, mday)
  }

  lemma SetOut(steps: seq<Step>, w: Watch, order: seq<int>, table: Table, shots: seq<Entry>, count: nat, mday: int -> int)
    requires Orderly(w, steps, mday) && count > 0
    ensures Underway(steps, w, 0, w, [], order, order, table, table, shots, shots, count, mday)
  {
    hide Orderly, AfterAll, CountChanges, Shots, KeepsAllBut, Opened, TakenUnnamed;
    assert steps[0..] == steps;
    KeepsAllStart(table);
    OpenedNone(order);
  }

  lemma NextIsOrderly(steps: seq<Step>, w: Watch, i: nat, at: Watch, picks: seq<Pick>, order0: seq<int>, order: seq<int>,
      table0: Table, table: Table, shots: seq<Entry>, known: seq<Entry>, count: nat, mday: int -> int)
    requires Underway(steps, w, i, at, picks, order0, order, table0, table, shots, known, count, mday) && i < |steps|
    ensures Orderly1(at, steps[i], mday)
  {
    hide Orderly1, AfterAll, CountChanges, Shots, KeepsAllBut, Opened, TakenUnnamed;
  }

  lemma {:induction false} OneStepOn(d: Disk, steps: seq<Step>, w: Watch, i: nat, at: Watch, picks: seq<Pick>, order0: seq<int>, order: seq<int>,
      table0: Table, t: Table, shots: seq<Entry>, known: seq<Entry>) returns (picks': seq<Pick>)
    requires i < |steps| && Underway(steps, w, i, at, picks, order0, order, table0, t, shots, known, |d.bodies|, d.mday)
    requires StepDone(d, at, steps[i], order, t)
    ensures Underway(steps, w, i + 1, After(at, steps[i], d.mday), picks', order0, d.past.order, table0, d.table,
              shots, known + ShotOf(at, steps[i], d.bid, d.mday), |d.bodies|, d.mday)
    ensures Follows(d, After(at, steps[i], d.mday))
  {
    hide Follows, Orderly1, Changes, After, ShotOf, Shots, KeepsAllBut, Keeps, Opened, Nowhere, TakenUnnamed, Orderly, AfterAll, CountChanges;
    assert steps[i..][1..] == steps[i + 1..];
    Unrolled(at, steps[i..], d.mday);
    Grown(d, at, steps[i], order, |order0|, table0, t, picks);
    picks' := if Changes(at, steps[i], d.mday) then picks + [Pick(d.bid, d.table)] else picks;
    ShotsOn(d, at, steps[i..], |order|, known);
  }

  lemma {:induction false} Arrived(d: Disk, steps: seq<Step>, w: Watch, at: Watch, picks: seq<Pick>, order0: seq<int>, table0: Table,
      shots: seq<Entry>, known: seq<Entry>)
    requires Underway(steps, w, |steps|, at, picks, order0, d.past.order, table0, d.table, shots, known, |d.bodies|, d.mday)
    requires Follows(d, at)
    ensures at == AfterAll(w, steps, d.mday) && known == shots + Shots(w, steps, |order0|, |d.bodies|, d.mday)
    ensures RanOrderly(d, steps, w, picks, order0, table0)
  {
    hide Follows, Orderly1, Changes, After, ShotOf, Shots, KeepsAllBut, Opened, TakenUnnamed, Orderly, AfterAll, CountChanges;
    hide RightTable, RightEntries, AllCover, InTurn;
    Unrolled(at, steps[|steps|..], d.mday);
    NoMoreShots(at, |d.past.order|, |d.bodies|, d.mday, known);
    InTurnNow(d, at);
  }

  /** The shots of the steps to come, after the first of them has been made. */
  lemma {:induction false} ShotsOn(d: Disk, w: Watch, steps: seq<Step>, n: nat, known: seq<Entry>)
    requires steps != [] && Follows(d, After(w, steps[0], d.mday)) && |d.past.order| == n + if Changes(w, steps[0], d.mday) then 1 else 0
    ensures known + Shots(w, steps, n, |d.bodies|, d.mday) ==
      (known + ShotOf(w, steps[0], d.bid, d.mday)) + Shots(After(w, steps[0], d.mday), steps[1..], |d.past.order|, |d.bodies|, d.mday)
  {
    hide Steady, ShotOf, After, Changes, ManagerOk, TurnsOk, TableOk, Fits, Sound, SoundBasket;
    Ready(d, After(w, steps[0], d.mday));
  }

  lemma NoMoreShots(w: Watch, n: int, count: nat, mday: int -> int, known: seq<Entry>)
    requires count > 0
    ensures known + Shots(w, [], n, count, mday) == known
  {
  }

  lemma TakenInTurn(d: Disk)
    requires d.Valid()
    ensures Increasing(d.past.ends) ==> InTurn(d.past.order, |d.bodies|)
  {
    hide Increasing, Rotated;
  }

  lemma {:induction false} Grown(d: Disk, w: Watch, step: Step, order: seq<int>, order0: nat, t0: Table, t: Table, picks: seq<Pick>)
    requires StepDone(d, w, step, order, t) && order0 <= |order| && KeepsAllBut(t0, t, Opened(order, order0))
    requires TakenUnnamed(picks, order, order0)
    ensures TakenUnnamed(if Changes(w, step, d.mday) then picks + [Pick(d.bid, d.table)] else picks, d.past.order, order0)
    ensures KeepsAllBut(t0, d.table, Opened(d.past.order, order0))
    ensures |d.past.order| == |order| + if Changes(w, step, d.mday) then 1 else 0
  {
    hide Follows, Changes, KeepsAllBut, Keeps, Opened, Nowhere;
    if Changes(w, step, d.mday) {
      KeepsAllOn(t0, t, d.table, Opened(order, order0), d.bid);
      OpenedOne(order, order0, d.bid);
    } else {
      KeepsAllOn(t0, t, d.table, Opened(order, order0), 0);
      assert order + [] == order;
    }
  }

  /** What an orderly run leaves. */
  ghost predicate RanOrderly(d: Disk, steps: seq<Step>, w: Watch, picks: seq<Pick>, order: seq<int>, table: Table)
    reads d
  {
    |d.past.order| == |order| + CountChanges(w, steps, d.mday) && InTurn(d.past.order, |d.bodies|) &&
    TakenUnnamed(picks, d.past.order, |order|) &&
    RightTable(d.past.uses, d.table) && RightEntries(d.past.uses, d.rBuf) && AllCover(d.past.uses) &&
    KeepsAllBut(table, d.table, Opened(d.past.order, |order|))
  }

  lemma {:induction false} KeepsAllStart(t: Table)
    ensures KeepsAllBut(t, t, {})
  {
  }

  lemma OpenedNone(order: seq<int>)
    ensures Opened(order, |order|) == {} && TakenUnnamed([], order, |order|)
  {
  }

  lemma {:induction false} InTurnNow(d: Disk, w: Watch)
    requires Follows(d, w)
    ensures InTurn(d.past.order, |d.bodies|)
    ensures RightTable(d.past.uses, d.table) && RightEntries(d.past.uses, d.rBuf) && AllCover(d.past.uses)
  {
    hide RightTable, RightEntries, AllCover, LaterThan, ManagerOk, Rotated, Tracks;
  }

  /** A new disk that has just been opened can start an orderly run. */
  method NewDisk(count: nat, mday: int -> int, today: int) returns (d: Disk)
    requires count > 0
    ensures fresh(d) && Follows(d, StartWatch(mday(today))) && |d.bodies| == count && d.mday == mday
    ensures d.past == Past(map[d.bid := NO_USE], 0, [d.bid], [], true) && d.rBuf == [] && d.table == map[] && d.prevDay == mday(today)
    ensures d.prevMin == seq(MAX_CHANNEL, _ => -1) && !d.rSkip && d.bid == 1 && d.fill == NEW_FILL
    ensures d.idxSecs == Secs(NoTimes(), NoTimes()) && NotedBy(d, StartWatch(mday(today)), [])
  {
    hide MinTs, ManagerOk, TableOk, Fits, Noted, Sound, SoundBasket, Keeps, Nowhere, Unnamed;
    d := new Disk(count, mday);
    d.Open(today);
    assert d.past.order[0] == 0 % count + 1;
    NothingNoted(d.past.uses, d.idxSecs);
  }

  lemma OneShot(f: Frame, bid: int, pos: int)
    requires f.iframe
    ensures Shot(f, bid, pos) == [Entry(f.ch, f.ts.sec, f.event, bid, pos)]
  {
  }

  /** Every I-frame of the steps has its shot. */
  lemma {:induction false} ShotIn(w: Watch, steps: seq<Step>, n: int, count: nat, mday: int -> int, i: nat) returns (k: nat)
    requires count > 0 && i < |steps| && steps[i].Video? && steps[i].f.iframe
    ensures var shots := Shots(w, steps, n, count, mday);
      k < |shots| && shots[k].ch == steps[i].f.ch && shots[k].sec == steps[i].f.ts.sec && shots[k].evt == steps[i].f.event
    decreases |steps|
  {
    hide Changes, After, Shot;
    var n' := n + if Changes(w, steps[0], mday) then 1 else 0;
    if i == 0 {
      k := 0;
      OneShot(steps[0].f, (n' - 1) % count + 1, if Changes(w, steps[0], mday) then INDEX_HDR else w.fill.idxEnd);
    } else {
      k := ShotIn(After(w, steps[0], mday), steps[1..], n', count, mday, i - 1);
      k := k + |ShotOf(w, steps[0], (n' - 1) % count + 1, mday)|;
    }
  }

  /** Everything recorded on a new disk: of every I-frame the minute is known, in the table or
      among what waits to be put there, if and only if the first I-frame of its channel in
      that minute was not missed and is still in its basket. */
  method Record(count: nat, mday: int -> int, today: int, steps: seq<Step>) returns (d: Disk, ghost shots: seq<Entry>)
    requires count >= 2 && RealCalendar(mday) && Orderly(StartWatch(mday(today)), steps, mday)
    requires forall i :: 0 <= i < |steps| && steps[i].Video? ==> 0 <= steps[i].f.ch < MAX_CHANNEL
    ensures fresh(d) && d.Valid() && shots == Shots(StartWatch(mday(today)), steps, 1, count, mday)
    ensures forall i :: 0 <= i < |steps| && steps[i].Video? && steps[i].f.iframe ==> IsShot(shots, steps[i].f)
    ensures forall j, k :: 0 <= j <= k < |shots| && FirstWith(shots, j, k) ==>
      (C.CellTaken(d.table, shots[k].ch, shots[k].sec) || C.HasMinute(d.rBuf, shots[k]) <==>
       !C.Missed(shots, j) && StillThere(d.past.uses, shots[j]))
  {
    hide Steady, Orderly, Shots, RealCalendar, Sound, SoundBasket, ManagerOk, TurnsOk, TableOk, Fits, Keeps, Nowhere, MinTs, RanOrderly;
    hide Noted, C.CellTaken, C.HasMinute, C.Missed, StillThere, FirstWith;
    d := NewDisk(count, mday, today);
    ghost var w := StartWatch(mday(today));
    var oks, picks := Run(d, steps, w, []);
    shots := Shots(w, steps, 1, count, mday);
    assert [] + shots == shots;
    forall i | 0 <= i < |steps| && steps[i].Video? && steps[i].f.iframe
      ensures IsShot(shots, steps[i].f)
    {
      var k := ShotIn(w, steps, 1, count, mday, i);
    }
    forall j, k | 0 <= j <= k < |shots| && FirstWith(shots, j, k)
      ensures C.CellTaken(d.table, shots[k].ch, shots[k].sec) || C.HasMinute(d.rBuf, shots[k]) <==>
        !C.Missed(shots, j) && StillThere(d.past.uses, shots[j])
    {
      KnownIff(d, AfterAll(w, steps, mday), shots, j, k);
    }
  }

  ghost predicate IsShot(shots: seq<Entry>, f: Frame) {
    exists k :: 0 <= k < |shots| && shots[k].ch == f.ch && shots[k].sec == f.ts.sec && shots[k].evt == f.event
  }

  /** I-frame j is the first of I-frame k's minute. */
  ghost predicate FirstWith(shots: seq<Entry>, j: nat, k: nat)
    requires j < |shots| && k < |shots|
  {
    C.SameMinute(shots[j], shots[k]) && C.FirstOfMinute(shots, j)
  }

  lemma {:induction false} KnownIff(d: Disk, w: Watch, shots: seq<Entry>, j: nat, k: nat)
    requires NotedBy(d, w, shots) && j <= k < |shots| && FirstWith(shots, j, k)
    ensures C.CellTaken(d.table, shots[k].ch, shots[k].sec) || C.HasMinute(d.rBuf, shots[k]) <==>
      !C.Missed(shots, j) && StillThere(d.past.uses, shots[j])
  {
    hide Noted, C.CellTaken, C.HasMinute, C.Missed, StillThere;
    MinuteIsKnownIff(d.past.uses, d.table, d.rBuf, d.prevMin, d.idxSecs, shots, w.lastSec, w.since, j, k);
  }

  // ---------------------------------------------------------------- a run that fails

  lemma {:induction false} OneTime(c: nat, sec: int)
    requires c < MAX_CHANNEL && 0 < sec < NO_TIME
    ensures MinTs(NoTimes()[c := sec]) == sec
  {
    hide MinTs;
    var ts := NoTimes()[c := sec];
    MinTsIsOne(ts);
    MinTsIsLeast(ts, c);
  }

  const ALL := Io(true, true, true)

  /** The frames of a run: two that each start a basket, one that starts the first basket
      anew, and one that fills the buffers. */
  function FirstDay(): Frame { Frame(0, Ts(60, 0), true, 1000, 1) }

  function SecondDay(): Frame { Frame(0, Ts(86520, 0), true, 1000, 1) }

  function ThirdDay(): Frame { Frame(0, Ts(173100, 0), true, 1000, 1) }

  function FillsFirst(): Frame { Frame(0, Ts(61, 0), false, BBUF_SIZE - 200, 1) }

  function FillsBuffer(): Frame { Frame(0, Ts(173101, 0), false, BBUF_SIZE - 200, 1) }

  lemma FirstFits(mday: int -> int)
    ensures !Rolls(NEW_FILL, mday(0), FirstDay(), mday) && !BuffersFull(NEW_FILL, VideoSize(FirstDay()), INDEX_DATA)
    ensures StartFill(false, NEW_FILL, VideoSize(FirstDay())) == NEW_FILL
    ensures TableAfterFlush(map[], [], false, mday) == map[] && BufferAfterFlush([], false, mday) == []
  {
  }

  lemma {:induction false} FirstRecorded(past: Past, fill: Fill, t2: seq<int>)
    requires Wrote(FirstDay(), false, NEW_FILL, Past(map[1 := NO_USE], 0, [1], [], true), t2, 1, past, fill)
    ensures past.uses == map[1 := WithFrame(NO_USE, EntryAt(FirstDay(), BASKET_HDR), true)]
    ensures fill == Added(NEW_FILL, VideoSize(FirstDay()), INDEX_DATA)
  {
    hide WithFrame, NoTimes;
  }

  lemma FirstClaimed(idx: Secs, marks: seq<int>, es: seq<Entry>)
    requires MinuteNoted(FirstDay(), 1, Secs(NoTimes(), NoTimes()), INDEX_HDR, seq(MAX_CHANNEL, _ => -1), [], idx, marks, es)
    ensures es == [Entry(0, 60, 1, 1, INDEX_HDR)] && |marks| == MAX_CHANNEL && marks[0] == 1
  {
  }

  /** After the first frame: its entry waits. */
  method OneFrame(mday: int -> int) returns (d: Disk)
    ensures fresh(d) && d.Valid() && d.isOpen && d.bid == 1 && |d.bodies| == 2 && d.table == map[] && d.mday == mday && d.prevDay == mday(0)
    ensures d.past.uses == map[1 := WithFrame(NO_USE, EntryAt(FirstDay(), BASKET_HDR), true)]
    ensures d.fill == Added(NEW_FILL, VideoSize(FirstDay()), INDEX_DATA)
    ensures d.rBuf == [Entry(0, 60, 1, 1, INDEX_HDR)] && d.prevMin[0] == 1
  {
    hide ManagerOk, TurnsOk, TableOk, Fits, Sound, SoundBasket, Keeps, Nowhere, Unnamed, Regular, MinTs, NotedBy, OthersEndEarlier;
    hide Rolls, BuffersFull, StartFill, MinuteNoted, Wrote, Claimed, TableAfterFlush, BufferAfterFlush, Handed;
    d := NewDisk(2, mday, 0);
    FirstFits(mday);
    ghost var t2 := d.bktSecs.t2;
    var ok := d.WriteVideo(FirstDay(), ALL);
    FirstRecorded(d.past, d.fill, t2);
    FirstClaimed(d.idxSecs, d.prevMin, d.rBuf);
  }

  /** A flush of the table that fails loses the minutes that wait: they are not in the table,
      do not wait any more, and are not claimed again. */
  method FailedFlushLosesMinute(mday: int -> int) returns (d: Disk, ok: bool)
    ensures d.Valid() && !ok && 1 in d.past.uses && d.past.uses[1].entries == [EntryAt(FirstDay(), BASKET_HDR)]
    ensures !C.CellTaken(d.table, 0, 60) && d.rBuf == [] && d.prevMin[0] == 1
  {
    hide ManagerOk, TurnsOk, TableOk, Fits, Sound, SoundBasket, Keeps, Nowhere, Unnamed, Regular, MinTs, NotedBy, Shrinks, OthersEndEarlier;
    d := OneFrame(mday);
    ok := d.WriteVideo(FillsFirst(), Io(true, true, false));
  }

  /** After the first two frames: an entry of the first basket still waits. */
  method TwoDays(mday: int -> int) returns (d: Disk)
    requires mday(0) != mday(1)
    ensures fresh(d) && d.Valid() && d.isOpen && d.bid == 2 && |d.bodies| == 2 && d.table == map[] && d.mday == mday && d.prevDay == mday(1)
    ensures d.rBuf != [] && d.rBuf[0].bid == 1 && d.rBuf[0].sec == 60 && OthersEndEarlier(d.past.uses, 2)
  {
    hide ManagerOk, TurnsOk, TableOk, Fits, Sound, SoundBasket, Keeps, Nowhere, Unnamed, Regular, MinTs, NotedBy, MinuteNoted;
    d := OneFrame(mday);
    OneTime(0, 60);
    OneTime(0, 86520);
    var ok := d.WriteVideo(SecondDay(), ALL);
  }

  /** What is flushed into an empty table names, on the first entry's day, its basket. */
  lemma {:induction false} FirstEntryGetsIn(es: seq<Entry>, mday: int -> int)
    requires es != [] && EntriesOk(es)
    ensures var t, d := TableAfterFlush(map[], es, true, mday), DayOfEntry(es[0]);
      d in t && |t[d]| == SLOTS && t[d][Offset(es[0])].bid == es[0].bid
  {
    hide PutAll;
    var n := RunLength(es, mday);
    assert es[..n][0] == es[0];
    PutAllAt(DayFile(map[], DayOfEntry(es[0])), es[..n], Offset(es[0]));
    assert FirstFor(es[..n], 0, Offset(es[0]));
  }

  /** Four frames on a disk with two baskets: the first three, of three days, each start a
      basket, the third one in the first basket again, which an entry from its first use
      still waits to name.  When the fourth fills the buffers that entry gets into the table
      and names, on the first day, a basket that holds only the third.  Every write succeeds,
      in any calendar that tells a day from the next; all that is missing is a flush between
      two changes. */
  method StaleEntryGetsIn(mday: int -> int) returns (d: Disk)
    requires mday(0) != mday(1) && mday(1) != mday(2)
    ensures d.Valid() && !RightTable(d.past.uses, d.table)
  {
    hide ManagerOk, TurnsOk, Fits, Sound, SoundBasket, Keeps, Nowhere, Unnamed, Regular, MinTs, OthersEndEarlier, TableAfterFlush, MinuteNoted;
    d := TwoDays(mday);
    ghost var es := d.rBuf;
    var ok := d.WriteVideo(ThirdDay(), ALL);
    assert d.bid == 1 && d.table == map[] && d.rBuf[0] == es[0];
    es := d.rBuf;
    ok := d.WriteVideo(FillsBuffer(), ALL);
    FirstEntryGetsIn(es, d.mday);
    StaleCellIsWrong(d.past.uses, d.table, es[0]);
  }

  lemma {:induction false} StaleCellIsWrong(uses: map<int, Use>, t: Table, e: Entry)
    requires EntryOk(e) && e.bid == 1 && e.sec == 60 && 1 in uses && uses[1].entries == [EntryAt(ThirdDay(), BASKET_HDR)]
    requires 0 in t && |t[0]| == SLOTS && t[0][Offset(e)].bid == 1
    ensures !RightTable(uses, t)
  {
    assert !RightCell(uses, t[0][Offset(e)], 0, Offset(e));
  }

  function FillsBetween(): Frame { Frame(0, Ts(86521, 0), false, BBUF_SIZE - 200, 1) }

  lemma OrderlyCons(w: Watch, step: Step, rest: seq<Step>, mday: int -> int)
    ensures Orderly(w, [step] + rest, mday) <==> Orderly1(w, step, mday) && Orderly(After(w, step, mday), rest, mday)
  {
    assert ([step] + rest)[1..] == rest;
  }

  /** The run is not orderly; with the buffers filled once between the two changes it is. */
  lemma {:induction false} OnlyAFlushIsMissing(mday: int -> int)
    requires mday(0) != mday(1) && mday(1) != mday(2)
    ensures !Orderly(StartWatch(mday(0)), [Video(FirstDay(), ALL)] + ([Video(SecondDay(), ALL)] + ([Video(ThirdDay(), ALL)] + [])), mday)
    ensures Orderly(StartWatch(mday(0)), [Video(FirstDay(), ALL)] + ([Video(SecondDay(), ALL)] + ([Video(FillsBetween(), ALL)] + ([Video(ThirdDay(), ALL)] + []))), mday)
  {
    hide Orderly;
    var first, second, between, third := Video(FirstDay(), ALL), Video(SecondDay(), ALL), Video(FillsBetween(), ALL), Video(ThirdDay(), ALL);
    var w0 := StartWatch(mday(0));
    var w1 := After(w0, first, mday);
    var w2 := After(w1, second, mday);
    var w3 := After(w2, between, mday);
    OrderlyCons(w0, first, [second] + ([third] + []), mday);
    OrderlyCons(w1, second, [third] + [], mday);
    OrderlyCons(w2, third, [], mday);
    OrderlyCons(w0, first, [second] + ([between] + ([third] + [])), mday);
    OrderlyCons(w1, second, [between] + ([third] + []), mday);
    OrderlyCons(w2, between, [third] + [], mday);
    OrderlyCons(w3, third, [], mday);
    OrderlyNone(After(w3, third, mday), mday);
  }

  lemma OrderlyNone(w: Watch, mday: int -> int)
    ensures Orderly(w, [], mday)
  {
  }
}
