/** One disk while it is recorded to in recycle mode: the manager file, the minute table
    and its buffer, and the recorder's times and positions (src/basket_rec.c).  What the
    streams hold is the subject of the recorder's module; here a frame is its channel,
    time, kind and size, and inputs say which writes succeed. */
module Storage {
  import opened Layout
  import opened MinuteTable
  import opened Recycling
  import opened Soundness
  import S = RdbSearch
  import R = Recorder

  /** Where the stream and the index of the current basket end, buffers included, and how
      much is in the two buffers (fpos_bkt + b_pos, fpos_idx + i_pos, b_pos, i_pos). */
  datatype Fill = Fill(bktEnd: nat, idxEnd: nat, b: nat, i: nat)

  const NEW_FILL := Fill(BASKET_HDR, INDEX_HDR, 0, 0)

  function Added(fill: Fill, size: nat, idxSize: nat): Fill {
    Fill(fill.bktEnd + size, fill.idxEnd + idxSize, fill.b + size, fill.i + idxSize)
  }

  function Emptied(fill: Fill): Fill {
    fill.(b := 0, i := 0)
  }

  /** BKTREC_checkBasketSize, called with the positions and all that is buffered. */
  predicate Overflows(fill: Fill, size: nat, idxSize: nat) {
    !R.FitsBasket(fill.bktEnd - fill.b, fill.idxEnd - fill.i, fill.b + size + fill.i + idxSize)
  }

  predicate BuffersFull(fill: Fill, size: nat, idxSize: nat) {
    fill.b + size >= BBUF_SIZE || (idxSize > 0 && fill.i + idxSize >= IBUF_SIZE)
  }

  /** In both files together: what is written, what is buffered and what comes. */
  lemma OverflowsIff(fill: Fill, size: nat, idxSize: nat)
    ensures Overflows(fill, size, idxSize) <==> fill.bktEnd + fill.idxEnd + size + idxSize >= BASKET_SIZE
  {
  }

  /** A record that would fill the stream buffer, or an entry the index buffer. */
  lemma BuffersFullIff(fill: Fill, size: nat)
    ensures BuffersFull(fill, size, INDEX_DATA) <==> fill.b + size >= BBUF_SIZE || fill.i + INDEX_DATA >= IBUF_SIZE
    ensures BuffersFull(fill, size, 0) <==> fill.b + size >= BBUF_SIZE
  {
  }

  datatype Frame = Frame(ch: int, ts: Ts, iframe: bool, size: nat, event: int)

  function VideoSize(f: Frame): nat { STREAM_HDR + VSTREAM_HDR + f.size }

  function AudioSize(size: nat): nat { STREAM_HDR + ASTREAM_HDR + size }

  /** Which writes succeed: of stream bytes, of index entries, of the minute table. */
  datatype Io = Io(stream: bool, index: bool, table: bool)

  /** The index entry of an I-frame at its place in the stream. */
  function EntryAt(f: Frame, fpos: nat): IdxEntry {
    IdxEntry(ID_INDEX, f.ts, fpos, f.ch, [])
  }

  function IdxSize(f: Frame): nat { if f.iframe then INDEX_DATA else 0 }

  const NO_USE := Use(NoTimes(), NoTimes(), [])

  /** At most one entry has been added, for the current basket. */
  ghost predicate Claimed(before: seq<Entry>, after: seq<Entry>, bid: int, sec: int) {
    after == before || (|after| == |before| + 1 && after[..|before|] == before && after[|before|].bid == bid && after[|before|].sec == sec)
  }

  /** Every other basket in use ends, in some channel, before basket bid does in any. */
  ghost predicate OthersEndEarlier(uses: map<int, Use>, bid: int) {
    bid in uses && forall b :: b in uses && b != bid ==> MinTs(uses[b].t2) < MinTs(uses[bid].t2)
  }

  /** Then the oldest basket is another one. */
  lemma {:induction false} OldestIsAnother(bodies: seq<Body>, uses: map<int, Use>, bid: int, oldest: int)
    requires AllFull(bodies, uses) && IsOldest(bodies, oldest) && OthersEndEarlier(uses, bid) && |bodies| >= 2
    ensures oldest != bid
  {
    hide MinTs;
    var other := if bid == 1 then 2 else 1;
    assert Candidate(bodies, other - 1);
  }

  lemma {:induction false} AfterFlushOk(t: Table, es: seq<Entry>, mday: int -> int)
    requires TableOk(t, es)
    ensures TableOk(TableAfterFlush(t, es, true, mday), BufferAfterFlush(es, true, mday)) && TableOk(t, [])
  {
    if es != [] {
      var n := RunLength(es, mday);
      assert forall k :: 0 <= k < |es[n..]| ==> es[n..][k] == es[n + k];
    }
  }

  lemma {:induction false} AfterFlushSound(uses: map<int, Use>, t: Table, es: seq<Entry>, mday: int -> int)
    requires Sound(uses, t, es, mday) && TableOk(t, es)
    ensures Sound(uses, TableAfterFlush(t, es, true, mday), BufferAfterFlush(es, true, mday), mday)
    ensures Keeps(t, TableAfterFlush(t, es, true, mday), 0) && Sound(uses, t, [], mday)
  {
    hide Sound, Keeps, PutAll, RunLength;
    DroppedIsSound(uses, t, es, mday);
    FlushKeeps(t);
    if es != [] {
      FlushIsSound(uses, t, es, mday);
    }
  }

  // ---------------------------------------------------------------- one frame

  /** What is known of the past with one more frame of the current basket. */
  ghost function PastWith(past: Past, bid: int, f: Frame, fpos: nat, es: seq<Entry>, mday: int -> int): Past
    requires bid in past.uses && 0 <= f.ch < MAX_CHANNEL && |past.uses[bid].t1| == |past.uses[bid].t2| == MAX_CHANNEL
  {
    past.(uses := past.uses[bid := WithFrame(past.uses[bid], EntryAt(f, fpos), f.iframe)], lastSec := f.ts.sec,
      clean := past.clean && Regular(es, past.lastSec, f.ts.sec, mday, Fresh(past.uses[bid])))
  }

  function StampedTimes(t2: seq<int>, f: Frame): (r: seq<int>)
    requires 0 <= f.ch < |t2|
    ensures |r| == |t2|
  {
    if f.iframe then t2[f.ch := f.ts.sec] else t2
  }

  function StampedPos(idxPos: seq<int>, f: Frame, idxEnd: nat): (r: seq<int>)
    requires 0 <= f.ch < |idxPos|
    ensures |r| == |idxPos|
  {
    if f.iframe then idxPos[f.ch := idxEnd] else idxPos
  }

  /** A frame claims its minute only when an I-frame of its second, or a later one, is known. */
  ghost predicate Claims(es: seq<Entry>, es': seq<Entry>, f: Frame, bid: int, t1: seq<int>, t2: seq<int>, idxPos: seq<int>)
    requires 0 <= f.ch < |t1| && |t1| == |t2| == |idxPos|
  {
    es' == es ||
    (t1[f.ch] != 0 && t2[f.ch] >= f.ts.sec && es' == es + [Entry(f.ch, f.ts.sec, f.event, bid, idxPos[f.ch])])
  }

  lemma FrameClaims(es: seq<Entry>, es': seq<Entry>, f: Frame, bid: int, t1: seq<int>, t2: seq<int>, t1': seq<int>, t2': seq<int>,
      idxPos: seq<int>, prevMin: seq<int>)
    requires 0 <= f.ch < |t1| && |t1| == |t2| == |idxPos| == |prevMin|
    requires t1' == (if f.iframe && t1[f.ch] == 0 then t1[f.ch := f.ts.sec] else t1) && t2' == StampedTimes(t2, f)
    requires es' == if t1'[f.ch] != 0 && prevMin[f.ch] != f.ts.sec / 60 % 60 && t2'[f.ch] >= f.ts.sec then
                      es + [Entry(f.ch, f.ts.sec, f.event, bid, idxPos[f.ch])] else es
    ensures Claims(es, es', f, bid, t1', t2', idxPos) && Claimed(es, es', bid, f.ts.sec)
    ensures f.iframe && f.ts.sec != 0 && prevMin[f.ch] != f.ts.sec / 60 % 60 ==> |es'| == |es| + 1
  {
  }

  /** The minute of the hour of an I-frame becomes its channel's mark; if it was not, the
      minute is claimed with the place of the I-frame's index entry.  Any other frame claims
      nothing if no I-frame of its channel is as late, or if the mark is its minute. */
  ghost predicate MinuteNoted(f: Frame, bid: int, idx: Secs, idxEnd: nat, marks: seq<int>, es: seq<Entry>,
      idx': Secs, marks': seq<int>, es': seq<Entry>)
  {
    0 <= f.ch < |marks| == |idx.t1| == |idx.t2| &&
    var ch, sec := f.ch, f.ts.sec;
    var minute := sec / 60 % 60;
    if f.iframe then
      idx' == Secs(if idx.t1[ch] == 0 then idx.t1[ch := sec] else idx.t1, idx.t2[ch := sec]) &&
      (sec != 0 ==> marks' == marks[ch := minute]) &&
      (sec != 0 ==> es' == if marks[ch] == minute then es else es + [Entry(ch, sec, f.event, bid, idxEnd)])
    else
      idx' == idx && (idx.t1[ch] == 0 || idx.t2[ch] < sec || marks[ch] == minute ==> marks' == marks && es' == es)
  }

  lemma FrameNotes(f: Frame, bid: int, idx: Secs, idxPos: seq<int>, idxEnd: nat, marks: seq<int>, es: seq<Entry>,
      idx': Secs, marks': seq<int>, es': seq<Entry>)
    requires 0 <= f.ch < |marks| == |idx.t1| == |idx.t2| == |idxPos|
    requires idx'.t1 == (if f.iframe && idx.t1[f.ch] == 0 then idx.t1[f.ch := f.ts.sec] else idx.t1) && idx'.t2 == StampedTimes(idx.t2, f)
    requires var claims := idx'.t1[f.ch] != 0 && marks[f.ch] != f.ts.sec / 60 % 60 && idx'.t2[f.ch] >= f.ts.sec;
      es' == (if claims then es + [Entry(f.ch, f.ts.sec, f.event, bid, StampedPos(idxPos, f, idxEnd)[f.ch])] else es) &&
      marks' == (if claims then marks[f.ch := f.ts.sec / 60 % 60] else marks)
    ensures MinuteNoted(f, bid, idx, idxEnd, marks, es, idx', marks', es')
  {
  }

  lemma MinuteIs(sec: int)
    ensures HourMinute(sec) == sec / 60 % 60
  {
  }

  /** Soundness is kept. */
  lemma {:induction false} FrameNoted(past: Past, bid: int, f: Frame, fpos: nat, t: Table, es: seq<Entry>, es': seq<Entry>,
      mday: int -> int, idxT2: seq<int>, idxPos: seq<int>, prevDay: int)
    requires bid in past.uses && bid != 0 && 0 <= f.ch < MAX_CHANNEL && TableOk(t, es) && |idxT2| == |idxPos| == MAX_CHANNEL
    requires |past.uses[bid].t1| == |past.uses[bid].t2| == MAX_CHANNEL
    requires past.clean ==>
      Sound(past.uses, t, es, mday) && SoundBasket(past.uses[bid], idxT2, idxPos, past.lastSec, prevDay, mday)
    requires Fresh(past.uses[bid]) || prevDay == MonthDay(mday, f.ts.sec)
    requires Claims(es, es', f, bid, PastWith(past, bid, f, fpos, es, mday).uses[bid].t1, StampedTimes(idxT2, f),
               StampedPos(idxPos, f, IndexNumToPos(|past.uses[bid].entries|)))
    ensures TableOk(t, es')
    ensures var p := PastWith(past, bid, f, fpos, es, mday);
      p.clean ==>
        Sound(p.uses, t, es', mday) && p.lastSec >= 0 &&
        SoundBasket(p.uses[bid], StampedTimes(idxT2, f), StampedPos(idxPos, f, IndexNumToPos(|past.uses[bid].entries|)),
          p.lastSec, MonthDay(mday, f.ts.sec), mday)
  {
    hide MonthDay, Sound, SoundBasket, TableOk, Regular, Fresh, IndexNumToPos;
    EntryAppended(t, es, es');
    var p := PastWith(past, bid, f, fpos, es, mday);
    if p.clean {
      RegularTime(es, past.lastSec, f.ts.sec, mday, Fresh(past.uses[bid]));
      FrameIsSound(past.uses, bid, t, es, es', mday, idxT2, idxPos, past.lastSec, prevDay, EntryAt(f, fpos), f.iframe, f.event);
    }
  }

  class Disk {
    const mday: int -> int

    // the manager file, and whether it has run out of empty baskets
    var bodies: seq<Body>
    var noSpace: bool
    // the table's files, and r_buf
    var table: Table
    var rBuf: seq<Entry>
    var rSkip: bool
    // the current basket
    var isOpen: bool
    var bid: int
    var bktSecs: Secs
    var idxSecs: Secs
    var idxPos: seq<int>
    var fill: Fill
    var prevMin: seq<int>
    var prevDay: int

    ghost var past: Past

    ghost predicate Valid()
      reads this
    {
      bodies != [] && |prevMin| == MAX_CHANNEL && TableOk(table, rBuf) &&
      |bktSecs.t1| == |bktSecs.t2| == |idxSecs.t2| == |idxPos| == MAX_CHANNEL && idxSecs.t1 == bktSecs.t1 &&
      ManagerOk(bodies, noSpace, past.uses, isOpen, bid) && TurnsOk(bodies, past.order, past.ends, isOpen, bid) &&
      (isOpen ==> bid in past.uses && Fits(past.uses[bid], bktSecs, fill.idxEnd)) &&
      (past.clean ==> Sound(past.uses, table, rBuf, mday) && past.lastSec >= 0) &&
      (past.clean && isOpen ==> SoundBasket(past.uses[bid], idxSecs.t2, idxPos, past.lastSec, prevDay, mday))
    }

    /** BKTREC_CreateBasketFiles. */
    constructor (count: nat, mday: int -> int)
      requires count > 0
      ensures Valid() && !isOpen && |bodies| == count && table == map[] && rBuf == [] && !rSkip
      ensures past == Past(map[], 0, [], [], true) && this.mday == mday && prevMin == seq(MAX_CHANNEL, _ => -1)
    {
      this.mday := mday;
      bodies := seq(count, _ => Body(Empty, NoTimes()));
      noSpace, table, rBuf, rSkip, isOpen, bid := false, map[], [], false, false, 0;
      bktSecs, idxSecs, idxPos := Secs(NoTimes(), NoTimes()), Secs(NoTimes(), NoTimes()), NoTimes();
      fill, prevMin, prevDay := NEW_FILL, seq(MAX_CHANNEL, _ => -1), 0;
      past := Past(map[], 0, [], [], true);
    }

    // -------------------------------------------------------------- flushing

    /** BKTREC_FlushWriteBuffer: stream, index, and the table if its flush is not put off. */
    method FlushWriteBuffer(io: Io) returns (ok: bool)
      requires Valid()
      modifies this`table, this`rBuf, this`fill
      ensures Valid()
      ensures ok <==> (old(fill.b) == 0 || io.stream) && (old(fill.i) == 0 || io.index) && (old(rBuf) == [] || !rSkip || io.table)
      ensures ok ==> fill == Emptied(old(fill))
      ensures fill.bktEnd == old(fill.bktEnd) && fill.idxEnd == old(fill.idxEnd)
      ensures ok ==> table == TableAfterFlush(old(table), old(rBuf), rSkip, mday) && rBuf == BufferAfterFlush(old(rBuf), rSkip, mday)
      ensures !ok ==> table == old(table)
      ensures !ok ==> rBuf == if (old(fill.b) == 0 || io.stream) && (old(fill.i) == 0 || io.index) then [] else old(rBuf)
      ensures past.clean ==> Keeps(old(table), table, 0)
    {
      hide MonthDay, HourMinute, Sound, SoundBasket, ManagerOk, TurnsOk, TableOk, PutAll, RunLength, Fits, Keeps, Emptied;
      FlushKeeps(table);
      if fill.b != 0 {
        if !io.stream {
          return false;
        }
        fill := fill.(b := 0);
      }
      if fill.i != 0 {
        if !io.index {
          return false;
        }
        fill := fill.(i := 0);
      }
      EmptiedIs(old(fill));
      if rBuf != [] && rSkip {
        ok := FlushTable(io.table);
        return;
      }
      return true;
    }

    lemma EmptiedIs(f: Fill)
      ensures Emptied(f) == Fill(f.bktEnd, f.idxEnd, 0, 0)
    {
    }

    /** BKTREC_Flush_RDBDATA, and what becomes of the buffer when it fails. */
    method FlushTable(tableOk: bool) returns (ok: bool)
      requires Valid() && rBuf != []
      modifies this`table, this`rBuf
      ensures Valid() && ok == tableOk
      ensures ok ==> table == TableAfterFlush(old(table), old(rBuf), true, mday) && rBuf == BufferAfterFlush(old(rBuf), true, mday)
      ensures !ok ==> table == old(table) && rBuf == []
      ensures past.clean ==> Keeps(old(table), table, 0)
    {
      hide MonthDay, HourMinute, Sound, SoundBasket, ManagerOk, TurnsOk, PutAll, RunLength, Fits, Keeps;
      FlushKeeps(table);
      AfterFlushOk(table, rBuf, mday);
      if past.clean {
        AfterFlushSound(past.uses, table, rBuf, mday);
      }
      if !tableOk {
        rBuf := [];
        return false;
      }
      table, rBuf := FlushRun(table, rBuf, mday);
      return true;
    }

    // -------------------------------------------------------------- changing baskets

    /** BKTREC_SaveFull as far as the manager file goes. */
    method SaveFull()
      requires Valid() && isOpen
      modifies this`bodies, this`isOpen, this`bktSecs, this`idxSecs, this`past
      ensures Valid() && !isOpen && |bodies| == old(|bodies|) && 1 <= bid <= |bodies|
      ensures bodies == old(bodies)[bid - 1 := Body(Full, old(bktSecs.t2))]
      ensures past == old(past).(ends := old(past.ends) + [MinTs(old(bktSecs.t2))])
      ensures bktSecs == idxSecs == Secs(NoTimes(), NoTimes())
      ensures bid in past.uses && past.uses[bid].t2 == old(bktSecs.t2)
    {
      hide MonthDay, HourMinute, Sound, SoundBasket, ManagerOk, TurnsOk, TableOk, MinTs, Fits;
      FitsTimes();
      InRange();
      ManagerSaves(bodies, noSpace, past.uses, bid);
      var filled := Body(Full, bktSecs.t2);
      TurnFilled(bodies, past.order, past.ends, bid, filled);
      bodies := bodies[bid - 1 := filled];
      isOpen := false;
      bktSecs, idxSecs := Secs(NoTimes(), NoTimes()), Secs(NoTimes(), NoTimes());
      past := past.(ends := past.ends + [MinTs(filled.t2)]);
    }

    lemma InRange()
      requires Valid() && isOpen
      ensures 1 <= bid <= |bodies|
    {
    }

    lemma FitsTimes()
      requires Valid() && isOpen
      ensures bid in past.uses && past.uses[bid].t2 == bktSecs.t2
    {
    }

    /** BKTREC_searchBasket for the next basket on the same disk. */
    method SearchBasket(tableOk: bool) returns (newbid: int, full: bool)
      requires Valid() && !isOpen
      modifies this`noSpace, this`table
      ensures Valid() && 1 <= newbid <= |bodies|
      ensures full <==> forall i :: 0 <= i < |bodies| ==> bodies[i].flag != Empty
      ensures noSpace == full
      ensures !full ==> bodies[newbid - 1].flag == Empty && forall i :: 0 <= i < newbid - 1 ==> bodies[i].flag != Empty
      ensures !full ==> table == old(table) && newbid !in past.uses
      ensures full ==> IsOldest(bodies, newbid) && table == Cleaned(old(table), newbid, MinTs(bodies[newbid - 1].t2), tableOk)
      ensures full ==> AllFull(bodies, past.uses)
      ensures Increasing(past.ends) ==> newbid == |past.ends| % |bodies| + 1
      ensures past.clean ==> Keeps(old(table), table, newbid) && (tableOk || !full ==> Nowhere(table, newbid))
    {
      hide MonthDay, HourMinute, Sound, SoundBasket, ManagerOk, TurnsOk, MinTs, Fits, Keeps, Nowhere, Removed;
      hide IsOldest, AllFull, Increasing;
      ManagerSearched(bodies, noSpace, past.uses, bid);
      full := false;
      if !noSpace {
        newbid := SearchEmptyBasket(bodies);
        if newbid != -1 {
          NextInTurn(bodies, past.order, past.ends, bid, newbid);
          if past.clean {
            UnusedIsNowhere(past.uses, table, rBuf, mday, newbid);
          }
          return;
        }
      }
      noSpace, full := true, true;
      var minTs;
      newbid, minTs := SearchOldestBasket(bodies);
      OldestInRange(bodies, newbid);
      NextInTurn(bodies, past.order, past.ends, bid, newbid);
      ghost var t := table;
      var removed;
      table, removed := RemoveRdb(table, newbid, minTs, tableOk);
      RemovedIsTable(t, newbid, minTs);
      if past.clean {
        PickIsSound(bodies, past.uses, t, rBuf, mday, newbid, removed, table);
      }
    }

    /** BKTREC_OpenFullBasket on a single disk; and BKTREC_open on a new one. */
    method OpenFullBasket(tableOk: bool)
      requires Valid() && !isOpen
      modifies this`noSpace, this`table, this`bodies, this`bid, this`isOpen, this`bktSecs, this`idxSecs, this`idxPos, this`fill, this`past
      ensures Valid() && isOpen && |bodies| == old(|bodies|) && Fresh(past.uses[bid]) && fill == NEW_FILL
      ensures past == old(past).(uses := old(past.uses)[bid := NO_USE], order := old(past.order) + [bid],
                                 clean := old(past.clean) && Nowhere(table, bid) && Unnamed(rBuf, bid))
      ensures 1 <= bid <= |bodies| && bodies == old(bodies)[bid - 1 := old(bodies)[bid - 1].(flag := Using)]
      ensures old(past.clean) ==> Keeps(old(table), table, bid) && (tableOk ==> Nowhere(table, bid))
      ensures (exists i :: 0 <= i < |old(bodies)| && old(bodies)[i].flag == Empty) ==> table == old(table)
      ensures Shrinks(old(table), table) && idxSecs == Secs(NoTimes(), NoTimes())
      ensures old(bid) != 0 && |bodies| >= 2 && OthersEndEarlier(old(past.uses), old(bid)) ==> bid != old(bid)
    {
      hide MonthDay, HourMinute, Sound, SoundBasket, ManagerOk, TurnsOk, TableOk, MinTs, Fits, Fresh, NoTimes, AllFull;
      hide Keeps, Nowhere, Unnamed, IsOldest, Increasing, Removed, Cleaned, OthersEndEarlier, Shrinks;
      var newbid, full := SearchBasket(tableOk);
      if full && |bodies| >= 2 && OthersEndEarlier(past.uses, bid) {
        OldestIsAnother(bodies, past.uses, bid, newbid);
      }
      InUse(past.uses, bid);
      CleanedShrinks(old(table), newbid, MinTs(bodies[newbid - 1].t2), tableOk);
      TakeBasket(newbid);
    }

    lemma {:induction false} CleanedShrinks(t: Table, b: int, sec: int, ok: bool)
      ensures Shrinks(t, Cleaned(t, b, sec, ok)) && Shrinks(t, t)
    {
    }

    lemma {:induction false} InUse(uses: map<int, Use>, b: int)
      ensures OthersEndEarlier(uses, b) ==> b in uses
    {
    }

    /** The basket that was found becomes the current one, with nothing in it; the manager
        file lists it as in use. */
    method TakeBasket(newbid: int)
      requires Valid() && !isOpen && 1 <= newbid <= |bodies|
      requires Increasing(past.ends) ==> newbid == |past.ends| % |bodies| + 1
      modifies this`bodies, this`bid, this`isOpen, this`bktSecs, this`idxSecs, this`idxPos, this`fill, this`past
      ensures Valid() && isOpen && bid == newbid && Fresh(past.uses[bid]) && fill == NEW_FILL
      ensures bktSecs == idxSecs == Secs(NoTimes(), NoTimes())
      ensures bodies == old(bodies)[newbid - 1 := old(bodies)[newbid - 1].(flag := Using)]
      ensures past == old(past).(uses := old(past.uses)[bid := NO_USE], order := old(past.order) + [bid],
                                 clean := old(past.clean) && Nowhere(table, bid) && Unnamed(rBuf, bid))
    {
      hide MonthDay, HourMinute, Sound, SoundBasket, ManagerOk, TurnsOk, TableOk, MinTs, Fits, Fresh, NoTimes;
      hide Keeps, Nowhere, Unnamed, Increasing;
      bktSecs, idxSecs, idxPos := Secs(NoTimes(), NoTimes()), Secs(NoTimes(), NoTimes()), NoTimes();
      NewFits(NO_USE);
      ManagerOpens(bodies, noSpace, past.uses, newbid, bid, NO_USE);
      TurnOpened(bodies, past.order, past.ends, bid, newbid);
      if past.clean {
        ReuseIsSound(past.uses, newbid, table, rBuf, mday, idxSecs.t2, idxPos, past.lastSec, prevDay);
      }
      bodies := bodies[newbid - 1 := bodies[newbid - 1].(flag := Using)];
      bid, fill, isOpen := newbid, NEW_FILL, true;
      past := past.(uses := past.uses[bid := NO_USE], order := past.order + [bid],
                    clean := past.clean && Nowhere(table, bid) && Unnamed(rBuf, bid));
    }

    /** Flush, save, open: what both writes do with a basket that is over. */
    method ChangeBasket(io: Io) returns (ok: bool)
      requires Valid() && isOpen
      modifies this
      ensures Valid() && isOpen && |bodies| == old(|bodies|)
      ensures prevMin == old(prevMin) && prevDay == old(prevDay) && rSkip == old(rSkip)
      ensures !ok ==> Unmoved(old(bid), old(past), old(table), old(rBuf), old(bodies)) && fill.bktEnd == old(fill.bktEnd) && fill.idxEnd == old(fill.idxEnd)
      ensures !ok ==> (io.table ==> rBuf == old(rBuf)) && (io.stream && io.index ==> rBuf == [])
      ensures ok <==> (old(fill.b) == 0 || io.stream) && (old(fill.i) == 0 || io.index) && (old(rBuf) == [] || !rSkip || io.table)
      ensures ok ==> fill == NEW_FILL && Fresh(past.uses[bid]) && rBuf == BufferAfterFlush(old(rBuf), rSkip, mday)
      ensures ok ==> past == AfterChange(old(past), bid, old(bktSecs.t2), old(past.clean) && Nowhere(table, bid) && Unnamed(rBuf, bid))
      ensures ok && old(past.clean) ==> Keeps(old(table), table, bid) && (io.table ==> Nowhere(table, bid))
      ensures ok && |bodies| >= 2 && OthersEndEarlier(old(past.uses), old(bid)) ==> bid != old(bid)
      ensures ok ==> Handed(old(bodies), old(bid), old(bktSecs.t2), bodies, bid)
      ensures ok ==> Shrinks(TableAfterFlush(old(table), old(rBuf), rSkip, mday), table) && idxSecs == Secs(NoTimes(), NoTimes())
      ensures ok && old(past.clean) ==> Keeps(TableAfterFlush(old(table), old(rBuf), rSkip, mday), table, bid)
    {
      hide MonthDay, HourMinute, Sound, SoundBasket, ManagerOk, TurnsOk, TableOk, MinTs, Fits, Fresh, NoTimes;
      hide Keeps, Nowhere, Unnamed, OthersEndEarlier, BufferAfterFlush, TableAfterFlush, Emptied, Shrinks;
      InRange();
      NoFlush(table, rBuf);
      ok := FlushWriteBuffer(io);
      if !ok {
        return;
      }
      ghost var t := table;
      SaveFull();
      OpenFullBasket(io.table);
      KeepsOn(old(table), t, table, bid);
    }

    ghost predicate Unmoved(bid0: int, past0: Past, table0: Table, rBuf0: seq<Entry>, bodies0: seq<Body>)
      reads this
    {
      bid == bid0 && past == past0 && table == table0 && bodies == bodies0 && (rBuf == rBuf0 || rBuf == [])
    }

    // -------------------------------------------------------------- frames

    /** The times and the table's part of BKTREC_WriteVideoStream, behind the change of
        baskets or the flush. */
    method NoteVideo(f: Frame)
      requires Valid() && isOpen && 0 <= f.ch < MAX_CHANNEL
      requires Fresh(past.uses[bid]) || prevDay == MonthDay(mday, f.ts.sec)
      modifies this`rBuf, this`bktSecs, this`idxSecs, this`idxPos, this`fill, this`prevMin, this`prevDay, this`past
      ensures Valid() && prevDay == MonthDay(mday, f.ts.sec) && fill == Added(old(fill), VideoSize(f), IdxSize(f))
      ensures past == PastWith(old(past), bid, f, old(fill.bktEnd), old(rBuf), mday)
      ensures var claims := idxSecs.t1[f.ch] != 0 && old(prevMin)[f.ch] != f.ts.sec / 60 % 60 && idxSecs.t2[f.ch] >= f.ts.sec;
        rBuf == if claims then old(rBuf) + [Entry(f.ch, f.ts.sec, f.event, bid, idxPos[f.ch])] else old(rBuf)
      ensures Claimed(old(rBuf), rBuf, bid, f.ts.sec)
      ensures f.iframe && f.ts.sec != 0 && old(prevMin)[f.ch] != f.ts.sec / 60 % 60 ==> |rBuf| == |old(rBuf)| + 1
      ensures MinuteNoted(f, bid, old(idxSecs), old(fill.idxEnd), old(prevMin), old(rBuf), idxSecs, prevMin, rBuf)
    {
      hide MonthDay, HourMinute, Sound, SoundBasket, ManagerOk, TurnsOk, TableOk, Regular, Fresh, WithFrame, Fits, IndexNumToPos, MinuteNoted;
      hide VideoSize, Added, IdxSize, Claimed, PastWith, StampedTimes, StampedPos, Claims;
      FrameKept(f);
      IndexEnd(fill, f);
      Stamp(f);
      FrameNoted(old(past), bid, f, old(fill.bktEnd), table, old(rBuf), rBuf, mday, old(idxSecs.t2), old(idxPos), old(prevDay));
      past := PastWith(past, bid, f, old(fill.bktEnd), old(rBuf), mday);
      prevDay := MonthDay(mday, f.ts.sec);
    }

    /** What the manager file and the times of the basket have to do with a frame. */
    lemma FrameKept(f: Frame)
      requires Valid() && isOpen && 0 <= f.ch < MAX_CHANNEL
      ensures var p := PastWith(past, bid, f, fill.bktEnd, rBuf, mday);
        var u, u' := past.uses[bid], p.uses[bid];
        bid != 0 && bid in p.uses && |u.t1| == |u.t2| == MAX_CHANNEL && fill.idxEnd == IndexNumToPos(|u.entries|) &&
        u'.t1 == (if f.iframe && bktSecs.t1[f.ch] == 0 then bktSecs.t1[f.ch := f.ts.sec] else bktSecs.t1) &&
        Fits(u', Secs(u'.t1, bktSecs.t2[f.ch := f.ts.sec]), if f.iframe then fill.idxEnd + INDEX_DATA else fill.idxEnd) &&
        ManagerOk(bodies, noSpace, p.uses, true, bid) && p.order == past.order && p.ends == past.ends && (p.clean ==> past.clean)
    {
      hide MonthDay, Sound, SoundBasket, ManagerOk, TurnsOk, TableOk, Regular, Fresh, WithFrame, Fits, IndexNumToPos;
      var e := EntryAt(f, fill.bktEnd);
      FrameFits(past.uses[bid], bktSecs, fill.idxEnd, e, f.iframe);
      ManagerRecords(bodies, noSpace, past.uses, bid, WithFrame(past.uses[bid], e, f.iframe));
    }

    lemma IndexEnd(fill: Fill, f: Frame)
      ensures Added(fill, VideoSize(f), IdxSize(f)).idxEnd == if f.iframe then fill.idxEnd + INDEX_DATA else fill.idxEnd
    {
    }

    /** bkt_secs, idx_secs, idx_pos and the positions; and the first frame of a channel in a
        minute claims the minute, if an I-frame of that second is known. */
    method Stamp(f: Frame)
      requires 0 <= f.ch < MAX_CHANNEL && |prevMin| == MAX_CHANNEL
      requires |bktSecs.t1| == |bktSecs.t2| == |idxSecs.t2| == |idxPos| == MAX_CHANNEL && idxSecs.t1 == bktSecs.t1
      modifies this`bktSecs, this`idxSecs, this`idxPos, this`fill, this`rBuf, this`prevMin
      ensures bktSecs.t1 == if f.iframe && old(bktSecs.t1)[f.ch] == 0 then old(bktSecs.t1)[f.ch := f.ts.sec] else old(bktSecs.t1)
      ensures bktSecs.t2 == old(bktSecs.t2)[f.ch := f.ts.sec] && idxSecs.t1 == bktSecs.t1
      ensures idxSecs.t2 == StampedTimes(old(idxSecs.t2), f) && idxPos == StampedPos(old(idxPos), f, old(fill.idxEnd))
      ensures fill == Added(old(fill), VideoSize(f), IdxSize(f))
      ensures var claims := idxSecs.t1[f.ch] != 0 && old(prevMin)[f.ch] != f.ts.sec / 60 % 60 && idxSecs.t2[f.ch] >= f.ts.sec;
        rBuf == (if claims then old(rBuf) + [Entry(f.ch, f.ts.sec, f.event, bid, idxPos[f.ch])] else old(rBuf)) &&
        prevMin == (if claims then old(prevMin)[f.ch := f.ts.sec / 60 % 60] else old(prevMin))
      ensures Claims(old(rBuf), rBuf, f, bid, idxSecs.t1, idxSecs.t2, idxPos) && Claimed(old(rBuf), rBuf, bid, f.ts.sec)
      ensures f.iframe && f.ts.sec != 0 && old(prevMin)[f.ch] != f.ts.sec / 60 % 60 ==> |rBuf| == |old(rBuf)| + 1
      ensures MinuteNoted(f, bid, old(idxSecs), old(fill.idxEnd), old(prevMin), old(rBuf), idxSecs, prevMin, rBuf)
    {
      hide HourMinute, Claims, Claimed, VideoSize, MinuteNoted;
      var ch, sec := f.ch, f.ts.sec;
      MinuteIs(sec);
      if f.iframe {
        idxPos := idxPos[ch := fill.idxEnd];
        fill := fill.(idxEnd := fill.idxEnd + INDEX_DATA, i := fill.i + INDEX_DATA);
        if bktSecs.t1[ch] == 0 {
          bktSecs := bktSecs.(t1 := bktSecs.t1[ch := sec]);
          idxSecs := idxSecs.(t1 := idxSecs.t1[ch := sec]);
        }
        idxSecs := idxSecs.(t2 := idxSecs.t2[ch := sec]);
      }
      fill := fill.(bktEnd := fill.bktEnd + VideoSize(f), b := fill.b + VideoSize(f));
      if idxSecs.t1[ch] != 0 && prevMin[ch] != HourMinute(sec) && idxSecs.t2[ch] >= sec {
        rBuf := rBuf + [Entry(ch, sec, f.event, bid, idxPos[ch])];
        prevMin := prevMin[ch := HourMinute(sec)];
      }
      bktSecs := bktSecs.(t2 := bktSecs.t2[ch := sec]);
      FrameClaims(old(rBuf), rBuf, f, bid, old(bktSecs.t1), old(idxSecs.t2), idxSecs.t1, idxSecs.t2, idxPos, old(prevMin));
      FrameNotes(f, bid, old(idxSecs), old(idxPos), old(fill.idxEnd), old(prevMin), old(rBuf), idxSecs, prevMin, rBuf);
    }

    /** BKTREC_open on a disk that has just been created. */
    method Open(today: int)
      requires Valid() && !isOpen && past == Past(map[], 0, [], [], true) && rBuf == [] && !rSkip
      modifies this
      ensures Valid() && isOpen && |bodies| == old(|bodies|) && Fresh(past.uses[bid]) && fill == NEW_FILL && prevDay == mday(today)
      ensures past == Past(map[bid := NO_USE], 0, [bid], [], true) && rBuf == [] && !rSkip && prevMin == old(prevMin) && table == old(table)
      ensures idxSecs == Secs(NoTimes(), NoTimes())
    {
      hide Sound, ManagerOk, TurnsOk, TableOk, Fits, Tracks, Keeps;
      NothingUsed();
      OpenFullBasket(true);
      prevDay := mday(today);
    }

    /** On a new disk the first basket is empty. */
    lemma NothingUsed()
      requires Valid() && past.uses == map[]
      ensures exists i :: 0 <= i < |bodies| && bodies[i].flag == Empty
    {
      assert bodies[0].flag == Empty;
    }

    /** BKTREC_WriteVideoStream, as far as the manager file, the table and the sizes go. */
    method WriteVideo(f: Frame, io: Io) returns (ok: bool)
      requires Valid() && isOpen && 0 <= f.ch < MAX_CHANNEL
      modifies this
      ensures Valid() && isOpen && |bodies| == old(|bodies|) && (AllSucceed(io) ==> ok)
      ensures var rolls := Rolls(old(fill), old(prevDay), f, mday);
        if ok then prevDay == MonthDay(mday, f.ts.sec) && Wrote(f, rolls, old(fill), old(past), old(bktSecs.t2), bid, past, fill)
        else Unmoved(old(bid), old(past), old(table), old(rBuf), old(bodies))
      ensures var full := old(fill.bktEnd + fill.idxEnd) + STREAM_HDR + VSTREAM_HDR + f.size + INDEX_DATA >= BASKET_SIZE;
        ok <==>
          if full || old(prevDay) != mday(f.ts.sec / 86400) then io.stream && (old(fill.i) == 0 || io.index)
          else
            BuffersFull(old(fill), VideoSize(f), INDEX_DATA) ==>
              (old(fill.b) == 0 || io.stream) && (old(fill.i) == 0 || io.index) && (old(rBuf) == [] || io.table)
      ensures !ok ==> fill.bktEnd == old(fill.bktEnd) + (if Rolls(old(fill), old(prevDay), f, mday) then STREAM_HDR else 0) && fill.idxEnd == old(fill.idxEnd)
      ensures !ok ==> prevMin == old(prevMin) && (io.table ==> rBuf == old(rBuf)) && (io.stream && io.index ==> rBuf == [])
      ensures var full := old(fill.bktEnd + fill.idxEnd) + STREAM_HDR + VSTREAM_HDR + f.size + INDEX_DATA >= BASKET_SIZE;
        ok ==> (past.order != old(past.order) <==> full || old(prevDay) != mday(f.ts.sec / 86400))
      ensures ok ==> var rolls := Rolls(old(fill), old(prevDay), f, mday);
        var skip := !rolls && BuffersFull(old(fill), VideoSize(f), INDEX_DATA);
        rSkip == (!rolls && (old(rSkip) || skip)) && Claimed(BufferAfterFlush(old(rBuf), skip, mday), rBuf, bid, f.ts.sec) &&
        (rolls ==> Handed(old(bodies), old(bid), old(bktSecs.t2), bodies, bid) && Shrinks(old(table), table)) &&
        (!rolls ==> bodies == old(bodies) && bid == old(bid) && table == TableAfterFlush(old(table), old(rBuf), skip, mday)) &&
        (old(past.clean) ==> Keeps(old(table), table, if rolls then bid else 0)) &&
        (old(past.clean) && rolls && io.table ==> Nowhere(table, bid)) &&
        (rolls && |bodies| >= 2 && OthersEndEarlier(old(past.uses), old(bid)) ==> bid != old(bid)) &&
        (old(past.clean) && Timely(f, rolls, old(rBuf), old(past), old(bid)) && (rolls ==> TakenAnew(old(rBuf))) ==> past.clean)
      ensures ok && f.iframe && f.ts.sec != 0 && old(prevMin)[f.ch] != f.ts.sec / 60 % 60 ==> rBuf != [] && rBuf[|rBuf| - 1].bid == bid
      ensures ok ==> var rolls := Rolls(old(fill), old(prevDay), f, mday);
        var skip := !rolls && BuffersFull(old(fill), VideoSize(f), INDEX_DATA);
        MinuteNoted(f, bid, if rolls then Secs(NoTimes(), NoTimes()) else old(idxSecs), StartFill(rolls, old(fill), VideoSize(f)).idxEnd,
          old(prevMin), BufferAfterFlush(old(rBuf), skip, mday), idxSecs, prevMin, rBuf)
    {
      hide MonthDay, HourMinute, Sound, SoundBasket, ManagerOk, TurnsOk, TableOk, Fits, Fresh, Keeps, Nowhere, Unnamed, Regular, WithFrame;
      hide Shrinks, MinuteNoted, MinTs, OthersEndEarlier, Rolls, BuffersFull, TableAfterFlush, BufferAfterFlush, Emptied, Handed;
      ok := MakeRoom(f, io);
      RollsIff(old(fill), old(prevDay), f, mday);
      if ok {
        TimesLength();
        NoteVideo(f);
      }
    }

    lemma TimesLength()
      requires Valid() && isOpen
      ensures |past.uses[bid].t1| == |past.uses[bid].t2| == MAX_CHANNEL
    {
    }

    /** Its first half: change baskets, or flush, or neither. */
    method MakeRoom(f: Frame, io: Io) returns (ok: bool)
      requires Valid() && isOpen
      modifies this
      ensures Valid() && isOpen && |bodies| == old(|bodies|) && prevMin == old(prevMin) && (AllSucceed(io) ==> ok)
      ensures !ok ==> Unmoved(old(bid), old(past), old(table), old(rBuf), old(bodies))
      ensures ok <==>
        if Rolls(old(fill), old(prevDay), f, mday) then io.stream && (old(fill.i) == 0 || io.index)
        else
          BuffersFull(old(fill), VideoSize(f), INDEX_DATA) ==>
            (old(fill.b) == 0 || io.stream) && (old(fill.i) == 0 || io.index) && (old(rBuf) == [] || io.table)
      ensures !ok ==> fill.bktEnd == old(fill.bktEnd) + (if Rolls(old(fill), old(prevDay), f, mday) then STREAM_HDR else 0) && fill.idxEnd == old(fill.idxEnd)
      ensures !ok ==> (io.table ==> rBuf == old(rBuf)) && (io.stream && io.index ==> rBuf == [])
      ensures ok ==> var rolls := Rolls(old(fill), old(prevDay), f, mday);
        var skip := !rolls && BuffersFull(old(fill), VideoSize(f), INDEX_DATA);
        fill == StartFill(rolls, old(fill), VideoSize(f)) &&
        rSkip == (!rolls && (old(rSkip) || skip)) && rBuf == BufferAfterFlush(old(rBuf), skip, mday) &&
        (rolls ==> Fresh(past.uses[bid]) && past == AfterChange(old(past), bid, old(bktSecs.t2), past.clean)) &&
        (rolls ==> Handed(old(bodies), old(bid), old(bktSecs.t2), bodies, bid) && Shrinks(old(table), table)) &&
        idxSecs == (if rolls then Secs(NoTimes(), NoTimes()) else old(idxSecs)) &&
        (!rolls ==> past == old(past) && prevDay == MonthDay(mday, f.ts.sec)) &&
        (!rolls ==> bodies == old(bodies) && bid == old(bid) && table == TableAfterFlush(old(table), old(rBuf), skip, mday)) &&
        (old(past.clean) ==> Keeps(old(table), table, if rolls then bid else 0)) &&
        (old(past.clean) && rolls && io.table ==> Nowhere(table, bid)) &&
        (rolls && |bodies| >= 2 && OthersEndEarlier(old(past.uses), old(bid)) ==> bid != old(bid)) &&
        (old(past.clean) && Timely(f, rolls, old(rBuf), old(past), old(bid)) && (rolls ==> TakenAnew(old(rBuf))) ==>
           past.clean && Regular(rBuf, past.lastSec, f.ts.sec, mday, Fresh(past.uses[bid])))
    {
      hide MonthDay, HourMinute, Sound, SoundBasket, ManagerOk, TurnsOk, TableOk, Fits, Fresh, Keeps, Nowhere, Unnamed, Regular;
      hide Shrinks, NoTimes, MinTs, OthersEndEarlier, Overflows, BuffersFull, TableAfterFlush, BufferAfterFlush, Emptied, Handed;
      FlushKeeps(table);
      NoFlush(table, rBuf);
      RegularFlushed(rBuf, past.lastSec, f.ts.sec, Fresh(past.uses[bid]));
      ok := true;
      if Overflows(fill, VideoSize(f), INDEX_DATA) || prevDay != MonthDay(mday, f.ts.sec) {
        ok := EndBasket(f, io);
      } else if BuffersFull(fill, VideoSize(f), INDEX_DATA) {
        rSkip := true;
        ok := FlushWriteBuffer(io);
      }
    }

    /** The end marker is written, the table's flush is put off, and baskets are changed. */
    method EndBasket(f: Frame, io: Io) returns (ok: bool)
      requires Valid() && isOpen
      modifies this
      ensures Valid() && isOpen && |bodies| == old(|bodies|) && prevMin == old(prevMin) && (AllSucceed(io) ==> ok)
      ensures !ok ==> Unmoved(old(bid), old(past), old(table), old(rBuf), old(bodies))
      ensures ok <==> io.stream && (old(fill.i) == 0 || io.index)
      ensures !ok ==> fill.bktEnd == old(fill.bktEnd) + STREAM_HDR && fill.idxEnd == old(fill.idxEnd)
      ensures !ok ==> (io.table ==> rBuf == old(rBuf)) && (io.stream && io.index ==> rBuf == [])
      ensures ok ==> fill == NEW_FILL && !rSkip && rBuf == old(rBuf) && Fresh(past.uses[bid]) && Shrinks(old(table), table)
      ensures ok ==> idxSecs == Secs(NoTimes(), NoTimes())
      ensures ok ==> past == AfterChange(old(past), bid, old(bktSecs.t2), past.clean) && Handed(old(bodies), old(bid), old(bktSecs.t2), bodies, bid)
      ensures ok && old(past.clean) ==> Keeps(old(table), table, bid) && (io.table ==> Nowhere(table, bid))
      ensures ok && |bodies| >= 2 && OthersEndEarlier(old(past.uses), old(bid)) ==> bid != old(bid)
      ensures ok && old(past.clean) && Timely(f, true, old(rBuf), old(past), old(bid)) && TakenAnew(old(rBuf)) ==>
        past.clean && Regular(rBuf, past.lastSec, f.ts.sec, mday, true)
    {
      hide MonthDay, HourMinute, Sound, SoundBasket, ManagerOk, TurnsOk, TableOk, Fits, Fresh, Keeps, Nowhere, Unnamed, Regular;
      hide Shrinks, NoTimes, MinTs, OthersEndEarlier, TableAfterFlush, BufferAfterFlush, Emptied, Handed;
      NoFlush(table, rBuf);
      rSkip := false;
      fill := Added(fill, STREAM_HDR, 0);
      ok := ChangeBasket(io);
    }

    lemma RegularFlushed(es: seq<Entry>, lastSec: int, sec: int, first: bool)
      ensures Regular(es, lastSec, sec, mday, first) ==>
        Regular(BufferAfterFlush(es, true, mday), lastSec, sec, mday, first) && Regular(es, lastSec, sec, mday, true)
    {
      RegularAfterFlush(es, lastSec, sec, mday, first);
    }

    lemma {:induction false} NoFlush(t: Table, es: seq<Entry>)
      requires TableOk(t, es)
      ensures TableAfterFlush(t, es, false, mday) == t
      ensures BufferAfterFlush(es, false, mday) == es
    {
    }

    /** The current basket is named neither in the table nor by a waiting entry. */
    ghost predicate TakenAnew(waiting: seq<Entry>)
      reads this
    {
      Unnamed(waiting, bid) && Nowhere(table, bid)
    }

    ghost predicate Timely(f: Frame, rolls: bool, es: seq<Entry>, past0: Past, bid0: int)
      requires bid0 in past0.uses
    {
      Regular(es, past0.lastSec, f.ts.sec, mday, rolls || Fresh(past0.uses[bid0]))
    }

    /** BKTREC_WriteAudioStream, likewise: audio leaves no trace in the table, but can
        fill a basket. */
    method WriteAudio(frameSize: nat, io: Io) returns (ok: bool)
      requires Valid() && isOpen
      modifies this
      ensures Valid() && isOpen && |bodies| == old(|bodies|) && prevDay == old(prevDay) && rSkip == old(rSkip) && (AllSucceed(io) ==> ok)
      ensures prevMin == old(prevMin)
      ensures !ok ==> fill.bktEnd == old(fill.bktEnd) && fill.idxEnd == old(fill.idxEnd)
      ensures ok <==> Overflows(old(fill), AudioSize(frameSize), 0) || BuffersFull(old(fill), AudioSize(frameSize), 0) ==>
        (old(fill.b) == 0 || io.stream) && (old(fill.i) == 0 || io.index) && (old(rBuf) == [] || !rSkip || io.table)
      ensures ok ==>
        (past.order != old(past.order) <==> old(fill.bktEnd + fill.idxEnd) + STREAM_HDR + ASTREAM_HDR + frameSize >= BASKET_SIZE)
      ensures var size := AudioSize(frameSize); var rolls := Overflows(old(fill), size, 0);
        var full := BuffersFull(old(fill), size, 0);
        if !ok then Unmoved(old(bid), old(past), old(table), old(rBuf), old(bodies))
        else
          fill == Added(if rolls then NEW_FILL else if full then Emptied(old(fill)) else old(fill), size, 0) &&
          rBuf == BufferAfterFlush(old(rBuf), rSkip && (rolls || full), mday) &&
          (!rolls ==> past == old(past) && bid == old(bid) && bodies == old(bodies)) &&
          idxSecs == (if rolls then Secs(NoTimes(), NoTimes()) else old(idxSecs)) &&
          var flushed := TableAfterFlush(old(table), old(rBuf), rSkip && (rolls || full), mday);
          (if rolls then Shrinks(flushed, table) && (old(past.clean) ==> Keeps(flushed, table, bid)) else table == flushed) &&
          (rolls ==> past == AfterChange(old(past), bid, old(bktSecs.t2), old(past.clean) && TakenAnew(rBuf))) &&
          (rolls ==> Handed(old(bodies), old(bid), old(bktSecs.t2), bodies, bid)) &&
          (old(past.clean) ==> Keeps(old(table), table, if rolls then bid else 0)) &&
          (old(past.clean) && rolls && io.table ==> Nowhere(table, bid)) &&
          (rolls && |bodies| >= 2 && OthersEndEarlier(old(past.uses), old(bid)) ==> bid != old(bid))
    {
      hide MonthDay, HourMinute, Sound, SoundBasket, ManagerOk, TurnsOk, TableOk, Fits, Fresh, Keeps, Nowhere, Unnamed, MinTs;
      hide Shrinks, NoTimes, OthersEndEarlier, Overflows, BuffersFull, TableAfterFlush, Emptied;
      var size := AudioSize(frameSize);
      ok := true;
      FlushKeeps(table);
      NoFlush(table, rBuf);
      OverflowsIff(fill, size, 0);
      if Overflows(fill, size, 0) {
        ok := ChangeBasket(io);
      } else if BuffersFull(fill, size, 0) {
        ok := FlushWriteBuffer(io);
      }
      if ok {
        fill := Added(fill, size, 0);
      }
    }
  }

  predicate AllSucceed(io: Io) {
    io.stream && io.index && io.table
  }

  /** Whether a video frame changes baskets. */
  predicate Rolls(fill: Fill, prevDay: int, f: Frame, mday: int -> int) {
    Overflows(fill, VideoSize(f), INDEX_DATA) || prevDay != MonthDay(mday, f.ts.sec)
  }

  lemma RollsIff(fill: Fill, prevDay: int, f: Frame, mday: int -> int)
    ensures Rolls(fill, prevDay, f, mday) <==>
      fill.bktEnd + fill.idxEnd + STREAM_HDR + VSTREAM_HDR + f.size + INDEX_DATA >= BASKET_SIZE || prevDay != mday(f.ts.sec / 86400)
  {
    OverflowsIff(fill, VideoSize(f), INDEX_DATA);
  }

  /** What a change of baskets adds to the past. */
  ghost function AfterChange(past: Past, bid: int, t2: seq<int>, clean: bool): Past {
    Past(past.uses[bid := NO_USE], past.lastSec, past.order + [bid], past.ends + [MinTs(t2)], clean)
  }

  /** The old basket is listed as full with its times, the new one as in use. */
  ghost predicate Handed(before: seq<Body>, bid0: int, t2: seq<int>, after: seq<Body>, bid: int) {
    1 <= bid0 <= |before| && 1 <= bid <= |before| &&
    var saved := before[bid0 - 1 := Body(Full, t2)];
    after == saved[bid - 1 := saved[bid - 1].(flag := Using)]
  }

  /** What is in the buffers when room has been made for a video frame. */
  function StartFill(rolls: bool, fill: Fill, size: nat): Fill {
    if rolls then NEW_FILL else if BuffersFull(fill, size, INDEX_DATA) then Emptied(fill) else fill
  }

  /** Where a frame was written and what is known of its basket now. */
  ghost predicate Wrote(f: Frame, rolls: bool, fill0: Fill, past0: Past, t2: seq<int>, bid: int, past: Past, fill: Fill) {
    var base := if rolls then AfterChange(past0, bid, t2, past0.clean) else past0;
    var start := StartFill(rolls, fill0, VideoSize(f));
    fill == Added(start, VideoSize(f), IdxSize(f)) && bid in base.uses && 0 <= f.ch < MAX_CHANNEL &&
    |base.uses[bid].t1| == |base.uses[bid].t2| == MAX_CHANNEL &&
    past == base.(uses := base.uses[bid := WithFrame(base.uses[bid], EntryAt(f, start.bktEnd), f.iframe)],
                  lastSec := f.ts.sec, clean := past.clean)
  }
}
