/** The backup of src/app_bskbackup.c, for one source basket: the search for the time
    window in the source index, and the loop that copies the selected records into a new
    basket and indexes it. */
module Backup {
  import opened Layout
  import opened Log
  import C = Claims
  import M = MinuteTable
  import R = Recorder
  import S = RdbSearch
  import T = Soundness

  // ---------------------------------------------------------------- the window

  predicate SelectedFrom(e: IdxEntry, chs: set<int>, t: int) {
    e.ch in chs && e.ts.sec >= t
  }

  /** The first entry from position `from` on that is selected, is not before t and, if
      that matters, is not at file position 0; |entries| if there is none. */
  function FirstAt(entries: seq<IdxEntry>, chs: set<int>, t: int, nonzero: bool, from: nat): (i: nat)
    requires from <= |entries|
    ensures from <= i <= |entries|
    ensures i < |entries| ==> SelectedFrom(entries[i], chs, t) && (nonzero ==> entries[i].fpos != 0)
    decreases |entries| - from
  {
    if from == |entries| || (SelectedFrom(entries[from], chs, t) && (nonzero ==> entries[from].fpos != 0)) then from
    else FirstAt(entries, chs, t, nonzero, from + 1)
  }

  lemma {:induction false} NoneBeforeFirst(entries: seq<IdxEntry>, chs: set<int>, t: int, nonzero: bool, from: nat, k: nat)
    requires from <= k < |entries| && k < FirstAt(entries, chs, t, nonzero, from)
    ensures !(SelectedFrom(entries[k], chs, t) && (nonzero ==> entries[k].fpos != 0))
    decreases k - from
  {
    if from < k {
      NoneBeforeFirst(entries, chs, t, nonzero, from + 1, k);
    }
  }

  /** Where the window starts; a position of 0 counts as not found. */
  function StartOf(entries: seq<IdxEntry>, chs: set<int>, t1: int): (i: nat)
    ensures i <= |entries|
  {
    FirstAt(entries, chs, t1, true, 0)
  }

  /** Where it ends, behind the start. */
  function EndOf(entries: seq<IdxEntry>, chs: set<int>, t1: int, t2: int): (j: nat)
    ensures j <= |entries| && (StartOf(entries, chs, t1) == |entries| ==> j == |entries|)
  {
    var i := StartOf(entries, chs, t1);
    if i == |entries| then i else FirstAt(entries, chs, t2, false, i + 1)
  }

  /** The window starts at the first entry of a wanted channel, not at file position 0, whose
      second is t1 or later, and ends at the first one behind that with second t2 or later. */
  lemma {:induction false} WindowIs(entries: seq<IdxEntry>, chs: set<int>, t1: int, t2: int)
    ensures var i, j := StartOf(entries, chs, t1), EndOf(entries, chs, t1, t2);
      (forall k :: 0 <= k < i ==> entries[k].ch !in chs || entries[k].ts.sec < t1 || entries[k].fpos == 0) &&
      (i < |entries| ==> entries[i].ch in chs && entries[i].ts.sec >= t1 && entries[i].fpos != 0 && i < j) &&
      (i == |entries| ==> j == |entries|) &&
      (forall k :: i < k < j ==> entries[k].ch !in chs || entries[k].ts.sec < t2) &&
      (j < |entries| ==> entries[j].ch in chs && entries[j].ts.sec >= t2)
  {
    hide FirstAt;
    var i, j := StartOf(entries, chs, t1), EndOf(entries, chs, t1, t2);
    forall k | 0 <= k < i
      ensures entries[k].ch !in chs || entries[k].ts.sec < t1 || entries[k].fpos == 0
    {
      NoneBeforeFirst(entries, chs, t1, true, 0, k);
    }
    forall k | i < k < j
      ensures entries[k].ch !in chs || entries[k].ts.sec < t2
    {
      NoneBeforeFirst(entries, chs, t2, false, i + 1, k);
    }
  }

  /** The search reads the whole index file, whatever its header counts. */
  method FindWindow(entries: seq<IdxEntry>, chs: set<int>, t1: int, t2: int) returns (cur: int, end: int)
    ensures var i := StartOf(entries, chs, t1); cur == if i == |entries| then 0 else entries[i].fpos
    ensures var j := EndOf(entries, chs, t1, t2); end == if j == |entries| then 0 else entries[j].fpos
  {
    cur, end := 0, 0;
    var k := 0;
    while k < |entries|
      invariant 0 <= k <= |entries| && end == 0
      invariant cur == 0 ==> StartOf(entries, chs, t1) == FirstAt(entries, chs, t1, true, k)
      invariant cur != 0 ==> var i := StartOf(entries, chs, t1); i < k && cur == entries[i].fpos
      invariant cur != 0 ==> EndOf(entries, chs, t1, t2) == FirstAt(entries, chs, t2, false, k)
    {
      var idd := entries[k];
      if idd.ch in chs {
        if cur != 0 {
          if idd.ts.sec >= t2 {
            end := idd.fpos;
            return;
          }
        } else if idd.ts.sec >= t1 {
          cur := idd.fpos;
        }
      }
      k := k + 1;
    }
  }

  // ---------------------------------------------------------------- the copy

  predicate Copied(r: Rec, chs: set<int>, t1: int) {
    r.hdr.ch in chs && r.hdr.ts.sec >= t1
  }

  /** The copied ones of the records from a up to b. */
  function Selection(log: seq<Rec>, a: nat, b: nat, chs: set<int>, t1: int): seq<Rec>
    requires b <= |log|
  {
    if b <= a then []
    else Selection(log, a, b - 1, chs, t1) + if Copied(log[b - 1], chs, t1) then [log[b - 1]] else []
  }

  /** Done: the end of the window was reached.  Next: the basket ended before it, and the
      next one is copied. */
  datatype Status = Done | Next | Failed

  /** The source basket holds the log, records a to b are in the window, the first of them
      is a selected I-frame, and none of them is an end marker.  The window ends at record b,
      or is open, and then b is an end marker that is selected itself. */
  ghost predicate Window(file: seq<byte>, log: seq<Rec>, a: nat, b: nat, chs: set<int>, t1: int, cur: int, end: int) {
    AllWellFormed(log) && Holds(file, log) && a < b < |log| && cur == Place(log, a) &&
    (end == Place(log, b) || (end > Place(log, b) && IsEnd(log[b]) && Copied(log[b], chs, t1))) &&
    IsIFrame(log[a]) && Copied(log[a], chs, t1) && forall k :: a <= k < b ==> !IsEnd(log[k])
  }

  /** The new basket's files, after the records before m. */
  ghost predicate Wrote(hdr: seq<byte>, w: seq<byte>, idx: seq<IdxEntry>, sel: seq<Rec>) {
    w == hdr + Bytes(sel) && idx == Index(sel)
  }

  /** Nothing has been written: only the basket header. */
  lemma WroteNothing(hdr: seq<byte>, log: seq<Rec>, a: nat, chs: set<int>, t1: int)
    requires a <= |log|
    ensures Wrote(hdr, hdr, [], Selection(log, a, a, chs, t1))
  {
  }

  /** One record more. */
  lemma {:induction false} WroteRecord(hdr: seq<byte>, w: seq<byte>, idx: seq<IdxEntry>, log: seq<Rec>, a: nat, m: nat, chs: set<int>, t1: int)
    requires |hdr| == BASKET_HDR && a <= m < |log| && AllWellFormed(log)
    requires Wrote(hdr, w, idx, Selection(log, a, m, chs, t1))
    ensures var r, sel' := log[m], Selection(log, a, m + 1, chs, t1);
      if !Copied(r, chs, t1) then Wrote(hdr, w, idx, sel')
      else Wrote(hdr, w + EncodeRec(r), if IsIFrame(r) then idx + [EntryFor(r, |w|)] else idx, sel')
  {
    hide Bytes, Index, TotalSize, EncodeRec;
    var sel, r := Selection(log, a, m, chs, t1), log[m];
    SelectionWellFormed(log, a, m, chs, t1);
    BytesLength(sel);
    Append(sel, r);
    AppendIndex(sel, r);
    assert hdr + Bytes(sel) + EncodeRec(r) == hdr + (Bytes(sel) + EncodeRec(r));
    assert sel + [] == sel;
  }

  lemma {:induction false} SelectionWellFormed(log: seq<Rec>, a: nat, b: nat, chs: set<int>, t1: int)
    requires b <= |log| && AllWellFormed(log)
    ensures AllWellFormed(Selection(log, a, b, chs, t1))
  {
    if a < b {
      SelectionWellFormed(log, a, b - 1, chs, t1);
    }
  }

  /** What the loop finds at record m. */
  lemma {:induction false} RecordInWindow(file: seq<byte>, log: seq<Rec>, m: nat)
    requires AllWellFormed(log) && Holds(file, log) && m < |log|
    ensures CanRead(file, Place(log, m), STREAM_HDR) && HdrAt(file, Place(log, m)) == log[m].hdr && Place(log, m) <= Place(log, m + 1) <= |file|
    ensures IsVideo(log[m]) || IsAudio(log[m]) || IsEnd(log[m])
    ensures file[Place(log, m)..Place(log, m + 1)] == EncodeRec(log[m])
    ensures var r, p := log[m], Place(log, m);
      !IsEnd(r) ==> Place(log, m + 1) == p + STREAM_HDR + (if IsVideo(r) then VSTREAM_HDR else ASTREAM_HDR) + r.hdr.framesize
  {
    hide Bytes, TotalSize, Holds, EncodeRec;
    ReadAtPlace(file, log, m);
    BytesAtPlace(file, log, m);
    assert WellFormed(log[m]);
  }

  // ---------------------------------------------------------------- the minutes of the copy

  /** idx_duration and prev_min, and the calls made so far to BACKUP_updateRDB.  Event types
      are not modelled. */
  datatype Marks = Marks(t1: seq<int>, t2: seq<int>, prevMin: seq<int>, claims: seq<M.Entry>)

  const NO_MARKS := Marks(seq(MAX_CHANNEL, _ => 0), seq(MAX_CHANNEL, _ => 0), seq(MAX_CHANNEL, _ => -1), [])

  predicate MarksFit(ms: Marks) {
    |ms.t1| == |ms.t2| == |ms.prevMin| == MAX_CHANNEL
  }

  /** What the loop does with the times after it has written a video frame; `pos` is where
      the index file ended before. */
  function Noted(ms: Marks, ch: int, sec: int, iframe: bool, bid: int, pos: int): (ms': Marks)
    requires MarksFit(ms) && 0 <= ch < MAX_CHANNEL
    ensures MarksFit(ms')
  {
    var t1 := if iframe && ms.t1[ch] == 0 then ms.t1[ch := sec] else ms.t1;
    var t2 := if iframe then ms.t2[ch := sec] else ms.t2;
    if t1[ch] != 0 && ms.prevMin[ch] != T.HourMinute(sec) && t2[ch] >= sec then
      Marks(t1, t2, ms.prevMin[ch := T.HourMinute(sec)], ms.claims + [M.Entry(ch, sec, 0, bid, pos)])
    else
      Marks(t1, t2, ms.prevMin, ms.claims)
  }

  /** All claims so far are right for an index, and every channel's minute of its last
      I-frame has been claimed. */
  ghost predicate MarksRight(ms: Marks, idx: seq<IdxEntry>, bid: int, sec: int) {
    MarksFit(ms) && M.RightEntries(map[bid := M.Use([], [], idx)], ms.claims) &&
    forall c :: 0 <= c < MAX_CHANNEL && ms.t1[c] != 0 ==> ms.t2[c] <= sec && ms.prevMin[c] == T.HourMinute(ms.t2[c])
  }

  lemma NoMarksRight(bid: int, sec: int)
    ensures MarksRight(NO_MARKS, [], bid, sec)
  {
  }

  /** A frame in time order.  Only an I-frame ever claims a minute: a later frame of the
      same second finds it claimed; so the position, taken before the entry is written,
      is that of the I-frame's own entry. */
  lemma NotedRight(ms: Marks, idx: seq<IdxEntry>, e: IdxEntry, bid: int, sec: int, iframe: bool)
    requires MarksRight(ms, idx, bid, sec) && sec <= e.ts.sec && 0 < e.ts.sec && 0 <= e.ch < MAX_CHANNEL && bid != 0
    ensures MarksRight(Noted(ms, e.ch, e.ts.sec, iframe, bid, IndexNumToPos(|idx|)), if iframe then idx + [e] else idx, bid, e.ts.sec)
  {
  }

  /** The entry that each I-frame of an index would have. */
  function Candidates(idx: seq<IdxEntry>, bid: int): (es: seq<M.Entry>)
    ensures |es| == |idx|
  {
    seq(|idx|, i requires 0 <= i < |idx| => M.Entry(idx[i].ch, idx[i].ts.sec, 0, bid, IndexNumToPos(i)))
  }

  lemma CandidatesStep(idx: seq<IdxEntry>, e: IdxEntry, bid: int)
    ensures Candidates(idx + [e], bid) == Candidates(idx, bid) + [M.Entry(e.ch, e.ts.sec, 0, bid, IndexNumToPos(|idx|))]
  {
  }

  /** The claims so far are those of the I-frames so far, and prev_min knows the last ones. */
  ghost predicate MarksQueue(ms: Marks, idx: seq<IdxEntry>, bid: int) {
    MarksFit(ms) && ms.claims == C.Queued(Candidates(idx, bid)) &&
    forall c :: 0 <= c < MAX_CHANNEL ==> ms.prevMin[c] == C.MarkOf(ms.claims, c)
  }

  lemma NoMarksQueue(bid: int)
    ensures MarksQueue(NO_MARKS, [], bid)
  {
  }

  /** Which frames claim a minute: an I-frame whose minute of the hour is not the channel's
      last, any time but 0 being a time; and another frame if an I-frame of its second, or a
      later one, is known. */
  lemma NotedClaimsIff(ms: Marks, ch: int, sec: int, iframe: bool, bid: int, pos: int)
    requires MarksFit(ms) && 0 <= ch < MAX_CHANNEL
    ensures var ms' := Noted(ms, ch, sec, iframe, bid, pos);
      var known := if iframe then sec != 0 || ms.t1[ch] != 0 else ms.t1[ch] != 0 && ms.t2[ch] >= sec;
      if known && ms.prevMin[ch] != sec / 60 % 60 then
        ms'.claims == ms.claims + [M.Entry(ch, sec, 0, bid, pos)] && ms'.prevMin == ms.prevMin[ch := sec / 60 % 60]
      else ms'.claims == ms.claims && ms'.prevMin == ms.prevMin
  {
  }

  /** A frame in time order claims its minute if it is an I-frame and its minute of the hour is
      not the one that its channel claimed last; then with its own entry. */
  lemma {:induction false} NotedQueues(ms: Marks, idx: seq<IdxEntry>, e: IdxEntry, bid: int, sec: int, iframe: bool)
    requires MarksQueue(ms, idx, bid) && MarksRight(ms, idx, bid, sec) && sec <= e.ts.sec && 0 < e.ts.sec && 0 <= e.ch < MAX_CHANNEL
    ensures MarksQueue(Noted(ms, e.ch, e.ts.sec, iframe, bid, IndexNumToPos(|idx|)), if iframe then idx + [e] else idx, bid)
  {
    hide C.Queued, C.MarkOf, C.Repeats;
    if iframe {
      var own := M.Entry(e.ch, e.ts.sec, 0, bid, IndexNumToPos(|idx|));
      CandidatesStep(idx, e, bid);
      C.QueuedStep(Candidates(idx, bid), own);
      forall c | 0 <= c < MAX_CHANNEL
        ensures C.Repeats(ms.claims, own) <==> C.MarkOf(ms.claims, own.ch) == own.sec / 60 % 60
        ensures C.MarkOf(ms.claims + [own], c) == if own.ch == c then own.sec / 60 % 60 else C.MarkOf(ms.claims, c)
      {
        C.MarkOfStep(ms.claims, own, c);
      }
    }
  }

  /** BACKUP_updateRDB. */
  method UpdateRdb(t: M.Table, e: M.Entry) returns (t': M.Table)
    requires M.IsTable(t) && M.EntryOk(e)
    ensures t' == Claimed(t, [e]) && M.IsTable(t') && C.CellTaken(t', e.ch, e.sec)
  {
    var d := S.DayOf(e.sec);
    var rdbs := M.DayFile(t, d);
    var offset := S.MINUTES * e.ch + S.MinuteOf(e.sec);
    if rdbs[offset].bid == 0 {
      rdbs := rdbs[offset := M.Cell(e.bid, e.pos, e.evt)];
    }
    // a file that did not exist has been created, and gets its first entry
    t' := t[d := rdbs];
    assert [e][..0] == [];
  }

  /** The copy's table after the calls. */
  function Claimed(t: M.Table, es: seq<M.Entry>): (t': M.Table)
    requires M.IsTable(t) && M.EntriesOk(es)
    ensures M.IsTable(t')
  {
    if es == [] then t
    else
      var t1, e := Claimed(t, es[..|es| - 1]), es[|es| - 1];
      t1[M.DayOfEntry(e) := M.Put(M.DayFile(t1, M.DayOfEntry(e)), e)]
  }

  /** A right table stays right, and keeps what it has. */
  lemma {:induction false} ClaimedIsRight(uses: map<int, M.Use>, t: M.Table, es: seq<M.Entry>)
    requires M.IsTable(t) && M.RightTable(uses, t) && M.RightEntries(uses, es)
    ensures M.EntriesOk(es) && M.RightTable(uses, Claimed(t, es)) && M.Keeps(t, Claimed(t, es), 0)
  {
    hide M.RightTable, M.Keeps, M.Put, M.DayFile;
    if es == [] {
      T.FlushKeeps(t);
    } else {
      var e := es[|es| - 1];
      assert M.RightEntry(uses, e);
      ClaimedIsRight(uses, t, es[..|es| - 1]);
      var t1 := Claimed(t, es[..|es| - 1]);
      M.FlushedIsRight(uses, t1, [e], M.DayOfEntry(e));
      PutOne(M.DayFile(t1, M.DayOfEntry(e)), e);
      T.KeepsOn(t, t1, Claimed(t, es), 0);
    }
  }

  /** After the calls the cell of every claim is taken; by the claim, if the cell was free and
      no claim of the same minute came first. */
  lemma {:induction false} ClaimedTakes(t: M.Table, es: seq<M.Entry>, k: nat)
    requires M.IsTable(t) && M.EntriesOk(es) && k < |es|
    ensures C.CellTaken(Claimed(t, es), es[k].ch, es[k].sec)
    ensures !C.CellTaken(t, es[k].ch, es[k].sec) && (forall j :: 0 <= j < k ==> !C.SameMinute(es[j], es[k])) ==>
      Claimed(t, es)[es[k].sec / 86400][1440 * es[k].ch + es[k].sec % 86400 / 60] == M.Cell(es[k].bid, es[k].pos, es[k].evt)
  {
    hide M.Put, S.DayOf, S.MinuteOf, C.SameMinute, M.DayFile, M.Offset, M.DayOfEntry;
    var n := |es| - 1;
    var t1, e := Claimed(t, es[..n]), es[n];
    C.PutTakes(DayBefore(t1, e), e);
    C.CellIs(e);
    if k < n {
      ClaimedTakes(t, es[..n], k);
      PutKeeps(t1, e, es[k].ch, es[k].sec);
    } else if !C.CellTaken(t, e.ch, e.sec) && (forall j :: 0 <= j < k ==> !C.SameMinute(es[j], es[k])) {
      ClaimedLeaves(t, es[..n], e);
      FreeBefore(t1, e);
    }
  }

  function DayBefore(t: M.Table, e: M.Entry): (day: seq<M.Cell>)
    requires M.IsTable(t)
    ensures |day| == M.SLOTS
  {
    M.DayFile(t, M.DayOfEntry(e))
  }

  lemma PutKeeps(t: M.Table, e: M.Entry, ch: int, sec: int)
    requires M.IsTable(t) && M.EntryOk(e) && C.CellTaken(t, ch, sec)
    ensures var t' := t[M.DayOfEntry(e) := M.Put(DayBefore(t, e), e)];
      C.CellTaken(t', ch, sec) && t'[sec / 86400][1440 * ch + sec % 86400 / 60] == t[sec / 86400][1440 * ch + sec % 86400 / 60]
  {
    hide M.Put, M.Offset;
    C.PutTakes(DayBefore(t, e), e);
  }

  lemma FreeBefore(t: M.Table, e: M.Entry)
    requires M.IsTable(t) && M.EntryOk(e) && !C.CellTaken(t, e.ch, e.sec)
    ensures DayBefore(t, e)[M.Offset(e)].bid == 0
  {
  }

  lemma {:induction false} ClaimedLeaves(t: M.Table, es: seq<M.Entry>, e: M.Entry)
    requires M.IsTable(t) && M.EntriesOk(es) && M.EntryOk(e) && !C.CellTaken(t, e.ch, e.sec)
    requires forall j :: 0 <= j < |es| ==> !C.SameMinute(es[j], e)
    ensures !C.CellTaken(Claimed(t, es), e.ch, e.sec)
  {
    if es != [] {
      var n := |es| - 1;
      ClaimedLeaves(t, es[..n], e);
      assert !C.SameMinute(es[n], e);
      C.OtherCell(es[n], e);
    }
  }

  /** Every minute of an I-frame that was copied is in the copy's table, unless its minute of
      the hour is the one that the channel had claimed last, in another hour. */
  lemma {:induction false} CopiedMinutesAreFound(t: M.Table, idx: seq<IdxEntry>, bid: int, k: nat)
    requires M.IsTable(t) && C.Ascending(Candidates(idx, bid)) && k < |idx| && bid != 0
    requires forall i :: 0 <= i < |idx| ==> 0 <= idx[i].ch < MAX_CHANNEL
    ensures M.EntriesOk(C.Queued(Candidates(idx, bid)))
    ensures !C.Missed(Candidates(idx, bid), k) ==>
      C.CellTaken(Claimed(t, C.Queued(Candidates(idx, bid))), idx[k].ch, idx[k].ts.sec)
  {
    hide Claimed, C.Queued, C.Missed, C.CellTaken;
    var es := Candidates(idx, bid);
    var q := C.Queued(es);
    forall i | 0 <= i < |q|
      ensures M.EntryOk(q[i])
    {
      C.QueuedFrom(es, i);
    }
    C.MissedIff(es, k);
    if !C.Missed(es, k) {
      var i :| 0 <= i < |q| && C.SameMinute(q[i], es[k]);
      ClaimedTakes(t, q, i);
      C.SameCell(q[i].sec, es[k].sec);
      C.CellOfMinute(Claimed(t, q), q[i].ch, q[i].sec, es[k].sec);
    }
  }

  lemma PutOne(day: seq<M.Cell>, e: M.Entry)
    requires |day| == M.SLOTS && M.EntryOk(e)
    ensures M.PutAll(day, [e]) == M.Put(day, e)
  {
  }

  // ---------------------------------------------------------------- the loop

  /** The copy loop.  `log`, `a` and `b` describe what is being copied, if `known`. */
  method CopyRecords(file: seq<byte>, cur: nat, end: int, chs: set<int>, t1: int, hdr: seq<byte>, bid: int,
      ghost known: bool, ghost log: seq<Rec>, ghost a: nat, ghost b: nat)
      returns (status: Status, w: seq<byte>, idx: seq<IdxEntry>, ms: Marks)
    requires |hdr| == BASKET_HDR && (known ==> Window(file, log, a, b, chs, t1, cur, end))
    requires bid != 0 && forall c :: c in chs ==> 0 <= c < MAX_CHANNEL
    ensures known ==> status == (if end == Place(log, b) then Done else Next) && Wrote(hdr, w, idx, Selection(log, a, b, chs, t1))
    ensures known && TimesAscend(log, a, b) && t1 > 0 ==> M.RightEntries(map[bid := M.Use([], [], idx)], ms.claims)
    ensures known && TimesAscend(log, a, b) && t1 > 0 ==> ms.claims == C.Queued(Candidates(idx, bid)) && C.Ascending(Candidates(idx, bid))
  {
    hide Bytes, Index, TotalSize, Holds, EncodeRec, WellFormed, DecodeHdr, Selection, Wrote, MarksRight, MarksQueue, Noted;
    hide Candidates, C.Queued, C.Ascending;
    var pos, firstIFrame := cur, false;
    w, idx, ms := hdr, [], NO_MARKS;
    ghost var m := a;
    ghost var timely := known && TimesAscend(log, a, b) && t1 > 0;
    NoMarksRight(bid, SecBefore(log, a, a));
    NoMarksQueue(bid);
    if known {
      WroteNothing(hdr, log, a, chs, t1);
    }
    while true
      invariant known ==> a <= m <= b && pos == Place(log, m) && (firstIFrame <==> m > a)
      invariant known ==> Wrote(hdr, w, idx, Selection(log, a, m, chs, t1))
      invariant MarksFit(ms) && (timely ==> MarksRight(ms, idx, bid, SecBefore(log, a, m)) && MarksQueue(ms, idx, bid))
      decreases |file| - pos
    {
      if known {
        RecordInWindow(file, log, m);
        PlacesIncrease(log, m, b);
        WroteRecord(hdr, w, idx, log, a, m, chs, t1);
      }
      if timely {
        RightSoFar(ms, idx, bid, SecBefore(log, a, m));
        QueuedSoFar(hdr, w, ms, idx, bid, log, a, m, b, chs, t1);
      }
      if !CanRead(file, pos, STREAM_HDR) {
        return Next, w, idx, ms;
      }
      var shd := HdrAt(file, pos);
      if pos >= end {
        return Done, w, idx, ms;
      }
      var next := pos + STREAM_HDR;
      if shd.ch in chs && shd.ts.sec >= t1 {
        if shd.id != ID_VIDEO && shd.id != ID_AUDIO {
          return Next, w, idx, ms;
        }
        var subSize := if shd.id == ID_VIDEO then VSTREAM_HDR else ASTREAM_HDR;
        if !CanRead(file, next, subSize) {
          return Failed, w, idx, ms;
        }
        next := next + subSize;
        if shd.id == ID_VIDEO && shd.frametype == FT_IFRAME {
          firstIFrame := true;
        }
        if firstIFrame {
          if !CanRead(file, next, shd.framesize) {
            return Failed, w, idx, ms;
          }
          var idd := IdxEntry(ID_INDEX, shd.ts, |w|, shd.ch, []);
          w := w + file[pos..next + shd.framesize];
          if shd.id == ID_VIDEO {
            if timely {
              NotedRight(ms, idx, idd, bid, SecBefore(log, a, m), shd.frametype == FT_IFRAME);
              NotedQueues(ms, idx, idd, bid, SecBefore(log, a, m), shd.frametype == FT_IFRAME);
            }
            ms := Noted(ms, shd.ch, shd.ts.sec, shd.frametype == FT_IFRAME, bid, IndexNumToPos(|idx|));
            if shd.frametype == FT_IFRAME {
              idx := idx + [idd];
            }
          }
        }
        next := next + shd.framesize;
      } else {
        next := next + shd.framesize + if shd.id == ID_VIDEO then VSTREAM_HDR else ASTREAM_HDR;
      }
      if timely {
        MarksRightOn(ms, idx, bid, log, a, m);
      }
      pos := next;
      m := m + 1;
    }
  }

  /** The records from a to b are in the order of their seconds. */
  ghost predicate TimesAscend(log: seq<Rec>, a: nat, b: nat) {
    forall k, k' :: a <= k < k' < b && k' < |log| ==> log[k].hdr.ts.sec <= log[k'].hdr.ts.sec
  }

  /** The second of the record before m, or of the first one. */
  function SecBefore(log: seq<Rec>, a: nat, m: nat): int {
    if a < m <= |log| then log[m - 1].hdr.ts.sec else if a < |log| then log[a].hdr.ts.sec else 0
  }

  lemma RightSoFar(ms: Marks, idx: seq<IdxEntry>, bid: int, sec: int)
    requires MarksRight(ms, idx, bid, sec)
    ensures M.RightEntries(map[bid := M.Use([], [], idx)], ms.claims)
  {
  }

  /** The I-frames of the selection are in the order of their times. */
  lemma {:induction false} SelectedAscend(log: seq<Rec>, a: nat, m: nat, b: nat, chs: set<int>, t1: int, bid: int)
    requires a <= m <= b <= |log| && TimesAscend(log, a, b)
    ensures var es := Candidates(Index(Selection(log, a, m, chs, t1)), bid);
      C.Ascending(es) && forall i :: 0 <= i < |es| ==> a < m && es[i].sec <= log[m - 1].hdr.ts.sec
    decreases m
  {
    hide Index, TotalSize;
    EmptyIndex();
    if a < m {
      var sel, r := Selection(log, a, m - 1, chs, t1), log[m - 1];
      SelectedAscend(log, a, m - 1, b, chs, t1, bid);
      AppendIndex(sel, r);
      assert sel + [] == sel && Index(sel) + [] == Index(sel);
      assert a < m - 1 ==> log[m - 2].hdr.ts.sec <= r.hdr.ts.sec;
      CandidatesStep(Index(sel), EntryFor(r, End(sel)), bid);
    }
  }

  lemma EmptyIndex()
    ensures Index([]) == []
  {
  }

  lemma {:induction false} QueuedSoFar(hdr: seq<byte>, w: seq<byte>, ms: Marks, idx: seq<IdxEntry>, bid: int,
      log: seq<Rec>, a: nat, m: nat, b: nat, chs: set<int>, t1: int)
    requires a <= m <= b <= |log| && TimesAscend(log, a, b) && MarksQueue(ms, idx, bid) && Wrote(hdr, w, idx, Selection(log, a, m, chs, t1))
    ensures ms.claims == C.Queued(Candidates(idx, bid)) && C.Ascending(Candidates(idx, bid))
  {
    hide Selection, Index, Candidates, Bytes, C.Queued;
    SelectedAscend(log, a, m, b, chs, t1, bid);
  }

  /** Whether record m was noted or not, nothing is later than it now. */
  lemma MarksRightOn(ms: Marks, idx: seq<IdxEntry>, bid: int, log: seq<Rec>, a: nat, m: nat)
    requires a <= m < |log|
    requires MarksRight(ms, idx, bid, log[m].hdr.ts.sec) ||
      (MarksRight(ms, idx, bid, SecBefore(log, a, m)) && SecBefore(log, a, m) <= log[m].hdr.ts.sec)
    ensures MarksRight(ms, idx, bid, SecBefore(log, a, m + 1))
  {
  }

  /** The index of a closed basket gives both ends of the window, and no end marker of a
      failed change of baskets lies between them. */
  ghost predicate BothEnds(f: R.BasketFile, log: seq<Rec>, chs: set<int>, t1: int, t2: int) {
    R.ClosedAs(f, log) &&
    var i, j := StartOf(f.idx, chs, t1), EndOf(f.idx, chs, t1, t2);
    j < f.count && forall k :: Which(log, i) <= k < Which(log, j) ==> !IsEnd(log[k])
  }

  /** The first end marker from record i on; |log| if there is none. */
  function FirstEnd(log: seq<Rec>, i: nat): (b: nat)
    requires i <= |log|
    ensures i <= b <= |log| && (b < |log| ==> IsEnd(log[b]))
    ensures forall k :: i <= k < b ==> !IsEnd(log[k])
    decreases |log| - i
  {
    if i == |log| || IsEnd(log[i]) then i else FirstEnd(log, i + 1)
  }

  /** The index of a closed basket gives the start of the window but no end, and the end
      marker of the basket carries a selected channel and no time before t1, as it does when
      the frame that did not fit was one to be copied. */
  ghost predicate OpenEnd(f: R.BasketFile, log: seq<Rec>, chs: set<int>, t1: int, t2: int) {
    R.ClosedAs(f, log) &&
    var i := StartOf(f.idx, chs, t1);
    i < f.count && EndOf(f.idx, chs, t1, t2) == |f.idx| &&
    var b := FirstEnd(log, Which(log, i));
    b < |log| && Copied(log[b], chs, t1)
  }

  /** The record that the copy ends at. */
  ghost function LastRecord(f: R.BasketFile, log: seq<Rec>, chs: set<int>, t1: int, t2: int): (b: nat)
    requires BothEnds(f, log, chs, t1, t2) || OpenEnd(f, log, chs, t1, t2)
    ensures b <= |log|
  {
    if BothEnds(f, log, chs, t1, t2) then Which(log, EndOf(f.idx, chs, t1, t2))
    else FirstEnd(log, Which(log, StartOf(f.idx, chs, t1)))
  }

  /** The records of the window that are copied. */
  ghost function Chosen(f: R.BasketFile, log: seq<Rec>, chs: set<int>, t1: int, t2: int): seq<Rec>
    requires BothEnds(f, log, chs, t1, t2) || OpenEnd(f, log, chs, t1, t2)
  {
    Selection(log, Which(log, StartOf(f.idx, chs, t1)), LastRecord(f, log, chs, t1, t2), chs, t1)
  }

  /** The records of the window are in the order of their times, which are times. */
  ghost predicate InTime(f: R.BasketFile, log: seq<Rec>, chs: set<int>, t1: int, t2: int)
    requires BothEnds(f, log, chs, t1, t2) || OpenEnd(f, log, chs, t1, t2)
  {
    t1 > 0 && TimesAscend(log, Which(log, StartOf(f.idx, chs, t1)), LastRecord(f, log, chs, t1, t2))
  }

  lemma HeaderThere(f: R.BasketFile, log: seq<Rec>)
    ensures R.ClosedAs(f, log) ==> |f.bkt| >= BASKET_HDR
  {
  }

  /** The window that the search found in a closed basket is one of its records. */
  lemma {:induction false} WindowFound(f: R.BasketFile, log: seq<Rec>, chs: set<int>, t1: int, t2: int)
    requires BothEnds(f, log, chs, t1, t2)
    ensures var i, j := StartOf(f.idx, chs, t1), EndOf(f.idx, chs, t1, t2);
      i < j < |f.idx| && Window(f.bkt, log, Which(log, i), Which(log, j), chs, t1, f.idx[i].fpos, f.idx[j].fpos) &&
      f.idx[j].fpos == Place(log, Which(log, j))
  {
    hide Bytes, Index, TotalSize, Holds, WellFormed, Which;
    var n := |Index(log)|;
    var i, j := StartOf(f.idx, chs, t1), EndOf(f.idx, chs, t1, t2);
    WhichPointsAt(log, i);
    WhichPointsAt(log, j);
    assert f.idx[i] == f.idx[..n][i] == Index(log)[i];
    assert f.idx[j] == f.idx[..n][j] == Index(log)[j];
    var a, b := Which(log, i), Which(log, j);
    if b <= a {
      assert log[..b] + log[b..a] == log[..a];
      IndexOfPrefix(log[..b], log[b..a]);
    }
  }

  /** Without an end the window goes on to the end of the file, and so past the marker. */
  lemma {:induction false} OpenWindowFound(f: R.BasketFile, log: seq<Rec>, chs: set<int>, t1: int, t2: int)
    requires OpenEnd(f, log, chs, t1, t2)
    ensures var i := StartOf(f.idx, chs, t1);
      i < |f.idx| && Window(f.bkt, log, Which(log, i), FirstEnd(log, Which(log, i)), chs, t1, f.idx[i].fpos, |f.bkt|) &&
      |f.bkt| > Place(log, FirstEnd(log, Which(log, i)))
  {
    hide Bytes, Index, TotalSize, WellFormed, Which;
    var n := |Index(log)|;
    var i := StartOf(f.idx, chs, t1);
    WhichPointsAt(log, i);
    assert f.idx[i] == f.idx[..n][i] == Index(log)[i];
    var b := FirstEnd(log, Which(log, i));
    PlacesIncrease(log, b, |log|);
    PlaceEnd(log);
  }

  /** One basket: window, then copy.  When the index of a closed basket gives both ends of
      the window, or the end marker takes the place of the second, the copy is a basket that
      holds exactly the selected records of the window, in order and unchanged, and whose
      index is right. */
  method BackUpBasket(f: R.BasketFile, chs: set<int>, t1: int, t2: int, hdr: seq<byte>, bid: int, ghost log: seq<Rec>)
      returns (status: Status, copy: R.BasketFile, ms: Marks)
    requires bid != 0 && |hdr| == BASKET_HDR && forall c :: c in chs ==> 0 <= c < MAX_CHANNEL
    ensures StartOf(f.idx, chs, t1) == |f.idx| ==> status == Failed
    ensures BothEnds(f, log, chs, t1, t2) ==> status == Done
    ensures OpenEnd(f, log, chs, t1, t2) ==> status == Next
    ensures BothEnds(f, log, chs, t1, t2) || OpenEnd(f, log, chs, t1, t2) ==> R.ClosedAs(copy, Chosen(f, log, chs, t1, t2))
    ensures BothEnds(f, log, chs, t1, t2) || OpenEnd(f, log, chs, t1, t2) ==> copy.bkt == hdr + Bytes(Chosen(f, log, chs, t1, t2))
    ensures (BothEnds(f, log, chs, t1, t2) || OpenEnd(f, log, chs, t1, t2)) && InTime(f, log, chs, t1, t2) ==>
      M.RightEntries(map[bid := M.Use([], [], copy.idx)], ms.claims)
    ensures (BothEnds(f, log, chs, t1, t2) || OpenEnd(f, log, chs, t1, t2)) && InTime(f, log, chs, t1, t2) ==>
      ms.claims == C.Queued(Candidates(copy.idx, bid)) && C.Ascending(Candidates(copy.idx, bid))
  {
    hide Bytes, Index, TotalSize, Holds, WellFormed, Which, Selection, StartOf, EndOf, FirstEnd, Candidates, C.Queued, C.Ascending;
    status, copy, ms := Failed, R.BasketFile([], [], 0), NO_MARKS;
    ghost var closed, opens := BothEnds(f, log, chs, t1, t2), OpenEnd(f, log, chs, t1, t2);
    ghost var known, a, b := closed || opens, 0, 0;
    HeaderThere(f, log);
    if known {
      if closed {
        WindowFound(f, log, chs, t1, t2);
      } else {
        OpenWindowFound(f, log, chs, t1, t2);
      }
      a, b := Which(log, StartOf(f.idx, chs, t1)), LastRecord(f, log, chs, t1, t2);
    }
    var cur, end := FindWindow(f.idx, chs, t1, t2);
    if cur == 0 && end == 0 {
      return;
    }
    if cur != 0 && end == 0 {
      end := |f.bkt|;
    }
    if |f.bkt| < BASKET_HDR || cur < 0 {
      // the header cannot be read, or the position cannot be sought
      return;
    }
    var w, idx;
    status, w, idx, ms := CopyRecords(f.bkt, cur, end, chs, t1, hdr, bid, known, log, a, b);
    copy := R.BasketFile(w, idx, |idx|);
    if known {
      CopyIsBasket(hdr, copy, log, a, b, chs, t1);
    }
  }

  lemma {:induction false} CopyIsBasket(hdr: seq<byte>, copy: R.BasketFile, log: seq<Rec>, a: nat, b: nat, chs: set<int>, t1: int)
    requires |hdr| == BASKET_HDR && b <= |log| && AllWellFormed(log) && copy.count == |copy.idx|
    requires Wrote(hdr, copy.bkt, copy.idx, Selection(log, a, b, chs, t1))
    ensures R.ClosedAs(copy, Selection(log, a, b, chs, t1)) && copy.bkt == hdr + Bytes(Selection(log, a, b, chs, t1))
  {
    hide Bytes, Index, TotalSize, WellFormed;
    var sel := Selection(log, a, b, chs, t1);
    SelectionWellFormed(log, a, b, chs, t1);
    BytesLength(sel);
    assert copy.idx[..copy.count] == copy.idx;
  }

  /** What the selection is: record k of the log is in it, behind the copied ones before
      it, if and only if it is copied. */
  lemma {:induction false} SelectionAt(log: seq<Rec>, a: nat, b: nat, chs: set<int>, t1: int, k: nat)
    requires a <= k < b <= |log| && Copied(log[k], chs, t1)
    ensures var n := |Selection(log, a, k, chs, t1)|;
      n < |Selection(log, a, b, chs, t1)| && Selection(log, a, b, chs, t1)[n] == log[k]
  {
    if k < b - 1 {
      SelectionAt(log, a, b - 1, chs, t1, k);
    }
  }

  // ---------------------------------------------------------------- back-links of the copy

  /** Every record of a basket links to the record before it. */
  ghost predicate LinksBack(log: seq<Rec>) {
    forall k :: 0 < k < |log| ==> log[k].hdr.prevFpos == Place(log, k - 1)
  }

  lemma {:induction false} SelectionSize(log: seq<Rec>, a: nat, b: nat, chs: set<int>, t1: int)
    requires a <= b <= |log|
    ensures TotalSize(Selection(log, a, b, chs, t1)) <= TotalSize(log[..b])
    ensures TotalSize(Selection(log, a, b, chs, t1)) == TotalSize(log[..b]) <==>
      a == 0 && Selection(log, a, b, chs, t1) == log[..b]
    decreases b
  {
    hide TotalSize, RecSize, Selection;
    SelectionStep(log, a, b, chs, t1);
    if a < b {
      SelectionSize(log, a, b - 1, chs, t1);
      var sel, r := Selection(log, a, b - 1, chs, t1), log[b - 1];
      assert log[..b] == log[..b - 1] + [r];
      Append(log[..b - 1], r);
      Append(sel, r);
      SizePositive(r);
      if Copied(r, chs, t1) {
        SnocEqual(sel, log[..b - 1], r);
      } else {
        SelectionShort(log, a, b - 1, chs, t1);
      }
    } else {
      PlacesIncrease(log, 0, a);
      EmptySize();
      assert log[..0] == [];
    }
  }

  lemma SelectionStep(log: seq<Rec>, a: nat, b: nat, chs: set<int>, t1: int)
    requires b <= |log|
    ensures b <= a ==> Selection(log, a, b, chs, t1) == []
    ensures a < b && Copied(log[b - 1], chs, t1) ==>
      Selection(log, a, b, chs, t1) == Selection(log, a, b - 1, chs, t1) + [log[b - 1]]
    ensures a < b && !Copied(log[b - 1], chs, t1) ==> Selection(log, a, b, chs, t1) == Selection(log, a, b - 1, chs, t1)
  {
  }

  lemma {:induction false} SnocEqual<T>(x: seq<T>, y: seq<T>, z: T)
    ensures x + [z] == y + [z] <==> x == y
  {
    if x + [z] == y + [z] {
      assert x == (x + [z])[..|x|] && y == (y + [z])[..|y|];
    }
  }

  lemma EmptySize()
    ensures TotalSize([]) == 0
  {
  }

  lemma SizePositive(r: Rec)
    ensures RecSize(r) > 0
  {
  }

  lemma {:induction false} SelectionShort(log: seq<Rec>, a: nat, b: nat, chs: set<int>, t1: int)
    requires a <= b <= |log|
    ensures |Selection(log, a, b, chs, t1)| <= b - a
    decreases b
  {
    if a < b {
      SelectionShort(log, a, b - 1, chs, t1);
    }
  }

  lemma {:induction false} LastCopied(log: seq<Rec>, a: nat, b: nat, chs: set<int>, t1: int) returns (q: nat)
    requires b <= |log| && Selection(log, a, b, chs, t1) != []
    ensures a <= q < b && Copied(log[q], chs, t1)
    ensures Selection(log, a, b, chs, t1) == Selection(log, a, q, chs, t1) + [log[q]]
    decreases b
  {
    hide Selection;
    SelectionStep(log, a, b, chs, t1);
    if Copied(log[b - 1], chs, t1) {
      q := b - 1;
    } else {
      q := LastCopied(log, a, b - 1, chs, t1);
    }
  }

  /** The headers are copied as they are, so the back-links of the copy are those of the
      source.  They are right in the copy if and only if it holds at most one record, or
      starts with the source's first record and leaves none out before its last. */
  lemma {:induction false} CopyLinksBackIff(log: seq<Rec>, a: nat, b: nat, chs: set<int>, t1: int)
    requires a <= b <= |log| && LinksBack(log[..b])
    ensures var sel := Selection(log, a, b, chs, t1);
      LinksBack(sel) <==> |sel| <= 1 || (a == 0 && sel <= log)
  {
    hide TotalSize, Selection;
    var sel := Selection(log, a, b, chs, t1);
    SelectionShort(log, a, b, chs, t1);
    if |sel| > 1 {
      if LinksBack(sel) {
        LinkedCopyIsPrefix(log, a, b, chs, t1);
      }
      if sel <= log {
        forall k | 0 < k < |sel|
          ensures sel[k].hdr.prevFpos == Place(sel, k - 1)
        {
          LinkOfPrefix(log, b, k);
          assert sel[..k - 1] == log[..k - 1];
        }
      }
    }
  }

  lemma {:induction false} LinkOfPrefix(log: seq<Rec>, b: nat, k: nat)
    requires b <= |log| && LinksBack(log[..b]) && 0 < k < b
    ensures log[k].hdr.prevFpos == Place(log, k - 1)
  {
    hide TotalSize;
    assert log[..b][k] == log[k];
    assert log[..b][..k - 1] == log[..k - 1];
  }

  lemma {:induction false} LinkedCopyIsPrefix(log: seq<Rec>, a: nat, b: nat, chs: set<int>, t1: int)
    requires a <= b <= |log| && LinksBack(log[..b])
    requires var sel := Selection(log, a, b, chs, t1); |sel| > 1 && LinksBack(sel)
    ensures a == 0 && Selection(log, a, b, chs, t1) <= log
  {
    hide TotalSize, Selection;
    var sel := Selection(log, a, b, chs, t1);
    var q := LastCopied(log, a, b, chs, t1);
    var r := LastCopied(log, a, q, chs, t1);
    var k, front := |sel| - 1, Selection(log, a, r, chs, t1);
    assert sel[..k - 1] == front && sel[k] == log[q];
    LinkOfPrefix(log, b, q);
    assert Place(log, q - 1) == Place(sel, k - 1);
    SelectionSize(log, a, r, chs, t1);
    PlacesIncrease(log, r, q - 1);
    assert r == q - 1 && a == 0 && front == log[..r];
    assert log[..q + 1] == log[..r] + [log[r]] + [log[q]];
  }

  /** Two channels in turn, of which one is copied: its second record links to where the
      other channel's record was. */
  lemma {:induction false} CopyOfOneChannelLinksWrong(log: seq<Rec>, first: Rec, other: Rec, last: Rec)
    requires log == [first, other, last] && RecSize(first) > 0
    requires first.hdr.ch == 0 && other.hdr.ch == 1 && last.hdr.ch == 0 && first.hdr.ts.sec == other.hdr.ts.sec == last.hdr.ts.sec == 1
    requires other.hdr.prevFpos == BASKET_HDR && last.hdr.prevFpos == BASKET_HDR + RecSize(first)
    ensures LinksBack(log[..3]) && Selection(log, 0, 3, {0}, 1) == [first, last] && !LinksBack(Selection(log, 0, 3, {0}, 1))
  {
    assert log[..3] == log && log[..0] == [] && log[..1] == [first];
    assert [first][..0] == [] && [first, last][..0] == [];
    SelectionStep(log, 0, 3, {0}, 1);
    SelectionStep(log, 0, 2, {0}, 1);
    SelectionStep(log, 0, 1, {0}, 1);
    SelectionStep(log, 0, 0, {0}, 1);
    assert [] + [first] + [last] == [first, last];
    assert [first, last][1].hdr.prevFpos != Place([first, last], 0);
  }
}
