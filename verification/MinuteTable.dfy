/** The minute table ("RDB") as the recorder keeps it (src/basket_rec.c): for every day,
    channel and minute, the basket that recorded it first and the position of an index
    entry there.  A day's file also holds event types; they are kept in the same cell. */
module MinuteTable {
  import opened Layout
  import S = RdbSearch

  const SLOTS := S.MINUTES * S.CHANNELS

  datatype Cell = Cell(bid: int, pos: int, evt: int)

  const NOTHING := Cell(0, 0, 0)

  /** T_BASKET_RDB_PARAM: what waits in r_buf to be put into the table. */
  datatype Entry = Entry(ch: int, sec: int, evt: int, bid: int, pos: int)

  type Table = map<int, seq<Cell>>

  ghost predicate IsTable(t: Table) {
    forall d :: d in t ==> |t[d]| == SLOTS
  }

  predicate EntryOk(e: Entry) {
    0 <= e.ch < S.CHANNELS && e.bid != 0
  }

  predicate EntriesOk(es: seq<Entry>) {
    forall k :: 0 <= k < |es| ==> EntryOk(es[k])
  }

  function DayOfEntry(e: Entry): int { S.DayOf(e.sec) }

  function Offset(e: Entry): (i: int)
    requires EntryOk(e)
    ensures 0 <= i < SLOTS
  {
    S.MINUTES * e.ch + S.MinuteOf(e.sec)
  }

  // ---------------------------------------------------------------- putting entries

  /** The first basket to claim a minute keeps it. */
  function Put(day: seq<Cell>, e: Entry): (r: seq<Cell>)
    requires |day| == SLOTS && EntryOk(e)
    ensures |r| == SLOTS
  {
    if day[Offset(e)].bid == 0 then day[Offset(e) := Cell(e.bid, e.pos, e.evt)] else day
  }

  function PutAll(day: seq<Cell>, es: seq<Entry>): (r: seq<Cell>)
    requires |day| == SLOTS && EntriesOk(es)
    ensures |r| == SLOTS
  {
    if es == [] then day else Put(PutAll(day, es[..|es| - 1]), es[|es| - 1])
  }

  /** Entry k is the first of es for cell i. */
  predicate FirstFor(es: seq<Entry>, k: int, i: int)
    requires EntriesOk(es)
  {
    0 <= k < |es| && Offset(es[k]) == i && forall j :: 0 <= j < k ==> Offset(es[j]) != i
  }

  /** A cell that was taken stays as it was; a free one gets the first entry for it, if
      there is one. */
  lemma {:induction false} PutAllAt(day: seq<Cell>, es: seq<Entry>, i: int)
    requires |day| == SLOTS && EntriesOk(es) && 0 <= i < SLOTS
    ensures day[i].bid != 0 ==> PutAll(day, es)[i] == day[i]
    ensures day[i].bid == 0 && (forall k :: 0 <= k < |es| ==> Offset(es[k]) != i) ==> PutAll(day, es)[i] == day[i]
    ensures forall k :: day[i].bid == 0 && FirstFor(es, k, i) ==> PutAll(day, es)[i] == Cell(es[k].bid, es[k].pos, es[k].evt)
  {
    if es != [] {
      var n := |es| - 1;
      PutAllAt(day, es[..n], i);
      forall k | day[i].bid == 0 && FirstFor(es, k, i)
        ensures PutAll(day, es)[i] == Cell(es[k].bid, es[k].pos, es[k].evt)
      {
        if k < n {
          assert FirstFor(es[..n], k, i);
        } else {
          assert forall j :: 0 <= j < n ==> Offset(es[..n][j]) != i;
        }
      }
    }
  }

  /** A cell that names a basket after the entries were put did so before, or got it
      from the first entry for it. */
  lemma {:induction false} PutAllFrom(day: seq<Cell>, es: seq<Entry>, i: int) returns (k: int)
    requires |day| == SLOTS && EntriesOk(es) && 0 <= i < SLOTS && PutAll(day, es)[i] != day[i]
    ensures day[i].bid == 0 && FirstFor(es, k, i) && PutAll(day, es)[i] == Cell(es[k].bid, es[k].pos, es[k].evt)
  {
    var n := |es| - 1;
    if PutAll(day, es[..n])[i] != day[i] {
      k := PutAllFrom(day, es[..n], i);
    } else {
      PutAllAt(day, es[..n], i);
      k := n;
      forall j | 0 <= j < n
        ensures Offset(es[j]) != i
      {
        if Offset(es[j]) == i {
          NotFreeAfter(day, es[..n], j, i);
        }
      }
    }
  }

  lemma {:induction false} NotFreeAfter(day: seq<Cell>, es: seq<Entry>, j: int, i: int)
    requires |day| == SLOTS && EntriesOk(es) && 0 <= j < |es| && Offset(es[j]) == i
    ensures PutAll(day, es)[i].bid != 0
  {
    var n := |es| - 1;
    if j < n {
      NotFreeAfter(day, es[..n], j, i);
    }
  }

  /** The file of a day; one that does not exist yet is created empty. */
  function DayFile(t: Table, d: int): (f: seq<Cell>)
    requires d in t ==> |t[d]| == SLOTS
    ensures |f| == SLOTS
  {
    if d in t then t[d] else seq(SLOTS, _ => NOTHING)
  }

  /** How many entries come before the first one under another day of the month. */
  function RunLength(es: seq<Entry>, mday: int -> int): (n: nat)
    requires es != []
    ensures 0 < n <= |es|
  {
    var before := es[..|es| - 1];
    if before == [] then 1
    else if RunLength(before, mday) < |before| || mday(DayOfEntry(es[|es| - 1])) != mday(DayOfEntry(es[0])) then RunLength(before, mday)
    else |es|
  }

  lemma {:induction false} RunIs(es: seq<Entry>, mday: int -> int)
    requires es != []
    ensures var n := RunLength(es, mday);
      (forall k :: 0 <= k < n ==> mday(DayOfEntry(es[k])) == mday(DayOfEntry(es[0]))) &&
      (n < |es| ==> mday(DayOfEntry(es[n])) != mday(DayOfEntry(es[0])))
  {
    var before := es[..|es| - 1];
    if before != [] {
      RunIs(before, mday);
      var n := RunLength(before, mday);
      assert before[0] == es[0] && (n < |before| ==> before[n] == es[n]);
      forall k | 0 <= k < RunLength(es, mday)
        ensures mday(DayOfEntry(es[k])) == mday(DayOfEntry(es[0]))
      {
        assert k < |before| ==> before[k] == es[k];
      }
    }
  }

  lemma {:induction false} RunIsOnly(es: seq<Entry>, mday: int -> int, n: nat)
    requires 0 < n <= |es| && forall k :: 0 <= k < n ==> mday(DayOfEntry(es[k])) == mday(DayOfEntry(es[0]))
    requires n < |es| ==> mday(DayOfEntry(es[n])) != mday(DayOfEntry(es[0]))
    ensures RunLength(es, mday) == n
  {
    RunIs(es, mday);
  }

  /** BKTREC_Flush_RDBDATA, all of whose reads and writes succeed: one day's entries go
      into that day's file, the others stay in the buffer. */
  method FlushRun(t: Table, rBuf: seq<Entry>, mday: int -> int) returns (t': Table, rest: seq<Entry>)
    requires IsTable(t) && EntriesOk(rBuf) && rBuf != []
    ensures rest == rBuf[RunLength(rBuf, mday)..]
    ensures var d := DayOfEntry(rBuf[0]); t' == t[d := PutAll(DayFile(t, d), rBuf[..RunLength(rBuf, mday)])]
  {
    var day := DayOfEntry(rBuf[0]);
    var prevDay := mday(day);
    var file := DayFile(t, day);
    var rdbs := new Cell[SLOTS](i requires 0 <= i < SLOTS => file[i]);
    assert rdbs[..] == file;
    var update := 0;
    var i := 0;
    while i < |rBuf|
      invariant 0 <= i <= |rBuf| && (i == 0 ==> prevDay == mday(DayOfEntry(rBuf[0])))
      invariant forall k :: 0 <= k < i ==> mday(DayOfEntry(rBuf[k])) == prevDay
      invariant rdbs[..] == PutAll(file, rBuf[..i])
      invariant update == 0 ==> rdbs[..] == file && (day in t || i == 0)
    {
      var prm := rBuf[i];
      if prevDay != mday(DayOfEntry(prm)) {
        break;
      }
      var offset := S.MINUTES * prm.ch + S.MinuteOf(prm.sec);
      assert offset == Offset(prm);
      assert rBuf[..i + 1][..i] == rBuf[..i];
      if rdbs[offset].bid == 0 {
        rdbs[offset] := Cell(prm.bid, prm.pos, prm.evt);
        update := update + 1;
      }
      i := i + 1;
    }
    RunIsOnly(rBuf, mday, i);
    rest := rBuf[i..];
    t' := if update != 0 then t[day := rdbs[..]] else t;
  }

  // ---------------------------------------------------------------- removing a basket

  function Cleared(day: seq<Cell>, b: int): (r: seq<Cell>)
    ensures |r| == |day|
  {
    seq(|day|, i requires 0 <= i < |day| => if day[i].bid == b then NOTHING else day[i])
  }

  /** What is left of the table: no earlier day, and on the given day nothing of b. */
  ghost function Removed(t: Table, b: int, sec: int): Table {
    map d | d in t && d >= S.DayOf(sec) :: if d == S.DayOf(sec) then Cleared(t[d], b) else t[d]
  }

  /** The file loop of BKTREC_removeRDB, two minutes a turn, on the day's cells. */
  method ClearDay(file: seq<Cell>, rmbid: int) returns (file': seq<Cell>)
    requires |file| == SLOTS
    ensures file' == Cleared(file, rmbid)
  {
    var rdbs := new Cell[SLOTS](i requires 0 <= i < SLOTS => file[i]);
    var c := 0;
    while c < S.CHANNELS
      invariant 0 <= c <= S.CHANNELS
      invariant forall j :: 0 <= j < SLOTS ==> rdbs[j] == if j < S.MINUTES * c && file[j].bid == rmbid then NOTHING else file[j]
    {
      var i := 0;
      while i < S.MINUTES
        invariant 0 <= i <= S.MINUTES && i % 2 == 0
        invariant forall j :: 0 <= j < SLOTS ==>
          rdbs[j] == if j < S.MINUTES * c + i && file[j].bid == rmbid then NOTHING else file[j]
      {
        if rdbs[c * S.MINUTES + i].bid == rmbid {
          rdbs[c * S.MINUTES + i] := NOTHING;
        }
        if rdbs[c * S.MINUTES + (i + 1)].bid == rmbid {
          rdbs[c * S.MINUTES + (i + 1)] := NOTHING;
        }
        i := i + 2;
      }
      c := c + 1;
    }
    file' := rdbs[..];
  }

  /** BKTREC_removeRDB.  `ok` says whether the day's file can be read and written. */
  method RemoveRdb(t: Table, rmbid: int, sec: int, ok: bool) returns (t': Table, r: bool)
    requires IsTable(t)
    ensures r <==> S.DayOf(sec) in t && ok
    ensures t' == if r then Removed(t, rmbid, sec) else map d | d in t && d >= S.DayOf(sec) :: t[d]
  {
    var cur := S.DayOf(sec);
    t' := map d | d in t && d >= cur :: t[d];
    if cur !in t' || !ok {
      return t', false;
    }
    var file := ClearDay(t'[cur], rmbid);
    t' := t'[cur := file];
    r := true;
  }

  /** Basket b has a cell on day d. */
  ghost predicate OnDay(t: Table, b: int, d: int) {
    d in t && exists i :: 0 <= i < |t[d]| && t[d][i].bid == b
  }

  /** Nothing in the table names b. */
  ghost predicate Nowhere(t: Table, b: int) {
    forall d, i :: d in t && 0 <= i < |t[d]| ==> t[d][i].bid != b
  }

  /** Removing gets rid of b exactly when b has no cell on a later day. */
  lemma {:induction false} RemovedIsNowhereIff(t: Table, b: int, sec: int)
    requires IsTable(t) && b != 0
    ensures Nowhere(Removed(t, b, sec), b) <==> forall d :: OnDay(t, b, d) ==> d <= S.DayOf(sec)
  {
    var t': Table := Removed(t, b, sec);
    if forall d :: OnDay(t, b, d) ==> d <= S.DayOf(sec) {
      forall d, i | d in t' && 0 <= i < |t'[d]|
        ensures t'[d][i].bid != b
      {
        if t'[d][i].bid == b {
          assert d in t && t[d][i].bid == b && OnDay(t, b, d);
        }
      }
    } else {
      var d :| OnDay(t, b, d) && d > S.DayOf(sec);
      var i :| 0 <= i < |t[d]| && t[d][i].bid == b;
      assert d in t' && t'[d][i].bid == b;
    }
  }

  /** A basket that recorded on two days is still named on the second when it is removed
      with its end time on the first. */
  lemma {:induction false} LaterCellStays(t: Table, day: seq<Cell>)
    requires |day| == SLOTS && day[0] == Cell(1, INDEX_HDR, 0) && t == map[0 := day, 1 := day]
    ensures IsTable(t) && !Nowhere(Removed(t, 1, 60), 1)
  {
    assert OnDay(t, 1, 1) by {
      assert t[1][0].bid == 1;
    }
    RemovedIsNowhereIff(t, 1, 60);
  }

  /** Every cell of t0 that names a basket other than b is still there in t1. */
  ghost predicate Keeps(t0: Table, t1: Table, b: int) {
    forall d, i :: d in t0 && 0 <= i < |t0[d]| && t0[d][i].bid != 0 && t0[d][i].bid != b ==>
      d in t1 && i < |t1[d]| && t1[d][i] == t0[d][i]
  }

  /** Removing loses no other basket's cell exactly when there is none on an earlier day. */
  lemma {:induction false} RemovedKeepsIff(t: Table, b: int, sec: int)
    requires IsTable(t)
    ensures Keeps(t, Removed(t, b, sec), b) <==>
      forall d, b' :: b' != 0 && b' != b && OnDay(t, b', d) ==> d >= S.DayOf(sec)
  {
    var t': Table := Removed(t, b, sec);
    if Keeps(t, t', b) {
      forall d, b' | b' != 0 && b' != b && OnDay(t, b', d)
        ensures d >= S.DayOf(sec)
      {
        var i :| 0 <= i < |t[d]| && t[d][i].bid == b';
        assert d in t';
      }
    } else {
      var d, i :| d in t && 0 <= i < |t[d]| && t[d][i].bid != 0 && t[d][i].bid != b && !(d in t' && i < |t'[d]| && t'[d][i] == t[d][i]);
      assert OnDay(t, t[d][i].bid, d);
    }
  }

  // ---------------------------------------------------------------- what a cell means

  /** What a basket recorded since it was opened: for every channel the second of the
      first I-frame and of the last frame (0 if there is none), and its index. */
  datatype Use = Use(t1: seq<int>, t2: seq<int>, entries: seq<IdxEntry>)

  /** A cell or a waiting entry is right: `pos` is the place, in the basket's index, of an
      I-frame of the channel, recorded on that day in that minute. */
  ghost predicate Right(uses: map<int, Use>, bid: int, pos: int, ch: int, day: int, minute: int) {
    bid in uses && pos >= INDEX_HDR &&
    var k := IndexPosToNum(pos);
    k < |uses[bid].entries| && pos == IndexNumToPos(k) &&
    uses[bid].entries[k].ch == ch && S.DayOf(uses[bid].entries[k].ts.sec) == day &&
    S.MinuteOf(uses[bid].entries[k].ts.sec) == minute
  }

  ghost predicate RightCell(uses: map<int, Use>, c: Cell, day: int, i: int) {
    c.bid == 0 || Right(uses, c.bid, c.pos, i / S.MINUTES, day, i % S.MINUTES)
  }

  ghost predicate RightEntry(uses: map<int, Use>, e: Entry) {
    EntryOk(e) && Right(uses, e.bid, e.pos, e.ch, DayOfEntry(e), S.MinuteOf(e.sec))
  }

  ghost predicate RightDay(uses: map<int, Use>, day: int, cells: seq<Cell>) {
    forall i :: 0 <= i < |cells| ==> RightCell(uses, cells[i], day, i)
  }

  ghost predicate RightTable(uses: map<int, Use>, t: Table) {
    forall d :: d in t ==> RightDay(uses, d, t[d])
  }

  ghost predicate RightEntries(uses: map<int, Use>, es: seq<Entry>) {
    forall k :: 0 <= k < |es| ==> RightEntry(uses, es[k])
  }

  lemma OffsetSplits(e: Entry)
    requires EntryOk(e)
    ensures Offset(e) / S.MINUTES == e.ch && Offset(e) % S.MINUTES == S.MinuteOf(e.sec)
  {
  }

  /** Entries of one day that are right make right cells, and all that was there stays. */
  lemma {:induction false} FlushedIsRight(uses: map<int, Use>, t: Table, es: seq<Entry>, d: int)
    requires IsTable(t) && RightTable(uses, t) && RightEntries(uses, es)
    requires forall k :: 0 <= k < |es| ==> EntryOk(es[k]) && DayOfEntry(es[k]) == d
    ensures EntriesOk(es)
    ensures var t' := t[d := PutAll(DayFile(t, d), es)];
      IsTable(t') && RightTable(uses, t') && Keeps(t, t', 0)
  {
    hide Right;
    var file := DayFile(t, d);
    var file' := PutAll(file, es);
    forall i | 0 <= i < SLOTS
      ensures RightCell(uses, file'[i], d, i)
      ensures file[i].bid != 0 ==> file'[i] == file[i]
    {
      if file'[i] != file[i] {
        var k := PutAllFrom(file, es, i);
        assert RightEntry(uses, es[k]);
        OffsetSplits(es[k]);
      } else if d in t {
        assert RightDay(uses, d, t[d]);
      }
    }
  }

  /** A stale entry in the buffer spoils the table exactly when it is flushed into a free
      cell before any other entry for that cell. */
  lemma {:induction false} FlushedIsRightIff(uses: map<int, Use>, file: seq<Cell>, es: seq<Entry>, d: int)
    requires |file| == SLOTS && RightDay(uses, d, file) && EntriesOk(es)
    requires forall k :: 0 <= k < |es| ==> DayOfEntry(es[k]) == d
    ensures RightDay(uses, d, PutAll(file, es)) <==>
      forall k :: 0 <= k < |es| && FirstFor(es, k, Offset(es[k])) && file[Offset(es[k])].bid == 0 ==> RightEntry(uses, es[k])
  {
    hide Right;
    var file' := PutAll(file, es);
    if RightDay(uses, d, file') {
      forall k | 0 <= k < |es| && FirstFor(es, k, Offset(es[k])) && file[Offset(es[k])].bid == 0
        ensures RightEntry(uses, es[k])
      {
        PutAllAt(file, es, Offset(es[k]));
        OffsetSplits(es[k]);
        assert RightCell(uses, file'[Offset(es[k])], d, Offset(es[k]));
      }
    } else {
      var i :| 0 <= i < SLOTS && !RightCell(uses, file'[i], d, i);
      assert RightCell(uses, file[i], d, i);
      var k := PutAllFrom(file, es, i);
      OffsetSplits(es[k]);
      assert !RightEntry(uses, es[k]);
    }
  }
}
