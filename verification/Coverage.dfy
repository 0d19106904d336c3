/** That what is recorded gets into the minute table (src/basket_rec.c): every minute that
    an I-frame claims has its cell as long as the basket named in it still holds the I-frame,
    or waits in r_buf to be put there; and the table holds nothing else. */
module Coverage {
  import opened Layout
  import opened MinuteTable
  import opened Recycling
  import opened Soundness
  import opened Storage
  import opened C = Claims

  /** The basket named still holds the I-frame, at the index position named. */
  ghost predicate StillThere(uses: map<int, Use>, e: Entry) {
    e.bid in uses &&
    var k := (e.pos - INDEX_HDR) / INDEX_DATA;
    0 <= k < |uses[e.bid].entries| && e.pos == INDEX_HDR + INDEX_DATA * k &&
    uses[e.bid].entries[k].ch == e.ch && uses[e.bid].entries[k].ts.sec == e.sec
  }

  /** Cell i of day d is that of the entry's minute. */
  ghost predicate IsCellOf(e: Entry, d: int, i: int) {
    e.sec / 86400 == d && 1440 * e.ch + e.sec % 86400 / 60 == i
  }

  /** The cell of the entry's minute holds what the entry says. */
  ghost predicate HasCell(t: Table, e: Entry) {
    e.sec / 86400 in t && 0 <= 1440 * e.ch + e.sec % 86400 / 60 < |t[e.sec / 86400]| &&
    t[e.sec / 86400][1440 * e.ch + e.sec % 86400 / 60] == Cell(e.bid, e.pos, e.evt)
  }

  /** Every taken cell is that of one of the first m entries. */
  ghost predicate OnlyFrom(t: Table, q: seq<Entry>, m: nat)
    requires m <= |q|
  {
    forall d, i :: d in t && 0 <= i < |t[d]| && t[d][i].bid != 0 ==>
      exists k :: 0 <= k < m && IsCellOf(q[k], d, i) && t[d][i] == Cell(q[k].bid, q[k].pos, q[k].evt)
  }

  /** Of the entries queued the first m have been flushed: each has its cell exactly if the
      basket still holds the I-frame.  The others wait for I-frames that are there.  What is
      there no more is not later than `since`. */
  ghost predicate Filed(uses: map<int, Use>, t: Table, q: seq<Entry>, m: nat, since: int) {
    m <= |q| && EntriesOk(q) && OnlyFrom(t, q, m) &&
    (forall k :: 0 <= k < m ==> (HasCell(t, q[k]) <==> StillThere(uses, q[k]))) &&
    (forall k :: m <= k < |q| ==> StillThere(uses, q[k])) &&
    (forall k :: 0 <= k < |q| && !StillThere(uses, q[k]) ==> q[k].sec <= since)
  }

  lemma CellsOf(e: Entry, e': Entry, d: int, i: int)
    requires IsCellOf(e, d, i) && IsCellOf(e', d, i)
    ensures SameMinute(e, e')
  {
    if !SameMinute(e, e') {
      OtherCell(e, e');
    }
  }

  /** The entries flushed, which are of day d, get their cells; all others stay. */
  lemma {:induction false} RunFiled(uses: map<int, Use>, t: Table, q: seq<Entry>, m: nat, n: nat, d: int, since: int)
    requires IsTable(t) && Filed(uses, t, q, m, since) && Apart(q) && m + n <= |q|
    requires forall k :: m <= k < m + n ==> DayOfEntry(q[k]) == d
    ensures Filed(uses, t[d := PutAll(DayFile(t, d), q[m..m + n])], q, m + n, since)
  {
    hide StillThere, SameMinute, IsCellOf, HasCell, OnlyFrom;
    var run := q[m..m + n];
    var t' := t[d := PutAll(DayFile(t, d), run)];
    RunTaken(t, q, m, n, d);
    forall k | 0 <= k < m + n
      ensures HasCell(t', q[k]) <==> StillThere(uses, q[k])
    {
      if k < m {
        FiledBefore(t, q, m, n, d, k);
      } else {
        FiledNow(t, q, m, n, d, k);
      }
    }
  }

  /** An entry flushed before keeps its cell, and gets none. */
  lemma {:induction false} FiledBefore(t: Table, q: seq<Entry>, m: nat, n: nat, d: int, k: nat)
    requires IsTable(t) && EntriesOk(q) && Apart(q) && k < m && m + n <= |q|
    requires forall j :: m <= j < m + n ==> DayOfEntry(q[j]) == d
    ensures HasCell(t[d := PutAll(DayFile(t, d), q[m..m + n])], q[k]) <==> HasCell(t, q[k])
  {
    hide PutAll, SameMinute;
    var e, run := q[k], q[m..m + n];
    CellIs(e);
    if DayOfEntry(e) == d {
      forall j | 0 <= j < n
        ensures Offset(run[j]) != Offset(e)
      {
        CellIs(run[j]);
        if Offset(run[j]) == Offset(e) {
          CellsOf(e, run[j], d, Offset(e));
        }
      }
      PutAllAt(DayFile(t, d), run, Offset(e));
    }
  }

  /** An entry flushed now finds its cell free. */
  lemma {:induction false} FiledNow(t: Table, q: seq<Entry>, m: nat, n: nat, d: int, k: nat)
    requires IsTable(t) && EntriesOk(q) && Apart(q) && m <= k < m + n <= |q| && OnlyFrom(t, q, m)
    requires forall j :: m <= j < m + n ==> DayOfEntry(q[j]) == d
    ensures HasCell(t[d := PutAll(DayFile(t, d), q[m..m + n])], q[k])
  {
    hide PutAll, SameMinute;
    var e, run, file := q[k], q[m..m + n], DayFile(t, d);
    CellIs(e);
    if file[Offset(e)].bid != 0 {
      var j :| 0 <= j < m && IsCellOf(q[j], d, Offset(e)) && t[d][Offset(e)] == Cell(q[j].bid, q[j].pos, q[j].evt);
      CellsOf(q[j], e, d, Offset(e));
      assert false;
    }
    assert run[k - m] == e;
    forall j | 0 <= j < k - m
      ensures Offset(run[j]) != Offset(e)
    {
      CellIs(run[j]);
      if Offset(run[j]) == Offset(e) {
        CellsOf(run[j], e, d, Offset(e));
      }
    }
    assert FirstFor(run, k - m, Offset(e));
    PutAllAt(file, run, Offset(e));
  }

  lemma {:induction false} RunTaken(t: Table, q: seq<Entry>, m: nat, n: nat, d: int)
    requires IsTable(t) && EntriesOk(q) && m + n <= |q| && OnlyFrom(t, q, m)
    requires forall j :: m <= j < m + n ==> DayOfEntry(q[j]) == d
    ensures OnlyFrom(t[d := PutAll(DayFile(t, d), q[m..m + n])], q, m + n)
  {
    hide PutAll;
    var run, file := q[m..m + n], DayFile(t, d);
    var t': Table := t[d := PutAll(file, run)];
    forall d', i | d' in t' && 0 <= i < |t'[d']| && t'[d'][i].bid != 0
      ensures exists k :: 0 <= k < m + n && IsCellOf(q[k], d', i) && t'[d'][i] == Cell(q[k].bid, q[k].pos, q[k].evt)
    {
      if d' != d || PutAll(file, run)[i] == file[i] {
        assert d' in t && t'[d'][i] == t[d'][i];
      } else {
        var j := PutAllFrom(file, run, i);
        assert run[j] == q[m + j];
        CellIs(q[m + j]);
      }
    }
  }

  /** Recycling a basket: its cells are gone, and so are its I-frames. */
  lemma {:induction false} RecycledFiled(uses: map<int, Use>, t: Table, q: seq<Entry>, m: nat, since: int, lastSec: int, t': Table, b: int, u: Use)
    requires Filed(uses, t, q, m, since) && u.entries == [] && since <= lastSec && forall k :: 0 <= k < |q| ==> q[k].sec <= lastSec
    requires Keeps(t, t', b) && Shrinks(t, t') && Nowhere(t', b) && forall k :: m <= k < |q| ==> q[k].bid != b
    ensures Filed(uses[b := u], t', q, m, lastSec)
  {
    hide IsCellOf;
    assert OnlyFrom(t', q, m);
    forall k | 0 <= k < |q|
      ensures StillThere(uses[b := u], q[k]) <==> q[k].bid != b && StillThere(uses, q[k])
      ensures k < m ==> (HasCell(t', q[k]) <==> StillThere(uses[b := u], q[k]))
    {
      assert EntryOk(q[k]);
      if k < m {
        assert HasCell(t, q[k]) <==> StillThere(uses, q[k]);
      }
    }
  }

  /** One more I-frame later than `since`, in basket b. */
  lemma {:induction false} FrameFiled(uses: map<int, Use>, t: Table, q: seq<Entry>, m: nat, since: int, b: int, u: Use, x: IdxEntry)
    requires Filed(uses, t, q, m, since) && b in uses && u.entries == uses[b].entries + [x] && since < x.ts.sec
    ensures Filed(uses[b := u], t, q, m, since)
  {
    hide IsCellOf, HasCell, OnlyFrom;
    forall k | 0 <= k < |q|
      ensures StillThere(uses[b := u], q[k]) <==> StillThere(uses, q[k])
    {
    }
  }

  lemma {:induction false} EntryFiled(uses: map<int, Use>, t: Table, q: seq<Entry>, m: nat, since: int, e: Entry)
    requires Filed(uses, t, q, m, since) && EntryOk(e) && StillThere(uses, e)
    ensures Filed(uses, t, q + [e], m, since)
  {
    hide IsCellOf, HasCell, StillThere;
    assert forall k :: 0 <= k < |q| ==> (q + [e])[k] == q[k];
    assert OnlyFrom(t, q + [e], m);
  }

  // ---------------------------------------------------------------- the marks

  /** prev_min is the minute of the hour claimed last, and that of the last I-frame in the
      basket, so that no other frame claims one. */
  ghost predicate Marked(marks: seq<int>, idx: Secs, shots: seq<Entry>, lastSec: int) {
    |marks| == |idx.t1| == |idx.t2| == MAX_CHANNEL &&
    forall ch :: 0 <= ch < MAX_CHANNEL ==>
      marks[ch] == MarkOf(Queued(shots), ch) && (idx.t1[ch] != 0 ==> idx.t2[ch] <= lastSec && marks[ch] == idx.t2[ch] / 60 % 60)
  }

  /** What has been recorded since the table was empty: the entries that the I-frames would
      have, in order; which minutes they claimed; and where those entries are. */
  ghost predicate Noted(uses: map<int, Use>, t: Table, es: seq<Entry>, marks: seq<int>, idx: Secs, shots: seq<Entry>, lastSec: int, since: int) {
    var q := Queued(shots);
    Ascending(shots) && (forall k :: 0 <= k < |shots| ==> shots[k].sec <= lastSec) && Marked(marks, idx, shots, lastSec) &&
    |es| <= |q| && es == q[|q| - |es|..] && Filed(uses, t, q, |q| - |es|, since)
  }

  lemma {:induction false} NotedFlush(uses: map<int, Use>, t: Table, es: seq<Entry>, marks: seq<int>, idx: Secs, shots: seq<Entry>,
      lastSec: int, since: int, skip: bool, mday: int -> int)
    requires Noted(uses, t, es, marks, idx, shots, lastSec, since) && TableOk(t, es) && Calendar(es, mday)
    ensures Noted(uses, TableAfterFlush(t, es, skip, mday), BufferAfterFlush(es, skip, mday), marks, idx, shots, lastSec, since)
  {
    hide Marked, Filed, Queued, PutAll, RunLength, Ascending;
    if es != [] && skip {
      var q, n := Queued(shots), RunLength(es, mday);
      var m := |q| - |es|;
      RunIs(es, mday);
      QueuedApart(shots);
      forall k | m <= k < m + n
        ensures DayOfEntry(q[k]) == DayOfEntry(es[0])
      {
        assert q[k] == es[k - m] && SameIfNamedSame(mday, es[k - m].sec, es[0].sec);
      }
      RunFiled(uses, t, q, m, n, DayOfEntry(es[0]), since);
      assert q[m..m + n] == es[..n];
    }
  }

  lemma {:induction false} NotedRecycled(uses: map<int, Use>, t: Table, es: seq<Entry>, marks: seq<int>, idx: Secs, shots: seq<Entry>,
      lastSec: int, since: int, t': Table, b: int)
    requires Noted(uses, t, es, marks, idx, shots, lastSec, since) && since <= lastSec
    requires Keeps(t, t', b) && Shrinks(t, t') && Nowhere(t', b) && forall k :: 0 <= k < |es| ==> es[k].bid != b
    ensures Noted(uses[b := NO_USE], t', es, marks, Secs(NoTimes(), NoTimes()), shots, lastSec, lastSec)
  {
    hide Filed, Queued, Keeps, Shrinks, Nowhere;
    var q := Queued(shots);
    var m := |q| - |es|;
    assert forall k :: m <= k < |q| ==> q[k] == es[k - m];
    QueuedUpTo(shots, lastSec);
    RecycledFiled(uses, t, q, m, since, lastSec, t', b, NO_USE);
  }

  lemma {:induction false} QueuedUpTo(shots: seq<Entry>, lastSec: int)
    requires forall k :: 0 <= k < |shots| ==> shots[k].sec <= lastSec
    ensures forall i :: 0 <= i < |Queued(shots)| ==> Queued(shots)[i].sec <= lastSec
  {
    hide Queued;
    forall i | 0 <= i < |Queued(shots)|
      ensures Queued(shots)[i].sec <= lastSec
    {
      QueuedFrom(shots, i);
    }
  }

  /** The entry that a video frame would have, if it is an I-frame. */
  function Shot(f: Frame, bid: int, pos: int): seq<Entry> {
    if f.iframe then [Entry(f.ch, f.ts.sec, f.event, bid, pos)] else []
  }

  /** A frame moves the marks and queues its entry as the I-frames do, and no other. */
  lemma {:induction false} MarkedOn(f: Frame, bid: int, idxEnd: nat, marks: seq<int>, idx: Secs, shots: seq<Entry>, lastSec: int,
      es: seq<Entry>, idx': Secs, marks': seq<int>, es': seq<Entry>)
    requires Marked(marks, idx, shots, lastSec) && lastSec <= f.ts.sec && 0 < f.ts.sec
    requires MinuteNoted(f, bid, idx, idxEnd, marks, es, idx', marks', es')
    ensures var shots' := shots + Shot(f, bid, idxEnd);
      Marked(marks', idx', shots', f.ts.sec) &&
      var q, q' := Queued(shots), Queued(shots');
      (q' == q && es' == es) || (f.iframe && q' == q + Shot(f, bid, idxEnd) && es' == es + Shot(f, bid, idxEnd))
  {
    hide Queued, MarkOf, Repeats;
    if f.iframe {
      var e := Entry(f.ch, f.ts.sec, f.event, bid, idxEnd);
      QueuedStep(shots, e);
      MarkOfStep(Queued(shots), e, f.ch);
      forall ch: int
        ensures MarkOf(Queued(shots + [e]), ch) == if ch == f.ch then f.ts.sec / 60 % 60 else MarkOf(Queued(shots), ch)
      {
        MarkOfStep(Queued(shots), e, ch);
      }
    } else {
      assert shots + [] == shots;
    }
  }

  lemma {:induction false} NotedFrame(uses: map<int, Use>, t: Table, es: seq<Entry>, marks: seq<int>, idx: Secs, shots: seq<Entry>,
      lastSec: int, since: int, f: Frame, bid: int, idxEnd: nat, u: Use, fpos: nat, idx': Secs, marks': seq<int>, es': seq<Entry>)
    requires Noted(uses, t, es, marks, idx, shots, lastSec, since) && bid in uses && bid != 0 && 0 <= f.ch < MAX_CHANNEL
    requires lastSec <= f.ts.sec && 0 < f.ts.sec && since < f.ts.sec && idxEnd == INDEX_HDR + INDEX_DATA * |uses[bid].entries|
    requires u.entries == if f.iframe then uses[bid].entries + [EntryAt(f, fpos)] else uses[bid].entries
    requires MinuteNoted(f, bid, idx, idxEnd, marks, es, idx', marks', es')
    ensures Noted(uses[bid := u], t, es', marks', idx', shots + Shot(f, bid, idxEnd), f.ts.sec, since)
  {
    hide Filed, Queued, MinuteNoted, Marked;
    var q, shots' := Queued(shots), shots + Shot(f, bid, idxEnd);
    var q', m, uses' := Queued(shots'), |q| - |es|, uses[bid := u];
    MarkedOn(f, bid, idxEnd, marks, idx, shots, lastSec, es, idx', marks', es');
    if f.iframe {
      FrameFiled(uses, t, q, m, since, bid, u, EntryAt(f, fpos));
      if q' != q {
        EntryFiled(uses', t, q, m, since, Shot(f, bid, idxEnd)[0]);
      }
    } else {
      SameEntries(uses, t, q, m, since, bid, u);
    }
  }

  lemma {:induction false} SameEntries(uses: map<int, Use>, t: Table, q: seq<Entry>, m: nat, since: int, b: int, u: Use)
    requires Filed(uses, t, q, m, since) && b in uses && u.entries == uses[b].entries
    ensures Filed(uses[b := u], t, q, m, since)
  {
    hide IsCellOf, HasCell, OnlyFrom;
    forall k | 0 <= k < |q|
      ensures StillThere(uses[b := u], q[k]) <==> StillThere(uses, q[k])
    {
    }
  }

  /** A taken cell, or an entry that waits, is of an I-frame that is there. */
  lemma {:induction false} KnownIsThere(uses: map<int, Use>, t: Table, q: seq<Entry>, m: nat, since: int, e: Entry) returns (i: nat)
    requires Filed(uses, t, q, m, since) && (CellTaken(t, e.ch, e.sec) || HasMinute(q[m..], e))
    ensures i < |q| && SameMinute(q[i], e) && StillThere(uses, q[i])
  {
    hide StillThere, SameMinute;
    if CellTaken(t, e.ch, e.sec) {
      var d, c := e.sec / 86400, 1440 * e.ch + e.sec % 86400 / 60;
      i :| 0 <= i < m && IsCellOf(q[i], d, c) && t[d][c] == Cell(q[i].bid, q[i].pos, q[i].evt);
      CellsOf(q[i], e, d, c);
      assert HasCell(t, q[i]);
    } else {
      var k :| 0 <= k < |q[m..]| && SameMinute(q[m..][k], e);
      i := m + k;
    }
  }

  /** And the entry of an I-frame that is there has its cell, or waits. */
  lemma {:induction false} ThereIsKnown(uses: map<int, Use>, t: Table, q: seq<Entry>, m: nat, since: int, e: Entry, i: nat)
    requires Filed(uses, t, q, m, since) && i < |q| && SameMinute(q[i], e) && StillThere(uses, q[i])
    ensures CellTaken(t, e.ch, e.sec) || HasMinute(q[m..], e)
    ensures HasCell(t, q[i]) || q[i] in q[m..]
  {
    hide StillThere, OnlyFrom;
    SameCell(q[i].sec, e.sec);
    assert EntryOk(q[i]);
    if i >= m {
      assert q[m..][i - m] == q[i];
    }
  }

  /** The minute of I-frame k is known, in the table or among what waits, if and only if the
      first I-frame recorded in that minute, j, was not missed, for a claim in the same minute
      of another hour, and is still in its basket; then the table or what waits leads to it. */
  lemma {:induction false} MinuteIsKnownIff(uses: map<int, Use>, t: Table, es: seq<Entry>, marks: seq<int>, idx: Secs, shots: seq<Entry>,
      lastSec: int, since: int, j: nat, k: nat)
    requires Noted(uses, t, es, marks, idx, shots, lastSec, since)
    requires j <= k < |shots| && SameMinute(shots[j], shots[k]) && FirstOfMinute(shots, j)
    ensures CellTaken(t, shots[k].ch, shots[k].sec) || HasMinute(es, shots[k]) <==> !Missed(shots, j) && StillThere(uses, shots[j])
    ensures !Missed(shots, j) && StillThere(uses, shots[j]) ==> HasCell(t, shots[j]) || shots[j] in es
  {
    hide Queued, Missed, StillThere, Marked, Ascending, FirstOfMinute, Filed, CellTaken, HasCell;
    var q, first, e := Queued(shots), shots[j], shots[k];
    var m := |q| - |es|;
    MissedIff(shots, j);
    QueuedApart(shots);
    if CellTaken(t, e.ch, e.sec) || HasMinute(es, e) {
      var i := KnownIsThere(uses, t, q, m, since, e);
      assert SameMinute(q[i], first);
      OneOfMinute(q, first, i);
    }
    if !Missed(shots, j) && StillThere(uses, first) {
      var i :| 0 <= i < |q| && q[i] == first;
      ThereIsKnown(uses, t, q, m, since, e, i);
    }
  }

  lemma OneOfMinute(q: seq<Entry>, e: Entry, i: nat)
    requires Apart(q) && i < |q| && SameMinute(q[i], e)
    ensures e in q ==> q[i] == e
  {
  }

  lemma NothingNoted(uses: map<int, Use>, idx: Secs)
    requires |idx.t2| == MAX_CHANNEL && idx.t1 == NoTimes()
    ensures Noted(uses, map[], [], seq(MAX_CHANNEL, _ => -1), idx, [], 0, 0)
  {
  }
}
