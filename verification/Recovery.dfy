/** How BKTREC_open (src/basket_rec.c) finds the append point of a basket that was left
    in use or stopped: from the entry count in the index header when there is one, and
    otherwise by scanning the index and then the stream. */
module Recovery {
  import opened Layout
  import opened Log
  import R = Recorder

  // ---------------------------------------------------------------- the index scan

  /** What the scan carries from the entry before; zeros at the start. */
  datatype Mark = Mark(ts: Ts, fpos: int)

  function MarkBefore(entries: seq<IdxEntry>, i: nat): Mark
    requires i <= |entries|
  {
    if i == 0 then Mark(Ts(0, 0), 0) else Mark(entries[i - 1].ts, entries[i - 1].fpos)
  }

  /** The scan goes on past an entry that is not older than the one before it, has the
      right id, and does not point back. */
  predicate GoesOn(m: Mark, e: IdxEntry) {
    !Before(e.ts, m.ts) && e.id == ID_INDEX && e.fpos >= m.fpos
  }

  predicate GoesOnTo(entries: seq<IdxEntry>, i: nat)
    requires i < |entries|
  {
    GoesOn(MarkBefore(entries, i), entries[i])
  }

  /** Where the scan stops: everything before goes on, and what is there does not. */
  predicate StopsAt(entries: seq<IdxEntry>, n: nat) {
    n <= |entries| && (forall i :: 0 <= i < n ==> GoesOnTo(entries, i)) &&
    (n < |entries| ==> !GoesOnTo(entries, n))
  }

  method ScanIndex(entries: seq<IdxEntry>) returns (count: nat, bktFpos: int)
    ensures StopsAt(entries, count)
    ensures bktFpos == MarkBefore(entries, count).fpos
  {
    var prev := Ts(0, 0);
    bktFpos, count := 0, 0;
    while count < |entries|
      invariant 0 <= count <= |entries|
      invariant forall i :: 0 <= i < count ==> GoesOnTo(entries, i)
      invariant Mark(prev, bktFpos) == MarkBefore(entries, count)
    {
      var idd := entries[count];
      if idd.ts.sec < prev.sec || (idd.ts.sec == prev.sec && idd.ts.usec < prev.usec)
        || idd.id != ID_INDEX || idd.fpos < bktFpos {
        break;
      }
      prev := idd.ts;
      bktFpos := idd.fpos;
      count := count + 1;
    }
  }

  /** Frame times never go back. */
  ghost predicate InTimeOrder(log: seq<Rec>) {
    forall i, j :: 0 <= i < j < |log| ==> !Before(log[j].hdr.ts, log[i].hdr.ts)
  }

  lemma {:induction false} IndexGoesOn(log: seq<Rec>, i: nat)
    requires AllWellFormed(log) && InTimeOrder(log) && i < |Index(log)|
    ensures GoesOnTo(Index(log), i)
  {
    hide Index, Which, TotalSize, WellFormed;
    WhichPointsAt(log, i);
    if i > 0 {
      WhichPointsAt(log, i - 1);
      WhichIncreases(log, i);
      PlacesIncrease(log, Which(log, i - 1), Which(log, i));
    } else {
      assert WellFormed(log[Which(log, i)]);
      WordsNotNegative(log[Which(log, i)]);
    }
  }

  lemma WordsNotNegative(r: Rec)
    requires WellFormed(r)
    ensures !Before(r.hdr.ts, Ts(0, 0))
  {
  }

  lemma {:induction false} WhichIncreases(log: seq<Rec>, i: nat)
    requires 0 < i < |Index(log)|
    ensures Which(log, i - 1) < Which(log, i)
  {
    WhichPointsAt(log, i);
    WhichPointsAt(log, i - 1);
    var h, j := Which(log, i - 1), Which(log, i);
    if j <= h {
      assert log[..j] + log[j..h] == log[..h];
      IndexOfPrefix(log[..j], log[j..h]);
    }
  }

  /** For an index file whose first n entries are live, written in time order: the scan
      stops at the end of the live entries exactly when there is nothing after them,
      or what is there (left from the basket's last use) is older than the last live
      entry, or points before it, or is no entry.  With no live entry at all, the scan
      starts from zeros and takes any stale entry for a live one. */
  lemma {:induction false} ScanFindsLiveIff(entries: seq<IdxEntry>, log: seq<Rec>, n: nat, stop: nat)
    requires AllWellFormed(log) && InTimeOrder(log)
    requires n <= |entries| && n <= |Index(log)| && entries[..n] == Index(log)[..n]
    requires StopsAt(entries, stop)
    ensures stop == n <==> n == |entries| || !GoesOnTo(entries, n)
    ensures stop >= n
  {
    forall i | 0 <= i < n
      ensures GoesOnTo(entries, i)
    {
      IndexGoesOn(log, i);
      assert entries[i] == entries[..n][i] == Index(log)[i];
      if i > 0 {
        assert entries[i - 1] == entries[..n][i - 1] == Index(log)[i - 1];
      }
    }
  }

  /** The usual case: at least one live entry, and the stale ones are older. */
  lemma {:induction false} OlderStaleEntriesAreCut(entries: seq<IdxEntry>, log: seq<Rec>, n: nat, stop: nat)
    requires AllWellFormed(log) && InTimeOrder(log)
    requires 0 < n <= |entries| && n <= |Index(log)| && entries[..n] == Index(log)[..n]
    requires n < |entries| ==> Before(entries[n].ts, entries[n - 1].ts)
    requires StopsAt(entries, stop)
    ensures stop == n
  {
    ScanFindsLiveIff(entries, log, n, stop);
  }

  /** Without a live entry the scan is wrong as soon as one stale entry is left. */
  lemma NoLiveEntryFails(stale: IdxEntry, stop: nat)
    requires stale == IdxEntry(ID_INDEX, Ts(1, 0), BASKET_HDR, 0, [])
    requires StopsAt([stale], stop)
    ensures stop == 1
  {
  }

  // ---------------------------------------------------------------- the stream scan

  /** The stream scan goes past a record whose header has a video or audio id and does
      not fail the (weaker) time test. */
  predicate Passes(h: StreamHdr, prev: Ts) {
    !(h.ts.sec <= prev.sec && h.ts.usec < prev.usec) && (h.id == ID_VIDEO || h.id == ID_AUDIO)
  }

  function After(pos: nat, h: StreamHdr): nat
    requires FitsWords(h)
  {
    pos + STREAM_HDR + (if h.id == ID_VIDEO then VSTREAM_HDR else ASTREAM_HDR) + h.framesize
  }

  /** Where the stream scan ends that starts at pos. */
  function ScanEnd(file: seq<byte>, pos: nat, prev: Ts): nat
    decreases |file| - pos
  {
    if !CanRead(file, pos, STREAM_HDR) then pos
    else
      var h := HdrAt(file, pos);
      if Passes(h, prev) then ScanEnd(file, After(pos, h), h.ts) else pos
  }

  method ScanStream(file: seq<byte>, start: nat) returns (bktFpos: nat)
    ensures bktFpos == ScanEnd(file, start, Ts(0, 0))
  {
    hide DecodeHdr;
    bktFpos := start;
    var prev := Ts(0, 0);
    while CanRead(file, bktFpos, STREAM_HDR)
      invariant ScanEnd(file, start, Ts(0, 0)) == ScanEnd(file, bktFpos, prev)
      decreases |file| - bktFpos
    {
      var shd := HdrAt(file, bktFpos);
      if shd.ts.sec <= prev.sec && shd.ts.usec < prev.usec {
        break;
      }
      if shd.id == ID_VIDEO {
        bktFpos := bktFpos + STREAM_HDR + VSTREAM_HDR + shd.framesize;
      } else if shd.id == ID_AUDIO {
        bktFpos := bktFpos + STREAM_HDR + ASTREAM_HDR + shd.framesize;
      } else {
        break;
      }
      prev := shd.ts;
    }
  }

  ghost predicate NoMarkerFrom(log: seq<Rec>, j: nat) {
    forall i :: j <= i < |log| ==> !IsEnd(log[i])
  }

  function TsBefore(log: seq<Rec>, i: nat): Ts
    requires i <= |log|
  {
    if i == 0 then Ts(0, 0) else log[i - 1].hdr.ts
  }

  /** Started at any record, the scan runs on as long as there are records. */
  lemma {:induction false} ScanReaches(file: seq<byte>, log: seq<Rec>, j: nat, t: nat, prev: Ts)
    requires AllWellFormed(log) && Holds(file, log) && InTimeOrder(log) && j < t <= |log|
    requires forall i :: j <= i < t ==> !IsEnd(log[i])
    requires prev == Ts(0, 0) || prev == TsBefore(log, j)
    ensures ScanEnd(file, Place(log, j), prev) == ScanEnd(file, Place(log, t), TsBefore(log, t))
    decreases t - j
  {
    hide Bytes, TotalSize, Holds, WellFormed;
    RecordPasses(file, log, j, prev);
    if j + 1 < t {
      ScanReaches(file, log, j + 1, t, log[j].hdr.ts);
    }
  }

  lemma {:induction false} RecordPasses(file: seq<byte>, log: seq<Rec>, j: nat, prev: Ts)
    requires AllWellFormed(log) && Holds(file, log) && InTimeOrder(log) && j < |log| && !IsEnd(log[j])
    requires prev == Ts(0, 0) || prev == TsBefore(log, j)
    ensures var p := Place(log, j);
      CanRead(file, p, STREAM_HDR) && HdrAt(file, p) == log[j].hdr && FitsWords(log[j].hdr) &&
      Passes(log[j].hdr, prev) && After(p, log[j].hdr) == Place(log, j + 1)
  {
    hide Bytes, TotalSize, Holds;
    ReadAtPlace(file, log, j);
  }

  /** The bytes behind the log do not look like one more record. */
  ghost predicate CleanAfter(file: seq<byte>, log: seq<Rec>) {
    !(CanRead(file, End(log), STREAM_HDR) && Passes(HdrAt(file, End(log)), TsBefore(log, |log|)))
  }

  /** An old record behind the log that is older by whole seconds stops the scan only if its
      microseconds are fewer too. */
  lemma {:induction false} OlderRecordStopsIff(file: seq<byte>, log: seq<Rec>)
    requires log != [] && CanRead(file, End(log), STREAM_HDR)
    requires var h := HdrAt(file, End(log)); (h.id == ID_VIDEO || h.id == ID_AUDIO) && h.ts.sec < log[|log| - 1].hdr.ts.sec
    ensures CleanAfter(file, log) <==> HdrAt(file, End(log)).ts.usec < log[|log| - 1].hdr.ts.usec
  {
    hide HdrAt, TotalSize;
  }

  /** A record behind the log that is not older is taken for one more, of any channel. */
  lemma {:induction false} LaterRecordIsTaken(file: seq<byte>, log: seq<Rec>)
    requires log != [] && CanRead(file, End(log), STREAM_HDR)
    requires var h := HdrAt(file, End(log)); h.id == ID_VIDEO || h.id == ID_AUDIO
    requires !Before(HdrAt(file, End(log)).ts, log[|log| - 1].hdr.ts)
    ensures !CleanAfter(file, log)
  {
    hide HdrAt, TotalSize;
  }

  /** Scanning from record j finds the end of the log exactly when no end marker is
      in the way and the bytes after the log cannot be taken for one more record. */
  lemma {:induction false} ScanFindsEndIff(file: seq<byte>, log: seq<Rec>, j: nat)
    requires AllWellFormed(log) && Holds(file, log) && InTimeOrder(log) && j < |log|
    ensures ScanEnd(file, Place(log, j), Ts(0, 0)) == End(log) <==> NoMarkerFrom(log, j) && CleanAfter(file, log)
    ensures NoMarkerFrom(log, j) ==> ScanEnd(file, Place(log, j), Ts(0, 0)) >= End(log)
  {
    hide Bytes, TotalSize, Holds, WellFormed;
    if NoMarkerFrom(log, j) {
      ScanReaches(file, log, j, |log|, Ts(0, 0));
      PlaceEnd(log);
      if CanRead(file, End(log), STREAM_HDR) {
        var h := HdrAt(file, End(log));
        if Passes(h, TsBefore(log, |log|)) {
          ScanGoesForward(file, After(End(log), h), h.ts);
        }
      }
    } else {
      var m := FirstMarker(log, j);
      if j < m {
        ScanReaches(file, log, j, m, Ts(0, 0));
      }
      ReadAtPlace(file, log, m);
      PlacesIncrease(log, m, |log|);
      PlaceEnd(log);
    }
  }

  lemma {:induction false} FirstMarker(log: seq<Rec>, j: nat) returns (m: nat)
    requires !NoMarkerFrom(log, j)
    ensures j <= m < |log| && IsEnd(log[m]) && forall i :: j <= i < m ==> !IsEnd(log[i])
  {
    m := j;
    while !IsEnd(log[m])
      invariant j <= m < |log| && (exists i :: m <= i < |log| && IsEnd(log[i]))
      invariant forall i :: j <= i < m ==> !IsEnd(log[i])
      decreases |log| - m
    {
      m := m + 1;
    }
  }

  lemma {:induction false} ScanGoesForward(file: seq<byte>, pos: nat, prev: Ts)
    ensures ScanEnd(file, pos, prev) >= pos
    decreases |file| - pos
  {
    if CanRead(file, pos, STREAM_HDR) {
      var h := HdrAt(file, pos);
      if Passes(h, prev) {
        ScanGoesForward(file, After(pos, h), h.ts);
      }
    }
  }

  // ---------------------------------------------------------------- opening a used basket

  /** Where writing goes on in a basket that was in use or stopped, or the failed read of an
      index entry that the header counts but the file lacks. */
  datatype AppendPoint = AppendPoint(fposBkt: nat, fposIdx: nat) | ReadFailed

  /** The append point of a basket: scanned for when its header counts nothing, else behind
      the counted entry, unless that cannot be read. */
  ghost predicate FoundBy(f: R.BasketFile, a: AppendPoint) {
    (f.count <= 0 ==> exists n :: StopsAt(f.idx, n) && a == ScannedPoint(f, n)) &&
    (f.count > 0 ==> a == if f.count <= |f.idx| then CountedPoint(f) else ReadFailed)
  }

  /** The part of BKTREC_open for such a basket. */
  method FindAppendPoint(f: R.BasketFile) returns (a: AppendPoint)
    ensures FoundBy(f, a)
  {
    if f.count <= 0 {
      var count, bktFpos := ScanIndex(f.idx);
      if count != 0 {
        var p := if bktFpos < 0 then 0 else bktFpos;
        p := ScanStream(f.bkt, p);
        a := AppendPoint(p, INDEX_DATA * count + INDEX_HDR);
      } else {
        a := AppendPoint(BASKET_HDR, INDEX_HDR);
      }
    } else {
      if f.count > |f.idx| {
        return ReadFailed;
      }
      var idd := f.idx[f.count - 1];
      var p := ScanStream(f.bkt, if idd.fpos < 0 then 0 else idd.fpos);
      a := AppendPoint(p, INDEX_HDR + INDEX_DATA * f.count);
    }
  }

  /** A file position read back; negative ones do not occur in an index that was
      written by the recorder. */
  function Seek(fpos: int): nat { if fpos < 0 then 0 else fpos }

  function ScannedPoint(f: R.BasketFile, n: nat): AppendPoint
    requires n <= |f.idx|
  {
    if n == 0 then AppendPoint(BASKET_HDR, INDEX_HDR)
    else AppendPoint(ScanEnd(f.bkt, Seek(f.idx[n - 1].fpos), Ts(0, 0)), IndexNumToPos(n))
  }

  function CountedPoint(f: R.BasketFile): AppendPoint
    requires 0 < f.count <= |f.idx|
  {
    AppendPoint(ScanEnd(f.bkt, Seek(f.idx[f.count - 1].fpos), Ts(0, 0)), IndexNumToPos(f.count))
  }

  /** What the append point depends on: no end marker behind the last I-frame, left by a
      failed change of baskets, and no bytes behind the log that look like a record. */
  ghost predicate CleanTail(file: seq<byte>, log: seq<Rec>)
    requires Index(log) != []
  {
    NoMarkerFrom(log, Which(log, |Index(log)| - 1)) && CleanAfter(file, log)
  }

  /** Stop and resume: a basket closed with at least one I-frame is reopened with the
      file positions it was closed with exactly when no end marker was left behind
      its last I-frame by a failed change of baskets, and the bytes behind its last
      record do not look like a record. */
  lemma {:induction false} StopResume(f: R.BasketFile, log: seq<Rec>)
    requires R.ClosedAs(f, log) && Index(log) != [] && InTimeOrder(log)
    ensures CountedPoint(f) == AppendPoint(End(log), IndexNumToPos(|Index(log)|)) <==> CleanTail(f.bkt, log)
    ensures CountedPoint(f).fposIdx == IndexNumToPos(|Index(log)|)
  {
    var n := |Index(log)|;
    WhichPointsAt(log, n - 1);
    assert f.idx[n - 1] == f.idx[..n][n - 1] == Index(log)[n - 1];
    ScanFindsEndIff(f.bkt, log, Which(log, n - 1));
  }

  /** The recorder can go on where it stopped: with those positions, empty buffers and
      the same gPrevFpos, its stream and index invariants hold again. */
  lemma {:induction false} ResumeContinuesLog(f: R.BasketFile, log: seq<Rec>, prevFpos: int, carry: int)
    requires R.ClosedAs(f, log) && Index(log) != [] && InTimeOrder(log) && CleanTail(f.bkt, log)
    requires IsWord(prevFpos) && prevFpos == LastStart(log, carry) && Linked(log, carry)
    ensures var a := CountedPoint(f);
      R.StreamInv(f.bkt, a.fposBkt, [], log, [], prevFpos, carry) && R.IndexInv(f.idx, a.fposIdx, [], log, [])
  {
    StopResume(f, log);
    IndexPositions(|Index(log)|);
    assert log + [] == log;
  }

  /** Rewriting the stream header does no harm to the basket that was being recorded. */
  lemma {:induction false} SafeBehind(f: R.BasketFile, g: R.BasketFile, live: int, log: seq<Rec>)
    requires R.RecordingSafe(f, live, log) && R.SameBehindHeader(f, g)
    ensures R.RecordingSafe(g, live, log) && (CleanAfter(g.bkt, log) <==> CleanAfter(f.bkt, log))
  {
    hide Bytes, TotalSize, Index, WellFormed, CleanAfter;
    HoldsBehind(f.bkt, g.bkt, log);
    SameTail(f.bkt, g.bkt, log);
  }

  lemma {:induction false} HoldsBehind(f: seq<byte>, g: seq<byte>, log: seq<Rec>)
    requires Holds(f, log) && |g| >= BASKET_HDR && Behind(g, BASKET_HDR) == Behind(f, BASKET_HDR)
    ensures Holds(g, log) && Behind(g, End(log)) == Behind(f, End(log))
  {
    hide Bytes, TotalSize;
    var n := End(log);
    assert |g| == |f|;
    assert f[BASKET_HDR..n] == f[BASKET_HDR..][..n - BASKET_HDR];
    assert g[BASKET_HDR..n] == g[BASKET_HDR..][..n - BASKET_HDR];
    assert f[n..] == f[BASKET_HDR..][n - BASKET_HDR..];
    assert g[n..] == g[BASKET_HDR..][n - BASKET_HDR..];
  }

  /** A crash in any state of the disk that a fresh basket goes through: the header still
      counts no entry.  Opening rewrites the stream header.  If at least one entry was
      flushed and the entry behind the flushed ones is older than the last of them, it
      sets the index append point to the end of the flushed entries; the stream append
      point is the end of the flushed records under the same condition as after a stop. */
  lemma {:induction false} CrashRecovery(img: R.Image, f: R.BasketFile, a: AppendPoint)
    requires R.CrashSafe(img) && 0 < img.live && R.SameBehindHeader(img.files[img.bid], f)
    requires InTimeOrder(img.flushed)
    requires var n := img.live; n < |f.idx| ==> Before(f.idx[n].ts, f.idx[n - 1].ts)
    requires f.count <= 0 && FoundBy(f, a)
    ensures a.AppendPoint? && a.fposIdx == IndexNumToPos(img.live)
    ensures a.fposBkt == End(img.flushed) <==>
      NoMarkerFrom(img.flushed, Which(img.flushed, img.live - 1)) && CleanAfter(f.bkt, img.flushed)
  {
    hide Bytes, TotalSize, WellFormed, Holds, ScanEnd, CleanAfter, InTimeOrder, GoesOnTo;
    var n: nat, log := img.live, img.flushed;
    var stop :| StopsAt(f.idx, stop) && a == ScannedPoint(f, stop);
    SafeBehind(img.files[img.bid], f, n, log);
    OlderStaleEntriesAreCut(f.idx, log, n, stop);
    WhichPointsAt(log, n - 1);
    assert f.idx[n - 1] == f.idx[..n][n - 1] == Index(log)[..n][n - 1] == Index(log)[n - 1];
    ScanFindsEndIff(f.bkt, log, Which(log, n - 1));
  }

  /** A crash after a resume: the header counts the entries of the first recording only, so
      the entries flushed since the resume are forgotten, while the stream scan goes past
      their records under the usual condition.  The two append points agree just when no
      entry had been flushed since. */
  lemma {:induction false} CrashAfterResume(img: R.Image, f: R.BasketFile, a: AppendPoint)
    requires R.CrashSafe(img) && R.SameBehindHeader(img.files[img.bid], f) && InTimeOrder(img.flushed)
    requires 0 < f.count <= img.live && FoundBy(f, a)
    ensures a.AppendPoint? && (a.fposIdx == IndexNumToPos(img.live) <==> f.count == img.live)
    ensures a.fposBkt == End(img.flushed) <==>
      NoMarkerFrom(img.flushed, Which(img.flushed, f.count - 1)) && CleanAfter(f.bkt, img.flushed)
  {
    hide Bytes, TotalSize, WellFormed, Holds, ScanEnd, CleanAfter, InTimeOrder, GoesOnTo;
    var n: nat, log := f.count, img.flushed;
    SafeBehind(img.files[img.bid], f, img.live, log);
    WhichPointsAt(log, n - 1);
    assert f.idx[n - 1] == f.idx[..img.live][n - 1] == Index(log)[..img.live][n - 1] == Index(log)[n - 1];
    ScanFindsEndIff(f.bkt, log, Which(log, n - 1));
  }

  // ---------------------------------------------------------------- stop and resume

  /** What BKTREC_searchBasket finds first when the recorder is started: the basket of the
      record info, if that one is in use or stopped. */
  predicate Resumes(info: R.RecInfo) {
    info.Info? && (info.flag == R.Using || info.flag == R.Stopped)
  }

  /** BKTREC_open for the basket of the record info: its header is written, the append point
      is found, and the day of recording is today.  The ghost state takes the basket to hold
      the log that it was closed with. */
  ghost function ReopenedBook(book: R.Book, log: seq<Rec>, bid: int, files: map<int, R.BasketFile>, fposIdx: nat): R.Book
    requires fposIdx >= INDEX_HDR
  {
    var closed := book.closed - {bid};
    R.Book(log, [], book.carry, closed,
      book.trail + [R.Image(R.StreamHeader, bid, files, IndexPosToNum(fposIdx), log, closed)], |log|)
  }

  method Reopen(d: R.Recorder, today: int, ok: bool, ghost log: seq<Rec>) returns (r: R.Result, ghost a: AppendPoint)
    requires !d.isOpen && Resumes(d.recInfo) && d.recInfo.bid in d.files
    modifies d
    ensures d.bid == old(d.recInfo).bid && d.files.Keys == old(d.files.Keys) && d.prevFpos == old(d.prevFpos) && d.rSkip == old(d.rSkip)
    ensures d.files[d.bid].idx == old(d.files)[d.bid].idx && d.files[d.bid].count == old(d.files)[d.bid].count
    ensures |d.files[d.bid].bkt| >= BASKET_HDR && Behind(d.files[d.bid].bkt, BASKET_HDR) == Behind(old(d.files)[d.bid].bkt, BASKET_HDR)
    ensures d.files == old(d.files)[d.bid := d.files[d.bid]]
    ensures FoundBy(d.files[d.bid], a)
    ensures r == R.Ok <==> ok && a != ReadFailed
    ensures r == R.Ok ==> d.isOpen && d.recInfo == R.Info(d.bid, R.Using) && d.prevDay == today
    ensures r == R.Ok ==> d.bPos == 0 && d.iPos == 0 && a == AppendPoint(d.fposBkt, d.fposIdx)
    ensures r == R.Ok ==> d.fposIdx >= INDEX_HDR && d.book == ReopenedBook(old(d.book), log, d.bid, d.files, d.fposIdx)
    ensures r != R.Ok ==> r == R.Err && !d.isOpen && d.recInfo == old(d.recInfo) && d.book == old(d.book)
  {
    hide StopsAt, ScannedPoint, CountedPoint, R.Overwrite, Behind, ReopenedBook, FoundBy;
    d.bPos, d.iPos, d.fposBkt, d.fposIdx, d.bid := 0, 0, 0, 0, d.recInfo.bid;
    WriteHeader(d);
    var f := d.files[d.bid];
    var point := FindAppendPoint(f);
    a := point;
    if !ok || point == ReadFailed {
      return R.Err, a;
    }
    FoundFits(f, a);
    d.fposBkt, d.fposIdx, d.prevDay := point.fposBkt, point.fposIdx, today;
    d.isOpen, d.recInfo := true, R.Info(d.bid, R.Using);
    d.book := ReopenedBook(d.book, log, d.bid, d.files, d.fposIdx);
    return R.Ok, a;
  }

  lemma FoundFits(f: R.BasketFile, a: AppendPoint)
    requires FoundBy(f, a) && a != ReadFailed
    ensures a.fposIdx >= INDEX_HDR
  {
  }

  method WriteHeader(d: R.Recorder)
    requires d.bid in d.files
    modifies d`files
    ensures d.files.Keys == old(d.files.Keys)
    ensures d.files[d.bid].idx == old(d.files)[d.bid].idx && d.files[d.bid].count == old(d.files)[d.bid].count
    ensures |d.files[d.bid].bkt| >= BASKET_HDR && Behind(d.files[d.bid].bkt, BASKET_HDR) == Behind(old(d.files)[d.bid].bkt, BASKET_HDR)
    ensures d.files == old(d.files)[d.bid := d.files[d.bid]]
  {
    var f := d.files[d.bid];
    var hdr := R.AnyBytes(BASKET_HDR);
    R.OverwriteBehind(f.bkt, 0, hdr);
    d.files := d.files[d.bid := f.(bkt := R.Overwrite(f.bkt, 0, hdr))];
  }

  /** BKTREC_open: first the basket of the record info, if it is in use or stopped; only
      then an empty one or the oldest, which starts anew. */
  method Open(d: R.Recorder, search: R.Search, today: int, ok: bool, ghost log: seq<Rec>) returns (r: R.Result)
    requires d.Valid() && !d.isOpen
    modifies d
    ensures d.files.Keys == old(d.files.Keys) && d.prevFpos == old(d.prevFpos) && (r == R.Ok <==> d.isOpen) && !d.rSkip
    ensures r == R.Ok ==> d.recInfo == R.Info(d.bid, R.Using) && d.prevDay == today && d.bPos == 0 && d.iPos == 0
    ensures old(d.recInfo.Info? && d.recInfo.flag in {R.Using, R.Stopped}) ==>
      Resumed(old(d.files), d, old(d.recInfo.bid), ok, r) && r != R.Full
    ensures old(d.recInfo.Info? && d.recInfo.flag in {R.Using, R.Stopped}) && r == R.Ok ==>
      d.fposIdx >= INDEX_HDR && d.book == ReopenedBook(old(d.book), log, d.bid, d.files, d.fposIdx)
    ensures old(d.recInfo.NoInfo? || d.recInfo.flag == R.IsFull) ==> d.Valid() && (r == R.Ok <==> old(d.Usable(search)) && ok)
    ensures old(d.recInfo.NoInfo? || d.recInfo.flag == R.IsFull) && r == R.Ok ==>
      search.Found? && d.bid == search.bid && d.CurrentLog() == [] && d.fposBkt == BASKET_HDR && d.fposIdx == INDEX_HDR
    ensures r == R.Full <==> old(d.recInfo.NoInfo? || d.recInfo.flag == R.IsFull) && search.Found? && search.full && d.recycleOnce
  {
    hide StopsAt, ScannedPoint, CountedPoint, R.StreamInv, R.IndexInv, R.AllClosedAs, R.TrailOk, R.UpToDate, R.OnMonthDay;
    d.rSkip := false;
    if Resumes(d.recInfo) {
      if d.recInfo.bid !in d.files {
        return R.Err;
      }
      ghost var a;
      r, a := Reopen(d, today, ok, log);
      return;
    }
    if search.NotFound? {
      return R.Err;
    }
    if search.full && d.recycleOnce {
      return R.Full;
    }
    if search.bid !in d.files {
      return R.Err;
    }
    d.bPos, d.iPos := 0, 0;
    r := d.StartBasket(search.bid, ok);
    if r == R.Ok {
      d.SetDay(today);
    }
  }

  /** The basket of the record info was opened, at the append point found in its files. */
  ghost predicate Resumed(files0: map<int, R.BasketFile>, d: R.Recorder, bid: int, ok: bool, r: R.Result)
    reads d
  {
    if r == R.Ok then
      ok && d.bid == bid && bid in files0 && bid in d.files && R.SameBehindHeader(files0[bid], d.files[bid]) &&
      FoundBy(d.files[bid], AppendPoint(d.fposBkt, d.fposIdx)) && d.files == files0[bid := d.files[bid]]
    else
      !ok || bid !in files0 || exists f :: R.SameBehindHeader(files0[bid], f) && FoundBy(f, ReadFailed)
  }

  lemma {:induction false} ClosedBehind(f: R.BasketFile, g: R.BasketFile, log: seq<Rec>)
    requires R.ClosedAs(f, log) && R.SameBehindHeader(f, g)
    ensures R.ClosedAs(g, log) && (CleanAfter(g.bkt, log) <==> CleanAfter(f.bkt, log))
    ensures Behind(g.bkt, End(log)) == Behind(f.bkt, End(log))
  {
    hide Bytes, TotalSize, Index, WellFormed, CleanAfter;
    HoldsBehind(f.bkt, g.bkt, log);
    SameTail(f.bkt, g.bkt, log);
  }

  lemma SameTail(f: seq<byte>, g: seq<byte>, log: seq<Rec>)
    requires Behind(f, End(log)) == Behind(g, End(log))
    ensures CleanAfter(f, log) <==> CleanAfter(g, log)
  {
    HdrBehind(f, End(log));
    HdrBehind(g, End(log));
  }

  lemma {:induction false} CountedIsRead(f: R.BasketFile, log: seq<Rec>)
    requires R.ClosedAs(f, log) && Index(log) != []
    ensures forall g :: R.SameBehindHeader(f, g) ==> !FoundBy(g, ReadFailed)
  {
  }

  lemma {:induction false} ResumePoint(f: R.BasketFile, g: R.BasketFile, bkt: seq<byte>, log: seq<Rec>, fposBkt: nat, fposIdx: nat)
    requires R.ClosedAs(f, log) && R.SameBehindHeader(f, g) && Index(log) != [] && InTimeOrder(log)
    requires Behind(f.bkt, End(log)) == Behind(bkt, End(log))
    requires FoundBy(g, AppendPoint(fposBkt, fposIdx))
    ensures R.ClosedAs(g, log) && fposIdx == IndexNumToPos(|Index(log)|)
    ensures fposBkt == End(log) <==> CleanTail(bkt, log)
    ensures AppendPoint(fposBkt, fposIdx) == CountedPoint(g) && (CleanTail(g.bkt, log) <==> CleanTail(bkt, log))
  {
    hide Index, TotalSize, StopsAt, ScannedPoint, Bytes, CleanAfter, Behind, InTimeOrder, WellFormed;
    ClosedBehind(f, g, log);
    SameTail(f.bkt, bkt, log);
    StopResume(g, log);
  }

  lemma {:induction false} BackAgain(d: R.Recorder, log: seq<Rec>)
    requires d.Buffers() && IsWord(d.prevFpos) && IsLink(d.prevFpos) && d.isOpen && d.bid in d.files && d.bPos == 0 && d.iPos == 0
    requires d.recInfo == R.Info(d.bid, R.Using)
    requires d.book.done == log && d.book.pend == [] && d.book.since == |log| && IsLink(d.book.carry) && d.bid !in d.book.closed
    requires R.StreamInv(d.files[d.bid].bkt, d.fposBkt, [], log, [], d.prevFpos, d.book.carry)
    requires R.IndexInv(d.files[d.bid].idx, d.fposIdx, [], log, [])
    requires R.AllClosedAs(d.files, d.book.closed)
    requires R.TrailOk(d.book.trail) && R.UpToDate(d.book.trail, d.files, d.book.closed, true, d.bid, d.fposIdx, log)
    ensures d.Valid()
  {
    hide R.StreamInv, R.IndexInv, R.AllClosedAs, R.TrailOk, R.UpToDate;
    assert d.bBuf[..d.bPos] == [] && d.iBuf[..d.iPos / INDEX_DATA] == [];
  }

  /** The disk after the write of the stream header with which a basket is opened again. */
  lemma {:induction false} ReopenStep(book: R.Book, bid: int, files: map<int, R.BasketFile>, g: R.BasketFile, fposIdx: nat, log: seq<Rec>)
    requires bid in files && fposIdx >= INDEX_HDR && R.TrailOk(book.trail) && R.AllClosedAs(files, book.closed)
    requires book.trail != []
    requires book.trail[|book.trail| - 1] == R.Image(R.StreamHeader, bid, files, IndexPosToNum(fposIdx), log, book.closed)
    requires R.SameBehindHeader(files[bid], g)
    ensures var files' := files[bid := g]; var book' := ReopenedBook(book, log, bid, files', fposIdx);
      R.AllClosedAs(files', book'.closed) && R.TrailOk(book'.trail) &&
      R.UpToDate(book'.trail, files', book'.closed, true, bid, fposIdx, log)
  {
    hide R.RecordingSafe, R.AllClosedAs, R.SameBehindHeader;
    var m := book.trail[|book.trail| - 1];
    assert R.CrashSafe(m);
    SafeBehind(files[bid], g, m.live, log);
    var m' := R.Image(R.StreamHeader, bid, files[bid := g], m.live, log, book.closed - {bid});
    StillClosed(files, book.closed, bid);
    R.OthersStayClosed(files, book.closed - {bid}, bid, g);
    R.SafeNow(m');
    R.TrailOn(book.trail, m');
  }

  lemma StillClosed(files: map<int, R.BasketFile>, closed: map<int, seq<Rec>>, bid: int)
    requires R.AllClosedAs(files, closed)
    ensures R.AllClosedAs(files, closed - {bid})
  {
    hide R.ClosedAs;
  }

  /** Stop and resume: with an I-frame in it the basket that was being recorded is opened
      again, the index goes on where it was, and the stream if and only if its tail is
      clean; then the recorder is in a valid state again, for the same log and all other
      baskets as they were. */
  method StopAndResume(d: R.Recorder, io: R.Io, search: R.Search, today: int) returns (r: R.Result)
    requires d.Valid() && d.isOpen && Index(d.CurrentLog()) != [] && InTimeOrder(d.CurrentLog())
    modifies d
    ensures r == R.Ok <==> R.FlushSucceeds(old(d.bPos), old(d.iPos), old(d.rSkip), io) && io.header
    ensures r == R.Ok ==> !d.rSkip
    ensures r == R.Ok ==> d.isOpen && d.bid == old(d.bid) && d.recInfo == R.Info(d.bid, R.Using) && d.prevDay == today
    ensures r == R.Ok ==> d.bPos == 0 && d.iPos == 0 && d.fposIdx == old(d.fposIdx + d.iPos)
    ensures r == R.Ok ==> (d.fposBkt == old(d.fposBkt + d.bPos) <==> CleanTail(old(d.files[d.bid].bkt), old(d.CurrentLog())))
    ensures r == R.Ok && CleanTail(old(d.files[d.bid].bkt), old(d.CurrentLog())) ==>
      d.Valid() && d.CurrentLog() == old(d.CurrentLog()) && d.book.closed == old(d.book.closed) && d.prevFpos == old(d.prevFpos)
  {
    hide StopsAt, ScannedPoint, CountedPoint, R.StreamInv, R.IndexInv, R.AllClosedAs, R.TrailOk, R.UpToDate, R.ClosedAs, R.OnMonthDay;
    hide Index, TotalSize, Linked, LastStart, CleanTail, InTimeOrder, Behind, R.SameBehindHeader, ReopenedBook, FoundBy, R.FlushSucceeds;
    ghost var log := d.CurrentLog();
    ghost var bid, carry, bkt := d.bid, d.book.carry, d.files[d.bid].bkt;
    d.AtRest();
    r := d.Exit(io);
    if r != R.Ok {
      return;
    }
    ghost var f, files, book := d.files[bid], d.files, d.book;
    Closed(d, bid, log);
    r := Open(d, search, today, io.header, log);
    CountedIsRead(f, log);
    if r == R.Ok {
      ghost var g := d.files[bid];
      ResumePoint(f, g, bkt, log, d.fposBkt, d.fposIdx);
      ReopenStep(book, bid, files, g, d.fposIdx, log);
      if CleanTail(bkt, log) {
        ResumeContinuesLog(g, log, d.prevFpos, carry);
        Reopened(book, log, bid, d.files, d.fposIdx);
        BackAgain(d, log);
      }
    }
  }

  lemma Closed(d: R.Recorder, bid: int, log: seq<Rec>)
    requires d.Valid() && bid in d.book.closed && d.book.closed[bid] == log
    ensures bid in d.files && R.ClosedAs(d.files[bid], log) && R.AllClosedAs(d.files, d.book.closed) && R.TrailOk(d.book.trail)
  {
    hide R.ClosedAs, R.StreamInv, R.IndexInv, R.TrailOk, R.UpToDate;
  }

  lemma Reopened(book: R.Book, log: seq<Rec>, bid: int, files: map<int, R.BasketFile>, fposIdx: nat)
    requires fposIdx >= INDEX_HDR
    ensures var b := ReopenedBook(book, log, bid, files, fposIdx);
      b.done == log && b.pend == [] && b.since == |log| && b.carry == book.carry && b.closed == book.closed - {bid}
  {
  }

  // ---------------------------------------------------------------- crash and resume

  /** What the disk holds of the basket that was being recorded when the recorder was cut off:
      its header counts nothing yet, an entry was flushed since it was opened, and the one
      behind the last, if there is any, is older. */
  ghost predicate CutOff(img: R.Image) {
    R.CrashSafe(img) && 0 < img.live && InTimeOrder(img.flushed) &&
    var f := img.files[img.bid];
    f.count <= 0 && (img.live < |f.idx| ==> Before(f.idx[img.live].ts, f.idx[img.live - 1].ts))
  }

  /** Started anew after a crash in any state of the disk, with the record info naming the
      basket as in use, the recorder opens that basket again whatever a search would find; the
      index goes on behind the flushed entries, and the stream behind the flushed records if
      and only if the bytes behind them, and no end marker before, keep the scan from it. */
  method AfterCrash(mday: int -> int, files: map<int, R.BasketFile>, recInfo: R.RecInfo, recycleOnce: bool, search: R.Search,
      today: int, ok: bool, ghost img: R.Image) returns (d: R.Recorder, r: R.Result)
    requires img.files == files && CutOff(img) && recInfo == R.Info(img.bid, R.Using)
    ensures fresh(d) && (r == R.Ok <==> ok) && (r == R.Ok ==> d.isOpen && d.bid == img.bid && d.recInfo == R.Info(img.bid, R.Using))
    ensures r == R.Ok ==> d.bPos == 0 && d.iPos == 0 && d.prevDay == today && d.fposIdx == INDEX_HDR + INDEX_DATA * img.live
    ensures r == R.Ok ==>
      (d.fposBkt == End(img.flushed) <==>
       NoMarkerFrom(img.flushed, Which(img.flushed, img.live - 1)) && CleanAfter(files[img.bid].bkt, img.flushed))
  {
    hide StopsAt, ScannedPoint, CountedPoint, Index, TotalSize, InTimeOrder, Behind, ReopenedBook, FoundBy, CutOff, NoMarkerFrom, CleanAfter;
    hide R.SameBehindHeader;
    d := new R.Recorder(mday, files, recycleOnce);
    d.recInfo := recInfo;
    CutOffIsRead(img);
    r := Open(d, search, today, ok, img.flushed);
    if r == R.Ok {
      CutOffPoint(img, d.files[img.bid], d.fposBkt, d.fposIdx);
    }
  }

  lemma {:induction false} CutOffIsRead(img: R.Image)
    requires CutOff(img)
    ensures img.bid in img.files && 0 < img.live <= |Index(img.flushed)|
    ensures forall g :: R.SameBehindHeader(img.files[img.bid], g) ==> !FoundBy(g, ReadFailed)
  {
    hide Index;
  }

  lemma {:induction false} CutOffPoint(img: R.Image, f: R.BasketFile, fposBkt: nat, fposIdx: nat)
    requires CutOff(img) && R.SameBehindHeader(img.files[img.bid], f) && FoundBy(f, AppendPoint(fposBkt, fposIdx))
    ensures fposIdx == INDEX_HDR + INDEX_DATA * img.live && img.live <= |Index(img.flushed)|
    ensures fposBkt == End(img.flushed) <==>
      NoMarkerFrom(img.flushed, Which(img.flushed, img.live - 1)) && CleanAfter(img.files[img.bid].bkt, img.flushed)
  {
    hide Index, TotalSize, NoMarkerFrom, CleanAfter, InTimeOrder, FoundBy;
    CrashRecovery(img, f, AppendPoint(fposBkt, fposIdx));
    SafeBehind(img.files[img.bid], f, img.live, img.flushed);
  }

  /** The last state of the disk, if it can be cut off there. */
  lemma {:induction false} LastState(d: R.Recorder) returns (img: R.Image)
    requires d.Valid() && d.isOpen && d.fposIdx > INDEX_HDR && InTimeOrder(d.book.done) && d.files[d.bid].count <= 0
    requires var n, idx := IndexPosToNum(d.fposIdx), d.files[d.bid].idx; n < |idx| ==> Before(idx[n].ts, idx[n - 1].ts)
    ensures img.files == d.files && img.bid == d.bid && img.flushed == d.book.done && CutOff(img)
    ensures img.live == IndexPosToNum(d.fposIdx) && d.fposIdx == INDEX_HDR + INDEX_DATA * img.live && d.fposBkt == End(img.flushed)
    ensures d.recInfo == R.Info(d.bid, R.Using)
  {
    hide Index, TotalSize, InTimeOrder, R.RecordingSafe, R.AllClosedAs, R.OneWrite, R.OnMonthDay, Linked, LastStart, Bytes;
    img := d.book.trail[|d.book.trail| - 1];
    assert R.CrashSafe(img);
  }

  /** A power cut between two operations: the same basket is opened again, the index goes on
      where it was, and the stream if and only if its tail is clean. */
  method CrashAndResume(d0: R.Recorder, search: R.Search, today: int, ok: bool) returns (d: R.Recorder, r: R.Result)
    requires d0.Valid() && d0.isOpen && d0.fposIdx > INDEX_HDR && InTimeOrder(d0.book.done) && d0.files[d0.bid].count <= 0
    requires var n, idx := IndexPosToNum(d0.fposIdx), d0.files[d0.bid].idx; n < |idx| ==> Before(idx[n].ts, idx[n - 1].ts)
    ensures fresh(d) && (r == R.Ok <==> ok)
    ensures r == R.Ok ==> d.isOpen && d.bid == d0.bid && d.recInfo == R.Info(d0.bid, R.Using) && d.fposIdx == d0.fposIdx
    ensures r == R.Ok ==>
      (d.fposBkt == d0.fposBkt <==>
       NoMarkerFrom(d0.book.done, Which(d0.book.done, IndexPosToNum(d0.fposIdx) - 1)) && CleanAfter(d0.files[d0.bid].bkt, d0.book.done))
  {
    hide Index, TotalSize, InTimeOrder, NoMarkerFrom, CleanAfter, CutOff, R.RecordingSafe, R.AllClosedAs, R.TrailOk, R.UpToDate;
    ghost var img := LastState(d0);
    d, r := AfterCrash(d0.mday, d0.files, d0.recInfo, d0.recycleOnce, search, today, ok, img);
  }

  // ---------------------------------------------------------------- where it goes wrong

  /** An I-frame of one byte, recorded in second sec. */
  function SmallFrame(sec: int): Rec
    requires IsWord(sec)
  {
    Rec(StreamHdr(ID_VIDEO, 0, 1, Ts(sec, 0), FT_IFRAME, 0), Zeros(16), Zeros(VSTREAM_HDR), [0])
  }

  function SmallMarker(sec: int): Rec
    requires IsWord(sec)
  {
    Rec(StreamHdr(ID_END, 0, 1, Ts(sec, 0), FT_IFRAME, 0), Zeros(16), [], [])
  }

  function Zeros(n: nat): (bs: seq<byte>)
    ensures |bs| == n
  {
    seq(n, _ => 0)
  }

  /** A stream file that holds nothing but the log. */
  function FileOf(log: seq<Rec>): seq<byte> {
    Zeros(BASKET_HDR) + Bytes(log)
  }

  lemma {:induction false} FileHolds(log: seq<Rec>)
    requires AllWellFormed(log)
    ensures Holds(FileOf(log), log) && |FileOf(log)| == End(log)
  {
    hide Bytes, TotalSize, WellFormed;
    BytesLength(log);
    assert FileOf(log)[BASKET_HDR..End(log)] == Bytes(log);
  }

  /** One frame, and behind it the end marker of a change of baskets that failed: stopped
      and resumed, the recorder goes on at the marker and not behind it. */
  lemma {:induction false} FailedChangeMovesResume(f: R.BasketFile, log: seq<Rec>)
    requires log == [SmallFrame(1), SmallMarker(1)]
    requires f == R.BasketFile(FileOf(log), [EntryFor(SmallFrame(1), BASKET_HDR)], 1)
    ensures R.ClosedAs(f, log) && InTimeOrder(log) && Index(log) != []
    ensures CountedPoint(f) == AppendPoint(End([SmallFrame(1)]), IndexNumToPos(1)) && End([SmallFrame(1)]) < End(log)
  {
    hide Bytes, TotalSize, Holds, ScanEnd, EncodeRec, Index;
    var v, m := SmallFrame(1), SmallMarker(1);
    FileHolds(log);
    IndexOfOne(v);
    assert log == [v] + [m];
    AppendIndex([v], m);
    Append([v], m);
    FirstPlace(log);
    PlaceStep(log, 0);
    BytesOfOne(v);
    StopsAtMarker(FileOf(log), log);
  }

  lemma {:induction false} StopsAtMarker(file: seq<byte>, log: seq<Rec>)
    requires AllWellFormed(log) && Holds(file, log) && InTimeOrder(log) && |log| == 2 && !IsEnd(log[0]) && IsEnd(log[1])
    ensures ScanEnd(file, BASKET_HDR, Ts(0, 0)) == Place(log, 1)
  {
    hide Bytes, TotalSize, Holds, WellFormed;
    ScanReaches(file, log, 0, 1, Ts(0, 0));
    ReadAtPlace(file, log, 1);
    FirstPlace(log);
  }

  lemma FirstPlace(log: seq<Rec>)
    ensures Place(log, 0) == BASKET_HDR
  {
    assert log[..0] == [];
  }

  lemma IndexOfOne(r: Rec)
    requires IsIFrame(r)
    ensures Index([r]) == [EntryFor(r, BASKET_HDR)]
  {
    assert [r][..0] == [];
  }

  /** One frame, and behind it a later one that the last use of the basket left: resumed,
      the recorder goes on behind the old frame. */
  lemma {:induction false} OldFrameMovesResume(f: R.BasketFile)
    requires f == R.BasketFile(FileOf([SmallFrame(1), SmallFrame(2)]), [EntryFor(SmallFrame(1), BASKET_HDR)], 1)
    ensures R.ClosedAs(f, [SmallFrame(1)]) && InTimeOrder([SmallFrame(1)]) && Index([SmallFrame(1)]) != []
    ensures CountedPoint(f) == AppendPoint(End([SmallFrame(1), SmallFrame(2)]), IndexNumToPos(1))
    ensures End([SmallFrame(1)]) < End([SmallFrame(1), SmallFrame(2)])
  {
    hide Bytes, TotalSize, Holds, ScanEnd, EncodeRec, Index, HdrAt;
    var v, w := SmallFrame(1), SmallFrame(2);
    var both := [v, w];
    FileHolds(both);
    IndexOfOne(v);
    assert both == [v] + [w];
    HoldsPrefix(f.bkt, [v], [w]);
    Append([v], w);
    FirstPlace(both);
    ScanFindsEndIff(f.bkt, both, 0);
    assert !CanRead(f.bkt, End(both), STREAM_HDR);
  }
}
