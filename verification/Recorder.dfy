/** The recorder of src/basket_rec.c: records are gathered in a stream buffer and an
    index buffer, flushed in that order, and a basket that is full, or whose day is
    over, is closed with an end marker and followed by the next one.  Every write
    either completes or fails without effect, as an input says; the header bytes and
    the reserved words that the source does not set are left open. */
module Recorder {
  import opened Layout
  import opened Log

  datatype Result = Ok | Err | Full

  /** What BKTREC_searchBasket answers: a basket, and whether it is a full one. */
  datatype Search = Found(bid: int, full: bool) | NotFound

  /** Which writes succeed: of stream bytes, of index entries, of the minute table, and
      of the headers of a basket that is being opened. */
  datatype Io = Io(stream: bool, index: bool, table: bool, header: bool)

  /** What bkt_rec_info.udf says: the basket opened last and its state, or no such file. */
  datatype RecInfo = NoInfo | Info(bid: int, flag: Flag)
  datatype Flag = Using | Stopped | IsFull

  predicate AllSucceed(io: Io) {
    io.stream && io.index && io.table && io.header
  }

  datatype VideoParam = VideoParam(ch: int, ts: Ts, frametype: int, vhdr: seq<byte>, frame: seq<byte>)
  datatype AudioParam = AudioParam(ch: int, ts: Ts, ahdr: seq<byte>, frame: seq<byte>)

  /** A basket's two files: the stream, the index entries, and the number of entries
      its index header claims. */
  datatype BasketFile = BasketFile(bkt: seq<byte>, idx: seq<IdxEntry>, count: int)

  /** The writes to the files of a basket. */
  datatype Write = StreamData | IndexData | IndexHeader | StreamHeader

  /** The disk after one write: all baskets' files; of the basket written to, how many of
      its index entries were written since it was opened and which records were flushed;
      and the logs of the baskets that are closed. */
  datatype Image = Image(write: Write, bid: int, files: map<int, BasketFile>, live: int, flushed: seq<Rec>,
    closed: map<int, seq<Rec>>)

  function Overwrite<T>(file: seq<T>, pos: nat, data: seq<T>): (f: seq<T>)
    requires pos <= |file|
    ensures |f| >= pos + |data| && f[..pos] == file[..pos] && f[pos..pos + |data|] == data
  {
    file[..pos] + data + if pos + |data| <= |file| then file[pos + |data|..] else []
  }

  /** BKTREC_checkBasketSize. */
  predicate FitsBasket(fpbasket: int, fpindex: int, framesize: int) {
    fpbasket + framesize + fpindex < BASKET_SIZE
  }

  // ---------------------------------------------------------------- what a crash leaves

  /** Every index entry written to disk is the entry of a flushed record. */
  ghost predicate RecordingSafe(f: BasketFile, live: int, flushed: seq<Rec>) {
    AllWellFormed(flushed) && Holds(f.bkt, flushed) &&
    0 <= live <= |f.idx| && live <= |Index(flushed)| && f.idx[..live] == Index(flushed)[..live]
  }

  /** A basket whose files were closed behind a log: the stream holds the records, the
      header counts the I-frames and the index lists them. */
  ghost predicate ClosedAs(f: BasketFile, log: seq<Rec>) {
    AllWellFormed(log) && Holds(f.bkt, log) &&
    f.count == |Index(log)| <= |f.idx| && f.idx[..f.count] == Index(log)
  }

  ghost predicate AllClosedAs(files: map<int, BasketFile>, closed: map<int, seq<Rec>>) {
    forall b :: b in closed ==> b in files && ClosedAs(files[b], closed[b])
  }

  /** The basket being recorded is safe, and every closed one is whole. */
  ghost predicate CrashSafe(img: Image) {
    img.bid in img.files && RecordingSafe(img.files[img.bid], img.live, img.flushed) && AllClosedAs(img.files, img.closed)
  }

  /** Hence an entry written since the basket was opened points to the start of a complete
      I-frame record, of its own channel and time, that is already on disk. */
  lemma {:induction false} CrashSafeEntries(img: Image, k: nat)
    requires CrashSafe(img) && k < img.live
    ensures var f := img.files[img.bid]; var e := f.idx[k];
      BASKET_HDR <= e.fpos && CanRead(f.bkt, e.fpos, STREAM_HDR) &&
      var h := HdrAt(f.bkt, e.fpos);
      h.id == ID_VIDEO && h.frametype == FT_IFRAME && h.ch == e.ch && h.ts == e.ts &&
      exists j :: 0 <= j < |img.flushed| && img.flushed[j].hdr == h && e.fpos == Place(img.flushed, j) &&
        CanRead(f.bkt, e.fpos, RecSize(img.flushed[j])) &&
        f.bkt[e.fpos..e.fpos + RecSize(img.flushed[j])] == EncodeRec(img.flushed[j])
  {
    var f := img.files[img.bid];
    assert f.idx[k] == f.idx[..img.live][k] == Index(img.flushed)[k];
    WhichPointsAt(img.flushed, k);
    var j := Which(img.flushed, k);
    BytesAtPlace(f.bkt, img.flushed, j);
    ReadAtPlace(f.bkt, img.flushed, j);
  }

  /** Every video record of the log was written under the same day of the month. */
  ghost predicate OnMonthDay(log: seq<Rec>, mday: int -> int, d: int) {
    forall i :: 0 <= i < |log| && IsVideo(log[i]) ==> MonthDay(mday, log[i].hdr.ts.sec) == d
  }

  // ---------------------------------------------------------------- records from parameters

  predicate VideoOk(pv: VideoParam) {
    IsWord(pv.ch) && IsWord(pv.ts.sec) && IsWord(pv.ts.usec) && IsWord(pv.frametype) && |pv.vhdr| == VSTREAM_HDR &&
    0 < |pv.frame| && STREAM_HDR + VSTREAM_HDR + |pv.frame| < BBUF_SIZE
  }

  predicate AudioOk(pa: AudioParam) {
    IsWord(pa.ch) && IsWord(pa.ts.sec) && IsWord(pa.ts.usec) && |pa.ahdr| == ASTREAM_HDR &&
    0 < |pa.frame| && STREAM_HDR + ASTREAM_HDR + |pa.frame| < BBUF_SIZE
  }

  predicate VideoRec(r: Rec, pv: VideoParam, prev: int) {
    r.hdr == StreamHdr(ID_VIDEO, pv.ch, |pv.frame|, pv.ts, pv.frametype, prev) &&
    |r.reserved| == 16 && r.sub == pv.vhdr && r.data == pv.frame
  }

  /** The source does not set the frame type of an audio header. */
  predicate AudioRec(r: Rec, pa: AudioParam, prev: int) {
    r.hdr == StreamHdr(ID_AUDIO, pa.ch, |pa.frame|, pa.ts, r.hdr.frametype, prev) && IsWord(r.hdr.frametype) &&
    |r.reserved| == 16 && r.sub == pa.ahdr && r.data == pa.frame
  }

  method AnyWord() returns (w: int)
    ensures IsWord(w)
  {
    w :| IsWord(w);
  }

  method AnyBytes(n: nat) returns (bs: seq<byte>)
    ensures |bs| == n
  {
    var zeros: seq<byte> := seq(n, _ => 0);
    assert |zeros| == n;
    bs :| |bs| == n;
  }

  method NewVideo(pv: VideoParam, prev: int) returns (r: Rec)
    requires VideoOk(pv) && IsWord(prev)
    ensures WellFormed(r) && VideoRec(r, pv, prev)
  {
    var reserved := AnyBytes(16);
    r := Rec(StreamHdr(ID_VIDEO, pv.ch, |pv.frame|, pv.ts, pv.frametype, prev), reserved, pv.vhdr, pv.frame);
  }

  method NewAudio(pa: AudioParam, prev: int) returns (r: Rec)
    requires AudioOk(pa) && IsWord(prev)
    ensures WellFormed(r) && AudioRec(r, pa, prev)
  {
    var reserved := AnyBytes(16);
    var frametype := AnyWord();
    r := Rec(StreamHdr(ID_AUDIO, pa.ch, |pa.frame|, pa.ts, frametype, prev), reserved, pa.ahdr, pa.frame);
  }

  /** The end marker carries the fields of the frame that did not fit, and no frame. */
  method NewMarker(pv: VideoParam) returns (r: Rec)
    requires VideoOk(pv)
    ensures WellFormed(r) && IsEnd(r) && IsMarker(r)
    ensures r.hdr.ch == pv.ch && r.hdr.ts == pv.ts && r.hdr.framesize == |pv.frame|
  {
    var reserved := AnyBytes(16);
    var prev := AnyWord();
    r := Rec(StreamHdr(ID_END, pv.ch, |pv.frame|, pv.ts, pv.frametype, prev), reserved, [], []);
  }

  /** The log a basket is closed with: the records, then an end marker if a video
      frame filled it. */
  ghost predicate ClosingLog(log: seq<Rec>, before: seq<Rec>, ends: bool) {
    if ends then
      |log| == |before| + 1 && log[..|before|] == before && IsMarker(log[|before|]) && IsEnd(log[|before|]) &&
      RecSize(log[|before|]) == STREAM_HDR
    else log == before
  }

  // ---------------------------------------------------------------- the stream buffer

  /** The stream file holds the flushed records, the buffer the others; gPrevFpos is
      the start of the last record, and every record links to the one before it. */
  ghost predicate StreamInv(bkt: seq<byte>, fposBkt: nat, buffered: seq<byte>, done: seq<Rec>, pend: seq<Rec>,
      prevFpos: int, carry: int)
  {
    AllWellFormed(done + pend) && fposBkt == End(done) && Holds(bkt, done) && buffered == Bytes(pend) &&
    IsWord(prevFpos) && prevFpos == LastStart(done + pend, carry) && Linked(done + pend, carry)
  }

  lemma {:induction false} StreamAppend(bkt: seq<byte>, fposBkt: nat, buffered: seq<byte>, done: seq<Rec>, pend: seq<Rec>,
      prevFpos: int, carry: int, r: Rec)
    requires StreamInv(bkt, fposBkt, buffered, done, pend, prevFpos, carry)
    requires WellFormed(r) && (!IsEnd(r) ==> r.hdr.prevFpos == prevFpos && fposBkt + |buffered| < WORD)
    ensures StreamInv(bkt, fposBkt, buffered + EncodeRec(r), done, pend + [r],
              if IsEnd(r) then prevFpos else fposBkt + |buffered|, carry)
  {
    hide Bytes, TotalSize, LastStart, Linked, WellFormed, EncodeRec;
    assert done + (pend + [r]) == (done + pend) + [r];
    Append(pend, r);
    AppendLink(done + pend, r, carry);
    StreamEnd(bkt, fposBkt, buffered, done, pend, prevFpos, carry);
  }

  /** Where the next record goes. */
  lemma {:induction false} StreamEnd(bkt: seq<byte>, fposBkt: nat, buffered: seq<byte>, done: seq<Rec>, pend: seq<Rec>,
      prevFpos: int, carry: int)
    requires StreamInv(bkt, fposBkt, buffered, done, pend, prevFpos, carry)
    ensures End(done + pend) == fposBkt + |buffered|
    ensures buffered == [] ==> pend == []
  {
    hide Bytes, Holds, LastStart, Linked, WellFormed;
    Concat(done, pend);
    assert AllWellFormed(pend) by {
      assert forall i :: 0 <= i < |pend| ==> pend[i] == (done + pend)[|done| + i];
    }
    BytesLength(pend);
    if pend != [] {
      assert TotalSize(pend) >= RecSize(pend[|pend| - 1]);
    }
  }

  lemma {:induction false} StreamFlush(bkt: seq<byte>, fposBkt: nat, buffered: seq<byte>, done: seq<Rec>, pend: seq<Rec>,
      prevFpos: int, carry: int)
    requires StreamInv(bkt, fposBkt, buffered, done, pend, prevFpos, carry)
    ensures fposBkt <= |bkt|
    ensures StreamInv(Overwrite(bkt, fposBkt, buffered), fposBkt + |buffered|, [], done + pend, [], prevFpos, carry)
  {
    hide LastStart, Linked, WellFormed, TotalSize;
    StreamEnd(bkt, fposBkt, buffered, done, pend, prevFpos, carry);
    Concat(done, pend);
    assert (done + pend) + [] == done + pend;
    OverwriteHolds(bkt, BASKET_HDR, fposBkt, buffered);
  }

  /** What lies behind a write stays. */
  lemma OverwriteBehind(file: seq<byte>, pos: nat, data: seq<byte>)
    requires pos <= |file|
    ensures Behind(Overwrite(file, pos, data), pos + |data|) == Behind(file, pos + |data|)
  {
  }

  lemma OverwriteHolds<T>(file: seq<T>, from: nat, pos: nat, data: seq<T>)
    requires from <= pos <= |file|
    ensures Overwrite(file, pos, data)[from..pos + |data|] == file[from..pos] + data
  {
  }

  // ---------------------------------------------------------------- the index buffer

  /** The index file holds the first entries of the log's index, none of them of a
      record that is not flushed, and the buffer the others. */
  ghost predicate IndexInv(idx: seq<IdxEntry>, fposIdx: nat, buffered: seq<IdxEntry>, done: seq<Rec>, pend: seq<Rec>) {
    fposIdx >= INDEX_HDR &&
    var k := IndexPosToNum(fposIdx);
    fposIdx == IndexNumToPos(k) && k <= |idx| && k <= |Index(done)| &&
    idx[..k] + buffered == Index(done + pend)
  }

  lemma {:induction false} IndexAppend(idx: seq<IdxEntry>, fposIdx: nat, buffered: seq<IdxEntry>, done: seq<Rec>, pend: seq<Rec>, r: Rec)
    requires IndexInv(idx, fposIdx, buffered, done, pend)
    ensures IndexInv(idx, fposIdx, if IsIFrame(r) then buffered + [EntryFor(r, End(done + pend))] else buffered, done, pend + [r])
  {
    hide Index, TotalSize;
    assert done + (pend + [r]) == (done + pend) + [r];
    AppendIndex(done + pend, r);
  }

  /** Flushing the stream first is what keeps the index behind it. */
  lemma {:induction false} IndexAfterStreamFlush(idx: seq<IdxEntry>, fposIdx: nat, buffered: seq<IdxEntry>, done: seq<Rec>, pend: seq<Rec>)
    requires IndexInv(idx, fposIdx, buffered, done, pend)
    ensures IndexInv(idx, fposIdx, buffered, done + pend, [])
  {
    hide Index;
    IndexOfPrefix(done, pend);
    assert (done + pend) + [] == done + pend;
  }

  lemma {:induction false} IndexFlush(idx: seq<IdxEntry>, fposIdx: nat, buffered: seq<IdxEntry>, done: seq<Rec>)
    requires IndexInv(idx, fposIdx, buffered, done, [])
    ensures var k := IndexPosToNum(fposIdx);
      k <= |idx| && IndexInv(Overwrite(idx, k, buffered), fposIdx + INDEX_DATA * |buffered|, [], done, [])
  {
    hide Index;
    var k := IndexPosToNum(fposIdx);
    assert done + [] == done;
    OverwriteHolds(idx, 0, k, buffered);
    assert idx[0..k] == idx[..k];
    assert IndexPosToNum(fposIdx + INDEX_DATA * |buffered|) == k + |buffered|;
  }

  /** At any moment the basket being recorded is safe to crash at. */
  lemma {:induction false} ImageSafe(f: BasketFile, fposBkt: nat, buffered: seq<byte>, fposIdx: nat, iBuffered: seq<IdxEntry>,
      done: seq<Rec>, pend: seq<Rec>, prevFpos: int, carry: int)
    requires StreamInv(f.bkt, fposBkt, buffered, done, pend, prevFpos, carry)
    requires IndexInv(f.idx, fposIdx, iBuffered, done, pend)
    ensures RecordingSafe(f, IndexPosToNum(fposIdx), done)
  {
    hide Bytes, Index, WellFormed, Linked, LastStart;
    IndexOfPrefix(done, pend);
    var k := IndexPosToNum(fposIdx);
    var all := Index(done + pend);
    assert all[..k] == f.idx[..k];
    assert all[..|Index(done)|][..k] == all[..k];
    assert AllWellFormed(done) by {
      assert forall i :: 0 <= i < |done| ==> done[i] == (done + pend)[i];
    }
  }

  lemma HeaderWriteHolds(file: seq<byte>, log: seq<Rec>, hdr: seq<byte>)
    requires Holds(file, log) && |hdr| == BASKET_HDR
    ensures Holds(Overwrite(file, 0, hdr), log)
  {
  }

  lemma HeaderWriteBehind(file: seq<byte>, pos: nat, hdr: seq<byte>)
    requires |hdr| == BASKET_HDR <= pos <= |file|
    ensures Behind(Overwrite(file, 0, hdr), pos) == Behind(file, pos)
  {
  }

  lemma ClosedIs(f: BasketFile, log: seq<Rec>)
    requires AllWellFormed(log) && Holds(f.bkt, log)
    requires 0 <= f.count <= |f.idx| && f.idx[..f.count] == Index(log)
    ensures ClosedAs(f, log)
  {
  }

  /** A basket that has just been opened holds no record and no entry, whatever its
      files hold from its last use. */
  lemma FreshBasket(bkt: seq<byte>, idx: seq<IdxEntry>, carry: int)
    requires |bkt| >= BASKET_HDR && IsWord(carry)
    ensures StreamInv(bkt, BASKET_HDR, [], [], [], carry, carry)
    ensures IndexInv(idx, INDEX_HDR, [], [], [])
  {
  }

  // ---------------------------------------------------------------- one write after the other

  /** The stream header is behind which both files are the same. */
  ghost predicate SameBehindHeader(f: BasketFile, g: BasketFile) {
    |g.bkt| >= BASKET_HDR && g.idx == f.idx && g.count == f.count && Behind(g.bkt, BASKET_HDR) == Behind(f.bkt, BASKET_HDR)
  }

  /** The records that were buffered go behind those that were flushed before. */
  ghost predicate StreamWritten(f: BasketFile, g: BasketFile, before: seq<Rec>, after: seq<Rec>) {
    before <= after && End(before) <= |f.bkt| &&
    g == f.(bkt := Overwrite(f.bkt, End(before), Bytes(after[|before|..])))
  }

  /** The index is brought up to the flushed records. */
  ghost predicate IndexWritten(f: BasketFile, g: BasketFile, before: int, after: int, flushed: seq<Rec>) {
    0 <= before <= |f.idx| && before <= after == |Index(flushed)| &&
    g == f.(idx := Overwrite(f.idx, before, Index(flushed)[before..]))
  }

  /** From one state of the disk to the next: one write, to the files of one basket. */
  ghost predicate OneWrite(a: Image, b: Image) {
    b.bid in a.files && b.bid in b.files && b.files == a.files[b.bid := b.files[b.bid]] &&
    (if b.write.StreamHeader? then
       SameBehindHeader(a.files[b.bid], b.files[b.bid]) && (ClosesBasket(a, b) || OpensBasket(a, b))
     else
       b.bid == a.bid && b.closed == a.closed && DataWritten(a, b))
  }

  ghost predicate DataWritten(a: Image, b: Image)
    requires b.bid in a.files && b.bid in b.files
  {
    var f, g := a.files[b.bid], b.files[b.bid];
    match b.write
    case StreamData => b.live == a.live && StreamWritten(f, g, a.flushed, b.flushed)
    case IndexData => b.flushed == a.flushed && IndexWritten(f, g, a.live, b.live, b.flushed)
    case _ => b.flushed == a.flushed && b.live == a.live && g == f.(count := b.live)
  }

  /** The basket that was recorded counts as closed, with all its entries. */
  ghost predicate ClosesBasket(a: Image, b: Image) {
    b.bid == a.bid && b.flushed == a.flushed && b.live == a.live == |Index(a.flushed)| &&
    b.closed == a.closed[a.bid := a.flushed]
  }

  /** A basket starts anew, when the one before has been closed, or goes on as it was; and it
      no longer counts as closed. */
  ghost predicate OpensBasket(a: Image, b: Image) {
    b.closed == a.closed - {b.bid} &&
    ((b.flushed == [] && b.live == 0 && Settled(a)) || (b.bid == a.bid && b.flushed == a.flushed && b.live == a.live))
  }

  /** Nothing was flushed into the basket written to last, or it has been closed. */
  ghost predicate Settled(m: Image) {
    m.flushed == [] || (m.bid in m.closed && m.closed[m.bid] == m.flushed)
  }

  /** Every state of the disk is safe to crash at, and one write leads to the next. */
  ghost predicate TrailOk(trail: seq<Image>) {
    (forall i :: 0 <= i < |trail| ==> CrashSafe(trail[i])) &&
    forall i :: 0 < i < |trail| ==> OneWrite(trail[i - 1], trail[i])
  }

  /** The last state is the one now. */
  ghost predicate UpToDate(trail: seq<Image>, files: map<int, BasketFile>, closed: map<int, seq<Rec>>,
      isOpen: bool, bid: int, fposIdx: nat, done: seq<Rec>)
  {
    if trail == [] then !isOpen
    else
      var m := trail[|trail| - 1];
      m.files == files && m.closed == closed && (isOpen || Settled(m)) &&
      (isOpen ==> fposIdx >= INDEX_HDR && m.bid == bid && m.live == IndexPosToNum(fposIdx) && m.flushed == done)
  }

  lemma {:induction false} TrailOn(trail: seq<Image>, m: Image)
    requires TrailOk(trail) && CrashSafe(m) && (trail != [] ==> OneWrite(trail[|trail| - 1], m))
    ensures TrailOk(trail + [m])
  {
    hide CrashSafe, OneWrite;
  }

  /** What a state of the disk holds of a basket. */
  function HeldBy(m: Image, b: int): seq<Rec> {
    if b == m.bid then m.flushed else if b in m.closed then m.closed[b] else []
  }

  /** The write at k opens basket b. */
  ghost predicate OpenedAt(trail: seq<Image>, k: int, b: int) {
    0 < k < |trail| && trail[k].write.StreamHeader? && trail[k].bid == b && !ClosesBasket(trail[k - 1], trail[k])
  }

  /** What was once flushed into a basket is there in every later state of the disk, unless
      the basket has been opened again in between. */
  lemma {:induction false} FlushedIsDurable(trail: seq<Image>, i: nat, j: nat, b: int)
    requires TrailOk(trail) && i <= j < |trail| && forall k :: i < k <= j ==> !OpenedAt(trail, k, b)
    ensures HeldBy(trail[i], b) <= HeldBy(trail[j], b)
    decreases j
  {
    hide CrashSafe, SameBehindHeader;
    if i < j {
      FlushedIsDurable(trail, i, j - 1, b);
      assert !OpenedAt(trail, j, b) && OneWrite(trail[j - 1], trail[j]);
      OneWriteKeeps(trail[j - 1], trail[j], b);
    }
  }

  lemma {:induction false} OneWriteKeeps(m: Image, n: Image, b: int)
    requires OneWrite(m, n) && !(n.write.StreamHeader? && n.bid == b && !ClosesBasket(m, n))
    ensures HeldBy(m, b) <= HeldBy(n, b)
  {
    hide SameBehindHeader, Index, Bytes, TotalSize;
  }

  /** From one trail to a longer one, by writes of these kinds. */
  ghost predicate Grown(trail0: seq<Image>, trail: seq<Image>, writes: seq<Write>) {
    trail0 <= trail && |trail| == |trail0| + |writes| &&
    forall i :: 0 <= i < |writes| ==> trail[|trail0| + i].write == writes[i]
  }

  lemma GrownByTwo(trail: seq<Image>, m: Image, n: Image)
    ensures (trail + [m]) + [n] == trail + [m, n] && Grown(trail, trail + [m, n], [m.write, n.write])
  {
  }

  /** With no basket open it does not matter which was. */
  lemma NotOpen(trail: seq<Image>, files: map<int, BasketFile>, closed: map<int, seq<Rec>>,
      isOpen: bool, bid: int, fposIdx: nat, done: seq<Rec>, bid': int, fposIdx': nat, done': seq<Rec>)
    requires UpToDate(trail, files, closed, isOpen, bid, fposIdx, done) && (isOpen ==> done == [])
    ensures UpToDate(trail, files, closed, false, bid', fposIdx', done')
  {
  }

  lemma GrownOn(trail0: seq<Image>, trail1: seq<Image>, trail2: seq<Image>, ws: seq<Write>, vs: seq<Write>)
    requires Grown(trail0, trail1, ws) && Grown(trail1, trail2, vs)
    ensures Grown(trail0, trail2, ws + vs)
  {
  }

  // ---------------------------------------------------------------- days

  lemma NoRecordsNoDay(log: seq<Rec>, mday: int -> int, d: int)
    ensures log == [] ==> OnMonthDay(log, mday, d)
  {
  }

  lemma MonthDayAppend(log: seq<Rec>, mday: int -> int, d: int, r: Rec)
    requires OnMonthDay(log, mday, d) && (IsVideo(r) ==> MonthDay(mday, r.hdr.ts.sec) == d)
    ensures OnMonthDay(log + [r], mday, d)
  {
  }

  /** The records of the current basket, flushed and still buffered, and what gPrevFpos was
      when it was opened; the logs of the baskets closed so far and not yet recycled; the
      disk after every write so far; and how many records the current basket held when it
      was last opened. */
  datatype Book = Book(done: seq<Rec>, pend: seq<Rec>, carry: int, closed: map<int, seq<Rec>>, trail: seq<Image>,
    since: nat)

  lemma OthersStayClosed(files: map<int, BasketFile>, closed: map<int, seq<Rec>>, bid: int, g: BasketFile)
    requires AllClosedAs(files, closed) && bid !in closed
    ensures AllClosedAs(files[bid := g], closed)
  {
    hide ClosedAs;
  }

  /** The disk after a write of the stream buffer. */
  lemma {:induction false} StreamStep(book: Book, files: map<int, BasketFile>, bid: int, fposBkt: nat, buffered: seq<byte>,
      fposIdx: nat, iBuffered: seq<IdxEntry>, prevFpos: int)
    requires bid in files && fposBkt <= |files[bid].bkt|
    requires StreamInv(files[bid].bkt, fposBkt, buffered, book.done, book.pend, prevFpos, book.carry)
    requires IndexInv(files[bid].idx, fposIdx, iBuffered, book.done, book.pend)
    requires TrailOk(book.trail) && UpToDate(book.trail, files, book.closed, true, bid, fposIdx, book.done)
    requires AllClosedAs(files, book.closed) && bid !in book.closed
    ensures var log, files' := book.done + book.pend, Rewritten(files, bid, fposBkt, buffered);
      var m := Image(StreamData, bid, files', IndexPosToNum(fposIdx), log, book.closed);
      StreamInv(files'[bid].bkt, fposBkt + |buffered|, [], log, [], prevFpos, book.carry) &&
      IndexInv(files'[bid].idx, fposIdx, iBuffered, log, []) && AllClosedAs(files', book.closed) &&
      Behind(files'[bid].bkt, fposBkt + |buffered|) == Behind(files[bid].bkt, fposBkt + |buffered|) &&
      TrailOk(book.trail + [m]) && UpToDate(book.trail + [m], files', book.closed, true, bid, fposIdx, log)
  {
    hide Bytes, Index, Linked, LastStart, WellFormed, Holds, TotalSize, ClosedAs, TrailOk, CrashSafe, RecordingSafe;
    var f, log := files[bid], book.done + book.pend;
    StreamFlush(f.bkt, fposBkt, buffered, book.done, book.pend, prevFpos, book.carry);
    IndexAfterStreamFlush(f.idx, fposIdx, iBuffered, book.done, book.pend);
    OverwriteBehind(f.bkt, fposBkt, buffered);
    var g := f.(bkt := Overwrite(f.bkt, fposBkt, buffered));
    OthersStayClosed(files, book.closed, bid, g);
    ImageSafe(g, fposBkt + |buffered|, [], fposIdx, iBuffered, log, [], prevFpos, book.carry);
    var m := Image(StreamData, bid, files[bid := g], IndexPosToNum(fposIdx), log, book.closed);
    assert log[|book.done|..] == book.pend;
    SafeNow(m);
    TrailOn(book.trail, m);
  }

  lemma {:induction false} WithinFile(bkt: seq<byte>, fposBkt: nat, buffered: seq<byte>, done: seq<Rec>, pend: seq<Rec>, prevFpos: int, carry: int)
    requires StreamInv(bkt, fposBkt, buffered, done, pend, prevFpos, carry)
    ensures fposBkt <= |bkt|
  {
    hide Bytes, TotalSize, Linked, LastStart, WellFormed;
  }

  /** The disk after a write of the index buffer, behind a flushed stream. */
  lemma {:induction false} IndexStep(book: Book, files: map<int, BasketFile>, bid: int, fposBkt: nat, buffered: seq<byte>,
      fposIdx: nat, iBuffered: seq<IdxEntry>, prevFpos: int)
    requires bid in files && book.pend == []
    requires StreamInv(files[bid].bkt, fposBkt, buffered, book.done, [], prevFpos, book.carry)
    requires IndexInv(files[bid].idx, fposIdx, iBuffered, book.done, [])
    requires TrailOk(book.trail) && UpToDate(book.trail, files, book.closed, true, bid, fposIdx, book.done)
    requires AllClosedAs(files, book.closed) && bid !in book.closed
    ensures IndexPosToNum(fposIdx) <= |files[bid].idx|
    ensures var files', fposIdx' := Reindexed(files, bid, IndexPosToNum(fposIdx), iBuffered), fposIdx + INDEX_DATA * |iBuffered|;
      var m := Image(IndexData, bid, files', IndexPosToNum(fposIdx'), book.done, book.closed);
      IndexInv(files'[bid].idx, fposIdx', [], book.done, []) && AllClosedAs(files', book.closed) &&
      TrailOk(book.trail + [m]) && UpToDate(book.trail + [m], files', book.closed, true, bid, fposIdx', book.done)
  {
    hide Bytes, Index, Linked, LastStart, WellFormed, Holds, TotalSize, ClosedAs, TrailOk, CrashSafe, RecordingSafe, StreamInv;
    var f, k := files[bid], IndexPosToNum(fposIdx);
    var fposIdx' := fposIdx + INDEX_DATA * |iBuffered|;
    IndexFlush(f.idx, fposIdx, iBuffered, book.done);
    var g := f.(idx := Overwrite(f.idx, k, iBuffered));
    OthersStayClosed(files, book.closed, bid, g);
    ImageSafe(g, fposBkt, buffered, fposIdx', [], book.done, [], prevFpos, book.carry);
    var m := Image(IndexData, bid, files[bid := g], IndexPosToNum(fposIdx'), book.done, book.closed);
    assert book.done + [] == book.done;
    assert Index(book.done)[k..] == iBuffered;
    SafeNow(m);
    TrailOn(book.trail, m);
  }

  function Reindexed(files: map<int, BasketFile>, bid: int, k: nat, entries: seq<IdxEntry>): map<int, BasketFile>
    requires bid in files && k <= |files[bid].idx|
  {
    files[bid := files[bid].(idx := Overwrite(files[bid].idx, k, entries))]
  }

  /** The disk after a write of the index header. */
  lemma {:induction false} CountStep(book: Book, files: map<int, BasketFile>, bid: int, fposIdx: nat)
    requires bid in files && bid !in book.closed && fposIdx >= INDEX_HDR
    requires TrailOk(book.trail) && UpToDate(book.trail, files, book.closed, true, bid, fposIdx, book.done)
    requires AllClosedAs(files, book.closed)
    ensures var files' := files[bid := files[bid].(count := IndexPosToNum(fposIdx))];
      var m := Image(IndexHeader, bid, files', IndexPosToNum(fposIdx), book.done, book.closed);
      AllClosedAs(files', book.closed) &&
      TrailOk(book.trail + [m]) && UpToDate(book.trail + [m], files', book.closed, true, bid, fposIdx, book.done)
  {
    hide Index, ClosedAs, Holds, AllWellFormed;
    var g := files[bid].(count := IndexPosToNum(fposIdx));
    OthersStayClosed(files, book.closed, bid, g);
    var m := Image(IndexHeader, bid, files[bid := g], IndexPosToNum(fposIdx), book.done, book.closed);
    assert CrashSafe(book.trail[|book.trail| - 1]);
    SafeNow(m);
    TrailOn(book.trail, m);
  }

  /** The disk after the write of the stream header with which a basket is closed. */
  lemma {:induction false} CloseStep(book: Book, files: map<int, BasketFile>, bid: int, fposBkt: nat, fposIdx: nat, prevFpos: int, hdr: seq<byte>)
    requires bid in files && bid !in book.closed && book.pend == [] && |hdr| == BASKET_HDR
    requires StreamInv(files[bid].bkt, fposBkt, [], book.done, [], prevFpos, book.carry)
    requires IndexInv(files[bid].idx, fposIdx, [], book.done, []) && files[bid].count == IndexPosToNum(fposIdx)
    requires TrailOk(book.trail) && UpToDate(book.trail, files, book.closed, true, bid, fposIdx, book.done)
    requires AllClosedAs(files, book.closed)
    ensures var files', closed := Rewritten(files, bid, 0, hdr), book.closed[bid := book.done];
      var m := Image(StreamHeader, bid, files', IndexPosToNum(fposIdx), book.done, closed);
      AllClosedAs(files', closed) && Behind(files'[bid].bkt, fposBkt) == Behind(files[bid].bkt, fposBkt) &&
      TrailOk(book.trail + [m]) && UpToDate(book.trail + [m], files', closed, false, bid, 0, book.done)
  {
    hide Bytes, Index, Linked, LastStart, WellFormed, TotalSize, ClosedAs, TrailOk;
    var f, k := files[bid], IndexPosToNum(fposIdx);
    var g := f.(bkt := Overwrite(f.bkt, 0, hdr));
    var closed := book.closed[bid := book.done];
    assert book.done + [] == book.done && f.idx[..k] + [] == f.idx[..k];
    HeaderWriteHolds(f.bkt, book.done, hdr);
    HeaderWriteBehind(f.bkt, fposBkt, hdr);
    OverwriteBehind(f.bkt, 0, hdr);
    ClosedIs(g, book.done);
    OneMoreClosed(files, book.closed, bid, g, book.done);
    var m := Image(StreamHeader, bid, files[bid := g], k, book.done, closed);
    SafeNow(m);
    TrailOn(book.trail, m);
  }

  lemma OneMoreClosed(files: map<int, BasketFile>, closed: map<int, seq<Rec>>, bid: int, g: BasketFile, log: seq<Rec>)
    requires AllClosedAs(files, closed) && ClosedAs(g, log)
    ensures AllClosedAs(files[bid := g], closed[bid := log])
  {
    hide ClosedAs;
  }

  /** The disk after the write of the stream header with which a basket is opened anew. */
  lemma {:induction false} OpenStep(book: Book, files: map<int, BasketFile>, bid: int, fposIdx: nat, newbid: int, hdr: seq<byte>)
    requires newbid in files && |hdr| == BASKET_HDR
    requires TrailOk(book.trail) && UpToDate(book.trail, files, book.closed, false, bid, fposIdx, book.done)
    requires AllClosedAs(files, book.closed)
    ensures var files', closed := Rewritten(files, newbid, 0, hdr), book.closed - {newbid};
      var m := Image(StreamHeader, newbid, files', 0, [], closed);
      AllClosedAs(files', closed) && TrailOk(book.trail + [m]) && UpToDate(book.trail + [m], files', closed, true, newbid, INDEX_HDR, [])
  {
    hide ClosedAs, TrailOk;
    var f := files[newbid];
    var g := f.(bkt := Overwrite(f.bkt, 0, hdr));
    var closed := book.closed - {newbid};
    OverwriteBehind(f.bkt, 0, hdr);
    OthersStayClosed(files, closed, newbid, g);
    var m := Image(StreamHeader, newbid, files[newbid := g], 0, [], closed);
    NothingToLose(g);
    SafeNow(m);
    TrailOn(book.trail, m);
  }

  lemma NothingToLose(f: BasketFile)
    requires |f.bkt| >= BASKET_HDR
    ensures RecordingSafe(f, 0, [])
  {
  }

  function Rewritten(files: map<int, BasketFile>, bid: int, pos: nat, bytes: seq<byte>): map<int, BasketFile>
    requires bid in files && pos <= |files[bid].bkt|
  {
    files[bid := files[bid].(bkt := Overwrite(files[bid].bkt, pos, bytes))]
  }

  lemma SafeNow(m: Image)
    requires m.bid in m.files && RecordingSafe(m.files[m.bid], m.live, m.flushed) && AllClosedAs(m.files, m.closed)
    ensures CrashSafe(m)
  {
  }

  lemma {:induction false} DayAppend(book: Book, mday: int -> int, d: int, r: Rec)
    requires book.since <= |book.done + book.pend| && OnMonthDay((book.done + book.pend)[book.since..], mday, d)
    requires IsVideo(r) ==> MonthDay(mday, r.hdr.ts.sec) == d
    ensures OnMonthDay((book.done + (book.pend + [r]))[book.since..], mday, d)
  {
    hide OnMonthDay, MonthDay;
    var log := book.done + book.pend;
    MonthDayAppend(log[book.since..], mday, d, r);
    assert book.done + (book.pend + [r]) == log + [r];
    assert (log + [r])[book.since..] == log[book.since..] + [r];
  }

  /** What the invariants say with one more record buffered. */
  lemma {:induction false} RecordStep(book: Book, f: BasketFile, fposBkt: nat, buffered: seq<byte>, fposIdx: nat, listed: seq<IdxEntry>,
      prevFpos: int, mday: int -> int, day: int, r: Rec)
    requires StreamInv(f.bkt, fposBkt, buffered, book.done, book.pend, prevFpos, book.carry)
    requires IndexInv(f.idx, fposIdx, listed, book.done, book.pend) && IsLink(prevFpos)
    requires book.since <= |book.done + book.pend| && OnMonthDay((book.done + book.pend)[book.since..], mday, day)
    requires WellFormed(r) && (IsVideo(r) ==> MonthDay(mday, r.hdr.ts.sec) == day)
    requires !IsEnd(r) ==> r.hdr.prevFpos == prevFpos && fposBkt + |buffered| < WORD
    ensures var pend, last := book.pend + [r], if IsEnd(r) then prevFpos else fposBkt + |buffered|;
      StreamInv(f.bkt, fposBkt, buffered + EncodeRec(r), book.done, pend, last, book.carry) && IsWord(last) && IsLink(last) &&
      IndexInv(f.idx, fposIdx, if IsIFrame(r) then listed + [EntryFor(r, fposBkt + |buffered|)] else listed, book.done, pend) &&
      book.since <= |book.done + pend| && OnMonthDay((book.done + pend)[book.since..], mday, day)
  {
    hide MonthDay, IndexInv, OnMonthDay, EncodeRec, IsEnd, IsIFrame, IsLink, EntryFor, TotalSize, Bytes, Linked, LastStart, WellFormed;
    StreamEnd(f.bkt, fposBkt, buffered, book.done, book.pend, prevFpos, book.carry);
    StreamAppend(f.bkt, fposBkt, buffered, book.done, book.pend, prevFpos, book.carry, r);
    IndexAppend(f.idx, fposIdx, listed, book.done, book.pend, r);
    DayAppend(book, mday, day, r);
    EndIsLink(book.done + book.pend);
  }

  function Front(s: seq<Rec>): seq<Rec>
    requires s != []
  {
    s[..|s| - 1]
  }

  lemma FrontOfSnoc(done: seq<Rec>, pend: seq<Rec>, r: Rec)
    ensures Front(done + (pend + [r])) == done + pend
  {
  }

  /** From the log of basket bid0 to the log that a write appends to: the same one, or an
      empty one in the basket that was found, when bid0 has been closed. */
  ghost predicate Moved(rolls: bool, ends: bool, search: Search, log: seq<Rec>, before: seq<Rec>,
      bid0: int, closed0: map<int, seq<Rec>>, bid: int, closed: map<int, seq<Rec>>)
  {
    (!rolls ==> log == before && bid == bid0 && closed == closed0) &&
    (rolls ==> log == [] && search.Found? && bid == search.bid) &&
    (rolls ==> exists c :: ClosingLog(c, before, ends) && closed == closed0[bid0 := c] - {bid})
  }

  /** A basket that was found but could not be opened no longer counts as closed. */
  ghost predicate ClosedTo(search: Search, closed1: map<int, seq<Rec>>, closed: map<int, seq<Rec>>) {
    closed == closed1 || (search.Found? && closed == closed1 - {search.bid})
  }

  predicate UsableIn(search: Search, bids: set<int>, recycleOnce: bool) {
    search.Found? && search.bid in bids && !(search.full && recycleOnce)
  }

  // ---------------------------------------------------------------- what a call comes to

  /** What decides which writes a call makes: the positions, the day and r_skip. */
  datatype Gauge = Gauge(isOpen: bool, fposBkt: nat, bPos: nat, fposIdx: nat, iPos: nat, prevDay: int, rSkip: bool)

  /** A call's result, the gauge after it, and the writes that it completed, in order. */
  datatype Effect = Effect(r: Result, gauge: Gauge, writes: seq<Write>)

  /** What stays the same over a run: the calendar, the baskets, the recycle mode. */
  datatype Setting = Setting(mday: int -> int, bids: set<int>, recycleOnce: bool)

  /** What is buffered is written, if it is anything. */
  function StreamEffect(g: Gauge, ok: bool): Effect {
    if g.bPos == 0 then Effect(Ok, g, [])
    else if ok then Effect(Ok, g.(fposBkt := g.fposBkt + g.bPos, bPos := 0), [StreamData])
    else Effect(Err, g, [])
  }

  function IndexEffect(g: Gauge, ok: bool): Effect {
    if g.iPos == 0 then Effect(Ok, g, [])
    else if ok then Effect(Ok, g.(fposIdx := g.fposIdx + g.iPos, iPos := 0), [IndexData])
    else Effect(Err, g, [])
  }

  /** The stream first, then the index, then the minute table if it may be flushed; the
      first that fails ends it. */
  function FlushEffect(g: Gauge, io: Io): Effect {
    var e := StreamEffect(g, io.stream);
    if e.r != Ok then e
    else
      var f := IndexEffect(e.gauge, io.index);
      Effect(if f.r == Ok && g.rSkip && !io.table then Err else f.r, f.gauge, e.writes + f.writes)
  }

  /** Headers are written of a basket that was found and may be used. */
  function OpenEffect(g: Gauge, search: Search, io: Io, st: Setting): Effect {
    if !UsableIn(search, st.bids, st.recycleOnce) then
      Effect(if search.Found? && search.full && st.recycleOnce then Full else Err, g, [])
    else if !io.header then Effect(Err, g, [StreamHeader])
    else Effect(Ok, g.(isOpen := true, fposBkt := BASKET_HDR, fposIdx := INDEX_HDR), [StreamHeader, IndexHeader])
  }

  /** Flush, close, open. */
  function ChangeEffect(g: Gauge, search: Search, io: Io, st: Setting): Effect {
    var e := FlushEffect(g, io);
    if e.r != Ok then e
    else
      var o := OpenEffect(e.gauge.(isOpen := false, fposBkt := 0, fposIdx := 0), search, io, st);
      Effect(o.r, o.gauge, e.writes + [IndexHeader, StreamHeader] + o.writes)
  }

  /** Before a video record is buffered. */
  function VideoRoom(g: Gauge, pv: VideoParam, search: Search, io: Io, st: Setting): Effect {
    if VideoRolls(g, pv, st) then ChangeEffect(g.(bPos := g.bPos + STREAM_HDR, rSkip := false), search, io, st)
    else if VideoFills(g, pv) then FlushEffect(g.(rSkip := true), io)
    else Effect(Ok, g, [])
  }

  predicate VideoRolls(g: Gauge, pv: VideoParam, st: Setting) {
    !FitsBasket(g.fposBkt, g.fposIdx, g.bPos + STREAM_HDR + VSTREAM_HDR + |pv.frame| + g.iPos + INDEX_DATA) ||
    g.prevDay != MonthDay(st.mday, pv.ts.sec)
  }

  /** A basket is left when what is written, what is buffered and what comes reach its size in
      both files together; or on another day of the month. */
  lemma VideoRollsIff(g: Gauge, pv: VideoParam, st: Setting)
    ensures VideoRolls(g, pv, st) <==>
      g.fposBkt + g.bPos + g.fposIdx + g.iPos + STREAM_HDR + VSTREAM_HDR + |pv.frame| + INDEX_DATA >= BASKET_SIZE ||
      g.prevDay != st.mday(pv.ts.sec / 86400)
  {
  }

  lemma AudioRollsIff(g: Gauge, pa: AudioParam)
    ensures AudioRolls(g, pa) <==>
      g.fposBkt + g.bPos + g.fposIdx + g.iPos + STREAM_HDR + ASTREAM_HDR + |pa.frame| >= BASKET_SIZE
  {
  }

  predicate VideoFills(g: Gauge, pv: VideoParam) {
    g.bPos + STREAM_HDR + VSTREAM_HDR + |pv.frame| >= BBUF_SIZE || g.iPos + INDEX_DATA >= IBUF_SIZE
  }

  predicate AudioRolls(g: Gauge, pa: AudioParam) {
    !FitsBasket(g.fposBkt, g.fposIdx, g.bPos + STREAM_HDR + ASTREAM_HDR + |pa.frame| + g.iPos)
  }

  predicate AudioFills(g: Gauge, pa: AudioParam) {
    g.bPos + STREAM_HDR + ASTREAM_HDR + |pa.frame| >= BBUF_SIZE
  }

  function VideoEffect(g: Gauge, pv: VideoParam, search: Search, io: Io, st: Setting): Effect {
    var e := VideoRoom(g, pv, search, io, st);
    if e.r != Ok then e
    else
      e.(gauge := e.gauge.(bPos := e.gauge.bPos + STREAM_HDR + VSTREAM_HDR + |pv.frame|,
        iPos := e.gauge.iPos + if pv.frametype == FT_IFRAME then INDEX_DATA else 0, prevDay := MonthDay(st.mday, pv.ts.sec)))
  }

  /** Before an audio record is buffered. */
  function AudioRoom(g: Gauge, pa: AudioParam, search: Search, io: Io, st: Setting): Effect {
    if AudioRolls(g, pa) then ChangeEffect(g, search, io, st)
    else if AudioFills(g, pa) then FlushEffect(g, io)
    else Effect(Ok, g, [])
  }

  function AudioEffect(g: Gauge, pa: AudioParam, search: Search, io: Io, st: Setting): Effect {
    var e := AudioRoom(g, pa, search, io, st);
    if e.r != Ok then e else e.(gauge := e.gauge.(bPos := e.gauge.bPos + STREAM_HDR + ASTREAM_HDR + |pa.frame|))
  }

  /** A call did this. */
  ghost predicate Came(e: Effect, r: Result, gauge: Gauge, trail0: seq<Image>, trail: seq<Image>) {
    r == e.r && gauge == e.gauge && Grown(trail0, trail, e.writes)
  }

  /** A flush needs what it has to write. */
  predicate FlushSucceeds(bPos: int, iPos: int, rSkip: bool, io: Io) {
    (bPos == 0 || io.stream) && (iPos == 0 || io.index) && (!rSkip || io.table)
  }

  /** A change of baskets needs also a basket and its headers; a frame that fits needs
      nothing. */
  predicate VideoSucceeds(g: Gauge, pv: VideoParam, search: Search, io: Io, st: Setting) {
    if VideoRolls(g, pv, st) then
      io.stream && (g.iPos == 0 || io.index) && UsableIn(search, st.bids, st.recycleOnce) && io.header
    else VideoFills(g, pv) ==> FlushSucceeds(g.bPos, g.iPos, true, io)
  }

  predicate AudioSucceeds(g: Gauge, pa: AudioParam, search: Search, io: Io, st: Setting) {
    if AudioRolls(g, pa) then
      FlushSucceeds(g.bPos, g.iPos, g.rSkip, io) && UsableIn(search, st.bids, st.recycleOnce) && io.header
    else AudioFills(g, pa) ==> FlushSucceeds(g.bPos, g.iPos, g.rSkip, io)
  }

  lemma FlushCase(g: Gauge, io: Io)
    ensures FlushEffect(g, io).r == Ok <==> FlushSucceeds(g.bPos, g.iPos, g.rSkip, io)
    ensures FlushEffect(g, io).r != Full && FlushEffect(g, io).gauge.isOpen == g.isOpen
    ensures var e := FlushEffect(g, io); e.r == Ok ==>
      e.gauge == g.(fposBkt := g.fposBkt + g.bPos, bPos := 0, fposIdx := g.fposIdx + g.iPos, iPos := 0)
  {
  }

  lemma {:induction false} ChangeCase(g: Gauge, search: Search, io: Io, st: Setting)
    ensures var e := ChangeEffect(g, search, io, st);
      (e.r == Ok <==> FlushSucceeds(g.bPos, g.iPos, g.rSkip, io) && UsableIn(search, st.bids, st.recycleOnce) && io.header) &&
      (e.r == Full <==> FlushSucceeds(g.bPos, g.iPos, g.rSkip, io) && search.Found? && search.full && st.recycleOnce) &&
      (e.r == Ok ==> e.gauge == g.(isOpen := true, fposBkt := BASKET_HDR, bPos := 0, fposIdx := INDEX_HDR, iPos := 0)) &&
      (g.bPos != 0 && !io.stream ==> e == Effect(Err, g, []))
  {
    FlushCase(g, io);
  }

  /** Exactly when a video frame is taken, and when the disk is reported full. */
  lemma {:induction false} VideoCase(g: Gauge, pv: VideoParam, search: Search, io: Io, st: Setting)
    ensures VideoRoom(g, pv, search, io, st).r == Ok <==> VideoSucceeds(g, pv, search, io, st)
    ensures VideoRoom(g, pv, search, io, st).r == Full <==>
      VideoRolls(g, pv, st) && io.stream && (g.iPos == 0 || io.index) && search.Found? && search.full && st.recycleOnce
    ensures VideoRolls(g, pv, st) && !io.stream ==>
      VideoRoom(g, pv, search, io, st) == Effect(Err, g.(bPos := g.bPos + STREAM_HDR, rSkip := false), [])
  {
    hide FlushEffect, ChangeEffect, MonthDay, FitsBasket;
    ChangeCase(g.(bPos := g.bPos + STREAM_HDR, rSkip := false), search, io, st);
    FlushCase(g.(rSkip := true), io);
  }

  lemma {:induction false} AudioCase(g: Gauge, pa: AudioParam, search: Search, io: Io, st: Setting)
    ensures AudioRoom(g, pa, search, io, st).r == Ok <==> AudioSucceeds(g, pa, search, io, st)
    ensures AudioRoom(g, pa, search, io, st).r == Full <==>
      AudioRolls(g, pa) && FlushSucceeds(g.bPos, g.iPos, g.rSkip, io) && search.Found? && search.full && st.recycleOnce
  {
    hide FlushEffect, ChangeEffect, FitsBasket;
    ChangeCase(g, search, io, st);
    FlushCase(g, io);
  }

  /** After room was made for a video frame, it fits in the buffers and in the basket. */
  lemma {:induction false} VideoFits(g: Gauge, pv: VideoParam, search: Search, io: Io, st: Setting)
    requires VideoOk(pv) && g.isOpen && g.fposBkt + g.bPos + 2 * BBUF_SIZE < WORD && g.iPos < IBUF_SIZE
    ensures var e, size := VideoRoom(g, pv, search, io, st), STREAM_HDR + VSTREAM_HDR + |pv.frame|;
      e.r == Ok ==>
        e.gauge.isOpen && e.gauge.bPos + size < BBUF_SIZE && e.gauge.iPos + INDEX_DATA < IBUF_SIZE &&
        e.gauge.fposBkt + e.gauge.bPos < WORD &&
        FitsBasket(e.gauge.fposBkt, e.gauge.fposIdx, e.gauge.bPos + size + e.gauge.iPos + INDEX_DATA)
  {
    hide FlushEffect, ChangeEffect, MonthDay;
    ChangeCase(g.(bPos := g.bPos + STREAM_HDR, rSkip := false), search, io, st);
    FlushCase(g.(rSkip := true), io);
  }

  lemma {:induction false} AudioFits(g: Gauge, pa: AudioParam, search: Search, io: Io, st: Setting)
    requires AudioOk(pa) && g.isOpen && g.fposBkt + g.bPos + 2 * BBUF_SIZE < WORD
    ensures var e, size := AudioRoom(g, pa, search, io, st), STREAM_HDR + ASTREAM_HDR + |pa.frame|;
      e.r == Ok ==>
        e.gauge.isOpen && e.gauge.bPos + size < BBUF_SIZE && e.gauge.iPos <= g.iPos &&
        e.gauge.fposBkt + e.gauge.bPos < WORD &&
        FitsBasket(e.gauge.fposBkt, e.gauge.fposIdx, e.gauge.bPos + size + e.gauge.iPos)
  {
    hide FlushEffect, ChangeEffect;
    ChangeCase(g, search, io, st);
    FlushCase(g, io);
  }

  lemma GrownNot(trail: seq<Image>)
    ensures Grown(trail, trail, [])
  {
  }

  lemma GrownByOne(trail0: seq<Image>, trail1: seq<Image>, ws: seq<Write>, m: Image)
    requires Grown(trail0, trail1, ws)
    ensures Grown(trail0, trail1 + [m], ws + [m.write])
  {
  }

  lemma {:induction false} ChangeCame(g: Gauge, search: Search, io: Io, st: Setting, g1: Gauge, r: Result, g3: Gauge,
      trail0: seq<Image>, trail1: seq<Image>, trail2: seq<Image>, trail3: seq<Image>)
    requires Came(FlushEffect(g, io), Ok, g1, trail0, trail1)
    requires Grown(trail1, trail2, [IndexHeader, StreamHeader])
    requires Came(OpenEffect(g1.(isOpen := false, fposBkt := 0, fposIdx := 0), search, io, st), r, g3, trail2, trail3)
    ensures Came(ChangeEffect(g, search, io, st), r, g3, trail0, trail3)
  {
    hide FlushEffect, OpenEffect;
    var ws, vs := FlushEffect(g, io).writes, OpenEffect(g1.(isOpen := false, fposBkt := 0, fposIdx := 0), search, io, st).writes;
    GrownOn(trail0, trail1, trail2, ws, [IndexHeader, StreamHeader]);
    GrownOn(trail0, trail2, trail3, ws + [IndexHeader, StreamHeader], vs);
  }

  lemma CameGrown(e: Effect, r: Result, gauge: Gauge, trail0: seq<Image>, trail: seq<Image>)
    requires Came(e, r, gauge, trail0, trail)
    ensures Grown(trail0, trail, e.writes) && e.writes + [] == e.writes
  {
  }

  class Recorder {
    /** Day number to day of the month, the only thing of the calendar the recorder
        looks at. */
    const mday: int -> int

    var files: map<int, BasketFile>
    var isOpen: bool
    var bid: int
    var fposBkt: nat
    var fposIdx: nat
    const bBuf: array<byte>
    var bPos: nat
    const iBuf: array<IdxEntry>
    var iPos: nat
    var prevDay: int
    var prevFpos: int
    var rSkip: bool
    var recInfo: RecInfo
    /** Record-once mode; it is set before recording starts. */
    const recycleOnce: bool

    ghost var book: Book

    ghost function CurrentLog(): seq<Rec>
      reads this
    {
      book.done + book.pend
    }

    ghost predicate Buffers()
      reads this
    {
      bBuf.Length == BBUF_SIZE + STREAM_HDR && iBuf.Length == IBUF_SIZE / INDEX_DATA
    }

    ghost predicate StreamValid()
      reads this, bBuf
      requires Buffers()
    {
      bid in files && bPos <= bBuf.Length &&
      StreamInv(files[bid].bkt, fposBkt, bBuf[..bPos], book.done, book.pend, prevFpos, book.carry) &&
      book.since <= |book.done + book.pend| && OnMonthDay((book.done + book.pend)[book.since..], mday, prevDay) && IsLink(book.carry)
    }

    ghost predicate IndexValid()
      reads this, iBuf
      requires Buffers()
    {
      bid in files && iPos % INDEX_DATA == 0 && iPos / INDEX_DATA <= iBuf.Length &&
      IndexInv(files[bid].idx, fposIdx, iBuf[..iPos / INDEX_DATA], book.done, book.pend)
    }

    ghost predicate Valid()
      reads this, bBuf, iBuf
    {
      Buffers() && IsWord(prevFpos) && IsLink(prevFpos) &&
      (isOpen ==> StreamValid() && IndexValid() && bid !in book.closed && recInfo == Info(bid, Using)) &&
      AllClosedAs(files, book.closed) && TrailValid()
    }

    /** The disk after every write so far, up to now. */
    ghost predicate TrailValid()
      reads this
    {
      TrailOk(book.trail) && UpToDate(book.trail, files, book.closed, isOpen, bid, fposIdx, book.done)
    }

    /** The disk as it is after a write. */
    ghost function Disk(write: Write): Image
      requires fposIdx >= INDEX_HDR
      reads this
    {
      Image(write, bid, files, IndexPosToNum(fposIdx), book.done, book.closed)
    }

    ghost function GaugeNow(): Gauge
      reads this
    {
      Gauge(isOpen, fposBkt, bPos, fposIdx, iPos, prevDay, rSkip)
    }

    ghost function Given(): Setting
      reads this`files
    {
      Setting(mday, files.Keys, recycleOnce)
    }

    /** What the invariants say about positions and links. */
    lemma {:induction false} AtRest()
      requires Valid() && isOpen
      ensures End(CurrentLog()) == fposBkt + bPos && IndexNumToPos(|Index(CurrentLog())|) == fposIdx + iPos
      ensures Linked(CurrentLog(), book.carry) && prevFpos == LastStart(CurrentLog(), book.carry) && IsLink(book.carry)
    {
      hide CrashSafe, ClosedAs, OnMonthDay, Bytes, Index, TotalSize, LastStart, Linked, WellFormed;
      StreamEnd(files[bid].bkt, fposBkt, bBuf[..bPos], book.done, book.pend, prevFpos, book.carry);
    }

    /** The bounds after every successful write. */
    ghost predicate WithinBounds()
      reads this
    {
      fposBkt + bPos + fposIdx + iPos < BASKET_SIZE && bPos < BBUF_SIZE && iPos < IBUF_SIZE
    }

    /** What the source needs before it appends anything: the stream buffer is not
        overfull and file offsets fit in 32 bits. */
    ghost predicate RoomForMarker()
      reads this
    {
      bPos < BBUF_SIZE && fposBkt + bPos + 2 * BBUF_SIZE < WORD
    }

    constructor (mday: int -> int, files: map<int, BasketFile>, recycleOnce: bool)
      ensures Valid() && !isOpen && book.closed == map[] && book.trail == [] && this.files == files && this.mday == mday
      ensures prevFpos == 0 && recInfo == NoInfo && bPos == 0 && iPos == 0 && this.recycleOnce == recycleOnce
      ensures fresh(bBuf) && fresh(iBuf)
    {
      this.mday := mday;
      this.files := files;
      isOpen, bid, fposBkt, fposIdx, bPos, iPos := false, 0, 0, 0, 0, 0;
      this.recycleOnce := recycleOnce;
      prevDay, prevFpos, rSkip, recInfo := -1, 0, false, NoInfo;
      bBuf := new byte[BBUF_SIZE + STREAM_HDR](_ => 0);
      iBuf := new IdxEntry[IBUF_SIZE / INDEX_DATA](_ => IdxEntry(0, Ts(0, 0), 0, 0, []));
      book := Book([], [], 0, map[], [], 0);
    }

    ghost predicate Stays(fposBkt0: int, fposIdx0: int, iPos0: int)
      reads this`fposBkt, this`fposIdx, this`iPos
    {
      fposBkt == fposBkt0 && fposIdx == fposIdx0 && iPos == iPos0
    }

    // -------------------------------------------------------------- single writes

    /** One write of the stream buffer at the file's position.  On success the disk
        has a new state. */
    method WriteStream(ok: bool)
      requires Valid() && isOpen
      modifies this`files, this`book, this`fposBkt, this`bPos
      ensures Valid() && fposIdx >= INDEX_HDR
      ensures book == old(book).(done := book.done, pend := book.pend, trail := book.trail)
      ensures book.done + book.pend == old(book.done + book.pend)
      ensures ok ==> bPos == 0 && book.pend == [] && fposBkt == old(fposBkt) + old(bPos)
      ensures !ok ==> bPos == old(bPos) && book.pend == old(book.pend) && fposBkt == old(fposBkt) && files == old(files)
      ensures files.Keys == old(files.Keys) && files[bid].idx == old(files)[bid].idx && files[bid].count == old(files)[bid].count
      ensures files == old(files)[bid := files[bid]]
      ensures Behind(files[bid].bkt, fposBkt + bPos) == old(Behind(files[bid].bkt, fposBkt + bPos))
      ensures book.trail == if ok then old(book.trail) + [Disk(StreamData)] else old(book.trail)
    {
      hide StreamInv, IndexInv, ClosedAs, OnMonthDay, TrailOk, UpToDate, AllClosedAs, IsLink, Behind;
      IndexPosition();
      if ok {
        var f := files[bid];
        WithinFile(f.bkt, fposBkt, bBuf[..bPos], book.done, book.pend, prevFpos, book.carry);
        StreamStep(book, files, bid, fposBkt, bBuf[..bPos], fposIdx, iBuf[..iPos / INDEX_DATA], prevFpos);
        files := files[bid := f.(bkt := Overwrite(f.bkt, fposBkt, bBuf[..bPos]))];
        fposBkt := fposBkt + bPos;
        bPos := 0;
        book := book.(done := book.done + book.pend, pend := []);
        assert book.done + book.pend == book.done;
        assert bBuf[..bPos] == [];
        book := book.(trail := book.trail + [Disk(StreamData)]);
      }
    }

    lemma BeforeFlush()
      requires Valid() && isOpen
      ensures bid in files && fposIdx >= INDEX_HDR && (bPos == 0 ==> book.pend == [])
    {
      hide ClosedAs, OnMonthDay, TrailOk, UpToDate, AllClosedAs;
      StreamEnd(files[bid].bkt, fposBkt, bBuf[..bPos], book.done, book.pend, prevFpos, book.carry);
    }

    lemma IndexPosition()
      requires Valid() && isOpen
      ensures fposIdx >= INDEX_HDR
    {
    }

    /** One write of the index buffer; only after the stream buffer has been flushed. */
    method WriteIndex(ok: bool)
      requires Valid() && isOpen && book.pend == []
      modifies this`files, this`book, this`fposIdx, this`iPos
      ensures Valid() && fposIdx >= INDEX_HDR
      ensures ok ==> iPos == 0 && fposIdx == old(fposIdx) + old(iPos)
      ensures !ok ==> iPos == old(iPos) && fposIdx == old(fposIdx) && files == old(files)
      ensures book == old(book).(trail := if ok then old(book.trail) + [Disk(IndexData)] else old(book.trail))
      ensures files.Keys == old(files.Keys) && files[bid].bkt == old(files)[bid].bkt && files[bid].count == old(files)[bid].count
      ensures files == old(files)[bid := files[bid]]
    {
      hide StreamInv, IndexInv, ClosedAs, OnMonthDay, TrailOk, UpToDate, AllClosedAs, IsLink;
      IndexPosition();
      if ok {
        var f := files[bid];
        var k, m := IndexPosToNum(fposIdx), iPos / INDEX_DATA;
        IndexStep(book, files, bid, fposBkt, bBuf[..bPos], fposIdx, iBuf[..m], prevFpos);
        files := files[bid := f.(idx := Overwrite(f.idx, k, iBuf[..m]))];
        fposIdx := fposIdx + iPos;
        iPos := 0;
        assert iBuf[..iPos / INDEX_DATA] == [];
        book := book.(trail := book.trail + [Disk(IndexData)]);
      }
    }

    /** BKTREC_FlushWriteBuffer: stream first, then index, then the minute table, whose
        own flush may fail.  The disk has one new state for every write that succeeds; the
        first of two has the index files as they were. */
    method FlushWriteBuffer(io: Io) returns (r: Result)
      requires Valid() && isOpen
      modifies this`files, this`book, this`fposBkt, this`bPos, this`fposIdx, this`iPos
      ensures Valid() && r != Full && fposIdx >= INDEX_HDR && old(fposIdx) >= INDEX_HDR
      ensures book.done + book.pend == old(book.done + book.pend) && book.closed == old(book.closed) && book.carry == old(book.carry)
      ensures fposBkt + bPos == old(fposBkt + bPos) && fposIdx + iPos == old(fposIdx + iPos)
      ensures r == Ok ==> bPos == 0 && iPos == 0 && book.pend == []
      ensures book.since == old(book.since)
      ensures r == Ok <==> FlushSucceeds(old(bPos), old(iPos), rSkip, io)
      ensures files.Keys == old(files.Keys) && Behind(files[bid].bkt, fposBkt + bPos) == old(Behind(files[bid].bkt, fposBkt + bPos))
      ensures files == old(files)[bid := files[bid]]
      ensures var wroteStream := old(bPos) != 0 && io.stream;
        var wroteIndex := (old(bPos) == 0 || io.stream) && old(iPos) != 0 && io.index;
        var between := old(files)[bid := files[bid].(idx := old(files)[bid].idx)];
        book.trail == old(book.trail) +
          (if wroteStream then [Image(StreamData, bid, between, IndexPosToNum(old(fposIdx)), book.done, book.closed)] else []) +
          (if wroteIndex then [Disk(IndexData)] else [])
      ensures Came(FlushEffect(old(GaugeNow()), io), r, GaugeNow(), old(book.trail), book.trail)
    {
      hide Valid, Behind, Grown, StreamEffect, IndexEffect;
      BeforeFlush();
      FlushCase(GaugeNow(), io);
      ghost var e, trail0 := StreamEffect(GaugeNow(), io.stream), book.trail;
      r := FlushStream(io.stream);
      if r != Ok {
        return;
      }
      ghost var f, trail1 := IndexEffect(GaugeNow(), io.index), book.trail;
      r := FlushIndex(io.index);
      GrownOn(trail0, trail1, book.trail, e.writes, f.writes);
      if r == Ok && rSkip {
        if !io.table {
          r := Err;
        }
      }
    }

    /** The stream's part of a flush. */
    method FlushStream(ok: bool) returns (r: Result)
      requires Valid() && isOpen
      modifies this`files, this`book, this`fposBkt, this`bPos
      ensures Valid() && r == (if old(bPos) == 0 || ok then Ok else Err) && fposIdx >= INDEX_HDR && bid in files && bid in old(files)
      ensures book == old(book).(done := book.done, pend := book.pend, trail := book.trail)
      ensures book.done + book.pend == old(book.done + book.pend) && (r == Ok ==> book.pend == [])
      ensures fposBkt + bPos == old(fposBkt + bPos) && (r == Ok ==> bPos == 0)
      ensures files == old(files)[bid := old(files)[bid].(bkt := files[bid].bkt)]
      ensures Behind(files[bid].bkt, fposBkt + bPos) == old(Behind(files[bid].bkt, fposBkt + bPos))
      ensures book.trail == if old(bPos) != 0 && ok then old(book.trail) + [Disk(StreamData)] else old(book.trail)
      ensures Came(StreamEffect(old(GaugeNow()), ok), r, GaugeNow(), old(book.trail), book.trail)
    {
      hide Valid, Behind, Grown;
      BeforeFlush();
      GrownNot(book.trail);
      ghost var trail := book.trail;
      if bPos != 0 {
        WriteStream(ok);
        if !ok {
          return Err;
        }
        GrownByOne(trail, trail, [], Disk(StreamData));
        assert [] + [StreamData] == [StreamData];
      }
      return Ok;
    }

    /** The index's part, behind it. */
    method FlushIndex(ok: bool) returns (r: Result)
      requires Valid() && isOpen && book.pend == []
      modifies this`files, this`book, this`fposIdx, this`iPos
      ensures Valid() && r == (if old(iPos) == 0 || ok then Ok else Err) && fposIdx >= INDEX_HDR && bid in files && bid in old(files)
      ensures fposIdx + iPos == old(fposIdx + iPos) && (r == Ok ==> iPos == 0)
      ensures book == old(book).(trail := if old(iPos) != 0 && ok then old(book.trail) + [Disk(IndexData)] else old(book.trail))
      ensures files == old(files)[bid := old(files)[bid].(idx := files[bid].idx)]
      ensures Came(IndexEffect(old(GaugeNow()), ok), r, GaugeNow(), old(book.trail), book.trail)
    {
      hide Valid, Grown;
      BeforeFlush();
      GrownNot(book.trail);
      ghost var trail := book.trail;
      if iPos != 0 {
        WriteIndex(ok);
        if !ok {
          return Err;
        }
        GrownByOne(trail, trail, [], Disk(IndexData));
        assert [] + [IndexData] == [IndexData];
      }
      return Ok;
    }

    // -------------------------------------------------------------- buffering

    /** The memcpy of bytes behind the stream buffer's position. */
    method PutBytes(bytes: seq<byte>)
      requires bPos + |bytes| <= bBuf.Length
      modifies bBuf
      ensures bBuf[..bPos + |bytes|] == old(bBuf[..bPos]) + bytes
    {
      forall i | 0 <= i < |bytes| {
        bBuf[bPos + i] := bytes[i];
      }
      assert bBuf[..bPos] == old(bBuf[..bPos]);
    }

    /** The memcpy of an entry behind the index buffer's position. */
    method PutEntry(e: IdxEntry)
      requires iPos / INDEX_DATA < iBuf.Length
      modifies this`iPos, iBuf
      ensures iPos == old(iPos) + INDEX_DATA
      ensures iBuf[..iPos / INDEX_DATA] == old(iBuf[..iPos / INDEX_DATA]) + [e]
    {
      iBuf[iPos / INDEX_DATA] := e;
      iPos := iPos + INDEX_DATA;
    }

    /** The memcpy of one record into the stream buffer; for an I-frame, of its index
        entry into the index buffer, with the place the record is about to get. */
    method AppendRecord(rec: Rec)
      requires Valid() && isOpen && WellFormed(rec) && bPos + RecSize(rec) <= bBuf.Length
      requires IsIFrame(rec) ==> iPos / INDEX_DATA < iBuf.Length
      requires IsVideo(rec) ==> MonthDay(mday, rec.hdr.ts.sec) == prevDay
      requires !IsEnd(rec) ==> rec.hdr.prevFpos == prevFpos && fposBkt + bPos < WORD
      modifies this`bPos, this`iPos, this`prevFpos, this`book, bBuf, iBuf
      ensures Valid()
      ensures book == old(book).(pend := old(book.pend) + [rec]) && bPos == old(bPos) + RecSize(rec)
      ensures iPos == old(iPos) + if IsIFrame(rec) then INDEX_DATA else 0
      ensures IsEnd(rec) ==> prevFpos == old(prevFpos)
    {
      hide MonthDay, StreamInv, IndexInv, OnMonthDay, EncodeRec, IsEnd, IsIFrame, RecSize, TrailOk, UpToDate, AllClosedAs;
      hide IsLink, EntryFor, TotalSize;
      ghost var f, buffered, listed := files[bid], bBuf[..bPos], iBuf[..iPos / INDEX_DATA];
      RecordStep(book, f, fposBkt, buffered, fposIdx, listed, prevFpos, mday, prevDay, rec);
      if IsIFrame(rec) {
        PutEntry(EntryFor(rec, fposBkt + bPos));
      }
      var bytes := EncodeRec(rec);
      PutBytes(bytes);
      if !IsEnd(rec) {
        prevFpos := fposBkt + bPos;
      }
      bPos := bPos + |bytes|;
      book := book.(pend := book.pend + [rec]);
    }

    // -------------------------------------------------------------- changing baskets

    /** BKTREC_SaveFull, and the closing part of BKTREC_exit: both headers are written
        over the start of the files, the index's first. */
    method SaveHeaders(flag: Flag)
      requires Valid() && isOpen && bPos == 0 && iPos == 0
      modifies this`files, this`book, this`isOpen, this`fposBkt, this`fposIdx, this`recInfo
      ensures Valid() && !isOpen && recInfo == Info(bid, flag) && fposBkt == 0 && fposIdx == 0 && old(fposIdx) >= INDEX_HDR
      ensures book == old(book).(closed := old(book.closed)[bid := old(book.done + book.pend)], trail := book.trail)
      ensures old(End(book.done + book.pend)) == old(fposBkt) && old(IndexNumToPos(|Index(book.done + book.pend)|)) == old(fposIdx)
      ensures files.Keys == old(files.Keys) && Behind(files[bid].bkt, old(fposBkt)) == old(Behind(files[bid].bkt, fposBkt))
      ensures files == old(files)[bid := files[bid]]
      ensures var count := IndexPosToNum(old(fposIdx));
        var counted := old(files)[bid := old(files)[bid].(count := count)];
        book.trail == old(book.trail) + [Image(IndexHeader, bid, counted, count, book.done, old(book.closed)),
          Image(StreamHeader, bid, files, count, book.done, book.closed)]
      ensures Grown(old(book.trail), book.trail, [IndexHeader, StreamHeader])
    {
      hide StreamInv, IndexInv, ClosedAs, OnMonthDay, Behind, TrailOk, UpToDate, AllClosedAs, IsLink, TotalSize, Index, Grown;
      ghost var trail := book.trail;
      AtRest();
      NothingBuffered();
      SaveIndexHeader();
      ghost var counted := Disk(IndexHeader);
      SaveStreamHeader();
      GrownByTwo(trail, counted, Disk(StreamHeader));
      fposBkt, fposIdx := 0, 0;
      isOpen := false;
      recInfo := Info(bid, flag);
    }

    lemma NothingBuffered()
      requires Valid() && isOpen && bPos == 0 && iPos == 0
      ensures book.pend == [] && book.done + book.pend == book.done && fposIdx >= INDEX_HDR
      ensures StreamInv(files[bid].bkt, fposBkt, [], book.done, [], prevFpos, book.carry)
      ensures IndexInv(files[bid].idx, fposIdx, [], book.done, [])
    {
      hide ClosedAs, OnMonthDay, TrailOk, UpToDate, AllClosedAs;
      StreamEnd(files[bid].bkt, fposBkt, bBuf[..bPos], book.done, book.pend, prevFpos, book.carry);
      assert bBuf[..bPos] == [] && iBuf[..iPos / INDEX_DATA] == [];
    }

    method SaveIndexHeader()
      requires Valid() && isOpen && fposIdx >= INDEX_HDR
      modifies this`files, this`book
      ensures Valid() && files == old(files)[bid := old(files)[bid].(count := IndexPosToNum(fposIdx))]
      ensures book == old(book).(trail := old(book.trail) + [Disk(IndexHeader)])
    {
      hide StreamInv, IndexInv, ClosedAs, OnMonthDay, TrailOk, UpToDate, AllClosedAs, IsLink;
      var f := files[bid];
      CountStep(book, files, bid, fposIdx);
      files := files[bid := f.(count := IndexPosToNum(fposIdx))];
      book := book.(trail := book.trail + [Disk(IndexHeader)]);
    }

    method SaveStreamHeader()
      requires TrailValid() && AllClosedAs(files, book.closed)
      requires isOpen && bid in files && bid !in book.closed && fposIdx >= INDEX_HDR && book.pend == []
      requires StreamInv(files[bid].bkt, fposBkt, [], book.done, [], prevFpos, book.carry)
      requires IndexInv(files[bid].idx, fposIdx, [], book.done, []) && files[bid].count == IndexPosToNum(fposIdx)
      modifies this`files, this`book
      ensures AllClosedAs(files, book.closed) && TrailOk(book.trail) && UpToDate(book.trail, files, book.closed, false, bid, 0, book.done)
      ensures bid in files && files == old(files)[bid := files[bid]] && Behind(files[bid].bkt, fposBkt) == old(Behind(files[bid].bkt, fposBkt))
      ensures book == old(book).(closed := old(book.closed)[bid := old(book.done)], trail := book.trail)
      ensures book.trail == old(book.trail) + [Disk(StreamHeader)]
    {
      hide StreamInv, IndexInv, ClosedAs, TrailOk, UpToDate, AllClosedAs;
      var f := files[bid];
      var hdr := AnyBytes(BASKET_HDR);
      CloseStep(book, files, bid, fposBkt, fposIdx, prevFpos, hdr);
      files := files[bid := f.(bkt := Overwrite(f.bkt, 0, hdr))];
      book := book.(closed := book.closed[bid := book.done]);
      book := book.(trail := book.trail + [Disk(StreamHeader)]);
    }

    /** Whether the search came up with a basket that may be used. */
    ghost predicate Usable(search: Search)
      reads this`files
    {
      UsableIn(search, files.Keys, recycleOnce)
    }

    /** BKTREC_OpenFullBasket after the search: only a header is written; what the last
        use of the basket left behind stays in both files. */
    method OpenNextBasket(search: Search, io: Io) returns (r: Result)
      requires Valid() && !isOpen && bPos == 0 && iPos == 0
      modifies this`files, this`book, this`isOpen, this`fposBkt, this`fposIdx, this`bid, this`recInfo
      ensures Valid() && files.Keys == old(files.Keys)
      ensures r == Ok <==> isOpen
      ensures r == Ok <==> Usable(search) && io.header
      ensures r == Ok ==> search.Found? && bid == search.bid && book.closed == old(book.closed) - {bid}
      ensures r == Ok ==> book.done == [] && book.pend == [] && book.carry == prevFpos && book.since == 0 && fposBkt == BASKET_HDR && fposIdx == INDEX_HDR
      ensures r == Ok ==> files[bid].idx == old(files)[bid].idx && files[bid].count == 0 && recInfo == Info(bid, Using)
      ensures r != Ok ==> recInfo == old(recInfo)
      ensures r != Ok ==> book.closed == old(book.closed) || (search.Found? && book.closed == old(book.closed) - {search.bid})
      ensures Came(OpenEffect(old(GaugeNow()).(fposBkt := 0, fposIdx := 0), search, io, Given()), r, GaugeNow(), old(book.trail), book.trail)
    {
      hide StreamInv, IndexInv, ClosedAs, OnMonthDay, Overwrite, TrailOk, UpToDate, AllClosedAs, IsLink, Grown;
      NotOpen(book.trail, files, book.closed, false, bid, fposIdx, book.done, 0, 0, book.done);
      GrownNot(book.trail);
      fposBkt, fposIdx, bid := 0, 0, 0;
      r := Err;
      if search.NotFound? {
        return Err;
      }
      if search.full && recycleOnce {
        return Full;
      }
      if search.bid !in files {
        return Err;
      }
      r := StartBasket(search.bid, io.header);
    }

    method StartBasket(newbid: int, ok: bool) returns (r: Result)
      requires Valid() && !isOpen && bPos == 0 && iPos == 0 && newbid in files
      modifies this`files, this`book, this`isOpen, this`fposBkt, this`fposIdx, this`bid, this`recInfo
      ensures Valid() && files.Keys == old(files.Keys)
      ensures (r == Ok <==> isOpen) && (r == Ok <==> ok)
      ensures r == Ok ==> bid == newbid && book.done == [] && book.pend == [] && book.carry == prevFpos && book.since == 0
      ensures r == Ok ==> fposBkt == BASKET_HDR && fposIdx == INDEX_HDR
      ensures r == Ok ==> files[bid].idx == old(files)[bid].idx && files[bid].count == 0
      ensures r != Ok ==> bid == old(bid) && fposBkt == old(fposBkt) && fposIdx == old(fposIdx)
      ensures recInfo == if ok then Info(newbid, Using) else old(recInfo)
      ensures r != Full && book.closed == old(book.closed) - {newbid}
      ensures Grown(old(book.trail), book.trail, if ok then [StreamHeader, IndexHeader] else [StreamHeader])
    {
      hide StreamInv, IndexInv, ClosedAs, OnMonthDay, TrailOk, UpToDate, AllClosedAs, IsLink, Grown;
      WriteHeaders(newbid, ok);
      if !ok {
        NotOpen(book.trail, files, book.closed, true, newbid, INDEX_HDR, [], bid, fposIdx, book.done);
        return Err;
      }
      bid := newbid;
      fposBkt, fposIdx := BASKET_HDR, INDEX_HDR;
      book := book.(done := [], pend := [], carry := prevFpos, since := 0);
      FreshBasket(files[bid].bkt, files[bid].idx, book.carry);
      assert bBuf[..bPos] == [] && iBuf[..iPos / INDEX_DATA] == [];
      NoRecordsNoDay((book.done + book.pend)[book.since..], mday, prevDay);
      isOpen, recInfo := true, Info(newbid, Using);
      assert StreamValid() && IndexValid();
      return Ok;
    }

    /** The headers of a basket that is being opened, the stream's first; after that it no
        longer is the closed basket that it was. */
    method WriteHeaders(newbid: int, ok: bool)
      requires Valid() && !isOpen && newbid in files
      modifies this`files, this`book
      ensures AllClosedAs(files, book.closed) && files.Keys == old(files.Keys) && newbid !in book.closed
      ensures book == old(book).(closed := old(book.closed) - {newbid}, trail := book.trail)
      ensures |files[newbid].bkt| >= BASKET_HDR && files[newbid].idx == old(files)[newbid].idx
      ensures ok ==> files[newbid].count == 0
      ensures TrailOk(book.trail) && UpToDate(book.trail, files, book.closed, true, newbid, INDEX_HDR, [])
      ensures Grown(old(book.trail), book.trail, if ok then [StreamHeader, IndexHeader] else [StreamHeader])
    {
      hide ClosedAs, Overwrite, TrailOk, UpToDate, AllClosedAs;
      var f := files[newbid];
      var hdr := AnyBytes(BASKET_HDR);
      OpenStep(book, files, bid, fposIdx, newbid, hdr);
      f := f.(bkt := Overwrite(f.bkt, 0, hdr));
      files := files[newbid := f];
      book := book.(closed := book.closed - {newbid});
      book := book.(trail := book.trail + [Image(StreamHeader, newbid, files, 0, [], book.closed)]);
      if ok {
        CountStep(book.(done := []), files, newbid, INDEX_HDR);
        files := files[newbid := f.(count := 0)];
        book := book.(trail := book.trail + [Image(IndexHeader, newbid, files, 0, [], book.closed)]);
      }
    }

    // -------------------------------------------------------------- recording

    /** After a successful write: `log` is what the new record was appended to, the
        old log or, in the next basket, nothing. */
    ghost predicate Placed(rolls: bool, ends: bool, search: Search, log: seq<Rec>,
        before: seq<Rec>, bid0: int, closed0: map<int, seq<Rec>>)
      reads this
    {
      isOpen && Moved(rolls, ends, search, log, before, bid0, closed0, bid, book.closed)
    }

    /** After a write that failed: nothing is lost, but the end marker may already be
        buffered, or the basket closed and no other one open. */
    ghost predicate Refused(rolls: bool, ends: bool, search: Search,
        before: seq<Rec>, bid0: int, closed0: map<int, seq<Rec>>)
      reads this
    {
      if isOpen then
        bid == bid0 && book.closed == closed0 &&
        (CurrentLog() == before || (rolls && ClosingLog(CurrentLog(), before, ends)))
      else
        rolls &&
        exists c :: ClosingLog(c, before, ends) && ClosedTo(search, closed0[bid0 := c], book.closed)
    }

    /** Nothing but what was taken is new: no basket was left. */
    ghost predicate Remains(taken: bool, before: seq<Rec>, bid0: int, closed0: map<int, seq<Rec>>)
      reads this
    {
      isOpen && bid == bid0 && book.closed == closed0 &&
      if taken then book.pend != [] && AllButLast() == before else CurrentLog() == before
    }

    ghost function Last(): Rec
      reads this
      requires book.pend != []
    {
      book.pend[|book.pend| - 1]
    }

    ghost function AllButLast(): seq<Rec>
      reads this
      requires book.pend != []
    {
      Front(CurrentLog())
    }

    /** A closed basket exceeds the basket size by less than one end marker. */
    ghost predicate ClosedWithinMarker(b: int)
      reads this
    {
      b in book.closed ==> End(book.closed[b]) + IndexNumToPos(|Index(book.closed[b])|) < BASKET_SIZE + STREAM_HDR
    }

    /** BKTREC_WriteVideoStream. */
    method WriteVideo(pv: VideoParam, search: Search, io: Io) returns (r: Result)
      requires Valid() && isOpen && RoomForMarker() && VideoOk(pv)
      modifies this, bBuf, iBuf
      ensures Valid() && files.Keys == old(files.Keys)
      ensures var rolls := VideoRolls(old(GaugeNow()), pv, Given());
        if r == Ok then book.pend != [] && Placed(rolls, true, search, AllButLast(), old(CurrentLog()), old(bid), old(book.closed))
        else Refused(rolls, true, search, old(CurrentLog()), old(bid), old(book.closed))
      ensures r == Ok ==> WithinBounds() && VideoRec(Last(), pv, old(prevFpos)) && prevDay == MonthDay(mday, pv.ts.sec)
      ensures r != Ok ==> prevFpos == old(prevFpos) && prevDay == old(prevDay)
      ensures isOpen ==> book.carry == if VideoRolls(old(GaugeNow()), pv, Given()) && r == Ok then old(prevFpos) else old(book.carry)
      ensures isOpen ==> book.since == if VideoRolls(old(GaugeNow()), pv, Given()) && r == Ok then 0 else old(book.since)
      ensures var size := old(fposBkt + bPos + fposIdx + iPos) + STREAM_HDR + VSTREAM_HDR + |pv.frame| + INDEX_DATA;
        if size < BASKET_SIZE && old(prevDay) == mday(pv.ts.sec / 86400) then
          Remains(r == Ok, old(CurrentLog()), old(bid), old(book.closed))
        else r == Ok ==> AllButLast() == []
      ensures r == Ok <==> VideoSucceeds(old(GaugeNow()), pv, search, io, Given())
      ensures bid != old(bid) && old(WithinBounds()) ==> ClosedWithinMarker(old(bid))
      ensures !VideoRolls(old(GaugeNow()), pv, Given()) && r == Ok ==>
        book.done == if VideoFills(old(GaugeNow()), pv) then old(CurrentLog()) else old(book.done)
      ensures Came(VideoEffect(old(GaugeNow()), pv, search, io, Given()), r, GaugeNow(), old(book.trail), book.trail)
    {
      hide MonthDay, StreamInv, IndexInv, ClosedAs, OnMonthDay, Index, TotalSize, ClosingLog, Moved, Valid, VideoRoom, Grown;
      hide VideoRolls, VideoFills, VideoSucceeds, VideoRec, FitsBasket, VideoOk, Front, Recorder.Refused;
      ghost var g, log0, bid0, closed0 := GaugeNow(), CurrentLog(), bid, book.closed;
      VideoRollsIff(g, pv, Given());
      IndexBufferBound();
      r := MakeRoomForVideo(pv, search, io);
      VideoCase(g, pv, search, io, Given());
      if r == Ok {
        VideoFits(g, pv, search, io, Given());
        PutVideo(pv);
      }
    }

    /** Its second half.  The source updates prev_day last; nothing in between reads it. */
    method PutVideo(pv: VideoParam)
      requires Valid() && isOpen && VideoOk(pv)
      requires bPos + STREAM_HDR + VSTREAM_HDR + |pv.frame| < BBUF_SIZE && iPos + INDEX_DATA < IBUF_SIZE && fposBkt + bPos < WORD
      requires FitsBasket(fposBkt, fposIdx, bPos + STREAM_HDR + VSTREAM_HDR + |pv.frame| + iPos + INDEX_DATA)
      requires CurrentLog() == [] || prevDay == MonthDay(mday, pv.ts.sec)
      modifies this`bPos, this`iPos, this`prevFpos, this`prevDay, this`book, bBuf, iBuf
      ensures Valid() && WithinBounds() && prevDay == MonthDay(mday, pv.ts.sec)
      ensures book == old(book).(pend := book.pend) && book.pend != [] && AllButLast() == old(CurrentLog())
      ensures VideoRec(Last(), pv, old(prevFpos))
      ensures bPos == old(bPos) + STREAM_HDR + VSTREAM_HDR + |pv.frame|
      ensures iPos == old(iPos) + if pv.frametype == FT_IFRAME then INDEX_DATA else 0
    {
      hide MonthDay, Valid, WellFormed;
      SetDay(MonthDay(mday, pv.ts.sec));
      Capacities();
      var rec := NewVideo(pv, prevFpos);
      FrontOfSnoc(book.done, book.pend, rec);
      AppendRecord(rec);
    }

    method SetDay(day: int)
      requires Valid() && isOpen && (CurrentLog() == [] || prevDay == day)
      modifies this`prevDay
      ensures Valid() && prevDay == day
    {
      hide StreamInv, IndexInv, ClosedAs, OnMonthDay, TrailOk, UpToDate, AllClosedAs;
      NoRecordsNoDay((book.done + book.pend)[book.since..], mday, day);
      prevDay := day;
    }

    method SetSkip(skip: bool)
      requires Valid()
      modifies this`rSkip
      ensures Valid() && rSkip == skip
    {
      hide StreamInv, IndexInv, ClosedAs, OnMonthDay, TrailOk, UpToDate, AllClosedAs;
      rSkip := skip;
    }

    lemma Capacities()
      requires Valid() && isOpen
      ensures bBuf.Length == BBUF_SIZE + STREAM_HDR && iBuf.Length == IBUF_SIZE / INDEX_DATA
      ensures IsWord(prevFpos) && iPos % INDEX_DATA == 0
    {
      hide StreamInv, IndexInv, ClosedAs, OnMonthDay, TrailOk, UpToDate, AllClosedAs;
    }

    /** Its first half: change baskets, or flush, or neither. */
    method MakeRoomForVideo(pv: VideoParam, search: Search, io: Io) returns (r: Result)
      requires Valid() && isOpen && RoomForMarker() && VideoOk(pv)
      modifies this, bBuf, iBuf
      ensures Valid() && files.Keys == old(files.Keys) && prevFpos == old(prevFpos) && prevDay == old(prevDay)
      ensures var rolls := VideoRolls(old(GaugeNow()), pv, Given());
        (if r == Ok then Placed(rolls, true, search, CurrentLog(), old(CurrentLog()), old(bid), old(book.closed))
         else Refused(rolls, true, search, old(CurrentLog()), old(bid), old(book.closed))) &&
        (rolls && r == Ok ==> CurrentLog() == []) && (!rolls ==> prevDay == MonthDay(mday, pv.ts.sec)) &&
        (isOpen ==> book.carry == if rolls && r == Ok then old(prevFpos) else old(book.carry)) &&
        (isOpen ==> book.since == if rolls && r == Ok then 0 else old(book.since))
      ensures !VideoRolls(old(GaugeNow()), pv, Given()) ==> isOpen && bid == old(bid) && book.closed == old(book.closed) && CurrentLog() == old(CurrentLog())
      ensures bid != old(bid) && old(WithinBounds()) ==> ClosedWithinMarker(old(bid))
      ensures !VideoRolls(old(GaugeNow()), pv, Given()) && r == Ok ==>
        book.done == if VideoFills(old(GaugeNow()), pv) then old(CurrentLog()) else old(book.done)
      ensures Came(VideoRoom(old(GaugeNow()), pv, search, io, Given()), r, GaugeNow(), old(book.trail), book.trail)
    {
      hide MonthDay, Valid, Grown, FlushEffect, ChangeEffect, ClosingLog, FitsBasket, ClosedTo, RoomForMarker, VideoOk, WithinBounds;
      hide TotalSize, Index;
      GrownNot(book.trail);
      var size := STREAM_HDR + VSTREAM_HDR + |pv.frame|;
      if !FitsBasket(fposBkt, fposIdx, bPos + size + iPos + INDEX_DATA) || prevDay != MonthDay(mday, pv.ts.sec) {
        r := EndBasket(pv, search, io);
      } else if bPos + size >= BBUF_SIZE || iPos + INDEX_DATA >= IBUF_SIZE {
        SetSkip(true);
        r := FlushWriteBuffer(io);
      } else {
        r := Ok;
      }
    }

    /** Write the end marker and change baskets. */
    method EndBasket(pv: VideoParam, search: Search, io: Io) returns (r: Result)
      requires Valid() && isOpen && RoomForMarker() && VideoOk(pv)
      modifies this, bBuf, iBuf
      ensures Valid() && files.Keys == old(files.Keys) && prevFpos == old(prevFpos) && prevDay == old(prevDay)
      ensures r == Ok ==> Placed(true, true, search, CurrentLog(), old(CurrentLog()), old(bid), old(book.closed))
      ensures r == Ok ==> CurrentLog() == []
      ensures r != Ok ==> Refused(true, true, search, old(CurrentLog()), old(bid), old(book.closed))
      ensures isOpen ==> book.carry == if r == Ok then prevFpos else old(book.carry)
      ensures isOpen ==> book.since == if r == Ok then 0 else old(book.since)
      ensures bid != old(bid) && old(WithinBounds()) ==> ClosedWithinMarker(old(bid))
      ensures Came(ChangeEffect(old(GaugeNow()).(bPos := old(bPos) + STREAM_HDR, rSkip := false), search, io, Given()),
        r, GaugeNow(), old(book.trail), book.trail)
    {
      hide Valid, WellFormed, Index, TotalSize, Grown, ChangeEffect;
      ghost var before := book.done + book.pend;
      SetSkip(false);
      Capacities();
      var marker := NewMarker(pv);
      AppendRecord(marker);
      ghost var log := before + [marker];
      assert book.done + book.pend == log && ClosingLog(log, before, true);
      r := ChangeBasket(search, io);
    }

    /** BKTREC_WriteAudioStream.  A basket that it fills is closed without an end
        marker, and the day is not looked at. */
    method WriteAudio(pa: AudioParam, search: Search, io: Io) returns (r: Result)
      requires Valid() && isOpen && RoomForMarker() && AudioOk(pa)
      modifies this, bBuf, iBuf
      ensures Valid() && files.Keys == old(files.Keys)
      ensures var rolls := AudioRolls(old(GaugeNow()), pa);
        if r == Ok then book.pend != [] && Placed(rolls, false, search, AllButLast(), old(CurrentLog()), old(bid), old(book.closed))
        else Refused(rolls, false, search, old(CurrentLog()), old(bid), old(book.closed))
      ensures r == Ok ==> WithinBounds() && AudioRec(Last(), pa, old(prevFpos)) && prevDay == old(prevDay)
      ensures isOpen ==> book.carry == if AudioRolls(old(GaugeNow()), pa) && r == Ok then old(prevFpos) else old(book.carry)
      ensures isOpen ==> book.since == if AudioRolls(old(GaugeNow()), pa) && r == Ok then 0 else old(book.since)
      ensures var size := old(fposBkt + bPos + fposIdx + iPos) + STREAM_HDR + ASTREAM_HDR + |pa.frame|;
        if size < BASKET_SIZE then Remains(r == Ok, old(CurrentLog()), old(bid), old(book.closed))
        else r == Ok ==> AllButLast() == []
      ensures r == Ok <==> AudioSucceeds(old(GaugeNow()), pa, search, io, Given())
      ensures bid != old(bid) && old(WithinBounds()) ==> ClosedWithinMarker(old(bid))
      ensures !AudioRolls(old(GaugeNow()), pa) && r == Ok ==>
        book.done == if AudioFills(old(GaugeNow()), pa) then old(CurrentLog()) else old(book.done)
      ensures Came(AudioEffect(old(GaugeNow()), pa, search, io, Given()), r, GaugeNow(), old(book.trail), book.trail)
    {
      hide MonthDay, StreamInv, IndexInv, ClosedAs, OnMonthDay, Index, TotalSize, ClosingLog, Moved, Valid, AudioRoom, Grown;
      hide AudioRolls, AudioFills, AudioSucceeds, AudioRec, FitsBasket, AudioOk, Front;
      ghost var g, log0, bid0, closed0 := GaugeNow(), CurrentLog(), bid, book.closed;
      AudioRollsIff(g, pa);
      IndexBufferBound();
      r := MakeRoomForAudio(pa, search, io);
      AudioCase(g, pa, search, io, Given());
      if r == Ok {
        AudioFits(g, pa, search, io, Given());
        PutAudio(pa);
      }
    }

    /** Its second half. */
    method PutAudio(pa: AudioParam)
      requires Valid() && isOpen && AudioOk(pa) && iPos < IBUF_SIZE
      requires bPos + STREAM_HDR + ASTREAM_HDR + |pa.frame| < BBUF_SIZE && fposBkt + bPos < WORD
      requires FitsBasket(fposBkt, fposIdx, bPos + STREAM_HDR + ASTREAM_HDR + |pa.frame| + iPos)
      modifies this`bPos, this`iPos, this`prevFpos, this`book, bBuf, iBuf
      ensures Valid() && WithinBounds()
      ensures book == old(book).(pend := book.pend) && book.pend != [] && AllButLast() == old(CurrentLog())
      ensures AudioRec(Last(), pa, old(prevFpos))
      ensures bPos == old(bPos) + STREAM_HDR + ASTREAM_HDR + |pa.frame| && iPos == old(iPos)
    {
      hide Valid, WellFormed;
      Capacities();
      var rec := NewAudio(pa, prevFpos);
      FrontOfSnoc(book.done, book.pend, rec);
      AppendRecord(rec);
    }

    /** The index buffer holds at most 23 entries. */
    lemma IndexBufferBound()
      requires Valid() && isOpen
      ensures iPos < IBUF_SIZE
    {
    }

    method MakeRoomForAudio(pa: AudioParam, search: Search, io: Io) returns (r: Result)
      requires Valid() && isOpen && RoomForMarker() && AudioOk(pa)
      modifies this, bBuf, iBuf
      ensures Valid() && files.Keys == old(files.Keys) && prevFpos == old(prevFpos) && prevDay == old(prevDay)
      ensures var rolls := AudioRolls(old(GaugeNow()), pa);
        (if r == Ok then Placed(rolls, false, search, CurrentLog(), old(CurrentLog()), old(bid), old(book.closed))
         else Refused(rolls, false, search, old(CurrentLog()), old(bid), old(book.closed))) &&
        (isOpen ==> book.carry == if rolls && r == Ok then old(prevFpos) else old(book.carry)) &&
        (isOpen ==> book.since == if rolls && r == Ok then 0 else old(book.since))
      ensures !AudioRolls(old(GaugeNow()), pa) ==> isOpen && bid == old(bid) && book.closed == old(book.closed) && CurrentLog() == old(CurrentLog())
      ensures AudioRolls(old(GaugeNow()), pa) && r == Ok ==> CurrentLog() == []
      ensures bid != old(bid) && old(WithinBounds()) ==> ClosedWithinMarker(old(bid))
      ensures !AudioRolls(old(GaugeNow()), pa) && r == Ok ==>
        book.done == if AudioFills(old(GaugeNow()), pa) then old(CurrentLog()) else old(book.done)
      ensures Came(AudioRoom(old(GaugeNow()), pa, search, io, Given()), r, GaugeNow(), old(book.trail), book.trail)
    {
      hide Valid, Grown, FlushEffect, ChangeEffect, FitsBasket, ClosedTo, RoomForMarker, AudioOk, TotalSize, Index;
      ghost var before := book.done + book.pend;
      GrownNot(book.trail);
      var size := STREAM_HDR + ASTREAM_HDR + |pa.frame|;
      if !FitsBasket(fposBkt, fposIdx, bPos + size + iPos) {
        assert ClosingLog(before, before, false);
        r := ChangeBasket(search, io);
      } else if bPos + size >= BBUF_SIZE {
        r := FlushWriteBuffer(io);
      } else {
        r := Ok;
      }
    }

    /** Flush, close, open the next: what both writes do with a basket that is over. */
    method ChangeBasket(search: Search, io: Io) returns (r: Result)
      requires Valid() && isOpen
      modifies this`files, this`book, this`isOpen, this`fposBkt, this`fposIdx, this`bid, this`bPos, this`iPos, this`recInfo
      ensures Valid() && files.Keys == old(files.Keys)
      ensures r == Ok ==> isOpen && search.Found? && bid == search.bid && book.done == [] && book.pend == []
      ensures r == Ok ==> book.closed == old(book.closed)[old(bid) := old(book.done + book.pend)] - {bid}
      ensures isOpen ==> book.carry == if r == Ok then prevFpos else old(book.carry)
      ensures isOpen ==> book.since == if r == Ok then 0 else old(book.since)
      ensures r != Ok && isOpen ==> bid == old(bid) && book.closed == old(book.closed) && book.done + book.pend == old(book.done + book.pend)
      ensures r != Ok && !isOpen ==> ClosedTo(search, old(book.closed)[old(bid) := old(book.done + book.pend)], book.closed)
      ensures bid != old(bid) && old(bid) in book.closed ==>
        End(book.closed[old(bid)]) + IndexNumToPos(|Index(book.closed[old(bid)])|) == old(fposBkt + bPos + fposIdx + iPos)
      ensures Came(ChangeEffect(old(GaugeNow()), search, io, Given()), r, GaugeNow(), old(book.trail), book.trail)
    {
      hide Valid, Index, TotalSize, FlushEffect, OpenEffect, Behind, Grown, Usable;
      ghost var g, st, trail0 := GaugeNow(), Given(), book.trail;
      r := FlushWriteBuffer(io);
      if r == Ok {
        ghost var g1, trail1 := GaugeNow(), book.trail;
        SaveHeaders(IsFull);
        ghost var trail2 := book.trail;
        r := OpenNextBasket(search, io);
        ChangeCame(g, search, io, st, g1, r, GaugeNow(), trail0, trail1, trail2, book.trail);
      }
    }

    method ForgetBasket()
      requires Valid() && !isOpen
      modifies this`bid
      ensures Valid() && bid == 0
    {
      hide ClosedAs, TrailOk, UpToDate, AllClosedAs;
      NotOpen(book.trail, files, book.closed, isOpen, bid, fposIdx, book.done, 0, fposIdx, book.done);
      bid := 0;
    }

    /** BKTREC_exit as it is called: to stop, with a flush of the buffers. */
    method Exit(io: Io) returns (r: Result)
      requires Valid() && isOpen
      modifies this`files, this`book, this`isOpen, this`fposBkt, this`fposIdx, this`bPos, this`iPos, this`bid, this`recInfo
      ensures Valid() && r != Full
      ensures r == Ok <==> FlushSucceeds(old(bPos), old(iPos), rSkip, io)
      ensures r == Ok ==> !isOpen && book.closed == old(book.closed)[old(bid) := old(book.done + book.pend)]
      ensures r == Ok ==> book.carry == old(book.carry)
      ensures files.Keys == old(files.Keys)
      ensures Behind(files[old(bid)].bkt, old(fposBkt + bPos)) == old(Behind(files[bid].bkt, fposBkt + bPos))
      ensures r == Ok ==> recInfo == Info(old(bid), Stopped) && bid == 0 && bPos == 0 && iPos == 0
      ensures r == Ok ==> old(fposIdx) >= INDEX_HDR && book.trail != []
      ensures r == Ok ==>
        book.trail[|book.trail| - 1] ==
        Image(StreamHeader, old(bid), files, IndexPosToNum(old(fposIdx + iPos)), old(book.done + book.pend), book.closed)
      ensures r != Ok ==> isOpen && book.done + book.pend == old(book.done + book.pend) && recInfo == old(recInfo)
      ensures Grown(old(book.trail), book.trail, FlushEffect(old(GaugeNow()), io).writes + if r == Ok then [IndexHeader, StreamHeader] else [])
    {
      hide Valid, Index, TotalSize, FlushEffect, FlushSucceeds, Behind, Grown, IndexPosToNum, IndexNumToPos, Came, Recorder.GaugeNow;
      BeforeFlush();
      ghost var g, trail0 := GaugeNow(), book.trail;
      r := FlushWriteBuffer(io);
      ghost var trail1, ws := book.trail, FlushEffect(g, io).writes;
      CameGrown(FlushEffect(g, io), r, GaugeNow(), trail0, trail1);
      if r == Ok {
        SaveHeaders(Stopped);
        GrownOn(trail0, trail1, book.trail, ws, [IndexHeader, StreamHeader]);
        ForgetBasket();
      }
    }
  }
}
