/** The multi-channel reader of src/basket_muldec.c over closed baskets: reading on
    frame by frame, and moving by I-frames forwards and backwards, from basket to basket
    by the searches of the minute table. */
module Player {
  import opened Layout
  import opened Log
  import R = Recorder
  import S = RdbSearch
  import V = Recovery

  /** What the reader hands to its caller. */
  datatype Frame = Frame(video: bool, ch: int, ts: Ts, frametype: int, sub: seq<byte>, data: seq<byte>)

  function FrameOf(r: Rec): Frame {
    Frame(IsVideo(r), r.hdr.ch, r.hdr.ts, if IsVideo(r) then r.hdr.frametype else 0, r.sub, r.data)
  }

  datatype Answer = Ok(frame: Frame) | Err

  /** How the reading loop of BKTMD_ReadNextFrame ends. */
  datatype LoopEnd = Got(frame: Frame) | Ended(id: int) | Broken

  /** A basket whose recording ended with the end marker, with at least one I-frame. */
  ghost predicate Playable(f: R.BasketFile, log: seq<Rec>) {
    R.ClosedAs(f, log) && Index(log) != [] &&
    IsEnd(log[|log| - 1]) && forall i :: 0 <= i < |log| - 1 ==> !IsEnd(log[i])
  }

  /** A video record of an enabled channel, or an audio record of the focus channel. */
  predicate Wanted(r: Rec, enabled: set<int>, focus: int) {
    (IsVideo(r) && r.hdr.ch in enabled) || (IsAudio(r) && r.hdr.ch == focus)
  }

  function Select(log: seq<Rec>, enabled: set<int>, focus: int): seq<Rec> {
    if log == [] then []
    else (if Wanted(log[0], enabled, focus) then [log[0]] else []) + Select(log[1..], enabled, focus)
  }

  /** A basket that the recorder closed because a video frame did not fit is playable,
      if no earlier change of baskets failed in it; and what there is to replay in it
      is what was recorded. */
  lemma {:induction false} RecordedIsPlayable(f: R.BasketFile, recorded: seq<Rec>, log: seq<Rec>, enabled: set<int>, focus: int)
    requires R.ClosedAs(f, log) && R.ClosingLog(log, recorded, true)
    requires Index(recorded) != [] && forall i :: 0 <= i < |recorded| ==> !IsEnd(recorded[i])
    ensures Playable(f, log) && Select(log, enabled, focus) == Select(recorded, enabled, focus)
  {
    var marker := log[|recorded|];
    assert log == recorded + [marker];
    AppendIndex(recorded, marker);
    SelectIgnoresMarker(recorded, marker, enabled, focus);
  }

  lemma {:induction false} SelectIgnoresMarker(log: seq<Rec>, marker: Rec, enabled: set<int>, focus: int)
    requires IsEnd(marker)
    ensures Select(log + [marker], enabled, focus) == Select(log, enabled, focus)
  {
    if log == [] {
      assert [marker][1..] == [];
    } else {
      SelectIgnoresMarker(log[1..], marker, enabled, focus);
      assert (log + [marker])[1..] == log[1..] + [marker];
    }
  }

  /** The jump in time at which the loop gives up; audio frames are not tested. */
  predicate Jumps(r: Rec, sec: int) {
    IsVideo(r) && JumpsTo(r.hdr, sec)
  }

  predicate JumpsTo(h: StreamHdr, sec: int) {
    h.ts.sec - sec > 4 || h.ts.sec - sec < 0
  }

  /** The longest prefix without a jump, when the reader's clock stands at sec. */
  function UpToJump(rs: seq<Rec>, sec: int): seq<Rec> {
    if rs == [] || Jumps(rs[0], sec) then []
    else [rs[0]] + UpToJump(rs[1..], rs[0].hdr.ts.sec)
  }

  /** No frame starts more than 4 s after the one before, and no video frame before it. */
  ghost predicate Smooth(rs: seq<Rec>, sec: int) {
    rs == [] || (!Jumps(rs[0], sec) && Smooth(rs[1..], rs[0].hdr.ts.sec))
  }

  lemma {:induction false} SmoothIsWhole(rs: seq<Rec>, sec: int)
    ensures UpToJump(rs, sec) == rs <==> Smooth(rs, sec)
    ensures UpToJump(rs, sec) <= rs
  {
    if rs != [] && !Jumps(rs[0], sec) {
      SmoothIsWhole(rs[1..], rs[0].hdr.ts.sec);
      assert rs == [rs[0]] + rs[1..];
    }
  }

  function FramesOf(rs: seq<Rec>): (fs: seq<Frame>)
    ensures |fs| == |rs|
  {
    seq(|rs|, i requires 0 <= i < |rs| => FrameOf(rs[i]))
  }

  // ---------------------------------------------------------------- where replay ends

  /** The loop gives up at this position: there is no whole record, or one that is neither
      video nor audio, or a frame of an enabled channel that jumps in time. */
  predicate Stops(file: seq<byte>, pos: nat, sec: int, enabled: set<int>, focus: int) {
    !CanRead(file, pos, STREAM_HDR) ||
    var h := HdrAt(file, pos);
    (h.id != ID_VIDEO && h.id != ID_AUDIO) ||
    (h.id == ID_VIDEO && h.ch in enabled && JumpsTo(h, sec)) ||
    (Picks(h, enabled, focus) && V.After(pos, h) > |file|)
  }

  predicate Picks(h: StreamHdr, enabled: set<int>, focus: int) {
    (h.id == ID_VIDEO && h.ch in enabled) || (h.id == ID_AUDIO && h.ch == focus)
  }

  /** The position at which the reading loop, called again and again, ends. */
  function LoopStop(file: seq<byte>, pos: nat, sec: int, enabled: set<int>, focus: int): (p: nat)
    ensures p >= pos
    decreases |file| - pos
  {
    if Stops(file, pos, sec, enabled, focus) then pos
    else
      var h := HdrAt(file, pos);
      LoopStop(file, V.After(pos, h), if Picks(h, enabled, focus) then h.ts.sec else sec, enabled, focus)
  }

  /** The reader's clock after some frames. */
  function ClockAfter(rs: seq<Rec>, sec: int): int {
    if rs == [] then sec else rs[|rs| - 1].hdr.ts.sec
  }

  /** A basket that audio filled is closed without an end marker.  Replay of it, if it has
      no jump inside, ends exactly at its last record if and only if the bytes behind make
      the loop give up. */
  lemma {:induction false} ReplayEndsIff(file: seq<byte>, log: seq<Rec>, enabled: set<int>, focus: int, sec: int)
    requires AllWellFormed(log) && Holds(file, log) && forall i :: 0 <= i < |log| ==> !IsEnd(log[i])
    requires Smooth(Select(log, enabled, focus), sec)
    ensures LoopStop(file, BASKET_HDR, sec, enabled, focus) == End(log) <==>
      Stops(file, End(log), ClockAfter(Select(log, enabled, focus), sec), enabled, focus)
    ensures LoopStop(file, BASKET_HDR, sec, enabled, focus) >= End(log)
  {
    hide Holds, Stops, Select, Smooth, TotalSize;
    assert log[0..] == log;
    PlaceZero(log);
    LoopRunsOn(file, log, 0, enabled, focus, sec);
    var last := ClockAfter(Select(log, enabled, focus), sec);
    if CanRead(file, End(log), STREAM_HDR) && !Stops(file, End(log), last, enabled, focus) {
      assert V.After(End(log), HdrAt(file, End(log))) > End(log);
    }
    StopsUnread(file, End(log), last, enabled, focus);
  }

  lemma StopsUnread(file: seq<byte>, pos: nat, sec: int, enabled: set<int>, focus: int)
    ensures !CanRead(file, pos, STREAM_HDR) ==> Stops(file, pos, sec, enabled, focus)
  {
  }

  lemma PlaceZero(log: seq<Rec>)
    ensures Place(log, 0) == BASKET_HDR
  {
    assert log[..0] == [];
  }

  lemma {:induction false} LoopRunsOn(file: seq<byte>, log: seq<Rec>, i: nat, enabled: set<int>, focus: int, sec: int)
    requires AllWellFormed(log) && Holds(file, log) && i <= |log| && forall k :: i <= k < |log| ==> !IsEnd(log[k])
    requires Smooth(Select(log[i..], enabled, focus), sec)
    ensures LoopStop(file, Place(log, i), sec, enabled, focus) ==
      LoopStop(file, End(log), ClockAfter(Select(log[i..], enabled, focus), sec), enabled, focus)
    decreases |log| - i
  {
    hide Holds, Bytes, TotalSize, Jumps, WellFormed;
    PlaceEnd(log);
    if i < |log| {
      TurnAt(file, log, i, enabled, focus, sec);
      assert log[i..][0] == log[i] && log[i..][1..] == log[i + 1..];
      var rest := Select(log[i + 1..], enabled, focus);
      if Wanted(log[i], enabled, focus) {
        assert ([log[i]] + rest)[1..] == rest;
        LoopRunsOn(file, log, i + 1, enabled, focus, log[i].hdr.ts.sec);
      } else {
        assert [] + rest == rest;
        LoopRunsOn(file, log, i + 1, enabled, focus, sec);
      }
    }
  }

  /** One turn of the loop inside the log. */
  lemma {:induction false} TurnAt(file: seq<byte>, log: seq<Rec>, i: nat, enabled: set<int>, focus: int, sec: int)
    requires AllWellFormed(log) && Holds(file, log) && i < |log| && !IsEnd(log[i])
    ensures Stops(file, Place(log, i), sec, enabled, focus) <==> Wanted(log[i], enabled, focus) && Jumps(log[i], sec)
    ensures CanRead(file, Place(log, i), STREAM_HDR) && HdrAt(file, Place(log, i)) == log[i].hdr
    ensures V.After(Place(log, i), log[i].hdr) == Place(log, i + 1) && Picks(log[i].hdr, enabled, focus) == Wanted(log[i], enabled, focus)
  {
    hide Holds, Bytes, TotalSize, HdrAt;
    ReadAtPlace(file, log, i);
    assert WellFormed(log[i]);
  }

  // ---------------------------------------------------------------- a handle anywhere

  /** Where one call of the reading loop leaves the handle, the saved position, the cursor
      and the clock, wherever in the file the handle stood. */
  datatype Left = Left(end: LoopEnd, hbkt: nat, fposBkt: nat, iframeCur: int, sec: int)

  function SubSize(h: StreamHdr): nat {
    if h.id == ID_VIDEO then VSTREAM_HDR else ASTREAM_HDR
  }

  function LoopFrom(file: seq<byte>, hbkt: nat, fposBkt: nat, iframeCur: int, sec: int, enabled: set<int>, focus: int): Left
    decreases |file| - hbkt
  {
    if !CanRead(file, hbkt, STREAM_HDR) then Left(Broken, hbkt, fposBkt, iframeCur, sec)
    else
      var h, p := HdrAt(file, hbkt), hbkt + STREAM_HDR;
      if h.id != ID_VIDEO && h.id != ID_AUDIO then Left(Ended(h.id), p, fposBkt, iframeCur, sec)
      else if !Picks(h, enabled, focus) then LoopFrom(file, V.After(hbkt, h), V.After(hbkt, h), iframeCur, sec, enabled, focus)
      else if h.id == ID_VIDEO && JumpsTo(h, sec) then Left(Broken, p, fposBkt, iframeCur, sec)
      else if !CanRead(file, p, SubSize(h)) then Left(Broken, p, fposBkt, iframeCur, sec)
      else if !CanRead(file, p + SubSize(h), h.framesize) then Left(Broken, p + SubSize(h), fposBkt, iframeCur, sec)
      else
        var frame := FrameAt(file, hbkt);
        Left(Got(frame), V.After(hbkt, h), V.After(hbkt, h), iframeCur + if CountsAsIFrame(h) then 1 else 0, h.ts.sec)
  }

  predicate CountsAsIFrame(h: StreamHdr) {
    h.id == ID_VIDEO && h.frametype == FT_IFRAME
  }

  /** The bytes at a position, read as a frame. */
  function FrameAt(file: seq<byte>, pos: nat): Frame
    requires CanRead(file, pos, STREAM_HDR) && V.After(pos, HdrAt(file, pos)) <= |file|
    requires HdrAt(file, pos).id == ID_VIDEO || HdrAt(file, pos).id == ID_AUDIO
  {
    var h, p := HdrAt(file, pos), pos + STREAM_HDR;
    var q := p + SubSize(h);
    Frame(h.id == ID_VIDEO, h.ch, h.ts, if h.id == ID_VIDEO then h.frametype else 0, file[p..q], file[q..q + h.framesize])
  }

  /** At the place of a record it is that record's. */
  lemma {:induction false} RecordIsFrame(file: seq<byte>, log: seq<Rec>, i: nat)
    requires AllWellFormed(log) && Holds(file, log) && i < |log| && !IsEnd(log[i])
    ensures var p := Place(log, i);
      CanRead(file, p, STREAM_HDR) && HdrAt(file, p) == log[i].hdr && (IsVideo(log[i]) || IsAudio(log[i])) &&
      V.After(p, log[i].hdr) == Place(log, i + 1) <= |file| && FrameAt(file, p) == FrameOf(log[i])
  {
    hide Bytes, TotalSize, Holds, DecodeHdr, EncodeRec;
    ReadAtPlace(file, log, i);
    assert WellFormed(log[i]);
  }

  /** The loop moves the saved position, and so loses the reader's place, unless it gives up
      at once; the cursor and the clock move only with a frame that is returned. */
  lemma {:induction false} LoopMovesIff(file: seq<byte>, hbkt: nat, fposBkt: nat, iframeCur: int, sec: int, enabled: set<int>, focus: int)
    ensures var o := LoopFrom(file, hbkt, fposBkt, iframeCur, sec, enabled, focus);
      (Stops(file, hbkt, sec, enabled, focus) ==> !o.end.Got? && o.fposBkt == fposBkt) &&
      (!Stops(file, hbkt, sec, enabled, focus) ==> o.fposBkt > hbkt) &&
      (!o.end.Got? ==> o.iframeCur == iframeCur && o.sec == sec) &&
      (o.end.Got? ==> o.iframeCur == iframeCur + if o.end.frame.video && o.end.frame.frametype == FT_IFRAME then 1 else 0)
    decreases |file| - hbkt
  {
    hide DecodeHdr;
    if CanRead(file, hbkt, STREAM_HDR) {
      var h := HdrAt(file, hbkt);
      if (h.id == ID_VIDEO || h.id == ID_AUDIO) && !Picks(h, enabled, focus) {
        LoopMovesIff(file, V.After(hbkt, h), V.After(hbkt, h), iframeCur, sec, enabled, focus);
      }
    }
  }

  /** Called again behind the end of a basket, the loop keeps the reader's place if and only
      if it gives up at once; and it keeps the cursor within the entries if and only if it
      does not return an I-frame while the cursor is already behind the last. */
  lemma {:induction false} PlaceKeptIff(f: R.BasketFile, log: seq<Rec>, hbkt: nat, iframeCur: int, sec: int, enabled: set<int>, focus: int)
    requires Playable(f, log) && hbkt >= Place(log, |log| - 1) && iframeCur <= f.count
    ensures var o := LoopFrom(f.bkt, hbkt, Place(log, |log| - 1), iframeCur, sec, enabled, focus);
      ((exists j :: 0 <= j < |log| && o.fposBkt == Place(log, j)) <==> Stops(f.bkt, hbkt, sec, enabled, focus)) &&
      (o.iframeCur <= f.count <==>
         !(o.end.Got? && o.end.frame.video && o.end.frame.frametype == FT_IFRAME && iframeCur == f.count))
  {
    hide Playable, LoopFrom, Stops, TotalSize;
    LogStart(f, log);
    LoopMovesIff(f.bkt, hbkt, Place(log, |log| - 1), iframeCur, sec, enabled, focus);
    forall j | 0 <= j < |log|
      ensures Place(log, j) <= Place(log, |log| - 1)
    {
      PlacesIncrease(log, j, |log| - 1);
    }
  }

  // ---------------------------------------------------------------- a basket without a marker

  /** To the reader a basket that audio filled is one with an end marker just when the
      bytes behind it read as a header that is neither of video nor of audio. */
  lemma {:induction false} AudioFilledIsPlayableIff(f: R.BasketFile, log: seq<Rec>)
    requires R.ClosedAs(f, log) && Index(log) != [] && forall i :: 0 <= i < |log| ==> !IsEnd(log[i])
    requires CanRead(f.bkt, End(log), STREAM_HDR)
    ensures (exists tail :: IsEnd(tail) && Playable(f, log + [tail])) <==> IsEnd(Tail(f.bkt, End(log)))
    ensures IsEnd(Tail(f.bkt, End(log))) ==> Playable(f, log + [Tail(f.bkt, End(log))])
  {
    hide Bytes, TotalSize, Index, DecodeHdr, EncodeHdr;
    var t := Tail(f.bkt, End(log));
    if IsEnd(t) {
      TailIsHeld(f.bkt, log);
      AppendIndex(log, t);
    }
    if exists tail :: IsEnd(tail) && Playable(f, log + [tail]) {
      var tail :| IsEnd(tail) && Playable(f, log + [tail]);
      ReadAtPlace(f.bkt, log + [tail], |log|);
      assert (log + [tail])[..|log|] == log;
    }
  }

  // ---------------------------------------------------------------- positions in all baskets

  /** An I-frame: which basket, and which entry of its index. */
  datatype Spot = Spot(at: int, entry: int)

  /** Baskets are numbered from 1 in the minute table, and from 0 here. */
  function TimesOf(times: seq<S.Times>): map<int, S.Times> {
    map b | 1 <= b <= |times| :: TimeOf(times, b)
  }

  function TimeOf(times: seq<S.Times>, b: int): S.Times
    requires 1 <= b <= |times|
  {
    times[b - 1]
  }

  /** What the searches for a neighbour find from basket a when the clock is sec. */
  ghost predicate FindsNext(rdb: seq<S.DayFile>, times: seq<S.Times>, a: int, sec: int, b: int) {
    0 <= b < |times| && S.StepForward(rdb, TimesOf(times), a + 1, sec, b + 1)
  }

  ghost predicate FindsPrev(rdb: seq<S.DayFile>, times: seq<S.Times>, a: int, sec: int, b: int) {
    0 <= b < |times| && S.StepBackward(rdb, TimesOf(times), a + 1, sec, b + 1)
  }

  /** Of the entries between two, none is ahead of the position and of an enabled channel. */
  ghost predicate PassedOver(f: R.BasketFile, from: int, to: int, fposBkt: int, enabled: set<int>) {
    forall k :: 0 <= k < |f.idx| && from < k < to ==> f.idx[k].fpos < fposBkt || f.idx[k].ch !in enabled
  }

  lemma OnePassed(f: R.BasketFile, from: int, k: nat, to: int, fposBkt: int, enabled: set<int>)
    requires k < |f.idx| && (f.idx[k].fpos < fposBkt || f.idx[k].ch !in enabled)
    ensures PassedOver(f, from, k, fposBkt, enabled) ==> PassedOver(f, from, k + 1, fposBkt, enabled)
    ensures PassedOver(f, k, to, fposBkt, enabled) ==> PassedOver(f, k - 1, to, fposBkt, enabled)
  {
  }

  lemma PassedAll(f: R.BasketFile, from: int, to: int, from': int, to': int, fposBkt: int, enabled: set<int>)
    requires PassedOver(f, from, to, fposBkt, enabled) && from <= from' && to' <= to
    ensures PassedOver(f, from', to', fposBkt, enabled)
  {
  }

  lemma NonePassed(f: R.BasketFile, from: int, fposBkt: int, enabled: set<int>)
    ensures PassedOver(f, from, from + 1, fposBkt, enabled)
  {
  }

  /** The minutes of all baskets are within these bounds. */
  ghost predicate WithinHorizon(times: seq<S.Times>, horizon: nat) {
    forall b :: 0 <= b < |times| ==>
      S.AbsMinute(times[b].end) <= horizon && 0 <= S.AbsMinute(times[b].begin) + horizon
  }

  lemma {:induction false} SomeHorizon(times: seq<S.Times>) returns (horizon: nat)
    ensures WithinHorizon(times, horizon)
  {
    horizon := 0;
    if times != [] {
      var n := |times| - 1;
      var h := SomeHorizon(times[..n]);
      var e, b := S.AbsMinute(times[n].end), -S.AbsMinute(times[n].begin);
      horizon := if h >= e && h >= b then h else if e >= b then e else b;
      forall k | 0 <= k < |times|
        ensures S.AbsMinute(times[k].end) <= horizon && 0 <= S.AbsMinute(times[k].begin) + horizon
      {
        if k < n {
          assert times[k] == times[..n][k];
        }
      }
    }
  }

  /** q comes after p: later in the same basket, or in one that ends in a later minute. */
  predicate Later(times: seq<S.Times>, q: Spot, p: Spot)
    requires 0 <= p.at < |times| && 0 <= q.at < |times|
  {
    (q.at == p.at && q.entry > p.entry) || S.AbsMinute(times[q.at].end) > S.AbsMinute(times[p.at].end)
  }

  /** q comes before p: earlier in the same basket, or in one that begins in an earlier minute. */
  predicate Earlier(times: seq<S.Times>, q: Spot, p: Spot)
    requires 0 <= p.at < |times| && 0 <= q.at < |times|
  {
    (q.at == p.at && q.entry < p.entry) || S.AbsMinute(times[q.at].begin) < S.AbsMinute(times[p.at].begin)
  }

  /** A place and the clock there. */
  datatype Mark = Mark(spot: Spot, sec: int)

  datatype Op = NextFrame | NextIFrame | PrevIFrame | OpenAt(b: nat, idxPos: nat) | OpenFirst(b: nat) | OpenLast(b: nat)

  // ---------------------------------------------------------------- a frame behind the end

  /** The bytes at a position look like a whole video record of an enabled channel. */
  predicate LooksLikeVideo(file: seq<byte>, pos: nat, enabled: set<int>) {
    CanRead(file, pos, STREAM_HDR) &&
    var h := HdrAt(file, pos);
    h.id == ID_VIDEO && h.ch in enabled && V.After(pos, h) <= |file|
  }

  /** What is returned is the frame that the bytes at a position look like. */
  ghost predicate ReadsAs(file: seq<byte>, pos: nat, enabled: set<int>, a: Answer) {
    LooksLikeVideo(file, pos, enabled) && a == Ok(FrameAt(file, pos))
  }

  /** The file holds a record's sub-header and frame, up to `next`. */
  ghost predicate Carries(file: seq<byte>, p: nat, subSize: nat, r: Rec, next: nat) {
    r.hdr.framesize > 0 && next == p + subSize + r.hdr.framesize <= |file| && |r.sub| == subSize &&
    file[p..p + subSize] == r.sub && file[p + subSize..next] == r.data
  }

  /** What a file holds at the place of a record of a playable basket. */
  lemma {:induction false} RecordCarried(f: R.BasketFile, log: seq<Rec>, i: nat)
    requires Playable(f, log) && i < |log|
    ensures var p, r := Place(log, i), log[i];
      CanRead(f.bkt, p, STREAM_HDR) && HdrAt(f.bkt, p) == r.hdr && FitsWords(r.hdr) && (IsEnd(r) <==> i == |log| - 1) &&
      (!IsEnd(r) ==> Carries(f.bkt, p + STREAM_HDR, if IsVideo(r) then VSTREAM_HDR else ASTREAM_HDR, r, Place(log, i + 1)))
  {
    hide Bytes, TotalSize, Index, Holds;
    ReadAtPlace(f.bkt, log, i);
    assert WellFormed(log[i]);
  }

  /** At a record's place only a video record looks like one, and it is read as it was. */
  lemma {:induction false} LooksRight(f: R.BasketFile, log: seq<Rec>, i: nat, enabled: set<int>)
    requires Playable(f, log) && i < |log|
    ensures LooksLikeVideo(f.bkt, Place(log, i), enabled) <==> IsVideo(log[i]) && log[i].hdr.ch in enabled
    ensures IsVideo(log[i]) && log[i].hdr.ch in enabled ==>
      i + 1 < |log| && FrameAt(f.bkt, Place(log, i)) == FrameOf(log[i]) && HdrAt(f.bkt, Place(log, i)) == log[i].hdr &&
      V.After(Place(log, i), log[i].hdr) == Place(log, i + 1)
  {
    hide Playable, Index, TotalSize, HdrAt;
    RecordCarried(f, log, i);
  }

  /** What one record adds to the records still to be read. */
  lemma {:induction false} SelectStep(log: seq<Rec>, i: nat, enabled: set<int>, focus: int)
    requires i < |log|
    ensures Select(log[i..], enabled, focus) ==
      if Wanted(log[i], enabled, focus) then [log[i]] + Select(log[i + 1..], enabled, focus)
      else Select(log[i + 1..], enabled, focus)
    ensures i == |log| - 1 ==> Select(log[i + 1..], enabled, focus) == []
  {
    assert log[i..][0] == log[i] && log[i..][1..] == log[i + 1..];
  }

  /** What one record adds to the entries passed. */
  lemma {:induction false} IndexStep(log: seq<Rec>, i: nat)
    requires i < |log|
    ensures |Index(log[..i + 1])| == |Index(log[..i])| + if IsIFrame(log[i]) then 1 else 0
  {
    hide Index;
    assert log[..i + 1] == log[..i] + [log[i]];
    AppendIndex(log[..i], log[i]);
  }

  /** Before the end every index entry has been passed. */
  lemma {:induction false} AllPassed(f: R.BasketFile, log: seq<Rec>)
    requires Playable(f, log)
    ensures |Index(log[..|log| - 1])| == f.count > 0
  {
    LogStart(f, log);
    hide Index;
    IndexStep(log, |log| - 1);
    assert log[..|log|] == log;
  }

  lemma {:induction false} EntriesWithin(f: R.BasketFile, log: seq<Rec>, i: nat)
    requires Playable(f, log) && i <= |log|
    ensures |Index(log[..i])| <= f.count
  {
    hide Index;
    IndexOfPrefix(log[..i], log[i..]);
    assert log[..i] + log[i..] == log;
  }

  /** What an index entry of a playable basket leads to. */
  lemma {:induction false} EntryLeads(f: R.BasketFile, log: seq<Rec>, k: nat)
    requires Playable(f, log) && k < f.count
    ensures |f.idx| >= f.count == |Index(log)|
    ensures var e := f.idx[k]; var j := Which(log, k);
      e == Index(log)[k] && PointsAt(log, e, j) && e.fpos == Place(log, j) &&
      j + 1 < |log| && |Index(log[..j])| == k && |Index(log[..j + 1])| == k + 1
  {
    WhichPointsAt(log, k);
    var j := Which(log, k);
    assert f.idx[..f.count][k] == Index(log)[k];
    IndexStep(log, j);
  }

  /** An entry that does not point back is of a record that has not been passed. */
  lemma {:induction false} EntryIsLater(f: R.BasketFile, log: seq<Rec>, i: nat, k: nat)
    requires Playable(f, log) && i < |log| && k < f.count && k < |f.idx| && f.idx[k].fpos >= Place(log, i)
    ensures k < |Index(log)| && Which(log, k) >= i
  {
    hide Playable, Index, TotalSize, Which;
    EntryLeads(f, log, k);
    if Which(log, k) < i {
      PlacesIncrease(log, Which(log, k), i);
    }
  }

  /** An entry that is not passed yet does not point back. */
  lemma {:induction false} EntryAhead(f: R.BasketFile, log: seq<Rec>, i: nat, k: nat)
    requires Playable(f, log) && i < |log| && |Index(log[..i])| <= k < f.count
    ensures k < |f.idx| && f.idx[k].fpos >= Place(log, i)
  {
    hide Playable, Index, TotalSize, Which;
    EntryLeads(f, log, k);
    var j := Which(log, k);
    if j < i {
      assert log[..j + 1] + log[j + 1..i] == log[..i];
      IndexOfPrefix(log[..j + 1], log[j + 1..i]);
    } else {
      PlacesIncrease(log, i, j);
    }
  }

  /** One turn of the reading loop, and where replay ends. */
  lemma {:induction false} LoopTurn(f: R.BasketFile, log: seq<Rec>, i: nat, enabled: set<int>, focus: int, sec: int)
    requires Playable(f, log) && i < |log|
    ensures LoopStop(f.bkt, Place(log, i), sec, enabled, focus) ==
      if IsEnd(log[i]) || (Wanted(log[i], enabled, focus) && Jumps(log[i], sec)) then Place(log, i)
      else LoopStop(f.bkt, Place(log, i + 1), if Wanted(log[i], enabled, focus) then log[i].hdr.ts.sec else sec, enabled, focus)
  {
    hide Bytes, TotalSize, Index, Holds, Jumps, Picks;
    if IsEnd(log[i]) {
      ReadAtPlace(f.bkt, log, i);
    } else {
      TurnAt(f.bkt, log, i, enabled, focus, sec);
    }
  }

  lemma ReplayStep(rest: seq<Rec>, sec: int)
    ensures rest == [] || Jumps(rest[0], sec) ==> FramesOf(UpToJump(rest, sec)) == []
    ensures rest == [] ==> Smooth(rest, sec)
    ensures rest != [] ==> (Smooth(rest, sec) <==> !Jumps(rest[0], sec) && Smooth(rest[1..], rest[0].hdr.ts.sec))
    ensures rest != [] && !Jumps(rest[0], sec) ==>
      FramesOf(UpToJump(rest, sec)) == [FrameOf(rest[0])] + FramesOf(UpToJump(rest[1..], rest[0].hdr.ts.sec))
  {
  }

  /** The search finds at most one basket. */
  lemma {:induction false} OnlyNext(rdb: seq<S.DayFile>, times: seq<S.Times>, a: int, sec: int, b: int)
    requires FindsNext(rdb, times, a, sec, b)
    ensures forall q :: FindsNext(rdb, times, a, sec, q) ==> q == b
  {
    forall q | FindsNext(rdb, times, a, sec, q)
      ensures q == b
    {
      S.StepForwardIsUnique(rdb, TimesOf(times), a + 1, sec, b + 1, q + 1);
    }
  }

  lemma {:induction false} OnlyPrev(rdb: seq<S.DayFile>, times: seq<S.Times>, a: int, sec: int, b: int)
    requires FindsPrev(rdb, times, a, sec, b)
    ensures forall q :: FindsPrev(rdb, times, a, sec, q) ==> q == b
  {
    forall q | FindsPrev(rdb, times, a, sec, q)
      ensures q == b
    {
      S.StepBackwardIsUnique(rdb, TimesOf(times), a + 1, sec, b + 1, q + 1);
    }
  }

  lemma {:induction false} MissIsNone(rdb: seq<S.DayFile>, times: seq<S.Times>, a: nat, sec: int)
    requires a < |times| && forall s :: S.Neighbour(rdb, a + 1, s) ==> !S.Scanned(rdb, S.SeedForward(sec, times[a]), s)
    ensures forall q :: !FindsNext(rdb, times, a, sec, q)
  {
    assert TimesOf(times)[a + 1] == times[a];
  }

  lemma {:induction false} MissIsNoneBack(rdb: seq<S.DayFile>, times: seq<S.Times>, a: nat, sec: int)
    requires a < |times| && forall s :: S.Neighbour(rdb, a + 1, s) ==> !S.ScannedBack(rdb, S.SeedBackward(sec, times[a]), s)
    ensures forall q :: !FindsPrev(rdb, times, a, sec, q)
  {
    assert TimesOf(times)[a + 1] == times[a];
  }

  lemma LogStart(f: R.BasketFile, log: seq<Rec>)
    requires Playable(f, log)
    ensures |log| > 0 && f.count > 0 && Place(log, 0) == BASKET_HDR && Index(log[..0]) == []
  {
    assert log[..0] == [];
  }

  // ---------------------------------------------------------------- the reader

  class Player {
    // the baskets by number, with the begin and end times of their headers, and the files
    // of the minute table
    const files: seq<R.BasketFile>
    const times: seq<S.Times>
    const rdb: seq<S.DayFile>
    ghost const logs: seq<seq<Rec>>
    ghost const horizon: nat

    var at: nat          // which basket is open
    var hbkt: nat        // position of the stream file handle
    var fposBkt: nat     // saved position, behind the last record read or skipped
    var iframeCur: int
    var iframeCnt: int
    var sec: int

    ghost var i: nat     // the record that starts at fposBkt

    ghost predicate Baskets() {
      |files| == |times| == |logs| && (forall b :: 0 <= b < |files| ==> Playable(files[b], logs[b])) &&
      S.IsTable(rdb) && S.WithinTimes(rdb, TimesOf(times)) && WithinHorizon(times, horizon)
    }

    ghost predicate Valid()
      reads this
    {
      Baskets() && at < |files| && iframeCnt == files[at].count && iframeCur >= 0 &&
      i < |logs[at]| && fposBkt == Place(logs[at], i)
    }

    /** The file handle stands where the next record starts. */
    ghost predicate Aligned()
      reads this
    {
      hbkt == fposBkt
    }

    /** How many index entries lie before fposBkt. */
    ghost function EntriesBefore(): nat
      reads this
      requires Valid()
    {
      |Index(logs[at][..i])|
    }

    /** The cursor counts the entries before the position, or one less. */
    ghost predicate Tight()
      reads this
      requires Valid()
    {
      EntriesBefore() - 1 <= iframeCur <= EntriesBefore()
    }

    ghost function Here(): Spot
      reads this
    {
      Spot(at, iframeCur)
    }

    ghost predicate OnEntry(p: Spot) {
      0 <= p.at < |files| && 0 <= p.entry < files[p.at].count
    }

    /** The I-frame after p: the next entry, or the first one of the basket that the
        forward search finds when the clock is at sec. */
    ghost predicate Follows(p: Spot, sec: int, q: Spot)
      requires 0 <= p.at < |files|
    {
      if p.entry + 1 < files[p.at].count then q == Spot(p.at, p.entry + 1)
      else q.entry == 0 && FindsNext(rdb, times, p.at, sec, q.at)
    }

    /** The I-frame before p. */
    ghost predicate Precedes(p: Spot, sec: int, q: Spot)
      requires 0 <= p.at < |files|
    {
      if p.entry >= 1 then q == Spot(p.at, p.entry - 1)
      else FindsPrev(rdb, times, p.at, sec, q.at) && q.at < |files| && q.entry == files[q.at].count - 1
    }

    /** Every channel that has video in some basket is enabled. */
    ghost predicate AllEnabled(enabled: set<int>)
      requires Baskets()
    {
      forall b, j :: 0 <= b < |logs| && 0 <= j < |logs[b]| && IsVideo(logs[b][j]) ==> logs[b][j].hdr.ch in enabled
    }

    /** The records that are still to be read in this basket. */
    ghost function Remaining(): seq<Rec>
      reads this
      requires Valid()
    {
      logs[at][i..]
    }

    // -------------------------------------------------------------- opening

    constructor (files: seq<R.BasketFile>, times: seq<S.Times>, rdb: seq<S.DayFile>, ghost logs: seq<seq<Rec>>)
      requires |files| == |times| == |logs| > 0
      requires forall b :: 0 <= b < |files| ==> Playable(files[b], logs[b])
      requires S.IsTable(rdb) && S.WithinTimes(rdb, TimesOf(times))
      ensures this.files == files && this.times == times && this.rdb == rdb && this.logs == logs
      ensures Valid() && Aligned() && Tight() && Here() == Spot(0, 0) && i == 0 && sec == times[0].begin
    {
      hide Playable, S.IsTable, S.WithinTimes, TimesOf;
      ghost var h := SomeHorizon(times);
      this.files, this.times, this.rdb, this.logs, this.horizon := files, times, rdb, logs, h;
      at, hbkt, fposBkt, iframeCur, sec := 0, BASKET_HDR, BASKET_HDR, 0, times[0].begin;
      iframeCnt := files[0].count;
      i := 0;
      new;
      LogStart(files[0], logs[0]);
    }

    /** BKTMD_Open once the minute table has named a basket and an index position. */
    method Open(b: nat, idxPos: nat)
      requires Baskets() && b < |files| && idxPos >= INDEX_HDR && IndexPosToNum(idxPos) < files[b].count
      modifies this
      ensures Valid() && Aligned() && Tight()
      ensures Here() == Spot(b, IndexPosToNum(idxPos))
      ensures PointsAt(logs[b], Index(logs[b])[iframeCur], i) && sec == logs[b][i].hdr.ts.sec
    {
      hide Playable, S.IsTable, S.WithinTimes, TimesOf, Index, TotalSize;
      var k := IndexPosToNum(idxPos);
      EntryLeads(files[b], logs[b], k);
      var idd := files[b].idx[k];
      at := b;
      iframeCnt := files[b].count;
      iframeCur := k;
      hbkt := idd.fpos;
      sec := idd.ts.sec;
      fposBkt := idd.fpos;
      i := Which(logs[b], k);
    }

    /** BKTMD_OpenNext. */
    method OpenNext(b: nat)
      requires Baskets() && b < |files|
      modifies this
      ensures Valid() && Aligned() && Tight() && Here() == Spot(b, 0) && i == 0 && sec == times[b].begin
      ensures iframeCnt > 0 && EntriesBefore() == 0
    {
      hide Playable, S.IsTable, S.WithinTimes, TimesOf;
      at := b;
      iframeCnt := files[b].count;
      sec := times[b].begin;
      iframeCur := 0;
      hbkt := BASKET_HDR;
      fposBkt := hbkt;
      i := 0;
      LogStart(files[b], logs[b]);
    }

    /** BKTMD_OpenPrev for a basket whose header counts its entries. */
    method OpenPrev(b: nat)
      requires Baskets() && b < |files|
      modifies this
      ensures Valid() && Aligned() && Tight() && Here() == Spot(b, files[b].count - 1) && sec == times[b].end && iframeCnt > 0
    {
      hide Playable, S.IsTable, S.WithinTimes, TimesOf, Index, TotalSize;
      LogStart(files[b], logs[b]);
      EntryLeads(files[b], logs[b], files[b].count - 1);
      var idd := files[b].idx[files[b].count - 1];
      at := b;
      iframeCnt := files[b].count;
      sec := times[b].end;
      iframeCur := iframeCnt - 1;
      hbkt := idd.fpos;
      fposBkt := hbkt;
      i := Which(logs[b], iframeCnt - 1);
    }

    // -------------------------------------------------------------- neighbours

    /** BKTMD_SearchNextBID for the open basket; -1 for none. */
    method SearchNext() returns (b: int)
      requires Baskets() && at < |files|
      ensures b == -1 <==> forall q :: !FindsNext(rdb, times, at, sec, q)
      ensures b != -1 ==> 0 <= b < |files| && FindsNext(rdb, times, at, sec, b)
      ensures b != -1 ==> S.AbsMinute(times[at].end) < S.AbsMinute(times[b].end) <= horizon
    {
      hide Playable, S.IsTable, S.WithinTimes, S.FirstScanned, S.Scanned, S.AbsMinute;
      ghost var all, seed := TimesOf(times), S.SeedForward(sec, times[at]);
      assert all[at + 1] == times[at];
      var r := S.SearchNextBID(rdb, at + 1, sec, false, [times[at]]);
      match r
      case Found(bid) =>
        assert S.StepForward(rdb, all, at + 1, sec, bid);
        S.StepEndsLater(rdb, all, at + 1, sec, bid);
        b := bid - 1;
        assert all[bid] == times[b];
        assert FindsNext(rdb, times, at, sec, b);
      case NotFound =>
        b := -1;
        MissIsNone(rdb, times, at, sec);
    }

    /** BKTMD_SearchPrevBID for the open basket. */
    method SearchPrev() returns (b: int)
      requires Valid()
      ensures b == -1 <==> forall q :: !FindsPrev(rdb, times, at, sec, q)
      ensures b != -1 ==> 0 <= b < |files| && FindsPrev(rdb, times, at, sec, b)
      ensures b != -1 ==> 0 - horizon <= S.AbsMinute(times[b].begin) < S.AbsMinute(times[at].begin)
    {
      hide Playable, S.IsTable, S.WithinTimes, S.LastScanned, S.ScannedBack, S.AbsMinute;
      ghost var all := TimesOf(times);
      assert all[at + 1] == times[at];
      var r := S.SearchPrevBID(rdb, at + 1, sec, [times[at]]);
      match r
      case Found(bid) =>
        assert S.StepBackward(rdb, all, at + 1, sec, bid);
        S.StepBeginsEarlier(rdb, all, at + 1, sec, bid);
        b := bid - 1;
        assert all[bid] == times[b];
        assert FindsPrev(rdb, times, at, sec, b);
      case NotFound =>
        b := -1;
        MissIsNoneBack(rdb, times, at, sec);
    }

    // -------------------------------------------------------------- frame by frame

    /** Where replay of the basket would end. */
    ghost function EndsAt(enabled: set<int>, focus: int): nat
      reads this
      requires at < |files|
    {
      LoopStop(files[at].bkt, fposBkt, sec, enabled, focus)
    }

    /** Behind a video header: its sub-header and frame are read. */
    method TakeVideo(shd: StreamHdr) returns (frame: Frame)
      requires Valid() && IsVideo(logs[at][i]) && shd == logs[at][i].hdr && hbkt == fposBkt + STREAM_HDR
      modifies this`hbkt, this`fposBkt, this`sec, this`i
      ensures Valid() && Aligned() && i == old(i) + 1 && sec == shd.ts.sec && frame == FrameOf(logs[at][old(i)])
    {
      hide Playable, Index, TotalSize, S.IsTable, S.WithinTimes, TimesOf, DecodeHdr;
      var file := files[at].bkt;
      RecordCarried(files[at], logs[at], i);
      var vhd := file[hbkt..hbkt + VSTREAM_HDR];
      var data := file[hbkt + VSTREAM_HDR..hbkt + VSTREAM_HDR + shd.framesize];
      hbkt := hbkt + VSTREAM_HDR + shd.framesize;
      sec := shd.ts.sec;
      fposBkt := hbkt;
      i := i + 1;
      frame := Frame(true, shd.ch, shd.ts, shd.frametype, vhd, data);
    }

    /** Behind an audio header, likewise. */
    method TakeAudio(shd: StreamHdr) returns (frame: Frame)
      requires Valid() && IsAudio(logs[at][i]) && shd == logs[at][i].hdr && hbkt == fposBkt + STREAM_HDR
      modifies this`hbkt, this`fposBkt, this`sec, this`i
      ensures Valid() && Aligned() && i == old(i) + 1 && sec == shd.ts.sec && frame == FrameOf(logs[at][old(i)])
    {
      hide Playable, Index, TotalSize, S.IsTable, S.WithinTimes, TimesOf, DecodeHdr;
      var file := files[at].bkt;
      RecordCarried(files[at], logs[at], i);
      var ahd := file[hbkt..hbkt + ASTREAM_HDR];
      var data := file[hbkt + ASTREAM_HDR..hbkt + ASTREAM_HDR + shd.framesize];
      hbkt := hbkt + ASTREAM_HDR + shd.framesize;
      sec := shd.ts.sec;
      fposBkt := hbkt;
      i := i + 1;
      frame := Frame(false, shd.ch, shd.ts, 0, ahd, data);
    }

    /** A record that is not wanted is passed over. */
    method Skip(shd: StreamHdr, subSize: nat)
      requires Valid() && !IsEnd(logs[at][i]) && shd == logs[at][i].hdr && hbkt == fposBkt + STREAM_HDR
      requires subSize == if IsVideo(logs[at][i]) then VSTREAM_HDR else ASTREAM_HDR
      modifies this`hbkt, this`fposBkt, this`i
      ensures Valid() && Aligned() && i == old(i) + 1
    {
      hide Playable, Index, TotalSize, S.IsTable, S.WithinTimes, TimesOf, DecodeHdr;
      RecordCarried(files[at], logs[at], i);
      hbkt := hbkt + subSize + shd.framesize;
      fposBkt := hbkt;
      i := i + 1;
    }

    /** How far a frame takes the cursor. */
    function Passed(frame: Frame): int {
      if frame.video && frame.frametype == FT_IFRAME then 1 else 0
    }

    lemma FramePasses(r: Rec)
      ensures Passed(FrameOf(r)) == if IsIFrame(r) then 1 else 0
    {
    }

    /** The loop of BKTMD_ReadNextFrame.  It reads or skips records until it has a
        wanted frame, meets a jump in time, or meets the end. */
    method ReadLoop(enabled: set<int>, focus: int) returns (r: LoopEnd)
      requires Valid() && Aligned()
      modifies this`hbkt, this`fposBkt, this`iframeCur, this`sec, this`i
      ensures Valid() && old(i) <= i && (r.Got? ==> old(i) < i)
      ensures r.Ended? <==> old(Select(Remaining(), enabled, focus)) == []
      ensures r.Ended? ==> i == |logs[at]| - 1 && hbkt == fposBkt + STREAM_HDR && r.id == logs[at][i].hdr.id
      ensures !r.Ended? ==> var next := old(Select(Remaining(), enabled, focus));
        (r.Broken? <==> Jumps(next[0], old(sec))) &&
        (r.Got? ==> r.frame == FrameOf(next[0]) && sec == next[0].hdr.ts.sec && Aligned()) &&
        (r.Got? ==> Select(Remaining(), enabled, focus) == next[1..]) &&
        (r.Broken? ==> Select(Remaining(), enabled, focus) == next)
      ensures !r.Got? ==> sec == old(sec) && iframeCur == old(iframeCur)
      ensures r.Got? ==> iframeCur == old(iframeCur) + Passed(r.frame)
      ensures old(EndsAt(enabled, focus)) == if r.Got? then EndsAt(enabled, focus) else fposBkt
      ensures AllEnabled(enabled) && old(Tight()) ==> Tight()
    {
      hide Playable, Index, Select, TotalSize, WellFormed, DecodeHdr, S.IsTable, S.WithinTimes, TimesOf, LoopStop, FrameOf, Carries;
      var file := files[at].bkt;
      ghost var log := logs[at];
      while true
        invariant Valid() && Aligned() && old(i) <= i
        invariant Select(Remaining(), enabled, focus) == old(Select(Remaining(), enabled, focus))
        invariant sec == old(sec) && iframeCur == old(iframeCur) && EndsAt(enabled, focus) == old(EndsAt(enabled, focus))
        invariant AllEnabled(enabled) && old(Tight()) ==> Tight()
        decreases |log| - i
      {
        ghost var rec := log[i];
        RecordCarried(files[at], log, i);
        SelectStep(log, i, enabled, focus);
        IndexStep(log, i);
        LoopTurn(files[at], log, i, enabled, focus, sec);
        var shd := HdrAt(file, hbkt);
        hbkt := hbkt + STREAM_HDR;
        if shd.id == ID_VIDEO {
          if shd.ch in enabled {
            if shd.ts.sec - sec > 4 || shd.ts.sec - sec < 0 {
              return Broken;
            }
            var frame := TakeVideo(shd);
            FramePasses(rec);
            if shd.frametype == FT_IFRAME {
              iframeCur := iframeCur + 1;
            }
            return Got(frame);
          } else {
            Skip(shd, VSTREAM_HDR);
          }
        } else if shd.id == ID_AUDIO {
          if focus != shd.ch {
            Skip(shd, ASTREAM_HDR);
          } else {
            var frame := TakeAudio(shd);
            FramePasses(rec);
            return Got(frame);
          }
        } else {
          return Ended(shd.id);
        }
      }
    }

    /** Calling the loop again and again returns exactly the wanted records of the rest
        of the basket, in order and with their bytes, up to the first jump in time; it
        meets the end exactly when there is no jump. */
    method ReplayBasket(enabled: set<int>, focus: int) returns (frames: seq<Frame>, stop: LoopEnd)
      requires Valid() && Aligned()
      modifies this`hbkt, this`fposBkt, this`iframeCur, this`sec, this`i
      ensures Valid() && !stop.Got?
      ensures frames == FramesOf(UpToJump(old(Select(Remaining(), enabled, focus)), old(sec)))
      ensures stop.Ended? <==> Smooth(old(Select(Remaining(), enabled, focus)), old(sec))
      ensures stop.Ended? ==> i == |logs[at]| - 1
      ensures fposBkt == old(EndsAt(enabled, focus))
    {
      hide Playable, Index, Select, TotalSize, UpToJump, Smooth, FramesOf, FrameOf, Jumps, S.IsTable, S.WithinTimes, TimesOf, LoopStop;
      frames := [];
      ghost var all := Select(Remaining(), enabled, focus);
      ReplayStep(all, sec);
      ghost var pending := FramesOf(UpToJump(all, sec));
      stop := ReadLoop(enabled, focus);
      while stop.Got?
        invariant Valid() && (stop.Got? ==> Aligned())
        invariant FramesOf(UpToJump(all, old(sec))) == frames + pending
        invariant stop.Got? ==> pending == [stop.frame] + FramesOf(UpToJump(Select(Remaining(), enabled, focus), sec))
        invariant !stop.Got? ==> pending == []
        invariant Smooth(all, old(sec)) <==>
          if stop.Got? then Smooth(Select(Remaining(), enabled, focus), sec) else stop.Ended?
        invariant stop.Ended? ==> i == |logs[at]| - 1
        invariant old(EndsAt(enabled, focus)) == if stop.Got? then EndsAt(enabled, focus) else fposBkt
        decreases |logs[at]| - i, stop.Got?
      {
        ghost var rest := Select(Remaining(), enabled, focus);
        ReplayStep(rest, sec);
        assert frames + pending == (frames + [stop.frame]) + FramesOf(UpToJump(rest, sec));
        frames := frames + [stop.frame];
        pending := FramesOf(UpToJump(rest, sec));
        stop := ReadLoop(enabled, focus);
      }
      assert frames + pending == frames;
    }

    // -------------------------------------------------------------- by I-frames

    /** The common end of the I-frame reads: the record at `fpos` is read whole. */
    method TakeFrame(k: nat) returns (frame: Frame)
      requires Valid() && k < iframeCnt && iframeCur == k
      modifies this`hbkt, this`fposBkt, this`sec, this`i
      ensures Valid() && Aligned() && Tight() && OnFrame(frame) && i == Which(logs[at], k) + 1
      ensures sec == files[at].idx[k].ts.sec
    {
      hide Playable, Index, TotalSize, WellFormed, DecodeHdr, Select, Which, S.IsTable, S.WithinTimes, TimesOf;
      EntryLeads(files[at], logs[at], k);
      var idd := files[at].idx[k];
      fposBkt := idd.fpos;
      i := Which(logs[at], k);
      RecordCarried(files[at], logs[at], i);
      hbkt := idd.fpos;
      var shd := HdrAt(files[at].bkt, hbkt);
      hbkt := hbkt + STREAM_HDR;
      frame := TakeVideo(shd);
    }

    /** The reader stands behind the I-frame its cursor names, and has just read it. */
    ghost predicate OnFrame(frame: Frame)
      reads this
      requires Valid()
    {
      iframeCur < iframeCnt && i > 0 && frame == FrameOf(logs[at][i - 1]) &&
      iframeCur < |Index(logs[at])| && PointsAt(logs[at], Index(logs[at])[iframeCur], i - 1)
    }

    /** Between the old position and the I-frame just read there is at most one I-frame. */
    ghost predicate SkipsAtMostOne(at0: nat, cnt0: int, before0: int)
      reads this
    {
      if at == at0 then before0 <= iframeCur <= before0 + 1
      else iframeCur == 0 && cnt0 - before0 <= 1
    }

    /** The next I-frame, if there is one. */
    ghost predicate OneOn(p: Spot, sec0: int, a: Answer)
      reads this
      requires 0 <= p.at < |files|
    {
      (a.Ok? <==> exists q :: Follows(p, sec0, q)) && (a.Ok? ==> Follows(p, sec0, Here()))
    }

    ghost predicate OneBack(p: Spot, sec0: int, a: Answer)
      reads this
      requires 0 <= p.at < |files|
    {
      (a.Ok? <==> exists q :: Precedes(p, sec0, q)) && (a.Ok? ==> Precedes(p, sec0, Here()))
    }

    /** Nothing moved. */
    ghost predicate Stays(p: Spot, i0: nat, sec0: int, hbkt0: nat)
      reads this
    {
      Here() == p && i == i0 && sec == sec0 && hbkt == hbkt0
    }

    /** The cursor moves to the next entry, or to the first one of the next basket. */
    method NextEntry() returns (ok: bool)
      requires Valid()
      modifies this
      ensures Valid() && (ok <==> exists q :: Follows(old(Here()), old(sec), q))
      ensures ok ==> Follows(old(Here()), old(sec), Here()) && Later(times, Here(), old(Here())) && iframeCur < iframeCnt
      ensures ok && at == old(at) ==> i == old(i) && iframeCur == old(iframeCur) + 1
      ensures ok && at != old(at) ==>
        i == 0 && iframeCur == 0 && EntriesBefore() == 0 && old(iframeCur) + 1 >= old(iframeCnt) &&
        S.AbsMinute(times[at].end) > S.AbsMinute(times[old(at)].end)
      ensures !ok ==> iframeCur + 1 >= iframeCnt
      ensures !ok ==> Stays(old(Here()), old(i), old(sec), old(hbkt))
    {
      hide Playable, Index, TotalSize, S.IsTable, S.WithinTimes, TimesOf, S.AbsMinute, FindsNext;
      if iframeCur + 1 >= iframeCnt {
        var b := SearchNext();
        if b == -1 {
          return false;
        }
        OpenNext(b);
        assert Follows(old(Here()), old(sec), Here());
      } else {
        iframeCur := iframeCur + 1;
        assert Follows(old(Here()), old(sec), Here());
      }
      return true;
    }

    /** The cursor moves to the entry before, or to the last one of the basket before. */
    method PrevEntry() returns (ok: bool)
      requires Valid() && iframeCur <= iframeCnt
      modifies this
      ensures Valid() && iframeCur <= iframeCnt && (ok <==> exists q :: Precedes(old(Here()), old(sec), q))
      ensures ok ==> Precedes(old(Here()), old(sec), Here()) && Earlier(times, Here(), old(Here())) && iframeCur < iframeCnt
      ensures ok && at != old(at) ==> S.AbsMinute(times[at].begin) < S.AbsMinute(times[old(at)].begin)
      ensures if ok && at == old(at) then iframeCur == old(iframeCur) - 1 else old(iframeCur) == 0
      ensures !ok ==> Stays(old(Here()), old(i), old(sec), old(hbkt))
    {
      hide Playable, Index, TotalSize, S.IsTable, S.WithinTimes, TimesOf, S.AbsMinute, FindsPrev;
      if iframeCur - 1 < 0 {
        var b := SearchPrev();
        if b == -1 {
          return false;
        }
        OpenPrev(b);
        assert Precedes(old(Here()), old(sec), Here());
      } else {
        iframeCur := iframeCur - 1;
        assert Precedes(old(Here()), old(sec), Here());
      }
      return true;
    }

    /** The I-frame of the entry the cursor is at, if it is ahead and of an enabled channel. */
    method TryEntry(enabled: set<int>) returns (a: Answer)
      requires Valid() && iframeCur < iframeCnt
      modifies this`hbkt, this`fposBkt, this`sec, this`i
      ensures Valid() && (AllEnabled(enabled) && iframeCur >= old(EntriesBefore()) ==> a.Ok?)
      ensures a.Ok? ==> Aligned() && Tight() && OnFrame(a.frame) && a.frame.video && a.frame.ch in enabled && i > old(i)
      ensures a.Ok? ==> sec == files[at].idx[iframeCur].ts.sec
      ensures a.Err? ==> unchanged(this)
      ensures a.Err? ==> iframeCur < |files[at].idx| && (files[at].idx[iframeCur].fpos < fposBkt || files[at].idx[iframeCur].ch !in enabled)
    {
      hide Playable, Index, TotalSize, WellFormed, Which, DecodeHdr, S.IsTable, S.WithinTimes, TimesOf;
      EntryLeads(files[at], logs[at], iframeCur);
      if iframeCur >= EntriesBefore() {
        EntryAhead(files[at], logs[at], i, iframeCur);
      }
      var idd := files[at].idx[iframeCur];
      if idd.fpos >= fposBkt {
        EntryIsLater(files[at], logs[at], i, iframeCur);
        RecordCarried(files[at], logs[at], Which(logs[at], iframeCur));
        var shd := HdrAt(files[at].bkt, idd.fpos);
        if shd.id == ID_VIDEO && shd.ch in enabled {
          var frame := TakeFrame(iframeCur);
          return Ok(frame);
        }
      }
      return Err;
    }

    /** BKTMD_ReadNextIFrame; its calls to itself are turns of the loop. */
    method ReadNextIFrame(enabled: set<int>) returns (a: Answer)
      requires Valid()
      modifies this
      ensures Valid() && (Here() == old(Here()) || Later(times, Here(), old(Here())))
      ensures a.Ok? ==> Aligned() && Tight() && OnFrame(a.frame) && a.frame.video && a.frame.ch in enabled && Later(times, Here(), old(Here()))
      ensures AllEnabled(enabled) && old(Tight()) ==> OneOn(old(Here()), old(sec), a)
      ensures AllEnabled(enabled) && old(Tight()) && a.Err? ==> Stays(old(Here()), old(i), old(sec), old(hbkt))
      ensures (a.Err? ==> NoneFollows(Here(), sec)) && (a.Ok? && at == old(at) ==> i > old(i))
      ensures PassedOver(files[old(at)], old(iframeCur), if a.Ok? && at == old(at) then iframeCur else old(iframeCnt), old(fposBkt), enabled)
      ensures AllEnabled(enabled) && old(Tight()) && a.Ok? ==> SkipsAtMostOne(old(at), old(iframeCnt), old(EntriesBefore()))
      ensures a.Ok? ==> sec == files[at].idx[iframeCur].ts.sec
    {
      hide Playable, Index, TotalSize, WellFormed, Which, DecodeHdr, S.IsTable, S.WithinTimes, TimesOf, S.AbsMinute, Follows, FindsNext, PassedOver;
      NonePassed(files[at], iframeCur, fposBkt, enabled);
      while true
        invariant at == old(at) ==> i == old(i) && iframeCnt == old(iframeCnt) && iframeCur >= old(iframeCur)
        invariant PassedOver(files[old(at)], old(iframeCur), if at == old(at) then iframeCur + 1 else old(iframeCnt), old(fposBkt), enabled)
        invariant Valid() && (Here() == old(Here()) || Later(times, Here(), old(Here())))
        invariant AllEnabled(enabled) && old(Tight()) ==> Stays(old(Here()), old(i), old(sec), old(hbkt))
        decreases horizon - S.AbsMinute(times[at].end), iframeCnt - iframeCur
      {
        EntriesWithin(files[at], logs[at], i);
        ghost var cur, was := iframeCur, at;
        var ok := NextEntry();
        if was == old(at) && (at != was || !ok) {
          PassedAll(files[was], old(iframeCur), cur + 1, old(iframeCur), old(iframeCnt), old(fposBkt), enabled);
        }
        if !ok {
          return Err;
        }
        a := TryEntry(enabled);
        if a.Ok? {
          return;
        }
        if at == old(at) {
          OnePassed(files[at], old(iframeCur), iframeCur, 0, old(fposBkt), enabled);
        }
      }
    }

    /** BKTMD_ReadPrevIFrame. */
    method ReadPrevIFrame(enabled: set<int>) returns (a: Answer)
      requires Valid() && iframeCur <= iframeCnt
      modifies this
      ensures Valid() && iframeCur <= iframeCnt
      ensures a.Ok? ==> Aligned() && Tight() && OnFrame(a.frame) && a.frame.video && a.frame.ch in enabled && Earlier(times, Here(), old(Here()))
      ensures AllEnabled(enabled) ==> OneBack(old(Here()), old(sec), a)
      ensures a.Err? ==> NonePrecedes(Here(), sec)
      ensures PassedOver(files[old(at)], if a.Ok? && at == old(at) then iframeCur else -1, old(iframeCur), 0, enabled)
      ensures AllEnabled(enabled) && a.Err? ==> Stays(old(Here()), old(i), old(sec), old(hbkt))
      ensures a.Ok? ==> sec == files[at].idx[iframeCur].ts.sec
    {
      hide Playable, Index, TotalSize, WellFormed, Which, DecodeHdr, S.IsTable, S.WithinTimes, TimesOf, S.AbsMinute, Precedes, FindsPrev, PassedOver;
      NonePassed(files[at], iframeCur - 1, 0, enabled);
      while true
        invariant PassedOver(files[old(at)], if at == old(at) then iframeCur - 1 else -1, old(iframeCur), 0, enabled)
        invariant Valid() && iframeCur <= iframeCnt && (Here() == old(Here()) || Earlier(times, Here(), old(Here())))
        invariant AllEnabled(enabled) ==> Stays(old(Here()), old(i), old(sec), old(hbkt))
        decreases S.AbsMinute(times[at].begin) + horizon, iframeCur
      {
        ghost var cur, was := iframeCur, at;
        var ok := PrevEntry();
        if was == old(at) && (at != was || !ok) {
          PassedAll(files[was], cur - 1, old(iframeCur), -1, old(iframeCur), 0, enabled);
        }
        if !ok {
          return Err;
        }
        EntryLeads(files[at], logs[at], iframeCur);
        var idd := files[at].idx[iframeCur];
        RecordCarried(files[at], logs[at], Which(logs[at], iframeCur));
        var shd := HdrAt(files[at].bkt, idd.fpos);
        if shd.id == ID_VIDEO && shd.ch in enabled {
          var frame := TakeFrame(iframeCur);
          return Ok(frame);
        }
        if at == old(at) {
          OnePassed(files[at], 0, iframeCur, old(iframeCur), 0, enabled);
        }
      }
    }

    // -------------------------------------------------------------- into the next basket

    /** Whatever lies at the handle is read as a video frame, if it looks like one. */
    method TakeAny(enabled: set<int>) returns (a: Answer)
      requires at < |files|
      modifies this`hbkt, this`fposBkt, this`sec
      ensures var file := files[at].bkt; var looks := LooksLikeVideo(file, old(hbkt), enabled);
        a == (if looks then Ok(FrameAt(file, old(hbkt))) else Err) &&
        fposBkt == (if looks then V.After(old(hbkt), HdrAt(file, old(hbkt))) else old(fposBkt)) &&
        (looks ==> hbkt == fposBkt) && sec == if looks then HdrAt(file, old(hbkt)).ts.sec else old(sec)
    {
      hide DecodeHdr;
      var file := files[at].bkt;
      if CanRead(file, hbkt, STREAM_HDR) {
        var shd := HdrAt(file, hbkt);
        var start := hbkt;
        hbkt := hbkt + STREAM_HDR;
        if shd.id == ID_VIDEO && shd.ch in enabled && CanRead(file, hbkt, VSTREAM_HDR + shd.framesize) {
          a := Ok(FrameAt(file, start));
          sec := shd.ts.sec;
          hbkt := hbkt + VSTREAM_HDR + shd.framesize;
          fposBkt := hbkt;
          return;
        }
      }
      a := Err;
    }

    /** At the end of the basket with the cursor more than one entry behind, which takes
        I-frames of channels that are not enabled, and with something like a frame of an
        enabled channel in the old bytes behind the end marker. */
    ghost predicate Strays(enabled: set<int>)
      reads this
      requires Valid()
    {
      iframeCur + 1 < iframeCnt && LooksLikeVideo(files[at].bkt, AfterEnd(), enabled)
    }

    /** The position behind the header at the end of the basket. */
    ghost function AfterEnd(): nat
      reads this
      requires Valid()
    {
      Place(logs[at], |logs[at]| - 1) + STREAM_HDR
    }

    /** The first record of basket b, if it is a frame of an enabled channel, or else the
        I-frame after the basket's first one. */
    ghost predicate FirstOf(b: int, enabled: set<int>, a: Answer)
      reads this
      requires Valid() && 0 <= b < |files|
    {
      var log := logs[b];
      if log != [] && IsVideo(log[0]) && log[0].hdr.ch in enabled then
        a == Ok(FrameOf(log[0])) && at == b && i == 1 && iframeCur == 0
      else AllEnabled(enabled) ==> OneOn(Spot(b, 0), times[b].begin, a)
    }

    /** What is returned when the search for the next basket comes first. */
    ghost predicate Continues(p: Spot, sec0: int, enabled: set<int>, r: Answer)
      reads this
      requires Valid()
    {
      ((forall b :: !FindsNext(rdb, times, p.at, sec0, b)) ==> r.Err? && WaitsAtEnd(p, sec0)) &&
      forall b :: FindsNext(rdb, times, p.at, sec0, b) ==> b < |files| && FirstOf(b, enabled, r)
    }

    /** Nothing moved but the handle, which stands behind the end marker. */
    ghost predicate WaitsAtEnd(p: Spot, sec0: int)
      reads this
      requires Valid()
    {
      Here() == p && sec == sec0 && i == |logs[at]| - 1 && hbkt == AfterEnd()
    }

    /** BKTMD_ReadNextFirstFrame, reached behind the end marker of a basket. */
    method ReadNextFirstFrame(enabled: set<int>) returns (a: Answer)
      requires Valid() && i == |logs[at]| - 1 && hbkt == fposBkt + STREAM_HDR
      modifies this
      ensures old(Strays(enabled)) ==> at == old(at) && ReadsAs(files[at].bkt, old(hbkt), enabled, a)
      ensures !old(Strays(enabled)) ==> at < |files| && (Here() == old(Here()) || Later(times, Here(), old(Here())))
      ensures !old(Strays(enabled)) ==> Valid() && (AllEnabled(enabled) && old(Tight()) ==> Tight())
      ensures !old(Strays(enabled)) && a.Ok? ==>
        Aligned() && Tight() && a.frame.video && a.frame.ch in enabled && Later(times, Here(), old(Here()))
      ensures old(iframeCur) + 1 >= old(iframeCnt) ==> Valid() && Continues(old(Here()), old(sec), enabled, a)
      ensures !old(Strays(enabled)) ==> (a.Err? ==> NoneFollows(Here(), sec)) && (a.Ok? ==> at != old(at))
    {
      hide Playable, Index, TotalSize, Which, S.IsTable, S.WithinTimes, TimesOf, S.AbsMinute, FindsNext, DecodeHdr;
      hide LooksLikeVideo, FrameAt, Follows;
      hide FrameOf;
      AllPassed(files[at], logs[at]);
      if iframeCur + 1 >= iframeCnt {
        var b := SearchNext();
        if b == -1 {
          NothingFollows();
          return Err;
        }
        OnlyNext(rdb, times, at, sec, b);
        OpenNext(b);
        a := FirstInBasket(enabled);
      } else {
        iframeCur := iframeCur + 1;
        a := TakeAny(enabled);
        if a.Err? {
          a := ReadNextIFrame(enabled);
        }
      }
    }

    method FirstInBasket(enabled: set<int>) returns (a: Answer)
      requires Valid() && Aligned() && i == 0 && iframeCur == 0 && EntriesBefore() == 0 && sec == times[at].begin
      modifies this
      ensures Valid() && FirstOf(old(at), enabled, a) && (AllEnabled(enabled) ==> Tight())
      ensures a.Err? ==> NoneFollows(Here(), sec)
      ensures Here() == old(Here()) || Later(times, Here(), old(Here()))
      ensures a.Ok? ==> Aligned() && Tight() && a.frame.video && a.frame.ch in enabled
    {
      hide Playable, Index, TotalSize, Which, S.IsTable, S.WithinTimes, TimesOf, S.AbsMinute, FindsNext, DecodeHdr;
      hide LooksLikeVideo, FrameAt, Follows;
      LooksRight(files[at], logs[at], 0, enabled);
      IndexStep(logs[at], 0);
      a := TakeAny(enabled);
      if a.Ok? {
        i := 1;
      } else {
        a := ReadNextIFrame(enabled);
      }
    }

    // -------------------------------------------------------------- one call

    /** There is nothing more to read here, and what is behind misleads. */
    ghost predicate Misled(enabled: set<int>, focus: int)
      reads this
      requires Valid()
    {
      Select(Remaining(), enabled, focus) == [] && AtMarker() && Strays(enabled)
    }

    /** The basket ends with a marker. */
    ghost predicate AtMarker()
      reads this
      requires Valid()
    {
      IsMarker(logs[at][|logs[at]| - 1])
    }

    /** The first of the records to be read is returned, and the others are left. */
    ghost predicate Given(next: seq<Rec>, p: Spot, enabled: set<int>, focus: int, a: Answer)
      reads this
      requires Valid() && next != []
    {
      a == Ok(FrameOf(next[0])) && Here() == Spot(p.at, p.entry + Passed(a.frame)) && sec == next[0].hdr.ts.sec &&
      Select(Remaining(), enabled, focus) == next[1..]
    }

    /** An I-frame is returned, behind p; the next one, if the cursor can be relied on. */
    ghost predicate Passes(p: Spot, sec0: int, tight: bool, enabled: set<int>, a: Answer)
      reads this
      requires Valid() && 0 <= p.at < |files|
    {
      (tight ==> OneOn(p, sec0, a)) && (a.Ok? ==> OnFrame(a.frame) && a.frame.ch in enabled && Later(times, Here(), p))
    }

    /** BKTMD_ReadNextFrame: the next wanted frame of the basket; behind the end marker,
        the start of the next basket; at a jump in time or an end that is no marker, the
        next I-frame. */
    method ReadNextFrame(enabled: set<int>, focus: int) returns (a: Answer)
      requires Valid() && Aligned()
      modifies this
      ensures !old(Misled(enabled, focus)) ==> Valid() && (AllEnabled(enabled) && old(Tight()) ==> Tight()) && (a.Ok? ==> Aligned())
      ensures old(Misled(enabled, focus)) ==> !(AllEnabled(enabled) && old(Tight()))
      ensures !old(Misled(enabled, focus)) && a.Err? ==> NoneFollows(Here(), sec)
      ensures !old(Misled(enabled, focus)) ==> at < |files| && (Here() == old(Here()) || Later(times, Here(), old(Here())))
      ensures old(Misled(enabled, focus)) ==> at == old(at) && ReadsAs(files[at].bkt, old(AfterEnd()), enabled, a)
      ensures var next := old(Select(Remaining(), enabled, focus));
        if next != [] && !Jumps(next[0], old(sec)) then
          Valid() && Given(next, old(Here()), enabled, focus, a)
        else if next == [] && old(AtMarker()) then
          old(iframeCur) + 1 >= old(iframeCnt) ==> Valid() && Continues(old(Here()), old(sec), enabled, a)
        else
          Valid() && Passes(old(Here()), old(sec), AllEnabled(enabled) && old(Tight()), enabled, a)
    {
      hide Playable, Index, TotalSize, Which, Select, S.IsTable, S.WithinTimes, TimesOf, S.AbsMinute, FindsNext;
      hide DecodeHdr, LooksLikeVideo, FrameAt;
      hide FrameOf, OneOn, FirstOf, Jumps, LoopStop, OnFrame, Continues;
      AllPassed(files[at], logs[at]);
      var r := ReadLoop(enabled, focus);
      match r
      case Got(frame) =>
        a := Ok(frame);
      case Ended(id) =>
        if id == ID_END {
          a := ReadNextFirstFrame(enabled);
        } else {
          a := ReadNextIFrame(enabled);
        }
      case Broken =>
        a := ReadNextIFrame(enabled);
    }

    /** The loop of BKTMD_ReadNextFrame from a handle that stands anywhere. */
    method ReadLoopAnywhere(enabled: set<int>, focus: int) returns (r: LoopEnd)
      requires at < |files|
      modifies this`hbkt, this`fposBkt, this`iframeCur, this`sec
      ensures Left(r, hbkt, fposBkt, iframeCur, sec) ==
        LoopFrom(files[at].bkt, old(hbkt), old(fposBkt), old(iframeCur), old(sec), enabled, focus)
    {
      hide DecodeHdr;
      var file := files[at].bkt;
      while true
        invariant LoopFrom(file, hbkt, fposBkt, iframeCur, sec, enabled, focus) ==
          LoopFrom(file, old(hbkt), old(fposBkt), old(iframeCur), old(sec), enabled, focus)
        decreases |file| - hbkt
      {
        if !CanRead(file, hbkt, STREAM_HDR) {
          return Broken;
        }
        var start := hbkt;
        var shd := HdrAt(file, hbkt);
        hbkt := hbkt + STREAM_HDR;
        if shd.id != ID_VIDEO && shd.id != ID_AUDIO {
          return Ended(shd.id);
        }
        if !Picks(shd, enabled, focus) {
          hbkt := hbkt + SubSize(shd) + shd.framesize;
          fposBkt := hbkt;
          continue;
        }
        if shd.id == ID_VIDEO && (shd.ts.sec - sec > 4 || shd.ts.sec - sec < 0) {
          return Broken;
        }
        if !CanRead(file, hbkt, SubSize(shd)) {
          return Broken;
        }
        hbkt := hbkt + SubSize(shd);
        if !CanRead(file, hbkt, shd.framesize) {
          return Broken;
        }
        var frame := FrameAt(file, start);
        hbkt := hbkt + shd.framesize;
        sec := shd.ts.sec;
        fposBkt := hbkt;
        if shd.id == ID_VIDEO && shd.frametype == FT_IFRAME {
          iframeCur := iframeCur + 1;
        }
        return Got(frame);
      }
    }

    /** BKTMD_ReadNextFrame called again after it found nothing: the handle stands behind the
        header it met last, and the loop goes on from there, with whatever is there.  Unless
        it finds a frame both reads that follow begin with the search that found nothing.
        The reader's place is kept if the loop gives up at once. */
    method ReadAgain(enabled: set<int>, focus: int) returns (a: Answer)
      requires Valid() && NoneFollows(Here(), sec)
      modifies this`hbkt, this`fposBkt, this`iframeCur, this`sec
      ensures var o := LoopFrom(files[at].bkt, old(hbkt), old(fposBkt), old(iframeCur), old(sec), enabled, focus);
        a == (if o.end.Got? then Ok(o.end.frame) else Err) &&
        hbkt == o.hbkt && fposBkt == o.fposBkt && iframeCur == o.iframeCur && sec == o.sec
      ensures Stops(files[at].bkt, old(hbkt), old(sec), enabled, focus) ==>
        a.Err? && Valid() && Here() == old(Here()) && sec == old(sec) && fposBkt == old(fposBkt)
    {
      hide Playable, S.IsTable, S.WithinTimes, TimesOf, FindsNext, LoopFrom, Stops;
      LoopMovesIff(files[at].bkt, hbkt, fposBkt, iframeCur, sec, enabled, focus);
      NothingAhead();
      var r := ReadLoopAnywhere(enabled, focus);
      if r.Got? {
        return Ok(r.frame);
      }
      var b := SearchNext();
      assert b == -1;
      return Err;
    }

    lemma NothingFollows()
      requires Valid() && iframeCur + 1 >= iframeCnt && forall b :: !FindsNext(rdb, times, at, sec, b)
      ensures NoneFollows(Here(), sec)
    {
      hide Playable, S.IsTable, S.WithinTimes, TimesOf, FindsNext;
    }

    lemma NothingAhead()
      requires Valid() && NoneFollows(Here(), sec)
      ensures iframeCur + 1 >= iframeCnt && forall b :: !FindsNext(rdb, times, at, sec, b)
    {
      hide Playable, S.IsTable, S.WithinTimes, TimesOf, FindsNext;
      assert iframeCur + 1 < iframeCnt ==> Follows(Here(), sec, Spot(at, iframeCur + 1));
      forall b
        ensures !FindsNext(rdb, times, at, sec, b)
      {
        assert !Follows(Here(), sec, Spot(b, 0));
      }
    }

    /** Repeated calls return exactly the wanted records of the basket, in order and with
        their bytes, as long as there is one and it does not jump in time. */
    method ReadFrames(n: nat, enabled: set<int>, focus: int) returns (frames: seq<Frame>)
      requires Valid() && Aligned() && n <= |UpToJump(Select(Remaining(), enabled, focus), sec)|
      modifies this
      ensures Valid() && Aligned() && at == old(at)
      ensures frames == FramesOf(UpToJump(old(Select(Remaining(), enabled, focus)), old(sec)))[..n]
      ensures frames + FramesOf(UpToJump(Select(Remaining(), enabled, focus), sec)) ==
        FramesOf(UpToJump(old(Select(Remaining(), enabled, focus)), old(sec)))
    {
      hide Playable, Index, TotalSize, Which, Select, S.IsTable, S.WithinTimes, TimesOf, FindsNext, FrameOf, OneOn;
      hide FirstOf, UpToJump, FramesOf;
      hide Jumps, Strays, Tight, AllEnabled;
      frames := [];
      ghost var all := FramesOf(UpToJump(Select(Remaining(), enabled, focus), sec));
      assert [] + all == all;
      for k := 0 to n
        invariant Valid() && Aligned() && at == old(at) && |frames| == k
        invariant frames + FramesOf(UpToJump(Select(Remaining(), enabled, focus), sec)) == all
      {
        ghost var next := Select(Remaining(), enabled, focus);
        ReplayStep(next, sec);
        assert |FramesOf(UpToJump(next, sec))| == |all| - k > 0;
        ghost var rest := FramesOf(UpToJump(next[1..], next[0].hdr.ts.sec));
        assert frames + ([FrameOf(next[0])] + rest) == (frames + [FrameOf(next[0])]) + rest;
        var a := ReadNextFrame(enabled, focus);
        frames := frames + [a.frame];
      }
      assert frames == (frames + FramesOf(UpToJump(Select(Remaining(), enabled, focus), sec)))[..n];
    }
    // -------------------------------------------------------------- there and back

    /** The time in an I-frame's index entry, which is the clock after it has been read. */
    ghost function EntrySec(p: Spot): int
      requires Baskets()
    {
      if OnEntry(p) && p.entry < |files[p.at].idx| then files[p.at].idx[p.entry].ts.sec else 0
    }

    /** A walk forward by I-frames, begun with the clock at sec0. */
    ghost predicate Forward(path: seq<Spot>, sec0: int)
      requires Baskets()
    {
      path != [] && 0 <= path[0].at < |files| &&
      (forall k :: 0 < k < |path| ==> OnEntry(path[k])) &&
      forall k :: 0 <= k < |path| - 1 ==> Follows(path[k], if k == 0 then sec0 else EntrySec(path[k]), path[k + 1])
    }

    /** A walk back by I-frames, from one that has just been read. */
    ghost predicate Backward(path: seq<Spot>)
      requires Baskets()
    {
      path != [] && (forall k :: 0 <= k < |path| ==> OnEntry(path[k])) &&
      forall k :: 0 <= k < |path| - 1 ==> Precedes(path[k], EntrySec(path[k]), path[k + 1])
    }

    ghost predicate NoneFollows(p: Spot, sec0: int)
      requires 0 <= p.at < |files|
    {
      forall q :: !Follows(p, sec0, q)
    }

    ghost predicate NonePrecedes(p: Spot, sec0: int)
      requires 0 <= p.at < |files|
    {
      forall q :: !Precedes(p, sec0, q)
    }

    /** At every change of baskets on the path the search back finds the basket that the
        path came from. */
    ghost predicate LinksUndone(path: seq<Spot>)
      requires Baskets()
    {
      forall k :: 0 <= k < |path| - 1 && path[k].at != path[k + 1].at ==>
        FindsPrev(rdb, times, path[k + 1].at, EntrySec(path[k + 1]), path[k].at)
    }

    /** Every basket lies on one day, and the times in its index within those of its header. */
    ghost predicate Timed()
      requires Baskets()
    {
      forall b :: 0 <= b < |times| ==>
        S.DayOf(times[b].begin) == S.DayOf(times[b].end) &&
        forall k :: 0 <= k < files[b].count && k < |files[b].idx| ==> times[b].begin <= files[b].idx[k].ts.sec <= times[b].end
    }

    /** At every change of baskets on the path the one that was left was the last to record,
        and in the lowest channel, of the minutes up to its end and before the next one's
        begin. */
    ghost predicate LeftAreLast(path: seq<Spot>)
      requires |times| == |files| && forall k :: 0 <= k < |path| ==> 0 <= path[k].at < |files|
    {
      forall k :: 0 <= k < |path| - 1 && path[k].at != path[k + 1].at ==> LeftIsLast(path[k].at, path[k + 1].at)
    }

    ghost predicate LeftIsLast(a: int, b: int)
      requires 0 <= a < |times| && 0 <= b < |times|
    {
      S.LastUpTo(rdb, a + 1, S.Min(S.AbsMinute(times[a].end), S.AbsMinute(times[b].begin) - 1))
    }

    lemma {:induction false} OnPath(path: seq<Spot>, sec0: int)
      requires Baskets() && Forward(path, sec0)
      ensures forall k :: 0 <= k < |path| ==> 0 <= path[k].at < |files|
    {
      hide Playable, S.IsTable, S.WithinTimes, Follows;
    }

    /** Hence, of baskets with such times, what a walk forward needs to be undone is a matter
        of the minute table alone. */
    lemma {:induction false} LinksUndoneIff(path: seq<Spot>, sec0: int)
      requires Baskets() && Timed() && Forward(path, sec0)
      requires times[path[0].at].begin <= sec0 <= times[path[0].at].end
      ensures (forall k :: 0 <= k < |path| ==> 0 <= path[k].at < |files|) && (LinksUndone(path) <==> LeftAreLast(path))
    {
      hide Playable, S.IsTable, S.WithinTimes, Follows, FindsPrev, LeftIsLast, EntrySec;
      OnPath(path, sec0);
      forall k | 0 <= k < |path| - 1 && path[k].at != path[k + 1].at
        ensures FindsPrev(rdb, times, path[k + 1].at, EntrySec(path[k + 1]), path[k].at) <==> LeftIsLast(path[k].at, path[k + 1].at)
      {
        LinkUndoneIff(path, sec0, k);
      }
    }

    lemma {:induction false} LinkUndoneIff(path: seq<Spot>, sec0: int, k: nat)
      requires Baskets() && Timed() && Forward(path, sec0) && k + 1 < |path| && path[k].at != path[k + 1].at
      requires times[path[0].at].begin <= sec0 <= times[path[0].at].end
      requires 0 <= path[k].at < |files| && 0 <= path[k + 1].at < |files|
      ensures FindsPrev(rdb, times, path[k + 1].at, EntrySec(path[k + 1]), path[k].at) <==> LeftIsLast(path[k].at, path[k + 1].at)
    {
      hide Playable, S.IsTable, S.WithinTimes, S.StepForward, S.StepBackward, S.LastUpTo, S.AbsMinute, S.DayOf;
      var p, q := path[k], path[k + 1];
      var sec := if k == 0 then sec0 else EntrySec(p);
      assert Follows(p, sec, q);
      if k > 0 {
        Clocked(p);
      }
      Clocked(q);
      S.BackUndoesForwardOnOneDayIff(rdb, TimesOf(times), p.at + 1, sec, q.at + 1, EntrySec(q));
    }

    lemma Clocked(p: Spot)
      requires Baskets() && Timed() && OnEntry(p)
      ensures times[p.at].begin <= EntrySec(p) <= times[p.at].end
    {
      hide S.IsTable, S.WithinTimes, Index, TotalSize;
      EntryLeads(files[p.at], logs[p.at], p.entry);
    }

    /** The way back is the way there. */
    ghost predicate Retraces(path: seq<Spot>, back: seq<Spot>) {
      |back| == |path| && forall k :: 0 <= k < |path| ==> back[k] == path[|path| - 1 - k]
    }

    /** The walk goes on in another basket only behind the last entry. */
    lemma {:induction false} LinkAt(path: seq<Spot>, sec0: int, k: nat)
      requires Baskets() && Forward(path, sec0) && k + 1 < |path|
      ensures path[k + 1].at == path[k].at ==> path[k + 1].entry == path[k].entry + 1
      ensures path[k + 1].at != path[k].at ==> path[k + 1].entry == 0 && path[k].entry + 1 >= files[path[k].at].count
    {
      hide Playable, S.IsTable, S.WithinTimes, TimesOf, EntrySec;
      var p, q := path[k], path[k + 1];
      assert Follows(p, if k == 0 then sec0 else EntrySec(path[k]), q);
      if p.entry + 1 >= files[p.at].count {
        NotItself(p.at, if k == 0 then sec0 else EntrySec(path[k]), q.at);
      }
    }

    lemma {:induction false} NotItself(a: int, sec0: int, b: int)
      requires Baskets() && 0 <= a < |files| && FindsNext(rdb, times, a, sec0, b)
      ensures b != a
    {
      hide Playable, S.AbsMinute, S.StepForward;
      S.StepEndsLater(rdb, TimesOf(times), a + 1, sec0, b + 1);
    }

    /** One step of the way back. */
    lemma {:induction false} StepUndone(path: seq<Spot>, sec0: int, k: nat, q: Spot)
      requires Baskets() && Forward(path, sec0) && k + 1 < |path| && OnEntry(path[k]) && LinksUndone(path)
      ensures Precedes(path[k + 1], EntrySec(path[k + 1]), path[k])
      ensures Precedes(path[k + 1], EntrySec(path[k + 1]), q) ==> q == path[k]
    {
      hide Playable, S.IsTable, S.WithinTimes, TimesOf, EntrySec, FindsNext, FindsPrev;
      LinkAt(path, sec0, k);
      if path[k + 1].at != path[k].at {
        OnlyPrev(rdb, times, path[k + 1].at, EntrySec(path[k + 1]), path[k].at);
      }
    }

    /** The way back is the way there if and only if every link is undone; where it ends
        early, nothing was found. */
    lemma {:induction false} RetracesIff(path: seq<Spot>, sec0: int, back: seq<Spot>)
      requires Baskets() && Forward(path, sec0) && |path| > 1 && Backward(back) && |back| <= |path| && back[0] == path[|path| - 1]
      requires |back| < |path| ==> NonePrecedes(back[|back| - 1], EntrySec(back[|back| - 1]))
      ensures Retraces(path, back) <==> OnEntry(path[0]) && LinksUndone(path)
    {
      hide Playable, S.IsTable, S.WithinTimes, TimesOf, EntrySec, FindsNext, FindsPrev, Follows, Precedes;
      var m := |path| - 1;
      if OnEntry(path[0]) && LinksUndone(path) {
        var j := 0;
        while j + 1 < |back|
          invariant 0 <= j < |back| && forall k :: 0 <= k <= j ==> back[k] == path[m - k]
        {
          StepUndone(path, sec0, m - j - 1, back[j + 1]);
          assert Precedes(back[j], EntrySec(back[j]), back[j + 1]);
          j := j + 1;
        }
        if |back| <= m {
          StepUndone(path, sec0, m - |back|, path[m - |back|]);
        }
      }
      if Retraces(path, back) {
        assert path[0] == back[m];
        forall k | 0 <= k < |path| - 1 && path[k].at != path[k + 1].at
          ensures FindsPrev(rdb, times, path[k + 1].at, EntrySec(path[k + 1]), path[k].at)
        {
          LinkAt(path, sec0, k);
          assert back[m - k - 1] == path[k + 1] && back[m - k] == path[k];
          assert Precedes(path[k + 1], EntrySec(path[k + 1]), path[k]);
          PrecedesFinds(path[k + 1], EntrySec(path[k + 1]), path[k]);
        }
      }
    }

    lemma PrecedesFinds(p: Spot, sec0: int, q: Spot)
      requires 0 <= p.at < |files| && Precedes(p, sec0, q) && p.entry < 1
      ensures FindsPrev(rdb, times, p.at, sec0, q.at)
    {
    }

    /** n I-frame steps forward, as far as there are any, and as many back.  The steps back
        undo the steps forward exactly when the walk started at an entry and every search
        back finds the basket that the search forward had left. */
    method ThereAndBack(n: nat, enabled: set<int>) returns (m: nat, ghost path: seq<Spot>, ghost back: seq<Spot>)
      requires Valid() && Tight() && AllEnabled(enabled)
      modifies this
      ensures Valid() && m <= n && |path| == m + 1 && path[0] == old(Here()) && Forward(path, old(sec))
      ensures m < n ==> NoneFollows(path[m], if m == 0 then old(sec) else EntrySec(path[m]))
      ensures m > 0 ==> Backward(back) && back[0] == path[m] && Here() == back[|back| - 1]
      ensures m > 0 ==> (Retraces(path, back) <==> OnEntry(path[0]) && LinksUndone(path))
      ensures m > 0 && OnEntry(path[0]) && LinksUndone(path) ==> Here() == old(Here())
    {
      hide Playable, S.IsTable, S.WithinTimes, TimesOf, EntrySec, FindsNext, FindsPrev, Follows, Precedes;
      hide LinksUndone, AllEnabled, Tight, Index, TotalSize;
      hide SkipsAtMostOne, Later, Earlier, Which, FrameOf, PointsAt;
      ghost var sec0 := sec;
      path, m, back := [Here()], 0, [];
      while m < n
        invariant Valid() && Tight() && m <= n && |path| == m + 1 && path[0] == old(Here()) && path[m] == Here() && Forward(path, sec0)
        invariant sec == if m == 0 then sec0 else EntrySec(Here())
        decreases n - m
      {
        var a := ReadNextIFrame(enabled);
        if a.Err? {
          break;
        }
        EntrySecHere();
        path := path + [Here()];
        m := m + 1;
      }
      if m > 0 {
        back := [Here()];
        var j := 0;
        while j < m
          invariant Valid() && 0 <= j <= m && |back| == j + 1 && back[0] == path[m] && back[j] == Here() && Backward(back)
          invariant sec == EntrySec(Here()) && iframeCur < iframeCnt
          decreases m - j
        {
          var a := ReadPrevIFrame(enabled);
          if a.Err? {
            break;
          }
          EntrySecHere();
          back := back + [Here()];
          j := j + 1;
        }
        RetracesIff(path, sec0, back);
      }
    }

    lemma EntrySecHere()
      requires Valid() && 0 <= iframeCur < iframeCnt
      ensures OnEntry(Here()) && EntrySec(Here()) == files[at].idx[iframeCur].ts.sec
    {
      hide Index, TotalSize, S.IsTable, S.WithinTimes, TimesOf;
      EntryLeads(files[at], logs[at], iframeCur);
    }

    // -------------------------------------------------------------- whole runs

    predicate OpOk(op: Op) {
      match op
      case OpenAt(b, idxPos) => b < |files| && idxPos >= INDEX_HDR && IndexPosToNum(idxPos) < files[b].count
      case OpenFirst(b) => b < |files|
      case OpenLast(b) => b < |files|
      case _ => true
    }

    /** What one operation does to the place, where the clock stood at sec0. */
    ghost predicate Moves(op: Op, p: Spot, sec0: int, ok: bool, q: Spot)
      requires |files| == |times| && 0 <= p.at < |files| && 0 <= q.at < |files|
    {
      match op
      case NextFrame => q == p || Later(times, q, p)
      case NextIFrame => if ok then Follows(p, sec0, q) else q == p && NoneFollows(p, sec0)
      case PrevIFrame => if ok then Precedes(p, sec0, q) else q == p && NonePrecedes(p, sec0)
      case OpenAt(b, idxPos) => ok && idxPos >= INDEX_HDR && q == Spot(b, IndexPosToNum(idxPos))
      case OpenFirst(b) => ok && q == Spot(b, 0)
      case OpenLast(b) => ok && q.at == b && q.entry == files[b].count - 1
    }

    /** Every mix of operations, whether they find what they look for or not, keeps the cursor
        within one of the entries passed, and every one moves as it should.  After a call of
        ReadNextFrame that found nothing, behind the end of a basket or at a jump in time, the
        handle stands behind a header; a further call reads on from there, and the mix ends
        early only where what is there does not make the loop give up at once. */
    method Perform(ops: seq<Op>, enabled: set<int>, focus: int) returns (oks: seq<bool>, ghost trace: seq<Mark>)
      requires Valid() && Aligned() && Tight() && AllEnabled(enabled)
      requires forall k :: 0 <= k < |ops| ==> OpOk(ops[k])
      modifies this
      ensures Valid() && Tight() && |oks| <= |ops|
      ensures |oks| < |ops| ==> ops[|oks|].NextFrame? && !Aligned() && !Stops(files[at].bkt, hbkt, sec, enabled, focus)
      ensures |trace| == |oks| + 1 && trace[0] == Mark(old(Here()), old(sec)) && trace[|oks|] == Mark(Here(), sec)
      ensures Traced(ops, oks, trace)
    {
      hide Playable, Index, TotalSize, Select, S.IsTable, S.WithinTimes, TimesOf, AllEnabled, Tight, Moves, Stops, NoneFollows;
      oks, trace := [], [Mark(Here(), sec)];
      while |oks| < |ops|
        invariant Valid() && Tight() && |oks| <= |ops| && |trace| == |oks| + 1 && (Aligned() || NoneFollows(Here(), sec))
        invariant trace[0] == Mark(old(Here()), old(sec)) && trace[|oks|] == Mark(Here(), sec) && Traced(ops, oks, trace)
        decreases |ops| - |oks|
      {
        if ops[|oks|].NextFrame? && hbkt != fposBkt && !Stops(files[at].bkt, hbkt, sec, enabled, focus) {
          return;
        }
        var ok := PerformOne(ops[|oks|], enabled, focus);
        oks, trace := oks + [ok], trace + [Mark(Here(), sec)];
      }
    }

    ghost predicate Traced(ops: seq<Op>, oks: seq<bool>, trace: seq<Mark>)
      requires |oks| <= |ops| && |trace| == |oks| + 1
    {
      |files| == |times| && (forall k :: 0 <= k < |trace| ==> 0 <= trace[k].spot.at < |files|) &&
      forall k :: 0 <= k < |oks| ==> Moves(ops[k], trace[k].spot, trace[k].sec, oks[k], trace[k + 1].spot)
    }

    method PerformOne(op: Op, enabled: set<int>, focus: int) returns (ok: bool)
      requires Valid() && Tight() && AllEnabled(enabled) && OpOk(op) && (Aligned() || NoneFollows(Here(), sec))
      requires op.NextFrame? ==> Aligned() || Stops(files[at].bkt, hbkt, sec, enabled, focus)
      modifies this
      ensures Valid() && Tight() && Moves(op, old(Here()), old(sec), ok, Here()) && (Aligned() || NoneFollows(Here(), sec))
      ensures op.NextFrame? ==> if ok then Aligned() else NoneFollows(Here(), sec)
    {
      hide Playable, Index, TotalSize, Select, S.IsTable, S.WithinTimes, TimesOf, Follows, Precedes, Later, Misled, Stops, LoopFrom;
      EntriesWithin(files[at], logs[at], i);
      ok := true;
      match op
      case NextFrame =>
        var a;
        if hbkt == fposBkt {
          a := ReadNextFrame(enabled, focus);
        } else {
          a := ReadAgain(enabled, focus);
        }
        ok := a.Ok?;
      case NextIFrame =>
        var a := ReadNextIFrame(enabled);
        ok := a.Ok?;
      case PrevIFrame =>
        var a := ReadPrevIFrame(enabled);
        ok := a.Ok?;
      case OpenAt(b, idxPos) =>
        Open(b, idxPos);
      case OpenFirst(b) =>
        OpenNext(b);
      case OpenLast(b) =>
        OpenPrev(b);
    }
  }

  // ---------------------------------------------------------------- where it goes wrong

  /** Two I-frames of channel 0 and the end marker. */
  function TwoFrames(): seq<Rec> {
    [V.SmallFrame(1), V.SmallFrame(1), V.SmallMarker(1)]
  }

  /** A frame of channel 1 that the last use of the basket left behind. */
  function OldFrame(): Rec {
    V.SmallFrame(1).(hdr := V.SmallFrame(1).hdr.(ch := 1))
  }

  /** Their basket, with the old frame behind the end marker. */
  function StaleBasket(): R.BasketFile {
    R.BasketFile(V.FileOf(TwoFrames() + [OldFrame()]),
                 [EntryFor(V.SmallFrame(1), BASKET_HDR), EntryFor(V.SmallFrame(1), End([V.SmallFrame(1)]))], 2)
  }

  lemma {:induction false} StaleBasketIsPlayable()
    ensures Playable(StaleBasket(), TwoFrames()) && Select(TwoFrames(), {1}, 0) == []
    ensures LooksLikeVideo(StaleBasket().bkt, End(TwoFrames()), {1})
    ensures FrameAt(StaleBasket().bkt, End(TwoFrames())) == FrameOf(OldFrame())
    ensures Place(TwoFrames(), 2) + STREAM_HDR == End(TwoFrames())
  {
    hide Bytes, TotalSize, Holds, HdrAt, Index, Select;
    var v, m, log, old1 := V.SmallFrame(1), V.SmallMarker(1), TwoFrames(), OldFrame();
    var all := log + [old1];
    V.FileHolds(all);
    HoldsPrefix(V.FileOf(all), log, [old1]);
    IndexOfThree(v, v, m);
    SelectStep(log, 0, {1}, 0);
    SelectStep(log, 1, {1}, 0);
    SelectStep(log, 2, {1}, 0);
    assert log[0..] == log;
    PlaceStep(log, 2);
    PlaceEnd(log);
    ReadAtPlace(V.FileOf(all), all, 3);
    assert all[..3] == log;
    assert all[3] == old1;
  }

  lemma {:induction false} IndexOfThree(a: Rec, b: Rec, c: Rec)
    requires IsIFrame(a) && IsIFrame(b) && IsEnd(c)
    ensures Index([a, b, c]) == [EntryFor(a, BASKET_HDR), EntryFor(b, End([a]))]
  {
    hide Index, TotalSize;
    V.IndexOfOne(a);
    AppendIndex([a], b);
    AppendIndex([a] + [b], c);
    assert [a] + [b] + [c] == [a, b, c];
  }

  lemma NothingNamed(times: seq<S.Times>)
    ensures S.IsTable([]) && S.WithinTimes([], TimesOf(times))
  {
  }

  lemma OldFrameIsNew()
    ensures OldFrame() !in TwoFrames() && |TwoFrames()| == 3 && IsMarker(TwoFrames()[2]) && StaleBasket().count == 2
  {
  }

  lemma {:induction false} BothAreWanted()
    ensures var v := V.SmallFrame(1);
      Select(TwoFrames(), {0, 1}, 0) == [v, v] && v.hdr.ts.sec == 1 && !Jumps(v, 0) && !Jumps(v, 1) &&
      FrameOf(v).video && FrameOf(v).frametype == FT_IFRAME
    ensures forall j :: 0 <= j < 3 && IsVideo(TwoFrames()[j]) ==> TwoFrames()[j].hdr.ch == 0
  {
    hide Select;
    var log := TwoFrames();
    SelectStep(log, 0, {0, 1}, 0);
    SelectStep(log, 1, {0, 1}, 0);
    SelectStep(log, 2, {0, 1}, 0);
    assert log[0..] == log;
    assert [V.SmallFrame(1)] + ([V.SmallFrame(1)] + []) == [V.SmallFrame(1), V.SmallFrame(1)];
  }

  lemma BothEnabled(p: Player)
    requires p.Baskets() && p.logs == [TwoFrames()]
    ensures p.AllEnabled({0, 1})
  {
    hide Playable, Select, S.IsTable, S.WithinTimes, TimesOf;
  }

  lemma NoOther(times: seq<S.Times>, a: int, sec: int)
    ensures forall b :: !FindsNext([], times, a, sec, b)
  {
  }

  /** What the loop makes of the bytes behind the end marker. */
  lemma {:induction false} OldFrameIsTaken(fposBkt: nat, cur: int)
    ensures var o := LoopFrom(StaleBasket().bkt, End(TwoFrames()), fposBkt, cur, 1, {0, 1}, 0);
      o.end == Got(FrameOf(OldFrame())) && o.iframeCur == cur + 1
  {
    hide TotalSize, Bytes, StaleBasket, TwoFrames, DecodeHdr, FrameAt, OldFrame, FrameOf, Playable, Select;
    StaleBasketIsPlayable();
    OldFrameHeader();
    var file, pos := StaleBasket().bkt, End(TwoFrames());
    var h := HdrAt(file, pos);
    assert h.ch in {0, 1} && Picks(h, {0, 1}, 0);
    assert V.After(pos, h) == pos + STREAM_HDR + SubSize(h) + h.framesize <= |file|;
  }

  lemma OldFrameHeader()
    ensures CanRead(StaleBasket().bkt, End(TwoFrames()), STREAM_HDR) && HdrAt(StaleBasket().bkt, End(TwoFrames())) == OldFrame().hdr
    ensures OldFrame().hdr.ts.sec == 1 && OldFrame().hdr.frametype == FT_IFRAME && OldFrame().hdr.id == ID_VIDEO && OldFrame().hdr.ch == 1
  {
    hide Bytes, TotalSize, Holds, HdrAt, Index, Select;
    var log, old1 := TwoFrames(), OldFrame();
    var all := log + [old1];
    V.FileHolds(all);
    ReadAtPlace(V.FileOf(all), all, 3);
    assert all[..3] == log && all[3] == old1;
  }

  /** With channel 1 enabled too: the reader gives both frames. */
  method BothAreShown() returns (p: Player)
    ensures fresh(p) && p.Valid() && p.Aligned() && p.Tight() && p.AllEnabled({0, 1}) && p.files == [StaleBasket()] && p.logs == [TwoFrames()]
    ensures Select(p.Remaining(), {0, 1}, 0) == [] && p.AtMarker() && p.rdb == [] && p.at == 0 && p.sec == 1 && p.iframeCur == 2 && p.iframeCnt == 2
  {
    hide StaleBasket, TwoFrames, Playable, Select, Index, LooksLikeVideo, FrameAt, FrameOf, OldFrame, TotalSize, S.WithinTimes, S.IsTable;
    hide Player.Misled, Player.OneOn, Player.OnFrame, Player.Tight, TimesOf, Later, LoopFrom, Stops, FindsNext, Player.NoneFollows;
    StaleBasketIsPlayable();
    OldFrameIsNew();
    BothAreWanted();
    NothingNamed([S.Times(0, 0)]);
    p := new Player([StaleBasket()], [S.Times(0, 0)], [], [TwoFrames()]);
    assert p.Remaining() == TwoFrames();
    BothEnabled(p);
    var a := p.ReadNextFrame({0, 1}, 0);
    a := p.ReadNextFrame({0, 1}, 0);
  }

  /** Then nothing, as there is no other basket; called again it reads on behind the end marker
      and gives the old frame, and the cursor counts one entry more than there are. */
  method OldFrameMovesCursor() returns (p: Player, a: Answer)
    ensures fresh(p) && a == Ok(FrameOf(OldFrame())) && OldFrame() !in TwoFrames() && p.iframeCur > p.iframeCnt
  {
    hide StaleBasket, TwoFrames, Playable, Select, Index, LooksLikeVideo, FrameAt, FrameOf, OldFrame, TotalSize, S.WithinTimes, S.IsTable;
    hide Player.Misled, Player.OneOn, Player.OnFrame, Player.Tight, TimesOf, Later, LoopFrom, Stops, FindsNext, Player.NoneFollows;
    StaleBasketIsPlayable();
    OldFrameIsNew();
    p := BothAreShown();
    NoOther(p.times, p.at, p.sec);
    a := p.ReadNextFrame({0, 1}, 0);
    OldFrameIsTaken(p.fposBkt, p.iframeCur);
    a := p.ReadAgain({0, 1}, 0);
  }

  lemma {:induction false} StartIsMisled(p: Player)
    requires p.files == [StaleBasket()] && p.logs == [TwoFrames()] && p.Valid() && p.Here() == Spot(0, 0) && p.i == 0
    ensures p.Misled({1}, 0)
  {
    hide StaleBasket, TwoFrames, Playable, Select, Index, LooksLikeVideo, TotalSize, S.WithinTimes, S.IsTable, TimesOf;
    StaleBasketIsPlayable();
    OldFrameIsNew();
    assert p.Remaining() == TwoFrames();
  }

  /** A reader that shows channel 1 alone is given the old frame, which no basket holds. */
  method OldFrameIsShown() returns (a: Answer)
    ensures a == Ok(FrameOf(OldFrame())) && OldFrame() !in TwoFrames()
  {
    hide StaleBasket, TwoFrames, Playable, Select, Index, LooksLikeVideo, FrameAt, FrameOf, OldFrame, TotalSize, S.WithinTimes, S.IsTable;
    hide Player.Misled, Player.Continues, Player.OneOn, Player.OnFrame, Player.Tight, Player.AllEnabled, TimesOf, Jumps, Later;
    StaleBasketIsPlayable();
    OldFrameIsNew();
    NothingNamed([S.Times(0, 0)]);
    var p := new Player([StaleBasket()], [S.Times(0, 0)], [], [TwoFrames()]);
    StartIsMisled(p);
    a := p.ReadNextFrame({1}, 0);
  }
}
