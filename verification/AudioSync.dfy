/** The search for the audio frame that belongs to a video frame, along the records and
    back-links of one closed basket (BKTMD_SyncAudioIntoVideo in src/basket_muldec.c and
    its twin BKTDEC_SyncAudioWithVideo in src/basket_dec.c). */
module AudioSync {
  import opened Layout
  import opened Log

  const MAX_NUM_FRAME_SEARCH := 64

  /** How the search ends.  Close, Reversed, StartStop and StartReversed are the source's
      BKT_OK: an audio frame close in time; a change of direction; a stop at a record
      without back-link, within or beyond which the search cannot go.  Forever is a search
      that comes back to the same record again and again. */
  datatype SyncEnd = Close | Reversed | StartStop | StartReversed | NoAudioNearby | NextBasket | PrevBasket | BadHeader | Forever

  predicate Target(r: Rec, ch: int) {
    IsAudio(r) && r.hdr.ch == ch
  }

  /** C's division rounds towards zero. */
  function Millis(usec: int): int {
    if usec >= 0 then usec / 1000 else -(-usec / 1000)
  }

  lemma MillisTruncates(usec: int)
    ensures usec >= 0 ==> 1000 * Millis(usec) <= usec < 1000 * Millis(usec) + 1000
    ensures usec <= 0 ==> 1000 * Millis(usec) - 1000 < usec <= 1000 * Millis(usec)
  {
    if usec >= 0 {
      assert usec == 1000 * (usec / 1000) + usec % 1000;
    } else {
      assert -usec == 1000 * (-usec / 1000) + -usec % 1000;
    }
  }

  /** How far the video time lies after a record's time, in milliseconds. */
  function Diff(ts: Ts, h: StreamHdr): int {
    (ts.sec - h.ts.sec) * 1000 + Millis(ts.usec - h.ts.usec)
  }

  predicate TooEarly(ts: Ts, h: StreamHdr) { Diff(ts, h) > 128 }

  predicate TooLate(ts: Ts, h: StreamHdr) { Diff(ts, h) < -128 }

  /** How far the video time lies after a record's time, in microseconds. */
  function Micros(ts: Ts, h: StreamHdr): int {
    1000000 * (ts.sec - h.ts.sec) + (ts.usec - h.ts.usec)
  }

  predicate IsTime(ts: Ts) {
    0 <= ts.usec < 1000000
  }

  ghost predicate AllTimes(log: seq<Rec>, ts: Ts) {
    IsTime(ts) && forall i :: 0 <= i < |log| ==> IsTime(log[i].hdr.ts)
  }

  /** What the three answers of the comparison mean.  The milliseconds are rounded towards
      zero, so an answer is sure from 129 ms on. */
  lemma {:induction false} ComparedInMicros(ts: Ts, h: StreamHdr)
    requires IsTime(ts) && IsTime(h.ts)
    ensures TooEarly(ts, h) ==> Micros(ts, h) > 128000
    ensures TooLate(ts, h) ==> Micros(ts, h) < -128000
    ensures !TooEarly(ts, h) ==> Micros(ts, h) < 129000
    ensures !TooLate(ts, h) ==> Micros(ts, h) > -129000
  {
    MillisTruncates(ts.usec - h.ts.usec);
  }

  /** A closed basket whose back-links lead to the record before, or are zero where the
      recorder had just started; the first one is whatever gPrevFpos can be. */
  ghost predicate Searchable(file: seq<byte>, log: seq<Rec>) {
    AllWellFormed(log) && Holds(file, log) && log != [] && IsEnd(log[|log| - 1]) &&
    (forall i :: 0 <= i < |log| - 1 ==> !IsEnd(log[i])) &&
    (forall i :: 0 < i < |log| - 1 ==> log[i].hdr.prevFpos == Place(log, i - 1) || log[i].hdr.prevFpos == 0) &&
    (|log| > 1 ==> IsLink(log[0].hdr.prevFpos))
  }

  /** The first record links to itself.  Its link is what the basket before left in gPrevFpos,
      and that is the same position if only one record had been written there. */
  predicate SelfLinked(log: seq<Rec>) {
    |log| > 1 && log[0].hdr.prevFpos == BASKET_HDR
  }

  /** A recorder's basket is searchable: what gPrevFpos was when it was opened is a link by
      the recorder's invariant. */
  lemma {:induction false} RecordedIsSearchable(file: seq<byte>, log: seq<Rec>, carry: int)
    requires AllWellFormed(log) && Holds(file, log) && Linked(log, carry) && IsLink(carry) && log != []
    requires IsEnd(log[|log| - 1]) && forall i :: 0 <= i < |log| - 1 ==> !IsEnd(log[i])
    ensures Searchable(file, log) && (SelfLinked(log) <==> |log| > 1 && carry == BASKET_HDR)
  {
    forall i | 0 < i < |log| - 1
      ensures log[i].hdr.prevFpos == Place(log, i - 1)
    {
      LinkIsPreviousStart(log, carry, i);
    }
    if |log| > 1 {
      FirstLink(log, carry);
    }
  }

  /** A basket that audio filled has no end marker.  It is searched like one that has just
      when the bytes behind it read as a header that is neither of video nor of audio. */
  lemma {:induction false} AudioFilledIsSearchableIff(file: seq<byte>, log: seq<Rec>, carry: int)
    requires AllWellFormed(log) && Holds(file, log) && Linked(log, carry) && IsLink(carry) && log != []
    requires forall i :: 0 <= i < |log| ==> !IsEnd(log[i])
    ensures (exists tail :: Searchable(file, log + [tail])) <==> CanRead(file, End(log), STREAM_HDR) && IsEnd(Tail(file, End(log)))
    ensures CanRead(file, End(log), STREAM_HDR) && IsEnd(Tail(file, End(log))) ==> Searchable(file, log + [Tail(file, End(log))])
  {
    hide Bytes, TotalSize, DecodeHdr, EncodeHdr, Linked, LastStart, Holds, HdrAt;
    if CanRead(file, End(log), STREAM_HDR) && IsEnd(Tail(file, End(log))) {
      var t := Tail(file, End(log));
      TailIsHeld(file, log);
      AppendLink(log, t, carry);
      RecordedIsSearchable(file, log + [t], carry);
    }
    if exists tail :: Searchable(file, log + [tail]) {
      var tail :| Searchable(file, log + [tail]);
      ReadAtPlace(file, log + [tail], |log|);
      assert (log + [tail])[..|log|] == log;
    }
  }

  /** A change of baskets that failed leaves an end marker between the records.  Up to the
      first one the basket is searched as if it ended there. */
  lemma {:induction false} UpToMarkerIsSearchable(file: seq<byte>, log: seq<Rec>, carry: int, m: nat)
    requires AllWellFormed(log) && Holds(file, log) && Linked(log, carry) && IsLink(carry)
    requires m < |log| && IsEnd(log[m]) && forall i :: 0 <= i < m ==> !IsEnd(log[i])
    ensures Searchable(file, log[..m + 1])
  {
    hide Bytes, TotalSize, Linked, LastStart, Holds, WellFormed;
    assert log == log[..m + 1] + log[m + 1..];
    HoldsPrefix(file, log[..m + 1], log[m + 1..]);
    LinkedPrefix(log, carry, m + 1);
    RecordedIsSearchable(file, log[..m + 1], carry);
  }

  /** After a basket with one record the next one's first record links to itself. */
  lemma {:induction false} OneRecordLeavesSelfLink(r: Rec, marker: Rec, carry: int)
    requires !IsEnd(r) && IsEnd(marker)
    ensures LastStart([r], carry) == BASKET_HDR && LastStart([r, marker], carry) == BASKET_HDR
  {
    assert [r][..0] == [] && [r, marker][..1] == [r];
  }

  lemma {:induction false} FirstLink(log: seq<Rec>, carry: int)
    requires Linked(log, carry) && log != [] && !IsEnd(log[0])
    ensures log[0].hdr.prevFpos == carry
  {
    if |log| > 1 {
      FirstLink(log[..|log| - 1], carry);
    } else {
      assert log[..0] == [];
    }
  }

  // ---------------------------------------------------------------- what has been searched

  /** No target between i and j. */
  ghost predicate NoTarget(log: seq<Rec>, ch: int, i: int, j: int) {
    forall k :: i <= k < j && 0 <= k < |log| ==> !Target(log[k], ch)
  }

  ghost predicate AllEarly(log: seq<Rec>, ch: int, ts: Ts, i: int, j: int) {
    forall k :: i <= k < j && 0 <= k < |log| && Target(log[k], ch) ==> TooEarly(ts, log[k].hdr)
  }

  ghost predicate AllLate(log: seq<Rec>, ch: int, ts: Ts, i: int, j: int) {
    forall k :: i <= k < j && 0 <= k < |log| && Target(log[k], ch) ==> TooLate(ts, log[k].hdr)
  }

  /** From record i0 on, `first` is the first target; the search went forward from it
      over targets that are too early, or back over targets that are too late, and
      `last` is the one it met last; k is next. */
  ghost predicate Went(log: seq<Rec>, ch: int, ts: Ts, i0: int, first: int, last: int, k: int, forward: bool) {
    0 <= i0 <= first < |log| && 0 <= last < |log| && NoTarget(log, ch, i0, first) && Target(log[first], ch) && Target(log[last], ch) &&
    (forward ==> first <= last < k && NoTarget(log, ch, last + 1, k) && AllEarly(log, ch, ts, first, k)) &&
    (!forward ==> k < last <= first && NoTarget(log, ch, k + 1, last) && AllLate(log, ch, ts, k + 1, first + 1))
  }

  /** What the end says about the record k the handle is left at. */
  ghost predicate EndsAt(log: seq<Rec>, ch: int, ts: Ts, i0: int, how: SyncEnd, first: int, last: int, k: int, at: int) {
    match how
    case Close =>
      // a target within 128 ms, the first such in the direction searched
      at == k && 0 <= k < |log| && Target(log[k], ch) && !TooEarly(ts, log[k].hdr) && !TooLate(ts, log[k].hdr) &&
      ((first == k && NoTarget(log, ch, i0, k)) || Went(log, ch, ts, i0, first, last, k, true) || Went(log, ch, ts, i0, first, last, k, false))
    case Reversed =>
      // two neighbouring targets on either side of the video time; left at the one before
      at == last && 0 <= k < |log| && Target(log[k], ch) &&
      ((Went(log, ch, ts, i0, first, last, k, true) && TooLate(ts, log[k].hdr)) ||
       (Went(log, ch, ts, i0, first, last, k, false) && TooEarly(ts, log[k].hdr)))
    case StartStop =>
      at == k && 0 <= k < |log| && log[k].hdr.prevFpos == 0
    case StartReversed =>
      0 <= k < |log| && log[k].hdr.prevFpos == 0 && Went(log, ch, ts, i0, first, last, k, false) && TooEarly(ts, log[k].hdr)
    case NoAudioNearby =>
      // 64 records without a target; left at the last of them, or at the last target
      0 <= k < |log| && !Target(log[k], ch) &&
      ((at == k == i0 + 63 && NoTarget(log, ch, i0, k)) ||
       (at == last == k - 63 && Went(log, ch, ts, i0, first, last, k, true)) ||
       (at == last == k + 63 && Went(log, ch, ts, i0, first, last, k, false)) ||
       // or one that links to itself was looked at again and again
       (at == last && k == 0 && SelfLinked(log) && Went(log, ch, ts, i0, first, last, k, false)))
    case Forever =>
      // back at the first record, which links to itself, is a target and is too late
      k == 0 && SelfLinked(log) && Target(log[0], ch) && TooLate(ts, log[0].hdr) &&
      ((first == 0 && NoTarget(log, ch, i0, 0) && i0 == 0) || Went(log, ch, ts, i0, first, last, k, false))
    case PrevBasket =>
      // back at the first record, whose back-link leads out of the basket
      k == 0 && log != [] && log[0].hdr.prevFpos != 0
    case BadHeader =>
      // the end marker
      k == |log| - 1
    case NextBasket => true
  }

  /** What an end means in the time stamps themselves.  `Close` is a frame less than 129 ms
      from the video time; `Reversed` is between two frames of which one lies more than 128 ms
      before it and the other more than 128 ms after it; and so do all targets on the way. */
  ghost predicate InTimeStamps(log: seq<Rec>, ch: int, ts: Ts, how: SyncEnd, first: int, last: int, k: int) {
    match how
    case Close => 0 <= k < |log| && -129000 < Micros(ts, log[k].hdr) < 129000 && Passed(log, ch, ts, first, k)
    case Reversed =>
      0 <= k < |log| && 0 <= last < |log| && Passed(log, ch, ts, first, k) &&
      if last < k then Micros(ts, log[last].hdr) > 128000 && Micros(ts, log[k].hdr) < -128000
      else last > k && Micros(ts, log[last].hdr) < -128000 && Micros(ts, log[k].hdr) > 128000
    case StartReversed => 0 <= k < |log| && Micros(ts, log[k].hdr) > 128000 && Passed(log, ch, ts, first, k)
    case Forever => log != [] && Micros(ts, log[0].hdr) < -128000
    case _ => true
  }

  /** The targets from the first one up to record k, or back to it, lie before the video time
      or after it. */
  ghost predicate Passed(log: seq<Rec>, ch: int, ts: Ts, first: int, k: int) {
    (forall i :: first <= i < k && 0 <= i < |log| && Target(log[i], ch) ==> Micros(ts, log[i].hdr) > 128000) &&
    forall i :: k < i <= first && 0 <= i < |log| && Target(log[i], ch) ==> Micros(ts, log[i].hdr) < -128000
  }

  lemma {:induction false} EndsInTimeStamps(log: seq<Rec>, ch: int, ts: Ts, i0: int, how: SyncEnd, first: int, last: int, k: int, at: int)
    requires EndsAt(log, ch, ts, i0, how, first, last, k, at)
    requires AllTimes(log, ts)
    ensures InTimeStamps(log, ch, ts, how, first, last, k)
  {
    hide TooEarly, TooLate, Micros, Target;
    forall i | 0 <= i < |log|
      ensures TooEarly(ts, log[i].hdr) ==> Micros(ts, log[i].hdr) > 128000
      ensures TooLate(ts, log[i].hdr) ==> Micros(ts, log[i].hdr) < -128000
      ensures !TooEarly(ts, log[i].hdr) ==> Micros(ts, log[i].hdr) < 129000
      ensures !TooLate(ts, log[i].hdr) ==> Micros(ts, log[i].hdr) > -129000
    {
      ComparedInMicros(ts, log[i].hdr);
    }
  }

  // ---------------------------------------------------------------- one turn

  /** The search between two of its reads: where the handle is, and its flags and counters. */
  datatype State = State(pos: nat, forward: bool, prevForward: bool, noPrev: bool, firstAud: bool, frameCnt: nat,
    curAud: nat, prevAud: nat)

  function Start(pos: nat): State {
    State(pos, true, true, false, true, 0, 0, 0)
  }

  /** Until a target has been seen the search only goes forward; after that in the direction
      of the last comparison. */
  predicate Proper(s: State) {
    !s.noPrev && if s.firstAud then s.forward else s.forward == s.prevForward
  }

  datatype Turned = Next(s: State) | Stop(how: SyncEnd, pos: nat)

  /** Where one hop leads. */
  datatype Hop = Moved(pos: nat) | OutOfBasket | NoLink

  /** One record on in the direction of the search. */
  function HopOn(h: StreamHdr, curFpos: nat, subSize: nat, forward: bool): Hop
    requires FitsWords(h)
  {
    if forward then Moved(curFpos + subSize + h.framesize)
    else if h.prevFpos == 0 then NoLink
    else if curFpos > h.prevFpos then Moved(h.prevFpos)
    else OutOfBasket
  }

  /** Back by one header, as far as that is possible. */
  function Back(pos: nat): nat {
    if pos >= STREAM_HDR then pos - STREAM_HDR else pos
  }

  /** One turn of the search, from a read at the label nextFrame to the next one. */
  function Turn(file: seq<byte>, s: State, ch: int, ts: Ts): Turned {
    if !CanRead(file, s.pos, STREAM_HDR) then Stop(NextBasket, s.pos)
    else
      var h, curFpos := HdrAt(file, s.pos), s.pos + STREAM_HDR;
      if h.id != ID_AUDIO && h.id != ID_VIDEO then Stop(BadHeader, curFpos)
      else if h.id == ID_AUDIO && h.ch == ch then
        Compare(s.(frameCnt := 0, prevAud := s.curAud, curAud := curFpos), h, ts, true)
      else
        var t := s.(frameCnt := s.frameCnt + 1);
        if t.frameCnt >= MAX_NUM_FRAME_SEARCH then Stop(NoAudioNearby, if s.firstAud then s.pos else Back(s.curAud))
        else
          match HopOn(h, curFpos, if h.id == ID_VIDEO then VSTREAM_HDR else ASTREAM_HDR, s.forward)
          case Moved(p) => Next(t.(pos := p))
          case OutOfBasket => Stop(PrevBasket, curFpos)
          case NoLink => Compare(t.(noPrev := true), h, ts, false)
  }

  /** Its second half, from the comparison of the times on. */
  function Compare(s: State, h: StreamHdr, ts: Ts, matched: bool): Turned
    requires FitsWords(h)
  {
    var fwd := TooEarly(ts, h);
    if !TooEarly(ts, h) && !TooLate(ts, h) then Stop(if s.noPrev then StartStop else Close, s.pos)
    else if !s.firstAud && fwd != s.prevForward then Stop(if matched then Reversed else StartReversed, Back(s.prevAud))
    else if !fwd && s.noPrev then Stop(StartStop, s.pos)
    else
      var t := s.(forward := fwd, prevForward := fwd, firstAud := false, frameCnt := s.frameCnt + 1);
      if t.frameCnt >= MAX_NUM_FRAME_SEARCH then Stop(NoAudioNearby, Back(s.curAud))
      else
        match HopOn(h, s.pos + STREAM_HDR, ASTREAM_HDR, fwd)
        case Moved(p) => Next(t.(pos := p))
        case OutOfBasket => Stop(PrevBasket, s.pos + STREAM_HDR)
        case NoLink => Stop(StartStop, s.pos)
  }

  /** n turns, or fewer if the search ends before. */
  function Run(file: seq<byte>, s: State, n: nat, ch: int, ts: Ts): Turned
    decreases n
  {
    if n == 0 then Next(s)
    else
      match Turn(file, s, ch, ts)
      case Next(s') => Run(file, s', n - 1, ch, ts)
      case Stop(how, pos) => Stop(how, pos)
  }

  lemma {:induction false} RunOn(file: seq<byte>, s: State, n: nat, ch: int, ts: Ts, t: State)
    requires Run(file, s, n, ch, ts) == Next(t)
    ensures Run(file, s, n + 1, ch, ts) == Turn(file, t, ch, ts)
    decreases n
  {
    hide Turn;
    if n > 0 {
      RunOn(file, Turn(file, s, ch, ts).s, n - 1, ch, ts, t);
    } else {
      assert Turn(file, s, ch, ts).Next? ==> Run(file, Turn(file, s, ch, ts).s, 0, ch, ts) == Turn(file, s, ch, ts);
    }
  }

  /** No number of turns ends the search that starts at a position. */
  ghost predicate Endless(file: seq<byte>, pos: nat, ch: int, ts: Ts) {
    forall n: nat :: Run(file, Start(pos), n, ch, ts).Next?
  }

  /** A state that a turn leads back to is never left. */
  lemma {:induction false} FixedPointIsEndless(file: seq<byte>, pos: nat, n: nat, ch: int, ts: Ts, t: State)
    requires Run(file, Start(pos), n, ch, ts) == Next(t) && Turn(file, t, ch, ts) == Next(t)
    ensures Endless(file, pos, ch, ts)
  {
    hide Turn;
    forall m: nat
      ensures Run(file, Start(pos), m, ch, ts).Next?
    {
      if m <= n {
        RunsBefore(file, Start(pos), n, m, ch, ts);
      } else {
        StaysFixed(file, Start(pos), n, m, ch, ts, t);
      }
    }
  }

  lemma {:induction false} RunsBefore(file: seq<byte>, s: State, n: nat, m: nat, ch: int, ts: Ts)
    requires Run(file, s, n, ch, ts).Next? && m <= n
    ensures Run(file, s, m, ch, ts).Next?
    decreases m
  {
    hide Turn;
    if m > 0 {
      RunsBefore(file, Turn(file, s, ch, ts).s, n - 1, m - 1, ch, ts);
    }
  }

  lemma {:induction false} StaysFixed(file: seq<byte>, s: State, n: nat, m: nat, ch: int, ts: Ts, t: State)
    requires Run(file, s, n, ch, ts) == Next(t) && Turn(file, t, ch, ts) == Next(t) && n <= m
    ensures Run(file, s, m, ch, ts) == Next(t)
    decreases m
  {
    hide Turn;
    if n < m {
      StaysFixed(file, s, n, m - 1, ch, ts, t);
      RunOn(file, s, m - 1, ch, ts, t);
    }
  }

  /** What is at a record's place, and where one record on or back is. */
  lemma {:induction false} RecordHere(file: seq<byte>, log: seq<Rec>, k: nat)
    requires Searchable(file, log) && k < |log|
    ensures var p, r := Place(log, k), log[k];
      CanRead(file, p, STREAM_HDR) && HdrAt(file, p) == r.hdr && FitsWords(r.hdr) &&
      (IsEnd(r) <==> k == |log| - 1) && (IsEnd(r) || IsAudio(r) || IsVideo(r)) &&
      (!IsEnd(r) ==> Place(log, k + 1) == p + STREAM_HDR + (if IsVideo(r) then VSTREAM_HDR else ASTREAM_HDR) + r.hdr.framesize) &&
      (!IsEnd(r) && r.hdr.prevFpos != 0 && p + STREAM_HDR > r.hdr.prevFpos ==>
         if k > 0 then r.hdr.prevFpos == Place(log, k - 1) else SelfLinked(log) && r.hdr.prevFpos == p) &&
      (!IsEnd(r) && r.hdr.prevFpos != 0 && p + STREAM_HDR <= r.hdr.prevFpos ==> k == 0 && !SelfLinked(log)) &&
      (k == 0 ==> p == BASKET_HDR)
  {
    hide Bytes, TotalSize, Holds;
    ReadAtPlace(file, log, k);
    assert WellFormed(log[k]);
    if k == 0 {
      assert log[..0] == [];
      EmptyLog();
    } else {
      PlacesIncrease(log, k - 1, k);
    }
  }

  lemma EmptyLog()
    ensures TotalSize([]) == 0
  {
  }

  ghost predicate HopsTo(log: seq<Rec>, k: nat, t: State)
    requires k < |log| - 1
  {
    Proper(t) &&
    if t.forward then t.pos == Place(log, k + 1)
    else if k > 0 then t.pos == Place(log, k - 1)
    else SelfLinked(log) && t.pos == Place(log, 0)
  }

  /** Every hop moves exactly one record, except back from a first record that links to
      itself, which is where it stays. */
  lemma {:induction false} HopsOneRecord(file: seq<byte>, log: seq<Rec>, k: nat, s: State, ch: int, ts: Ts)
    requires Searchable(file, log) && k < |log| && s.pos == Place(log, k) && Proper(s)
    ensures Turn(file, s, ch, ts).Next? ==> k < |log| - 1 && HopsTo(log, k, Turn(file, s, ch, ts).s)
  {
    hide Holds, Bytes, TotalSize, HdrAt, WellFormed, Searchable, Diff;
    RecordHere(file, log, k);
  }

  // ---------------------------------------------------------------- the search

  /** The search is at record k; `first` is the first target and `last` the latest. */
  ghost predicate Along(log: seq<Rec>, ch: int, ts: Ts, i0: int, first: int, last: int, k: int, s: State) {
    0 <= k < |log| && s.pos == Place(log, k) && Proper(s) && s.frameCnt < MAX_NUM_FRAME_SEARCH &&
    if s.firstAud then
      first == -1 && 0 <= i0 <= k && NoTarget(log, ch, i0, k) && s.frameCnt == k - i0
    else
      Went(log, ch, ts, i0, first, last, k, s.forward) && s.curAud == Place(log, last) + STREAM_HDR &&
      Counted(log, ch, last, k, s)
  }

  /** Targets reset the count; only a first record that links to itself is counted twice. */
  ghost predicate Counted(log: seq<Rec>, ch: int, last: int, k: int, s: State) {
    if s.forward then s.frameCnt == k - last
    else s.frameCnt == last - k || (k == 0 && SelfLinked(log) && !Target(log[0], ch) && s.frameCnt >= last)
  }

  /** What can follow from a turn: an end, or the next record, or no end at all. */
  ghost predicate Leads(log: seq<Rec>, i0: int, ch: int, ts: Ts, k: int, s: State, t: Turned, first': int, last': int, k': int, at: int) {
    match t
    case Stop(how, pos) => how != Forever && Ended(log, ch, ts, i0, how, pos, first', last', k', at)
    case Next(s') =>
      if SpinsAt(log, ch, k, s') then Ended(log, ch, ts, i0, Forever, s'.pos, first', last', k', at)
      else Along(log, ch, ts, i0, first', last', k', s') && Nearer(log, k, s, k', s')
  }

  lemma {:induction false} OneTurn(file: seq<byte>, log: seq<Rec>, i0: nat, ch: int, ts: Ts, first: int, last: int, k: nat, s: State)
      returns (first': int, last': int, k': int, at: int)
    requires Searchable(file, log) && Along(log, ch, ts, i0, first, last, k, s)
    ensures Leads(log, i0, ch, ts, k, s, Turn(file, s, ch, ts), first', last', k', at)
  {
    hide Searchable, Along, Turn, Leads;
    if 0 <= k < |log| && Target(log[k], ch) {
      first', last', k', at := TurnAtTarget(file, log, i0, ch, ts, first, last, k, s);
    } else {
      first', last', k', at := TurnElsewhere(file, log, i0, ch, ts, first, last, k, s);
    }
  }

  lemma {:induction false} TurnAtTarget(file: seq<byte>, log: seq<Rec>, i0: nat, ch: int, ts: Ts, first: int, last: int, k: nat, s: State)
      returns (first': int, last': int, k': int, at: int)
    requires Searchable(file, log) && Along(log, ch, ts, i0, first, last, k, s) && k < |log| && Target(log[k], ch)
    ensures Leads(log, i0, ch, ts, k, s, Turn(file, s, ch, ts), first', last', k', at)
  {
    hide Holds, Bytes, TotalSize, HdrAt, WellFormed, Searchable, Diff;
    RecordHere(file, log, k);
    first', last', k', at := if first == -1 then k else first, last, k, -1;
    match Turn(file, s, ch, ts)
    case Next(s') =>
      last' := k;
      if s'.forward {
        k' := k + 1;
      } else if k > 0 {
        k' := k - 1;
      } else {
        last' := last;
        at := 0;
      }
    case Stop(how, _) =>
      at := if how == Close || how == StartStop then k else last;
  }

  lemma {:induction false} TurnElsewhere(file: seq<byte>, log: seq<Rec>, i0: nat, ch: int, ts: Ts, first: int, last: int, k: nat, s: State)
      returns (first': int, last': int, k': int, at: int)
    requires Searchable(file, log) && Along(log, ch, ts, i0, first, last, k, s) && !(k < |log| && Target(log[k], ch))
    ensures Leads(log, i0, ch, ts, k, s, Turn(file, s, ch, ts), first', last', k', at)
  {
    hide Holds, Bytes, TotalSize, HdrAt, WellFormed, Searchable, Diff;
    RecordHere(file, log, k);
    first', last', k', at := first, last, k, -1;
    match Turn(file, s, ch, ts)
    case Next(s') =>
      if s.forward {
        k' := k + 1;
      } else if k > 0 {
        k' := k - 1;
      }
    case Stop(how, _) =>
      at := if how == StartStop || (how == NoAudioNearby && s.firstAud) then k else last;
  }

  /** A target comes back to itself. */
  ghost predicate SpinsAt(log: seq<Rec>, ch: int, k: int, t: State) {
    k == 0 && log != [] && Target(log[0], ch) && !t.forward
  }

  /** A turn that does not end the search brings its end nearer. */
  ghost predicate Nearer(log: seq<Rec>, k: int, s: State, k': int, t: State) {
    (s.firstAud && !t.firstAud) ||
    (s.firstAud == t.firstAud && s.forward == t.forward &&
     ((if s.forward then k' > k else k' < k) || (k' == k && t.frameCnt > s.frameCnt)))
  }

  ghost predicate Ended(log: seq<Rec>, ch: int, ts: Ts, i0: int, how: SyncEnd, pos: nat, first: int, last: int, k: int, at: int) {
    EndsAt(log, ch, ts, i0, how, first, last, k, at) && how != NextBasket && (how == BadHeader <==> k == |log| - 1) &&
    (how == Close || how == Reversed || how == StartStop || how == NoAudioNearby ==> 0 <= at < |log| && pos == Place(log, at))
  }

  predicate TargetAt(file: seq<byte>, pos: nat, ch: int) {
    CanRead(file, pos, STREAM_HDR) && HdrAt(file, pos).id == ID_AUDIO && HdrAt(file, pos).ch == ch
  }

  /** Once a turn leads from a target back to it, every further turn but the first changes
      nothing. */
  lemma {:induction false} SpinsOn(file: seq<byte>, ch: int, ts: Ts, s: State)
    requires Proper(s) && TargetAt(file, s.pos, ch)
    requires Turn(file, s, ch, ts).Next? && Turn(file, s, ch, ts).s.pos == s.pos
    ensures var t := Turn(file, Turn(file, s, ch, ts).s, ch, ts);
      t.Next? && t.s.pos == s.pos && Turn(file, t.s, ch, ts) == Next(t.s)
  {
    hide HdrAt, Diff;
  }

  /** Every search comes to an end that says what was passed over, or to a state that it
      never leaves. */
  lemma {:induction false} SyncEnds(file: seq<byte>, log: seq<Rec>, i0: nat, ch: int, ts: Ts)
      returns (n: nat, s: State, how: SyncEnd, pos: nat, first: int, last: int, k: int, at: int)
    requires Searchable(file, log) && i0 < |log|
    ensures Run(file, Start(Place(log, i0)), n, ch, ts) == Next(s)
    ensures Turn(file, s, ch, ts) == if how == Forever then Next(s) else Stop(how, pos)
    ensures Ended(log, ch, ts, i0, how, pos, first, last, k, at)
  {
    hide Searchable, Turn, Run, Along, Ended, Nearer, Place;
    ghost var s0 := Start(Place(log, i0));
    n, s, first, last, k := 0, s0, -1, -1, i0;
    StartsAlong(file, log, i0, ch, ts);
    while true
      invariant Run(file, s0, n, ch, ts) == Next(s) && 0 <= k && Along(log, ch, ts, i0, first, last, k, s)
      decreases s.firstAud, if s.forward then |log| - k else k, MAX_NUM_FRAME_SEARCH - s.frameCnt
    {
      AlongIs(log, ch, ts, i0, first, last, k, s);
      var first', last', k', at' := OneTurn(file, log, i0, ch, ts, first, last, k, s);
      var t := Turn(file, s, ch, ts);
      HopsOneRecord(file, log, k, s, ch, ts);
      RunOn(file, s0, n, ch, ts, s);
      if t.Stop? {
        how, pos, first, last, k, at := t.how, t.pos, first', last', k', at';
        return;
      }
      if SpinsAt(log, ch, k, t.s) {
        SpinsInLog(file, log, k, ch, s, t.s);
        SpinsOn(file, ch, ts, s);
        RunOn(file, s0, n + 1, ch, ts, t.s);
        var t' := Turn(file, t.s, ch, ts);
        n, s, how, pos, first, last, k, at := n + 2, t'.s, Forever, t.s.pos, first', last', k', at';
        return;
      }
      AlongIs(log, ch, ts, i0, first', last', k', t.s);
      NearerIs(log, k, s, k', t.s);
      n, s, first, last, k := n + 1, t.s, first', last', k';
    }
  }

  lemma {:induction false} SpinsInLog(file: seq<byte>, log: seq<Rec>, k: nat, ch: int, s: State, t: State)
    requires Searchable(file, log) && k < |log| - 1 && s.pos == Place(log, k) && SpinsAt(log, ch, k, t) && HopsTo(log, k, t)
    ensures t.pos == s.pos && TargetAt(file, s.pos, ch)
  {
    hide Searchable, HdrAt;
    RecordHere(file, log, 0);
  }

  lemma StartsAlong(file: seq<byte>, log: seq<Rec>, i0: nat, ch: int, ts: Ts)
    requires i0 < |log|
    ensures Along(log, ch, ts, i0, -1, -1, i0, Start(Place(log, i0)))
    ensures Run(file, Start(Place(log, i0)), 0, ch, ts) == Next(Start(Place(log, i0)))
  {
  }

  lemma AlongIs(log: seq<Rec>, ch: int, ts: Ts, i0: int, first: int, last: int, k: int, s: State)
    requires Along(log, ch, ts, i0, first, last, k, s)
    ensures 0 <= k < |log| && s.pos == Place(log, k) && Proper(s) && s.frameCnt < MAX_NUM_FRAME_SEARCH
  {
  }

  lemma NearerIs(log: seq<Rec>, k: int, s: State, k': int, t: State)
    requires Nearer(log, k, s, k', t)
    ensures (s.firstAud && !t.firstAud) ||
      (s.firstAud == t.firstAud && s.forward == t.forward &&
       ((if s.forward then k' > k else k' < k) || (k' == k && t.frameCnt > s.frameCnt)))
  {
  }

  lemma {:induction false} EndlessAs(file: seq<byte>, pos: nat, n: nat, s: State, how: SyncEnd, end: nat, ch: int, ts: Ts)
    requires Run(file, Start(pos), n, ch, ts) == Next(s)
    requires Turn(file, s, ch, ts) == if how == Forever then Next(s) else Stop(how, end)
    ensures Endless(file, pos, ch, ts) <==> how == Forever
  {
    hide Turn;
    if how == Forever {
      FixedPointIsEndless(file, pos, n, ch, ts, s);
    } else {
      RunOn(file, Start(pos), n, ch, ts, s);
      assert !Run(file, Start(pos), n + 1, ch, ts).Next?;
    }
  }

  lemma {:induction false} SpinIsEndless(file: seq<byte>, pos: nat, j: nat, ch: int, ts: Ts, c: State)
    requires Run(file, Start(pos), j, ch, ts) == Next(c) && Proper(c) && TargetAt(file, c.pos, ch)
    requires Turn(file, c, ch, ts).Next? && Turn(file, c, ch, ts).s.pos == c.pos
    ensures Endless(file, pos, ch, ts)
  {
    hide Turn, Run;
    var t := Turn(file, c, ch, ts).s;
    SpinsOn(file, ch, ts, c);
    RunOn(file, Start(pos), j, ch, ts, c);
    RunOn(file, Start(pos), j + 1, ch, ts, t);
    FixedPointIsEndless(file, pos, j + 2, ch, ts, Turn(file, t, ch, ts).s);
  }

  /** A search has an end exactly when it does not come to a first record that links to
      itself, is a target and is too late. */
  lemma {:induction false} EndlessIff(file: seq<byte>, log: seq<Rec>, i0: nat, ch: int, ts: Ts)
      returns (how: SyncEnd, first: int, last: int, k: int, at: int)
    requires Searchable(file, log) && i0 < |log|
    ensures EndsAt(log, ch, ts, i0, how, first, last, k, at)
    ensures Endless(file, Place(log, i0), ch, ts) <==> how == Forever
    ensures Endless(file, Place(log, i0), ch, ts) ==> SelfLinked(log) && Target(log[0], ch) && TooLate(ts, log[0].hdr)
  {
    hide Searchable, Turn, Run, Place, Diff;
    var n, s, pos;
    n, s, how, pos, first, last, k, at := SyncEnds(file, log, i0, ch, ts);
    EndlessAs(file, Place(log, i0), n, s, how, pos, ch, ts);
  }

  /** Some search in a basket never ends if and only if its first record is audio and links
      to itself. */
  lemma {:induction false} SomeSearchIsEndlessIff(file: seq<byte>, log: seq<Rec>)
    requires Searchable(file, log)
    ensures (exists i, ch, ts :: 0 <= i < |log| && Endless(file, Place(log, i), ch, ts)) <==>
      SelfLinked(log) && IsAudio(log[0])
  {
    hide Searchable, Turn, Run, Place, Endless;
    if exists i, ch, ts :: 0 <= i < |log| && Endless(file, Place(log, i), ch, ts) {
      var i, ch, ts :| 0 <= i < |log| && Endless(file, Place(log, i), ch, ts);
      var _, _, _, _, _ := EndlessIff(file, log, i, ch, ts);
    }
    if SelfLinked(log) && IsAudio(log[0]) {
      FirstAudioSpins(file, log);
    }
  }

  lemma {:induction false} FirstAudioSpins(file: seq<byte>, log: seq<Rec>)
    requires Searchable(file, log) && SelfLinked(log) && IsAudio(log[0])
    ensures var h := log[0].hdr; Endless(file, Place(log, 0), h.ch, Ts(h.ts.sec - 1, h.ts.usec))
  {
    hide Holds, Bytes, TotalSize, HdrAt, WellFormed, Searchable, Endless, Run;
    var h := log[0].hdr;
    var ch, ts := h.ch, Ts(h.ts.sec - 1, h.ts.usec);
    var s := Start(Place(log, 0));
    RecordHere(file, log, 0);
    StartsAlong(file, log, 0, ch, ts);
    RunOn(file, s, 0, ch, ts, s);
    var t := Turn(file, s, ch, ts);
    SpinsOn(file, ch, ts, s);
    RunOn(file, s, 1, ch, ts, t.s);
    FixedPointIsEndless(file, Place(log, 0), 2, ch, ts, Turn(file, t.s, ch, ts).s);
  }

  lemma HdrFits(file: seq<byte>, pos: nat)
    requires CanRead(file, pos, STREAM_HDR)
    ensures FitsWords(HdrAt(file, pos))
  {
  }

  /** Two accounts of the same search agree. */
  lemma {:induction false} SameEnd(file: seq<byte>, s0: State, n: nat, s: State, j: nat, c: State, ch: int, ts: Ts)
    requires Run(file, s0, n, ch, ts) == Next(s) && Run(file, s0, j, ch, ts) == Next(c) && j <= n
    ensures Run(file, s0, j + 1, ch, ts) == Turn(file, c, ch, ts)
    ensures j == n ==> c == s
    ensures Turn(file, c, ch, ts).Stop? ==> j == n
  {
    hide Turn;
    RunOn(file, s0, j, ch, ts, c);
    if j < n {
      RunsBefore(file, s0, n, j + 1, ch, ts);
    }
  }

  /** The search as it is programmed.  It starts behind the video frame just shown, at
      record i0.  Where it would go on forever it is cut short. */
  method Sync(file: seq<byte>, ghost log: seq<Rec>, ghost i0: nat, fpos: nat, ch: int, ts: Ts)
      returns (how: SyncEnd, pos: nat, ghost first: int, ghost last: int, ghost k: int, ghost at: int)
    requires Searchable(file, log) && i0 < |log| && fpos == Place(log, i0)
    ensures EndsAt(log, ch, ts, i0, how, first, last, k, at)
    ensures how == Close || how == Reversed || how == StartStop || how == NoAudioNearby ==> 0 <= at < |log| && pos == Place(log, at)
    ensures how != NextBasket && (how == BadHeader <==> k == |log| - 1)
    ensures how == Forever <==> Endless(file, fpos, ch, ts)
    ensures AllTimes(log, ts) ==> InTimeStamps(log, ch, ts, how, first, last, k)
  {
    hide Searchable, Holds, Bytes, TotalSize, HdrAt, WellFormed, Diff, Run, EndsAt, Place, Endless, AllTimes, InTimeStamps;
    ghost var s0, n, s, theHow, thePos := Start(fpos), 0, Start(fpos), Forever, 0;
    n, s, theHow, thePos, first, last, k, at := SyncEnds(file, log, i0, ch, ts);
    if AllTimes(log, ts) {
      EndsInTimeStamps(log, ch, ts, i0, theHow, first, last, k, at);
    }
    EndlessAs(file, fpos, n, s, theHow, thePos, ch, ts);
    pos := fpos;
    var forward, prevForward, noPrev, firstAud := true, true, false, true;
    var frameCnt: nat, curAud: nat, prevAud: nat := 0, 0, 0;
    ghost var j: nat := 0;
    StartsAlong(file, log, i0, ch, ts);
    while true
      invariant Run(file, s0, j, ch, ts) == Next(State(pos, forward, prevForward, noPrev, firstAud, frameCnt, curAud, prevAud))
      invariant Proper(State(pos, forward, prevForward, noPrev, firstAud, frameCnt, curAud, prevAud)) && j <= n
      decreases n - j
    {
      ghost var c := State(pos, forward, prevForward, noPrev, firstAud, frameCnt, curAud, prevAud);
      SameEnd(file, s0, n, s, j, c, ch, ts);
      if !CanRead(file, pos, STREAM_HDR) {
        how := NextBasket;
        return;
      }
      var shd := HdrAt(file, pos);
      HdrFits(file, pos);
      pos := pos + STREAM_HDR;
      var curFpos := pos;
      if shd.id != ID_AUDIO && shd.id != ID_VIDEO {
        how := BadHeader;
        return;
      }
      var matched := shd.id == ID_AUDIO && shd.ch == ch;
      if matched {
        frameCnt := 0;
        prevAud := curAud;
        curAud := curFpos;
      } else {
        frameCnt := frameCnt + 1;
        if frameCnt >= MAX_NUM_FRAME_SEARCH {
          how := NoAudioNearby;
          pos := if firstAud then curFpos - STREAM_HDR else Back(curAud);
          return;
        }
        if forward {
          pos := pos + (if shd.id == ID_VIDEO then VSTREAM_HDR else ASTREAM_HDR) + shd.framesize;
          j := j + 1;
          continue;
        } else if shd.prevFpos > 0 {
          if curFpos <= shd.prevFpos {
            how := PrevBasket;
            return;
          }
          pos := shd.prevFpos;
          j := j + 1;
          continue;
        }
        noPrev := true;
      }
      // compare the times; at most one of the two branches can ask for another hop
      var diff := Diff(ts, shd);
      if diff < -128 || diff > 128 {
        forward := diff > 128;
        if firstAud {
          firstAud := false;
        } else if forward != prevForward {
          // the direction would change: back to the audio frame before, and stop
          how := if matched then Reversed else StartReversed;
          pos := Back(prevAud);
          return;
        }
        prevForward := forward;
        if forward || !noPrev {
          // the count was reset when the frame matched, so the check made here cannot end
          // the search
          frameCnt := frameCnt + 1;
          if forward {
            pos := pos + ASTREAM_HDR + shd.framesize;
            j := j + 1;
            continue;
          } else if shd.prevFpos > 0 {
            if curFpos <= shd.prevFpos {
              how := PrevBasket;
              return;
            }
            pos := shd.prevFpos;
            if pos + STREAM_HDR == curFpos {
              // the same frame again, and nothing will change any more
              SpinIsEndless(file, fpos, j, ch, ts, c);
              how := Forever;
              return;
            }
            j := j + 1;
            continue;
          }
          // the comparison is made again, now without a way back
          noPrev := true;
        }
      }
      how := if noPrev then StartStop else Close;
      pos := pos - STREAM_HDR;
      return;
    }
  }
}
