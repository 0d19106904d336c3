/** Whole runs of the recorder: any mix of writes and flushes, going on after the ones that
    fail for as long as the source can go on.  What the baskets hold in the end is what was
    held before and the frames of the steps that succeeded, in order. */
module RecorderRuns {
  import opened Layout
  import opened Log
  import opened R = Recorder

  datatype Step =
    | Video(pv: VideoParam, search: Search, io: Io)
    | Audio(pa: AudioParam, search: Search, io: Io)
    | Flush(io: Io)

  predicate StepOk(step: Step) {
    match step
    case Video(pv, _, _) => VideoOk(pv)
    case Audio(pa, _, _) => AudioOk(pa)
    case Flush(_) => true
  }

  /** What a step comes to, from the positions alone. */
  function StepEffect(g: Gauge, step: Step, st: Setting): Effect {
    match step
    case Video(pv, search, io) => VideoEffect(g, pv, search, io, st)
    case Audio(pa, search, io) => AudioEffect(g, pa, search, io, st)
    case Flush(io) => FlushEffect(g, io)
  }

  /** A basket is open and its buffer has room for a marker. */
  predicate GoesOnFrom(g: Gauge) {
    g.isOpen && g.bPos < BBUF_SIZE && g.fposBkt + g.bPos + 2 * BBUF_SIZE < WORD
  }

  /** What a run comes to: the results, the positions, and the writes that were completed. */
  datatype Outcome = Outcome(rs: seq<Result>, gauge: Gauge, writes: seq<Write>)

  function Play(g: Gauge, steps: seq<Step>, st: Setting): Outcome
    decreases |steps|
  {
    if steps == [] || !GoesOnFrom(g) then Outcome([], g, [])
    else
      var e := StepEffect(g, steps[0], st);
      AfterStep(e, Play(e.gauge, steps[1..], st))
  }

  function AfterStep(e: Effect, o: Outcome): Outcome {
    Outcome([e.r] + o.rs, o.gauge, e.writes + o.writes)
  }

  /** A run in two parts: what its first steps came to, and the rest. */
  function AfterAll(rs: seq<Result>, writes: seq<Write>, o: Outcome): Outcome {
    Outcome(rs + o.rs, o.gauge, writes + o.writes)
  }

  lemma {:induction false} PlayOn(g: Gauge, steps: seq<Step>, n: nat, st: Setting, rs: seq<Result>, writes: seq<Write>)
    requires n < |steps| && GoesOnFrom(g)
    ensures var e := StepEffect(g, steps[n], st);
      AfterAll(rs, writes, Play(g, steps[n..], st)) == AfterAll(rs + [e.r], writes + e.writes, Play(e.gauge, steps[n + 1..], st))
  {
    hide StepEffect, GoesOnFrom;
    var e := StepEffect(g, steps[n], st);
    assert steps[n..][0] == steps[n] && steps[n..][1..] == steps[n + 1..];
    var o := Play(e.gauge, steps[n + 1..], st);
    assert rs + ([e.r] + o.rs) == (rs + [e.r]) + o.rs;
    assert writes + (e.writes + o.writes) == (writes + e.writes) + o.writes;
  }

  /** A run that cannot go on has come to this. */
  lemma PlayEnds(g: Gauge, steps: seq<Step>, st: Setting, rs: seq<Result>, writes: seq<Write>)
    requires steps == [] || !GoesOnFrom(g)
    ensures AfterAll(rs, writes, Play(g, steps, st)) == Outcome(rs, g, writes)
  {
  }

  /** Exactly when a step succeeds. */
  predicate Succeeds(g: Gauge, step: Step, st: Setting) {
    match step
    case Video(pv, search, io) => VideoSucceeds(g, pv, search, io, st)
    case Audio(pa, search, io) => AudioSucceeds(g, pa, search, io, st)
    case Flush(io) => FlushSucceeds(g.bPos, g.iPos, g.rSkip, io)
  }

  lemma {:induction false} SucceedsIff(g: Gauge, step: Step, st: Setting)
    ensures StepEffect(g, step, st).r == Ok <==> Succeeds(g, step, st)
  {
    hide VideoSucceeds, AudioSucceeds, FlushSucceeds, VideoRoom, AudioRoom, FlushEffect;
    match step {
      case Video(pv, search, io) => VideoCase(g, pv, search, io, st);
      case Audio(pa, search, io) => AudioCase(g, pa, search, io, st);
      case Flush(io) => FlushCase(g, io);
    }
  }

  /** A step that needs nothing but what succeeds cannot fail. */
  predicate MustSucceed(step: Step, st: Setting) {
    match step
    case Video(_, search, io) => AllSucceed(io) && UsableIn(search, st.bids, st.recycleOnce)
    case Audio(_, search, io) => AllSucceed(io) && UsableIn(search, st.bids, st.recycleOnce)
    case Flush(io) => AllSucceed(io)
  }

  lemma {:induction false} MustSucceedDoes(g: Gauge, step: Step, st: Setting)
    requires MustSucceed(step, st)
    ensures Succeeds(g, step, st)
  {
    hide VideoRolls, VideoFills, AudioRolls, AudioFills;
  }

  /** The record of a step's frame. */
  predicate Carries(r: Rec, step: Step) {
    match step
    case Video(pv, _, _) => VideoRec(r, pv, r.hdr.prevFpos)
    case Audio(pa, _, _) => AudioRec(r, pa, r.hdr.prevFpos)
    case Flush(_) => false
  }

  /** The records made: exactly one for every write that succeeded, in order. */
  ghost predicate Written(steps: seq<Step>, rs: seq<Result>, frames: seq<Rec>)
    requires |rs| <= |steps|
    decreases |rs|
  {
    if rs == [] then frames == []
    else
      var n := |rs| - 1;
      if rs[n] != Ok || steps[n].Flush? then Written(steps, rs[..n], frames)
      else frames != [] && Carries(frames[|frames| - 1], steps[n]) && Written(steps, rs[..n], Front(frames))
  }

  // ---------------------------------------------------------------- what a basket holds

  /** The frames of a basket, without end markers. */
  function Payload(log: seq<Rec>): seq<Rec> {
    if log == [] then []
    else Payload(log[..|log| - 1]) + if IsEnd(log[|log| - 1]) then [] else [log[|log| - 1]]
  }

  function Markers(log: seq<Rec>): nat {
    if log == [] then 0 else Markers(log[..|log| - 1]) + if IsEnd(log[|log| - 1]) then 1 else 0
  }

  /** The size of both files together. */
  function Filled(log: seq<Rec>): nat {
    End(log) + IndexNumToPos(|Index(log)|)
  }

  /** Only end markers can take a basket beyond its size. */
  predicate Bounded(log: seq<Rec>) {
    Filled(log) < BASKET_SIZE + STREAM_HDR * Markers(log)
  }

  lemma PayloadAppend(log: seq<Rec>, r: Rec)
    ensures Payload(log + [r]) == Payload(log) + if IsEnd(r) then [] else [r]
    ensures Markers(log + [r]) == Markers(log) + if IsEnd(r) then 1 else 0
  {
  }

  lemma {:induction false} MarkerKeepsBound(log: seq<Rec>, r: Rec, carry: int)
    requires Bounded(log) && Linked(log, carry) && IsEnd(r) && RecSize(r) == STREAM_HDR
    ensures Bounded(log + [r]) && Linked(log + [r], carry) && LastStart(log + [r], carry) == LastStart(log, carry)
  {
    hide Index, TotalSize, Linked, LastStart, IsEnd, IsIFrame;
    Append(log, r);
    AppendIndex(log, r);
    AppendLink(log, r, carry);
    PayloadAppend(log, r);
    EndIsNoIFrame(r);
  }

  lemma EndIsNoIFrame(r: Rec)
    requires IsEnd(r)
    ensures !IsIFrame(r)
  {
  }

  // ---------------------------------------------------------------- baskets that were left

  /** Why a basket was left: the step, and the day of the month at which the recorder stood,
      which is that of all video records from `since` on. */
  datatype Cause = Cause(step: Step, day: int, since: nat)

  /** A basket that was left: with which log it was closed, what gPrevFpos had been when
      it was opened, the closed basket, if any, that was taken to go on, and why. */
  datatype Leaving = Leaving(bid: int, log: seq<Rec>, carry: int, reused: set<int>, cause: Cause)

  /** A basket is left only for a record that would have taken it to its size, or for a video
      frame of another day of the month. */
  ghost predicate LeftForCause(g: Leaving, mday: int -> int) {
    match g.cause.step
    case Video(pv, _, _) =>
      // the end marker is as long as the frame's stream header
      Filled(g.log) + VSTREAM_HDR + |pv.frame| + INDEX_DATA >= BASKET_SIZE ||
      (g.cause.day != mday(pv.ts.sec / 86400) && OfDay(g.log, g.cause.since, mday, g.cause.day))
    case Audio(pa, _, _) => Filled(g.log) + STREAM_HDR + ASTREAM_HDR + |pa.frame| >= BASKET_SIZE
    case Flush(_) => false
  }

  ghost predicate AllForCause(shelf: seq<Leaving>, mday: int -> int) {
    forall i :: 0 <= i < |shelf| ==> LeftForCause(shelf[i], mday)
  }

  /** Of a basket opened on the way all records count. */
  ghost predicate SinceOpened(shelf: seq<Leaving>) {
    forall i :: 0 < i < |shelf| ==> shelf[i].cause.since == 0
  }

  ghost predicate OfDay(log: seq<Rec>, since: nat, mday: int -> int, day: int) {
    since <= |log| && forall i :: since <= i < |log| && IsVideo(log[i]) ==> mday(log[i].hdr.ts.sec / 86400) == day
  }

  lemma {:induction false} DayNow(d: Recorder)
    requires d.Valid() && d.isOpen
    ensures OfDay(d.CurrentLog(), d.book.since, d.mday, d.prevDay)
  {
    hide StreamInv, IndexInv, TrailOk, UpToDate, AllClosedAs, IsLink;
    var log := d.CurrentLog();
    forall i | d.book.since <= i < |log| && IsVideo(log[i])
      ensures d.mday(log[i].hdr.ts.sec / 86400) == d.prevDay
    {
      assert log[d.book.since..][i - d.book.since] == log[i];
    }
  }

  /** What a step finds in the basket when it cannot use it. */
  ghost predicate Calls(before: seq<Rec>, cause: Cause, mday: int -> int) {
    match cause.step
    case Video(pv, _, _) =>
      OfDay(before, cause.since, mday, cause.day) &&
      (Filled(before) + STREAM_HDR + VSTREAM_HDR + |pv.frame| + INDEX_DATA >= BASKET_SIZE || cause.day != mday(pv.ts.sec / 86400))
    case Audio(pa, _, _) => Filled(before) + STREAM_HDR + ASTREAM_HDR + |pa.frame| >= BASKET_SIZE
    case Flush(_) => false
  }

  lemma {:induction false} VideoCalls(d: Recorder, pv: VideoParam, search: Search, io: Io)
    requires d.Valid() && d.isOpen && VideoRolls(d.GaugeNow(), pv, d.Given())
    ensures Calls(d.CurrentLog(), Cause(Video(pv, search, io), d.prevDay, d.book.since), d.mday)
  {
    hide Recorder.Valid, Index, TotalSize, VideoRolls, OfDay;
    d.AtRest();
    DayNow(d);
    VideoRollsIff(d.GaugeNow(), pv, d.Given());
  }

  lemma {:induction false} AudioCalls(d: Recorder, pa: AudioParam, search: Search, io: Io)
    requires d.Valid() && d.isOpen && AudioRolls(d.GaugeNow(), pa)
    ensures Calls(d.CurrentLog(), Cause(Audio(pa, search, io), d.prevDay, d.book.since), d.mday)
  {
    hide Recorder.Valid, Index, TotalSize, AudioRolls;
    d.AtRest();
    AudioRollsIff(d.GaugeNow(), pa);
  }

  /** The marker adds its header and no video record. */
  lemma {:induction false} ClosedForCause(g: Leaving, before: seq<Rec>, mday: int -> int)
    requires Calls(before, g.cause, mday) && ClosingLog(g.log, before, g.cause.step.Video?)
    ensures LeftForCause(g, mday)
  {
    hide Index, TotalSize;
    if g.cause.step.Video? {
      var m := g.log[|before|];
      assert g.log == before + [m];
      Append(before, m);
      AppendIndex(before, m);
    }
  }

  function PayloadsOf(shelf: seq<Leaving>): seq<Rec> {
    if shelf == [] then [] else PayloadsOf(shelf[..|shelf| - 1]) + Payload(shelf[|shelf| - 1].log)
  }

  function ClosedAfter(closed: map<int, seq<Rec>>, shelf: seq<Leaving>): map<int, seq<Rec>> {
    if shelf == [] then closed
    else
      var g := shelf[|shelf| - 1];
      ClosedAfter(closed, shelf[..|shelf| - 1])[g.bid := g.log] - g.reused
  }

  /** The recorder's state, as far as records go. */
  datatype State = State(isOpen: bool, bid: int, log: seq<Rec>, carry: int, closed: map<int, seq<Rec>>)

  ghost function Now(d: Recorder): State
    reads d
  {
    State(d.isOpen, d.bid, d.book.done + d.book.pend, d.book.carry, d.book.closed)
  }

  function Held(s: State): seq<Rec> {
    if s.isOpen then Payload(s.log) else []
  }

  /** After basket g the recorder went on with basket bid, the first record of which links
      back to the last record of g. */
  ghost predicate GoesOn(g: Leaving, bid: int, carry: int) {
    g.reused == {bid} && carry == LastStart(g.log, g.carry)
  }

  ghost predicate Whole(log: seq<Rec>, carry: int) {
    Linked(log, carry) && Bounded(log)
  }

  /** From one state to another, leaving the baskets of the shelf one after the other. */
  ghost predicate Left(s0: State, shelf: seq<Leaving>, s1: State) {
    s1.closed == ClosedAfter(s0.closed, shelf) &&
    (forall i :: 0 <= i < |shelf| ==> Whole(shelf[i].log, shelf[i].carry)) &&
    (shelf != [] ==> shelf[0].bid == s0.bid && shelf[0].carry == s0.carry) &&
    (forall i :: 0 < i < |shelf| ==> GoesOn(shelf[i - 1], shelf[i].bid, shelf[i].carry)) &&
    (s1.isOpen ==> Whole(s1.log, s1.carry)) &&
    (s1.isOpen && shelf == [] ==> s1.bid == s0.bid && s1.carry == s0.carry) &&
    (s1.isOpen && shelf != [] ==> GoesOn(shelf[|shelf| - 1], s1.bid, s1.carry))
  }

  /** Steps keep every frame: what was held and what they wrote is what the baskets left on
      the way hold, and the current one. */
  ghost predicate Keeps(s0: State, frames: seq<Rec>, shelf: seq<Leaving>, s1: State) {
    PayloadsOf(shelf) + Held(s1) == Held(s0) + frames && Left(s0, shelf, s1)
  }

  lemma {:induction false} KeepsOn(s0: State, fs: seq<Rec>, shelf: seq<Leaving>, s1: State, f: seq<Rec>, gone: seq<Leaving>, s2: State)
    requires s1.isOpen && |gone| <= 1 && Keeps(s0, fs, shelf, s1) && Keeps(s1, f, gone, s2)
    ensures Keeps(s0, fs + f, shelf + gone, s2)
  {
    hide Left, Held;
    if gone == [] {
      assert shelf + gone == shelf;
      Regroup(PayloadsOf(shelf), Held(s1), Held(s0), fs, f, [], Held(s2));
      assert PayloadsOf(shelf) + [] == PayloadsOf(shelf);
      LeftStay(s0, shelf, s1, s2);
    } else {
      var g := gone[0];
      assert gone == [g];
      OneGone(s1.closed, g);
      ShelfSnoc(s0.closed, shelf, g);
      Regroup(PayloadsOf(shelf), Held(s1), Held(s0), fs, f, Payload(g.log), Held(s2));
      LeftOn(s0, shelf, s1, g, s2);
    }
  }

  lemma {:induction false} Regroup(p: seq<Rec>, h1: seq<Rec>, h0: seq<Rec>, fs: seq<Rec>, f: seq<Rec>, q: seq<Rec>, h2: seq<Rec>)
    requires p + h1 == h0 + fs && q + h2 == h1 + f
    ensures (p + q) + h2 == h0 + (fs + f)
  {
    assert (p + q) + h2 == p + (q + h2) == p + (h1 + f) == (p + h1) + f == (h0 + fs) + f == h0 + (fs + f);
  }

  lemma {:induction false} LeftStay(s0: State, shelf: seq<Leaving>, s1: State, s2: State)
    requires s1.isOpen && Left(s0, shelf, s1) && Left(s1, [], s2)
    ensures Left(s0, shelf, s2)
  {
    hide Whole;
  }

  lemma {:induction false} LeftOn(s0: State, shelf: seq<Leaving>, s1: State, g: Leaving, s2: State)
    requires s1.isOpen && Left(s0, shelf, s1) && Left(s1, [g], s2)
    ensures Left(s0, shelf + [g], s2)
  {
    hide Whole;
    OneGone(s1.closed, g);
    ShelfSnoc(s0.closed, shelf, g);
    var long := shelf + [g];
    forall i | 0 < i < |long|
      ensures GoesOn(long[i - 1], long[i].bid, long[i].carry)
    {
      if i == |shelf| {
        assert long[i - 1] == shelf[|shelf| - 1] && long[i] == g;
      } else {
        assert GoesOn(shelf[i - 1], shelf[i].bid, shelf[i].carry);
      }
    }
  }

  lemma OneGone(closed: map<int, seq<Rec>>, g: Leaving)
    ensures PayloadsOf([g]) == Payload(g.log) && ClosedAfter(closed, [g]) == closed[g.bid := g.log] - g.reused
  {
  }

  lemma ShelfSnoc(closed: map<int, seq<Rec>>, shelf: seq<Leaving>, g: Leaving)
    ensures PayloadsOf(shelf + [g]) == PayloadsOf(shelf) + Payload(g.log)
    ensures ClosedAfter(closed, shelf + [g]) == ClosedAfter(closed, shelf)[g.bid := g.log] - g.reused
  {
  }

  lemma {:induction false} NothingYet(s: State)
    requires s.isOpen ==> Whole(s.log, s.carry)
    ensures Keeps(s, [], [], s)
  {
    assert [] + Held(s) == Held(s) + [];
  }

  lemma {:induction false} WrittenOn(steps: seq<Step>, rs: seq<Result>, frames: seq<Rec>, r: Result, f: seq<Rec>)
    requires |rs| < |steps| && Written(steps, rs, frames) && Wrote(steps[|rs|], r, f)
    ensures Written(steps, rs + [r], frames + f)
  {
    assert (rs + [r])[..|rs|] == rs;
    if f == [] {
      assert frames + f == frames;
    } else {
      assert Front(frames + f) == frames;
    }
  }

  /** One step writes its frame, or nothing. */
  ghost predicate Wrote(step: Step, r: Result, f: seq<Rec>) {
    if r != Ok || step.Flush? then f == [] else |f| == 1 && Carries(f[0], step)
  }

  // ---------------------------------------------------------------- one step

  /** A write that succeeded. */
  lemma {:induction false} FramePlaced(s0: State, s1: State, rolls: bool, ends: bool, search: Search, before: seq<Rec>, rec: Rec, cause: Cause, mday: int -> int)
      returns (gone: seq<Leaving>)
    requires ends == cause.step.Video? && (rolls ==> Calls(s0.log, cause, mday))
    requires s0.isOpen && s1.isOpen && Whole(s0.log, s0.carry) && Whole(s1.log, s1.carry) && !IsEnd(rec)
    requires s1.log == before + [rec]
    requires Moved(rolls, ends, search, before, s0.log, s0.bid, s0.closed, s1.bid, s1.closed)
    requires s1.carry == if rolls then LastStart(s0.log, s0.carry) else s0.carry
    ensures |gone| <= 1 && Keeps(s0, [rec], gone, s1) && (gone != [] <==> rolls)
    ensures AllForCause(gone, mday) && (gone != [] ==> gone[0].cause == cause)
  {
    hide Linked, LastStart, Bounded, ClosingLog, IsEnd, Calls, LeftForCause;
    PayloadAppend(before, rec);
    if !rolls {
      gone := [];
      assert PayloadsOf([]) + Held(s1) == Held(s1);
    } else {
      var c :| ClosingLog(c, s0.log, ends) && s1.closed == s0.closed[s0.bid := c] - {s1.bid};
      ClosedWhole(s0.log, c, ends, s0.carry);
      var g := Leaving(s0.bid, c, s0.carry, {s1.bid}, cause);
      ClosedForCause(g, s0.log, mday);
      gone := [g];
      OneGone(s0.closed, g);
      assert Held(s1) == [rec];
    }
  }

  /** Closing a basket changes nothing but for one end marker. */
  lemma {:induction false} ClosedWhole(log: seq<Rec>, c: seq<Rec>, ends: bool, carry: int)
    requires Whole(log, carry) && ClosingLog(c, log, ends)
    ensures Whole(c, carry) && Payload(c) == Payload(log) && LastStart(c, carry) == LastStart(log, carry)
  {
    hide Linked, LastStart, Bounded, IsEnd;
    if ends {
      var r := c[|log|];
      assert c == log + [r];
      MarkerKeepsBound(log, r, carry);
      PayloadAppend(log, r);
    }
  }

  /** A write that failed. */
  lemma {:induction false} FrameRefused(s0: State, s1: State, ends: bool, search: Search, cause: Cause, mday: int -> int) returns (gone: seq<Leaving>)
    requires ends == cause.step.Video? && (!s1.isOpen ==> Calls(s0.log, cause, mday))
    requires s0.isOpen && Whole(s0.log, s0.carry)
    requires s1.isOpen ==> s1.bid == s0.bid && s1.closed == s0.closed && s1.carry == s0.carry
    requires s1.isOpen ==> s1.log == s0.log || ClosingLog(s1.log, s0.log, ends)
    requires !s1.isOpen ==> exists c :: ClosingLog(c, s0.log, ends) && ClosedTo(search, s0.closed[s0.bid := c], s1.closed)
    ensures |gone| <= 1 && Keeps(s0, [], gone, s1) && (gone != [] <==> !s1.isOpen)
    ensures AllForCause(gone, mday) && (gone != [] ==> gone[0].cause == cause)
  {
    hide Linked, LastStart, Bounded, ClosingLog, Payload, Calls, LeftForCause;
    if s1.isOpen {
      gone := [];
      if s1.log != s0.log {
        ClosedWhole(s0.log, s1.log, ends, s0.carry);
      }
      assert [] + Held(s1) == Held(s0) + [];
    } else {
      var c :| ClosingLog(c, s0.log, ends) && ClosedTo(search, s0.closed[s0.bid := c], s1.closed);
      ClosedWhole(s0.log, c, ends, s0.carry);
      var g := Leaving(s0.bid, c, s0.carry, if s1.closed == s0.closed[s0.bid := c] then {} else {search.bid}, cause);
      ClosedForCause(g, s0.log, mday);
      gone := [g];
      OneGone(s0.closed, g);
      assert s1.closed == s0.closed[s0.bid := c] - g.reused;
      assert Payload(c) + [] == Payload(s0.log) + [];
    }
  }

  // ---------------------------------------------------------------- runs

  lemma AtRest(d: Recorder)
    requires d.Valid() && d.isOpen
    ensures Linked(d.CurrentLog(), d.book.carry) && d.prevFpos == LastStart(d.CurrentLog(), d.book.carry)
    ensures Filled(d.CurrentLog()) == d.fposBkt + d.bPos + d.fposIdx + d.iPos
  {
    d.AtRest();
  }

  lemma WithinIsBounded(log: seq<Rec>)
    requires Filled(log) < BASKET_SIZE
    ensures Bounded(log)
  {
  }

  // ---------------------------------------------------------------- runs

  /** What a write has come to, for the records. */
  lemma {:induction false} FrameWritten(d: Recorder, s0: State, rolls: bool, ends: bool, search: Search, r: Result, cause: Cause)
      returns (f: seq<Rec>, gone: seq<Leaving>)
    requires d.Valid() && s0.isOpen && Whole(s0.log, s0.carry)
    requires ends == cause.step.Video? && !cause.step.Flush? && (rolls ==> Calls(s0.log, cause, d.mday))
    requires if r == Ok then d.book.pend != [] && d.Placed(rolls, ends, search, d.AllButLast(), s0.log, s0.bid, s0.closed)
             else d.Refused(rolls, ends, search, s0.log, s0.bid, s0.closed)
    requires d.isOpen ==> d.book.carry == if rolls && r == Ok then LastStart(s0.log, s0.carry) else s0.carry
    requires r == Ok ==> d.WithinBounds() && Carries(d.Last(), cause.step) && !IsEnd(d.Last())
    ensures Wrote(cause.step, r, f) && |gone| <= 1 && Keeps(s0, f, gone, Now(d)) && AllForCause(gone, d.mday)
    ensures gone != [] ==> gone[0].cause == cause
    ensures (r == Ok ==> d.isOpen) && (d.isOpen ==> (gone != [] <==> rolls && r == Ok))
  {
    hide Recorder.Valid, Linked, LastStart, Filled, Bounded, Keeps, Moved, ClosingLog, Carries, IsEnd, Calls, AllForCause, Front, ClosedTo;
    if r == Ok {
      AtRest(d);
      f := [d.Last()];
      FrontAndLast(d.book.done, d.book.pend);
      WithinIsBounded(d.CurrentLog());
      gone := FramePlaced(s0, Now(d), rolls, ends, search, d.AllButLast(), d.Last(), cause, d.mday);
    } else {
      f := [];
      gone := FrameRefused(s0, Now(d), ends, search, cause, d.mday);
    }
  }

  method VideoStep(d: Recorder, pv: VideoParam, search: Search, io: Io) returns (r: Result, ghost f: seq<Rec>, ghost gone: seq<Leaving>)
    requires d.Valid() && d.isOpen && d.RoomForMarker() && VideoOk(pv) && Bounded(d.CurrentLog())
    modifies d, d.bBuf, d.iBuf
    ensures d.Valid() && d.files.Keys == old(d.files.Keys)
    ensures Wrote(Video(pv, search, io), r, f) && |gone| <= 1 && Keeps(old(Now(d)), f, gone, Now(d))
    ensures r == Ok ==> d.isOpen && d.WithinBounds()
    ensures AllForCause(gone, d.mday) && (d.isOpen ==> d.book.since == if gone == [] then old(d.book.since) else 0)
    ensures gone != [] ==> gone[0].cause == Cause(Video(pv, search, io), old(d.prevDay), old(d.book.since))
    ensures Came(VideoEffect(old(d.GaugeNow()), pv, search, io, d.Given()), r, d.GaugeNow(), old(d.book.trail), d.book.trail)
  {
    hide Recorder.Valid, Linked, LastStart, Filled, Bounded, Keeps, Moved, ClosingLog, MonthDay, VideoEffect, VideoRolls, Came;
    hide Recorder.RoomForMarker, Front, VideoOk, ClosedTo, VideoRec, Carries, IsEnd, VideoSucceeds, VideoFills, Recorder.GaugeNow;
    hide Calls, AllForCause, Recorder.Placed, Recorder.Refused, Recorder.Remains, Wrote, Recorder.WithinBounds;
    ghost var rolls := VideoRolls(d.GaugeNow(), pv, d.Given());
    ghost var s0, prev, cause := Now(d), d.prevFpos, Cause(Video(pv, search, io), d.prevDay, d.book.since);
    AtRest(d);
    if rolls {
      VideoCalls(d, pv, search, io);
    }
    r := d.WriteVideo(pv, search, io);
    if r == Ok {
      VideoCarries(d.Last(), pv, search, io, prev);
    }
    f, gone := FrameWritten(d, s0, rolls, true, search, r, cause);
  }

  lemma AudioCarries(r: Rec, pa: AudioParam, search: Search, io: Io, prev: int)
    requires AudioRec(r, pa, prev)
    ensures Carries(r, Audio(pa, search, io)) && !IsEnd(r)
  {
  }

  lemma VideoCarries(r: Rec, pv: VideoParam, search: Search, io: Io, prev: int)
    requires VideoRec(r, pv, prev)
    ensures Carries(r, Video(pv, search, io)) && !IsEnd(r)
  {
  }

  lemma FrontAndLast(done: seq<Rec>, pend: seq<Rec>)
    requires pend != []
    ensures done + pend == Front(done + pend) + [pend[|pend| - 1]]
  {
  }

  method AudioStep(d: Recorder, pa: AudioParam, search: Search, io: Io) returns (r: Result, ghost f: seq<Rec>, ghost gone: seq<Leaving>)
    requires d.Valid() && d.isOpen && d.RoomForMarker() && AudioOk(pa) && Bounded(d.CurrentLog())
    modifies d, d.bBuf, d.iBuf
    ensures d.Valid() && d.files.Keys == old(d.files.Keys)
    ensures Wrote(Audio(pa, search, io), r, f) && |gone| <= 1 && Keeps(old(Now(d)), f, gone, Now(d))
    ensures r == Ok ==> d.isOpen && d.WithinBounds()
    ensures AllForCause(gone, d.mday) && (d.isOpen ==> d.book.since == if gone == [] then old(d.book.since) else 0)
    ensures gone != [] ==> gone[0].cause == Cause(Audio(pa, search, io), old(d.prevDay), old(d.book.since))
    ensures Came(AudioEffect(old(d.GaugeNow()), pa, search, io, d.Given()), r, d.GaugeNow(), old(d.book.trail), d.book.trail)
  {
    hide Recorder.Valid, Linked, LastStart, Filled, Bounded, Keeps, Moved, ClosingLog, Recorder.RoomForMarker, Front, AudioEffect, Came;
    hide AudioOk, ClosedTo, AudioRec, Carries, IsEnd, AudioRolls, AudioFills, AudioSucceeds, Recorder.GaugeNow;
    hide Calls, AllForCause, Recorder.Placed, Recorder.Refused, Recorder.Remains, Wrote, Recorder.WithinBounds;
    ghost var rolls := AudioRolls(d.GaugeNow(), pa);
    ghost var s0, prev, cause := Now(d), d.prevFpos, Cause(Audio(pa, search, io), d.prevDay, d.book.since);
    AtRest(d);
    if rolls {
      AudioCalls(d, pa, search, io);
    }
    r := d.WriteAudio(pa, search, io);
    if r == Ok {
      AudioCarries(d.Last(), pa, search, io, prev);
    }
    f, gone := FrameWritten(d, s0, rolls, false, search, r, cause);
  }

  method OneStep(d: Recorder, step: Step) returns (r: Result, ghost f: seq<Rec>, ghost gone: seq<Leaving>)
    requires d.Valid() && d.isOpen && d.RoomForMarker() && StepOk(step) && Bounded(d.CurrentLog())
    modifies d, d.bBuf, d.iBuf
    ensures d.Valid() && d.files.Keys == old(d.files.Keys)
    ensures Wrote(step, r, f) && |gone| <= 1 && Keeps(old(Now(d)), f, gone, Now(d))
    ensures r == Ok && !step.Flush? ==> d.isOpen && d.WithinBounds()
    ensures AllForCause(gone, d.mday) && (d.isOpen ==> d.book.since == if gone == [] then old(d.book.since) else 0)
    ensures gone != [] ==> gone[0].cause == Cause(step, old(d.prevDay), old(d.book.since))
    ensures Came(StepEffect(old(d.GaugeNow()), step, d.Given()), r, d.GaugeNow(), old(d.book.trail), d.book.trail)
  {
    hide Recorder.Valid, Bounded, Keeps, Recorder.RoomForMarker, Recorder.WithinBounds, VideoOk, AudioOk;
    hide Came, VideoEffect, AudioEffect, FlushEffect, Recorder.GaugeNow;
    match step {
      case Video(pv, search, io) =>
        r, f, gone := VideoStep(d, pv, search, io);
      case Audio(pa, search, io) =>
        r, f, gone := AudioStep(d, pa, search, io);
      case Flush(io) =>
        AtRest(d);
        r := d.FlushWriteBuffer(io);
        f, gone := [], [];
        NothingYet(Now(d));
    }
  }

  /** Any run of writes and flushes, through failures, for as long as a basket is open and
      its buffer has room for a marker.  Every frame of a write that succeeded, and no other,
      is kept once and in order: in the baskets that were left, each closed behind a linked
      log that only end markers take beyond the basket size, or in the current one.  The
      results, the positions and the writes to the disk are those that the steps come to.
      The disk has one state for each of these writes, in their order; each follows from the
      one before by that write alone and is safe to crash at, and the last is the disk in
      the end. */
  method Run(d: Recorder, steps: seq<Step>) returns (rs: seq<Result>, ghost frames: seq<Rec>, ghost shelf: seq<Leaving>)
    requires d.Valid() && d.isOpen && d.RoomForMarker() && Bounded(d.CurrentLog())
    requires forall i :: 0 <= i < |steps| ==> StepOk(steps[i])
    modifies d, d.bBuf, d.iBuf
    ensures d.Valid() && |rs| <= |steps| && (|rs| < |steps| ==> !d.isOpen || !d.RoomForMarker())
    ensures Written(steps, rs, frames) && Keeps(old(Now(d)), frames, shelf, Now(d))
    ensures AllClosedAs(d.files, d.book.closed)
    ensures NoneRefused(steps, rs, d.Given()) && WriteFits(d, steps, rs)
    ensures AllForCause(shelf, d.mday) && SinceOpened(shelf)
    ensures var o := Play(old(d.GaugeNow()), steps, old(d.Given()));
      o == Outcome(rs, d.GaugeNow(), o.writes) && Grown(old(d.book.trail), d.book.trail, o.writes)
    ensures TrailOk(d.book.trail) && UpToDate(d.book.trail, d.files, d.book.closed, d.isOpen, d.bid, d.fposIdx, d.book.done)
  {
    hide Recorder.Valid, Bounded, Keeps, Written, Wrote, Recorder.RoomForMarker, Recorder.WithinBounds, StepOk;
    hide MustSucceed, NoneRefused, StepEffect, Grown, Recorder.GaugeNow, Play, GoesOnFrom, AfterAll, TrailOk, UpToDate, AllClosedAs;
    hide LeftForCause;
    rs, frames, shelf := [], [], [];
    ghost var s0, st, g0, trail, writes := Now(d), d.Given(), d.GaugeNow(), d.book.trail, [];
    AtRest(d);
    NothingYet(s0);
    NoneWritten(steps, st);
    GrownNot(trail);
    PlayAll(g0, steps, st);
    while |rs| < |steps| && d.isOpen && d.bPos < BBUF_SIZE && d.fposBkt + d.bPos + 2 * BBUF_SIZE < WORD
      invariant d.Valid() && |rs| <= |steps| && d.Given() == st
      invariant Written(steps, rs, frames) && Keeps(s0, frames, shelf, Now(d))
      invariant NoneRefused(steps, rs, st)
      invariant WriteFits(d, steps, rs)
      invariant AllForCause(shelf, d.mday) && SinceOpened(shelf) && (d.isOpen && shelf != [] ==> d.book.since == 0)
      invariant Grown(trail, d.book.trail, writes)
      invariant Play(g0, steps, st) == AfterAll(rs, writes, Play(d.GaugeNow(), steps[|rs|..], st))
      decreases |steps| - |rs|
    {
      Room(d);
      StillBounded(s0, frames, shelf, Now(d));
      ghost var s1, g1, trail1 := Now(d), d.GaugeNow(), d.book.trail;
      var r, f, gone := OneStep(d, steps[|rs|]);
      ghost var e := StepEffect(g1, steps[|rs|], st);
      KeepsOn(s0, frames, shelf, s1, f, gone, Now(d));
      WrittenOn(steps, rs, frames, r, f);
      NoneRefusedOn(steps, rs, g1, st);
      PlayOn(g1, steps, |rs|, st, rs, writes);
      GrownOn(trail, trail1, d.book.trail, writes, e.writes);
      rs := rs + [r];
      frames, shelf, writes := frames + f, shelf + gone, writes + e.writes;
      assert WriteFits(d, steps, rs);
    }
    Ended(d);
    PlayEnds(d.GaugeNow(), steps[|rs|..], st, rs, writes);
  }

  lemma PlayAll(g: Gauge, steps: seq<Step>, st: Setting)
    ensures Play(g, steps, st) == AfterAll([], [], Play(g, steps[0..], st))
  {
    assert steps[0..] == steps;
  }

  /** Nothing fails unless something it needs does. */
  ghost predicate NoneRefused(steps: seq<Step>, rs: seq<Result>, st: Setting)
    requires |rs| <= |steps|
  {
    forall i :: 0 <= i < |rs| && MustSucceed(steps[i], st) ==> rs[i] == Ok
  }

  lemma {:induction false} NoneRefusedOn(steps: seq<Step>, rs: seq<Result>, g: Gauge, st: Setting)
    requires |rs| < |steps| && NoneRefused(steps, rs, st)
    ensures NoneRefused(steps, rs + [StepEffect(g, steps[|rs|], st).r], st)
  {
    hide MustSucceed, StepEffect, Succeeds;
    SucceedsIff(g, steps[|rs|], st);
    if MustSucceed(steps[|rs|], st) {
      MustSucceedDoes(g, steps[|rs|], st);
    }
  }

  /** After a write that succeeded the capacity bounds hold. */
  ghost predicate WriteFits(d: Recorder, steps: seq<Step>, rs: seq<Result>)
    requires |rs| <= |steps|
    reads d
  {
    rs != [] && rs[|rs| - 1] == Ok && !steps[|rs| - 1].Flush? ==> d.isOpen && d.WithinBounds()
  }

  lemma NoneWritten(steps: seq<Step>, st: Setting)
    ensures Written(steps, [], []) && NoneRefused(steps, [], st)
  {
  }

  lemma StillBounded(s0: State, frames: seq<Rec>, shelf: seq<Leaving>, s1: State)
    requires Keeps(s0, frames, shelf, s1) && s1.isOpen
    ensures Bounded(s1.log)
  {
  }

  lemma Room(d: Recorder)
    requires d.isOpen && d.bPos < BBUF_SIZE && d.fposBkt + d.bPos + 2 * BBUF_SIZE < WORD
    ensures d.RoomForMarker() && GoesOnFrom(d.GaugeNow())
  {
  }

  lemma Ended(d: Recorder)
    requires d.Valid()
    ensures d.RoomForMarker() ==> d.bPos < BBUF_SIZE && d.fposBkt + d.bPos + 2 * BBUF_SIZE < WORD
    ensures GoesOnFrom(d.GaugeNow()) ==> d.isOpen && d.RoomForMarker()
    ensures AllClosedAs(d.files, d.book.closed)
    ensures TrailOk(d.book.trail) && UpToDate(d.book.trail, d.files, d.book.closed, d.isOpen, d.bid, d.fposIdx, d.book.done)
  {
    hide StreamInv, IndexInv, OnMonthDay, AllClosedAs, TrailOk, UpToDate;
  }

  // ---------------------------------------------------------------- when the slack is used up

  /** A video frame that cannot go into the current basket. */
  ghost predicate MustChange(d: Recorder, pv: VideoParam)
    reads d
  {
    VideoOk(pv) && VideoRolls(d.GaugeNow(), pv, d.Given())
  }

  method FailedChange(d: Recorder, pv: VideoParam, ghost rest: seq<VideoParam>, search: Search, io: Io)
    requires d.Valid() && d.isOpen && d.RoomForMarker() && !io.stream && MustChange(d, pv)
    requires forall i :: 0 <= i < |rest| ==> MustChange(d, rest[i])
    modifies d, d.bBuf, d.iBuf
    ensures d.Valid() && d.isOpen && d.bPos == old(d.bPos) + STREAM_HDR && d.fposBkt == old(d.fposBkt)
    ensures forall i :: 0 <= i < |rest| ==> MustChange(d, rest[i])
    ensures Now(d) == old(Now(d)).(log := d.CurrentLog()) && Payload(d.CurrentLog()) == old(Payload(d.CurrentLog()))
    ensures Markers(d.CurrentLog()) == old(Markers(d.CurrentLog())) + 1
  {
    hide MonthDay, VideoOk, Recorder.Valid, Payload, Markers, IsEnd, Filled, VideoRoom, VideoSucceeds;
    ghost var before := d.CurrentLog();
    AtRest(d);
    VideoCase(d.GaugeNow(), pv, search, io, d.Given());
    var r := d.WriteVideo(pv, search, io);
    AtRest(d);
    assert d.CurrentLog() == before + [d.CurrentLog()[|before|]];
    PayloadAppend(before, d.CurrentLog()[|before|]);
  }

  /** Writes that have to change baskets, while the stream file cannot be written: every
      one leaves an end marker in the buffer and nothing else changes, and so they can be
      refused one after the other exactly as long as the markers before the last one fit. */
  method FailedChanges(d: Recorder, pvs: seq<VideoParam>, search: Search, io: Io) returns (n: nat)
    requires d.Valid() && d.isOpen && d.fposBkt + 4 * BBUF_SIZE < WORD && d.bPos <= BBUF_SIZE + STREAM_HDR && !io.stream
    requires forall i :: 0 <= i < |pvs| ==> MustChange(d, pvs[i])
    modifies d, d.bBuf, d.iBuf
    ensures d.Valid() && d.isOpen && n <= |pvs| && d.bPos == old(d.bPos) + STREAM_HDR * n
    ensures n == |pvs| <==> pvs == [] || old(d.bPos) + STREAM_HDR * (|pvs| - 1) < BBUF_SIZE
    ensures n < |pvs| ==> !d.RoomForMarker()
    ensures Now(d) == old(Now(d)).(log := d.CurrentLog()) && Payload(d.CurrentLog()) == old(Payload(d.CurrentLog()))
    ensures Markers(d.CurrentLog()) == old(Markers(d.CurrentLog())) + n
  {
    hide MonthDay, VideoOk, Recorder.Valid, Payload, Markers, VideoRolls;
    n := 0;
    while n < |pvs| && d.bPos < BBUF_SIZE
      invariant d.Valid() && d.isOpen && n <= |pvs| && d.bPos == old(d.bPos) + STREAM_HDR * n && d.fposBkt == old(d.fposBkt)
      invariant n > 0 ==> old(d.bPos) + STREAM_HDR * (n - 1) < BBUF_SIZE
      invariant forall i :: n <= i < |pvs| ==> MustChange(d, pvs[i])
      invariant Now(d) == old(Now(d)).(log := d.CurrentLog()) && Payload(d.CurrentLog()) == old(Payload(d.CurrentLog()))
      invariant Markers(d.CurrentLog()) == old(Markers(d.CurrentLog())) + n
    {
      FailedChange(d, pvs[n], pvs[n..], search, io);
      n := n + 1;
    }
  }
}
