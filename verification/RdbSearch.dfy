/** The minute table ("RDB") as a reader sees it, and the searches for the neighbour of
    a basket (BKTMD_SearchNextBID and BKTMD_SearchPrevBID in src/basket_muldec.c). */
module RdbSearch {

  const MINUTES := 1440
  const CHANNELS := 16

  /** One day's file: a basket id for every channel and minute, 0 where nothing was
      recorded. */
  datatype DayFile = DayFile(day: int, bids: seq<int>)

  /** The files in the order of their names, that is, of their days. */
  ghost predicate IsTable(rdb: seq<DayFile>) {
    (forall i :: 0 <= i < |rdb| ==> |rdb[i].bids| == MINUTES * CHANNELS) &&
    forall i, j :: 0 <= i < j < |rdb| ==> rdb[i].day < rdb[j].day
  }

  function BidAt(f: DayFile, m: int, ch: int): int
    requires |f.bids| == MINUTES * CHANNELS && 0 <= m < MINUTES && 0 <= ch < CHANNELS
  {
    f.bids[MINUTES * ch + m]
  }

  /** A slot: which file, which minute, which channel. */
  datatype Slot = Slot(i: int, m: int, ch: int)

  predicate InTable(rdb: seq<DayFile>, s: Slot) {
    0 <= s.i < |rdb| && 0 <= s.m < MINUTES && 0 <= s.ch < CHANNELS && |rdb[s.i].bids| == MINUTES * CHANNELS
  }

  function Bid(rdb: seq<DayFile>, s: Slot): int
    requires InTable(rdb, s)
  {
    BidAt(rdb[s.i], s.m, s.ch)
  }

  /** A slot that names some basket other than the current one. */
  predicate Neighbour(rdb: seq<DayFile>, cur: int, s: Slot) {
    InTable(rdb, s) && Bid(rdb, s) != 0 && Bid(rdb, s) != cur
  }

  /** Day, then minute, then channel. */
  predicate AtMost(s: Slot, t: Slot) {
    s.i < t.i || (s.i == t.i && (s.m < t.m || (s.m == t.m && s.ch <= t.ch)))
  }

  /** Later minutes first, and within a minute the lowest channel. */
  predicate AtMostBackwards(s: Slot, t: Slot) {
    s.i > t.i || (s.i == t.i && (s.m > t.m || (s.m == t.m && s.ch <= t.ch)))
  }

  // ---------------------------------------------------------------- within a day

  datatype DayHit = Hit(m: int, ch: int) | Miss

  /** The two inner loops of the forward search. */
  method ScanDay(f: DayFile, from: int, cur: int) returns (h: DayHit)
    requires |f.bids| == MINUTES * CHANNELS && from >= 0
    ensures h.Hit? ==> from <= h.m < MINUTES && 0 <= h.ch < CHANNELS && BidAt(f, h.m, h.ch) != 0 && BidAt(f, h.m, h.ch) != cur
    ensures forall m, ch :: from <= m < MINUTES && 0 <= ch < CHANNELS && BidAt(f, m, ch) != 0 && BidAt(f, m, ch) != cur ==>
      h.Hit? && AtMost(Slot(0, h.m, h.ch), Slot(0, m, ch))
  {
    var m := from;
    while m < MINUTES
      invariant from <= m
      invariant forall m', ch :: from <= m' < m && m' < MINUTES && 0 <= ch < CHANNELS ==> BidAt(f, m', ch) == 0 || BidAt(f, m', ch) == cur
      decreases MINUTES - m
    {
      var ch := 0;
      while ch < CHANNELS
        invariant 0 <= ch <= CHANNELS
        invariant forall ch' :: 0 <= ch' < ch ==> BidAt(f, m, ch') == 0 || BidAt(f, m, ch') == cur
      {
        if f.bids[MINUTES * ch + m] != 0 && f.bids[MINUTES * ch + m] != cur {
          assert BidAt(f, m, ch) != 0;
          return Hit(m, ch);
        }
        assert BidAt(f, m, ch) == f.bids[MINUTES * ch + m];
        ch := ch + 1;
      }
      m := m + 1;
    }
    return Miss;
  }

  /** The two inner loops of the backward search; `from` is exclusive. */
  method ScanDayBack(f: DayFile, from: int, cur: int) returns (h: DayHit)
    requires |f.bids| == MINUTES * CHANNELS && from <= MINUTES
    ensures h.Hit? ==> 0 <= h.m < from && 0 <= h.ch < CHANNELS && BidAt(f, h.m, h.ch) != 0 && BidAt(f, h.m, h.ch) != cur
    ensures forall m, ch :: 0 <= m < from && 0 <= ch < CHANNELS && BidAt(f, m, ch) != 0 && BidAt(f, m, ch) != cur ==>
      h.Hit? && AtMostBackwards(Slot(0, h.m, h.ch), Slot(0, m, ch))
  {
    var m := from - 1;
    while m >= 0
      invariant m < from
      invariant forall m', ch :: m < m' < from && 0 <= m' && 0 <= ch < CHANNELS ==> BidAt(f, m', ch) == 0 || BidAt(f, m', ch) == cur
    {
      var ch := 0;
      while ch < CHANNELS
        invariant 0 <= ch <= CHANNELS
        invariant forall ch' :: 0 <= ch' < ch ==> BidAt(f, m, ch') == 0 || BidAt(f, m, ch') == cur
      {
        if f.bids[MINUTES * ch + m] != 0 && f.bids[MINUTES * ch + m] != cur {
          assert BidAt(f, m, ch) != 0;
          return Hit(m, ch);
        }
        assert BidAt(f, m, ch) == f.bids[MINUTES * ch + m];
        ch := ch + 1;
      }
      m := m - 1;
    }
    return Miss;
  }

  // ---------------------------------------------------------------- over the days

  function DayOf(sec: int): int { sec / 86400 }

  function MinuteOf(sec: int): (m: int)
    ensures 0 <= m < MINUTES
  {
    sec % 86400 / 60
  }

  /** Begin and end time of a basket from its header. */
  datatype Times = Times(begin: int, end: int)

  datatype Result = Found(bid: int) | NotFound

  function SeedForward(sec: int, t: Times): int {
    if sec < t.end then t.end else sec
  }

  function SeedBackward(sec: int, t: Times): int {
    if t.begin < sec then t.begin else sec
  }

  /** The slots the forward search looks at.  The first file of the seed's day or later
      is searched from behind the seed's minute even when it is a later day's. */
  predicate Scanned(rdb: seq<DayFile>, seed: int, s: Slot)
    requires InTable(rdb, s)
  {
    rdb[s.i].day >= DayOf(seed) &&
    (s.m > MinuteOf(seed) || exists j :: 0 <= j < s.i && rdb[j].day >= DayOf(seed))
  }

  predicate ScannedBack(rdb: seq<DayFile>, seed: int, s: Slot)
    requires InTable(rdb, s)
  {
    rdb[s.i].day <= DayOf(seed) &&
    (s.m < MinuteOf(seed) || exists j :: s.i < j < |rdb| && rdb[j].day <= DayOf(seed))
  }

  /** s is the first neighbour slot the search looks at. */
  ghost predicate FirstScanned(rdb: seq<DayFile>, cur: int, seed: int, s: Slot) {
    Neighbour(rdb, cur, s) && Scanned(rdb, seed, s) &&
    forall t :: Neighbour(rdb, cur, t) && Scanned(rdb, seed, t) ==> AtMost(s, t)
  }

  ghost predicate LastScanned(rdb: seq<DayFile>, cur: int, seed: int, s: Slot) {
    Neighbour(rdb, cur, s) && ScannedBack(rdb, seed, s) &&
    forall t :: Neighbour(rdb, cur, t) && ScannedBack(rdb, seed, t) ==> AtMostBackwards(s, t)
  }

  /** BKTMD_SearchNextBID.  `times` is None when the basket's header cannot be read. */
  method SearchNextBID(rdb: seq<DayFile>, curbid: int, sec: int, recording: bool, times: seq<Times>) returns (r: Result)
    requires IsTable(rdb) && |times| <= 1
    ensures recording || times == [] ==> r == NotFound
    ensures !recording && times != [] ==> var seed := SeedForward(sec, times[0]);
      if r.Found? then exists s :: FirstScanned(rdb, curbid, seed, s) && Bid(rdb, s) == r.bid
      else forall s :: Neighbour(rdb, curbid, s) ==> !Scanned(rdb, seed, s)
  {
    if recording || times == [] {
      return NotFound;
    }
    var seed := sec;
    if sec < times[0].end {
      seed := times[0].end;
    }
    var start := MinuteOf(seed) + 1;
    var i := 0;
    while i < |rdb|
      invariant 0 <= i <= |rdb|
      invariant if exists j :: 0 <= j < i && rdb[j].day >= DayOf(seed) then start == 0 else start == MinuteOf(seed) + 1
      invariant forall s :: Neighbour(rdb, curbid, s) && s.i < i ==> !Scanned(rdb, seed, s)
    {
      if rdb[i].day >= DayOf(seed) {
        var h := ScanDay(rdb[i], start, curbid);
        if h.Hit? {
          ghost var s := Slot(i, h.m, h.ch);
          assert Neighbour(rdb, curbid, s) && Scanned(rdb, seed, s);
          forall t | Neighbour(rdb, curbid, t) && Scanned(rdb, seed, t)
            ensures AtMost(s, t)
          {
            if t.i == i {
              assert AtMost(Slot(0, h.m, h.ch), Slot(0, t.m, t.ch));
            }
          }
          assert FirstScanned(rdb, curbid, seed, s);
          return Found(rdb[i].bids[MINUTES * h.ch + h.m]);
        }
        start := 0;
      }
      i := i + 1;
    }
    return NotFound;
  }

  /** BKTMD_SearchPrevBID. */
  method SearchPrevBID(rdb: seq<DayFile>, curbid: int, sec: int, times: seq<Times>) returns (r: Result)
    requires IsTable(rdb) && |times| <= 1
    ensures times == [] ==> r == NotFound
    ensures times != [] ==> var seed := SeedBackward(sec, times[0]);
      if r.Found? then exists s :: LastScanned(rdb, curbid, seed, s) && Bid(rdb, s) == r.bid
      else forall s :: Neighbour(rdb, curbid, s) ==> !ScannedBack(rdb, seed, s)
  {
    if times == [] {
      return NotFound;
    }
    var seed := sec;
    if times[0].begin < sec {
      seed := times[0].begin;
    }
    var start := MinuteOf(seed);
    var i := |rdb| - 1;
    while i >= 0
      invariant -1 <= i < |rdb|
      invariant if exists j :: i < j < |rdb| && rdb[j].day <= DayOf(seed) then start == MINUTES else start == MinuteOf(seed)
      invariant forall s :: Neighbour(rdb, curbid, s) && s.i > i ==> !ScannedBack(rdb, seed, s)
    {
      if rdb[i].day <= DayOf(seed) {
        var h := ScanDayBack(rdb[i], start, curbid);
        if h.Hit? {
          ghost var s := Slot(i, h.m, h.ch);
          assert Neighbour(rdb, curbid, s) && ScannedBack(rdb, seed, s);
          forall t | Neighbour(rdb, curbid, t) && ScannedBack(rdb, seed, t)
            ensures AtMostBackwards(s, t)
          {
            if t.i == i {
              assert AtMostBackwards(Slot(0, h.m, h.ch), Slot(0, t.m, t.ch));
            }
          }
          assert LastScanned(rdb, curbid, seed, s);
          return Found(rdb[i].bids[MINUTES * h.ch + h.m]);
        }
        start := MINUTES;
      }
      i := i - 1;
    }
    return NotFound;
  }

  // ---------------------------------------------------------------- exactness

  /** Minutes since day 0. */
  function SlotMinute(rdb: seq<DayFile>, s: Slot): int
    requires InTable(rdb, s)
  {
    MINUTES * rdb[s.i].day + s.m
  }

  function AbsMinute(sec: int): int { sec / 60 }

  lemma AbsMinuteSplit(sec: int)
    ensures AbsMinute(sec) == MINUTES * DayOf(sec) + MinuteOf(sec)
  {
  }

  /** What the search is for: the first neighbour slot later than the seed's minute. */
  ghost predicate NextSlot(rdb: seq<DayFile>, cur: int, seed: int, s: Slot) {
    Neighbour(rdb, cur, s) && SlotMinute(rdb, s) > AbsMinute(seed) &&
    forall t :: Neighbour(rdb, cur, t) && SlotMinute(rdb, t) > AbsMinute(seed) ==> AtMost(s, t)
  }

  ghost predicate PrevSlot(rdb: seq<DayFile>, cur: int, seed: int, s: Slot) {
    Neighbour(rdb, cur, s) && SlotMinute(rdb, s) < AbsMinute(seed) &&
    forall t :: Neighbour(rdb, cur, t) && SlotMinute(rdb, t) < AbsMinute(seed) ==> AtMostBackwards(s, t)
  }

  /** The first file of the seed's day or later. */
  ghost predicate FirstFile(rdb: seq<DayFile>, seed: int, f: int) {
    0 <= f < |rdb| && rdb[f].day >= DayOf(seed) && (f > 0 ==> rdb[f - 1].day < DayOf(seed))
  }

  lemma ScannedIsEarlier(rdb: seq<DayFile>, seed: int, s: Slot)
    requires IsTable(rdb) && InTable(rdb, s) && ScannedBack(rdb, seed, s)
    ensures SlotMinute(rdb, s) < AbsMinute(seed)
  {
  }

  /** The search looks at every later slot but those at or before the seed's minute of
      the day in the first file, when that file is not the seed day's. */
  lemma ScannedExactly(rdb: seq<DayFile>, seed: int, f: int, s: Slot)
    requires IsTable(rdb) && InTable(rdb, s) && FirstFile(rdb, seed, f)
    ensures Scanned(rdb, seed, s) <==>
      SlotMinute(rdb, s) > AbsMinute(seed) && !(s.i == f && rdb[f].day > DayOf(seed) && s.m <= MinuteOf(seed))
  {
  }

  lemma NotBeforeFirstFile(rdb: seq<DayFile>, seed: int, f: int, s: Slot)
    requires IsTable(rdb) && FirstFile(rdb, seed, f) && InTable(rdb, s) && rdb[s.i].day >= DayOf(seed)
    ensures s.i >= f
  {
  }

  /** The forward search finds the true next slot if and only if the seed day has a file,
      or the first later file holds no neighbour at or before the seed's minute of the
      day. */
  lemma {:induction false} SearchNextIsExactIff(rdb: seq<DayFile>, cur: int, seed: int, f: int, s: Slot)
    requires IsTable(rdb) && FirstFile(rdb, seed, f) && FirstScanned(rdb, cur, seed, s)
    ensures NextSlot(rdb, cur, seed, s) <==>
      rdb[f].day == DayOf(seed) || !exists t :: Neighbour(rdb, cur, t) && t.i == f && t.m <= MinuteOf(seed)
  {
    ScannedExactly(rdb, seed, f, s);
    AbsMinuteSplit(seed);
    if rdb[f].day > DayOf(seed) && exists t :: Neighbour(rdb, cur, t) && t.i == f && t.m <= MinuteOf(seed) {
      var t :| Neighbour(rdb, cur, t) && t.i == f && t.m <= MinuteOf(seed);
      assert SlotMinute(rdb, t) > AbsMinute(seed);
      NotBeforeFirstFile(rdb, seed, f, s);
      assert !AtMost(s, t);
    } else {
      forall t | Neighbour(rdb, cur, t) && SlotMinute(rdb, t) > AbsMinute(seed)
        ensures AtMost(s, t)
      {
        ScannedExactly(rdb, seed, f, t);
      }
    }
  }

  /** When it finds nothing, there is no later neighbour, under the same condition. */
  lemma SearchNextMissIsExactIff(rdb: seq<DayFile>, cur: int, seed: int, f: int)
    requires IsTable(rdb) && FirstFile(rdb, seed, f)
    requires forall s :: Neighbour(rdb, cur, s) ==> !Scanned(rdb, seed, s)
    ensures (forall s :: Neighbour(rdb, cur, s) ==> SlotMinute(rdb, s) <= AbsMinute(seed)) <==>
      rdb[f].day == DayOf(seed) || !exists t :: Neighbour(rdb, cur, t) && t.i == f && t.m <= MinuteOf(seed)
  {
  }

  /** The last file of the seed's day or earlier. */
  ghost predicate LastFile(rdb: seq<DayFile>, seed: int, f: int) {
    0 <= f < |rdb| && rdb[f].day <= DayOf(seed) && (f + 1 < |rdb| ==> rdb[f + 1].day > DayOf(seed))
  }

  lemma ScannedBackExactly(rdb: seq<DayFile>, seed: int, f: int, s: Slot)
    requires IsTable(rdb) && InTable(rdb, s) && LastFile(rdb, seed, f)
    ensures ScannedBack(rdb, seed, s) <==>
      SlotMinute(rdb, s) < AbsMinute(seed) && !(s.i == f && rdb[f].day < DayOf(seed) && s.m >= MinuteOf(seed))
  {
  }

  lemma NotAfterLastFile(rdb: seq<DayFile>, seed: int, f: int, s: Slot)
    requires IsTable(rdb) && LastFile(rdb, seed, f) && InTable(rdb, s) && rdb[s.i].day <= DayOf(seed)
    ensures s.i <= f
  {
  }

  /** The mirror statement for the backward search. */
  lemma {:induction false} SearchPrevIsExactIff(rdb: seq<DayFile>, cur: int, seed: int, f: int, s: Slot)
    requires IsTable(rdb) && LastFile(rdb, seed, f) && LastScanned(rdb, cur, seed, s)
    ensures PrevSlot(rdb, cur, seed, s) <==>
      rdb[f].day == DayOf(seed) || !exists t :: Neighbour(rdb, cur, t) && t.i == f && t.m >= MinuteOf(seed)
  {
    ScannedBackExactly(rdb, seed, f, s);
    AbsMinuteSplit(seed);
    if rdb[f].day < DayOf(seed) && exists t :: Neighbour(rdb, cur, t) && t.i == f && t.m >= MinuteOf(seed) {
      var t :| Neighbour(rdb, cur, t) && t.i == f && t.m >= MinuteOf(seed);
      assert SlotMinute(rdb, t) < AbsMinute(seed);
      NotAfterLastFile(rdb, seed, f, s);
      assert !AtMostBackwards(s, t);
    } else {
      forall t | Neighbour(rdb, cur, t) && SlotMinute(rdb, t) < AbsMinute(seed)
        ensures AtMostBackwards(s, t)
      {
        ScannedBackExactly(rdb, seed, f, t);
      }
    }
  }

  lemma SearchPrevMissIsExactIff(rdb: seq<DayFile>, cur: int, seed: int, f: int)
    requires IsTable(rdb) && LastFile(rdb, seed, f)
    requires forall s :: Neighbour(rdb, cur, s) ==> !ScannedBack(rdb, seed, s)
    ensures (forall s :: Neighbour(rdb, cur, s) ==> SlotMinute(rdb, s) >= AbsMinute(seed)) <==>
      rdb[f].day == DayOf(seed) || !exists t :: Neighbour(rdb, cur, t) && t.i == f && t.m >= MinuteOf(seed)
  {
  }

  // ---------------------------------------------------------------- where they are not exact

  /** A day on which channel 0 names basket `early` in minute m and basket `late` in
      minute n. */
  function TwoCells(day: int, m: int, early: int, n: int, late: int): (f: DayFile)
    ensures |f.bids| == MINUTES * CHANNELS
  {
    DayFile(day, seq(MINUTES * CHANNELS, k => if k == m then early else if k == n then late else 0))
  }

  lemma {:induction false} TwoCellsSlots(day: int, m: int, early: int, n: int, late: int, cur: int, s: Slot)
    requires 0 <= m < MINUTES && 0 <= n < MINUTES && m != n && cur != early && cur != late && early != 0 && late != 0
    ensures Neighbour([TwoCells(day, m, early, n, late)], cur, s) <==> s == Slot(0, m, 0) || s == Slot(0, n, 0)
  {
    if InTable([TwoCells(day, m, early, n, late)], s) {
      assert Bid([TwoCells(day, m, early, n, late)], s) == TwoCells(day, m, early, n, late).bids[MINUTES * s.ch + s.m];
    }
  }

  /** Basket 1 ends in minute 20 of day 0, which has no file; on day 1 basket 2 starts in
      minute 10 and basket 3 in minute 30.  The forward search finds 3, not 2. */
  lemma {:induction false} NextSkipsEarlyMinutes(rdb: seq<DayFile>)
    requires rdb == [TwoCells(1, 10, 2, 30, 3)]
    ensures FirstScanned(rdb, 1, 20 * 60, Slot(0, 30, 0)) && Bid(rdb, Slot(0, 30, 0)) == 3
    ensures NextSlot(rdb, 1, 20 * 60, Slot(0, 10, 0)) && Bid(rdb, Slot(0, 10, 0)) == 2
  {
    forall t
      ensures Neighbour(rdb, 1, t) <==> t == Slot(0, 10, 0) || t == Slot(0, 30, 0)
    {
      TwoCellsSlots(1, 10, 2, 30, 3, 1, t);
    }
  }

  /** Basket 1 begins in minute 20 of day 1, which has no file; on day 0 basket 3 was
      recorded in minute 10 and basket 2 in minute 30.  The backward search finds 3. */
  lemma {:induction false} PrevSkipsLateMinutes(rdb: seq<DayFile>)
    requires rdb == [TwoCells(0, 10, 3, 30, 2)]
    ensures LastScanned(rdb, 1, 86400 + 20 * 60, Slot(0, 10, 0)) && Bid(rdb, Slot(0, 10, 0)) == 3
    ensures PrevSlot(rdb, 1, 86400 + 20 * 60, Slot(0, 30, 0)) && Bid(rdb, Slot(0, 30, 0)) == 2
  {
    forall t
      ensures Neighbour(rdb, 1, t) <==> t == Slot(0, 10, 0) || t == Slot(0, 30, 0)
    {
      TwoCellsSlots(0, 10, 3, 30, 2, 1, t);
    }
  }

  // ---------------------------------------------------------------- chasing neighbours

  /** Every slot of a basket lies within the basket's recorded time. */
  ghost predicate WithinTimes(rdb: seq<DayFile>, times: map<int, Times>) {
    forall s :: InTable(rdb, s) && Bid(rdb, s) != 0 ==>
      Bid(rdb, s) in times &&
      AbsMinute(times[Bid(rdb, s)].begin) <= SlotMinute(rdb, s) <= AbsMinute(times[Bid(rdb, s)].end)
  }

  /** One step: what SearchNextBID finds from basket b when the reader's clock is sec. */
  ghost predicate StepForward(rdb: seq<DayFile>, times: map<int, Times>, b: int, sec: int, b': int) {
    b in times && exists s :: FirstScanned(rdb, b, SeedForward(sec, times[b]), s) && Bid(rdb, s) == b'
  }

  ghost predicate StepBackward(rdb: seq<DayFile>, times: map<int, Times>, b: int, sec: int, b': int) {
    b in times && exists s :: LastScanned(rdb, b, SeedBackward(sec, times[b]), s) && Bid(rdb, s) == b'
  }

  /** Each search finds at most one basket. */
  lemma {:induction false} StepForwardIsUnique(rdb: seq<DayFile>, times: map<int, Times>, b: int, sec: int, x: int, y: int)
    requires StepForward(rdb, times, b, sec, x) && StepForward(rdb, times, b, sec, y)
    ensures x == y
  {
    var seed := SeedForward(sec, times[b]);
    var s :| FirstScanned(rdb, b, seed, s) && Bid(rdb, s) == x;
    var t :| FirstScanned(rdb, b, seed, t) && Bid(rdb, t) == y;
    assert AtMost(s, t) && AtMost(t, s);
  }

  lemma {:induction false} StepBackwardIsUnique(rdb: seq<DayFile>, times: map<int, Times>, b: int, sec: int, x: int, y: int)
    requires StepBackward(rdb, times, b, sec, x) && StepBackward(rdb, times, b, sec, y)
    ensures x == y
  {
    var seed := SeedBackward(sec, times[b]);
    var s :| LastScanned(rdb, b, seed, s) && Bid(rdb, s) == x;
    var t :| LastScanned(rdb, b, seed, t) && Bid(rdb, t) == y;
    assert AtMostBackwards(s, t) && AtMostBackwards(t, s);
  }

  /** A chase: baskets found one from the other, whatever the clock is in each. */
  ghost predicate ChaseForward(rdb: seq<DayFile>, times: map<int, Times>, bs: seq<int>, secs: seq<int>) {
    |secs| == |bs| && forall k :: 0 <= k < |bs| - 1 ==> StepForward(rdb, times, bs[k], secs[k], bs[k + 1])
  }

  ghost predicate ChaseBackward(rdb: seq<DayFile>, times: map<int, Times>, bs: seq<int>, secs: seq<int>) {
    |secs| == |bs| && forall k :: 0 <= k < |bs| - 1 ==> StepBackward(rdb, times, bs[k], secs[k], bs[k + 1])
  }

  lemma {:induction false} StepEndsLater(rdb: seq<DayFile>, times: map<int, Times>, b: int, sec: int, b': int)
    requires IsTable(rdb) && WithinTimes(rdb, times) && StepForward(rdb, times, b, sec, b')
    ensures b' in times && AbsMinute(times[b'].end) > AbsMinute(SeedForward(sec, times[b])) >= AbsMinute(times[b].end)
  {
  }

  lemma {:induction false} StepBeginsEarlier(rdb: seq<DayFile>, times: map<int, Times>, b: int, sec: int, b': int)
    requires IsTable(rdb) && WithinTimes(rdb, times) && StepBackward(rdb, times, b, sec, b')
    ensures b' in times && AbsMinute(times[b'].begin) < AbsMinute(SeedBackward(sec, times[b])) <= AbsMinute(times[b].begin)
  {
  }

  /** Along a forward chase the seeds' minutes strictly increase, so no basket is met
      twice. */
  lemma {:induction false} ChaseNeverRevisits(rdb: seq<DayFile>, times: map<int, Times>, bs: seq<int>, secs: seq<int>, j: nat, k: nat)
    requires IsTable(rdb) && WithinTimes(rdb, times) && ChaseForward(rdb, times, bs, secs)
    requires j < k < |bs| && bs[0] in times
    ensures bs[j] in times && bs[k] in times
    ensures AbsMinute(SeedForward(secs[j], times[bs[j]])) < AbsMinute(SeedForward(secs[k], times[bs[k]]))
    ensures bs[j] != bs[k]
    ensures AbsMinute(SeedForward(secs[j], times[bs[j]])) < AbsMinute(times[bs[k]].end)
    decreases k
  {
    assert StepForward(rdb, times, bs[k - 1], secs[k - 1], bs[k]);
    StepEndsLater(rdb, times, bs[k - 1], secs[k - 1], bs[k]);
    if j < k - 1 {
      ChaseNeverRevisits(rdb, times, bs, secs, j, k - 1);
    }
  }

  lemma {:induction false} ChaseBackNeverRevisits(rdb: seq<DayFile>, times: map<int, Times>, bs: seq<int>, secs: seq<int>, j: nat, k: nat)
    requires IsTable(rdb) && WithinTimes(rdb, times) && ChaseBackward(rdb, times, bs, secs)
    requires j < k < |bs| && bs[0] in times
    ensures bs[j] in times && bs[k] in times
    ensures AbsMinute(SeedBackward(secs[j], times[bs[j]])) > AbsMinute(SeedBackward(secs[k], times[bs[k]]))
    ensures bs[j] != bs[k]
    ensures AbsMinute(SeedBackward(secs[j], times[bs[j]])) > AbsMinute(times[bs[k]].begin)
    decreases k
  {
    assert StepBackward(rdb, times, bs[k - 1], secs[k - 1], bs[k]);
    StepBeginsEarlier(rdb, times, bs[k - 1], secs[k - 1], bs[k]);
    if j < k - 1 {
      ChaseBackNeverRevisits(rdb, times, bs, secs, j, k - 1);
    }
  }

  /** Hence a chase ends: it is no longer than there are baskets. */
  lemma {:induction false} ChaseIsFinite(rdb: seq<DayFile>, times: map<int, Times>, bs: seq<int>, secs: seq<int>)
    requires IsTable(rdb) && WithinTimes(rdb, times) && bs != [] && bs[0] in times
    requires ChaseForward(rdb, times, bs, secs) || ChaseBackward(rdb, times, bs, secs)
    ensures |bs| <= |times|
  {
    forall j, k | 0 <= j < k < |bs|
      ensures bs[j] != bs[k] && bs[k] in times.Keys
    {
      if ChaseForward(rdb, times, bs, secs) {
        ChaseNeverRevisits(rdb, times, bs, secs, j, k);
      } else {
        ChaseBackNeverRevisits(rdb, times, bs, secs, j, k);
      }
    }
    assert forall k :: 0 < k < |bs| ==> bs[0] != bs[k] && bs[k] in times.Keys;
    DistinctWithin(bs, times.Keys);
  }

  lemma {:induction false} DistinctWithin(bs: seq<int>, s: set<int>)
    requires forall j, k :: 0 <= j < k < |bs| ==> bs[j] != bs[k]
    requires forall k :: 0 <= k < |bs| ==> bs[k] in s
    ensures |bs| <= |s|
  {
    if bs != [] {
      var n := |bs| - 1;
      DistinctWithin(bs[..n], s - {bs[n]});
    }
  }

  // ---------------------------------------------------------------- back after forward

  /** The day of a time has a file. */
  ghost predicate HasDay(rdb: seq<DayFile>, sec: int) {
    exists i :: 0 <= i < |rdb| && rdb[i].day == DayOf(sec)
  }

  /** Among the minutes up to m, the last one in which anything was recorded has basket b
      in the lowest of its channels. */
  ghost predicate LastUpTo(rdb: seq<DayFile>, b: int, m: int) {
    exists s :: LastSlotUpTo(rdb, m, s) && Bid(rdb, s) == b
  }

  ghost predicate LastSlotUpTo(rdb: seq<DayFile>, m: int, s: Slot) {
    InTable(rdb, s) && Bid(rdb, s) != 0 && SlotMinute(rdb, s) <= m &&
    forall t :: InTable(rdb, t) && Bid(rdb, t) != 0 && SlotMinute(rdb, t) <= m ==> AtMostBackwards(s, t)
  }

  lemma ScannedWithDay(rdb: seq<DayFile>, seed: int, s: Slot)
    requires IsTable(rdb) && HasDay(rdb, seed) && InTable(rdb, s)
    ensures Scanned(rdb, seed, s) <==> SlotMinute(rdb, s) > AbsMinute(seed)
    ensures ScannedBack(rdb, seed, s) <==> SlotMinute(rdb, s) < AbsMinute(seed)
  {
    AbsMinuteSplit(seed);
  }

  function Min(a: int, b: int): int { if a < b then a else b }

  /** A search forward from b found b'.  The search back from b' finds b again if and only
      if b was the last to record, and in the lowest channel, of the minutes up to the one
      in which the forward search started and before the one in which b' begins. */
  lemma {:induction false} BackUndoesForwardIff(rdb: seq<DayFile>, times: map<int, Times>, b: int, sec: int, b': int, sec': int)
    requires IsTable(rdb) && WithinTimes(rdb, times) && b != 0 && b' in times
    requires StepForward(rdb, times, b, sec, b')
    requires HasDay(rdb, SeedForward(sec, times[b])) && HasDay(rdb, SeedBackward(sec', times[b']))
    ensures StepBackward(rdb, times, b', sec', b) <==>
      LastUpTo(rdb, b, Min(AbsMinute(SeedForward(sec, times[b])), AbsMinute(SeedBackward(sec', times[b'])) - 1))
  {
    var m := Min(AbsMinute(SeedForward(sec, times[b])), AbsMinute(SeedBackward(sec', times[b'])) - 1);
    if StepBackward(rdb, times, b', sec', b) {
      FoundIsLast(rdb, times, b, sec, b', sec', m);
    }
    if LastUpTo(rdb, b, m) {
      LastIsFound(rdb, times, b, sec, b', sec', m);
    }
  }

  lemma {:induction false} FoundIsLast(rdb: seq<DayFile>, times: map<int, Times>, b: int, sec: int, b': int, sec': int, m: int)
    requires IsTable(rdb) && WithinTimes(rdb, times) && b in times && b' in times
    requires HasDay(rdb, SeedBackward(sec', times[b'])) && StepBackward(rdb, times, b', sec', b)
    requires m == Min(AbsMinute(SeedForward(sec, times[b])), AbsMinute(SeedBackward(sec', times[b'])) - 1)
    ensures LastUpTo(rdb, b, m)
  {
    var back := SeedBackward(sec', times[b']);
    var s :| LastScanned(rdb, b', back, s) && Bid(rdb, s) == b;
    ScannedWithDay(rdb, back, s);
    forall t | InTable(rdb, t) && Bid(rdb, t) != 0 && SlotMinute(rdb, t) <= m
      ensures AtMostBackwards(s, t)
    {
      ScannedWithDay(rdb, back, t);
    }
    assert LastSlotUpTo(rdb, m, s);
  }

  lemma {:induction false} LastIsFound(rdb: seq<DayFile>, times: map<int, Times>, b: int, sec: int, b': int, sec': int, m: int)
    requires IsTable(rdb) && WithinTimes(rdb, times) && b' in times && StepForward(rdb, times, b, sec, b')
    requires HasDay(rdb, SeedForward(sec, times[b])) && HasDay(rdb, SeedBackward(sec', times[b']))
    requires m == Min(AbsMinute(SeedForward(sec, times[b])), AbsMinute(SeedBackward(sec', times[b'])) - 1)
    requires LastUpTo(rdb, b, m)
    ensures StepBackward(rdb, times, b', sec', b)
  {
    hide WithinTimes;
    var back := SeedBackward(sec', times[b']);
    var s :| LastSlotUpTo(rdb, m, s) && Bid(rdb, s) == b;
    ScannedWithDay(rdb, back, s);
    forall t | Neighbour(rdb, b', t) && ScannedBack(rdb, back, t)
      ensures AtMostBackwards(s, t)
    {
      NothingBetween(rdb, times, b, sec, b', sec', t);
    }
    assert LastScanned(rdb, b', back, s);
  }

  lemma AtMostIsEarlier(rdb: seq<DayFile>, s: Slot, t: Slot)
    requires IsTable(rdb) && InTable(rdb, s) && InTable(rdb, t)
    ensures AtMost(s, t) ==> SlotMinute(rdb, s) <= SlotMinute(rdb, t)
  {
  }

  /** Between the two minutes nothing was recorded. */
  lemma {:induction false} NothingBetween(rdb: seq<DayFile>, times: map<int, Times>, b: int, sec: int, b': int, sec': int, t: Slot)
    requires IsTable(rdb) && WithinTimes(rdb, times) && b' in times && StepForward(rdb, times, b, sec, b')
    requires HasDay(rdb, SeedForward(sec, times[b])) && HasDay(rdb, SeedBackward(sec', times[b']))
    requires Neighbour(rdb, b', t) && ScannedBack(rdb, SeedBackward(sec', times[b']), t)
    ensures SlotMinute(rdb, t) <= Min(AbsMinute(SeedForward(sec, times[b])), AbsMinute(SeedBackward(sec', times[b'])) - 1)
  {
    var seed, back := SeedForward(sec, times[b]), SeedBackward(sec', times[b']);
    ScannedWithDay(rdb, back, t);
    ScannedWithDay(rdb, seed, t);
    var s :| FirstScanned(rdb, b, seed, s) && Bid(rdb, s) == b';
    AtMostIsEarlier(rdb, s, t);
    assert SlotMinute(rdb, t) > AbsMinute(seed) ==> Neighbour(rdb, b, t);
  }

  ghost predicate Named(rdb: seq<DayFile>, b: int) {
    exists s :: InTable(rdb, s) && Bid(rdb, s) == b
  }

  lemma StepNames(rdb: seq<DayFile>, times: map<int, Times>, b: int, sec: int, b': int, m: int)
    ensures StepForward(rdb, times, b, sec, b') || StepBackward(rdb, times, b, sec, b') ==> Named(rdb, b') && b' != 0
    ensures LastUpTo(rdb, b', m) ==> Named(rdb, b')
  {
  }

  /** A basket of one day that the table names has a file for that day. */
  lemma {:induction false} NamedHasDay(rdb: seq<DayFile>, times: map<int, Times>, b: int, sec: int)
    requires IsTable(rdb) && WithinTimes(rdb, times) && Named(rdb, b) && b != 0
    ensures b in times && (DayOf(times[b].begin) == DayOf(times[b].end) == DayOf(sec) ==> HasDay(rdb, sec))
  {
    var s :| InTable(rdb, s) && Bid(rdb, s) == b;
    AbsMinuteSplit(times[b].begin);
    AbsMinuteSplit(times[b].end);
    assert rdb[s.i].day == DayOf(sec) || !(DayOf(times[b].begin) == DayOf(times[b].end) == DayOf(sec));
  }

  /** Of baskets that each lie on one day, with the clock within their times, the search back
      finds the one that the search forward left if and only if that was the last to record,
      and in the lowest channel, of the minutes up to its end and before the next one's
      begin.  Both sides name it, so the days have files. */
  lemma {:induction false} BackUndoesForwardOnOneDayIff(rdb: seq<DayFile>, times: map<int, Times>, b: int, sec: int, b': int, sec': int)
    requires IsTable(rdb) && WithinTimes(rdb, times) && b != 0 && b in times && b' in times && StepForward(rdb, times, b, sec, b')
    requires DayOf(times[b].begin) == DayOf(times[b].end) && times[b].begin <= sec <= times[b].end
    requires DayOf(times[b'].begin) == DayOf(times[b'].end) && times[b'].begin <= sec' <= times[b'].end
    ensures StepBackward(rdb, times, b', sec', b) <==>
      LastUpTo(rdb, b, Min(AbsMinute(times[b].end), AbsMinute(times[b'].begin) - 1))
  {
    hide WithinTimes, IsTable, StepForward, StepBackward, LastUpTo, Named, HasDay, DayOf, AbsMinute;
    var m := Min(AbsMinute(times[b].end), AbsMinute(times[b'].begin) - 1);
    StepNames(rdb, times, b, sec, b', m);
    StepNames(rdb, times, b', sec', b, m);
    NamedHasDay(rdb, times, b', times[b'].begin);
    if StepBackward(rdb, times, b', sec', b) || LastUpTo(rdb, b, m) {
      NamedHasDay(rdb, times, b, times[b].end);
      BackUndoesForwardIff(rdb, times, b, sec, b', sec');
    }
  }

  /** So a basket that was recorded within the minute in which the next one begins is
      never found again from that one. */
  lemma {:induction false} OneMinuteIsSkipped(rdb: seq<DayFile>, times: map<int, Times>, b: int, b': int, sec': int)
    requires IsTable(rdb) && WithinTimes(rdb, times) && b in times && b' in times && HasDay(rdb, SeedBackward(sec', times[b']))
    requires AbsMinute(SeedBackward(sec', times[b'])) <= AbsMinute(times[b].begin) && b != 0
    ensures !StepBackward(rdb, times, b', sec', b)
  {
    if StepBackward(rdb, times, b', sec', b) {
      var s :| LastScanned(rdb, b', SeedBackward(sec', times[b']), s) && Bid(rdb, s) == b;
      ScannedWithDay(rdb, SeedBackward(sec', times[b']), s);
    }
  }

  /** Three baskets in three minutes, the second recorded within its minute, in which the
      third begins: forward the searches lead from 1 to 2 to 3, and back from 3 to 1. */
  lemma {:induction false} BackSkipsOne(rdb: seq<DayFile>, times: map<int, Times>)
    requires rdb == [ThreeCells()]
    requires times == map[1 := Times(45000, 45239), 2 := Times(45240, 45280), 3 := Times(45280, 45360)]
    ensures IsTable(rdb) && WithinTimes(rdb, times)
    ensures StepForward(rdb, times, 1, 45000, 2) && StepForward(rdb, times, 2, 45240, 3)
    ensures StepBackward(rdb, times, 3, 45300, 1) && !StepBackward(rdb, times, 3, 45300, 2)
  {
    forall s
      ensures InTable(rdb, s) && Bid(rdb, s) != 0 <==> s == Slot(0, 753, 0) || s == Slot(0, 754, 0) || s == Slot(0, 755, 0)
    {
      if InTable(rdb, s) {
        assert Bid(rdb, s) == ThreeCells().bids[MINUTES * s.ch + s.m];
      }
    }
    assert Bid(rdb, Slot(0, 753, 0)) == 1 && Bid(rdb, Slot(0, 754, 0)) == 2 && Bid(rdb, Slot(0, 755, 0)) == 3;
    assert FirstScanned(rdb, 1, 45239, Slot(0, 754, 0));
    assert FirstScanned(rdb, 2, 45280, Slot(0, 755, 0));
    assert LastScanned(rdb, 3, 45280, Slot(0, 753, 0));
    assert HasDay(rdb, 45280) by {
      assert rdb[0].day == DayOf(45280);
    }
    OneMinuteIsSkipped(rdb, times, 2, 3, 45300);
  }

  function ThreeCells(): (f: DayFile)
    ensures |f.bids| == MINUTES * CHANNELS
  {
    DayFile(0, seq(MINUTES * CHANNELS, k => if k == 753 then 1 else if k == 754 then 2 else if k == 755 then 3 else 0))
  }
}
