/** Which basket is recorded to next, on one disk in recycle mode, and what that does to
    the minute table (src/basket_rec.c): the basket manager file, the searches for an
    empty or the oldest basket, and the table's part of writing a frame. */
module Recycling {
  import opened Layout
  import opened MinuteTable
  import S = RdbSearch

  const NO_TIME := 0x7fffffff

  // ---------------------------------------------------------------- times of a basket

  /** The earliest of the times that are set. */
  function MinTs(ts: seq<int>): (m: int)
    ensures m <= NO_TIME
  {
    if ts == [] then NO_TIME
    else
      var m, t := MinTs(ts[..|ts| - 1]), ts[|ts| - 1];
      if t != 0 && t < m then t else m
  }

  function MaxTs(ts: seq<int>): (m: int)
    ensures m >= 0
  {
    if ts == [] then 0
    else
      var m, t := MaxTs(ts[..|ts| - 1]), ts[|ts| - 1];
      if t > m then t else m
  }

  lemma {:induction false} MinTsIsLeast(ts: seq<int>, c: nat)
    requires c < |ts| && ts[c] != 0
    ensures MinTs(ts) <= ts[c] <= MaxTs(ts) || ts[c] < 0
    ensures MinTs(ts) <= ts[c]
  {
    if c < |ts| - 1 {
      MinTsIsLeast(ts[..|ts| - 1], c);
    }
  }

  /** It is one of the times, unless none is set. */
  lemma {:induction false} MinTsIsOne(ts: seq<int>)
    ensures MinTs(ts) == NO_TIME || exists c :: 0 <= c < |ts| && ts[c] == MinTs(ts) != 0
  {
    if ts != [] {
      var first := ts[..|ts| - 1];
      MinTsIsOne(first);
      if MinTs(ts) == MinTs(first) != NO_TIME {
        var c :| 0 <= c < |first| && first[c] == MinTs(first) != 0;
        assert ts[c] == MinTs(ts);
      } else if MinTs(ts) != NO_TIME {
        assert ts[|ts| - 1] == MinTs(ts);
      }
    }
  }

  /** BKT_GetMinTS. */
  method GetMinTs(ts: seq<int>) returns (m: int)
    ensures m == MinTs(ts)
  {
    m := NO_TIME;
    var c := 0;
    while c < |ts|
      invariant 0 <= c <= |ts| && m == MinTs(ts[..c])
    {
      assert ts[..c + 1][..c] == ts[..c];
      if ts[c] != 0 && ts[c] < m {
        m := ts[c];
      }
      c := c + 1;
    }
    assert ts[..c] == ts;
  }

  predicate IsSec(t: int) { 0 <= t <= NO_TIME }

  /** The times of a basket cover its I-frames, and are all on one day. */
  ghost predicate Covers(u: Use, d: int) {
    |u.t1| == MAX_CHANNEL && |u.t2| == MAX_CHANNEL &&
    (forall c :: 0 <= c < MAX_CHANNEL ==> IsSec(u.t1[c]) && IsSec(u.t2[c]) && (u.t1[c] != 0 ==> u.t1[c] <= u.t2[c])) &&
    (forall c :: 0 <= c < MAX_CHANNEL && u.t1[c] != 0 ==> S.DayOf(u.t1[c]) == d) &&
    (forall c :: 0 <= c < MAX_CHANNEL && u.t2[c] != 0 ==> S.DayOf(u.t2[c]) == d) &&
    forall k :: 0 <= k < |u.entries| ==> EntryWithin(u, u.entries[k])
  }

  ghost predicate EntryWithin(u: Use, e: IdxEntry)
    requires |u.t1| == MAX_CHANNEL && |u.t2| == MAX_CHANNEL
  {
    0 <= e.ch < MAX_CHANNEL && u.t1[e.ch] != 0 && u.t1[e.ch] <= e.ts.sec <= u.t2[e.ch]
  }

  ghost predicate AllCover(uses: map<int, Use>) {
    forall b :: b in uses ==> exists d :: Covers(uses[b], d)
  }

  /** A right cell lies between the times of its basket, which are on its day. */
  lemma {:induction false} RightIsWithin(uses: map<int, Use>, bid: int, pos: int, ch: int, day: int, minute: int)
    requires AllCover(uses) && Right(uses, bid, pos, ch, day, minute)
    ensures bid in uses
    ensures var u := uses[bid];
      |u.t1| == |u.t2| == MAX_CHANNEL && MinTs(u.t1) / 60 <= S.MINUTES * day + minute <= MaxTs(u.t2) / 60 &&
      S.DayOf(MinTs(u.t2)) == day && exists c :: 0 <= c < |u.t2| && u.t2[c] != 0 && S.DayOf(u.t2[c]) == day
  {
    hide MinTs, MaxTs;
    var u := uses[bid];
    var d :| Covers(u, d);
    var e := u.entries[IndexPosToNum(pos)];
    assert EntryWithin(u, e);
    MinTsIsLeast(u.t1, e.ch);
    MinTsIsLeast(u.t2, e.ch);
    MinTsIsOne(u.t2);
    SameDayBetween(u.t1[e.ch], e.ts.sec, u.t2[e.ch], d);
    S.AbsMinuteSplit(e.ts.sec);
    if MinTs(u.t2) == NO_TIME {
      assert MinTs(u.t2) == u.t2[e.ch];
    }
  }

  lemma SameDayBetween(a: int, b: int, c: int, d: int)
    requires a <= b <= c && S.DayOf(a) == d && S.DayOf(c) == d
    ensures S.DayOf(b) == d
  {
  }

  /** What BKTMD_GetBasketTime reads from the headers of the baskets. */
  function TimesOf(uses: map<int, Use>): map<int, S.Times> {
    map b | b in uses :: S.Times(MinTs(uses[b].t1), MaxTs(uses[b].t2))
  }

  /** The files of the table as a reader finds them. */
  ghost predicate Shows(rdb: seq<S.DayFile>, t: Table) {
    S.IsTable(rdb) && forall i :: 0 <= i < |rdb| ==> rdb[i].day in t && ShowsDay(rdb[i].bids, t[rdb[i].day])
  }

  ghost predicate ShowsDay(bids: seq<int>, cells: seq<Cell>) {
    |bids| == |cells| == SLOTS && forall j :: 0 <= j < SLOTS ==> bids[j] == cells[j].bid
  }

  /** In a right table every cell of a basket lies within the times of its header, so
      that chasing neighbours ends. */
  lemma {:induction false} RightTableIsWithinTimes(uses: map<int, Use>, t: Table, rdb: seq<S.DayFile>)
    requires AllCover(uses) && RightTable(uses, t) && Shows(rdb, t)
    ensures S.WithinTimes(rdb, TimesOf(uses))
  {
    hide MinTs, MaxTs, Covers, AllCover, Right;
    forall s | S.InTable(rdb, s) && S.Bid(rdb, s) != 0
      ensures S.Bid(rdb, s) in uses
      ensures S.AbsMinute(MinTs(uses[S.Bid(rdb, s)].t1)) <= S.SlotMinute(rdb, s)
      ensures S.SlotMinute(rdb, s) <= S.AbsMinute(MaxTs(uses[S.Bid(rdb, s)].t2))
    {
      var d, j := rdb[s.i].day, S.MINUTES * s.ch + s.m;
      assert ShowsDay(rdb[s.i].bids, t[d]);
      assert j / S.MINUTES == s.ch && j % S.MINUTES == s.m;
      assert RightDay(uses, d, t[d]);
      assert RightCell(uses, t[d][j], d, j);
      RightIsWithin(uses, t[d][j].bid, t[d][j].pos, j / S.MINUTES, d, j % S.MINUTES);
    }
  }

  /** The times in the headers while basket cur is being recorded: its own header has none
      yet, for which BKT_GetMinTS and BKT_GetMaxTS answer 0x7fffffff and 0. */
  function HeaderTimes(uses: map<int, Use>, cur: int): map<int, S.Times> {
    map b | b in uses :: if b == cur then S.Times(NO_TIME, 0) else S.Times(MinTs(uses[b].t1), MaxTs(uses[b].t2))
  }

  /** No other basket in the table begins after basket cur, to the minute. */
  ghost predicate Newest(uses: map<int, Use>, cur: int) {
    cur in uses ==>
      forall b, k :: b in uses && b != cur && uses[b].entries != [] && 0 <= k < |uses[cur].entries| ==>
        S.AbsMinute(MinTs(uses[b].t1)) <= S.AbsMinute(uses[cur].entries[k].ts.sec)
  }

  /** Chasing forward through the table by the times in the headers ends.  Nothing is
      searched from the basket being recorded, so only the last one can be that. */
  lemma {:induction false} RecordedChaseForwardEnds(uses: map<int, Use>, t: Table, rdb: seq<S.DayFile>, cur: int, bs: seq<int>, secs: seq<int>)
    requires AllCover(uses) && RightTable(uses, t) && Shows(rdb, t) && bs != [] && bs[0] in uses
    requires S.ChaseForward(rdb, HeaderTimes(uses, cur), bs, secs) && forall k :: 0 <= k < |bs| - 1 ==> bs[k] != cur
    ensures |bs| <= |uses|
  {
    hide MinTs, MaxTs, AllCover, RightTable, S.WithinTimes, S.FirstScanned, S.SeedForward;
    RightTableIsWithinTimes(uses, t, rdb);
    forall k | 0 <= k < |bs| - 1
      ensures S.StepForward(rdb, TimesOf(uses), bs[k], secs[k], bs[k + 1])
    {
      assert S.StepForward(rdb, HeaderTimes(uses, cur), bs[k], secs[k], bs[k + 1]);
    }
    S.ChaseIsFinite(rdb, TimesOf(uses), bs, secs);
    SameSize(uses);
  }

  lemma {:induction false} SameSize(uses: map<int, Use>)
    ensures |TimesOf(uses)| == |uses|
  {
    assert TimesOf(uses).Keys == uses.Keys;
    assert |TimesOf(uses)| == |TimesOf(uses).Keys|;
  }

  /** Going back, from the basket being recorded or from one that has an I-frame, never
      leads to the one being recorded. */
  lemma {:induction false} BackNeverFindsNewest(uses: map<int, Use>, t: Table, rdb: seq<S.DayFile>, cur: int, b: int, sec: int, b': int)
    requires AllCover(uses) && RightTable(uses, t) && Shows(rdb, t) && Newest(uses, cur)
    requires b in uses && (b == cur || uses[b].entries != []) && S.StepBackward(rdb, HeaderTimes(uses, cur), b, sec, b')
    ensures b' != cur && b' in uses && uses[b'].entries != []
  {
    hide MinTs, MaxTs, Covers, AllCover;
    var seed := S.SeedBackward(sec, HeaderTimes(uses, cur)[b]);
    var s :| S.LastScanned(rdb, b, seed, s) && S.Bid(rdb, s) == b';
    S.ScannedIsEarlier(rdb, seed, s);
    var d, j := rdb[s.i].day, S.MINUTES * s.ch + s.m;
    assert ShowsDay(rdb[s.i].bids, t[d]);
    assert j / S.MINUTES == s.ch && j % S.MINUTES == s.m;
    assert RightDay(uses, d, t[d]);
    assert RightCell(uses, t[d][j], d, j);
    S.AbsMinuteSplit(uses[b'].entries[IndexPosToNum(t[d][j].pos)].ts.sec);
  }

  lemma {:induction false} BackAvoidsNewest(uses: map<int, Use>, t: Table, rdb: seq<S.DayFile>, cur: int, bs: seq<int>, secs: seq<int>, k: nat)
    requires AllCover(uses) && RightTable(uses, t) && Shows(rdb, t) && Newest(uses, cur)
    requires 0 < k < |bs| && bs[0] in uses && (bs[0] == cur || uses[bs[0]].entries != [])
    requires S.ChaseBackward(rdb, HeaderTimes(uses, cur), bs, secs)
    ensures bs[k] != cur && bs[k] in uses && uses[bs[k]].entries != []
  {
    hide AllCover, RightTable, Newest, S.StepBackward, HeaderTimes;
    if k > 1 {
      BackAvoidsNewest(uses, t, rdb, cur, bs, secs, k - 1);
    }
    assert S.StepBackward(rdb, HeaderTimes(uses, cur), bs[k - 1], secs[k - 1], bs[k]);
    BackNeverFindsNewest(uses, t, rdb, cur, bs[k - 1], secs[k - 1], bs[k]);
  }

  /** Chasing back ends too, from the basket being recorded or from any other one that has
      an I-frame. */
  lemma {:induction false} RecordedChaseBackEnds(uses: map<int, Use>, t: Table, rdb: seq<S.DayFile>, cur: int, bs: seq<int>, secs: seq<int>)
    requires AllCover(uses) && RightTable(uses, t) && Shows(rdb, t) && Newest(uses, cur)
    requires bs != [] && bs[0] in uses && (bs[0] == cur || uses[bs[0]].entries != [])
    requires S.ChaseBackward(rdb, HeaderTimes(uses, cur), bs, secs)
    ensures |bs| <= |uses|
  {
    hide MinTs, MaxTs, AllCover, RightTable, S.WithinTimes, S.LastScanned, S.SeedBackward, Newest;
    RightTableIsWithinTimes(uses, t, rdb);
    var from := if bs[0] == cur then 1 else 0;
    forall k | 0 < k < |bs|
      ensures bs[k] != cur && bs[k] in uses
    {
      BackAvoidsNewest(uses, t, rdb, cur, bs, secs, k);
    }
    forall k | 0 <= k < |bs[from..]| - 1
      ensures S.StepBackward(rdb, TimesOf(uses), bs[from..][k], secs[from..][k], bs[from..][k + 1])
    {
      assert S.StepBackward(rdb, HeaderTimes(uses, cur), bs[from + k], secs[from + k], bs[from + k + 1]);
    }
    forall j, k | 0 <= j < k < |bs|
      ensures bs[j] != bs[k]
    {
      if j >= from {
        S.ChaseBackNeverRevisits(rdb, TimesOf(uses), bs[from..], secs[from..], j - from, k - from);
      }
    }
    assert |uses| == |uses.Keys|;
    S.DistinctWithin(bs, uses.Keys);
  }

  // ---------------------------------------------------------------- the manager file

  datatype Flag = Empty | Using | Stopped | Full

  /** T_BKTMGR_BODY; the body at position i is that of basket i + 1. */
  datatype Body = Body(flag: Flag, t2: seq<int>)

  /** BKTREC_searchEmptyBasket; BKT_ERR (-1) if there is none. */
  method SearchEmptyBasket(bodies: seq<Body>) returns (bid: int)
    ensures bid == -1 ==> forall i :: 0 <= i < |bodies| ==> bodies[i].flag != Empty
    ensures bid != -1 ==> 1 <= bid <= |bodies| && bodies[bid - 1].flag == Empty
    ensures forall i :: 0 <= i < bid - 1 ==> bodies[i].flag != Empty
  {
    var i := 0;
    while i < |bodies|
      invariant 0 <= i <= |bodies|
      invariant forall j :: 0 <= j < i ==> bodies[j].flag != Empty
    {
      if bodies[i].flag == Empty {
        return i + 1;
      }
      i := i + 1;
    }
    return -1;
  }

  /** The search looks at the first body whatever its flag, and at full ones. */
  predicate Candidate(bodies: seq<Body>, i: int) {
    0 <= i < |bodies| && (i == 0 || bodies[i].flag == Full)
  }

  /** The first of the candidates whose earliest end time is least. */
  ghost predicate IsOldest(bodies: seq<Body>, bid: int) {
    Candidate(bodies, bid - 1) &&
    (forall i :: Candidate(bodies, i) ==> MinTs(bodies[bid - 1].t2) <= MinTs(bodies[i].t2)) &&
    (forall i :: Candidate(bodies, i) && i < bid - 1 ==> MinTs(bodies[bid - 1].t2) < MinTs(bodies[i].t2))
  }

  method SearchOldestBasket(bodies: seq<Body>) returns (bid: int, minTs: int)
    ensures if bodies == [] then bid == -1 else IsOldest(bodies, bid) && minTs == MinTs(bodies[bid - 1].t2)
  {
    hide MinTs;
    if bodies == [] {
      return -1, 0;
    }
    minTs := GetMinTs(bodies[0].t2);
    bid := 1;
    var i := 1;
    while i < |bodies|
      invariant 1 <= i <= |bodies| && 1 <= bid <= i
      invariant Candidate(bodies, bid - 1) && minTs == MinTs(bodies[bid - 1].t2)
      invariant forall j :: Candidate(bodies, j) && j < i ==> minTs <= MinTs(bodies[j].t2)
      invariant forall j :: Candidate(bodies, j) && j < bid - 1 ==> minTs < MinTs(bodies[j].t2)
    {
      if bodies[i].flag == Full {
        var ts := GetMinTs(bodies[i].t2);
        var tmp := if ts < minTs then ts else minTs;
        if tmp != minTs {
          minTs := tmp;
          bid := i + 1;
        }
      }
      i := i + 1;
    }
  }

  // ---------------------------------------------------------------- recycling

  /** All full, and their times those of what they hold. */
  ghost predicate AllFull(bodies: seq<Body>, uses: map<int, Use>) {
    (forall i :: 0 <= i < |bodies| ==> bodies[i].flag == Full && i + 1 in uses && uses[i + 1].t2 == bodies[i].t2) &&
    forall b :: b in uses ==> 1 <= b <= |bodies|
  }

  /** Recycling is safe: once the oldest basket has been picked and removed from the
      table, no cell names it, and every other cell is still there. */
  lemma {:induction false} RecyclingIsSafe(bodies: seq<Body>, uses: map<int, Use>, t: Table, bid: int)
    requires AllFull(bodies, uses) && AllCover(uses) && IsTable(t) && RightTable(uses, t) && IsOldest(bodies, bid)
    ensures var t' := Removed(t, bid, MinTs(bodies[bid - 1].t2));
      Nowhere(t', bid) && Keeps(t, t', bid)
  {
    hide MinTs, Covers, Right, Removed;
    var sec := MinTs(bodies[bid - 1].t2);
    forall b, d | b != 0 && OnDay(t, b, d)
      ensures b in uses && d == S.DayOf(MinTs(bodies[b - 1].t2))
    {
      NamedDay(uses, t, b, d);
    }
    forall d, b | b != 0 && b != bid && OnDay(t, b, d)
      ensures d >= S.DayOf(sec)
    {
      assert Candidate(bodies, b - 1);
    }
    RemovedIsNowhereIff(t, bid, sec);
    RemovedKeepsIff(t, bid, sec);
  }

  lemma {:induction false} NamedDay(uses: map<int, Use>, t: Table, b: int, d: int)
    requires AllCover(uses) && IsTable(t) && RightTable(uses, t) && b != 0 && OnDay(t, b, d)
    ensures b in uses && d == S.DayOf(MinTs(uses[b].t2))
  {
    hide MinTs, Covers;
    var i :| 0 <= i < |t[d]| && t[d][i].bid == b;
    assert RightDay(uses, d, t[d]);
    assert RightCell(uses, t[d][i], d, i);
    RightIsWithin(uses, b, t[d][i].pos, i / S.MINUTES, d, i % S.MINUTES);
  }

  /** Without the file of its first day (it cannot be read, or was never written) the
      removal only deletes earlier files: what other baskets have stays. */
  lemma {:induction false} FailedRemovalKeeps(bodies: seq<Body>, uses: map<int, Use>, t: Table, bid: int)
    requires AllFull(bodies, uses) && AllCover(uses) && IsTable(t) && RightTable(uses, t) && IsOldest(bodies, bid)
    ensures var sec := MinTs(bodies[bid - 1].t2); var t' := map d | d in t && d >= S.DayOf(sec) :: t[d];
      Keeps(t, t', bid) && (S.DayOf(sec) !in t ==> Nowhere(t', bid))
  {
    hide MinTs, Covers, Right;
    RecyclingIsSafe(bodies, uses, t, bid);
    var sec := MinTs(bodies[bid - 1].t2);
    assert S.DayOf(sec) !in t ==> (map d | d in t && d >= S.DayOf(sec) :: t[d]) == Removed(t, bid, sec);
    assert forall d :: d in Removed(t, bid, sec) <==> d in t && d >= S.DayOf(sec);
  }

  // ---------------------------------------------------------------- round robin

  ghost predicate Increasing(ends: seq<int>) {
    forall i, j :: 0 <= i < j < |ends| ==> ends[i] < ends[j]
  }

  /** After |ends| baskets have been filled in turn, and one more is perhaps in use: the
      last of them are in the bodies that follow in rotation, and bodies never used are
      empty. */
  ghost predicate Rotated(bodies: seq<Body>, ends: seq<int>, busy: nat) {
    (forall i :: 0 <= i < |ends| && i >= |ends| + busy - |bodies| ==>
       var b := bodies[i % |bodies|]; b.flag == Full && MinTs(b.t2) == ends[i]) &&
    forall b :: |ends| + busy <= b < |bodies| ==> bodies[b].flag == Empty
  }

  lemma {:induction false} ModInWindow(n: int, c: int, i: int)
    requires 0 < n && c - n < i < c && 0 <= i
    ensures i % n != c % n
  {
    var k := c / n - i / n;
    assert c - i == n * k + (c % n - i % n);
    assert k >= 1 ==> n * k >= n;
    assert k <= 0 ==> n * k <= 0;
  }

  /** Every body is among the last n, where n is the number of bodies. */
  lemma {:induction false} InWindow(n: int, c: int, b: int) returns (i: int)
    requires 0 <= b < n <= c
    ensures c - n <= i < c && i % n == b
  {
    var r := (c - 1 - b) % n;
    var q := (c - 1 - b) / n;
    i := c - 1 - r;
    assert i == b + n * q;
    assert (b + n * q) % n == b by { ModOfSum(n, b, q); }
  }

  lemma {:induction false} ModOfSum(n: int, b: int, q: int)
    requires 0 <= b < n
    ensures (b + n * q) % n == b
  {
    var x := b + n * q;
    assert x == n * (x / n) + x % n;
    var k := x / n - q;
    assert b - x % n == n * k;
    assert k >= 1 ==> n * k >= n;
    assert k <= -1 ==> n * k <= -n;
  }

  lemma {:induction false} ModMinus(n: int, c: int)
    requires 0 < n <= c
    ensures (c - n) % n == c % n
  {
    ModOfSum(n, c % n, c / n - 1);
    assert c - n == c % n + n * (c / n - 1);
  }

  /** Filling the next body in turn. */
  lemma {:induction false} RotatedNext(bodies: seq<Body>, ends: seq<int>, filled: Body)
    requires bodies != [] && Rotated(bodies, ends, 1) && filled.flag == Full
    ensures Rotated(bodies[|ends| % |bodies| := filled], ends + [MinTs(filled.t2)], 0)
  {
    hide MinTs;
    var n, c := |bodies|, |ends|;
    var bodies', ends' := bodies[c % n := filled], ends + [MinTs(filled.t2)];
    forall i | 0 <= i < c + 1 && i >= c + 1 - n
      ensures bodies'[i % n].flag == Full && MinTs(bodies'[i % n].t2) == ends'[i]
    {
      if i < c {
        ModInWindow(n, c, i);
      }
    }
    forall b | c + 1 <= b < n
      ensures bodies'[b].flag == Empty
    {
      SmallMod(n, c);
    }
  }

  /** Taking the next body in turn into use. */
  lemma {:induction false} RotatedTaken(bodies: seq<Body>, ends: seq<int>, used: Body)
    requires bodies != [] && Rotated(bodies, ends, 0)
    ensures Rotated(bodies[|ends| % |bodies| := used], ends, 1)
  {
    hide MinTs;
    var n, c := |bodies|, |ends|;
    var bodies' := bodies[c % n := used];
    forall i | 0 <= i < c && i >= c + 1 - n
      ensures bodies'[i % n] == bodies[i % n]
    {
      ModInWindow(n, c, i);
    }
    if c < n {
      SmallMod(n, c);
    }
  }

  lemma SmallMod(n: int, c: int)
    requires 0 <= c < n
    ensures c % n == c
  {
  }

  lemma FilledInTurn(bodies: seq<Body>, ends: seq<int>, i: int)
    requires bodies != [] && Rotated(bodies, ends, 0)
    ensures 0 <= i < |ends| && i >= |ends| - |bodies| ==> bodies[i % |bodies|].flag == Full
    ensures 0 <= i < |ends| && i >= |ends| - |bodies| ==> MinTs(bodies[i % |bodies|].t2) == ends[i]
    ensures |ends| <= i < |bodies| ==> bodies[i].flag == Empty
  {
  }

  /** While there are empty bodies, the first of them is the next in turn. */
  lemma {:induction false} FirstEmptyIsNext(bodies: seq<Body>, ends: seq<int>, bid: int)
    requires Rotated(bodies, ends, 0) && 1 <= bid <= |bodies| && bodies[bid - 1].flag == Empty
    requires forall i :: 0 <= i < bid - 1 ==> bodies[i].flag != Empty
    ensures bid == |ends| % |bodies| + 1 && |ends| < |bodies|
  {
    var n, c := |bodies|, |ends|;
    if c >= n {
      var i := InWindow(n, c, bid - 1);
      FilledInTurn(bodies, ends, i);
    } else {
      SmallMod(n, c);
      SmallMod(n, bid - 1);
      FilledInTurn(bodies, ends, bid - 1);
      assert bodies[c].flag == Empty;
    }
  }

  /** Later, if the earliest end times increase from each filled basket to the next, the
      oldest is the next in turn. */
  lemma {:induction false} OldestIsNext(bodies: seq<Body>, ends: seq<int>, bid: int)
    requires bodies != [] && Rotated(bodies, ends, 0) && Increasing(ends) && IsOldest(bodies, bid)
    requires forall i :: 0 <= i < |bodies| ==> bodies[i].flag != Empty
    ensures bid == |ends| % |bodies| + 1
  {
    hide MinTs;
    var n, c := |bodies|, |ends|;
    FilledInTurn(bodies, ends, c);
    if c >= n {
      var j := InWindow(n, c, bid - 1);
      ModMinus(n, c);
      FilledInTurn(bodies, ends, c - n);
      FilledInTurn(bodies, ends, j);
      assert Candidate(bodies, (c - n) % n);
      assert ends[j] <= ends[c - n];
    }
  }

  ghost predicate InTurn(order: seq<int>, n: int) {
    n > 0 && forall k :: 0 <= k < |order| ==> order[k] == k % n + 1
  }

  // ---------------------------------------------------------------- a video frame's times

  /** The recorder's view of the current basket: idx_secs and idx_pos lead to the last
      I-frame of each channel, and nothing is later than the last frame. */
  ghost predicate Tracks(u: Use, idxT2: seq<int>, idxPos: seq<int>, lastSec: int) {
    Covers(u, S.DayOf(lastSec)) && |idxT2| == |idxPos| == MAX_CHANNEL &&
    forall c :: 0 <= c < MAX_CHANNEL ==>
      u.t2[c] <= lastSec && (u.t1[c] != 0 ==> idxT2[c] <= lastSec && AtEntry(u, idxPos[c], c, idxT2[c]))
  }

  ghost predicate AtEntry(u: Use, pos: int, ch: int, sec: int) {
    pos >= INDEX_HDR &&
    var k := IndexPosToNum(pos);
    k < |u.entries| && pos == IndexNumToPos(k) && u.entries[k].ch == ch && u.entries[k].ts.sec == sec
  }

  function NoTimes(): (ts: seq<int>)
    ensures |ts| == MAX_CHANNEL
  {
    seq(MAX_CHANNEL, _ => 0)
  }

  /** The times and the index after one more video frame. */
  function WithFrame(u: Use, e: IdxEntry, iframe: bool): (u': Use)
    requires |u.t1| == |u.t2| == MAX_CHANNEL && 0 <= e.ch < MAX_CHANNEL
  {
    Use(if iframe && u.t1[e.ch] == 0 then u.t1[e.ch := e.ts.sec] else u.t1,
        u.t2[e.ch := e.ts.sec],
        if iframe then u.entries + [e] else u.entries)
  }

  lemma {:induction false} FrameCovered(u: Use, e: IdxEntry, iframe: bool, lastSec: int)
    requires Covers(u, S.DayOf(lastSec)) && 0 <= e.ch < MAX_CHANNEL && 0 < e.ts.sec <= NO_TIME && lastSec <= e.ts.sec
    requires forall c :: 0 <= c < MAX_CHANNEL ==> u.t2[c] <= lastSec
    requires (forall c :: 0 <= c < MAX_CHANNEL ==> u.t2[c] == 0) || S.DayOf(e.ts.sec) == S.DayOf(lastSec)
    ensures Covers(WithFrame(u, e, iframe), S.DayOf(e.ts.sec))
  {
    var u' := WithFrame(u, e, iframe);
    forall k | 0 <= k < |u'.entries|
      ensures EntryWithin(u', u'.entries[k])
    {
      if k < |u.entries| {
        assert EntryWithin(u, u.entries[k]);
      }
    }
  }

  lemma {:induction false} FrameTracked(u: Use, idxT2: seq<int>, idxPos: seq<int>, lastSec: int, e: IdxEntry, iframe: bool)
    requires Tracks(u, idxT2, idxPos, lastSec) && 0 <= e.ch < MAX_CHANNEL && 0 < e.ts.sec <= NO_TIME && lastSec <= e.ts.sec
    requires (forall c :: 0 <= c < MAX_CHANNEL ==> u.t2[c] == 0) || S.DayOf(e.ts.sec) == S.DayOf(lastSec)
    ensures var idxT2' := if iframe then idxT2[e.ch := e.ts.sec] else idxT2;
      var idxPos' := if iframe then idxPos[e.ch := IndexNumToPos(|u.entries|)] else idxPos;
      Tracks(WithFrame(u, e, iframe), idxT2', idxPos', e.ts.sec)
  {
    FrameCovered(u, e, iframe, lastSec);
    IndexPositions(|u.entries|);
    var u' := WithFrame(u, e, iframe);
    var idxT2' := if iframe then idxT2[e.ch := e.ts.sec] else idxT2;
    var idxPos' := if iframe then idxPos[e.ch := IndexNumToPos(|u.entries|)] else idxPos;
    hide Covers, IndexPosToNum, IndexNumToPos;
    forall c | 0 <= c < MAX_CHANNEL
      ensures u'.t2[c] <= e.ts.sec && (u'.t1[c] != 0 ==> idxT2'[c] <= e.ts.sec && AtEntry(u', idxPos'[c], c, idxT2'[c]))
    {
      if !(iframe && c == e.ch) && u.t1[c] != 0 {
        assert AtEntry(u, idxPos[c], c, idxT2[c]);
      }
    }
  }

  /** What is right stays right as the current basket's index grows. */
  lemma {:induction false} GrowingKeepsRight(uses: map<int, Use>, b: int, u: Use, t: Table, es: seq<Entry>)
    requires b in uses && uses[b].entries <= u.entries && RightTable(uses, t) && RightEntries(uses, es)
    ensures RightTable(uses[b := u], t) && RightEntries(uses[b := u], es)
  {
  }

  ghost predicate Unnamed(es: seq<Entry>, b: int) {
    forall k :: 0 <= k < |es| ==> es[k].bid != b
  }

  /** What is right stays right when a basket is used anew that nothing names; and not
      if anything names it, because it has no I-frame yet. */
  lemma {:induction false} ReuseKeepsRightIff(uses: map<int, Use>, b: int, u: Use, t: Table, es: seq<Entry>)
    requires u.entries == [] && b != 0 && RightTable(uses, t) && RightEntries(uses, es)
    ensures RightTable(uses[b := u], t) && RightEntries(uses[b := u], es) <==> Nowhere(t, b) && Unnamed(es, b)
  {
  }
}
