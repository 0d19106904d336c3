/** From a time to a frame: how BKTMD_Open (src/basket_muldec.c) finds, in the minute table,
    the basket and the index position at which replay starts. */
module Lookup {
  import opened Layout
  import opened Log
  import opened MinuteTable
  import P = Player
  import S = RdbSearch

  function CellAt(day: seq<Cell>, m: int, ch: int): Cell
    requires |day| == SLOTS && 0 <= m < S.MINUTES && 0 <= ch < S.CHANNELS
  {
    day[S.MINUTES * ch + m]
  }

  /** Something was recorded in the minute, with an event type. */
  predicate Recorded(day: seq<Cell>, m: int, ch: int)
    requires |day| == SLOTS && 0 <= m < S.MINUTES && 0 <= ch < S.CHANNELS
  {
    CellAt(day, m, ch).evt != 0 && CellAt(day, m, ch).bid != 0
  }

  ghost predicate NothingIn(day: seq<Cell>, from: int, to: int)
    requires |day| == SLOTS
  {
    forall m, ch :: 0 <= m < S.MINUTES && from <= m < to && 0 <= ch < S.CHANNELS ==> !Recorded(day, m, ch)
  }

  /** From channel lo up to the channel before `to` only basket bid recorded in minute m. */
  ghost predicate OnlyBasket(day: seq<Cell>, m: int, lo: int, to: int, bid: int)
    requires |day| == SLOTS && 0 <= m < S.MINUTES && 0 <= lo
  {
    forall ch :: lo <= ch < to && ch < S.CHANNELS && Recorded(day, m, ch) ==> CellAt(day, m, ch).bid == bid
  }

  /** Basket and position for a start in minute m: the basket of the lowest channel `lo`,
      and the least position, which is channel ch's, of the channels up to the first one
      that recorded into another basket. */
  ghost predicate StartsIn(day: seq<Cell>, m: int, lo: int, ch: int, bid: int, pos: int)
    requires |day| == SLOTS
  {
    0 <= m < S.MINUTES && 0 <= lo <= ch < S.CHANNELS && Recorded(day, m, lo) && Recorded(day, m, ch) &&
    (forall c :: 0 <= c < lo ==> !Recorded(day, m, c)) &&
    CellAt(day, m, lo).bid == bid && CellAt(day, m, ch).bid == bid && CellAt(day, m, ch).pos == pos &&
    forall c :: lo <= c < S.CHANNELS && Recorded(day, m, c) && OnlyBasket(day, m, lo, c + 1, bid) ==> pos <= CellAt(day, m, c).pos
  }

  /** The two loops of the search. */
  method FindStart(day: seq<Cell>, from: nat) returns (found: bool, bid: int, pos: int, ghost m: int, ghost lo: int, ghost ch: int)
    requires |day| == SLOTS
    ensures found ==> from <= m && NothingIn(day, from, m) && StartsIn(day, m, lo, ch, bid, pos)
    ensures !found ==> NothingIn(day, from, S.MINUTES)
  {
    found, bid, pos, m, lo, ch := false, 0, 0, 0, 0, 0;
    var i := from;
    while i < S.MINUTES
      invariant from <= i && NothingIn(day, from, i)
      decreases S.MINUTES - i
    {
      found, bid, pos, lo, ch := FindInMinute(day, i);
      m := i;
      if found {
        return;
      }
      i := i + 1;
    }
  }

  method FindInMinute(day: seq<Cell>, m: nat) returns (found: bool, bid: int, pos: int, ghost lo: int, ghost ch: int)
    requires |day| == SLOTS && m < S.MINUTES
    ensures found ==> StartsIn(day, m, lo, ch, bid, pos)
    ensures !found ==> bid == 0 && forall c :: 0 <= c < S.CHANNELS ==> !Recorded(day, m, c)
  {
    found, bid, pos, lo, ch := false, 0, 0, 0, 0;
    var c := 0;
    while c < S.CHANNELS
      invariant 0 <= c <= S.CHANNELS && (found <==> bid != 0)
      invariant !found ==> forall c' :: 0 <= c' < c ==> !Recorded(day, m, c')
      invariant found ==> 0 <= lo <= ch < c && Recorded(day, m, lo) && Recorded(day, m, ch) && forall c' :: 0 <= c' < lo ==> !Recorded(day, m, c')
      invariant found ==> CellAt(day, m, lo).bid == bid && CellAt(day, m, ch).bid == bid && CellAt(day, m, ch).pos == pos
      invariant found ==> OnlyBasket(day, m, lo, c, bid) && forall c' :: lo <= c' < c && Recorded(day, m, c') ==> pos <= CellAt(day, m, c').pos
    {
      var cell := CellAt(day, m, c);
      if cell.evt != 0 && cell.bid != 0 {
        if bid == 0 {
          found, bid, pos := true, cell.bid, cell.pos;
          lo, ch := c, c;
        } else if bid != cell.bid {
          // rare: another basket recorded in this minute too
          assert Recorded(day, m, c) && !OnlyBasket(day, m, lo, c + 1, bid);
          return;
        } else if cell.pos < pos {
          pos := cell.pos;
          ch := c;
        }
      }
      c := c + 1;
    }
  }

  /** The table's entries are those of the reader's baskets. */
  ghost predicate SameBaskets(p: P.Player, uses: map<int, Use>)
    requires p.Baskets()
  {
    forall b :: b in uses ==> 1 <= b <= |p.files| && uses[b].entries == Index(p.logs[b - 1])
  }

  /** BKTMD_Open: with a right table it leads from a time to an I-frame record, on that day
      and in the first minute from that time on in which anything was recorded; there is
      none exactly when it fails. */
  method OpenAt(p: P.Player, t: Table, sec: int, ghost uses: map<int, Use>) returns (ok: bool, ghost lo: int)
    requires p.Baskets() && IsTable(t) && RightTable(uses, t) && SameBaskets(p, uses)
    modifies p
    ensures !ok ==> S.DayOf(sec) !in t || NothingIn(t[S.DayOf(sec)], S.MinuteOf(sec), S.MINUTES)
    ensures ok ==> p.Valid() && p.Aligned() && p.Tight() && S.DayOf(sec) in t
    ensures ok ==> var r := p.logs[p.at][p.i]; var m := S.MinuteOf(r.hdr.ts.sec);
      IsIFrame(r) && S.DayOf(r.hdr.ts.sec) == S.DayOf(sec) && S.MinuteOf(sec) <= m &&
      NothingIn(t[S.DayOf(sec)], S.MinuteOf(sec), m) && p.iframeCur >= 0 &&
      StartsIn(t[S.DayOf(sec)], m, lo, r.hdr.ch, p.at + 1, IndexNumToPos(p.iframeCur))
  {
    hide RightTable, Index, TotalSize, P.Playable, S.IsTable, S.WithinTimes, P.TimesOf, StartsIn, NothingIn;
    var d := S.DayOf(sec);
    if d !in t {
      return false, 0;
    }
    var bid, pos;
    ghost var m, ch;
    ok, bid, pos, m, lo, ch := FindStart(t[d], S.MinuteOf(sec));
    if ok {
      CellLeads(p, t, uses, d, m, lo, ch, bid, pos);
      p.Open(bid - 1, pos);
    }
  }

  lemma {:induction false} CellLeads(p: P.Player, t: Table, uses: map<int, Use>, d: int, m: int, lo: int, ch: int, bid: int, pos: int)
    requires p.Baskets() && IsTable(t) && RightTable(uses, t) && SameBaskets(p, uses) && d in t && StartsIn(t[d], m, lo, ch, bid, pos)
    ensures 1 <= bid <= |p.files| && pos >= INDEX_HDR && pos == IndexNumToPos(IndexPosToNum(pos)) && IndexPosToNum(pos) < p.files[bid - 1].count
    ensures IndexPosToNum(pos) < |Index(p.logs[bid - 1])| && var e := Index(p.logs[bid - 1])[IndexPosToNum(pos)];
      e.ch == ch && S.DayOf(e.ts.sec) == d && S.MinuteOf(e.ts.sec) == m
  {
    hide Index, TotalSize, S.IsTable, S.WithinTimes, P.TimesOf;
    var j := S.MINUTES * ch + m;
    assert j / S.MINUTES == ch && j % S.MINUTES == m;
    assert RightCell(uses, t[d][j], d, j);
    assert P.Playable(p.files[bid - 1], p.logs[bid - 1]);
  }
}
