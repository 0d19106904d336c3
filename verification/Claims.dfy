/** Which minutes I-frames claim in the minute table, by the recorder (src/basket_rec.c) and
    by the backup (src/app_bskbackup.c).  Both remember, for every channel, the minute of the
    hour that was claimed last, and claim a minute when an I-frame's is another one. */
module Claims {
  import opened MinuteTable
  import S = RdbSearch

  /** The last entry of a channel, or -1. */
  function LastOf(q: seq<Entry>, ch: int): (p: int)
    ensures -1 <= p < |q| && (p >= 0 ==> q[p].ch == ch)
  {
    if q == [] then -1 else if q[|q| - 1].ch == ch then |q| - 1 else LastOf(q[..|q| - 1], ch)
  }

  /** The minute of the hour is the one that the channel claimed last. */
  predicate Repeats(q: seq<Entry>, e: Entry) {
    var p := LastOf(q, e.ch);
    p >= 0 && q[p].sec / 60 % 60 == e.sec / 60 % 60
  }

  /** What is queued for the table when I-frames are recorded, each of which would have the
      entry given. */
  function Queued(es: seq<Entry>): seq<Entry> {
    if es == [] then []
    else
      var q, e := Queued(es[..|es| - 1]), es[|es| - 1];
      if Repeats(q, e) then q else q + [e]
  }

  /** The minute of the hour that a channel claimed last, or -1. */
  function MarkOf(q: seq<Entry>, ch: int): int {
    var p := LastOf(q, ch);
    if p == -1 then -1 else q[p].sec / 60 % 60
  }

  lemma MarkOfStep(q: seq<Entry>, e: Entry, ch: int)
    ensures Repeats(q, e) <==> MarkOf(q, e.ch) == e.sec / 60 % 60
    ensures MarkOf(q + [e], ch) == if e.ch == ch then e.sec / 60 % 60 else MarkOf(q, ch)
  {
  }

  /** A second's minute is that of its day and of the day's seconds. */
  lemma {:induction false} MinuteSplit(sec: int)
    ensures sec / 60 == 1440 * (sec / 86400) + sec % 86400 / 60 && 0 <= sec % 86400 / 60 < 1440
  {
    S.AbsMinuteSplit(sec);
  }

  /** Entries of different minutes have different cells. */
  lemma {:induction false} OtherCell(a: Entry, b: Entry)
    requires !SameMinute(a, b)
    ensures a.sec / 86400 != b.sec / 86400 || 1440 * a.ch + a.sec % 86400 / 60 != 1440 * b.ch + b.sec % 86400 / 60
  {
    MinuteSplit(a.sec);
    MinuteSplit(b.sec);
    var m, n := a.sec % 86400 / 60, b.sec % 86400 / 60;
    assert a.ch != b.ch && a.sec / 86400 == b.sec / 86400 ==> 1440 * a.ch + m != 1440 * b.ch + n;
  }

  predicate SameMinute(a: Entry, b: Entry) {
    a.ch == b.ch && a.sec / 60 == b.sec / 60
  }

  ghost predicate HasMinute(q: seq<Entry>, e: Entry) {
    exists i :: 0 <= i < |q| && SameMinute(q[i], e)
  }

  /** The channel's last claim before I-frame k was in the same minute of another hour. */
  predicate Missed(es: seq<Entry>, k: nat)
    requires k < |es|
  {
    var q := Queued(es[..k]);
    var p := LastOf(q, es[k].ch);
    p >= 0 && q[p].sec / 60 % 60 == es[k].sec / 60 % 60 && q[p].sec / 60 != es[k].sec / 60
  }

  ghost predicate Ascending(es: seq<Entry>) {
    forall i, j :: 0 <= i < j < |es| ==> es[i].sec <= es[j].sec
  }

  lemma QueuedStep(es: seq<Entry>, e: Entry)
    ensures Queued(es + [e]) == if Repeats(Queued(es), e) then Queued(es) else Queued(es) + [e]
  {
  }

  lemma LastOfStep(q: seq<Entry>, e: Entry, ch: int)
    ensures LastOf(q + [e], ch) == if e.ch == ch then |q| else LastOf(q, ch)
  {
  }

  lemma {:induction false} LastOfIsLast(q: seq<Entry>, ch: int, i: nat)
    requires i < |q| && q[i].ch == ch
    ensures i <= LastOf(q, ch)
  {
    if i < |q| - 1 {
      LastOfIsLast(q[..|q| - 1], ch, i);
    }
  }

  /** What is queued are some of the entries, in their order. */
  lemma {:induction false} QueuedFrom(es: seq<Entry>, i: nat)
    requires i < |Queued(es)|
    ensures Queued(es)[i] in es
    ensures Ascending(es) ==> forall j :: i < j < |Queued(es)| ==> Queued(es)[i].sec <= Queued(es)[j].sec
  {
    hide Repeats;
    var n := |es| - 1;
    var q := Queued(es[..n]);
    if i < |q| {
      QueuedFrom(es[..n], i);
      assert q[i] in es[..n];
    }
  }

  lemma {:induction false} QueuedGrows(es: seq<Entry>, n: nat)
    requires n <= |es|
    ensures Queued(es[..n]) <= Queued(es)
  {
    hide Repeats;
    if n < |es| {
      QueuedGrows(es[..|es| - 1], n);
      assert es[..|es| - 1][..n] == es[..n];
    } else {
      assert es[..n] == es;
    }
  }

  /** No two entries are of the same minute of a channel. */
  ghost predicate Apart(q: seq<Entry>) {
    forall i, j :: 0 <= i < j < |q| ==> !SameMinute(q[i], q[j])
  }

  /** What is queued of I-frames in the order of their times claims every minute once. */
  lemma {:induction false} QueuedApart(es: seq<Entry>)
    requires Ascending(es)
    ensures Apart(Queued(es))
  {
    hide SameMinute, Repeats;
    if es != [] {
      var n := |es| - 1;
      var q, e := Queued(es[..n]), es[n];
      AscendingPart(es, n);
      QueuedApart(es[..n]);
      if !Repeats(q, e) {
        forall i | 0 <= i < |q|
          ensures !SameMinute(q[i], e)
        {
          NotAgain(es, n, i);
        }
      }
    }
  }

  lemma {:induction false} NotAgain(es: seq<Entry>, n: nat, i: nat)
    requires Ascending(es) && n < |es| && i < |Queued(es[..n])| && !Repeats(Queued(es[..n]), es[n])
    ensures !SameMinute(Queued(es[..n])[i], es[n])
  {
    hide Queued;
    var q, e := Queued(es[..n]), es[n];
    if q[i].ch == e.ch {
      var p := LastOf(q, e.ch);
      LastOfIsLast(q, e.ch, i);
      FromBefore(es, n, p);
      AscendingPart(es, n);
      QueuedFrom(es[..n], i);
    }
  }

  /** While I-frame k stays missed: no entry of its minute, and the channel's last claim is
      the one it was missed for, or later than it. */
  ghost predicate StillMissed(es: seq<Entry>, k: nat, n: nat)
    requires k < n <= |es|
  {
    var q, q0 := Queued(es[..n]), Queued(es[..k]);
    var p, p0 := LastOf(q, es[k].ch), LastOf(q0, es[k].ch);
    !HasMinute(q, es[k]) && p >= 0 && p0 >= 0 && (q[p] == q0[p0] || q[p].sec / 60 > es[k].sec / 60)
  }

  lemma {:induction false} MissedAtOnce(es: seq<Entry>, k: nat)
    requires Ascending(es) && k < |es| && Missed(es, k)
    ensures StillMissed(es, k, k + 1)
  {
    hide Queued;
    var e, q := es[k], Queued(es[..k]);
    assert es[..k + 1] == es[..k] + [e];
    QueuedStep(es[..k], e);
    var p := LastOf(q, e.ch);
    FromBefore(es, k, p);
    forall i | 0 <= i < |q|
      ensures !SameMinute(q[i], e)
    {
      if q[i].ch == e.ch {
        LastOfIsLast(q, e.ch, i);
        AscendingPart(es, k);
        QueuedFrom(es[..k], i);
      }
    }
  }

  lemma AscendingPart(es: seq<Entry>, n: nat)
    requires Ascending(es) && n <= |es|
    ensures Ascending(es[..n])
  {
  }

  lemma {:induction false} FromBefore(es: seq<Entry>, k: nat, i: nat)
    requires Ascending(es) && k < |es| && i < |Queued(es[..k])|
    ensures Queued(es[..k])[i].sec <= es[k].sec
  {
    hide Queued;
    QueuedFrom(es[..k], i);
    var j :| 0 <= j < k && es[..k][j] == Queued(es[..k])[i];
    assert es[j] == es[..k][j];
  }

  lemma {:induction false} MissedOn(es: seq<Entry>, k: nat, n: nat)
    requires Ascending(es) && k < n < |es| && StillMissed(es, k, n) && Missed(es, k)
    ensures StillMissed(es, k, n + 1)
  {
    hide Queued;
    var e, x, q := es[k], es[n], Queued(es[..n]);
    assert es[..n + 1] == es[..n] + [x];
    QueuedStep(es[..n], x);
    LastOfStep(q, x, e.ch);
    if x.ch == e.ch && !Repeats(q, x) {
      FromBefore(es, n, LastOf(q, e.ch));
      assert e.sec <= x.sec;
      assert !SameMinute(x, e);
    }
  }

  lemma {:induction false} MissedStays(es: seq<Entry>, k: nat, n: nat)
    requires Ascending(es) && k < n <= |es| && Missed(es, k)
    ensures StillMissed(es, k, n)
    decreases n
  {
    if n == k + 1 {
      MissedAtOnce(es, k);
    } else {
      MissedStays(es, k, n - 1);
      MissedOn(es, k, n - 1);
    }
  }

  /** Nothing before I-frame k is of its channel and minute. */
  ghost predicate FirstOfMinute(es: seq<Entry>, k: nat)
    requires k < |es|
  {
    forall j :: 0 <= j < k ==> !SameMinute(es[j], es[k])
  }

  /** Of I-frames in the order of their times: the minute of one is never queued if and only
      if the channel's last claim before it was in the same minute of another hour; and what
      is queued is the entry of the first I-frame of the minute. */
  lemma {:induction false} MissedIff(es: seq<Entry>, k: nat)
    requires Ascending(es) && k < |es|
    ensures HasMinute(Queued(es), es[k]) <==> !Missed(es, k)
    ensures FirstOfMinute(es, k) ==> (es[k] in Queued(es) <==> !Missed(es, k))
  {
    hide Queued;
    var e, q := es[k], Queued(es[..k]);
    if Missed(es, k) {
      MissedStays(es, k, |es|);
      assert es[..|es|] == es;
    } else {
      assert es[..k + 1] == es[..k] + [e];
      QueuedStep(es[..k], e);
      QueuedGrows(es, k + 1);
      var now, i := Queued(es[..k + 1]), if Repeats(q, e) then LastOf(q, e.ch) else |q|;
      assert SameMinute(now[i], e) && now[i] == Queued(es)[i];
      if Repeats(q, e) {
        QueuedFrom(es[..k], i);
        var j :| 0 <= j < k && es[..k][j] == q[i];
        assert SameMinute(es[j], e);
      }
    }
  }

  /** Two I-frames an hour apart: the minute of the second is missed. */
  lemma {:induction false} NextHourIsMissed()
    ensures var es := [Entry(0, 60, 1, 1, 272), Entry(0, 3660, 1, 1, 316)];
      Ascending(es) && Missed(es, 1) && Queued(es) == [es[0]] && !HasMinute(Queued(es), es[1])
  {
    var a, b := Entry(0, 60, 1, 1, 272), Entry(0, 3660, 1, 1, 316);
    assert [a, b][..1] == [] + [a] && [a, b] == [a] + [b];
    QueuedStep([], a);
    QueuedStep([a], b);
  }

  // ---------------------------------------------------------------- cells

  /** The cell of a channel and a minute is taken. */
  predicate CellTaken(t: Table, ch: int, sec: int) {
    sec / 86400 in t && 0 <= 1440 * ch + sec % 86400 / 60 < |t[sec / 86400]| &&
    t[sec / 86400][1440 * ch + sec % 86400 / 60].bid != 0
  }

  lemma PutTakes(day: seq<Cell>, e: Entry)
    requires |day| == SLOTS && EntryOk(e)
    ensures Put(day, e)[Offset(e)].bid != 0
    ensures forall i :: 0 <= i < |day| && (day[i].bid != 0 || i != Offset(e)) ==> Put(day, e)[i] == day[i]
    ensures day[Offset(e)].bid == 0 ==> Put(day, e)[Offset(e)] == Cell(e.bid, e.pos, e.evt)
  {
  }

  lemma CellIs(e: Entry)
    requires EntryOk(e)
    ensures DayOfEntry(e) == e.sec / 86400 && Offset(e) == 1440 * e.ch + e.sec % 86400 / 60
  {
  }

  lemma SameCell(a: int, b: int)
    requires a / 60 == b / 60
    ensures a / 86400 == b / 86400 && a % 86400 / 60 == b % 86400 / 60
  {
  }

  lemma CellOfMinute(t: Table, ch: int, a: int, b: int)
    requires CellTaken(t, ch, a) && a / 86400 == b / 86400 && a % 86400 / 60 == b % 86400 / 60
    ensures CellTaken(t, ch, b)
  {
  }
}
