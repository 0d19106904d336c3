/** A basket as a plain append log: a list of records, and what it determines: each
    record's place in the stream file, the bytes of the file, the I-frame index and
    the back-link of each record. */
module Log {
  import opened Layout

  function TotalSize(log: seq<Rec>): nat {
    if log == [] then 0 else TotalSize(log[..|log| - 1]) + RecSize(log[|log| - 1])
  }

  /** Where record i starts; for i == |log|, where the log ends. */
  function Place(log: seq<Rec>, i: nat): (p: nat)
    requires i <= |log|
    ensures p >= BASKET_HDR
  {
    BASKET_HDR + TotalSize(log[..i])
  }

  function End(log: seq<Rec>): nat {
    BASKET_HDR + TotalSize(log)
  }

  function Bytes(log: seq<Rec>): seq<byte> {
    if log == [] then [] else Bytes(log[..|log| - 1]) + EncodeRec(log[|log| - 1])
  }

  ghost predicate AllWellFormed(log: seq<Rec>) {
    forall i :: 0 <= i < |log| ==> WellFormed(log[i])
  }

  lemma {:induction false} BytesLength(log: seq<Rec>)
    requires AllWellFormed(log)
    ensures |Bytes(log)| == TotalSize(log)
  {
    if log != [] {
      BytesLength(log[..|log| - 1]);
    }
  }

  /** Appending one record. */
  lemma Append(log: seq<Rec>, r: Rec)
    ensures TotalSize(log + [r]) == TotalSize(log) + RecSize(r)
    ensures Bytes(log + [r]) == Bytes(log) + EncodeRec(r)
  {
  }

  lemma AppendIndex(log: seq<Rec>, r: Rec)
    ensures Index(log + [r]) == Index(log) + if IsIFrame(r) then [EntryFor(r, End(log))] else []
  {
  }

  lemma AppendLink(log: seq<Rec>, r: Rec, carry: int)
    ensures LastStart(log + [r], carry) == if IsEnd(r) then LastStart(log, carry) else End(log)
    ensures Linked(log + [r], carry) <==>
      Linked(log, carry) && (IsEnd(r) || r.hdr.prevFpos == LastStart(log, carry))
  {
  }

  /** Bytes and sizes of a concatenation. */
  lemma {:induction false} Concat(a: seq<Rec>, b: seq<Rec>)
    ensures Bytes(a + b) == Bytes(a) + Bytes(b)
    ensures TotalSize(a + b) == TotalSize(a) + TotalSize(b)
  {
    if b == [] {
      assert a + b == a;
    } else {
      var b', r := b[..|b| - 1], b[|b| - 1];
      Concat(a, b');
      ConcatStep(a, b', r);
      assert b == b' + [r];
    }
  }

  lemma {:induction false} ConcatStep(a: seq<Rec>, b: seq<Rec>, r: Rec)
    requires Bytes(a + b) == Bytes(a) + Bytes(b) && TotalSize(a + b) == TotalSize(a) + TotalSize(b)
    ensures Bytes(a + (b + [r])) == Bytes(a) + Bytes(b + [r])
    ensures TotalSize(a + (b + [r])) == TotalSize(a) + TotalSize(b + [r])
  {
    hide *;
    assert a + (b + [r]) == (a + b) + [r];
    Append(a + b, r);
    Append(b, r);
    assert Bytes(a) + (Bytes(b) + EncodeRec(r)) == (Bytes(a) + Bytes(b)) + EncodeRec(r);
  }

  lemma {:induction false} PlaceStep(log: seq<Rec>, i: nat)
    requires i < |log|
    ensures Place(log, i + 1) == Place(log, i) + RecSize(log[i])
  {
    assert log[..i + 1] == log[..i] + [log[i]];
    Append(log[..i], log[i]);
  }

  lemma {:induction false} PlacesIncrease(log: seq<Rec>, i: nat, j: nat)
    requires i <= j <= |log|
    ensures Place(log, i) + STREAM_HDR * (j - i) <= Place(log, j)
    decreases j - i
  {
    if i < j {
      PlaceStep(log, j - 1);
      PlacesIncrease(log, i, j - 1);
    }
  }

  lemma {:induction false} PlaceEnd(log: seq<Rec>)
    ensures Place(log, |log|) == End(log)
  {
    assert log[..|log|] == log;
  }

  // ---------------------------------------------------------------- the index

  function EntryFor(r: Rec, fpos: nat): IdxEntry {
    IdxEntry(ID_INDEX, r.hdr.ts, fpos, r.hdr.ch, [])
  }

  /** The I-frames of the log, in order, with their exact start offsets. */
  function Index(log: seq<Rec>): seq<IdxEntry> {
    if log == [] then []
    else
      var before := log[..|log| - 1];
      var r := log[|log| - 1];
      Index(before) + if IsIFrame(r) then [EntryFor(r, End(before))] else []
  }

  /** Entry e points at record j. */
  ghost predicate PointsAt(log: seq<Rec>, e: IdxEntry, j: nat) {
    j < |log| && IsIFrame(log[j]) && e == EntryFor(log[j], Place(log, j))
  }

  /** The index of a longer log starts with the index of the shorter one. */
  lemma {:induction false} IndexOfPrefix(a: seq<Rec>, b: seq<Rec>)
    ensures |Index(a)| <= |Index(a + b)| && Index(a + b)[..|Index(a)|] == Index(a)
  {
    if b == [] {
      assert a + b == a;
    } else {
      var b' := b[..|b| - 1];
      IndexOfPrefix(a, b');
      assert a + b == (a + b') + [b[|b| - 1]];
      AppendIndex(a + b', b[|b| - 1]);
    }
  }

  /** Every index entry points at an I-frame record; `which` finds it. */
  function Which(log: seq<Rec>, k: nat): (j: nat)
    requires k < |Index(log)|
    ensures j < |log|
  {
    var before := log[..|log| - 1];
    if k < |Index(before)| then Which(before, k) else |log| - 1
  }

  lemma {:induction false} WhichPointsAt(log: seq<Rec>, k: nat)
    requires k < |Index(log)|
    ensures PointsAt(log, Index(log)[k], Which(log, k))
    ensures |Index(log[..Which(log, k)])| == k
  {
    var n := |log|;
    var before := log[..n - 1];
    if k < |Index(before)| {
      WhichPointsAt(before, k);
      var j := Which(before, k);
      assert log[..j] == before[..j];
    } else {
      assert log[..n - 1] == before;
    }
  }

  /** Every I-frame record has its entry, at the number of I-frames before it. */
  lemma {:induction false} EntryOf(log: seq<Rec>, j: nat)
    requires j < |log| && IsIFrame(log[j])
    ensures var k := |Index(log[..j])|; k < |Index(log)| && PointsAt(log, Index(log)[k], j)
  {
    var a := log[..j];
    assert log == (a + [log[j]]) + log[j + 1..];
    AppendIndex(a, log[j]);
    IndexOfPrefix(a + [log[j]], log[j + 1..]);
    var k := |Index(a)|;
    assert Index(log)[k] == Index(a + [log[j]])[k];
  }

  // ---------------------------------------------------------------- back-links

  /** The start of the last record that is not an end marker, or `carry` if there is
      none: what the recorder keeps in gPrevFpos. */
  function LastStart(log: seq<Rec>, carry: int): int {
    if log == [] then carry
    else if IsEnd(log[|log| - 1]) then LastStart(log[..|log| - 1], carry)
    else End(log[..|log| - 1])
  }

  /** Every record links back to the start of the record before it; the first one
      carries on from whatever was written last before this basket. */
  ghost predicate Linked(log: seq<Rec>, carry: int) {
    log == [] ||
    (Linked(log[..|log| - 1], carry) &&
     (IsEnd(log[|log| - 1]) || log[|log| - 1].hdr.prevFpos == LastStart(log[..|log| - 1], carry)))
  }

  /** The back-link of a record after a video or audio record is that record's start. */
  lemma {:induction false} LinkIsPreviousStart(log: seq<Rec>, carry: int, i: nat)
    requires Linked(log, carry) && 0 < i < |log| && !IsEnd(log[i]) && !IsEnd(log[i - 1])
    ensures log[i].hdr.prevFpos == Place(log, i - 1)
  {
    var before := log[..|log| - 1];
    if i < |log| - 1 {
      LinkIsPreviousStart(before, carry, i);
      assert log[..i - 1] == before[..i - 1];
    } else {
      assert before[..|before| - 1] == log[..i - 1];
    }
  }

  lemma {:induction false} LinkedPrefix(log: seq<Rec>, carry: int, n: nat)
    requires Linked(log, carry) && n <= |log|
    ensures Linked(log[..n], carry)
  {
    if n < |log| {
      LinkedPrefix(log[..|log| - 1], carry, n);
      assert log[..|log| - 1][..n] == log[..n];
    } else {
      assert log[..n] == log;
    }
  }

  /** What gPrevFpos can be: nothing written yet, the start of a basket's first record, or
      the start of a record behind it. */
  predicate IsLink(c: int) {
    c == 0 || c == BASKET_HDR || c >= BASKET_HDR + STREAM_HDR
  }

  lemma EndIsLink(log: seq<Rec>)
    ensures IsLink(End(log))
  {
  }

  lemma {:induction false} LastStartIsLink(log: seq<Rec>, carry: int)
    requires IsLink(carry)
    ensures IsLink(LastStart(log, carry))
  {
    if log != [] {
      if IsEnd(log[|log| - 1]) {
        LastStartIsLink(log[..|log| - 1], carry);
      } else {
        EndIsLink(log[..|log| - 1]);
      }
    }
  }

  // ---------------------------------------------------------------- reading a file

  /** The file holds the log right after its basket header. */
  ghost predicate Holds(file: seq<byte>, log: seq<Rec>) {
    End(log) <= |file| && file[BASKET_HDR..End(log)] == Bytes(log)
  }

  /** Reading 44 bytes at a position; a read past the end of the file fails. */
  predicate CanRead(file: seq<byte>, pos: nat, n: nat) {
    pos + n <= |file|
  }

  /** The bytes from a position on. */
  function Behind(file: seq<byte>, pos: nat): seq<byte> {
    if pos <= |file| then file[pos..] else []
  }

  lemma HdrBehind(file: seq<byte>, pos: nat)
    ensures CanRead(file, pos, STREAM_HDR) <==> |Behind(file, pos)| >= STREAM_HDR
    ensures CanRead(file, pos, STREAM_HDR) ==> HdrAt(file, pos) == DecodeHdr(Behind(file, pos)[..STREAM_HDR])
  {
    if CanRead(file, pos, STREAM_HDR) {
      assert file[pos..pos + STREAM_HDR] == file[pos..][..STREAM_HDR];
    }
  }

  function HdrAt(file: seq<byte>, pos: nat): StreamHdr
    requires CanRead(file, pos, STREAM_HDR)
  {
    DecodeHdr(file[pos..pos + STREAM_HDR])
  }

  lemma {:induction false} SplitSlice<T>(s: seq<T>, p: nat, x: seq<T>, y: seq<T>)
    requires p + |x| + |y| <= |s| && s[p..p + |x| + |y|] == x + y
    ensures s[p..p + |x|] == x && s[p + |x|..p + |x| + |y|] == y
  {
    var w := s[p..p + |x| + |y|];
    assert s[p..p + |x|] == w[..|x|];
    assert s[p + |x|..p + |x| + |y|] == w[|x|..];
  }

  /** A file that holds a log holds every prefix of it. */
  lemma {:induction false} HoldsPrefix(file: seq<byte>, a: seq<Rec>, b: seq<Rec>)
    requires AllWellFormed(a + b) && Holds(file, a + b)
    ensures AllWellFormed(a) && AllWellFormed(b)
    ensures Holds(file, a) && End(a) + |Bytes(b)| == End(a + b)
    ensures file[End(a)..End(a) + |Bytes(b)|] == Bytes(b)
  {
    hide Bytes, TotalSize, WellFormed;
    Concat(a, b);
    assert forall i :: 0 <= i < |a| ==> a[i] == (a + b)[i];
    assert forall i :: 0 <= i < |b| ==> b[i] == (a + b)[|a| + i];
    BytesLength(a);
    BytesLength(a + b);
    SplitSlice(file, BASKET_HDR, Bytes(a), Bytes(b));
  }

  /** The bytes between a record's place and the next are the record. */
  lemma {:induction false} BytesAtPlace(file: seq<byte>, log: seq<Rec>, i: nat)
    requires AllWellFormed(log) && Holds(file, log) && i < |log|
    ensures Place(log, i + 1) == Place(log, i) + RecSize(log[i]) <= End(log)
    ensures file[Place(log, i)..Place(log, i) + RecSize(log[i])] == EncodeRec(log[i])
  {
    hide Bytes, TotalSize, WellFormed, Holds, EncodeRec, RecSize;
    var a, r, b := log[..i], log[i], log[i + 1..];
    assert log == (a + [r]) + b;
    HoldsPrefix(file, a + [r], b);
    HoldsPrefix(file, a, [r]);
    PlaceStep(log, i);
    PlacesIncrease(log, i + 1, |log|);
    PlaceEnd(log);
    BytesOfOne(r);
    assert log[..i + 1] == a + [r];
  }

  lemma BytesOfOne(r: Rec)
    ensures Bytes([r]) == EncodeRec(r) && TotalSize([r]) == RecSize(r)
  {
  }

  /** What a reader finds at the place of record i: its header, its sub-header and
      its frame, byte for byte. */
  lemma {:induction false} ReadAtPlace(file: seq<byte>, log: seq<Rec>, i: nat)
    requires AllWellFormed(log) && Holds(file, log) && i < |log|
    ensures Place(log, i + 1) == Place(log, i) + RecSize(log[i]) <= End(log) <= |file|
    ensures var p, r := Place(log, i), log[i];
      HdrAt(file, p) == r.hdr &&
      file[p + STREAM_HDR..p + STREAM_HDR + |r.sub|] == r.sub &&
      file[p + STREAM_HDR + |r.sub|..p + RecSize(r)] == r.data
  {
    BytesAtPlace(file, log, i);
    SlicedParts(file, Place(log, i), log[i]);
  }

  /** A slice of a slice. */
  lemma {:induction false} SubSlice<T>(s: seq<T>, a: nat, b: nat, c: nat, d: nat)
    requires a <= b <= |s| && c <= d <= b - a
    ensures s[a..b][c..d] == s[a + c..a + d]
  {
    var t := s[a..b];
    assert |t[c..d]| == |s[a + c..a + d]|;
    forall i | 0 <= i < d - c
      ensures t[c..d][i] == s[a + c..a + d][i]
    {
      assert t[c + i] == s[a + c + i];
    }
  }

  lemma {:induction false} SlicedParts(file: seq<byte>, p: nat, r: Rec)
    requires WellFormed(r) && p + RecSize(r) <= |file| && file[p..p + RecSize(r)] == EncodeRec(r)
    ensures HdrAt(file, p) == r.hdr
    ensures file[p + STREAM_HDR..p + STREAM_HDR + |r.sub|] == r.sub
    ensures file[p + STREAM_HDR + |r.sub|..p + RecSize(r)] == r.data
  {
    var rec := file[p..p + RecSize(r)];
    RecordParts(r, rec);
    var n := RecSize(r);
    SubSlice(file, p, p + n, 0, STREAM_HDR);
    SubSlice(file, p, p + n, STREAM_HDR, STREAM_HDR + |r.sub|);
    SubSlice(file, p, p + n, STREAM_HDR + |r.sub|, n);
    assert rec[STREAM_HDR + |r.sub|..n] == rec[STREAM_HDR + |r.sub|..];
    assert rec[0..STREAM_HDR] == rec[..STREAM_HDR];
  }

  /** The header found behind a basket, read as a record of its own. */
  function Tail(file: seq<byte>, pos: nat): Rec
    requires CanRead(file, pos, STREAM_HDR)
  {
    Rec(HdrAt(file, pos), file[pos + 28..pos + STREAM_HDR], [], [])
  }

  lemma {:induction false} TailIsHeld(file: seq<byte>, log: seq<Rec>)
    requires AllWellFormed(log) && Holds(file, log) && CanRead(file, End(log), STREAM_HDR) && IsEnd(Tail(file, End(log)))
    ensures AllWellFormed(log + [Tail(file, End(log))]) && Holds(file, log + [Tail(file, End(log))])
  {
    hide Bytes, TotalSize, EncodeHdr;
    var p := End(log);
    var t, bs := Tail(file, p), file[p..p + STREAM_HDR];
    DecodedEncodes(bs);
    assert bs[28..] == t.reserved;
    Append(log, t);
    assert EncodeRec(t) == bs;
    assert file[BASKET_HDR..p + STREAM_HDR] == file[BASKET_HDR..p] + bs;
    assert WellFormed(t);
  }
}
