/** Sizes, identifiers and record layouts of the basket format (include/udbasket.h).
    A stream file is a sequence of bytes; words are 32 bits, little-endian, as on the
    recorder's hardware. */
module Layout {

  type byte = x: int | 0 <= x < 256

  const WORD := 0x1_0000_0000

  const BASKET_SIZE := 629145600
  const BBUF_SIZE := 12 * 1024 * 1024
  const IBUF_SIZE := 1024

  const BASKET_HDR := 288  // sizeof(T_BASKET_HDR): 8 words and 16 channels' two time stamps
  const INDEX_HDR := 272   // sizeof(T_INDEX_HDR)
  const STREAM_HDR := 44
  const VSTREAM_HDR := 40
  const ASTREAM_HDR := 24
  const INDEX_DATA := 44

  const ID_VIDEO := 0xD000_0001
  const ID_AUDIO := 0xE000_0001
  const ID_INDEX := 0xF000_0002
  const ID_END := 0xFFFF_FFFF

  const FT_IFRAME := 0

  const MAX_CHANNEL := 16

  /** A time stamp, ordered first by seconds. */
  datatype Ts = Ts(sec: int, usec: int)

  predicate Before(a: Ts, b: Ts) {
    a.sec < b.sec || (a.sec == b.sec && a.usec < b.usec)
  }

  /** The named fields of T_STREAM_HDR. */
  datatype StreamHdr = StreamHdr(id: int, ch: int, framesize: int, ts: Ts, frametype: int, prevFpos: int)

  /** One item of a stream file: the common header, its four reserved words (which the
      source never sets), the video or audio header, and the frame.  The basket end
      marker is a common header alone. */
  datatype Rec = Rec(hdr: StreamHdr, reserved: seq<byte>, sub: seq<byte>, data: seq<byte>)

  predicate IsWord(x: int) {
    0 <= x < WORD
  }

  predicate FitsWords(h: StreamHdr) {
    IsWord(h.id) && IsWord(h.ch) && IsWord(h.framesize) && IsWord(h.ts.sec) && IsWord(h.ts.usec) &&
    IsWord(h.frametype) && IsWord(h.prevFpos)
  }

  predicate IsVideo(r: Rec) { r.hdr.id == ID_VIDEO }

  predicate IsAudio(r: Rec) { r.hdr.id == ID_AUDIO }

  /** What every reader takes for the end of a basket: a header that is neither of video
      nor of audio. */
  predicate IsEnd(r: Rec) { !IsVideo(r) && !IsAudio(r) }

  /** The basket end marker. */
  predicate IsMarker(r: Rec) { r.hdr.id == ID_END }

  predicate IsIFrame(r: Rec) { IsVideo(r) && r.hdr.frametype == FT_IFRAME }

  /** A record as it lies in a stream; a header of any other kind stands alone. */
  predicate WellFormed(r: Rec) {
    FitsWords(r.hdr) && |r.reserved| == 16 &&
    (IsVideo(r) ==> |r.sub| == VSTREAM_HDR) &&
    (IsAudio(r) ==> |r.sub| == ASTREAM_HDR) &&
    if IsEnd(r) then r.sub == [] && r.data == [] else |r.data| == r.hdr.framesize > 0
  }

  function RecSize(r: Rec): nat {
    STREAM_HDR + |r.sub| + |r.data|
  }

  /** The day of the month of a time, by a calendar that numbers days. */
  function MonthDay(mday: int -> int, sec: int): int {
    mday(sec / 86400)
  }

  // ---------------------------------------------------------------- words and headers

  /** The four bytes of a word. */
  function EncodeWord(x: int): (bs: seq<byte>)
    ensures |bs| == 4
  {
    [x % 256, x / 256 % 256, x / 65536 % 256, x / 16777216 % 256]
  }

  function DecodeWord(bs: seq<byte>, at: nat): (x: int)
    requires at + 4 <= |bs|
    ensures IsWord(x)
  {
    var b0: int, b1: int, b2: int, b3: int := bs[at], bs[at + 1], bs[at + 2], bs[at + 3];
    b0 + 256 * b1 + 65536 * b2 + 16777216 * b3
  }

  lemma {:induction false} WordRoundTrip(x: int)
    requires IsWord(x)
    ensures DecodeWord(EncodeWord(x), 0) == x
  {
    var y := x / 256;
    var z := y / 256;
    assert x / 65536 == z && x / 16777216 == z / 256 < 256;
    assert x == 256 * y + x % 256 && y == 256 * z + y % 256 && z == 256 * (z / 256) + z % 256;
  }

  lemma DecodeShifted(first: seq<byte>, rest: seq<byte>, at: nat)
    requires at + 4 <= |rest|
    ensures DecodeWord(first + rest, |first| + at) == DecodeWord(rest, at)
  {
  }

  lemma DecodePrefix(bs: seq<byte>, more: seq<byte>, at: nat)
    requires at + 4 <= |bs|
    ensures DecodeWord(bs + more, at) == DecodeWord(bs, at)
  {
  }

  function EncodeWords(ws: seq<int>): (bs: seq<byte>)
    ensures |bs| == 4 * |ws|
  {
    if ws == [] then [] else EncodeWord(ws[0]) + EncodeWords(ws[1..])
  }

  lemma {:induction false} WordsRoundTrip(ws: seq<int>, k: nat)
    requires k < |ws| && IsWord(ws[k])
    ensures DecodeWord(EncodeWords(ws), 4 * k) == ws[k]
  {
    var first, rest := EncodeWord(ws[0]), EncodeWords(ws[1..]);
    if k == 0 {
      WordRoundTrip(ws[0]);
    } else {
      WordsRoundTrip(ws[1..], k - 1);
      DecodeShifted(first, rest, 4 * (k - 1));
    }
  }

  function HeaderWords(h: StreamHdr): (ws: seq<int>)
    ensures |ws| == 7
  {
    [h.id, h.ch, h.framesize, h.ts.sec, h.ts.usec, h.frametype, h.prevFpos]
  }

  function EncodeHdr(h: StreamHdr, reserved: seq<byte>): seq<byte> {
    EncodeWords(HeaderWords(h)) + reserved
  }

  function DecodeHdr(bs: seq<byte>): (h: StreamHdr)
    requires |bs| == STREAM_HDR
    ensures FitsWords(h)
  {
    StreamHdr(DecodeWord(bs, 0), DecodeWord(bs, 4), DecodeWord(bs, 8),
              Ts(DecodeWord(bs, 12), DecodeWord(bs, 16)), DecodeWord(bs, 20), DecodeWord(bs, 24))
  }

  /** A header written to disk reads back as it was, whatever the reserved words hold. */
  lemma {:induction false} HeaderRoundTrip(h: StreamHdr, reserved: seq<byte>)
    requires FitsWords(h) && |reserved| == 16
    ensures |EncodeHdr(h, reserved)| == STREAM_HDR
    ensures DecodeHdr(EncodeHdr(h, reserved)) == h
  {
    var ws := HeaderWords(h);
    var bs := EncodeWords(ws);
    forall k | 0 <= k < 7
      ensures DecodeWord(EncodeHdr(h, reserved), 4 * k) == ws[k]
    {
      WordsRoundTrip(ws, k);
      DecodePrefix(bs, reserved, 4 * k);
    }
    assert DecodeWord(EncodeHdr(h, reserved), 4 * 0) == h.id;
    assert DecodeWord(EncodeHdr(h, reserved), 4 * 1) == h.ch;
    assert DecodeWord(EncodeHdr(h, reserved), 4 * 2) == h.framesize;
    assert DecodeWord(EncodeHdr(h, reserved), 4 * 3) == h.ts.sec;
    assert DecodeWord(EncodeHdr(h, reserved), 4 * 4) == h.ts.usec;
    assert DecodeWord(EncodeHdr(h, reserved), 4 * 5) == h.frametype;
    assert DecodeWord(EncodeHdr(h, reserved), 4 * 6) == h.prevFpos;
  }

  /** Any 44 bytes are some header's. */
  lemma {:induction false} DecodedEncodes(bs: seq<byte>)
    requires |bs| == STREAM_HDR
    ensures EncodeHdr(DecodeHdr(bs), bs[28..]) == bs
  {
    var h := DecodeHdr(bs);
    var ws := HeaderWords(h);
    WordsOf(bs[..28], ws);
    assert bs == bs[..28] + bs[28..];
  }

  lemma {:induction false} WordsOf(bs: seq<byte>, ws: seq<int>)
    requires |bs| == 4 * |ws| && forall k :: 0 <= k < |ws| ==> ws[k] == DecodeWord(bs, 4 * k)
    ensures EncodeWords(ws) == bs
  {
    if ws != [] {
      var rest := bs[4..];
      forall k | 0 <= k < |ws| - 1
        ensures ws[1..][k] == DecodeWord(rest, 4 * k)
      {
        assert ws[1..][k] == ws[k + 1] == DecodeWord(bs, 4 * (k + 1));
      }
      WordsOf(rest, ws[1..]);
      WordOf(bs);
      assert bs == bs[..4] + bs[4..];
    }
  }

  lemma {:induction false} WordOf(bs: seq<byte>)
    requires |bs| >= 4
    ensures EncodeWord(DecodeWord(bs, 0)) == bs[..4]
  {
    var b0: int, b1: int, b2: int, b3: int := bs[0], bs[1], bs[2], bs[3];
    var x := DecodeWord(bs, 0);
    Digit(x, b1 + 256 * b2 + 65536 * b3, b0);
    Digit(b1 + 256 * b2 + 65536 * b3, b2 + 256 * b3, b1);
    Digit(b2 + 256 * b3, b3, b2);
    assert x / 65536 == x / 256 / 256 && x / 16777216 == x / 256 / 256 / 256;
  }

  lemma Digit(x: int, rest: int, low: int)
    requires x == 256 * rest + low && 0 <= low < 256
    ensures x / 256 == rest && x % 256 == low
  {
  }

  function EncodeRec(r: Rec): (bs: seq<byte>)
    ensures |r.reserved| == 16 ==> |bs| == RecSize(r)
  {
    EncodeHdr(r.hdr, r.reserved) + r.sub + r.data
  }

  /** The parts of an encoded record. */
  lemma {:induction false} RecordParts(r: Rec, bs: seq<byte>)
    requires WellFormed(r) && bs == EncodeRec(r)
    ensures |bs| == RecSize(r) && DecodeHdr(bs[..STREAM_HDR]) == r.hdr
    ensures bs[STREAM_HDR..STREAM_HDR + |r.sub|] == r.sub && bs[STREAM_HDR + |r.sub|..] == r.data
  {
    HeaderRoundTrip(r.hdr, r.reserved);
    assert bs[..STREAM_HDR] == EncodeHdr(r.hdr, r.reserved);
  }

  // ---------------------------------------------------------------- index files

  /** One T_INDEX_DATA; `info` stands for the stream type, event and picture size. */
  datatype IdxEntry = IdxEntry(id: int, ts: Ts, fpos: int, ch: int, info: seq<int>)

  /** BKT_transIndexPosToNum and BKT_transIndexNumToPos. */
  function IndexPosToNum(fpos: nat): nat
    requires fpos >= INDEX_HDR
  {
    (fpos - INDEX_HDR) / INDEX_DATA
  }

  function IndexNumToPos(n: nat): nat {
    n * INDEX_DATA + INDEX_HDR
  }

  lemma IndexPositions(n: nat)
    ensures IndexPosToNum(IndexNumToPos(n)) == n
  {
  }
}
