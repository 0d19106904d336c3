/** The G.711 mu-law codec (src/app_alg_uLawCodec.c) and its whole-buffer callers
    (src/app_audio_EncDec.c).  A 16-bit sample is cut to 14 bits, coded to one byte,
    and two codes are packed in one 16-bit word, the first in the low half. */
module Ulaw {

  type sample = x: int | -32768 <= x <= 32767
  type word = x: int | 0 <= x < 0x10000
  type code = x: int | 0 <= x < 256

  // ---------------------------------------------------------------- scalar codec

  function MagnitudeCode(data: nat): (n: nat)
    requires data <= 8192
    ensures n <= 127
  {
    if data <= 1 then data
    else if data <= 31 then (data - 1) / 2 + 1
    else if data <= 95 then (data - 31) / 4 + 16
    else if data <= 223 then (data - 95) / 8 + 32
    else if data <= 479 then (data - 223) / 16 + 48
    else if data <= 991 then (data - 479) / 32 + 64
    else if data <= 2015 then (data - 991) / 64 + 80
    else if data <= 4063 then (data - 2015) / 128 + 96
    else if data <= 7903 then (data - 4063) / 256 + 112
    else 127
  }

  /** The 14-bit value of a sample: an arithmetic shift right by two, which rounds
      towards minus infinity, as Dafny's division by a positive number does. */
  function Linear14(s: sample): (d: int)
    ensures -8192 <= d <= 8191
  {
    s / 4
  }

  function EncodeSample(s: sample): code {
    var data := Linear14(s);
    if data < 0 then 127 - MagnitudeCode(-data) else 255 - MagnitudeCode(data)
  }

  function MagnitudeOf(n: nat): nat
    requires n <= 127
  {
    if n < 2 then n * 2
    else if n < 16 then (n - 1) * 2 + 1 + 1
    else if n < 32 then (n - 16) * 4 + 2 + 31
    else if n < 48 then (n - 32) * 8 + 4 + 95
    else if n < 64 then (n - 48) * 16 + 8 + 223
    else if n < 80 then (n - 64) * 32 + 16 + 479
    else if n < 96 then (n - 80) * 64 + 32 + 991
    else if n < 112 then (n - 96) * 128 + 64 + 2015
    else (n - 112) * 256 + 128 + 4063
  }

  /** The 14-bit value a code stands for. */
  function Decode14(c: code): (d: int)
    ensures -8031 <= d <= 8031
  {
    if c < 128 then -(MagnitudeOf(127 - c) as int) else MagnitudeOf(255 - c)
  }

  function DecodeSample(c: code): sample {
    4 * Decode14(c)
  }

  // ---------------------------------------------------------------- the G.711 tables

  /** The step size of segment s: 2^(s + 1). */
  function SegmentStep(s: nat): (p: int)
    requires s <= 8
    ensures s > 0 ==> p == 2 * SegmentStep(s - 1)
  {
    if s == 0 then 2 else if s == 1 then 4 else if s == 2 then 8 else if s == 3 then 16
    else if s == 4 then 32 else if s == 5 then 64 else if s == 6 then 128
    else if s == 7 then 256 else 512
  }

  /** The lower decision value of magnitude code n in ITU-T G.711, section 3,
      Tables 2a and 2b: the whole scale is shifted down by 33, and the decision
      values of segment n / 16 are 16 to 31 of its steps.  Code 0 shares its first
      step with code 0 of the other sign, so its decision value is -1. */
  function Decision(n: nat): int
    requires n <= 128
  {
    (16 + n % 16) * SegmentStep(n / 16) - 33
  }

  function StepOf(n: nat): int
    requires n <= 127
  {
    SegmentStep(n / 16)
  }

  /** Each code's step starts where the previous one ends, and the code decodes to
      the middle of its step. */
  lemma {:induction false} DecodesToMidpoint(n: nat)
    requires n <= 127
    ensures 2 * (MagnitudeOf(n) - Decision(n)) == StepOf(n)
    ensures Decision(n + 1) - Decision(n) == StepOf(n)
  {
    var s, r := n / 16, n % 16;
    MidpointInSegment(s, r);
    if r == 15 {
      assert (n + 1) / 16 == s + 1 && (n + 1) % 16 == 0;
    } else {
      assert (n + 1) / 16 == s && (n + 1) % 16 == r + 1;
      assert (17 + r) * SegmentStep(s) == (16 + r) * SegmentStep(s) + SegmentStep(s);
    }
  }

  lemma MidpointInSegment(s: nat, r: nat)
    requires s <= 7 && r <= 15
    ensures 2 * (MagnitudeOf(16 * s + r) - ((16 + r) * SegmentStep(s) - 33)) == SegmentStep(s)
  {
  }

  /** A magnitude below the overload point 8159 lies in the quantisation step, in the
      sense of the standard, of the code it gets. */
  lemma {:induction false} CodeContainsMagnitude(data: nat)
    requires data < 8159
    ensures var n := MagnitudeCode(data); Decision(n) <= data < Decision(n) + StepOf(n)
  {
    var n := MagnitudeCode(data);
    var s := n / 16;
    if data <= 30 { assert s == 0; } else if data <= 94 { assert s == 1; }
    else if data <= 222 { assert s == 2; } else if data <= 478 { assert s == 3; }
    else if data <= 990 { assert s == 4; } else if data <= 2014 { assert s == 5; }
    else if data <= 4062 { assert s == 6; } else { assert s == 7; }
  }

  /** Decision values grow with the code, by at least the step. */
  lemma {:induction false} DecisionsIncrease(m: nat, n: nat)
    requires m < n <= 128
    ensures Decision(m) + StepOf(m) <= Decision(n)
    decreases n
  {
    DecodesToMidpoint(n - 1);
    if m < n - 1 {
      DecisionsIncrease(m, n - 1);
      var s := (n - 1) / 16;
      assert StepOf(n - 1) == SegmentStep(s) > 0;
    }
  }

  /** A magnitude below the overload point gets code n exactly when it lies in the
      n-th quantisation step of the standard. */
  lemma {:induction false} CodeIsQuantisationStep(data: nat, n: nat)
    requires data < 8159 && n <= 127
    ensures MagnitudeCode(data) == n <==> Decision(n) <= data < Decision(n) + StepOf(n)
  {
    var m := MagnitudeCode(data);
    CodeContainsMagnitude(data);
    if m < n {
      DecisionsIncrease(m, n);
    } else if n < m {
      DecisionsIncrease(n, m);
    }
  }

  function Abs(x: int): nat { if x < 0 then -x else x }

  /** The magnitude code inside a code byte. */
  function CodeMagnitude(c: code): (n: nat)
    ensures n <= 127
  {
    if c < 128 then 127 - c else 255 - c
  }

  /** Coding and decoding any sample keeps its sign and moves its 14-bit value by at
      most half the quantisation step its code belongs to; from the overload point
      on it clips to 8031. */
  lemma {:induction false} HalfStepError(s: sample)
    ensures var d := Linear14(s); var c := EncodeSample(s);
            if Abs(d) <= 8159
            then 2 * Abs(Decode14(c) - d) <= StepOf(CodeMagnitude(c))
            else Decode14(c) == if d < 0 then -8031 else 8031
    ensures Linear14(s) > 0 ==> Decode14(EncodeSample(s)) > 0
    ensures Linear14(s) < 0 ==> Decode14(EncodeSample(s)) < 0
    ensures Linear14(s) == 0 ==> Decode14(EncodeSample(s)) == 0
  {
    var d := Linear14(s);
    var n := MagnitudeCode(Abs(d));
    CodeSign(s);
    if Abs(d) < 8159 {
      CodeContainsMagnitude(Abs(d));
      DecodesToMidpoint(n);
    }
  }

  /** In the 16-bit scale: a sample comes back with at most twice the step of its code, which
      is given in the 14-bit scale, and the three that its cut to 14 bits can cost; from the
      overload point on it clips to 32124. */
  lemma {:induction false} SampleError(s: sample)
    ensures var c := EncodeSample(s);
            if -32636 <= s <= 32639 then -2 * StepOf(CodeMagnitude(c)) - 3 <= DecodeSample(c) - s <= 2 * StepOf(CodeMagnitude(c))
            else DecodeSample(c) == if s < 0 then -32124 else 32124
    ensures s >= 4 ==> DecodeSample(EncodeSample(s)) > 0
    ensures s < 0 ==> DecodeSample(EncodeSample(s)) < 0
    ensures 0 <= s < 4 ==> DecodeSample(EncodeSample(s)) == 0
  {
    hide MagnitudeCode, MagnitudeOf, StepOf;
    HalfStepError(s);
  }

  /** The code of a sample carries its magnitude code and its sign. */
  lemma CodeSign(s: sample)
    ensures var d := Linear14(s); var n := MagnitudeCode(Abs(d));
            CodeMagnitude(EncodeSample(s)) == n &&
            Decode14(EncodeSample(s)) == (if d < 0 then -(MagnitudeOf(n) as int) else MagnitudeOf(n) as int) &&
            (d != 0 ==> n > 0)
  {
  }

  /** Coding again what a code decodes to gives the code back, except that the
      negative zero 0x7F comes back as 0xFF; and that is the only exception. */
  lemma {:induction false} ReencodeFixpoint(c: code)
    ensures EncodeSample(DecodeSample(c)) == c <==> c != 0x7F
    ensures EncodeSample(DecodeSample(0x7F)) == 0xFF
  {
    var n := CodeMagnitude(c);
    MagnitudeFixpoint(n);
    assert Linear14(DecodeSample(c)) == Decode14(c);
  }

  lemma MagnitudeFixpoint(n: nat)
    requires n <= 127
    ensures MagnitudeOf(n) <= 8031 && MagnitudeCode(MagnitudeOf(n)) == n
    ensures n > 0 ==> MagnitudeOf(n) > 0
  {
  }

  // ---------------------------------------------------------------- whole buffers

  /** The codes of a buffer, and the samples of a code buffer: what the two methods
      below compute. */
  function EncodeAll(src: seq<sample>): (cs: seq<code>)
    ensures |cs| == |src|
  {
    seq(|src|, i requires 0 <= i < |src| => EncodeSample(src[i]))
  }

  function DecodeAll(cs: seq<code>): (out: seq<sample>)
    ensures |out| == |cs|
  {
    seq(|cs|, i requires 0 <= i < |cs| => DecodeSample(cs[i]))
  }

  /** Byte i of a buffer of 16-bit words on a little-endian machine. */
  function ByteAt(ws: seq<word>, i: nat): code
    requires i / 2 < |ws|
  {
    if i % 2 == 0 then ws[i / 2] % 256 else ws[i / 2] / 256
  }

  function Pack(low: code, high: code): word {
    var w: int := 256 * (high as int) + low;
    w
  }

  lemma UnpackedBytes(ws: seq<word>, codes: seq<code>, n: nat)
    requires n <= |codes| && n <= 2 * |ws|
    requires forall k :: 0 <= k < n / 2 ==> ws[k] == Pack(codes[2 * k], codes[2 * k + 1])
    requires n % 2 == 1 ==> ws[n / 2] == codes[n - 1]
    ensures forall i :: 0 <= i < n ==> ByteAt(ws, i) == codes[i]
  {
  }

  /** ALG_ulawEncode.  The loop counter is a 16-bit unsigned number, so the call
      returns only when there are fewer than 65536 samples; `bufsize` counts bytes. */
  method UlawEncode(dst: array<word>, src: array<sample>, bufsize: nat) returns (outputSize: nat)
    requires bufsize / 2 < 65536
    requires bufsize / 2 <= src.Length && bufsize / 2 <= 2 * dst.Length
    requires dst as object != src as object
    modifies dst
    ensures outputSize == bufsize / 2
    ensures forall i :: 0 <= i < outputSize ==> ByteAt(dst[..], i) == EncodeAll(src[..])[i]
    ensures forall k :: (outputSize + 1) / 2 <= k < dst.Length ==> dst[k] == old(dst[k])
  {
    hide EncodeSample, Pack, ByteAt;
    outputSize := bufsize / 2;
    ghost var codes := EncodeAll(src[..]);
    var i := 0;
    var lowByte := true;
    while i < outputSize
      invariant 0 <= i <= outputSize
      invariant lowByte == (i % 2 == 0)
      invariant forall k :: 0 <= k < i / 2 ==> dst[k] == Pack(codes[2 * k], codes[2 * k + 1])
      invariant !lowByte ==> dst[i / 2] == codes[i - 1]
      invariant forall k :: (i + 1) / 2 <= k < dst.Length ==> dst[k] == old(dst[k])
    {
      var nOut := EncodeSample(src[i]);
      assert nOut == codes[i];
      if lowByte {
        dst[i / 2] := nOut;
      } else {
        // the high half is still zero, so the bitwise OR is a sum
        dst[i / 2] := Pack(dst[i / 2], nOut);
      }
      lowByte := !lowByte;
      i := i + 1;
    }
    UnpackedBytes(dst[..], codes, outputSize);
  }

  /** AUDIO_audioDecode: both arms of its switch run the same loop. */
  method AudioDecode(inData: array<code>, outData: array<sample>, inBufSize: int) returns (ok: bool)
    requires inBufSize <= inData.Length && inBufSize <= outData.Length
    requires inData as object != outData as object
    modifies outData
    ensures ok
    ensures forall i :: 0 <= i < inBufSize ==> outData[i] == DecodeSample(inData[i])
    ensures forall i :: 0 <= i < outData.Length && i >= inBufSize ==> outData[i] == old(outData[i])
  {
    var i := 0;
    while i < inBufSize
      invariant 0 <= i && (inBufSize >= 0 ==> i <= inBufSize) && (inBufSize < 0 ==> i == 0)
      invariant forall k :: 0 <= k < i ==> outData[k] == DecodeSample(inData[k])
      invariant forall k :: i <= k < outData.Length ==> outData[k] == old(outData[k])
    {
      outData[i] := DecodeSample(inData[i]);
      i := i + 1;
    }
    ok := true;
  }

  /** A whole buffer coded, decoded and coded again does not change any further. */
  lemma {:induction false} BufferRoundTrip(src: seq<sample>)
    ensures EncodeAll(DecodeAll(EncodeAll(src))) == EncodeAll(src)
  {
    var cs := EncodeAll(src);
    CodeBufferRoundTrip(cs);
    forall i | 0 <= i < |src|
      ensures cs[i] != 0x7F
    {
      NeverNegativeZero(src[i]);
    }
  }

  /** The encoder never produces the negative zero. */
  lemma NeverNegativeZero(s: sample)
    ensures EncodeSample(s) != 0x7F
  {
  }

  /** A decoded code buffer codes back to the same bytes, with every 0x7F as 0xFF. */
  lemma {:induction false} CodeBufferRoundTrip(cs: seq<code>)
    ensures EncodeAll(DecodeAll(cs)) ==
            seq(|cs|, i requires 0 <= i < |cs| => if cs[i] == 0x7F then 0xFF else cs[i])
  {
    forall i | 0 <= i < |cs|
      ensures EncodeAll(DecodeAll(cs))[i] == if cs[i] == 0x7F then 0xFF else cs[i]
    {
      ReencodeFixpoint(cs[i]);
    }
  }
}
