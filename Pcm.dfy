/**
 * Raw microphone frames: bytes of signed 16-bit little-endian mono PCM, and the
 * coarse voice-activity measure the capture loop computes over one frame.
 */
module Pcm {

  newtype byte = x: int | 0 <= x < 256

  type Bytes = seq<byte>

  /** Mean absolute sample amplitude above which a frame counts as speech. */
  const VolumeThreshold: int := 200

  /** `int.from_bytes([lo, hi], "little", signed=True)`. */
  function DecodeSample(lo: byte, hi: byte): int {
    var u := lo as int + 256 * hi as int;
    if u >= 32768 then u - 65536 else u
  }

  /** `int.from_bytes([b], "little", signed=True)`: the lone last byte of an odd-length frame. */
  function DecodeByte(b: byte): int {
    if b >= 128 then b as int - 256 else b as int
  }

  /** The two's-complement little-endian bytes of a 16-bit sample. */
  function EncodeSample(v: int): (byte, byte)
    requires -32768 <= v < 32768
  {
    var u := if v < 0 then v + 65536 else v;
    ((u % 256) as byte, (u / 256) as byte)
  }

  lemma DecodeRange(lo: byte, hi: byte)
    ensures -32768 <= DecodeSample(lo, hi) < 32768
    ensures -128 <= DecodeByte(lo) < 128
  {
  }

  /** Decoding inverts encoding on every 16-bit value ... */
  lemma DecodeEncode(v: int)
    requires -32768 <= v < 32768
    ensures DecodeSample(EncodeSample(v).0, EncodeSample(v).1) == v
  {
  }

  /** ... and encoding inverts decoding on every pair of bytes. */
  lemma EncodeDecode(lo: byte, hi: byte)
    ensures EncodeSample(DecodeSample(lo, hi)) == (lo, hi)
  {
  }

  function Abs(x: int): nat {
    if x < 0 then -x else x
  }

  /**
   * The samples of a frame, read two bytes at a time from the front; a trailing
   * odd byte is read on its own, as the slice `data[i:i+2]` then holds one byte.
   */
  function Samples(data: Bytes): (r: seq<int>)
    ensures |r| == (|data| + 1) / 2
    ensures forall k :: 0 <= k < |r| ==> Abs(r[k]) <= 32768
  {
    if |data| == 0 then []
    else if |data| == 1 then [DecodeByte(data[0])]
    else [DecodeSample(data[0], data[1])] + Samples(data[2..])
  }

  function SumAbs(xs: seq<int>): int {
    if xs == [] then 0 else Abs(xs[0]) + SumAbs(xs[1..])
  }

  /** The mean of the absolute samples never exceeds 32768. */
  lemma {:induction false} SumAbsBound(xs: seq<int>)
    requires forall k :: 0 <= k < |xs| ==> Abs(xs[k]) <= 32768
    ensures 0 <= SumAbs(xs) <= 32768 * |xs|
  {
    if xs != [] {
      SumAbsBound(xs[1..]);
    }
  }

  /**
   * The mean of the absolute samples exceeds the threshold (starter.py:212-214),
   * stated without division; it is only evaluated on non-empty frames, where the
   * two agree.
   */
  predicate Loud(data: Bytes) {
    SumAbs(Samples(data)) > VolumeThreshold * |Samples(data)|
  }

  /** For a positive count, a mean above the threshold is a total above threshold times count. */
  lemma DivAbove(t: real, n: real)
    requires n > 0.0
    ensures t / n > VolumeThreshold as real <==> t > VolumeThreshold as real * n
  {
    var q := t / n;
    assert q * n == t;
    if q > VolumeThreshold as real {
      assert (q - VolumeThreshold as real) * n > 0.0;
    }
    if t > VolumeThreshold as real * n {
      assert (q - VolumeThreshold as real) * n == t - VolumeThreshold as real * n;
    }
  }

  /** On a non-empty frame the integer test is the mean test `sum / len > 200` over the reals. */
  lemma LoudIsMeanAbove(data: Bytes)
    requires data != []
    ensures Loud(data) <==> (SumAbs(Samples(data)) as real) / (|Samples(data)| as real) > VolumeThreshold as real
  {
    DivAbove(SumAbs(Samples(data)) as real, |Samples(data)| as real);
  }

  /** A frame whose every sample is above the threshold is loud. */
  lemma {:induction false} AllAboveIsLoud(xs: seq<int>)
    requires xs != []
    requires forall k :: 0 <= k < |xs| ==> Abs(xs[k]) > VolumeThreshold
    ensures SumAbs(xs) > VolumeThreshold * |xs|
  {
    if |xs| > 1 {
      AllAboveIsLoud(xs[1..]);
    }
  }

  /** A frame whose every sample is at or below the threshold is not loud. */
  lemma {:induction false} AllBelowIsQuiet(xs: seq<int>)
    requires forall k :: 0 <= k < |xs| ==> Abs(xs[k]) <= VolumeThreshold
    ensures SumAbs(xs) <= VolumeThreshold * |xs|
  {
    if xs != [] {
      AllBelowIsQuiet(xs[1..]);
    }
  }

  /**
   * The per-sample loop of the capture loop: decodes each sample, adds up the
   * absolute values and counts the samples.
   */
  method MeasureVolume(data: Bytes) returns (total: int, count: nat)
    ensures count == |Samples(data)| == (|data| + 1) / 2
    ensures total == SumAbs(Samples(data))
    ensures 0 <= total <= 32768 * count
  {
    total, count := 0, 0;
    var i := 0;
    while i < |data|
      invariant 0 <= i <= |data|
      invariant total + SumAbs(Samples(data[i..])) == SumAbs(Samples(data))
      invariant count + |Samples(data[i..])| == |Samples(data)|
    {
      var sample;
      if i + 1 < |data| {
        sample := DecodeSample(data[i], data[i + 1]);
        assert data[i..][2..] == data[i + 2..];
        i := i + 2;
      } else {
        sample := DecodeByte(data[i]);
        i := i + 1;
      }
      total := total + Abs(sample);
      count := count + 1;
    }
    SumAbsBound(Samples(data));
  }
}
