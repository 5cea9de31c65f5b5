// Positions in decoded audio, from crates/kael-media/src/native.rs: nanoseconds to sample offsets and
// back, the source that plays from an offset, and the copy of a strided video frame.
module AudioSamples {
  import opened Arithmetic
  import opened Options

  const NANOS := 1_000_000_000
  const U128_MAX := 0xFFFF_FFFF_FFFF_FFFF_FFFF_FFFF_FFFF_FFFF
  const U64_MAX := 0xFFFF_FFFF_FFFF_FFFF  // also the largest offset on a 64-bit machine

  function SaturatingMul(a: nat, b: nat): nat {
    Min(a * b, U128_MAX)
  }

  /** Decoded audio: interleaved samples, as many to a frame as there are channels. */
  datatype DecodedAudio = DecodedAudio(channels: nat, sampleRate: nat, samples: seq<real>, duration: nat) {
    /** What decoding guarantees: 16-bit channel counts, 32-bit rates, neither zero, and whole frames. */
    ghost predicate Valid() {
      && 0 < channels < 0x1_0000 && 0 < sampleRate < 0x1_0000_0000
      && |samples| % channels == 0 && |samples| <= U64_MAX
    }
  }

  /** `audio_sample_offset`. */
  function SampleOffset(audio: DecodedAudio, position: nat): nat {
    var frames := SaturatingMul(position, audio.sampleRate) / NANOS;
    var samples := SaturatingMul(frames, audio.channels);
    Min(Min(samples, U64_MAX), |audio.samples|)
  }

  /** `duration_from_sample_offset`. */
  function OffsetDuration(audio: DecodedAudio, offset: nat): nat {
    var samplesPerSecond := audio.sampleRate * audio.channels;
    if samplesPerSecond == 0 then 0
    else Min(SaturatingMul(offset, NANOS) / samplesPerSecond, U64_MAX)
  }

  // ----- Arithmetic -----

  lemma ProductBound(a: nat, b: nat, a': nat, b': nat)
    requires a <= a' && b <= b'
    ensures a * b <= a' * b'
  {
    assert a' * b' - a * b == a' * (b' - b) + (a' - a) * b;
  }

  lemma QuotientBounds(x: nat, d: nat)
    requires d > 0
    ensures (x / d) * d <= x < (x / d) * d + d
  {
  }

  lemma QuotientAtMost(x: nat, d: nat, q: nat)
    requires d > 0 && x < (q + 1) * d
    ensures x / d <= q
  {
    if x / d > q {
      ProductBound(q + 1, d, x / d, d);
    }
  }

  // ----- Offsets -----

  /** A duration is 64-bit seconds and nanoseconds. */
  const DURATION_MAX := U64_MAX * NANOS + (NANOS - 1)

  /** For every duration and every audio the saturating multiplications are exact. */
  lemma OffsetsDoNotSaturate(audio: DecodedAudio, position: nat)
    requires audio.Valid() && position <= DURATION_MAX
    ensures SampleOffset(audio, position) == Min(position * audio.sampleRate / NANOS * audio.channels, |audio.samples|)
  {
    ProductBound(position, audio.sampleRate, DURATION_MAX, 0x1_0000_0000);
    var frames := position * audio.sampleRate / NANOS;
    assert frames <= position * audio.sampleRate;
    ProductBound(frames, audio.channels, DURATION_MAX * 0x1_0000_0000 / NANOS, 0x1_0000) by {
      QuotientAtMost(position * audio.sampleRate, NANOS, DURATION_MAX * 0x1_0000_0000 / NANOS);
    }
  }

  /** The offset is that of the last whole frame not later than the position asked for, or the end of the samples if
      that comes first. */
  lemma OffsetIsAligned(audio: DecodedAudio, position: nat)
    requires audio.Valid() && position <= DURATION_MAX
    ensures SampleOffset(audio, position) % audio.channels == 0
    ensures SampleOffset(audio, position) <= |audio.samples|
    ensures SampleOffset(audio, position) / audio.channels * NANOS <= position * audio.sampleRate
    ensures SampleOffset(audio, position) == |audio.samples|
         || (SampleOffset(audio, position) / audio.channels + 1) * NANOS > position * audio.sampleRate
  {
    OffsetsDoNotSaturate(audio, position);
    var frames := position * audio.sampleRate / NANOS;
    MultipleModulo(frames, audio.channels);
    QuotientBounds(position * audio.sampleRate, NANOS);
    var total := |audio.samples| / audio.channels;
    if |audio.samples| < frames * audio.channels {
      QuotientAtMost(|audio.samples|, audio.channels, frames);
      ProductBound(total, NANOS, frames, NANOS);
    }
  }

  lemma Division(x: nat, d: nat) returns (q: nat, r: nat)
    requires d > 0
    ensures q == x / d && r == x % d && r < d && x == q * d + r
  {
    q, r := x / d, x % d;
  }

  lemma StrictProduct(a: nat, b: nat, d: nat)
    requires a < b && d > 0
    ensures a * d < b * d
  {
    ProductBound(a + 1, d, b, d);
    assert (a + 1) * d == a * d + d;
  }

  lemma FactorCancels(x: nat, rate: nat, channels: nat)
    requires rate > 0 && channels > 0
    ensures rate * channels > 0 && (x * channels) / (rate * channels) == x / rate
  {
    var q, r := Division(x, rate);
    StrictProduct(r, rate, channels);
    assert x * channels == q * (rate * channels) + r * channels by {
      assert (q * rate + r) * channels == q * rate * channels + r * channels;
      assert q * rate * channels == q * (rate * channels);
    }
    QuotientUnique(x * channels, rate * channels, q, r * channels);
  }

  lemma DurationOfFrames(audio: DecodedAudio, frame: nat)
    requires audio.Valid() && frame * audio.channels <= |audio.samples|
    requires frame * NANOS / audio.sampleRate <= U64_MAX
    ensures OffsetDuration(audio, frame * audio.channels) == frame * NANOS / audio.sampleRate
  {
    var offset := frame * audio.channels;
    ProductBound(offset, NANOS, U64_MAX, NANOS);
    assert offset * NANOS == (frame * NANOS) * audio.channels;
    FactorCancels(frame * NANOS, audio.sampleRate, audio.channels);
  }

  /** Dropping `r` of `frame` seconds' worth of units costs one frame, unless there is nothing to drop. */
  lemma FloorLosesAtMostOne(frame: nat, y: nat, r: nat)
    requires y + r == frame * NANOS && r < NANOS
    ensures y / NANOS == if r == 0 then frame else frame - 1
  {
  }

  lemma FrameRoundTrip(frame: nat, rate: nat)
    requires 0 < rate <= NANOS
    ensures frame * NANOS / rate * rate / NANOS == if (frame * NANOS) % rate == 0 then frame else frame - 1
  {
    var q, r := Division(frame * NANOS, rate);
    FloorLosesAtMostOne(frame, q * rate, r);
  }

  lemma FramesRoundTrip(audio: DecodedAudio, frame: nat)
    requires audio.Valid() && audio.sampleRate <= NANOS && frame * audio.channels <= |audio.samples|
    requires frame * NANOS / audio.sampleRate <= U64_MAX
    ensures var kept := if (frame * NANOS) % audio.sampleRate == 0 then frame else frame - 1;
            kept >= 0 && SampleOffset(audio, OffsetDuration(audio, frame * audio.channels)) == kept * audio.channels
  {
    DurationOfFrames(audio, frame);
    OffsetsDoNotSaturate(audio, frame * NANOS / audio.sampleRate);
    FrameRoundTrip(frame, audio.sampleRate);
    var kept := if (frame * NANOS) % audio.sampleRate == 0 then frame else frame - 1;
    ProductBound(kept, audio.channels, frame, audio.channels);
  }

  lemma OneLess(frame: int, d: nat)
    ensures (frame - 1) * d == frame * d - d
  {
  }

  /** From a whole-frame offset to its time and back: never past the offset, at most one frame short, and
      exact if and only if the time is a whole number of nanoseconds. */
  lemma RoundTrip(audio: DecodedAudio, offset: nat)
    requires audio.Valid() && audio.sampleRate <= NANOS
    requires offset <= |audio.samples| && offset % audio.channels == 0
    requires offset / audio.channels * NANOS / audio.sampleRate <= U64_MAX
    ensures var back := SampleOffset(audio, OffsetDuration(audio, offset));
            && (back == offset || back == offset - audio.channels)
            && (back == offset <==> (offset / audio.channels * NANOS) % audio.sampleRate == 0)
  {
    var frame := offset / audio.channels;
    assert frame * audio.channels == offset;
    FramesRoundTrip(audio, frame);
    OneLess(frame, audio.channels);
  }

  // ----- The source that plays decoded audio -----

  class SharedAudioSamples {
    const audio: DecodedAudio
    const start: nat
    var position: nat
    const duration: nat

    ghost predicate Valid()
      reads this
    {
      && audio.Valid()
      && start <= |audio.samples| && start % audio.channels == 0
      && position <= |audio.samples|
    }

    constructor (audio: DecodedAudio, from: nat)
      requires audio.Valid() && from <= DURATION_MAX
      ensures Valid() && this.audio == audio && start == position == SampleOffset(audio, from)
      ensures duration ==
              if OffsetDuration(audio, start) <= audio.duration then audio.duration - OffsetDuration(audio, start) else 0
    {
      OffsetIsAligned(audio, from);
      var offset := SampleOffset(audio, from);
      var skipped := OffsetDuration(audio, offset);
      this.audio, start, position := audio, offset, offset;
      duration := if skipped <= audio.duration then audio.duration - skipped else 0;
    }

    method Next() returns (sample: Option<real>)
      requires Valid()
      modifies this`position
      ensures Valid()
      ensures if old(position) < |audio.samples|
              then sample == Some(audio.samples[old(position)]) && position == old(position) + 1
              else sample == None && position == old(position)
    {
      if position >= |audio.samples| {
        return None;
      }
      sample := Some(audio.samples[position]);
      position := position + 1;
    }

    /** Seeks count from where the source starts; they land on a whole frame and stay inside the samples. */
    method TrySeek(to: nat)
      requires Valid() && to <= DURATION_MAX
      modifies this`position
      ensures Valid() && position == Min(start + SampleOffset(audio, to), |audio.samples|)
      ensures start <= position && position % audio.channels == 0
    {
      OffsetIsAligned(audio, to);
      SumIsAligned(start, SampleOffset(audio, to), audio.channels);
      position := Min(start + SampleOffset(audio, to), |audio.samples|);
    }
  }

  lemma SumIsAligned(a: nat, b: nat, d: nat)
    requires d > 0 && a % d == 0 && b % d == 0
    ensures (a + b) % d == 0
  {
    assert a == (a / d) * d && b == (b / d) * d;
    assert a + b == (a / d + b / d) * d;
    MultipleModulo(a / d + b / d, d);
  }

  // ----- Video frames -----

  const MAX_FRAME_BYTES := 128 * 1024 * 1024

  datatype FrameError = InvalidDimensions | TooLarge | ShortStride | Truncated

  datatype FrameResult = Ok(bytes: seq<byte>) | Err(error: FrameError)

  /** The first `rows` rows of a strided frame, without the padding. */
  ghost function Packed(source: seq<byte>, stride: nat, rowLen: nat, rows: nat): (packed: seq<byte>)
    requires rowLen <= stride && (rows > 0 ==> stride * (rows - 1) + rowLen <= |source|)
    ensures |packed| == rows * rowLen
    decreases rows
  {
    if rows == 0 then []
    else
      var at := stride * (rows - 1);
      assert rows > 1 ==> stride * (rows - 2) + stride == at;
      Packed(source, stride, rowLen, rows - 1) + source[at..at + rowLen]
  }

  lemma {:induction false} PackedAt(source: seq<byte>, stride: nat, rowLen: nat, rows: nat, row: nat, col: nat)
    requires rowLen <= stride && (rows > 0 ==> stride * (rows - 1) + rowLen <= |source|)
    requires row < rows && col < rowLen
    ensures row * rowLen + col < rows * rowLen && stride * row + col < |source|
    ensures Packed(source, stride, rowLen, rows)[row * rowLen + col] == source[stride * row + col]
    decreases rows
  {
    var at := stride * (rows - 1);
    assert rows > 1 ==> stride * (rows - 2) + stride == at;
    assert rows * rowLen == (rows - 1) * rowLen + rowLen;
    if row < rows - 1 {
      PackedAt(source, stride, rowLen, rows - 1, row, col);
    }
  }

  /** `copy_bgra_frame`, with its checks in order. */
  method CopyBgraFrame(width: nat, height: nat, stride: nat, source: seq<byte>) returns (result: FrameResult)
    ensures result == if width == 0 || height == 0 then Err(InvalidDimensions)
                      else if width * height * 4 > MAX_FRAME_BYTES then Err(TooLarge)
                      else if stride < width * 4 then Err(ShortStride)
                      else if |source| < stride * (height - 1) + width * 4 then Err(Truncated)
                      else Ok(Packed(source, stride, width * 4, height))
  {
    if width == 0 || height == 0 {
      return Err(InvalidDimensions);
    }
    var byteLen := width * height * 4;
    if byteLen > MAX_FRAME_BYTES {
      return Err(TooLarge);
    }
    var rowLen := width * 4;
    if stride < rowLen {
      return Err(ShortStride);
    }
    if |source| < stride * (height - 1) + rowLen {
      return Err(Truncated);
    }
    assert byteLen == height * rowLen;
    var bytes := new byte[byteLen](_ => 0);
    for row := 0 to height
      invariant row * rowLen <= bytes.Length
      invariant row > 0 ==> stride * (row - 1) + rowLen <= |source|
      invariant bytes[..row * rowLen] == Packed(source, stride, rowLen, row)
    {
      ProductBound(stride, row, stride, height - 1);
      ProductBound(row + 1, rowLen, height, rowLen);
      assert (row + 1) * rowLen == row * rowLen + rowLen;
      CopyBytes(bytes, row * rowLen, source, stride * row, rowLen);
      assert Packed(source, stride, rowLen, row + 1)
          == Packed(source, stride, rowLen, row) + source[stride * row..stride * row + rowLen];
    }
    assert bytes[..] == bytes[..height * rowLen];
    result := Ok(bytes[..]);
  }

  /** `copy_from_slice` onto the end of what has been written. */
  method CopyBytes(bytes: array<byte>, to: nat, source: seq<byte>, from: nat, len: nat)
    requires to + len <= bytes.Length && from + len <= |source|
    modifies bytes
    ensures bytes[..to + len] == old(bytes[..to]) + source[from..from + len]
  {
    for i := 0 to len
      invariant bytes[..to] == old(bytes[..to])
      invariant bytes[to..to + i] == source[from..from + i]
    {
      bytes[to + i] := source[from + i];
    }
    assert bytes[..to + len] == bytes[..to] + bytes[to..to + len];
  }
}
