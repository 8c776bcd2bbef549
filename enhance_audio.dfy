/**
 * The segment bookkeeping of CMGAN's `enhance_audio`: split the waveform into
 * chunks of `segment_len` samples, tail-pad each chunk shorter than `n_fft`
 * with zeros, run it through the spectral transform and the model, cut the
 * reconstruction back to the chunk's own length, and concatenate.
 *
 * Gain normalisation, STFT, spectral compression, the model call,
 * decompression, inverse STFT and gain removal are one opaque function
 * `reconstruct`. It receives the padded chunk together with the chunk's
 * pre-padding length, because the gain `sqrt(seg_length / sum(x^2))` is
 * computed before padding and a padded chunk does not determine that length
 * when the chunk ends in zeros. The waveform is one channel.
 */
module EnhanceAudio {
  import opened Segmentation

  /** Ways `enhance_audio` fails before producing output. */
  datatype Error =
    | ZeroSegmentLength     // `range(0, length, 0)` raises ValueError
    | NothingToConcatenate  // `torch.cat` of an empty list raises RuntimeError

  datatype Result<T> = Ok(value: T) | Err(error: Error)

  /** `torch.nn.functional.pad(segment, (0, n_fft - seg_length))` when the
      chunk is shorter than the transform window, the chunk itself otherwise. */
  function PadSegment<T>(segment: seq<T>, nFft: int, zero: T): (r: seq<T>)
    ensures |segment| < nFft ==>
              |r| == nFft && r[..|segment|] == segment &&
              forall k :: |segment| <= k < nFft ==> r[k] == zero
    ensures |segment| >= nFft ==> r == segment
  {
    if |segment| < nFft then segment + seq(nFft - |segment|, _ => zero) else segment
  }

  /** Python's `est[:n]`: the first n samples, or all of them when there are
      fewer. */
  function Truncate<T>(est: seq<T>, n: nat): (r: seq<T>)
    ensures |r| <= |est| && r == est[..|r|]
    ensures |est| >= n ==> |r| == n
    ensures |est| < n ==> r == est
  {
    est[..Min(n, |est|)]
  }

  /** One chunk of the second loop: pad, reconstruct, truncate to the length
      the chunk had BEFORE padding. */
  function EnhanceSegment<T>(segment: seq<T>, nFft: int, zero: T, reconstruct: (seq<T>, nat) -> seq<T>): (r: seq<T>)
    ensures |r| <= |segment|
    ensures var est := reconstruct(PadSegment(segment, nFft, zero), |segment|);
            |r| <= |est| && r == est[..|r|]
    ensures |reconstruct(PadSegment(segment, nFft, zero), |segment|)| >= |segment| ==> |r| == |segment|
  {
    Truncate(reconstruct(PadSegment(segment, nFft, zero), |segment|), |segment|)
  }

  /** Every chunk enhanced, in input order. */
  function EnhanceAll<T>(segments: seq<seq<T>>, nFft: int, zero: T, reconstruct: (seq<T>, nat) -> seq<T>): (r: seq<seq<T>>)
    ensures |r| == |segments|
    ensures forall k :: 0 <= k < |r| ==> r[k] == EnhanceSegment(segments[k], nFft, zero, reconstruct)
  {
    seq(|segments|, k requires 0 <= k < |segments| => EnhanceSegment(segments[k], nFft, zero, reconstruct))
  }

  /** The chunks `range(0, length, segment_len)` produces: none for a negative
      step, since 0 is not above a length. */
  function SplitPoints<T>(noisy: seq<T>, segmentLen: int): (r: seq<seq<T>>)
    requires segmentLen != 0
    ensures r == [] <==> segmentLen < 0 || |noisy| == 0
    ensures segmentLen > 0 ==> Flatten(r) == noisy
  {
    if segmentLen < 0 then []
    else
      FlattenSegments(noisy, segmentLen);
      Segments(noisy, segmentLen)
  }

  /** What `enhance_audio` writes, as a function of its inputs. It succeeds
      exactly for a positive step and a non-empty waveform. */
  function Enhanced<T>(noisy: seq<T>, zero: T, nFft: int, segmentLen: int, reconstruct: (seq<T>, nat) -> seq<T>): (r: Result<seq<T>>)
    ensures r.Ok? <==> segmentLen > 0 && |noisy| > 0
  {
    if segmentLen == 0 then Err(ZeroSegmentLength)
    else
      var segments := SplitPoints(noisy, segmentLen);
      if segments == [] then Err(NothingToConcatenate)
      else Ok(Flatten(EnhanceAll(segments, nFft, zero, reconstruct)))
  }

  /** The first loop: `for start in range(0, length, segment_len)` collecting
      `noisy[start:min(start + segment_len, length)]`. */
  method SplitSegments<T>(noisy: seq<T>, segmentLen: int) returns (segments: seq<seq<T>>)
    requires segmentLen != 0
    ensures segments == SplitPoints(noisy, segmentLen)
  {
    var length := |noisy|;
    segments := [];
    if segmentLen > 0 {
      var start := 0;
      while start < length
        invariant segments + SegmentsFrom(noisy, segmentLen, start) == Segments(noisy, segmentLen)
        decreases length - start
      {
        var end := Min(start + segmentLen, length);
        segments := segments + [noisy[start..end]];
        start := start + segmentLen;
      }
    }
  }

  /** The second loop: pad each chunk, reconstruct it, truncate the result to
      the chunk's pre-padding length, and collect the results in order. */
  method EnhanceSegments<T>(segments: seq<seq<T>>, zero: T, nFft: int, reconstruct: (seq<T>, nat) -> seq<T>)
    returns (enhancedSegments: seq<seq<T>>)
    ensures enhancedSegments == EnhanceAll(segments, nFft, zero, reconstruct)
  {
    enhancedSegments := [];
    for i := 0 to |segments|
      invariant |enhancedSegments| == i
      invariant forall k :: 0 <= k < i ==>
                  enhancedSegments[k] == EnhanceSegment(segments[k], nFft, zero, reconstruct)
    {
      var segment := segments[i];
      var segLength := |segment|;
      if segLength < nFft {
        segment := segment + seq(nFft - segLength, _ => zero);
      }
      var estAudio := reconstruct(segment, segLength);
      estAudio := estAudio[..Min(segLength, |estAudio|)];
      enhancedSegments := enhancedSegments + [estAudio];
    }
  }

  /** `enhance_audio` without its I/O: segmentation, per-chunk enhancement and
      the final concatenation, which fails on an empty list. */
  method EnhanceAudio<T>(noisy: seq<T>, zero: T, nFft: int, segmentLen: int, reconstruct: (seq<T>, nat) -> seq<T>)
    returns (r: Result<seq<T>>)
    ensures r == Enhanced(noisy, zero, nFft, segmentLen, reconstruct)
  {
    if segmentLen == 0 {
      return Err(ZeroSegmentLength);
    }
    var segments := SplitSegments(noisy, segmentLen);
    var enhancedSegments := EnhanceSegments(segments, zero, nFft, reconstruct);
    if enhancedSegments == [] {
      return Err(NothingToConcatenate);
    }
    r := Ok(Flatten(enhancedSegments));
  }

  // ---------------------------------------------------------------------------
  // Properties of the pipeline

  /** The two error paths: a zero step, and nothing to concatenate, which
      happens exactly for an empty waveform or a negative step. */
  lemma EnhancedFails<T>(noisy: seq<T>, zero: T, nFft: int, segmentLen: int, reconstruct: (seq<T>, nat) -> seq<T>)
    ensures var r := Enhanced(noisy, zero, nFft, segmentLen, reconstruct);
            (r == Err(ZeroSegmentLength) <==> segmentLen == 0) &&
            (r == Err(NothingToConcatenate) <==> segmentLen != 0 && (segmentLen < 0 || |noisy| == 0)) &&
            (r.Ok? <==> segmentLen > 0 && |noisy| > 0)
  {
  }

  /** Padding and then truncating to the pre-padding length gives the chunk
      back: with a reconstruction that returns its input, a chunk is unchanged. */
  lemma PadThenTruncate<T>(segment: seq<T>, nFft: int, zero: T)
    ensures Truncate(PadSegment(segment, nFft, zero), |segment|) == segment
  {
  }

  /** Does the reconstruction of a padded input keep at least its length? */
  ghost predicate KeepsLength<T(!new)>(reconstruct: (seq<T>, nat) -> seq<T>)
  {
    forall p: seq<T>, n: nat :: |reconstruct(p, n)| >= |p|
  }

  lemma EnhanceAllLengths<T(!new)>(segments: seq<seq<T>>, nFft: int, zero: T, reconstruct: (seq<T>, nat) -> seq<T>)
    requires KeepsLength(reconstruct)
    ensures var out := EnhanceAll(segments, nFft, zero, reconstruct);
            forall k :: 0 <= k < |segments| ==> |out[k]| == |segments[k]|
  {
  }

  /** Length preservation: when the reconstruction is never shorter than its
      padded input, the enhanced waveform has exactly as many samples as the
      noisy one. */
  lemma EnhancedLength<T(!new)>(noisy: seq<T>, zero: T, nFft: int, segmentLen: int, reconstruct: (seq<T>, nat) -> seq<T>)
    requires KeepsLength(reconstruct)
    requires segmentLen > 0 && |noisy| > 0
    ensures var r := Enhanced(noisy, zero, nFft, segmentLen, reconstruct);
            r.Ok? && |r.value| == |noisy|
  {
    EnhancedFails(noisy, zero, nFft, segmentLen, reconstruct);
    var segments := Segments(noisy, segmentLen);
    EnhanceAllLengths(segments, nFft, zero, reconstruct);
    FlattenSameLengths(EnhanceAll(segments, nFft, zero, reconstruct), segments);
    FlattenSegments(noisy, segmentLen);
  }

  /** Round trip: when the whole per-chunk chain (gain, transform, model,
      inverse transform, gain removal) returns its input, the output is the
      input, sample for sample. */
  lemma EnhancedIdentity<T>(noisy: seq<T>, zero: T, nFft: int, segmentLen: int)
    requires segmentLen > 0 && |noisy| > 0
    ensures Enhanced(noisy, zero, nFft, segmentLen, (p, n) => p) == Ok(noisy)
  {
    EnhancedFails(noisy, zero, nFft, segmentLen, (p, n) => p);
    var segments := Segments(noisy, segmentLen);
    var out := EnhanceAll(segments, nFft, zero, (p, n) => p);
    forall k | 0 <= k < |segments|
      ensures out[k] == segments[k]
    {
      PadThenTruncate(segments[k], nFft, zero);
    }
    assert out == segments;
    FlattenSegments(noisy, segmentLen);
  }

  /** Order: when the reconstruction keeps lengths, enhanced chunk i sits at
      exactly the positions [i * segment_len, min(i * segment_len +
      segment_len, length)) that noisy chunk i came from. */
  lemma EnhancedInOrder<T(!new)>(noisy: seq<T>, zero: T, nFft: int, segmentLen: int, reconstruct: (seq<T>, nat) -> seq<T>, i: nat)
    requires KeepsLength(reconstruct)
    requires segmentLen > 0 && i < SegmentCount(|noisy|, segmentLen)
    ensures var r := Enhanced(noisy, zero, nFft, segmentLen, reconstruct);
            var segments := Segments(noisy, segmentLen);
            r.Ok? && |r.value| == |noisy| &&
            |segments| == SegmentCount(|noisy|, segmentLen) && i * segmentLen < |noisy| &&
            r.value[i * segmentLen..Min(i * segmentLen + segmentLen, |noisy|)]
              == EnhanceSegment(segments[i], nFft, zero, reconstruct)
  {
    var segments := Segments(noisy, segmentLen);
    var out := EnhanceAll(segments, nFft, zero, reconstruct);
    SegmentAtIndex(noisy, segmentLen, i);
    EnhanceAllLengths(segments, nFft, zero, reconstruct);
    FlattenSameLengths(out, segments);
    FlattenSegments(noisy, segmentLen);
    FlattenPlacement(out, segments, i);
    PrefixOfSegments(noisy, segmentLen, i);
    assert Enhanced(noisy, zero, nFft, segmentLen, reconstruct) == Ok(Flatten(out));
  }

  /** The chunks before chunk i cover exactly the first i * segment_len
      samples. */
  lemma PrefixOfSegments<T>(noisy: seq<T>, segmentLen: nat, i: nat)
    requires segmentLen > 0 && i < |Segments(noisy, segmentLen)|
    ensures |Flatten(Segments(noisy, segmentLen)[..i])| == i * segmentLen
  {
    var segments := Segments(noisy, segmentLen);
    SegmentsAt(noisy, segmentLen);
    SegmentLengths(noisy, segmentLen);
    PrefixLength(segments[..i], segmentLen);
  }

  lemma {:induction false} PrefixLength<T>(ss: seq<seq<T>>, n: nat)
    requires forall k :: 0 <= k < |ss| ==> |ss[k]| == n
    ensures |Flatten(ss)| == |ss| * n
  {
    if ss != [] {
      PrefixLength(ss[1..], n);
    }
  }

  /** Example: 80000 samples (5 s at 16 kHz) in chunks of 24000
      give four chunks, of 24000, 24000, 24000 and 8000 samples. */
  lemma FiveSecondsIn24000Chunks<T>(noisy: seq<T>)
    requires |noisy| == 80000
    ensures var segments := Segments(noisy, 24000);
            |segments| == 4 &&
            |segments[0]| == 24000 && |segments[1]| == 24000 &&
            |segments[2]| == 24000 && |segments[3]| == 8000
  {
    SegmentsAt(noisy, 24000);
    assert SegmentCount(80000, 24000) == 4;
  }
}
