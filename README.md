# Speech enhancement toolkit: shape and segment bookkeeping

This project models the integer and shape bookkeeping of two speech-enhancement
scripts and proves properties about it in Dafny. The neural models and the
signal processing are not part of the model.

- **UNet variant, `resize_spectrogram`** (`resize_spectrogram.dfy`, module
  `SpectrogramResize`). A magnitude spectrogram is forced to the network's fixed
  input shape. Each axis is handled on its own: a short axis is zero-padded
  symmetrically, with the odd element on the trailing side; a long axis is
  cropped around its centre from `(current - target) // 2`; an axis that already
  fits is left alone. This is written as pure functions over a `Spectrogram<T>`,
  which holds a row sequence and an explicit width. The element type is generic
  and `zero` is the padding value. The lemmas give the resulting shape, say which
  input cell each output cell comes from (`Offset`/`CellAt`), show that an axis
  already at its target is not shifted, that a matching shape is returned
  unchanged, and that resizing is idempotent.
- **CMGAN variant, `enhance_audio`** (`segmentation.dfy`, module `Segmentation`,
  and `enhance_audio.dfy`, module `EnhanceAudio`). The waveform is split into
  chunks `[start, min(start + segment_len, length))` for
  `start in range(0, length, segment_len)`. Each chunk shorter than `n_fft` is
  tail-padded with zeros. It then goes through the transform and the model, is
  truncated back to its pre-padding length, and the results are concatenated.
  The source's two loops become the methods `SplitSegments` and `EnhanceSegments`.
  The method `EnhanceAudio` runs both and is proved equal to the specification
  function `Enhanced`. The lemmas prove the segmentation
  (start positions, count `ceil(length / segment_len)`, chunk lengths, exact
  coverage), the padding and truncation facts, length preservation, the identity
  round trip and positional order.
  The per-chunk chain is one opaque parameter, `reconstruct: (seq<T>, nat) -> seq<T>`.
  It covers gain normalisation, STFT, compression, the model call,
  decompression, inverse STFT and gain removal. It is applied to the padded
  chunk and to the chunk's pre-padding length. The length is needed because
  the gain `sqrt(seg_length / sum(x^2))` is computed before padding, and a
  padded chunk that ends in zeros does not determine that length.

Error behaviour and truncation:

- A non-positive `segment_len` does not give one uniform configuration error.
  `range(0, length, 0)` raises (`Err(ZeroSegmentLength)`). A negative step
  produces no chunks, and the final `torch.cat` of an empty list then raises
  (`Err(NothingToConcatenate)`). That second error is also what an empty
  waveform gets.
- Truncation is Python slicing `[:seg_length]`, which clamps. The method
  therefore needs no assumption about how long the reconstruction is. Only the
  length-preservation and ordering lemmas assume the reconstruction is at least
  as long as its padded input.

## Model

| member | source | states |
|---|---|---|
| `SpectrogramResize.CentredSplit` | UNet/Speech-enhancement/unet_audio_filter_script.py:16-27 | the two padding amounts sum to the pad and differ by at most one, with the larger one on the trailing side |
| `SpectrogramResize.PadCentred` | UNet/Speech-enhancement/unet_audio_filter_script.py:16-28 | padding one axis gives exactly `target` elements; element k of the input sits at k + lead and every other position is the fill value |
| `SpectrogramResize.CropCentred` | UNet/Speech-enhancement/unet_audio_filter_script.py:20-31 | cropping one axis gives `target` elements; output k is input k + (current - target) / 2 |
| `SpectrogramResize.PadRows` | UNet/Speech-enhancement/unet_audio_filter_script.py:16-19 | row padding gives target_h rectangular rows of the same width; input row i lands at i + pad_top and every other row is zeros |
| `SpectrogramResize.CropRows` | UNet/Speech-enhancement/unet_audio_filter_script.py:20-22 | row cropping gives target_h rows of the same width; output row r is input row r + crop_start |
| `SpectrogramResize.PadColumns` | UNet/Speech-enhancement/unet_audio_filter_script.py:24-28 | column padding keeps the row count, gives width target_w, puts pad_left zero columns before the data and zero columns after it |
| `SpectrogramResize.CropColumns` | UNet/Speech-enhancement/unet_audio_filter_script.py:29-31 | column cropping keeps the row count; output column c is input column c + crop_start |
| `SpectrogramResize.ResizeRows` | UNet/Speech-enhancement/unet_audio_filter_script.py:15-22 | the height step yields target_h rows, never changes the column count, and is the identity when the height already matches |
| `SpectrogramResize.ResizeSpectrogram` | UNet/Speech-enhancement/unet_audio_filter_script.py:10-33 | for any rectangular input the result is rectangular with exactly target_h rows and target_w columns; it is the input when both axes match; the width test on the original shape is sound because the height step keeps the width |
| `SpectrogramResize.ResizeRowsCellAt` | UNet/Speech-enhancement/unet_audio_filter_script.py:15-22 | after the height step, cell (i, j) is input cell (i - offset, j), or zero outside the input |
| `SpectrogramResize.ResizeCellAt` | UNet/Speech-enhancement/unet_audio_filter_script.py:10-33 | every output cell is the input cell shifted by both axes' offsets (pad lead or minus crop start), or zero outside the input |
| `SpectrogramResize.ResizeUntouchedAxis` | UNet/Speech-enhancement/unet_audio_filter_script.py:15-31 | an axis whose length equals its target keeps its indices; only the other axis is shifted |
| `SpectrogramResize.ResizeIdempotent` | UNet/Speech-enhancement/unet_audio_filter_script.py:10-33 | resize(resize(x, s), s) == resize(x, s) |
| `Segmentation.Segments` | CMGAN/src/cmgan_predict.py:17-21 | the chunks of the whole waveform: none exactly when it is empty, each non-empty and at most segment_len long; positions, count and coverage are in SegmentsAt, SegmentLengths and FlattenSegments |
| `Segmentation.Flatten` | CMGAN/src/cmgan_predict.py:63 | concatenation in list order: empty for no chunks, at least as long as each chunk; chunk placement is in FlattenPlacement |
| `Segmentation.SegmentsFrom` | CMGAN/src/cmgan_predict.py:17-21 | every chunk is non-empty and at most segment_len long; there are no chunks exactly when the start is at or past the end |
| `Segmentation.SegmentsFromAt` | CMGAN/src/cmgan_predict.py:19-21 | chunk i from `start` spans [start + i*n, min(start + i*n + n, length)), and the number of chunks is ceil((length - start) / n) |
| `Segmentation.SegmentsAt` | CMGAN/src/cmgan_predict.py:19-21 | chunk i starts at i*segment_len and ends at min(i*segment_len + segment_len, length); there are ceil(length / segment_len) chunks; an empty waveform gives none |
| `Segmentation.SegmentLengths` | CMGAN/src/cmgan_predict.py:19-21 | chunks are non-empty and at most segment_len long, and all but the last are exactly segment_len long |
| `Segmentation.FlattenSegmentsFrom` | CMGAN/src/cmgan_predict.py:19-21 | the chunks from `start` concatenate to the waveform's suffix from `start` |
| `Segmentation.FlattenSegments` | CMGAN/src/cmgan_predict.py:19-21 | concatenating the chunks reproduces the waveform exactly |
| `Segmentation.FlattenSameLengths` | CMGAN/src/cmgan_predict.py:63 | lists of chunks with pairwise equal lengths concatenate to equal lengths |
| `Segmentation.FlattenPlacement` | CMGAN/src/cmgan_predict.py:63 | in the concatenation, chunk i occupies the positions that follow all earlier chunks |
| `EnhanceAudio.SplitPoints` | CMGAN/src/cmgan_predict.py:19-21 | the chunks of `range(0, length, segment_len)` for a non-zero step: none exactly when the step is negative or the waveform empty, and for a positive step they concatenate back to the waveform |
| `EnhanceAudio.Enhanced` | CMGAN/src/cmgan_predict.py:17-63 | what `enhance_audio` produces: a waveform exactly when segment_len > 0 and the waveform is non-empty; its errors, length, identity round trip and order are in EnhancedFails, EnhancedLength, EnhancedIdentity and EnhancedInOrder |
| `EnhanceAudio.PadSegment` | CMGAN/src/cmgan_predict.py:34-37 | a chunk shorter than n_fft becomes n_fft long, keeps its samples as a prefix and has a zero tail; a longer chunk is unchanged |
| `EnhanceAudio.Truncate` | CMGAN/src/cmgan_predict.py:54 | `[:n]` gives a prefix of the reconstruction, exactly n long when the reconstruction is at least n long, and the whole of it otherwise |
| `EnhanceAudio.EnhanceSegment` | CMGAN/src/cmgan_predict.py:34-54 | an enhanced chunk is a prefix of the reconstruction of the padded chunk, never longer than the pre-padding chunk, and exactly that long when the reconstruction is long enough |
| `EnhanceAudio.EnhanceAll` | CMGAN/src/cmgan_predict.py:24-56 | one enhanced chunk per input chunk, position by position |
| `EnhanceAudio.SplitSegments` | CMGAN/src/cmgan_predict.py:17-21 | the segmentation loop collects exactly the chunks of `range(0, length, segment_len)`: `Segments` for a positive step, none for a negative one |
| `EnhanceAudio.EnhanceSegments` | CMGAN/src/cmgan_predict.py:23-56 | the per-chunk loop (pad, reconstruct, truncate to the pre-padding length, append) yields enhanced chunk k at position k for every input chunk |
| `EnhanceAudio.EnhanceAudio` | CMGAN/src/cmgan_predict.py:10-63 | segmentation, per-chunk enhancement and concatenation compute exactly `Enhanced`: the error for a zero step, the error for nothing to concatenate, or else the in-order concatenation of the enhanced chunks |
| `EnhanceAudio.EnhancedFails` | CMGAN/src/cmgan_predict.py:17-63 | the result is the zero-step error iff segment_len == 0, the empty-concatenation error iff segment_len is negative or the waveform empty, and a waveform otherwise |
| `EnhanceAudio.PadThenTruncate` | CMGAN/src/cmgan_predict.py:34-54 | padding and then truncating to the pre-padding length returns the original chunk |
| `EnhanceAudio.EnhanceAllLengths` | CMGAN/src/cmgan_predict.py:34-56 | if the reconstruction never shortens its input, every enhanced chunk has its original chunk's length |
| `EnhanceAudio.EnhancedLength` | CMGAN/src/cmgan_predict.py:17-63 | if the reconstruction never shortens its input, the output waveform has exactly the input's length |
| `EnhanceAudio.EnhancedIdentity` | CMGAN/src/cmgan_predict.py:17-63 | when the whole per-chunk chain `reconstruct` returns its padded input (gain and its removal included), the output equals the input sample for sample |
| `EnhanceAudio.EnhancedInOrder` | CMGAN/src/cmgan_predict.py:19-63 | if lengths are kept, output positions [i*segment_len, min(i*segment_len + segment_len, length)) hold exactly enhanced chunk i |
| `EnhanceAudio.PrefixOfSegments` | CMGAN/src/cmgan_predict.py:19-21 | the chunks before chunk i together hold i*segment_len samples |
| `EnhanceAudio.FiveSecondsIn24000Chunks` | CMGAN/src/cmgan_predict.py:17-21 | 80000 samples in chunks of 24000 give four chunks of 24000, 24000, 24000 and 8000 |

## Left out

- The per-segment gain `c = sqrt(n / sum(x^2))` and its removal `est_audio / c` (CMGAN/src/cmgan_predict.py:29-31, 53). This is floating point, and it divides by zero on a silent chunk without a guard. It is part of `reconstruct`, which is why that function also receives the pre-padding length the gain uses.
- `torch.stft`, `torch.istft`, `power_compress`, `power_uncompress`, the axis permutes and the model call under `amp.autocast`. These are foreign numerics and the neural network. Together they are the opaque `reconstruct`.
- EnhancedLength: assumes the reconstruction is at least as long as its padded input. Whether the inverse STFT guarantees this depends on its framing (`hop`, centring), which is not part of this model.
- EnhancedInOrder: rests on the same length assumption as EnhancedLength.
- Multi-channel input is not modelled. The model handles one channel. For more than one channel, the source fails at CMGAN/src/cmgan_predict.py:53, where the per-channel gain does not broadcast against the reconstructed samples.
- GPU placement and memory release (`.cuda()`, `del`, `torch.cuda.empty_cache()`). This is resource plumbing with no logical effect.
- File and model I/O, directory listing, output-directory creation, argument parsing, `main` in both scripts and the UNet default-output-directory logic.
- The sample-rate `assert`s. They only abort. The scripts do not recover per file or continue a batch, so batch resilience is not modelled.
- `filter_audio`'s scaling (`scaled_in`, `inv_scaled_ou`), magnitude/phase conversion and its reuse of the original phase. These are calls into code that is not part of this model. `filter_and_resample.py` is omitted for the same reason.
- Floating-point values. Samples and spectrogram cells are a generic element type, so no numeric property of them is stated.
