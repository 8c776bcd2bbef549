/**
 * Centred pad/crop of a 2-D magnitude spectrogram to the fixed input shape
 * of the UNet denoiser (`resize_spectrogram`).
 *
 * Each axis is treated on its own: a short axis is zero-padded on both sides,
 * the odd extra element going to the trailing side; a long axis is cropped
 * around its centre; an axis of the right length is left alone. The element
 * type is generic; `zero` is the value `np.pad(mode='constant')` writes.
 */
module SpectrogramResize {

  /** A height x width array. `width` is kept explicitly so that an array with
      no rows still has a column count, as a numpy array of shape (0, w) does. */
  datatype Spectrogram<T> = Spectrogram(rows: seq<seq<T>>, width: nat)

  /** Every row has `width` elements. */
  predicate Rectangular<T>(x: Spectrogram<T>)
  {
    forall i :: 0 <= i < |x.rows| ==> |x.rows[i]| == x.width
  }

  /** `n` copies of `v`. */
  function Fill<U>(n: nat, v: U): (r: seq<U>)
    ensures |r| == n
    ensures forall k :: 0 <= k < n ==> r[k] == v
  {
    seq(n, _ => v)
  }

  /** How `pad` elements are shared between the leading and the trailing side:
      as evenly as possible, the odd one going to the trailing side. */
  function CentredSplit(pad: nat): (r: (nat, nat))
    ensures r.0 + r.1 == pad
    ensures r.0 <= r.1 <= r.0 + 1
  {
    var top := pad / 2;
    (top, pad - top)
  }

  /** Zero-pads one axis symmetrically to `target` elements. */
  function PadCentred<U>(s: seq<U>, target: nat, fill: U): (r: seq<U>)
    requires |s| < target
    ensures |r| == target
    ensures var lead := CentredSplit(target - |s|).0;
            forall k :: 0 <= k < target ==>
              r[k] == if lead <= k < lead + |s| then s[k - lead] else fill
  {
    var (lead, trail) := CentredSplit(target - |s|);
    Fill(lead, fill) + s + Fill(trail, fill)
  }

  /** Keeps the `target` middle elements of one axis, starting at
      `(|s| - target) / 2`. */
  function CropCentred<U>(s: seq<U>, target: nat): (r: seq<U>)
    requires |s| > target
    ensures |r| == target
    ensures forall k :: 0 <= k < target ==> r[k] == s[k + (|s| - target) / 2]
  {
    var start := (|s| - target) / 2;
    s[start..start + target]
  }

  /** Row padding (`np.pad(..., ((pad_top, pad_bottom), (0, 0)))`): input row
      i becomes output row i + pad_top, every other row is zero, and the
      column count does not change. */
  function PadRows<T>(x: Spectrogram<T>, targetHeight: nat, zero: T): (r: Spectrogram<T>)
    requires Rectangular(x) && |x.rows| < targetHeight
    ensures Rectangular(r) && |r.rows| == targetHeight && r.width == x.width
    ensures var top := CentredSplit(targetHeight - |x.rows|).0;
            forall i :: 0 <= i < targetHeight ==>
              r.rows[i] == if top <= i < top + |x.rows| then x.rows[i - top] else Fill(x.width, zero)
  {
    Spectrogram(PadCentred(x.rows, targetHeight, Fill(x.width, zero)), x.width)
  }

  /** Row cropping (`spectrogram[crop_start:crop_start + target_h, :]`). */
  function CropRows<T>(x: Spectrogram<T>, targetHeight: nat): (r: Spectrogram<T>)
    requires Rectangular(x) && |x.rows| > targetHeight
    ensures Rectangular(r) && |r.rows| == targetHeight && r.width == x.width
    ensures forall i :: 0 <= i < targetHeight ==>
              r.rows[i] == x.rows[i + (|x.rows| - targetHeight) / 2]
  {
    Spectrogram(CropCentred(x.rows, targetHeight), x.width)
  }

  /** Column padding (`np.pad(..., ((0, 0), (pad_left, pad_right)))`): every
      row is padded the same way and the row count does not change. */
  function PadColumns<T>(x: Spectrogram<T>, targetWidth: nat, zero: T): (r: Spectrogram<T>)
    requires Rectangular(x) && x.width < targetWidth
    ensures Rectangular(r) && |r.rows| == |x.rows| && r.width == targetWidth
    ensures var left := CentredSplit(targetWidth - x.width).0;
            forall i, j :: 0 <= i < |x.rows| && 0 <= j < targetWidth ==>
              r.rows[i][j] == if left <= j < left + x.width then x.rows[i][j - left] else zero
  {
    Spectrogram(seq(|x.rows|, i requires 0 <= i < |x.rows| => PadCentred(x.rows[i], targetWidth, zero)),
                targetWidth)
  }

  /** Column cropping (`spectrogram[:, crop_start:crop_start + target_w]`). */
  function CropColumns<T>(x: Spectrogram<T>, targetWidth: nat): (r: Spectrogram<T>)
    requires Rectangular(x) && x.width > targetWidth
    ensures Rectangular(r) && |r.rows| == |x.rows| && r.width == targetWidth
    ensures forall i, j :: 0 <= i < |x.rows| && 0 <= j < targetWidth ==>
              r.rows[i][j] == x.rows[i][j + (x.width - targetWidth) / 2]
  {
    Spectrogram(seq(|x.rows|, i requires 0 <= i < |x.rows| => CropCentred(x.rows[i], targetWidth)),
                targetWidth)
  }

  /** The height step of `resize_spectrogram`: pad, crop, or leave alone. */
  function ResizeRows<T>(x: Spectrogram<T>, targetHeight: nat, zero: T): (r: Spectrogram<T>)
    requires Rectangular(x)
    ensures Rectangular(r) && |r.rows| == targetHeight
    ensures r.width == x.width
    ensures |x.rows| == targetHeight ==> r == x
  {
    if |x.rows| < targetHeight then PadRows(x, targetHeight, zero)
    else if |x.rows| > targetHeight then CropRows(x, targetHeight)
    else x
  }

  /** `resize_spectrogram(spectrogram, target_shape)`. Both decisions are taken
      on the ORIGINAL shape; the width decision is applied to the array the
      height step produced, which is sound because that step keeps the
      column count (ResizeRows' contract, needed for PadColumns' and
      CropColumns' preconditions below). */
  function ResizeSpectrogram<T>(x: Spectrogram<T>, targetHeight: nat, targetWidth: nat, zero: T): (r: Spectrogram<T>)
    requires Rectangular(x)
    ensures Rectangular(r) && |r.rows| == targetHeight && r.width == targetWidth
    ensures |x.rows| == targetHeight && x.width == targetWidth ==> r == x
  {
    var currentWidth := x.width;
    var y := ResizeRows(x, targetHeight, zero);
    if currentWidth < targetWidth then PadColumns(y, targetWidth, zero)
    else if currentWidth > targetWidth then CropColumns(y, targetWidth)
    else y
  }

  // ---------------------------------------------------------------------------
  // Reference description: where each output cell comes from

  /** Output index of input index 0 along an axis of length `current` resized
      to `target`: the leading padding when the axis grows, minus the crop
      start when it shrinks, 0 when it already fits. */
  function Offset(current: nat, target: nat): int
  {
    if current < target then CentredSplit(target - current).0
    else -((current - target) / 2)
  }

  /** The input cell at (i, j), or `zero` outside the input. */
  function CellAt<T>(x: Spectrogram<T>, i: int, j: int, zero: T): T
    requires Rectangular(x)
  {
    if 0 <= i < |x.rows| && 0 <= j < x.width then x.rows[i][j] else zero
  }

  /** After the height step, cell (i, j) is input cell (i - Offset, j). */
  lemma ResizeRowsCellAt<T>(x: Spectrogram<T>, targetHeight: nat, zero: T, i: int, j: int)
    requires Rectangular(x)
    requires 0 <= i < targetHeight && 0 <= j < x.width
    ensures ResizeRows(x, targetHeight, zero).rows[i][j]
            == CellAt(x, i - Offset(|x.rows|, targetHeight), j, zero)
  {
  }

  /** Every output cell of ResizeSpectrogram is the input cell shifted by the
      offsets of both axes, or zero where that falls outside the input. This
      covers row padding (input row i lands at i + pad_top, other rows zero),
      row cropping (output row r is input row r + crop_start) and the same
      two facts for columns. */
  lemma ResizeCellAt<T>(x: Spectrogram<T>, targetHeight: nat, targetWidth: nat, zero: T, i: int, j: int)
    requires Rectangular(x)
    requires 0 <= i < targetHeight && 0 <= j < targetWidth
    ensures ResizeSpectrogram(x, targetHeight, targetWidth, zero).rows[i][j]
            == CellAt(x, i - Offset(|x.rows|, targetHeight), j - Offset(x.width, targetWidth), zero)
  {
    var y := ResizeRows(x, targetHeight, zero);
    var w := x.width;
    var jx := j - Offset(w, targetWidth);
    if 0 <= jx < w {
      ResizeRowsCellAt(x, targetHeight, zero, i, jx);
    }
    if w < targetWidth {
      var left := CentredSplit(targetWidth - w).0;
      assert PadColumns(y, targetWidth, zero).rows[i][j]
             == if left <= j < left + w then y.rows[i][j - left] else zero;
    } else if w > targetWidth {
      assert CropColumns(y, targetWidth).rows[i][j] == y.rows[i][j + (w - targetWidth) / 2];
    } else {
      ResizeRowsCellAt(x, targetHeight, zero, i, j);
    }
  }

  /** An axis whose length already equals the target is not shifted: the
      output keeps the input's row (column) indices. */
  lemma ResizeUntouchedAxis<T>(x: Spectrogram<T>, targetHeight: nat, targetWidth: nat, zero: T)
    requires Rectangular(x)
    ensures var r := ResizeSpectrogram(x, targetHeight, targetWidth, zero);
            |x.rows| == targetHeight ==>
              forall i, j :: 0 <= i < targetHeight && 0 <= j < targetWidth ==>
                r.rows[i][j] == CellAt(x, i, j - Offset(x.width, targetWidth), zero)
    ensures var r := ResizeSpectrogram(x, targetHeight, targetWidth, zero);
            x.width == targetWidth ==>
              forall i, j :: 0 <= i < targetHeight && 0 <= j < targetWidth ==>
                r.rows[i][j] == CellAt(x, i - Offset(|x.rows|, targetHeight), j, zero)
  {
    forall i, j | 0 <= i < targetHeight && 0 <= j < targetWidth {
      ResizeCellAt(x, targetHeight, targetWidth, zero, i, j);
    }
  }

  /** Resizing to a shape the array already has changes nothing, so resizing
      twice to the same shape is resizing once. */
  lemma ResizeIdempotent<T>(x: Spectrogram<T>, targetHeight: nat, targetWidth: nat, zero: T)
    requires Rectangular(x)
    ensures var r := ResizeSpectrogram(x, targetHeight, targetWidth, zero);
            ResizeSpectrogram(r, targetHeight, targetWidth, zero) == r
  {
  }
}
