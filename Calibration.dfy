/** Conversion of the raw per-slice pixel arrays into a stacked int16 volume of Hounsfield
    units (`get_pixels_hu`). */
module Calibration {
  import opened Wrappers
  import opened FixedWidth
  import opened Volumes

  /** Raw sample value that marks pixels outside the scanned field of view. */
  const OUTSIDE_SCAN: int := -2000

  /** The rescale slope of a slice. `UnitSlope` is a slope equal to 1, for which the
      program skips the multiplication. For any other slope, `product` gives the float64
      product of the slope and an int16 sample, truncated to an integer. */
  datatype Slope = UnitSlope | ScaledBy(product: int -> int)

  /** One slice as the calibration stage sees it: its pixel array (rows x columns of raw
      stored samples), its rescale slope and its rescale intercept (already truncated to
      an integer). */
  datatype Slice = Slice(pixels: Image, slope: Slope, intercept: int)

  function Columns(img: Image): nat {
    if |img| == 0 then 0 else |img[0]|
  }

  /** All pixel arrays can be stacked into one volume: there is at least one slice, and
      every slice has the rows and columns of the first. */
  predicate Stackable(slices: seq<Slice>) {
    |slices| > 0 &&
    forall s :: 0 <= s < |slices| ==>
      IsGrid(slices[s].pixels, |slices[0].pixels|, Columns(slices[0].pixels))
  }

  /** A raw sample cast to int16, with the outside-of-scan marker replaced by 0. */
  function Prepared(raw: int): int {
    var v := Wrap16(raw);
    if v == OUTSIDE_SCAN then 0 else v
  }

  /** The calibrated value of one raw sample of slice `sl`, voxel by voxel: cast to int16,
      replace the outside-of-scan marker by 0, multiply by the slope unless it is 1 (storing
      the product as int16), then add the int16 intercept with int16 wrap-around. */
  function HuValue(sl: Slice, raw: int): int {
    var inside := Prepared(raw);
    var scaled := match sl.slope
      case UnitSlope => inside
      case ScaledBy(product) => Wrap16(product(inside));
    Wrap16(scaled + Wrap16(sl.intercept))
  }

  /** With slope 1 and an intercept that fits int16, a voxel is its raw sample plus the
      intercept whenever the sample fits int16 and the sum does not overflow; a sample
      whose int16 cast is the outside-of-scan marker calibrates to the intercept alone.
      Every calibrated value fits int16. */
  lemma UnitSlopeCalibration(sl: Slice, raw: int)
    requires sl.slope.UnitSlope? && InInt16(sl.intercept)
    ensures InInt16(HuValue(sl, raw))
    ensures Wrap16(raw) == OUTSIDE_SCAN ==> HuValue(sl, raw) == sl.intercept
    ensures InInt16(raw) && raw != OUTSIDE_SCAN && InInt16(raw + sl.intercept) ==>
      HuValue(sl, raw) == raw + sl.intercept
  {
  }

  /** `image.astype(np.int16)` on one slice. */
  function CastInt16(img: Image): Image {
    seq(|img|, r requires 0 <= r < |img| =>
      seq(|img[r]|, c requires 0 <= c < |img[r]| => Wrap16(img[r][c])))
  }

  /** `image[image == -2000] = 0` on one slice. */
  function ClearOutside(img: Image): Image {
    seq(|img|, r requires 0 <= r < |img| =>
      seq(|img[r]|, c requires 0 <= c < |img[r]| =>
        if img[r][c] == OUTSIDE_SCAN then 0 else img[r][c]))
  }

  /** `slope * image[i].astype(np.float64)` stored back into the int16 slice. */
  function Rescale(img: Image, product: int -> int): Image {
    seq(|img|, r requires 0 <= r < |img| =>
      seq(|img[r]|, c requires 0 <= c < |img[r]| => Wrap16(product(img[r][c]))))
  }

  /** `image[i] += np.int16(intercept)` on an int16 slice. */
  function AddIntercept(img: Image, intercept: int): Image {
    seq(|img|, r requires 0 <= r < |img| =>
      seq(|img[r]|, c requires 0 <= c < |img[r]| => Wrap16(img[r][c] + Wrap16(intercept))))
  }

  /** `layer` holds, voxel by voxel, the raw samples of `sl` cast to int16 with the
      outside-of-scan marker cleared: the state of a layer before its calibration. */
  ghost predicate HoldsPrepared(layer: Image, sl: Slice) {
    SameImageShape(layer, sl.pixels) &&
    forall r, c :: Inside(sl.pixels, r, c) ==> layer[r][c] == Prepared(sl.pixels[r][c])
  }

  /** `layer` holds, voxel by voxel, the calibrated values of the raw samples of `sl`. */
  ghost predicate HoldsHu(layer: Image, sl: Slice) {
    SameImageShape(layer, sl.pixels) &&
    forall r, c :: Inside(sl.pixels, r, c) ==> layer[r][c] == HuValue(sl, sl.pixels[r][c])
  }

  /** The stacked, int16-cast, marker-cleared layer of a slice is prepared. */
  lemma StackedLayerPrepared(sl: Slice)
    ensures HoldsPrepared(ClearOutside(CastInt16(sl.pixels)), sl)
  {
  }

  /** The two steps of the loop body turn a prepared layer into a calibrated one. */
  lemma CalibratedLayer(layer: Image, sl: Slice)
    requires HoldsPrepared(layer, sl)
    ensures sl.slope.UnitSlope? ==> HoldsHu(AddIntercept(layer, sl.intercept), sl)
    ensures sl.slope.ScaledBy? ==>
      HoldsHu(AddIntercept(Rescale(layer, sl.slope.product), sl.intercept), sl)
  {
  }

  /** `np.stack` of the pixel arrays, cast to int16, with the outside-of-scan marker
      cleared: one prepared layer per slice, in slice order. */
  method StackPrepared(slices: seq<Slice>) returns (image: array<Image>)
    ensures fresh(image) && image.Length == |slices|
    ensures forall t :: 0 <= t < |slices| ==> HoldsPrepared(image[t], slices[t])
  {
    image := new Image[|slices|](s requires 0 <= s < |slices| =>
      ClearOutside(CastInt16(slices[s].pixels)));
    forall t | 0 <= t < |slices|
      ensures HoldsPrepared(image[t], slices[t])
    {
      StackedLayerPrepared(slices[t]);
    }
  }

  /** Stacks the slices into an int16 volume and calibrates it slice by slice, in place.
      Stacking fails on an empty list or on slices of different shapes; otherwise the
      volume has one layer per slice, in the same order and of the same shape, and every
      voxel holds HuValue of its own slice's raw sample. */
  method GetPixelsHu(slices: seq<Slice>) returns (res: Result<array<Image>, DeidError>)
    ensures res.Failure? <==> !Stackable(slices)
    ensures res.Failure? ==> res.error == (if |slices| == 0 then NoSlices else ShapeMismatch)
    ensures res.Success? ==> fresh(res.value) && res.value.Length == |slices|
    ensures res.Success? ==>
      IsVolumeOf(res.value[..], |slices[0].pixels|, Columns(slices[0].pixels))
    ensures res.Success? ==>
      forall s :: 0 <= s < |slices| ==> HoldsHu(res.value[s], slices[s])
  {
    if |slices| == 0 {
      return Failure(NoSlices);
    }
    if !Stackable(slices) {
      return Failure(ShapeMismatch);
    }
    var image := StackPrepared(slices);
    for s := 0 to |slices|
      invariant forall t :: 0 <= t < s ==> HoldsHu(image[t], slices[t])
      invariant forall t :: s <= t < |slices| ==> HoldsPrepared(image[t], slices[t])
    {
      var layer := image[s];
      CalibratedLayer(layer, slices[s]);
      var slope := slices[s].slope;
      if slope.ScaledBy? {
        layer := Rescale(layer, slope.product);
      }
      layer := AddIntercept(layer, slices[s].intercept);
      assert HoldsHu(layer, slices[s]);
      image[s] := layer;
    }
    forall s | 0 <= s < |slices|
      ensures IsGrid(image[..][s], |slices[0].pixels|, Columns(slices[0].pixels))
    {
      assert HoldsHu(image[s], slices[s]);
    }
    return Success(image);
  }
}
