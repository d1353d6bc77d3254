# CT face de-identification core, modelled in Dafny

This project models the anonymisation core of `face_deid_ct.py`. That program removes the face
from a head CT series. It stacks the DICOM slices into an int16 volume of Hounsfield units (HU)
and marks the air, the voxels at or below −800 HU. In every slice it keeps the largest
8-connected air region, which is the air around the head, and dilates that region with an
elliptical kernel so that the mask reaches into the skin and the face. Every voxel under the
dilated mask is then overwritten with a value drawn at random from a candidate list. Under the
default 'face' policy the list holds the distinct HU values strictly between −125 and 50 found on
the ring that the dilation added, and 0 whenever some voxel lies off the ring. Under 'air' it is `[0]`, and under an integer it is that
integer.

The model follows the program's own shape:

- `Calibration` — `get_pixels_hu`. A volume is an `array<Image>` whose slices are
  updated in place by the per-slice loop. Each slice is a `seq<seq<int>>` of pixels. numpy's int16
  cast and int16 overflow are written out as `Wrap16`.
- `Segmentation` — `binarize_volume`, `largest_connected_component` and
  `get_largest_component_volume`. OpenCV's labeller is a parameter, and the ghost predicate
  `ValidLabelling` says what a correct 8-connected labelling is. The argmax over the areas is
  modelled as written, including the failure on an image with no air.
- `Dilation` — `dilate_volume` and the uint8 ring `dilated_volume - processed_volume`. The
  structuring element is a parameter, given as its set of offsets.
- `Sampling` — `apply_mask_and_get_values`: int16 masking, `np.unique` and the two boolean
  selections.
- `Substitution` — `apply_random_values_optimized`. `np.random.choice` is a parameter that
  returns the drawn indices. The masked assignment consumes those draws in row-major order.
- `Replacer` — the replacer branch of `drown_volume`, including the fallback to 'face' with a
  warning.
- `Pipeline` — `drown_volume` from `get_pixels_hu` to `apply_random_values_optimized`, stage by
  stage and stopping at the first exception.
- `Volumes`, `FixedWidth` and `Wrappers` — shapes, row-major counting of marked voxels,
  fixed-width arithmetic, and the `Result` type whose `DeidError` cases stand for the exceptions
  the program lets propagate.

Where the program's comments or docstring and its code disagree, the model follows the code:

- `binarize_volume` marks the voxels at or below the threshold, which is the air and not the
  body. The connected components and the dilation therefore work on the air, and the replaced
  region is the air around the head plus a band of the head's surface.
- The comment at `face_deid_ct.py:104` says zero is excluded from the unique values. The code
  keeps 0, which lies between −125 and 50, whenever some voxel is unmasked. `CandidatesFromMarkedVoxels`
  proves this.
- The docstring at `face_deid_ct.py:181` says 'air' replaces with −1000 HU. The code uses `[0]`.
- `np.random.choice(0, size=0)` does not raise. An empty candidate list therefore fails only
  when the mask marks at least one voxel.
- A slice with no voxel at or below the threshold makes the argmax fail, so the program stops
  there. A slice that is entirely air is one component, and all of it is replaced.

## Model

| member | source | states |
|---|---|---|
| FixedWidth.Wrap16 | face_deid_ct.py:33 | the int16 cast yields an int16 value congruent to its input modulo 2^16 and leaves int16 values unchanged |
| FixedWidth.SubUint8 | face_deid_ct.py:211 | uint8 subtraction yields a byte, and it is the true difference whenever that does not go below zero |
| Calibration.UnitSlopeCalibration | face_deid_ct.py:33-49 | of HuValue, the per-voxel calibration: with slope 1, every HU value fits int16; a sample cast to the −2000 marker becomes the intercept; an in-range sample becomes sample + intercept when the sum does not overflow |
| Calibration.StackedLayerPrepared | face_deid_ct.py:30-37 | the stacked, int16-cast layer with the marker cleared holds the prepared value of every raw sample of its slice |
| Calibration.CalibratedLayer | face_deid_ct.py:42-49 | the loop body (optional rescale, then the int16 intercept addition) turns a prepared layer into the calibrated layer of its slice |
| Calibration.StackPrepared | face_deid_ct.py:30-37 | a fresh volume with one prepared layer per slice, in slice order |
| Calibration.GetPixelsHu | face_deid_ct.py:29-51 | fails exactly when the slices cannot be stacked (empty list, or shapes that differ); otherwise one layer per slice, with the first slice's rows and columns, every voxel holding the calibrated value of its own raw sample |
| Segmentation.BinarizeImageSpec | face_deid_ct.py:53-56 | of BinarizeImage: the air mask of a slice has the slice's shape, is 0/1, and is 1 exactly at the voxels at or below the threshold |
| Segmentation.BinarizeVolume | face_deid_ct.py:53-56 | a fresh 0/1 volume of the input's shape, 1 exactly where the HU value is at most the threshold |
| Segmentation.AreaPositive | face_deid_ct.py:60-64 | a label's area is positive exactly when some pixel carries that label |
| Segmentation.FirstArgMax | face_deid_ct.py:64 | argmax returns an index of a maximal element, and every earlier element is strictly smaller (the first maximum) |
| Segmentation.SelectedLabel | face_deid_ct.py:64 | the chosen label is a non-background label, offset by one past the background |
| Segmentation.SelectedLabelIsLargest | face_deid_ct.py:62-64 | the chosen label's area is at least that of every non-background label and strictly more than that of every lower label |
| Segmentation.LargestComponentSpec | face_deid_ct.py:58-70 | of LargestConnectedComponent, for a valid labelling: fails exactly on an image with no nonzero pixel; otherwise a 0/1 image of the same shape marking exactly the pixels of the chosen non-empty, largest label, all of them nonzero in the input |
| Segmentation.PathKeepsLabel | face_deid_ct.py:60 | along a chain of touching pixels that a mask marks, a valid 8-connected labelling of that mask keeps one label |
| Segmentation.MarkedPixelsShareLabel | face_deid_ct.py:60-68 | the pixels of one label of a valid labelling form an 8-connected set, so a valid labelling of the mask they make gives all of them one label |
| Segmentation.SingleLabel | face_deid_ct.py:60 | a valid labelling that gives every nonzero pixel one label has exactly one non-background label, label 1 |
| Segmentation.KeepSingleLabel | face_deid_ct.py:67-68 | with a single non-background label, keeping label 1 of a 0/1 image gives back the image |
| Segmentation.LargestComponentIdempotent | face_deid_ct.py:58-70 | selecting the largest component of a selected component gives it back unchanged |
| Segmentation.GetLargestComponentVolume | face_deid_ct.py:72-81 | fails exactly when some slice has no component, reporting the first such slice; otherwise every slice of the fresh result is that slice's largest component |
| Dilation.DilateVolume | face_deid_ct.py:85-97 | a fresh volume whose every slice is the dilation of the corresponding input slice |
| Dilation.DilationShape | face_deid_ct.py:95 | of DilateImage: the dilation of a slice is a 0/1 image of the slice's shape |
| Dilation.DilationNeverShrinks | face_deid_ct.py:87-95 | with an element that contains its anchor (as the ellipse does), every nonzero pixel of the input is 1 after the dilation |
| Dilation.Ring | face_deid_ct.py:211 | the uint8 difference of two volumes of the same shape has that shape |
| Dilation.RingIsDifference | face_deid_ct.py:211 | for a 0/1 mask the uint8 difference between the dilated mask and the mask never wraps: it is 0/1 and is 1 exactly where the dilation added a pixel |
| Sampling.FlattenMembership | face_deid_ct.py:105 | a value occurs in the flattened volume exactly when some voxel holds it |
| Sampling.Insert | face_deid_ct.py:105 | inserting into a strictly increasing list keeps it strictly increasing and adds exactly the new value |
| Sampling.Unique | face_deid_ct.py:105 | `np.unique` is strictly increasing and has exactly the values of its input |
| Sampling.Select | face_deid_ct.py:106-107 | boolean selection keeps exactly the elements satisfying the condition and preserves strict increase |
| Sampling.CandidatesSpec | face_deid_ct.py:100-112 | of ApplyMaskAndGetValues: the candidate list is strictly increasing, and a value is in it exactly when it lies strictly between −125 and 50 and some voxel of the int16 product of image and mask holds it |
| Sampling.CandidatesFromMarkedVoxels | face_deid_ct.py:100-112 | for a 0/1 mask over an int16 volume: every candidate is 0 or the value of a marked voxel; every marked voxel with a value in range is a candidate; 0 is a candidate once any voxel is unmarked |
| Substitution.SubstituteRow | face_deid_ct.py:126 | along a row, each marked cell receives the draw numbered by the marked cells before it and every other cell is unchanged; the next draw number advances by the row's marked cells |
| Substitution.SubstituteSlice | face_deid_ct.py:126 | the same for a slice in row-major order |
| Substitution.FilledVolume | face_deid_ct.py:120-126 | a volume filled slice by slice holds at each marked voxel the draw numbered by its row-major rank, which is one of the candidates, and keeps every unmarked voxel |
| Substitution.CopyVolume | face_deid_ct.py:117 | a fresh copy with the same slices |
| Substitution.AssignMarked | face_deid_ct.py:126 | in place, every slice becomes the original slice with each marked voxel overwritten by the next draw in row-major order |
| Substitution.ApplyRandomValues | face_deid_ct.py:115-128 | fails exactly when there are no candidates but some voxel is marked; otherwise a fresh volume of the input's shape that keeps every unmarked voxel and gives each marked voxel the int16 value of the candidate chosen by the draw at its row-major rank |
| Volumes.RankBound | face_deid_ct.py:120-126 | every marked voxel's rank is below the number of marked voxels, which is the number of draws |
| Volumes.RankOrder | face_deid_ct.py:126 | ranks follow row-major order and a marked voxel's rank is strictly below every later voxel's, so distinct marked voxels consume distinct draws, in order |
| Replacer.ParseInt | face_deid_ct.py:216 | parsing succeeds exactly on an optionally signed string of decimal digits with at most 4300 digits (the default limit of `int()`) |
| Replacer.ParseShowRoundTrip | face_deid_ct.py:216 | parsing the decimal representation of any integer within the digit limit gives that integer back |
| Replacer.FixedSelections | face_deid_ct.py:209-217 | of SelectPolicy and CandidateValues: 'air' selects exactly [0]; an integer, or its decimal string within the digit limit, selects exactly that integer; neither warns |
| Replacer.TooManyDigitsFallsBack | face_deid_ct.py:215-221 | a digit string longer than the limit makes `int()` raise, so it prints the warning and falls back to 'face' |
| Replacer.FallbackIsFace | face_deid_ct.py:214-221 | of SelectPolicy: the warning is printed exactly for a string that is neither 'face', 'air' nor an integer, and then the candidates are those of 'face' |
| Pipeline.AirRegions | face_deid_ct.py:199-203 | fails only at the first slice with no voxel at or below −800 HU; otherwise every slice of the fresh 0/1 result is the largest air region of the calibrated slice, of its shape |
| Pipeline.DrownCalibrated | face_deid_ct.py:199-226 | after calibration: fails with the first airless slice or on an empty candidate list over a non-empty mask; otherwise the dilated largest air regions, the replacer's candidates and a fresh volume that keeps every voxel outside the mask and gives every voxel inside it the int16 value of the candidate chosen by the injected draw at its row-major rank |
| Pipeline.DrownVolume | face_deid_ct.py:195-226 | the whole chain: the stacking errors exactly when the slices cannot be stacked (no slices, or shapes that differ), with no warning; the calibrated volume; the error at the first airless slice, with no warning; the air regions, their dilation and the selected candidates; the warning exactly for an unrecognised replacer; the drowned volume, in which every unmasked voxel keeps its value and every masked voxel holds the int16 value of the candidate chosen by the injected draw at its row-major rank, so equal candidates and draws give equal volumes |
| Pipeline.AirRegionInsideMask | face_deid_ct.py:203-207 | with an element that contains its anchor, every voxel of the largest air regions is inside the dilated mask, so all of it is overwritten |
| Pipeline.RingOfDilation | face_deid_ct.py:207-211 | the ring of the dilated air regions is a 0/1 volume marking exactly the voxels the dilation added |
| Pipeline.FaceCandidatesFromRing | face_deid_ct.py:209-211 | under 'face', every candidate lies strictly between −125 and 50 and is 0 or the HU value of a voxel the dilation added outside the air region |
| Pipeline.RingVoxelsAreCandidates | face_deid_ct.py:209-211 | under 'face', every voxel the dilation added whose HU value lies strictly between −125 and 50 contributes that value to the candidates |

## Left out

- `load_scan` (directory listing, DICOM parsing, sorting by slice position, slice thickness) is not part of this model. The pipeline starts from the list of slices it returns.
- `save_new_dicom_files` (reverting the rescale, writing the files) is not part of this model. The pipeline ends with the volume that would be saved.
- Progress bars, timing and `print` output are left out. The fallback warning is the boolean `warned`.
- Rescale slopes other than 1 are an injected function `product` that gives the truncated float64 product of the slope and an int16 sample. Floating point is not modelled.
- The rescale intercept is taken as an integer, already truncated by `np.int16`. Its conversion from the DICOM decimal string is not modelled.
- OpenCV's connected-component labelling is a parameter constrained by `ValidLabelling`. Component statistics other than the area, and the centroids, are not modelled.
- `cv2.getStructuringElement` is a parameter: the offsets of the elliptical element. Its raster is not computed. `KERNEL_SIZE` is recorded as a constant.
- Dilation is modelled as "1 where some covered pixel is nonzero". That equals OpenCV's maximum filter on the 0/1 masks the program passes to it, but not on other images.
- `np.random.choice` is a parameter `choice`, constrained by `IsChoiceSource`. Randomness and its distribution are not modelled.
- Python's `int()` accepts more than the model's syntax (optional sign and ASCII digits): surrounding whitespace, underscores between digits and non-ASCII digits are left out.
- Replacer.ParseInt: the 4300-digit limit is CPython's default from 3.11 on (and in patched 3.7–3.10). Python versions without the limit, or a limit changed with `sys.set_int_max_str_digits`, accept longer digit strings.
- A replacer that is neither a string nor an integer (a float, for example) is not modelled.
- numpy's handling of an integer replacer too large for its default integer type is not modelled. The model reduces every candidate to int16 when it is stored.
- numpy arrays with zero rows or columns are not distinguished from an empty list of rows.
- Ring: its contract states only the shape. What the ring holds is stated by `Dilation.RingIsDifference` for 0/1 masks.
- SelectedLabel: its contract states only the label's range. That it is the largest is stated by `Segmentation.SelectedLabelIsLargest`.
