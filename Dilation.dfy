/** Per-slice morphological dilation of the air mask (`dilate_volume`) and the ring between
    the dilated and the original mask (`dilated_volume - processed_volume`). */
module Dilation {
  import opened FixedWidth
  import opened Volumes

  /** Default diameter, in pixels, of the elliptical structuring element. The element
      itself is passed to `DilateVolume` as the list of its offsets from the anchor: the
      pixels of a KERNEL_SIZE x KERNEL_SIZE ellipse centred on it. */
  const KERNEL_SIZE: nat := 35

  /** An offset of the structuring element, placed at (r, c), lands on a nonzero pixel
      inside the image; offsets that fall outside the image contribute nothing. */
  predicate Hit(img: Image, kernel: seq<(int, int)>, r: int, c: int) {
    exists i :: 0 <= i < |kernel| &&
      Inside(img, r + kernel[i].0, c + kernel[i].1) && img[r + kernel[i].0][c + kernel[i].1] != 0
  }

  /** Dilation of one mask by the structuring element given as its set of offsets from the
      anchor: the maximum over the covered pixels, which for a 0/1 mask is 1 exactly when
      some covered pixel is nonzero. */
  function DilateImage(img: Image, kernel: seq<(int, int)>): Image {
    seq(|img|, r requires 0 <= r < |img| =>
      seq(|img[r]|, c requires 0 <= c < |img[r]| => if Hit(img, kernel, r, c) then 1 else 0))
  }

  /** Dilates every slice on its own into a fresh volume, slice by slice, with the
      structuring element `kernel` (by default the KERNEL_SIZE ellipse). */
  method DilateVolume(volume: array<Image>, kernel: seq<(int, int)>) returns (dilated: array<Image>)
    ensures fresh(dilated) && dilated.Length == volume.Length
    ensures forall i :: 0 <= i < volume.Length ==> dilated[i] == DilateImage(volume[i], kernel)
  {
    dilated := new Image[volume.Length];
    for i := 0 to volume.Length
      invariant forall j :: 0 <= j < i ==> dilated[j] == DilateImage(volume[j], kernel)
    {
      dilated[i] := DilateImage(volume[i], kernel);
    }
  }

  /** Dilation by any element gives a 0/1 mask of the input's shape. */
  lemma DilationShape(img: Image, kernel: seq<(int, int)>)
    ensures SameImageShape(DilateImage(img, kernel), img)
    ensures IsBinaryImage(DilateImage(img, kernel))
  {
  }

  /** Dilation by an element that contains its anchor gives a 0/1 mask of the same shape
      that never shrinks: every nonzero pixel of the input is 1 in the output. */
  lemma DilationNeverShrinks(img: Image, kernel: seq<(int, int)>)
    requires (0, 0) in kernel
    ensures SameImageShape(DilateImage(img, kernel), img)
    ensures IsBinaryImage(DilateImage(img, kernel))
    ensures forall r, c :: Inside(img, r, c) && img[r][c] != 0 ==> DilateImage(img, kernel)[r][c] == 1
  {
    var i :| 0 <= i < |kernel| && kernel[i] == (0, 0);
    forall r, c | Inside(img, r, c) && img[r][c] != 0
      ensures DilateImage(img, kernel)[r][c] == 1
    {
      assert Inside(img, r + kernel[i].0, c + kernel[i].1);
    }
  }

  /** `dilated - processed` on one slice, in uint8 arithmetic. */
  function RingImage(dilated: Image, processed: Image): Image
    requires SameImageShape(dilated, processed)
  {
    seq(|dilated|, r requires 0 <= r < |dilated| =>
      seq(|dilated[r]|, c requires 0 <= c < |dilated[r]| => SubUint8(dilated[r][c], processed[r][c])))
  }

  /** `dilated_volume - processed_volume`, slice by slice. */
  function Ring(dilated: Volume, processed: Volume): (ring: Volume)
    requires SameShape(dilated, processed)
    ensures SameShape(ring, dilated)
  {
    seq(|dilated|, s requires 0 <= s < |dilated| => RingImage(dilated[s], processed[s]))
  }

  /** Because dilation never shrinks a 0/1 mask, the uint8 difference between the dilated
      mask and the mask never wraps: it is the 0/1 ring of pixels that the dilation added. */
  lemma RingIsDifference(processed: Image, kernel: seq<(int, int)>)
    requires (0, 0) in kernel && IsBinaryImage(processed)
    ensures SameImageShape(DilateImage(processed, kernel), processed)
    ensures IsBinaryImage(RingImage(DilateImage(processed, kernel), processed))
    ensures forall r, c :: Inside(processed, r, c) ==>
      (RingImage(DilateImage(processed, kernel), processed)[r][c] == 1 <==>
        DilateImage(processed, kernel)[r][c] == 1 && processed[r][c] == 0)
  {
    DilationNeverShrinks(processed, kernel);
    var dilated := DilateImage(processed, kernel);
    var ring := RingImage(dilated, processed);
    forall r, c | Inside(processed, r, c)
      ensures ring[r][c] == 0 || ring[r][c] == 1
      ensures ring[r][c] == 1 <==> dilated[r][c] == 1 && processed[r][c] == 0
    {
      assert processed[r][c] == 1 ==> dilated[r][c] == 1;
      assert ring[r][c] == SubUint8(dilated[r][c], processed[r][c]);
    }
  }
}
