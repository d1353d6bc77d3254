/** The candidate substitute values harvested from the ring (`apply_mask_and_get_values`):
    the distinct values of the masked volume, in increasing order, strictly between
    FACE_MIN_VALUE and FACE_MAX_VALUE. */
module Sampling {
  import opened FixedWidth
  import opened Volumes

  const FACE_MIN_VALUE: int := -125
  const FACE_MAX_VALUE: int := 50

  /** `image_volume * mask_volume`: an int16 volume times a uint8 mask, in int16. */
  function MaskedVolume(image: Volume, mask: Volume): Volume
    requires SameShape(image, mask)
  {
    seq(|image|, s requires 0 <= s < |image| =>
      seq(|image[s]|, r requires 0 <= r < |image[s]| =>
        seq(|image[s][r]|, c requires 0 <= c < |image[s][r]| =>
          Wrap16(image[s][r][c] * mask[s][r][c]))))
  }

  /** The voxel values of one image in row-major order. */
  function FlattenImage(img: Image): seq<int> {
    if |img| == 0 then [] else FlattenImage(img[..|img| - 1]) + img[|img| - 1]
  }

  /** The voxel values of a volume in row-major order. */
  function Flatten(v: Volume): seq<int> {
    if |v| == 0 then [] else Flatten(v[..|v| - 1]) + FlattenImage(v[|v| - 1])
  }

  /** Some pixel of `img` holds `x`. */
  ghost predicate OccursInImage(img: Image, x: int) {
    exists r, c :: Inside(img, r, c) && img[r][c] == x
  }

  /** Some voxel of `v` holds `x`. */
  ghost predicate OccursIn(v: Volume, x: int) {
    exists s, r, c :: 0 <= s < |v| && Inside(v[s], r, c) && v[s][r][c] == x
  }

  lemma {:induction false} FlattenImageMembership(img: Image, x: int)
    ensures x in FlattenImage(img) <==> OccursInImage(img, x)
  {
    if |img| > 0 {
      var init := img[..|img| - 1];
      FlattenImageMembership(init, x);
      if OccursInImage(init, x) {
        var r, c :| Inside(init, r, c) && init[r][c] == x;
        assert img[r][c] == x;
      }
      if OccursInImage(img, x) {
        var r, c :| Inside(img, r, c) && img[r][c] == x;
        if r < |init| {
          assert init[r][c] == x;
        } else {
          assert img[|img| - 1][c] == x;
        }
      }
    }
  }

  /** A value occurs in a nonempty volume exactly when it occurs in the slices before the
      last one or in the last one. */
  lemma OccursInLast(v: Volume, x: int)
    requires |v| > 0
    ensures OccursIn(v, x) <==> OccursIn(v[..|v| - 1], x) || OccursInImage(v[|v| - 1], x)
  {
    var init := v[..|v| - 1];
    if OccursIn(init, x) {
      var s, r, c :| 0 <= s < |init| && Inside(init[s], r, c) && init[s][r][c] == x;
      assert v[s][r][c] == x;
    }
    if OccursInImage(v[|v| - 1], x) {
      var r, c :| Inside(v[|v| - 1], r, c) && v[|v| - 1][r][c] == x;
      assert 0 <= |v| - 1 < |v| && Inside(v[|v| - 1], r, c) && v[|v| - 1][r][c] == x;
    }
    if OccursIn(v, x) {
      var s, r, c :| 0 <= s < |v| && Inside(v[s], r, c) && v[s][r][c] == x;
      if s < |init| {
        assert init[s][r][c] == x;
      }
    }
  }

  /** A value occurs in the flattened volume exactly when some voxel holds it. */
  lemma {:induction false} FlattenMembership(v: Volume, x: int)
    ensures x in Flatten(v) <==> OccursIn(v, x)
  {
    if |v| > 0 {
      FlattenMembership(v[..|v| - 1], x);
      FlattenImageMembership(v[|v| - 1], x);
      OccursInLast(v, x);
    }
  }

  predicate StrictlyIncreasing(xs: seq<int>) {
    forall i, j :: 0 <= i < j < |xs| ==> xs[i] < xs[j]
  }

  /** Inserts `x` into a strictly increasing sequence, keeping it strictly increasing and
      without duplicates. */
  function Insert(xs: seq<int>, x: int): (r: seq<int>)
    requires StrictlyIncreasing(xs)
    ensures StrictlyIncreasing(r)
    ensures forall y :: y in r <==> y in xs || y == x
  {
    if |xs| == 0 then [x]
    else if x < xs[0] then [x] + xs
    else if x == xs[0] then xs
    else
      var rest := Insert(xs[1..], x);
      assert forall j :: 0 <= j < |rest| ==> rest[j] in xs[1..] || rest[j] == x;
      assert forall j :: 0 <= j < |rest| ==> xs[0] < rest[j];
      [xs[0]] + rest
  }

  /** `np.unique`: the distinct values of `xs`, in increasing order. */
  function Unique(xs: seq<int>): (r: seq<int>)
    ensures StrictlyIncreasing(r)
    ensures forall y :: y in r <==> y in xs
  {
    if |xs| == 0 then [] else Insert(Unique(xs[..|xs| - 1]), xs[|xs| - 1])
  }

  /** Boolean-mask selection `xs[keep(xs)]`: the elements that satisfy `keep`, in order. */
  function Select(xs: seq<int>, keep: int -> bool): (r: seq<int>)
    ensures forall y :: y in r <==> y in xs && keep(y)
    ensures StrictlyIncreasing(xs) ==> StrictlyIncreasing(r)
  {
    if |xs| == 0 then []
    else
      var rest := Select(xs[1..], keep);
      assert forall y :: y in xs <==> y == xs[0] || y in xs[1..];
      assert StrictlyIncreasing(xs) ==> forall j :: 0 <= j < |rest| ==> rest[j] in xs[1..];
      if keep(xs[0]) then [xs[0]] + rest else rest
  }

  /** `apply_mask_and_get_values`: unique values of the masked volume, then those above
      FACE_MIN_VALUE, then those below FACE_MAX_VALUE. */
  function ApplyMaskAndGetValues(image: Volume, mask: Volume): seq<int>
    requires SameShape(image, mask)
  {
    var unique := Unique(Flatten(MaskedVolume(image, mask)));
    var above := Select(unique, (x: int) => x > FACE_MIN_VALUE);
    Select(above, (x: int) => x < FACE_MAX_VALUE)
  }

  /** The candidate list is strictly increasing (sorted, no duplicates), and a value is in
      it exactly when it lies strictly between FACE_MIN_VALUE and FACE_MAX_VALUE and some
      voxel of the masked volume holds it. */
  lemma CandidatesSpec(image: Volume, mask: Volume)
    requires SameShape(image, mask)
    ensures StrictlyIncreasing(ApplyMaskAndGetValues(image, mask))
    ensures forall x :: x in ApplyMaskAndGetValues(image, mask) <==>
      FACE_MIN_VALUE < x < FACE_MAX_VALUE &&
      exists s, r, c :: 0 <= s < |image| && Inside(image[s], r, c) &&
        Wrap16(image[s][r][c] * mask[s][r][c]) == x
  {
    var masked := MaskedVolume(image, mask);
    forall x
      ensures x in ApplyMaskAndGetValues(image, mask) <==>
        FACE_MIN_VALUE < x < FACE_MAX_VALUE &&
        exists s, r, c :: 0 <= s < |image| && Inside(image[s], r, c) &&
          Wrap16(image[s][r][c] * mask[s][r][c]) == x
    {
      FlattenMembership(masked, x);
      if exists s, r, c :: 0 <= s < |masked| && Inside(masked[s], r, c) && masked[s][r][c] == x {
        var s, r, c :| 0 <= s < |masked| && Inside(masked[s], r, c) && masked[s][r][c] == x;
        assert Wrap16(image[s][r][c] * mask[s][r][c]) == x;
      }
      if exists s, r, c :: 0 <= s < |image| && Inside(image[s], r, c) &&
          Wrap16(image[s][r][c] * mask[s][r][c]) == x {
        var s, r, c :| 0 <= s < |image| && Inside(image[s], r, c) &&
          Wrap16(image[s][r][c] * mask[s][r][c]) == x;
        assert masked[s][r][c] == x;
      }
    }
  }

  /** With a 0/1 mask over an int16 volume, every candidate is 0 or the value of a voxel
      the mask marks; every marked voxel whose value is in range is a candidate; and 0 is a
      candidate as soon as one voxel is unmarked, although the source comment says zero
      is excluded. */
  lemma CandidatesFromMarkedVoxels(image: Volume, mask: Volume)
    requires SameShape(image, mask) && IsBinary(mask)
    requires forall s, r, c :: 0 <= s < |image| && Inside(image[s], r, c) ==> InInt16(image[s][r][c])
    ensures forall x :: x in ApplyMaskAndGetValues(image, mask) ==>
      x == 0 ||
      exists s, r, c :: 0 <= s < |image| && Inside(image[s], r, c) &&
        mask[s][r][c] == 1 && image[s][r][c] == x
    ensures forall s, r, c ::
      (0 <= s < |image| && Inside(image[s], r, c) &&
       mask[s][r][c] == 1 && FACE_MIN_VALUE < image[s][r][c] < FACE_MAX_VALUE) ==>
      image[s][r][c] in ApplyMaskAndGetValues(image, mask)
    ensures (exists s, r, c :: 0 <= s < |image| && Inside(image[s], r, c) && mask[s][r][c] == 0) ==>
      0 in ApplyMaskAndGetValues(image, mask)
  {
    CandidatesSpec(image, mask);
    forall s, r, c | 0 <= s < |image| && Inside(image[s], r, c)
      ensures Wrap16(image[s][r][c] * mask[s][r][c]) ==
        if mask[s][r][c] == 1 then image[s][r][c] else 0
    {
      assert Inside(mask[s], r, c);
    }
  }
}
