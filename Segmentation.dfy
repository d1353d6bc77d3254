/** Thresholding of the HU volume into an air mask (`binarize_volume`) and, slice by slice,
    selection of the largest 8-connected air region (`largest_connected_component`,
    `get_largest_component_volume`). The voxels marked 1 are the AIR, at or below the
    threshold, not the body. */
module Segmentation {
  import opened Wrappers
  import opened Volumes

  /** Default air threshold in Hounsfield units. */
  const AIR_THRESHOLD: int := -800

  function BinarizeImage(img: Image, airHu: int): Image {
    seq(|img|, r requires 0 <= r < |img| =>
      seq(|img[r]|, c requires 0 <= c < |img[r]| => if img[r][c] <= airHu then 1 else 0))
  }

  /** The air mask of one slice has the slice's shape, holds only 0 and 1, and marks a
      pixel exactly when its HU value is at most `airHu`. */
  lemma BinarizeImageSpec(img: Image, airHu: int)
    ensures SameImageShape(BinarizeImage(img, airHu), img)
    ensures IsBinaryImage(BinarizeImage(img, airHu))
    ensures forall r, c :: Inside(img, r, c) ==>
      (BinarizeImage(img, airHu)[r][c] == 1 <==> img[r][c] <= airHu)
  {
  }

  /** The air mask: a fresh 0/1 volume of the same shape whose voxel is 1 exactly when the
      HU value there is at most `airHu`. */
  method BinarizeVolume(volume: array<Image>, airHu: int) returns (binary: array<Image>)
    ensures fresh(binary) && binary.Length == volume.Length
    ensures forall s :: 0 <= s < volume.Length ==> binary[s] == BinarizeImage(volume[s], airHu)
    ensures SameShape(binary[..], volume[..]) && IsBinary(binary[..])
    ensures forall s, r, c :: 0 <= s < volume.Length && Inside(volume[s], r, c) ==>
      (binary[s][r][c] == 1 <==> volume[s][r][c] <= airHu)
  {
    binary := new Image[volume.Length](s reads volume requires 0 <= s < volume.Length =>
      BinarizeImage(volume[s], airHu));
  }

  /** The labelling that connected-component analysis returns for one image: the number
      of labels, background included, and one label per pixel. */
  datatype Labelling = Labelling(count: nat, labels: Image)

  /** Pixels (r1, c1) and (r2, c2) touch under 8-connectivity (or coincide). */
  predicate Adjacent8(r1: int, c1: int, r2: int, c2: int) {
    -1 <= r1 - r2 <= 1 && -1 <= c1 - c2 <= 1
  }

  /** `path` is a chain of 8-adjacent pixels of `labels`, all carrying label `l`. */
  ghost predicate IsPath(labels: Image, l: int, path: seq<(int, int)>) {
    |path| > 0 &&
    (forall i :: 0 <= i < |path| ==>
      Inside(labels, path[i].0, path[i].1) && labels[path[i].0][path[i].1] == l) &&
    (forall i :: 0 <= i < |path| - 1 ==>
      Adjacent8(path[i].0, path[i].1, path[i + 1].0, path[i + 1].1))
  }

  /** Some pixel carries label `l`. */
  ghost predicate LabelUsed(labels: Image, l: int) {
    exists r, c :: Inside(labels, r, c) && labels[r][c] == l
  }

  /** `lab` is an 8-connected component labelling of the image `bin`: label 0 is exactly
      the zero pixels, labels 1 .. count - 1 are each used, touching nonzero pixels share a
      label, and any two pixels of one nonzero label are joined by a path inside it. */
  ghost predicate ValidLabelling(bin: Image, lab: Labelling) {
    1 <= lab.count &&
    SameImageShape(lab.labels, bin) &&
    (forall r, c :: Inside(bin, r, c) ==>
      0 <= lab.labels[r][c] < lab.count && (lab.labels[r][c] == 0 <==> bin[r][c] == 0)) &&
    (forall l :: 1 <= l < lab.count ==> LabelUsed(lab.labels, l)) &&
    (forall r1, c1, r2, c2 ::
      (Inside(bin, r1, c1) && Inside(bin, r2, c2) && Adjacent8(r1, c1, r2, c2) &&
       bin[r1][c1] != 0 && bin[r2][c2] != 0) ==>
      lab.labels[r1][c1] == lab.labels[r2][c2]) &&
    (forall r1, c1, r2, c2 ::
      (Inside(bin, r1, c1) && Inside(bin, r2, c2) && bin[r1][c1] != 0 &&
       lab.labels[r1][c1] == lab.labels[r2][c2]) ==>
      exists path :: IsPath(lab.labels, lab.labels[r1][c1], path) &&
        path[0] == (r1, c1) && path[|path| - 1] == (r2, c2))
  }

  /** The number of pixels carrying label `l` (the area column of the statistics). */
  function Area(labels: Image, l: int): nat {
    Tally(labels, RowArea(l))
  }

  function LabelWeight(l: int): int -> nat {
    (x: int) => if x == l then 1 else 0
  }

  function RowArea(l: int): seq<int> -> nat {
    (row: seq<int>) => Tally(row, LabelWeight(l))
  }

  /** A label has positive area exactly when some pixel carries it. */
  lemma AreaPositive(labels: Image, l: int)
    ensures Area(labels, l) > 0 <==> LabelUsed(labels, l)
  {
    TallyPositive(labels, RowArea(l));
    forall r | 0 <= r < |labels|
      ensures RowArea(l)(labels[r]) > 0 <==>
        exists c :: 0 <= c < |labels[r]| && LabelWeight(l)(labels[r][c]) > 0
    {
      TallyPositive(labels[r], LabelWeight(l));
    }
  }

  /** The area of every label, background first. */
  function Areas(lab: Labelling): (areas: seq<nat>)
    ensures |areas| == lab.count
  {
    seq(lab.count, l requires 0 <= l < lab.count => Area(lab.labels, l))
  }

  /** `np.argmax`: the first index at which the largest element occurs. */
  function FirstArgMax(xs: seq<nat>): (k: nat)
    requires |xs| > 0
    ensures k < |xs|
    ensures forall i :: 0 <= i < |xs| ==> xs[i] <= xs[k]
    ensures forall i :: 0 <= i < k ==> xs[i] < xs[k]
  {
    if |xs| == 1 then 0
    else
      var k := FirstArgMax(xs[..|xs| - 1]);
      if xs[|xs| - 1] > xs[k] then |xs| - 1 else k
  }

  /** The label kept by the selection: the argmax over the areas of the non-background
      labels, shifted back past the background. */
  function SelectedLabel(lab: Labelling): (k: nat)
    requires lab.count >= 2
    ensures 1 <= k < lab.count
  {
    FirstArgMax(Areas(lab)[1..]) + 1
  }

  /** The selected label has the largest area among the non-background labels, and every
      non-background label before it has a strictly smaller area: ties go to the lowest
      label. */
  lemma SelectedLabelIsLargest(lab: Labelling)
    requires lab.count >= 2
    ensures forall l :: 1 <= l < lab.count ==>
      Area(lab.labels, l) <= Area(lab.labels, SelectedLabel(lab))
    ensures forall l :: 1 <= l < SelectedLabel(lab) ==>
      Area(lab.labels, l) < Area(lab.labels, SelectedLabel(lab))
  {
    var areas := Areas(lab);
    var tail := areas[1..];
    var k := SelectedLabel(lab);
    assert k == FirstArgMax(tail) + 1;
    forall l | 1 <= l < lab.count
      ensures Area(lab.labels, l) <= Area(lab.labels, k)
      ensures l < k ==> Area(lab.labels, l) < Area(lab.labels, k)
    {
      assert tail[l - 1] == areas[l] == Area(lab.labels, l);
      assert tail[k - 1] == areas[k] == Area(lab.labels, k);
    }
  }

  /** The 0/1 image of the pixels carrying label `k`. */
  function KeepLabel(labels: Image, k: int): Image {
    seq(|labels|, r requires 0 <= r < |labels| =>
      seq(|labels[r]|, c requires 0 <= c < |labels[r]| => if labels[r][c] == k then 1 else 0))
  }

  /** `largest_connected_component` on one 0/1 image, with the labeller given as a
      parameter. None stands for the failure of argmax when the image has no
      non-background label. */
  function LargestConnectedComponent(binaryImage: Image, labeller: Image -> Labelling): Option<Image> {
    var lab := labeller(binaryImage);
    if lab.count <= 1 then None else Some(KeepLabel(lab.labels, SelectedLabel(lab)))
  }

  /** For a valid labelling: selection fails exactly when the image has no nonzero pixel.
      Otherwise the result is a 0/1 image of the same shape, marking exactly the pixels of
      one non-empty label, hence only nonzero pixels of the input; that label's area is at
      least that of every non-background label, and strictly more than that of every
      lower one. */
  lemma LargestComponentSpec(bin: Image, labeller: Image -> Labelling)
    requires ValidLabelling(bin, labeller(bin))
    ensures LargestConnectedComponent(bin, labeller).None? <==>
      forall r, c :: Inside(bin, r, c) ==> bin[r][c] == 0
    ensures LargestConnectedComponent(bin, labeller).Some? ==>
      var lab := labeller(bin);
      var out := LargestConnectedComponent(bin, labeller).value;
      var k := SelectedLabel(lab);
      SameImageShape(out, bin) && IsBinaryImage(out) &&
      (forall r, c :: Inside(bin, r, c) ==> (out[r][c] == 1 <==> lab.labels[r][c] == k)) &&
      (forall r, c :: Inside(bin, r, c) && out[r][c] == 1 ==> bin[r][c] != 0) &&
      Area(lab.labels, k) > 0 &&
      (forall l :: 1 <= l < lab.count ==> Area(lab.labels, l) <= Area(lab.labels, k)) &&
      (forall l :: 1 <= l < k ==> Area(lab.labels, l) < Area(lab.labels, k))
  {
    var lab := labeller(bin);
    if lab.count >= 2 {
      assert LabelUsed(lab.labels, 1);
      var r, c :| Inside(lab.labels, r, c) && lab.labels[r][c] == 1;
      assert bin[r][c] != 0;
      var k := SelectedLabel(lab);
      assert LabelUsed(lab.labels, k);
      AreaPositive(lab.labels, k);
      SelectedLabelIsLargest(lab);
    } else {
      forall r, c | Inside(bin, r, c) ensures bin[r][c] == 0 {
        assert 0 <= lab.labels[r][c] < lab.count;
      }
    }
  }

  /** Along a path of pixels that `out` marks, a valid labelling of `out` keeps one
      label: consecutive pixels of the path touch and are both nonzero in `out`. */
  lemma {:induction false} PathKeepsLabel(out: Image, lab: Labelling, labels: Image, k: int,
                                          path: seq<(int, int)>)
    requires ValidLabelling(out, lab) && IsPath(labels, k, path) && SameImageShape(labels, out)
    requires forall r, c :: Inside(labels, r, c) && labels[r][c] == k ==> out[r][c] != 0
    ensures lab.labels[path[0].0][path[0].1] == lab.labels[path[|path| - 1].0][path[|path| - 1].1]
  {
    if |path| > 1 {
      var init := path[..|path| - 1];
      assert IsPath(labels, k, init);
      PathKeepsLabel(out, lab, labels, k, init);
      var p, q := path[|path| - 2], path[|path| - 1];
      assert Adjacent8(p.0, p.1, q.0, q.1);
      assert Inside(out, p.0, p.1) && Inside(out, q.0, q.1);
      assert out[p.0][p.1] != 0 && out[q.0][q.1] != 0;
    }
  }

  /** The pixels that `out` marks are those of one label of a valid labelling of `bin`,
      so they are 8-connected: a valid labelling of `out` gives all of them one label. */
  lemma MarkedPixelsShareLabel(bin: Image, lab: Labelling, out: Image, lab2: Labelling, r0: int, c0: int)
    requires ValidLabelling(bin, lab) && ValidLabelling(out, lab2) && SameImageShape(out, bin)
    requires Inside(bin, r0, c0) && bin[r0][c0] != 0
    requires forall r, c :: Inside(bin, r, c) ==> (out[r][c] != 0 <==> lab.labels[r][c] == lab.labels[r0][c0])
    ensures forall r, c :: Inside(out, r, c) && out[r][c] != 0 ==> lab2.labels[r][c] == lab2.labels[r0][c0]
  {
    var k := lab.labels[r0][c0];
    forall r, c | Inside(out, r, c) && out[r][c] != 0
      ensures lab2.labels[r][c] == lab2.labels[r0][c0]
    {
      assert Inside(bin, r, c) && lab.labels[r][c] == k;
      var path :| IsPath(lab.labels, k, path) && path[0] == (r0, c0) && path[|path| - 1] == (r, c);
      PathKeepsLabel(out, lab2, lab.labels, k, path);
    }
  }

  /** A valid labelling that gives every nonzero pixel one label has exactly one
      non-background label, label 1. */
  lemma SingleLabel(out: Image, lab2: Labelling, r0: int, c0: int)
    requires ValidLabelling(out, lab2) && Inside(out, r0, c0) && out[r0][c0] != 0
    requires forall r, c :: Inside(out, r, c) && out[r][c] != 0 ==> lab2.labels[r][c] == lab2.labels[r0][c0]
    ensures lab2.count == 2 && lab2.labels[r0][c0] == 1
  {
    assert LabelUsed(lab2.labels, 1);
    var r1, c1 :| Inside(lab2.labels, r1, c1) && lab2.labels[r1][c1] == 1;
    assert Inside(out, r1, c1);
    if lab2.count > 2 {
      assert LabelUsed(lab2.labels, 2);
      var r2, c2 :| Inside(lab2.labels, r2, c2) && lab2.labels[r2][c2] == 2;
      assert Inside(out, r2, c2);
      assert false;
    }
  }

  /** With a single non-background label, keeping label 1 of a 0/1 image gives the image. */
  lemma KeepSingleLabel(out: Image, lab2: Labelling)
    requires ValidLabelling(out, lab2) && lab2.count == 2 && IsBinaryImage(out)
    ensures KeepLabel(lab2.labels, 1) == out
  {
    var kept := KeepLabel(lab2.labels, 1);
    forall r | 0 <= r < |out|
      ensures kept[r] == out[r]
    {
      forall c | 0 <= c < |out[r]|
        ensures kept[r][c] == out[r][c]
      {
        assert Inside(out, r, c);
      }
    }
  }

  /** Selecting the largest component of a selected component gives it back unchanged:
      the kept pixels are one 8-connected set, so any valid labelling of them has a single
      non-background label, and that label covers exactly the kept pixels. */
  lemma LargestComponentIdempotent(bin: Image, labeller: Image -> Labelling)
    requires ValidLabelling(bin, labeller(bin))
    requires LargestConnectedComponent(bin, labeller).Some?
    requires ValidLabelling(LargestConnectedComponent(bin, labeller).value,
                            labeller(LargestConnectedComponent(bin, labeller).value))
    ensures LargestConnectedComponent(LargestConnectedComponent(bin, labeller).value, labeller) ==
      LargestConnectedComponent(bin, labeller)
  {
    LargestComponentSpec(bin, labeller);
    var lab := labeller(bin);
    var k := SelectedLabel(lab);
    var out := LargestConnectedComponent(bin, labeller).value;
    var lab2 := labeller(out);
    AreaPositive(lab.labels, k);
    var r0, c0 :| Inside(lab.labels, r0, c0) && lab.labels[r0][c0] == k;
    assert Inside(bin, r0, c0) && out[r0][c0] == 1 && bin[r0][c0] != 0;
    MarkedPixelsShareLabel(bin, lab, out, lab2, r0, c0);
    SingleLabel(out, lab2, r0, c0);
    assert |Areas(lab2)[1..]| == 1;
    assert SelectedLabel(lab2) == 1;
    KeepSingleLabel(out, lab2);
  }

  /** Fills a fresh volume with the largest air region of each slice, slice by slice;
      stops with NoAirRegion at the first slice that has none. */
  method GetLargestComponentVolume(volume: array<Image>, labeller: Image -> Labelling)
    returns (res: Result<array<Image>, DeidError>)
    ensures res.Failure? <==>
      exists i :: 0 <= i < volume.Length && LargestConnectedComponent(volume[i], labeller).None?
    ensures res.Failure? ==>
      res.error.NoAirRegion? && res.error.slice < volume.Length &&
      LargestConnectedComponent(volume[res.error.slice], labeller).None? &&
      forall j :: 0 <= j < res.error.slice ==> LargestConnectedComponent(volume[j], labeller).Some?
    ensures res.Success? ==> fresh(res.value) && res.value.Length == volume.Length
    ensures res.Success? ==>
      forall i :: 0 <= i < volume.Length ==>
        LargestConnectedComponent(volume[i], labeller) == Some(res.value[i])
  {
    var processed := new Image[volume.Length];
    for i := 0 to volume.Length
      invariant forall j :: 0 <= j < i ==>
        LargestConnectedComponent(volume[j], labeller) == Some(processed[j])
    {
      var component := LargestConnectedComponent(volume[i], labeller);
      if component.None? {
        return Failure(NoAirRegion(i));
      }
      processed[i] := component.value;
    }
    return Success(processed);
  }
}
