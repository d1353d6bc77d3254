/** The anonymisation core of `drown_volume`, from the loaded slices to the volume that is
    written back: calibration, air mask, largest air region per slice, dilation, candidate
    selection and substitution. Loading and saving the files are not part of this model. */
module Pipeline {
  import opened Wrappers
  import opened FixedWidth
  import opened Volumes
  import opened Calibration
  import opened Segmentation
  import opened Dilation
  import opened Replacer
  import opened Substitution

  /** The injected connected-component labeller labels every 0/1 image validly. */
  ghost predicate IsLabeller(labeller: Image -> Labelling) {
    forall img :: IsBinaryImage(img) ==> ValidLabelling(img, labeller(img))
  }

  /** `processed` holds, slice by slice, the largest air region of `hu`. */
  ghost predicate AirRegionsOf(processed: Volume, hu: Volume, labeller: Image -> Labelling) {
    |processed| == |hu| && SameShape(processed, hu) && IsBinary(processed) &&
    forall s :: 0 <= s < |hu| ==>
      LargestConnectedComponent(BinarizeImage(hu[s], AIR_THRESHOLD), labeller) == Some(processed[s])
  }

  /** Slice `i` of `hu` has no voxel at or below the air threshold. */
  ghost predicate NoAirIn(hu: Volume, i: int) {
    0 <= i < |hu| && forall r, c :: Inside(hu[i], r, c) ==> hu[i][r][c] > AIR_THRESHOLD
  }

  /** `dilated` is the slice-by-slice dilation of `processed` with `kernel`. */
  ghost predicate DilationOf(dilated: Volume, processed: Volume, kernel: seq<(int, int)>) {
    |dilated| == |processed| &&
    forall s :: 0 <= s < |processed| ==> dilated[s] == DilateImage(processed[s], kernel)
  }

  /** `out` has the shape of `hu`, keeps every voxel outside the mask and holds one of
      the candidates at every voxel inside it. */
  ghost predicate Drowned(out: Volume, hu: Volume, mask: Volume, candidates: seq<int>) {
    SameShape(out, hu) && SameShape(hu, mask) &&
    forall s, r, c :: 0 <= s < |hu| && Inside(hu[s], r, c) ==>
      (mask[s][r][c] == 0 ==> out[s][r][c] == hu[s][r][c]) &&
      (mask[s][r][c] == 1 ==> exists k :: 0 <= k < |candidates| && out[s][r][c] == Wrap16(candidates[k]))
  }

  /** Binarises the calibrated volume and keeps the largest air region of every slice;
      fails with the first slice that has no air at all. */
  method AirRegions(hu: array<Image>, labeller: Image -> Labelling)
    returns (res: Result<array<Image>, DeidError>)
    requires IsLabeller(labeller)
    ensures res.Failure? ==> res.error.NoAirRegion? && NoAirIn(hu[..], res.error.slice)
    ensures res.Failure? ==> forall j :: 0 <= j < res.error.slice ==> !NoAirIn(hu[..], j)
    ensures res.Success? ==> fresh(res.value) && AirRegionsOf(res.value[..], hu[..], labeller)
  {
    var binarized := BinarizeVolume(hu, AIR_THRESHOLD);
    res := GetLargestComponentVolume(binarized, labeller);
    if res.Failure? {
      LargestComponentSpec(binarized[res.error.slice], labeller);
      forall j | 0 <= j < res.error.slice
        ensures !NoAirIn(hu[..], j)
      {
        LargestComponentSpec(binarized[j], labeller);
        var r, c :| Inside(binarized[j], r, c) && binarized[j][r][c] != 0;
        assert Inside(hu[j], r, c) && hu[j][r][c] <= AIR_THRESHOLD;
      }
      return;
    }
    forall s | 0 <= s < hu.Length
      ensures SameImageShape(res.value[s], hu[s]) && IsBinaryImage(res.value[s])
    {
      LargestComponentSpec(binarized[s], labeller);
    }
  }

  /** The stages after calibration: air regions, dilation, candidate selection and
      substitution, on the calibrated volume `hu`. */
  method DrownCalibrated(hu: array<Image>, labeller: Image -> Labelling, kernel: seq<(int, int)>,
                         replacer: ReplacerArg, choice: (nat, nat) -> seq<nat>)
    returns (res: Result<array<Image>, DeidError>, warned: bool,
             ghost processed: Volume, ghost dilated: Volume, ghost candidates: seq<int>)
    requires IsLabeller(labeller) && IsChoiceSource(choice)
    ensures res.Failure? ==> res.error.NoAirRegion? || res.error == NoCandidates
    ensures res.Failure? && res.error.NoAirRegion? ==>
      NoAirIn(hu[..], res.error.slice) && !warned &&
      forall j :: 0 <= j < res.error.slice ==> !NoAirIn(hu[..], j)
    ensures (res.Success? || res.error == NoCandidates) ==>
      AirRegionsOf(processed, hu[..], labeller) && DilationOf(dilated, processed, kernel) &&
      SameShape(hu[..], dilated) &&
      candidates == CandidateValues(SelectPolicy(replacer).policy, hu[..], dilated, processed) &&
      warned == SelectPolicy(replacer).warned
    ensures res.Failure? && res.error == NoCandidates ==> candidates == [] && VolumeOnes(dilated) > 0
    ensures res.Success? ==> fresh(res.value) && Drowned(res.value[..], hu[..], dilated, candidates)
    ensures res.Success? ==>
      forall s, r, c :: 0 <= s < hu.Length && Inside(hu[s], r, c) && dilated[s][r][c] == 1 ==>
        res.value[s][r][c] ==
          Draw(candidates, choice(|candidates|, VolumeOnes(dilated)), Rank(dilated, s, r, c))
  {
    processed, dilated, candidates, warned := [], [], [], false;
    var regions := AirRegions(hu, labeller);
    if regions.Failure? {
      return regions, false, processed, dilated, candidates;
    }
    var processedVolume := regions.value;
    processed := processedVolume[..];
    var dilatedVolume := DilateVolume(processedVolume, kernel);
    dilated := dilatedVolume[..];
    forall s | 0 <= s < hu.Length
      ensures SameImageShape(dilated[s], hu[s]) && IsBinaryImage(dilated[s])
    {
      DilationShape(processed[s], kernel);
    }
    var selection := SelectPolicy(replacer);
    warned := selection.warned;
    var values := CandidateValues(selection.policy, hu[..], dilatedVolume[..], processedVolume[..]);
    candidates := values;
    res := ApplyRandomValues(hu, dilatedVolume, values, choice);
  }

  /** Runs the stages in order and stops at the first failure. The ghost results expose the
      intermediate volumes: `hu` the calibrated volume, `processed` the largest air region
      of each slice, `dilated` its dilation, and `candidates` the list the replacer
      selects. `warned` reports the fallback to 'face' for an unrecognised replacer. */
  method DrownVolume(slices: seq<Slice>, labeller: Image -> Labelling, kernel: seq<(int, int)>,
                     replacer: ReplacerArg, choice: (nat, nat) -> seq<nat>)
    returns (res: Result<array<Image>, DeidError>, warned: bool,
             ghost hu: Volume, ghost processed: Volume, ghost dilated: Volume,
             ghost candidates: seq<int>)
    requires IsLabeller(labeller) && IsChoiceSource(choice)
    ensures (res.Failure? && res.error in {NoSlices, ShapeMismatch}) <==> !Stackable(slices)
    ensures Stackable(slices) ==>
      |hu| == |slices| && IsVolumeOf(hu, |slices[0].pixels|, Columns(slices[0].pixels)) &&
      forall s :: 0 <= s < |slices| ==> HoldsHu(hu[s], slices[s])
    ensures !Stackable(slices) ==>
      res.Failure? && res.error == (if |slices| == 0 then NoSlices else ShapeMismatch) && !warned
    ensures res.Failure? && res.error.NoAirRegion? ==>
      NoAirIn(hu, res.error.slice) && !warned &&
      forall j :: 0 <= j < res.error.slice ==> !NoAirIn(hu, j)
    ensures (res.Success? || res.error == NoCandidates) ==>
      AirRegionsOf(processed, hu, labeller) && DilationOf(dilated, processed, kernel) &&
      SameShape(hu, dilated) &&
      candidates == CandidateValues(SelectPolicy(replacer).policy, hu, dilated, processed) &&
      warned == SelectPolicy(replacer).warned
    ensures res.Failure? && res.error == NoCandidates ==> candidates == [] && VolumeOnes(dilated) > 0
    ensures res.Success? ==> fresh(res.value) && Drowned(res.value[..], hu, dilated, candidates)
    ensures res.Success? ==>
      forall s, r, c :: 0 <= s < |hu| && Inside(hu[s], r, c) && dilated[s][r][c] == 1 ==>
        res.value[s][r][c] ==
          Draw(candidates, choice(|candidates|, VolumeOnes(dilated)), Rank(dilated, s, r, c))
  {
    hu, processed, dilated, candidates, warned := [], [], [], [], false;
    var stacked := GetPixelsHu(slices);
    if stacked.Failure? {
      return stacked, false, hu, processed, dilated, candidates;
    }
    var huVolume := stacked.value;
    hu := huVolume[..];
    res, warned, processed, dilated, candidates := DrownCalibrated(huVolume, labeller, kernel, replacer, choice);
  }

  /** With an element that contains its anchor, every voxel of the largest air regions
      lies inside the dilated mask, so the substitution overwrites all of it. */
  lemma AirRegionInsideMask(processed: Volume, dilated: Volume, kernel: seq<(int, int)>)
    requires DilationOf(dilated, processed, kernel) && (0, 0) in kernel
    ensures forall s, r, c ::
      (0 <= s < |processed| && Inside(processed[s], r, c) && processed[s][r][c] != 0) ==>
      dilated[s][r][c] == 1
  {
    forall s | 0 <= s < |processed|
      ensures forall r, c :: Inside(processed[s], r, c) && processed[s][r][c] != 0 ==>
        dilated[s][r][c] == 1
    {
      DilationNeverShrinks(processed[s], kernel);
    }
  }

  /** Volume form of the ring lemma: the uint8 ring of a dilated 0/1 volume is a 0/1
      volume marking exactly the voxels the dilation added. */
  lemma RingOfDilation(processed: Volume, dilated: Volume, kernel: seq<(int, int)>)
    requires IsBinary(processed) && DilationOf(dilated, processed, kernel) && (0, 0) in kernel
    ensures SameShape(dilated, processed)
    ensures SameShape(Ring(dilated, processed), dilated) && IsBinary(Ring(dilated, processed))
    ensures forall s, r, c :: 0 <= s < |processed| && Inside(processed[s], r, c) ==>
      (Ring(dilated, processed)[s][r][c] == 1 <==> dilated[s][r][c] == 1 && processed[s][r][c] == 0)
  {
    forall s | 0 <= s < |processed|
      ensures SameImageShape(dilated[s], processed[s])
      ensures IsBinaryImage(RingImage(dilated[s], processed[s]))
      ensures forall r, c :: Inside(processed[s], r, c) ==>
        (RingImage(dilated[s], processed[s])[r][c] == 1 <==> dilated[s][r][c] == 1 && processed[s][r][c] == 0)
    {
      RingIsDifference(processed[s], kernel);
    }
  }

  /** Under the 'face' policy, with an element that contains its anchor and an int16
      volume, every candidate lies strictly between the face bounds and is 0 or the value
      of a ring voxel: one the dilation added, outside the air region. */
  lemma FaceCandidatesFromRing(hu: Volume, processed: Volume, dilated: Volume, kernel: seq<(int, int)>)
    requires SameShape(hu, processed) && IsBinary(processed)
    requires DilationOf(dilated, processed, kernel) && (0, 0) in kernel
    requires forall s, r, c :: 0 <= s < |hu| && Inside(hu[s], r, c) ==> InInt16(hu[s][r][c])
    ensures SameShape(hu, dilated) && SameShape(dilated, processed)
    ensures forall x :: x in CandidateValues(RingSampled, hu, dilated, processed) ==>
      Sampling.FACE_MIN_VALUE < x < Sampling.FACE_MAX_VALUE &&
      (x == 0 ||
       exists s, r, c :: 0 <= s < |hu| && Inside(hu[s], r, c) &&
         dilated[s][r][c] == 1 && processed[s][r][c] == 0 && hu[s][r][c] == x)
  {
    RingOfDilation(processed, dilated, kernel);
    var ring := Ring(dilated, processed);
    var candidates := Sampling.ApplyMaskAndGetValues(hu, ring);
    Sampling.CandidatesSpec(hu, ring);
    Sampling.CandidatesFromMarkedVoxels(hu, ring);
    forall x | x in candidates
      ensures Sampling.FACE_MIN_VALUE < x < Sampling.FACE_MAX_VALUE
      ensures x == 0 ||
        exists s, r, c :: 0 <= s < |hu| && Inside(hu[s], r, c) &&
          dilated[s][r][c] == 1 && processed[s][r][c] == 0 && hu[s][r][c] == x
    {
      if x != 0 {
        var s, r, c :| 0 <= s < |hu| && Inside(hu[s], r, c) && ring[s][r][c] == 1 && hu[s][r][c] == x;
        assert Inside(processed[s], r, c);
      }
    }
  }

  /** Conversely, every ring voxel whose value lies strictly between the face bounds is a
      candidate under the 'face' policy. */
  lemma RingVoxelsAreCandidates(hu: Volume, processed: Volume, dilated: Volume, kernel: seq<(int, int)>)
    requires SameShape(hu, processed) && IsBinary(processed)
    requires DilationOf(dilated, processed, kernel) && (0, 0) in kernel
    requires forall s, r, c :: 0 <= s < |hu| && Inside(hu[s], r, c) ==> InInt16(hu[s][r][c])
    ensures SameShape(hu, dilated) && SameShape(dilated, processed)
    ensures forall s, r, c ::
      (0 <= s < |hu| && Inside(hu[s], r, c) && dilated[s][r][c] == 1 && processed[s][r][c] == 0 &&
       Sampling.FACE_MIN_VALUE < hu[s][r][c] < Sampling.FACE_MAX_VALUE) ==>
      hu[s][r][c] in CandidateValues(RingSampled, hu, dilated, processed)
  {
    RingOfDilation(processed, dilated, kernel);
    Sampling.CandidatesFromMarkedVoxels(hu, Ring(dilated, processed));
  }
}
