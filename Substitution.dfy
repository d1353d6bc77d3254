/** Replacement of every voxel under the dilated mask by a randomly drawn candidate
    (`apply_random_values_optimized`). The random draws are injected: `picks` is the
    index sequence that `np.random.choice(len(values), size=np.sum(mask))` returns, and the
    masked assignment consumes it in row-major order. */
module Substitution {
  import opened Wrappers
  import opened FixedWidth
  import opened Volumes

  /** The value stored by the k-th draw: the candidate at index picks[k], cast to the
      int16 volume. Outside the range of the draws it is 0, a case the contracts below
      never reach. */
  function Draw(values: seq<int>, picks: seq<nat>, k: nat): int {
    if k < |picks| && picks[k] < |values| then Wrap16(values[picks[k]]) else 0
  }

  /** `filled` is the row `row` after the masked assignment, with draws numbered from
      `start`: a marked cell holds the draw numbered by the marked cells before it, an
      unmarked cell keeps its value. */
  ghost predicate RowFilled(filled: seq<int>, row: seq<int>, marks: seq<int>,
                            values: seq<int>, picks: seq<nat>, start: nat)
  {
    |filled| == |row| && |marks| == |row| &&
    forall c :: 0 <= c < |row| ==>
      filled[c] == if marks[c] == 1 then Draw(values, picks, start + RowOnes(marks[..c])) else row[c]
  }

  /** The same, for a whole slice in row-major order. */
  ghost predicate ImageFilled(filled: Image, img: Image, marks: Image,
                              values: seq<int>, picks: seq<nat>, start: nat)
  {
    SameImageShape(filled, img) && SameImageShape(marks, img) &&
    forall r :: 0 <= r < |img| ==>
      RowFilled(filled[r], img[r], marks[r], values, picks, start + ImageOnes(marks[..r]))
  }

  /** The masked assignment along one row: walks the row left to right and writes the
      next draw into each marked cell. Returns the row and the number of the next draw. */
  method SubstituteRow(row: seq<int>, marks: seq<int>, values: seq<int>, picks: seq<nat>, start: nat)
    returns (filled: seq<int>, next: nat)
    requires |marks| == |row|
    ensures next == start + RowOnes(marks)
    ensures |filled| == |row|
    ensures forall c :: 0 <= c < |row| ==>
      filled[c] == if marks[c] == 1 then Draw(values, picks, start + RowOnes(marks[..c])) else row[c]
  {
    filled, next := row, start;
    for c := 0 to |row|
      invariant |filled| == |row|
      invariant next == start + RowOnes(marks[..c])
      invariant forall j :: 0 <= j < c ==>
        filled[j] == if marks[j] == 1 then Draw(values, picks, start + RowOnes(marks[..j])) else row[j]
      invariant forall j :: c <= j < |row| ==> filled[j] == row[j]
    {
      TallyStep(marks, IsOne, c);
      if marks[c] == 1 {
        filled := filled[c := Draw(values, picks, next)];
        next := next + 1;
      }
    }
    assert marks[..|row|] == marks;
  }

  /** The masked assignment over one slice, row after row. */
  method SubstituteSlice(img: Image, marks: Image, values: seq<int>, picks: seq<nat>, start: nat)
    returns (filled: Image, next: nat)
    requires SameImageShape(img, marks)
    ensures next == start + ImageOnes(marks)
    ensures ImageFilled(filled, img, marks, values, picks, start)
  {
    filled, next := img, start;
    for r := 0 to |img|
      invariant SameImageShape(filled, img)
      invariant next == start + ImageOnes(marks[..r])
      invariant forall j :: 0 <= j < r ==>
        RowFilled(filled[j], img[j], marks[j], values, picks, start + ImageOnes(marks[..j]))
      invariant forall j :: r <= j < |img| ==> filled[j] == img[j]
    {
      TallyStep(marks, RowOnes, r);
      var row, n := SubstituteRow(filled[r], marks[r], values, picks, next);
      filled := filled[r := row];
      next := n;
    }
    assert marks[..|img|] == marks;
  }

  /** The pointwise reading of a volume filled slice by slice: a marked voxel holds the
      draw numbered by its row-major rank, which is one of the candidates when the draws
      are all in range; an unmarked voxel keeps its value. */
  lemma FilledVolume(out: Volume, hu: Volume, marks: Volume, values: seq<int>, picks: seq<nat>)
    requires SameShape(hu, marks) && |out| == |hu|
    requires forall t :: 0 <= t < |hu| ==>
      ImageFilled(out[t], hu[t], marks[t], values, picks, VolumeOnes(marks[..t]))
    requires |values| == 0 ==> VolumeOnes(marks) == 0
    requires |values| > 0 ==>
      |picks| == VolumeOnes(marks) && forall k :: 0 <= k < |picks| ==> picks[k] < |values|
    ensures SameShape(out, hu)
    ensures forall s, r, c :: 0 <= s < |hu| && Inside(hu[s], r, c) ==>
      out[s][r][c] == if marks[s][r][c] == 1 then Draw(values, picks, Rank(marks, s, r, c)) else hu[s][r][c]
    ensures forall s, r, c :: 0 <= s < |hu| && Inside(hu[s], r, c) && marks[s][r][c] == 1 ==>
      exists k :: 0 <= k < |values| && out[s][r][c] == Wrap16(values[k])
  {
    forall s, r, c | 0 <= s < |hu| && Inside(hu[s], r, c)
      ensures out[s][r][c] ==
        if marks[s][r][c] == 1 then Draw(values, picks, Rank(marks, s, r, c)) else hu[s][r][c]
      ensures marks[s][r][c] == 1 ==>
        exists k :: 0 <= k < |values| && out[s][r][c] == Wrap16(values[k])
    {
      assert ImageFilled(out[s], hu[s], marks[s], values, picks, VolumeOnes(marks[..s]));
      assert RowFilled(out[s][r], hu[s][r], marks[s][r], values, picks,
        VolumeOnes(marks[..s]) + ImageOnes(marks[s][..r]));
      if marks[s][r][c] == 1 {
        RankBound(marks, s, r, c);
        var k := picks[Rank(marks, s, r, c)];
        assert out[s][r][c] == Wrap16(values[k]);
      }
    }
  }

  /** `np.copy` of a volume. */
  method CopyVolume(volume: array<Image>) returns (copy: array<Image>)
    ensures fresh(copy) && copy[..] == volume[..]
  {
    copy := new Image[volume.Length](s reads volume requires 0 <= s < volume.Length => volume[s]);
  }

  /** `volume[mask == 1] = draws`, in place: every slice becomes the same slice with each
      voxel marked 1 overwritten by the next draw, in row-major order. */
  method AssignMarked(volume: array<Image>, mask: array<Image>, values: seq<int>, picks: seq<nat>)
    requires volume != mask && SameShape(volume[..], mask[..])
    modifies volume
    ensures forall t :: 0 <= t < volume.Length ==>
      ImageFilled(volume[t], old(volume[t]), mask[t], values, picks, VolumeOnes(mask[..t]))
  {
    ghost var marks, source := mask[..], volume[..];
    var next := 0;
    for s := 0 to volume.Length
      invariant next == VolumeOnes(marks[..s])
      invariant forall t :: 0 <= t < s ==>
        ImageFilled(volume[t], source[t], marks[t], values, picks, VolumeOnes(marks[..t]))
      invariant forall t :: s <= t < volume.Length ==> volume[t] == source[t]
    {
      TallyStep(marks, ImageOnes, s);
      var filled, n := SubstituteSlice(volume[s], mask[s], values, picks, next);
      volume[s] := filled;
      next := n;
    }
  }

  /** `np.random.choice(n, size=size)` as an injected random source: it returns `size`
      indices, each below `n`, and can be asked for no draw from an empty population. */
  ghost predicate IsChoiceSource(choice: (nat, nat) -> seq<nat>) {
    forall n: nat, size: nat :: (n > 0 || size == 0) ==>
      |choice(n, size)| == size && forall k :: 0 <= k < size ==> choice(n, size)[k] < n
  }

  /** Copies the volume, draws one index per voxel marked 1, and overwrites the marked
      voxels with the drawn candidates in row-major order. Fails, as drawing from an empty
      list does, exactly when there are no candidates but at least one marked voxel.
      Otherwise the result has the shape of the input, every unmarked voxel is unchanged,
      and every marked voxel holds a candidate (as int16): the one chosen by the draw
      numbered by its row-major rank among the marked voxels. */
  method ApplyRandomValues(hu: array<Image>, dilated: array<Image>, values: seq<int>,
                           choice: (nat, nat) -> seq<nat>)
    returns (res: Result<array<Image>, DeidError>)
    requires SameShape(hu[..], dilated[..]) && IsBinary(dilated[..]) && IsChoiceSource(choice)
    ensures res.Failure? <==> |values| == 0 && VolumeOnes(dilated[..]) > 0
    ensures res.Failure? ==> res.error == NoCandidates
    ensures res.Success? ==> fresh(res.value) && SameShape(res.value[..], hu[..])
    ensures res.Success? ==>
      forall s, r, c :: 0 <= s < hu.Length && Inside(hu[s], r, c) ==>
        res.value[s][r][c] ==
          if dilated[s][r][c] == 1
          then Draw(values, choice(|values|, VolumeOnes(dilated[..])), Rank(dilated[..], s, r, c))
          else hu[s][r][c]
    ensures res.Success? ==>
      forall s, r, c :: 0 <= s < hu.Length && Inside(hu[s], r, c) && dilated[s][r][c] == 1 ==>
        exists k :: 0 <= k < |values| && res.value[s][r][c] == Wrap16(values[k])
  {
    var draws := VolumeOnes(dilated[..]);
    if |values| == 0 && draws > 0 {
      return Failure(NoCandidates);
    }
    var picks := choice(|values|, draws);
    var out := CopyVolume(hu);
    AssignMarked(out, dilated, values, picks);
    FilledVolume(out[..], hu[..], dilated[..], values, picks);
    return Success(out);
  }
}
