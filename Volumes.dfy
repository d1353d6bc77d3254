/** Images (row x column) and volumes (slice x row x column) of integers, their shapes,
    and row-major counting of the voxels that a 0/1 mask marks. */
module Volumes {

  type Image = seq<seq<int>>
  type Volume = seq<Image>

  predicate Inside(img: Image, r: int, c: int) {
    0 <= r < |img| && 0 <= c < |img[r]|
  }

  /** A rectangular image with the given number of rows and columns. */
  predicate IsGrid(img: Image, rows: nat, cols: nat) {
    |img| == rows && forall r :: 0 <= r < rows ==> |img[r]| == cols
  }

  /** Every slice of the volume is a rows x cols grid. */
  predicate IsVolumeOf(v: Volume, rows: nat, cols: nat) {
    forall s :: 0 <= s < |v| ==> IsGrid(v[s], rows, cols)
  }

  predicate SameImageShape(a: Image, b: Image) {
    |a| == |b| && forall r :: 0 <= r < |a| ==> |a[r]| == |b[r]|
  }

  predicate SameShape(a: Volume, b: Volume) {
    |a| == |b| && forall s :: 0 <= s < |a| ==> SameImageShape(a[s], b[s])
  }

  ghost predicate IsBinaryImage(img: Image) {
    forall r, c :: Inside(img, r, c) ==> img[r][c] == 0 || img[r][c] == 1
  }

  ghost predicate IsBinary(v: Volume) {
    forall s :: 0 <= s < |v| ==> IsBinaryImage(v[s])
  }

  /** Sum of `weight` over a sequence, accumulated from the front (row-major order when
      the sequence is a row, an image or a volume). */
  function Tally<T>(xs: seq<T>, weight: T -> nat): nat {
    if |xs| == 0 then 0 else Tally(xs[..|xs| - 1], weight) + weight(xs[|xs| - 1])
  }

  lemma TallyStep<T>(xs: seq<T>, weight: T -> nat, i: nat)
    requires i < |xs|
    ensures Tally(xs[..i + 1], weight) == Tally(xs[..i], weight) + weight(xs[i])
  {
    assert xs[..i + 1][..i] == xs[..i];
  }

  /** A prefix never counts more than the whole sequence. */
  lemma {:induction false} TallyPrefix<T>(xs: seq<T>, weight: T -> nat, i: nat)
    requires i <= |xs|
    ensures Tally(xs[..i], weight) <= Tally(xs, weight)
  {
    if i < |xs| {
      assert xs[..|xs| - 1][..i] == xs[..i];
      TallyPrefix(xs[..|xs| - 1], weight, i);
    } else {
      assert xs[..i] == xs;
    }
  }

  /** The tally is positive exactly when some element has positive weight. */
  lemma {:induction false} TallyPositive<T>(xs: seq<T>, weight: T -> nat)
    ensures Tally(xs, weight) > 0 <==> exists i :: 0 <= i < |xs| && weight(xs[i]) > 0
  {
    if |xs| > 0 {
      var init := xs[..|xs| - 1];
      TallyPositive(init, weight);
      if exists i :: 0 <= i < |init| && weight(init[i]) > 0 {
        var i :| 0 <= i < |init| && weight(init[i]) > 0;
        assert xs[i] == init[i];
      }
      if exists i :: 0 <= i < |xs| && weight(xs[i]) > 0 {
        var i :| 0 <= i < |xs| && weight(xs[i]) > 0;
        if i < |init| { assert init[i] == xs[i]; }
      }
    }
  }

  function IsOne(x: int): nat {
    if x == 1 then 1 else 0
  }

  function RowOnes(row: seq<int>): nat {
    Tally(row, IsOne)
  }

  function ImageOnes(img: Image): nat {
    Tally(img, RowOnes)
  }

  /** The number of voxels equal to 1; for a 0/1 mask this is also the sum of the mask. */
  function VolumeOnes(v: Volume): nat {
    Tally(v, ImageOnes)
  }

  /** The number of 1s that come before voxel (s, r, c) in row-major order. */
  function Rank(m: Volume, s: nat, r: nat, c: nat): nat
    requires s < |m| && r < |m[s]| && c <= |m[s][r]|
  {
    VolumeOnes(m[..s]) + ImageOnes(m[s][..r]) + RowOnes(m[s][r][..c])
  }

  /** The rank of a voxel, plus one when the voxel itself is marked, never exceeds the
      number of marked voxels: every marked voxel has its own draw among VolumeOnes(m). */
  lemma RankBound(m: Volume, s: nat, r: nat, c: nat)
    requires s < |m| && r < |m[s]| && c < |m[s][r]|
    ensures Rank(m, s, r, c) + IsOne(m[s][r][c]) <= VolumeOnes(m)
  {
    var row := m[s][r];
    TallyStep(row, IsOne, c);
    TallyPrefix(row, IsOne, c + 1);
    TallyStep(m[s], RowOnes, r);
    TallyPrefix(m[s], RowOnes, r + 1);
    TallyStep(m, ImageOnes, s);
    TallyPrefix(m, ImageOnes, s + 1);
  }

  /** Moving the end of a prefix past element i adds at least the weight of element i. */
  lemma TallyGrows<T>(xs: seq<T>, weight: T -> nat, i: nat, j: nat)
    requires i < j <= |xs|
    ensures Tally(xs[..i], weight) + weight(xs[i]) <= Tally(xs[..j], weight)
  {
    TallyStep(xs, weight, i);
    assert xs[..j][..i + 1] == xs[..i + 1];
    TallyPrefix(xs[..j], weight, i + 1);
  }

  /** Ranks follow row-major order: a voxel that comes before another has a rank no
      larger, and strictly smaller when it is marked itself. So distinct marked voxels
      take distinct draws, in the order of the voxels. */
  lemma RankOrder(m: Volume, s: nat, r: nat, c: nat, s2: nat, r2: nat, c2: nat)
    requires s < |m| && r < |m[s]| && c < |m[s][r]|
    requires s2 < |m| && r2 < |m[s2]| && c2 < |m[s2][r2]|
    requires s < s2 || (s == s2 && (r < r2 || (r == r2 && c < c2)))
    ensures Rank(m, s, r, c) + IsOne(m[s][r][c]) <= Rank(m, s2, r2, c2)
  {
    var row := m[s][r];
    if s == s2 && r == r2 {
      TallyGrows(row, IsOne, c, c2);
    } else {
      TallyGrows(row, IsOne, c, |row|);
      assert row[..|row|] == row;
      if s == s2 {
        TallyGrows(m[s], RowOnes, r, r2);
      } else {
        TallyGrows(m[s], RowOnes, r, |m[s]|);
        assert m[s][..|m[s]|] == m[s];
        TallyGrows(m, ImageOnes, s, s2);
      }
    }
  }
}
