/**
  The pure part of `src/detector.py`: cropping a frame to the region of
  interest, and the change score, i.e. the absolute difference of two equal
  shape 8-bit grids, a strict binary threshold (`THRESH_BINARY` with maximum
  255) and the count of set pixels over the pixel total.

  Images are row-major grids, `g[row][column]`; NumPy arrays are rectangular,
  which `HasShape` states.
*/
module Scoring {

  /** An 8-bit intensity sample (`uint8`). */
  type Pixel = x: int | 0 <= x < 256

  /** A single-channel image. */
  type Grid = seq<seq<Pixel>>

  /** The region of interest `(x, y, w, h)`. */
  datatype Roi = Roi(x: int, y: int, w: int, h: int)

  /** The distance between two samples, `|p - q|`. */
  function Gap(p: int, q: int): nat
  {
    if p < q then q - p else p - q
  }

  /** `g` is an `h` by `w` array. */
  predicate HasShape<T>(g: seq<seq<T>>, h: int, w: int)
  {
    |g| == h && forall i :: 0 <= i < |g| ==> |g[i]| == w
  }

  predicate SameShape<T, U>(a: seq<seq<T>>, b: seq<seq<U>>)
  {
    |a| == |b| && forall i :: 0 <= i < |a| ==> |a[i]| == |b[i]|
  }

  /** The region lies inside the frame, so slicing clips nothing. */
  predicate Fits<T>(frame: seq<seq<T>>, roi: Roi)
  {
    0 <= roi.x && 0 <= roi.y && 0 <= roi.w && 0 <= roi.h &&
    roi.y + roi.h <= |frame| &&
    forall i :: roi.y <= i < roi.y + roi.h ==> roi.x + roi.w <= |frame[i]|
  }

  /** `_crop`: the slice `frame[y : y + h, x : x + w]`. */
  function Crop<T>(frame: seq<seq<T>>, roi: Roi): (r: seq<seq<T>>)
    requires Fits(frame, roi)
    ensures HasShape(r, roi.h, roi.w)
    ensures forall i, j :: 0 <= i < roi.h && 0 <= j < roi.w ==> r[i][j] == frame[roi.y + i][roi.x + j]
  {
    seq(roi.h, i requires 0 <= i < roi.h => frame[roi.y + i][roi.x .. roi.x + roi.w])
  }

  /** `cv2.absdiff` on two grids of the same shape (exact: every distance fits in 8 bits). */
  function AbsDiff(a: Grid, b: Grid): (d: Grid)
    requires SameShape(a, b)
    ensures SameShape(d, a)
    ensures forall i, j :: 0 <= i < |a| && 0 <= j < |a[i]| ==> d[i][j] == Gap(a[i][j], b[i][j])
  {
    seq(|a|, i requires 0 <= i < |a| => seq(|a[i]|, j requires 0 <= j < |a[i]| => Gap(a[i][j], b[i][j])))
  }

  /** `cv2.threshold(d, t, 255, THRESH_BINARY)`: 255 where the sample is strictly above `t`, else 0. */
  function Threshold(d: Grid, t: int): (m: Grid)
    ensures SameShape(m, d)
    ensures forall i, j :: 0 <= i < |d| && 0 <= j < |d[i]| ==> (m[i][j] != 0 <==> d[i][j] > t)
    ensures forall i, j :: 0 <= i < |d| && 0 <= j < |d[i]| ==> m[i][j] == 0 || m[i][j] == 255
  {
    seq(|d|, i requires 0 <= i < |d| => seq(|d[i]|, j requires 0 <= j < |d[i]| => if d[i][j] > t then 255 else 0))
  }

  /** `np.count_nonzero` on one row. */
  function RowNonzero(row: seq<Pixel>): (n: nat)
    ensures n <= |row|
  {
    if row == [] then 0
    else RowNonzero(row[..|row| - 1]) + (if row[|row| - 1] != 0 then 1 else 0)
  }

  /** `np.count_nonzero` on a grid. */
  function CountNonzero(g: Grid): nat
  {
    if g == [] then 0
    else CountNonzero(g[..|g| - 1]) + RowNonzero(g[|g| - 1])
  }

  /** A row has no nonzero sample exactly when every sample is 0. */
  lemma {:induction false} RowNonzeroZero(row: seq<Pixel>)
    ensures RowNonzero(row) == 0 <==> forall j :: 0 <= j < |row| ==> row[j] == 0
    decreases |row|
  {
    if row != [] {
      var k := |row| - 1;
      RowNonzeroZero(row[..k]);
      assert forall j :: 0 <= j < k ==> row[..k][j] == row[j];
    }
  }

  /** A grid has no nonzero sample exactly when every sample is 0. */
  lemma {:induction false} CountNonzeroZero(g: Grid)
    ensures CountNonzero(g) == 0 <==> forall i, j :: 0 <= i < |g| && 0 <= j < |g[i]| ==> g[i][j] == 0
    decreases |g|
  {
    if g != [] {
      var k := |g| - 1;
      CountNonzeroZero(g[..k]);
      RowNonzeroZero(g[k]);
      assert forall i :: 0 <= i < k ==> g[..k][i] == g[i];
    }
  }

  /** At most every sample of an `h` by `w` grid is set. */
  lemma {:induction false} CountNonzeroBound(g: Grid, w: int)
    requires HasShape(g, |g|, w)
    ensures CountNonzero(g) <= |g| * w
    decreases |g|
  {
    if g != [] {
      var k := |g| - 1;
      assert HasShape(g[..k], k, w);
      CountNonzeroBound(g[..k], w);
      assert CountNonzero(g) == CountNonzero(g[..k]) + RowNonzero(g[k]);
      assert RowNonzero(g[k]) <= w;
      assert |g| * w == k * w + w;
    }
  }

  /** The positions whose samples differ by strictly more than `t`: the meaning of the score. */
  ghost function ChangedPixels(a: Grid, b: Grid, t: int): set<(int, int)>
    requires SameShape(a, b)
  {
    set i, j | 0 <= i < |a| && 0 <= j < |a[i]| && Gap(a[i][j], b[i][j]) > t :: (i, j)
  }

  /** The changed positions among the first `n` columns of row `i`. */
  ghost function ChangedInRow(a: Grid, b: Grid, t: int, i: int, n: int): set<(int, int)>
    requires SameShape(a, b) && 0 <= i < |a| && 0 <= n <= |a[i]|
  {
    set j | 0 <= j < n && Gap(a[i][j], b[i][j]) > t :: (i, j)
  }

  /** The changed positions among the first `k` rows. */
  ghost function ChangedInRows(a: Grid, b: Grid, t: int, k: int): set<(int, int)>
    requires SameShape(a, b) && 0 <= k <= |a|
  {
    set i, j | 0 <= i < k && 0 <= j < |a[i]| && Gap(a[i][j], b[i][j]) > t :: (i, j)
  }

  /** The mask of one row, counted over its first `n` columns, has one set sample per changed position. */
  lemma {:induction false} RowCountIsChanged(a: Grid, b: Grid, t: int, i: int, n: int)
    requires SameShape(a, b) && 0 <= i < |a| && 0 <= n <= |a[i]|
    ensures RowNonzero(Threshold(AbsDiff(a, b), t)[i][..n]) == |ChangedInRow(a, b, t, i, n)|
    decreases n
  {
    var diff := AbsDiff(a, b);
    var row := Threshold(diff, t)[i];
    if n > 0 {
      RowCountIsChanged(a, b, t, i, n - 1);
      assert row[..n][..n - 1] == row[..n - 1];
      assert diff[i][n - 1] == Gap(a[i][n - 1], b[i][n - 1]);
      assert row[n - 1] != 0 <==> diff[i][n - 1] > t;
      var prev := ChangedInRow(a, b, t, i, n - 1);
      assert (i, n - 1) !in prev;
      if Gap(a[i][n - 1], b[i][n - 1]) > t {
        assert ChangedInRow(a, b, t, i, n) == prev + {(i, n - 1)};
      } else {
        assert ChangedInRow(a, b, t, i, n) == prev;
      }
    } else {
      assert ChangedInRow(a, b, t, i, 0) == {};
    }
  }

  /** The changed positions of the first `k` rows are those of the first `k - 1` rows and those of row `k - 1`, which are disjoint. */
  lemma SplitLastRow(a: Grid, b: Grid, t: int, k: int)
    requires SameShape(a, b) && 0 < k <= |a|
    ensures ChangedInRows(a, b, t, k) == ChangedInRows(a, b, t, k - 1) + ChangedInRow(a, b, t, k - 1, |a[k - 1]|)
    ensures ChangedInRows(a, b, t, k - 1) * ChangedInRow(a, b, t, k - 1, |a[k - 1]|) == {}
  {
  }

  /** The mask of the first `k` rows has one set sample per changed position in them. */
  lemma {:induction false} CountIsChangedRows(a: Grid, b: Grid, t: int, k: int)
    requires SameShape(a, b) && 0 <= k <= |a|
    ensures CountNonzero(Threshold(AbsDiff(a, b), t)[..k]) == |ChangedInRows(a, b, t, k)|
    decreases k
  {
    var mask := Threshold(AbsDiff(a, b), t);
    if k > 0 {
      var rows := mask[..k];
      CountIsChangedRows(a, b, t, k - 1);
      assert rows[..k - 1] == mask[..k - 1];
      RowCountIsChanged(a, b, t, k - 1, |a[k - 1]|);
      assert rows[k - 1] == mask[k - 1] == mask[k - 1][..|a[k - 1]|];
      assert CountNonzero(rows) == CountNonzero(rows[..k - 1]) + RowNonzero(rows[k - 1]);
      SplitLastRow(a, b, t, k);
    } else {
      assert ChangedInRows(a, b, t, 0) == {};
    }
  }

  /** Counting the set samples of the thresholded difference counts exactly the changed positions. */
  lemma MaskCountIsChanged(a: Grid, b: Grid, t: int)
    requires SameShape(a, b)
    ensures CountNonzero(Threshold(AbsDiff(a, b), t)) == |ChangedPixels(a, b, t)|
  {
    var mask := Threshold(AbsDiff(a, b), t);
    CountIsChangedRows(a, b, t, |a|);
    assert mask[..|a|] == mask;
    assert ChangedInRows(a, b, t, |a|) == ChangedPixels(a, b, t);
  }

  /** A part of a positive total, as a real share, lies in [0, 1]. */
  lemma ShareInUnit(part: nat, total: nat)
    requires 0 < total && part <= total
    ensures 0.0 <= (part as real) / (total as real) <= 1.0
  {
  }

  /**
    The change score of `src/detector.py`: the share of positions whose samples
    differ by strictly more than `t`. It lies in [0, 1].
  */
  function ChangeFraction(a: Grid, b: Grid, t: int): (r: real)
    requires |a| > 0 && HasShape(a, |a|, |a[0]|) && |a[0]| > 0 && SameShape(a, b)
    ensures r == (|ChangedPixels(a, b, t)| as real) / ((|a| * |a[0]|) as real)
    ensures 0.0 <= r <= 1.0
  {
    var mask := Threshold(AbsDiff(a, b), t);
    MaskCountIsChanged(a, b, t);
    assert HasShape(mask, |a|, |a[0]|);
    CountNonzeroBound(mask, |a[0]|);
    ShareInUnit(CountNonzero(mask), |mask| * |mask[0]|);
    (CountNonzero(mask) as real) / ((|mask| * |mask[0]|) as real)
  }

  /** Scoring is symmetric in its two grids. */
  lemma ScoreSymmetric(a: Grid, b: Grid, t: int)
    requires |a| > 0 && HasShape(a, |a|, |a[0]|) && |a[0]| > 0 && SameShape(a, b)
    ensures |b| > 0 && HasShape(b, |b|, |b[0]|) && |b[0]| > 0 && SameShape(b, a)
    ensures ChangeFraction(a, b, t) == ChangeFraction(b, a, t)
  {
    assert ChangedPixels(a, b, t) == ChangedPixels(b, a, t) by {
      forall i, j | 0 <= i < |a| && 0 <= j < |a[i]| ensures Gap(a[i][j], b[i][j]) == Gap(b[i][j], a[i][j]) {
      }
    }
  }

  /** A grid scored against itself shows no change, for any non-negative threshold. */
  lemma ScoreSelfZero(a: Grid, t: int)
    requires |a| > 0 && HasShape(a, |a|, |a[0]|) && |a[0]| > 0 && t >= 0
    ensures ChangeFraction(a, a, t) == 0.0
  {
  }
}
