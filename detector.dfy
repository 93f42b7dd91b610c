/**
  The stateful part of `src/detector.py`: `MotionDetector`, which keeps the
  normalized closed-door reference, set once at construction and never
  reassigned (a `const` here), and the previous normalized frame, overwritten
  on every `update`.

  Grayscale conversion (`cv2.cvtColor`, BGR to gray) and Gaussian smoothing
  (`cv2.GaussianBlur`) are library code; they enter the model as the two
  function-valued parameters of a `Normalizer`, of which the model assumes
  only what the library guarantees about shape: gray conversion works pixel
  by pixel, and the blur keeps the grid's dimensions.
*/
module Detector {
  import opened Wrappers
  import opened Scoring

  /** A colour sample as OpenCV delivers it: blue, green, red. */
  datatype Bgr = Bgr(b: Pixel, g: Pixel, r: Pixel)

  /** A colour image. */
  type Frame = seq<seq<Bgr>>

  /** The library calls the detector makes: per-pixel gray conversion and a `k` by `k` blur. */
  datatype Normalizer = Normalizer(luma: Bgr -> Pixel, blur: (Grid, int) -> Grid)

  /** The blur returns a grid of the dimensions it was given. */
  ghost predicate KeepsShape(n: Normalizer)
  {
    forall g: Grid, k: int :: SameShape(n.blur(g, k), g)
  }

  /** `_to_gray` on a colour image. */
  function ToGray(n: Normalizer, img: Frame): (r: Grid)
    ensures SameShape(r, img)
    ensures forall i, j :: 0 <= i < |img| && 0 <= j < |img[i]| ==> r[i][j] == n.luma(img[i][j])
  {
    seq(|img|, i requires 0 <= i < |img| => seq<Pixel>(|img[i]|, j requires 0 <= j < |img[i]| => n.luma(img[i][j])))
  }

  /**
    Gray conversion, then the blur when the kernel size is above 1
    (`if self.blur_ksize and self.blur_ksize > 1`).
  */
  function Normalize(n: Normalizer, ksize: int, img: Frame): (r: Grid)
    requires KeepsShape(n)
    ensures SameShape(r, img)
    ensures ksize <= 1 ==> r == ToGray(n, img)
    ensures ksize > 1 ==> r == n.blur(ToGray(n, img), ksize)
  {
    var gray := ToGray(n, img);
    if ksize > 1 then n.blur(gray, ksize) else gray
  }

  /** The region of `frame`, cropped and normalized: an `h` by `w` grid. */
  function Prepare(n: Normalizer, ksize: int, roi: Roi, frame: Frame): (r: Grid)
    requires KeepsShape(n) && Fits(frame, roi)
    ensures HasShape(r, roi.h, roi.w)
  {
    Normalize(n, ksize, Crop(frame, roi))
  }

  /** The two scores of one `update`. */
  datatype DetectorOutput = DetectorOutput(motionFrac: real, deltaClosedFrac: real)

  class MotionDetector {
    const roi: Roi
    const diffThreshold: int
    const blurKsize: int
    const norm: Normalizer
    const closedRefGray: Grid
    var prevGray: Option<Grid>

    /** Both stored grids have the region's dimensions, which are positive. */
    ghost predicate Valid()
      reads this
    {
      roi.w > 0 && roi.h > 0 && KeepsShape(norm) &&
      HasShape(closedRefGray, roi.h, roi.w) &&
      (prevGray.Some? ==> HasShape(prevGray.value, roi.h, roi.w))
    }

    /** The reference image is passed in already loaded; it is cropped and normalized like every frame. */
    constructor (roi: Roi, diffThreshold: int, blurKsize: int, norm: Normalizer, closedRef: Frame)
      requires roi.w > 0 && roi.h > 0 && KeepsShape(norm) && Fits(closedRef, roi)
      ensures Valid()
      ensures this.roi == roi && this.diffThreshold == diffThreshold && this.blurKsize == blurKsize && this.norm == norm
      ensures closedRefGray == Prepare(norm, blurKsize, roi, closedRef)
      ensures prevGray == None
    {
      this.roi := roi;
      this.diffThreshold := diffThreshold;
      this.blurKsize := blurKsize;
      this.norm := norm;
      closedRefGray := Prepare(norm, blurKsize, roi, closedRef);
      prevGray := None;
    }

    /**
      Scores the new frame against the closed reference and against the
      previous frame (0.0 on the first call), then remembers the new frame.
      The reference is never touched, and the delta-closed score does not
      depend on the previous frame.
    */
    method Update(frame: Frame) returns (out: DetectorOutput)
      requires Valid() && Fits(frame, roi)
      modifies this`prevGray
      ensures Valid()
      ensures prevGray == Some(Prepare(norm, blurKsize, roi, frame))
      ensures out.deltaClosedFrac == ChangeFraction(Prepare(norm, blurKsize, roi, frame), closedRefGray, diffThreshold)
      ensures old(prevGray) == None ==> out.motionFrac == 0.0
      ensures old(prevGray).Some? ==>
                out.motionFrac == ChangeFraction(Prepare(norm, blurKsize, roi, frame), old(prevGray).value, diffThreshold)
      ensures 0.0 <= out.motionFrac <= 1.0 && 0.0 <= out.deltaClosedFrac <= 1.0
    {
      var gray := Prepare(norm, blurKsize, roi, frame);
      var deltaClosed := ChangeFraction(gray, closedRefGray, diffThreshold);
      if prevGray == None {
        prevGray := Some(gray);
        return DetectorOutput(0.0, deltaClosed);
      }
      var motion := ChangeFraction(gray, prevGray.value, diffThreshold);
      prevGray := Some(gray);
      out := DetectorOutput(motion, deltaClosed);
    }
  }
}
