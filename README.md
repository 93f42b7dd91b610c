# doorwatch door monitor: a Dafny model of the signal core

doorwatch watches a door through a fixed camera. Each frame is cropped to a
region of interest (ROI), turned to gray and smoothed. The result is compared
with two grids: a "closed door" reference and the previous frame. The share of
pixels that changed by more than a per-pixel threshold is the change score.
The score against the reference (`delta_closed`) drives a debounced two-state
machine. The machine emits OPEN or CLOSED only after enough consecutive
qualifying samples.

This project models that core in Dafny:

- `door_state.dfy` (module `DoorState`) holds `src/state.py`. The functions
  `Next` (one `step`) and `Run` (a sequence of steps) work on values.
  `DoorStateMachine` is the class whose `Step` updates `state`, `openCount`
  and `closeCount` in place. It is proved to agree with `Next` and to keep the
  invariant `Inv`. The lemmas prove the debounce behaviour over whole runs.
- `scoring.dfy` (module `Scoring`) holds the pure half of `src/detector.py`:
  `_crop`, and the absdiff / strict binary threshold / count-nonzero scoring.
  The score is proved equal to the number of positions whose samples differ by
  strictly more than the threshold, divided by the pixel total. It is proved
  to lie in [0, 1], to be symmetric, and to be 0 for a grid scored against
  itself when the threshold is non-negative.
- `detector.dfy` (module `Detector`) holds `MotionDetector`: the reference
  grid, a constant set at construction, and `prevGray`, overwritten by every `Update`.
- `wrappers.dfy` holds the `Option` type that stands for Python's `None`.

The door states, which the source spells as the strings "CLOSED" and "OPEN",
are the datatype `Door`. Thresholds and scores are `real`. Grids are
`seq<seq<Pixel>>` with `Pixel` the integers 0..255 (`uint8`).

The model follows the code:

- The closed reference comes only from a fixed image, read once at
  construction (`src/detector.py:47-57`). Nothing recalibrates it later.
- An ROI is not checked against the frame. Slicing clips an ROI that runs
  past the right or bottom edge. A negative origin counts from the opposite
  edge, which usually gives an empty crop that `cv2.cvtColor` rejects. The
  model requires the ROI to fit (`Scoring.Fits`), which excludes both cases.
- The docstring of `src/state.py` says "above" and "below". The code uses
  inclusive comparisons: `>= open_threshold` and `<= close_threshold`.
- `close_threshold < open_threshold` is not enforced, and neither is a
  positive debounce length. The model accepts any configuration. Lemmas that
  need a positive debounce length say so in their `requires`.

## Model

| member | source | states |
|---|---|---|
| `DoorState.Next` | src/state.py:28-53 | A step emits an event exactly when the door changes, and the event is the new state. Every transition clears both counters. Without an event, the other direction's counter is unchanged. A non-qualifying sample (below `open_threshold` in CLOSED, above `close_threshold` in OPEN) resets the running counter and emits nothing when the debounce length is positive. A qualifying sample that does not finish the debounce raises the counter by one. With a positive debounce length, a transition happens exactly when a qualifying sample brings the counter up to the debounce length, never earlier. With a debounce length of 0 or less, every step in that state transitions. `Inv` is preserved. |
| `DoorState.Run` | src/state.py:28-53 | A run gives one optional event per sample, and a run from a state satisfying `Inv` ends in a state satisfying `Inv`. |
| `DoorState.RunAppend` | src/state.py:28-53 | Feeding `a + b` is feeding `a` and then `b` from the state `a` left, with the event lists concatenated. |
| `DoorState.OpenCountsUp` | src/state.py:29-39 | In CLOSED with `c` samples counted, `open_debounce - c` samples at or above the open threshold give no event until the last one. The last one gives OPEN and leaves OPEN with both counters 0. |
| `DoorState.CloseCountsUp` | src/state.py:41-51 | The same for closing: in OPEN, the remaining `close_debounce - c` samples at or below the close threshold give CLOSED on the last call only. |
| `DoorState.OpensAfterDebounce` | src/state.py:24-39 | From a fresh machine and `open_debounce >= 1`, exactly `open_debounce` samples `>= open_threshold` (equality included) return None on every call but the last, which returns OPEN. |
| `DoorState.ClosesAfterDebounce` | src/state.py:41-51 | From OPEN with zero counters, exactly `close_debounce` samples `<= close_threshold` (equality included) return CLOSED on the last call only and leave the machine as fresh. |
| `DoorState.QuietClosedCount` | src/state.py:29-35 | In CLOSED, a run with no event stays CLOSED. Its final open counter `c` is at most the start counter plus the run length, and the run's last `c` samples are all at or above the open threshold. |
| `DoorState.QuietOpenCount` | src/state.py:41-47 | The mirror in OPEN: a run with no event stays OPEN, and the run's last `c` samples (where `c` is the final close counter) are all at or below the close threshold. |
| `DoorState.OpenMeansDebounced` | src/state.py:29-39 | The converse of `OpensAfterDebounce`: if a run from a fresh machine emits nothing until OPEN on its last sample, then the run has at least `open_debounce` samples, and its last `open_debounce` samples are all `>= open_threshold`. |
| `DoorState.ClosedMeansDebounced` | src/state.py:41-51 | The converse of `ClosesAfterDebounce`: if a run from OPEN emits nothing until CLOSED on its last sample, then its last `close_debounce` samples are all `<= close_threshold`. |
| `DoorState.StaysClosed` | src/state.py:29-53 | In CLOSED, samples below the open threshold never produce an event. The door stays CLOSED, the close counter is untouched and the open counter ends at 0. |
| `DoorState.StaysOpen` | src/state.py:41-53 | In OPEN, samples above the close threshold never produce an event. The door stays OPEN and the close counter ends at 0. |
| `DoorState.RunnerScenario` | src/main.py:29-32 | With the runner's thresholds 0.02 / 0.008 and debounce lengths 3 / 6, on the sample sequence `[0.03]*3 + [0.005]*6` give OPEN on call 3 and CLOSED on call 9, with no other event. |
| `DoorState.DoorStateMachine.constructor` | src/state.py:22-26 | A new machine is CLOSED with both counters 0, and it satisfies `Inv`. |
| `DoorState.DoorStateMachine.Step` | src/state.py:28-53 | The new fields and the returned event are exactly `Next` of the old fields, and `Inv` still holds afterwards. |
| `Scoring.Crop` | src/detector.py:12-14 | For an ROI inside the frame, the result has `h` rows of `w` columns and `out[i][j] == frame[y+i][x+j]`. |
| `Scoring.AbsDiff` | src/detector.py:68 | The difference grid has the inputs' shape, and each sample is `|a - b|` (always representable in 8 bits). |
| `Scoring.Threshold` | src/detector.py:69-71 | The mask has the input's shape, and every mask sample is 0 or 255. A sample is set exactly when the input sample is strictly above the threshold. |
| `Scoring.RowNonzero` | src/detector.py:72 | `np.count_nonzero` on one row. The count is at most the row length. |
| `Scoring.RowNonzeroZero` | src/detector.py:72 | A row's count is 0 exactly when every sample of the row is 0. |
| `Scoring.CountNonzeroZero` | src/detector.py:83 | `np.count_nonzero` on a grid (`CountNonzero`, the sum of the row counts) is 0 exactly when every sample is 0. `CountNonzeroBound` bounds it, and `MaskCountIsChanged` gives its meaning on a mask. |
| `Scoring.CountNonzeroBound` | src/detector.py:72 | An `h` by `w` grid has at most `h * w` set samples. |
| `Scoring.RowCountIsChanged` | src/detector.py:68-72 | Counting the set samples of one mask row gives the number of changed positions in that row. |
| `Scoring.CountIsChangedRows` | src/detector.py:68-72 | Counting the set samples of the first `k` mask rows gives the number of changed positions in those rows. |
| `Scoring.MaskCountIsChanged` | src/detector.py:68-72 | `count_nonzero(threshold(absdiff(a, b), t))` is the number of positions where `|a - b| > t`, strictly. |
| `Scoring.ChangeFraction` | src/detector.py:68-72 | For equal-shape, non-empty grids, the score is the number of positions with `|a - b| > t` divided by the pixel total, and it lies in [0, 1]. |
| `Scoring.ScoreSymmetric` | src/detector.py:79-83 | Swapping the two grids does not change the score. |
| `Scoring.ScoreSelfZero` | src/detector.py:68-72 | A grid scored against itself gives 0 for every threshold `>= 0`. |
| `Detector.ToGray` | src/detector.py:17-20 | Gray conversion keeps the image's dimensions and converts each pixel on its own. |
| `Detector.Normalize` | src/detector.py:62-65 | Normalizing keeps the dimensions. The blur is applied exactly when the kernel size is above 1. |
| `Detector.Prepare` | src/detector.py:61-65 | A frame's cropped and normalized region is an `h` by `w` grid. |
| `Detector.MotionDetector.constructor` | src/detector.py:36-58 | The reference is the cropped, normalized reference image. There is no previous frame yet. |
| `Detector.MotionDetector.Update` | src/detector.py:60-86 | `deltaClosedFrac` scores the new normalized grid against the reference and does not depend on the previous frame. `motionFrac` is 0.0 on the first call and otherwise scores against the previous grid. Both lie in [0, 1]. Afterwards `prevGray` is the new grid. The reference is a constant, fixed at construction. |

## Left out

- Loading the reference image (`cv2.imread`) and the "could not load" error (`src/detector.py:47-49`) are file I/O. The constructor takes the decoded reference frame directly.
- `cv2.cvtColor` and `cv2.GaussianBlur` are library code with floating-point convolution. They are the parameters `luma` and `blur` of a `Normalizer`. The only thing assumed about `blur` is that it keeps the dimensions. OpenCV's rejection of an even kernel size is not modelled.
- Detector.ToGray: only the colour branch of `_to_gray` is modelled. Frames and the reference image arrive with three channels, so the two-dimensional branch is never taken.
- Detector.MotionDetector.constructor: requires a non-empty ROI. With `w` or `h` equal to 0, the reference crop at `src/detector.py:51` is empty. `cv2.cvtColor` at `src/detector.py:52` then rejects it, so construction raises. That error path is not modelled.
- Scoring.Crop: requires the ROI to lie inside the frame. Three behaviours of slicing are not modelled: clipping an ROI that runs past the right or bottom edge, counting a negative `x` or `y` from the opposite edge, and the same for a negative `w` or `h` (so `(10, 0, -15, 10)` gives `frame[0:10, 10:-5]`, a non-empty crop). A negative origin usually yields an empty crop, which `cv2.cvtColor` rejects at `src/detector.py:52` or `:62`. An ROI that fits also makes every frame's grid match the reference's shape, so the `cv2.absdiff` shape error cannot arise.
- The scores are exact rationals (`real`). The rounding of Python's float division is not modelled.
- `src/notify.py` is not part of this model. It is an HTTP client with a wall-clock rate limit.
- `src/main.py` is not part of this model: camera setup, the warm-up loop, polling, sleeping and printing. Only its thresholds and debounce lengths are used, in `DoorState.RunnerScenario`.
- `scripts/` is not part of this model. These are camera scripts. Only `scripts/calibrate_roi.py` repeats the crop and the scoring. `scripts/camera_test.py` and `scripts/scan_cameras.py` only open a camera and save a frame.
