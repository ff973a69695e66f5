# Gesture and gaze classifiers

A Dafny model of the two per-frame classifiers of the CRYSTAL-MARK-I
repository, with the perception libraries left as inputs.

- **Gesture classifier** (`gesture_identification.py`, module `Gestures`).
  Each frame brings either no hand or the index-finger tip's position in
  normalised coordinates. The classifier keeps the previous position. When there
  is no hand it forgets that position and reports nothing. On the first detected
  frame it only records the position. After that it turns the displacement
  `(dx, dy)` into `SwipeRight`, `SwipeLeft`, `SwipeDown`, `SwipeUp` or nothing,
  using a dead zone of 0.02 and a strict test for the horizontal axis (ties go
  to the vertical axis). The module-level pair `prev_x, prev_y` becomes the
  field `GestureTracker.prev: Option<(real, real)>`. Both halves are therefore
  absent or present together by the field's type.
  `Direction` is the pure decision rule. `Step` is one call as a function of the
  stored state, and `Run` folds `Step` over a stream of frames.
  `GestureTracker.Detect` is the imperative method, proved equal to `Step`.
  `GapClient` is a usage example that drives `Detect` through a detection gap;
  it states nothing beyond `Detect`'s contract and has no row below.
- **Gaze classifier** (`tests/eye_ratio.py`, modules `EyeImage`, `Smoothing`,
  `Gaze`).
  - For each eye, the classifier takes the bounding box of its six landmarks.
    A box with no width or no height means "no ratio".
  - Otherwise it crops the masked grayscale frame to the box, following numpy's
    slicing rules, and binarises the crop at intensity 70.
  - It counts the white pixels of the columns `[0, w // 2)` and `[w // 2, w)`.
    The eye's ratio is `left / (right + 1e-6)`.
  - The frame's gaze ratio is the mean of the two eye ratios. It is appended to
    a `deque(maxlen=5)`.
  - The mean of that deque is classified as `Left` (below 0.75), `Right`
    (above 1.25) or `Center`.
  - With no face, `Process` returns `(None, None)`. With a degenerate eye box it
    returns `(Closed, None)`. In both cases the history and `lastRatio` are
    left alone.

  `GazeTracker` is a class whose `Process` method updates `ratioHistory` (a
  `seq<real>` of at most 5 values, the invariant `Valid`) and `lastRatio`.

Coordinates of landmarks and pixel values are integers (`int32` points, 8-bit
pixels). Ratios and means are exact `real`s.

Two details of the code that the model follows exactly, although they are
easy to misread:
- The "closed" guard tests the landmark box (`x1 <= x0 or y1 <= y0`), not the
  crop. A box that is non-degenerate but lies partly outside the frame can
  still give an empty crop through numpy's wrap-around of negative indices
  (`SliceIndex`/`Crop` model the wrap). The guard lets such a box through, so
  the code goes on to threshold an empty image; the model counts it as (0, 0)
  and gives the ratio 0.0 (`EyeHalvesEmptyCrop`, `EmptyCropExample`). What the
  image library does with an empty image is not part of this model (see
  "## Left out").
- The history holds the per-frame gaze ratios (`gaze_ratio`), not smoothed
  values. The smoothed value is the mean of the history.

## Model

| member | source | states |
|---|---|---|
| `Gestures.Direction` | gesture_identification.py:35-50 | For every gesture `g`, the result is `Some(g)` exactly when `g`'s axis is the dominant one (horizontal needs `|dx| > |dy|`) and the displacement along `g` exceeds 0.02. The result is `None` exactly when no gesture fires. |
| `Gestures.DirectionHorizontal` | gesture_identification.py:41-45 | When `|dx| > |dy|`: `SwipeRight` iff `dx > 0.02`, `SwipeLeft` iff `dx < -0.02`, nothing iff `-0.02 <= dx <= 0.02`. |
| `Gestures.DirectionVertical` | gesture_identification.py:41-50 | When `|dx| <= |dy|`, ties included: `SwipeDown` iff `dy > 0.02`, `SwipeUp` iff `dy < -0.02`, nothing iff `-0.02 <= dy <= 0.02`. |
| `Gestures.DirectionExceedsDeadZone` | gesture_identification.py:39-50 | An emitted gesture moved more than 0.02 along its own axis, and that axis is at least as large as the other one. |
| `Gestures.DirectionReversed` | gesture_identification.py:39-50 | Negating the displacement turns each gesture into its opposite and keeps "nothing" as nothing. |
| `Gestures.Step` | gesture_identification.py:23-52 | The stored position after a call is the current detection: `None` with no hand, the fingertip otherwise. A gesture needs both a stored and a current position, and it is then the direction of their difference. |
| `Gestures.StepStill` | gesture_identification.py:35-52 | Two equal consecutive positions give no gesture. |
| `Gestures.StepAfterGap` | gesture_identification.py:23-35 | The frame after a frame without a hand never gives a gesture. |
| `Gestures.Run` | gesture_identification.py:17-53 | Over a stream of frames there is one result per frame. |
| `Gestures.RunStoresLastFrame` | gesture_identification.py:23-52 | After any non-empty stream the stored position is the last frame's detection, whether or not a gesture fired. |
| `Gestures.RunNeedsTwoDetections` | gesture_identification.py:23-52 | A gesture at frame `i` implies a hand at frame `i` and at frame `i - 1` (or a stored position, for the first frame). |
| `Gestures.RunRightSwipeScenario` | gesture_identification.py:33-52 | From startup, frames (0.5, 0.5), (0.5, 0.5), (0.54, 0.5) give nothing, nothing, `SwipeRight`. |
| `Gestures.GestureTracker.constructor` | gesture_identification.py:14 | The tracker starts with no stored position. |
| `Gestures.GestureTracker.Detect` | gesture_identification.py:17-53 | The returned gesture and the new stored position are those of `Step` on the old stored position. No hand resets the state and returns `None`. A hand is always stored. |
| `EyeImage.BoundingBox` | tests/eye_ratio.py:70-71 | `x0, x1, y0, y1` bound every landmark, and each of them is attained by some landmark. |
| `EyeImage.SliceIndex` | tests/eye_ratio.py:76 | Python's slice-bound normalisation: a bound inside `[0, n]` is kept. A negative bound counts from the end, then is clamped to `[0, n]`. |
| `EyeImage.SliceRange` | tests/eye_ratio.py:76 | The normalised range satisfies `lo <= hi <= n`. It is the literal range when `0 <= a <= b <= n`. |
| `EyeImage.Crop` | tests/eye_ratio.py:76 | The crop is rectangular. Its rows are the normalised row range of the image, cut to the normalised column range. |
| `EyeImage.CropInside` | tests/eye_ratio.py:76 | A box inside the image crops to exactly its pixels: `crop[i][j] == eye[y0 + i][x0 + j]`. |
| `EyeImage.Binarize` | tests/eye_ratio.py:77 | Same shape. Each pixel becomes 255 when above 70 and 0 otherwise. |
| `EyeImage.NonZeroOfBinarized` | tests/eye_ratio.py:77-81 | Counting the non-zero pixels of the binarised grid counts the pixels above 70. |
| `EyeImage.RowWhiteSplit` | tests/eye_ratio.py:80-81 | Splitting a row at any column splits its white count into two parts that add up. |
| `EyeImage.WhiteSplit` | tests/eye_ratio.py:79-81 | Splitting every row of a grid at column `m` splits its white count into two parts that add up. |
| `EyeImage.ColumnsOfBinarized` | tests/eye_ratio.py:77-81 | Cutting columns and binarising commute. |
| `EyeImage.EyeHalves` | tests/eye_ratio.py:70-81 | No counts exactly when the landmark box has `x1 <= x0` or `y1 <= y0`. |
| `EyeImage.EyeHalvesEmptyCrop` | tests/eye_ratio.py:73-81 | A box that passes the guard at line 73 but whose crop has no rows or no columns is given counts (0, 0). |
| `EyeImage.EmptyCropExample` | tests/eye_ratio.py:70-76 | Landmarks at x = -1 and x = 2 over a 2 x 4 image give a non-degenerate box whose crop `eye[0:1, -1:2]` has no columns, and counts (0, 0). |
| `EyeImage.EyeHalvesCountWhite` | tests/eye_ratio.py:76-81 | For a non-degenerate box, the left count is the number of crop pixels above 70 in columns `[0, w / 2)`, the right count is that number in `[w / 2, w)`, and the two add up to the whole crop's count. |
| `EyeImage.HalvesCountWhite` | tests/eye_ratio.py:77-81 | For any crop, the non-zero counts of the binarised halves are the white counts of the halves, and these add up to the crop's white count. |
| `Smoothing.Append` | tests/eye_ratio.py:26 | `deque(maxlen=5).append`: the new length is the old plus one below capacity and 5 at capacity, never above 5. The newest element is `x`. |
| `Smoothing.AppendKeepsNewest` | tests/eye_ratio.py:47 | The result is the newest `min(|h| + 1, 5)` values of `h + [x]` in arrival order. The oldest value is dropped only when the deque was full. |
| `Smoothing.Feed` | tests/eye_ratio.py:47 | Over any number of appends the history never holds more than 5 values. |
| `Smoothing.AppendToLatest` | tests/eye_ratio.py:47 | Appending to the newest 5 values of a stream gives the newest 5 values of the extended stream. |
| `Smoothing.FeedKeepsLatest` | tests/eye_ratio.py:26-47 | After any stream of appends, the history is exactly the newest 5 values of old history plus stream. |
| `Smoothing.FullWindowHoldsNewest` | tests/eye_ratio.py:47-49 | After at least 5 appends, from any history, the history is exactly the 5 most recent values. Hence the smoothed ratio is their mean. |
| `Smoothing.MeanWithin` | tests/eye_ratio.py:49 | The mean of the history lies within any bounds of its values. |
| `Gaze.Classify` | tests/eye_ratio.py:52-58 | Never `Closed`. `Left` iff ratio < 0.75, `Right` iff ratio > 1.25, `Center` iff 0.75 <= ratio <= 1.25, so both thresholds go to centre. |
| `Gaze.ClassifyMonotone` | tests/eye_ratio.py:52-58 | A larger ratio never gives a zone further left. |
| `Gaze.Ratio` | tests/eye_ratio.py:83 | The eye ratio is non-negative and is zero exactly when the left half has no white pixel. |
| `Gaze.RatioScales` | tests/eye_ratio.py:83 | The denominator `right + 1e-6` is strictly positive, and ratio times denominator gives back the left count. |
| `Gaze.EyeRatio` | tests/eye_ratio.py:60-88 | `None` exactly when the landmark box is degenerate. Otherwise a non-negative ratio. |
| `Gaze.EyePoints` | tests/eye_ratio.py:61-64 | The eye's points are the landmarks at the eye's indices, in order. |
| `Gaze.EyeIndicesBelow` | tests/eye_ratio.py:10-11 | Both eyes' landmark indices are below 48, so any predictor output with at least 48 points has them. |
| `Gaze.GazeRatio` | tests/eye_ratio.py:39-45 | `None` exactly when either eye's box is degenerate. Otherwise both eye ratios exist and the gaze ratio is non-negative and equidistant from them, i.e. their mean. |
| `Gaze.SteadyGaze` | tests/eye_ratio.py:45-50 | Holding one gaze ratio over a full window smooths to that ratio and classifies as it. |
| `Gaze.DampedSpike` | tests/eye_ratio.py:45-50 | From a full window of 1.0, one outlier 0.5 gives the window `[1, 1, 1, 1, 0.5]` with mean 0.9, which is `Center`. |
| `Gaze.GazeTracker.constructor` | tests/eye_ratio.py:23-27 | The history starts empty, `lastRatio` starts absent, and the invariant holds. |
| `Gaze.GazeTracker.Process` | tests/eye_ratio.py:29-50 | Keeps `|ratioHistory| <= 5`. No face gives `(None, None)` and changes nothing. A degenerate eye box gives `(Closed, None)` and changes nothing. Otherwise `lastRatio` becomes the gaze ratio and the history becomes `Append(old history, gaze ratio)`, which is non-empty. The returned ratio is the mean of the whole new history and the state is its zone. |

## Left out

- The face detector, the landmark predictor and `mediapipe`'s hand tracker are inputs. A frame is `Option<Face>` for the gaze classifier and `Option<(real, real)>` (the index-finger tip) for the gesture classifier. Loading the predictor model file in `GazeTracker.__init__` is not modelled.
- `cv2.fillPoly` and `cv2.bitwise_and` (the eye mask) are foreign calls. `Face` carries each eye's masked grayscale image instead, and these images must be rectangular.
- The `frame` argument and its `cv2.cvtColor` conversions (to grey for the face detector and the eye mask, to RGB for the hand tracker) produce the images the detectors read; like the detectors, they are folded into the `Option` inputs.
- `cv2.flip`, `mp_draw.draw_landmarks`, the `debug` flag and `_draw_debug` are display-only side effects.
- `EyeImage.EyeHalves`: for a box that passes the "closed" guard but whose crop is empty (possible only when the box reaches outside the frame), the model counts (0, 0). The code hands that empty image to `cv2.threshold` and then reads `thresh.shape` at line 79 of tests/eye_ratio.py; the image library most likely returns no image there, so the code would fail rather than return a ratio. The library's behaviour on empty images is not part of this model.
- `Gaze.EyeRatio`: through `EyeHalves`, it returns `Some(0.0)` in the same empty-crop case, where the code most likely fails at line 79 of tests/eye_ratio.py instead of returning a ratio.
- `build_canvas`, `main`, the capture loop of `gesture_identification.py` and `ZeroUI.py` are window, video and file I/O with no classification logic.
- `Gaze.GazeTracker.Process` requires at least 48 landmarks. The 68-point predictor always produces 68.
- Floating point: ratios, `1e-6` and `np.mean` are exact reals, so IEEE-754 rounding is not modelled. The same holds on the gesture side: `Gestures.Step` and `Gestures.Direction` compute `dx`, `dy` and their comparison with 0.02 exactly, so a displacement at the dead-zone boundary can differ (in IEEE arithmetic `0.52 - 0.5` exceeds 0.02 and fires `SwipeRight`; in the model `Direction(0.02, 0.0)` is `None`). The `int32` conversion of landmark coordinates is taken as exact.
- The result strings (`"left"`, `"Swipe Right"`, …) are datatype constructors (`Gaze.Label`, `Gestures.Gesture`).
- `Gestures.GestureTracker.Detect`: the invariant "`prev_x` is `None` iff `prev_y` is `None`" holds by the field's type, `Option<(real, real)>`, rather than being proved about two separate variables.
