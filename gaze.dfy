/**
 The gaze classifier of tests/eye_ratio.py: per-eye white-pixel ratio, the
 mean of the two eyes, smoothing over the last five frames and the mapping of
 the smoothed ratio to a zone.

 The face detector and the landmark predictor are inputs: a frame brings either
 no face or a `Face`, which holds the landmark points and, for each eye, the
 grayscale frame masked by that eye's polygon.
 */
module Gaze {
  import opened Wrappers
  import opened EyeImage
  import opened Smoothing

  const LeftThreshold: real := 0.75
  const RightThreshold: real := 1.25

  /** Added to the right-half count so that the ratio never divides by zero (1e-6). */
  const Epsilon: real := 0.000001

  /** Landmark indices of the two eyes in the 68-point layout. */
  const LeftEyeIdx: seq<nat> := [36, 37, 38, 39, 40, 41]
  const RightEyeIdx: seq<nat> := [42, 43, 44, 45, 46, 47]

  /** The state names the classifier reports. */
  datatype Label = Left | Center | Right | Closed

  /** Zone of a smoothed ratio; both thresholds themselves are centre. */
  function Classify(ratio: real): (z: Label)
    ensures z != Closed
    ensures z == Left <==> ratio < LeftThreshold
    ensures z == Right <==> ratio > RightThreshold
    ensures z == Center <==> LeftThreshold <= ratio <= RightThreshold
  {
    if ratio < LeftThreshold then Left
    else if ratio > RightThreshold then Right
    else Center
  }

  /** Position of a zone from left to right. */
  function Rank(z: Label): nat {
    match z
    case Left => 0
    case Center => 1
    case Right => 2
    case Closed => 3
  }

  /** A larger ratio never moves the zone to the left. */
  lemma ClassifyMonotone(a: real, b: real)
    requires a <= b
    ensures Rank(Classify(a)) <= Rank(Classify(b))
  {
  }

  /** Left-half white count over right-half white count plus Epsilon. */
  function Ratio(h: Halves): (r: real)
    ensures r >= 0.0
    ensures r == 0.0 <==> h.leftWhite == 0
  {
    h.leftWhite as real / (h.rightWhite as real + Epsilon)
  }

  /** The denominator is positive, so the ratio times it gives back the left count. */
  lemma RatioScales(h: Halves)
    ensures h.rightWhite as real + Epsilon > 0.0
    ensures Ratio(h) * (h.rightWhite as real + Epsilon) == h.leftWhite as real
  {
  }

  /** The ratio of one eye; `None` exactly when the landmark box is degenerate. */
  function EyeRatio(pts: seq<Point>, eye: Grid): (r: Option<real>)
    requires |pts| > 0 && IsImage(eye)
    ensures r.None? <==> Degenerate(BoundingBox(pts))
    ensures r.Some? ==> r.value >= 0.0
  {
    match EyeHalves(pts, eye)
    case None => None
    case Some(h) => Some(Ratio(h))
  }

  /** The landmark points at the given indices. */
  function EyePoints(landmarks: seq<Point>, idx: seq<nat>): (pts: seq<Point>)
    requires forall i :: 0 <= i < |idx| ==> idx[i] < |landmarks|
    ensures |pts| == |idx| && forall i :: 0 <= i < |idx| ==> pts[i] == landmarks[idx[i]]
  {
    seq(|idx|, i requires 0 <= i < |idx| => landmarks[idx[i]])
  }

  /** What the detector, the predictor and the polygon masking give for a frame with a face. */
  datatype Face = Face(landmarks: seq<Point>, leftEye: Grid, rightEye: Grid)

  predicate WellFormed(f: Face) {
    |f.landmarks| >= 48 && IsImage(f.leftEye) && IsImage(f.rightEye)
  }

  /** Both eyes' landmarks lie within the first 48 points. */
  lemma EyeIndicesBelow(n: nat)
    requires n >= 48
    ensures forall i :: 0 <= i < |LeftEyeIdx| ==> LeftEyeIdx[i] < n
    ensures forall i :: 0 <= i < |RightEyeIdx| ==> RightEyeIdx[i] < n
  {
    assert LeftEyeIdx[5] == 41 && RightEyeIdx[5] == 47;
  }

  function LeftRatio(f: Face): Option<real>
    requires WellFormed(f)
  {
    EyeIndicesBelow(|f.landmarks|);
    EyeRatio(EyePoints(f.landmarks, LeftEyeIdx), f.leftEye)
  }

  function RightRatio(f: Face): Option<real>
    requires WellFormed(f)
  {
    EyeIndicesBelow(|f.landmarks|);
    EyeRatio(EyePoints(f.landmarks, RightEyeIdx), f.rightEye)
  }

  /** True when either eye's landmark box has no width or no height. */
  predicate EyesClosed(f: Face)
    requires WellFormed(f)
  {
    EyeIndicesBelow(|f.landmarks|);
    Degenerate(BoundingBox(EyePoints(f.landmarks, LeftEyeIdx))) ||
    Degenerate(BoundingBox(EyePoints(f.landmarks, RightEyeIdx)))
  }

  /** The frame's gaze ratio: the mean of the two eye ratios, `None` when the eyes count as closed. */
  function GazeRatio(f: Face): (g: Option<real>)
    requires WellFormed(f)
    ensures g.None? <==> EyesClosed(f)
    ensures g.Some? ==>
              && LeftRatio(f).Some? && RightRatio(f).Some?
              && g.value >= 0.0
              && g.value - LeftRatio(f).value == RightRatio(f).value - g.value
  {
    match (LeftRatio(f), RightRatio(f))
    case (Some(l), Some(r)) => Some((l + r) / 2.0)
    case _ => None
  }

  /** Holding the same gaze ratio for a full window of frames smooths to that ratio. */
  lemma SteadyGaze(h: seq<real>, x: real)
    requires |h| == SmoothingWindow
    requires forall i :: 0 <= i < |h| ==> h[i] == x
    ensures Mean(Append(h, x)) == x
    ensures Classify(Mean(Append(h, x))) == Classify(x)
  {
    MeanWithin(Append(h, x), x, x);
  }

  /** Four frames at ratio 1.0 followed by one outlier at 0.5 smooth to 0.9:
      still centre, the spike is damped. */
  lemma DampedSpike(h: seq<real>)
    requires h == [1.0, 1.0, 1.0, 1.0, 1.0]
    ensures Append(h, 0.5) == [1.0, 1.0, 1.0, 1.0, 0.5]
    ensures Mean(Append(h, 0.5)) == 0.9
    ensures Classify(Mean(Append(h, 0.5))) == Center
  {
    var w := Append(h, 0.5);
    assert w == [1.0, 1.0, 1.0, 1.0, 0.5];
    assert Sum(w[..1]) == 1.0 by { assert w[..1][..0] == []; }
    assert Sum(w[..2]) == 2.0 by { assert w[..2][..1] == w[..1]; }
    assert Sum(w[..3]) == 3.0 by { assert w[..3][..2] == w[..2]; }
    assert Sum(w[..4]) == 4.0 by { assert w[..4][..3] == w[..3]; }
    assert Sum(w) == 4.5 by { assert w[..4] == w[..|w| - 1]; }
  }

  /**
   The classifier object. `ratioHistory` is the bounded FIFO; `lastRatio` is the
   most recent gaze ratio of a frame with open eyes.
   */
  class GazeTracker {
    var ratioHistory: seq<real>
    var lastRatio: Option<real>

    ghost predicate Valid()
      reads this`ratioHistory
    {
      |ratioHistory| <= SmoothingWindow
    }

    constructor ()
      ensures Valid()
      ensures ratioHistory == [] && lastRatio == None
    {
      ratioHistory := [];
      lastRatio := None;
    }

    /**
     One frame: returns the state and the smoothed ratio. No face gives
     (None, None), closed eyes give (Closed, None), and neither touches the
     history; otherwise the frame's ratio enters the history and the mean of
     the whole history is classified.
     */
    method Process(face: Option<Face>) returns (state: Option<Label>, ratio: Option<real>)
      requires Valid()
      requires face.Some? ==> WellFormed(face.value)
      modifies this
      ensures Valid()
      ensures face.None? ==>
                && state == None && ratio == None
                && ratioHistory == old(ratioHistory) && lastRatio == old(lastRatio)
      ensures face.Some? && EyesClosed(face.value) ==>
                && state == Some(Closed) && ratio == None
                && ratioHistory == old(ratioHistory) && lastRatio == old(lastRatio)
      ensures face.Some? && !EyesClosed(face.value) ==>
                var g := GazeRatio(face.value).value;
                && lastRatio == Some(g)
                && ratioHistory == Append(old(ratioHistory), g)
                && |ratioHistory| > 0
                && ratio == Some(Mean(ratioHistory))
                && state == Some(Classify(Mean(ratioHistory)))
    {
      if face.None? {
        return None, None;
      }
      var f := face.value;
      var frameRatio := GazeRatio(f);
      if frameRatio.None? {
        return Some(Closed), None;
      }
      var gazeRatio := frameRatio.value;
      lastRatio := Some(gazeRatio);
      ratioHistory := Append(ratioHistory, gazeRatio);
      var avgRatio := Mean(ratioHistory);
      return Some(Classify(avgRatio)), Some(avgRatio);
    }
  }
}
