/**
 Swipe detection from the index-finger tip (gesture_identification.py).

 The hand detector is an input: each frame brings either no hand (`None`) or the
 fingertip's position in normalised image coordinates (x grows to the right,
 y grows downwards). The classifier keeps one frame of history.
 */
module Gestures {
  import opened Wrappers

  /** A fingertip position (x, y) in normalised image coordinates. */
  type Point = (real, real)

  datatype Gesture = SwipeRight | SwipeLeft | SwipeDown | SwipeUp

  /** Dead zone of the displacement, in normalised coordinate units. */
  const Threshold: real := 0.02

  function Abs(v: real): (r: real)
    ensures r >= 0.0 && (r == v || r == -v)
  {
    if v < 0.0 then -v else v
  }

  predicate IsHorizontal(g: Gesture) {
    g == SwipeRight || g == SwipeLeft
  }

  /** The signed displacement along the direction that `g` names. */
  function Along(g: Gesture, dx: real, dy: real): real {
    match g
    case SwipeRight => dx
    case SwipeLeft => -dx
    case SwipeDown => dy
    case SwipeUp => -dy
  }

  /** The axis of `g` is the dominant one: horizontal needs |dx| > |dy|, and
      vertical takes everything else, ties included. */
  predicate OnDominantAxis(g: Gesture, dx: real, dy: real) {
    if IsHorizontal(g) then Abs(dx) > Abs(dy) else Abs(dx) <= Abs(dy)
  }

  /** Reference reading of the rule: `g` fires when its axis dominates and the
      motion along `g` exceeds the dead zone. */
  predicate Fires(g: Gesture, dx: real, dy: real) {
    OnDominantAxis(g, dx, dy) && Along(g, dx, dy) > Threshold
  }

  function Opposite(g: Gesture): Gesture {
    match g
    case SwipeRight => SwipeLeft
    case SwipeLeft => SwipeRight
    case SwipeDown => SwipeUp
    case SwipeUp => SwipeDown
  }

  /** The direction decision for a displacement (dx, dy). */
  function Direction(dx: real, dy: real): (r: Option<Gesture>)
    ensures forall g :: r == Some(g) <==> Fires(g, dx, dy)
    ensures r == None <==> forall g :: !Fires(g, dx, dy)
  {
    if Abs(dx) > Abs(dy) then
      if dx > Threshold then Some(SwipeRight)
      else if dx < -Threshold then Some(SwipeLeft)
      else None
    else
      if dy > Threshold then Some(SwipeDown)
      else if dy < -Threshold then Some(SwipeUp)
      else None
  }

  /** Horizontal-dominant motion: right, left or nothing by the sign of dx. */
  lemma DirectionHorizontal(dx: real, dy: real)
    requires Abs(dx) > Abs(dy)
    ensures Direction(dx, dy) == Some(SwipeRight) <==> dx > Threshold
    ensures Direction(dx, dy) == Some(SwipeLeft) <==> dx < -Threshold
    ensures Direction(dx, dy) == None <==> -Threshold <= dx <= Threshold
  {
  }

  /** Vertical-dominant motion, ties included: down, up or nothing by the sign of dy. */
  lemma DirectionVertical(dx: real, dy: real)
    requires Abs(dx) <= Abs(dy)
    ensures Direction(dx, dy) == Some(SwipeDown) <==> dy > Threshold
    ensures Direction(dx, dy) == Some(SwipeUp) <==> dy < -Threshold
    ensures Direction(dx, dy) == None <==> -Threshold <= dy <= Threshold
  {
  }

  /** Any emitted gesture moved more than the dead zone along its own axis,
      and that axis is at least as large as the other one. */
  lemma DirectionExceedsDeadZone(dx: real, dy: real, g: Gesture)
    requires Direction(dx, dy) == Some(g)
    ensures IsHorizontal(g) ==> Abs(dx) > Threshold && Abs(dx) > Abs(dy)
    ensures !IsHorizontal(g) ==> Abs(dy) > Threshold && Abs(dy) >= Abs(dx)
  {
  }

  /** Reversing the motion reverses the gesture. */
  lemma DirectionReversed(dx: real, dy: real)
    ensures Direction(-dx, -dy) == match Direction(dx, dy)
                                   case None => None
                                   case Some(g) => Some(Opposite(g))
  {
  }

  /**
   One call of the classifier as a function of the stored previous position:
   the gesture it returns and the position it stores.
   */
  function Step(prev: Option<Point>, hand: Option<Point>): (out: (Option<Gesture>, Option<Point>))
    ensures out.1 == hand
    ensures out.0.Some? ==> prev.Some? && hand.Some?
    ensures prev.Some? && hand.Some? ==>
              out.0 == Direction(hand.value.0 - prev.value.0, hand.value.1 - prev.value.1)
  {
    match hand
    case None => (None, None)
    case Some(p) =>
      (if prev.Some? then Direction(p.0 - prev.value.0, p.1 - prev.value.1) else None, hand)
  }

  /** Two equal consecutive positions never give a gesture. */
  lemma StepStill(p: Point)
    ensures Step(Some(p), Some(p)).0 == None
  {
  }

  /** A frame without a hand breaks the track: the frame after it gives no gesture. */
  lemma StepAfterGap(prev: Option<Point>, hand: Option<Point>)
    ensures Step(Step(prev, None).1, hand).0 == None
  {
  }

  /** The classifier over a stream of frames: the gestures, one per frame, and
      the finally stored position. */
  function Run(prev: Option<Point>, hands: seq<Option<Point>>): (out: (seq<Option<Gesture>>, Option<Point>))
    ensures |out.0| == |hands|
    decreases |hands|
  {
    if hands == [] then ([], prev)
    else
      var (g, next) := Step(prev, hands[0]);
      var (gs, last) := Run(next, hands[1..]);
      ([g] + gs, last)
  }

  /** After any non-empty stream the stored position is the last frame's
      detection: the last position when a hand was seen, `None` otherwise. */
  lemma {:induction false} RunStoresLastFrame(prev: Option<Point>, hands: seq<Option<Point>>)
    requires hands != []
    ensures Run(prev, hands).1 == hands[|hands| - 1]
    decreases |hands|
  {
    if |hands| > 1 {
      RunStoresLastFrame(Step(prev, hands[0]).1, hands[1..]);
    }
  }

  /** A gesture is only ever emitted on a detected frame whose predecessor
      (the stored position before the stream, for the first frame) was detected. */
  lemma {:induction false} RunNeedsTwoDetections(prev: Option<Point>, hands: seq<Option<Point>>, i: nat)
    requires i < |hands|
    requires Run(prev, hands).0[i].Some?
    ensures hands[i].Some?
    ensures if i == 0 then prev.Some? else hands[i - 1].Some?
    decreases |hands|
  {
    if i > 0 {
      var next := Step(prev, hands[0]).1;
      assert Run(prev, hands).0[i] == Run(next, hands[1..]).0[i - 1];
      RunNeedsTwoDetections(next, hands[1..], i - 1);
    }
  }

  /** From startup, frames (0.5, 0.5), (0.5, 0.5), (0.54, 0.5) give nothing,
      nothing, and a right swipe. */
  lemma RunRightSwipeScenario()
    ensures Run(None, [Some((0.5, 0.5)), Some((0.5, 0.5)), Some((0.54, 0.5))]).0
            == [None, None, Some(SwipeRight)]
  {
    var hands: seq<Option<Point>> := [Some((0.5, 0.5)), Some((0.5, 0.5)), Some((0.54, 0.5))];
    assert hands[1..][1..][1..] == [];
    assert Direction(0.04, 0.0) == Some(SwipeRight);
  }

  /**
   The classifier object: the module-level pair `prev_x, prev_y` becomes one
   optional field, so the two halves are absent or present together.
   */
  class GestureTracker {
    var prev: Option<Point>

    constructor ()
      ensures prev == None
    {
      prev := None;
    }

    /** One frame: `hand` is the fingertip position, or `None` when no hand was detected. */
    method Detect(hand: Option<Point>) returns (gesture: Option<Gesture>)
      modifies this
      ensures (gesture, prev) == Step(old(prev), hand)
      ensures hand.None? ==> gesture == None && prev == None
      ensures hand.Some? ==> prev == hand
    {
      if hand.None? {
        prev := None;
        return None;
      }
      var (x, y) := hand.value;
      gesture := None;
      if prev.Some? {
        var dx := x - prev.value.0;
        var dy := y - prev.value.1;
        if Abs(dx) > Abs(dy) {
          if dx > Threshold {
            gesture := Some(SwipeRight);
          } else if dx < -Threshold {
            gesture := Some(SwipeLeft);
          }
        } else {
          if dy > Threshold {
            gesture := Some(SwipeDown);
          } else if dy < -Threshold {
            gesture := Some(SwipeUp);
          }
        }
      }
      prev := Some((x, y));
    }
  }

  /** A client: a gap in detection resets the track, so a large jump across it is no swipe. */
  method GapClient() {
    var t := new GestureTracker();
    var g := t.Detect(Some((0.5, 0.5)));
    assert g == None;
    g := t.Detect(Some((0.5, 0.5)));
    assert g == None;
    g := t.Detect(Some((0.54, 0.5)));
    assert Direction(0.54 - 0.5, 0.5 - 0.5) == Some(SwipeRight);
    assert g == Some(SwipeRight);
    g := t.Detect(None);
    assert g == None;
    g := t.Detect(Some((0.9, 0.5)));
    assert g == None;
    g := t.Detect(Some((0.9, 0.1)));
    assert Direction(0.9 - 0.9, 0.1 - 0.5) == Some(SwipeUp);
    assert g == Some(SwipeUp);
  }
}
