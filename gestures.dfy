/** Gesture classification of one detected hand.
    A hand is given by three of its landmarks, in coordinates normalised to
    the frame (exact reals here; floating-point rounding is not modelled).
    A swipe is a pose where the index fingertip and the thumb tip are far
    apart horizontally while staying vertically aligned. */
module Gestures {

  datatype Landmark = Landmark(x: real, y: real)

  /** The three landmarks the classifier reads. The wrist is read by the
      classifier but takes part in no condition. */
  datatype Hand = Hand(wrist: Landmark, thumbTip: Landmark, indexTip: Landmark)

  /** The separation and alignment threshold, in normalised units. */
  const SwipeThreshold: real := 0.1

  function Abs(r: real): real {
    if r < 0.0 then -r else r
  }

  /** Horizontal and vertical offset of the index fingertip from the thumb tip. */
  function Dx(h: Hand): real {
    h.indexTip.x - h.thumbTip.x
  }

  function Dy(h: Hand): real {
    h.indexTip.y - h.thumbTip.y
  }

  /** A right swipe (next slide): the index tip is right of the thumb tip, far
      enough away horizontally, and close enough vertically. */
  predicate IsSwipeRight(h: Hand) {
    h.indexTip.x > h.thumbTip.x
    && Abs(h.indexTip.x - h.thumbTip.x) > SwipeThreshold
    && Abs(h.indexTip.y - h.thumbTip.y) < SwipeThreshold
  }

  /** A left swipe (previous slide): the mirror image of a right swipe. */
  predicate IsSwipeLeft(h: Hand) {
    h.indexTip.x < h.thumbTip.x
    && Abs(h.indexTip.x - h.thumbTip.x) > SwipeThreshold
    && Abs(h.indexTip.y - h.thumbTip.y) < SwipeThreshold
  }

  /** A right swipe is exactly an offset beyond the threshold to the right
      with a vertical offset strictly inside the threshold. */
  lemma SwipeRightExactly(h: Hand)
    ensures IsSwipeRight(h) <==> Dx(h) > SwipeThreshold && -SwipeThreshold < Dy(h) < SwipeThreshold
  {
  }

  /** A left swipe is exactly an offset beyond the threshold to the left
      with a vertical offset strictly inside the threshold. */
  lemma SwipeLeftExactly(h: Hand)
    ensures IsSwipeLeft(h) <==> Dx(h) < -SwipeThreshold && -SwipeThreshold < Dy(h) < SwipeThreshold
  {
  }

  /** No hand is both a right and a left swipe. */
  lemma SwipesExclusive(h: Hand)
    ensures !(IsSwipeRight(h) && IsSwipeLeft(h))
  {
  }

  /** Neither swipe is recognised when the tips are not separated by more than
      the threshold (in particular when they are level horizontally), or
      when they are not vertically aligned. */
  lemma NoSwipeOutsideThresholds(h: Hand)
    requires Abs(Dx(h)) <= SwipeThreshold || Abs(Dy(h)) >= SwipeThreshold
    ensures !IsSwipeRight(h) && !IsSwipeLeft(h)
  {
  }

  /** The wrist landmark has no influence on either classification. */
  lemma WristIgnored(h: Hand, w: Landmark)
    ensures IsSwipeRight(h.(wrist := w)) == IsSwipeRight(h)
    ensures IsSwipeLeft(h.(wrist := w)) == IsSwipeLeft(h)
  {
  }
}
