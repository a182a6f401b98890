/**
  The viewport test of the becomes-visible plugin: does an element's bounding
  rectangle count as "in the viewport" of a window of a given size?

  Geometry is taken in whole pixels (the browser reports floating-point
  values). The width and height of a rectangle are not independent inputs:
  like the browser's DOMRect they are `right - left` and `bottom - top`.
 */
module Viewport {

  /** A bounding client rectangle: edges measured from the window's top-left corner. */
  datatype Rect = Rect(top: int, left: int, bottom: int, right: int) {
    function Width(): int { right - left }
    function Height(): int { bottom - top }

    /** The closed rectangle contains the point (x, y). */
    predicate Covers(x: int, y: int) {
      left <= x <= right && top <= y <= bottom
    }
  }

  /** The size of the window, as reported by the window's width() and height(). */
  datatype Window = Window(width: int, height: int)

  /** The window itself, as a rectangle in the same coordinates. */
  function Frame(w: Window): (r: Rect)
    ensures r.Width() == w.width && r.Height() == w.height
  {
    Rect(0, 0, w.height, w.width)
  }

  /**
    isElementInViewport. With `completelyVisible` every edge must lie inside
    the window, touching allowed. Otherwise the element must reach into the
    window on both axes; the vertical and horizontal far-edge tests are written
    as the source writes them, through the height and the width.
   */
  predicate InViewport(r: Rect, w: Window, completelyVisible: bool) {
    if completelyVisible then
      r.top >= 0 &&
      r.left >= 0 &&
      r.bottom <= w.height &&
      r.right <= w.width
    else
      w.height - (r.bottom - r.Height()) > 0 &&
      r.bottom > 0 &&
      w.width - (r.right - r.Width()) > 0 &&
      r.right > 0
  }

  function Max(a: int, b: int): int { if a < b then b else a }
  function Min(a: int, b: int): int { if a < b then a else b }

  /** Reference definition: every point of `inner` is a point of `outer`. */
  ghost predicate Contains(outer: Rect, inner: Rect) {
    forall x, y :: inner.Covers(x, y) ==> outer.Covers(x, y)
  }

  /** Reference definition: the two rectangles intersect with positive area. */
  predicate SharesArea(a: Rect, b: Rect) {
    Max(a.top, b.top) < Min(a.bottom, b.bottom) &&
    Max(a.left, b.left) < Min(a.right, b.right)
  }

  /** The any-part test, with the height and width cancelled out: the far-edge
      tests are exactly `top < height` and `left < width`. */
  lemma AnyPartIsEdgeTest(r: Rect, w: Window)
    ensures InViewport(r, w, false) <==>
      r.top < w.height && r.bottom > 0 && r.left < w.width && r.right > 0
  {
  }

  /** The any-part test is strict on all four edges: an element that only
      touches the window's border is not in the viewport. */
  lemma AnyPartIsStrict(r: Rect, w: Window)
    requires r.bottom == 0 || r.right == 0 || r.top == w.height || r.left == w.width
    ensures !InViewport(r, w, false)
  {
  }

  /** The completely-visible test is inclusive at the edges: the window's
      own rectangle, which touches all four, passes it. */
  lemma FrameIsCompletelyVisible(w: Window)
    requires w.width >= 0 && w.height >= 0
    ensures InViewport(Frame(w), w, true)
  {
  }

  /** One pixel past the right edge is enough to fail the completely-visible
      test, whatever the other edges are. */
  lemma PastRightEdgeIsNotCompletelyVisible(r: Rect, w: Window)
    requires r.right == w.width + 1
    ensures !InViewport(r, w, true)
  {
  }

  /** For a proper rectangle the completely-visible test means that the whole
      closed rectangle lies inside the closed window. */
  lemma CompletelyVisibleIsContainment(r: Rect, w: Window)
    requires r.top <= r.bottom && r.left <= r.right
    ensures InViewport(r, w, true) <==> Contains(Frame(w), r)
  {
    if Contains(Frame(w), r) {
      assert r.Covers(r.left, r.top) && r.Covers(r.right, r.bottom);
    }
  }

  /** For a rectangle and window of positive size the any-part test means that
      the element and the window share a positive area. */
  lemma AnyPartIsSharedArea(r: Rect, w: Window)
    requires r.Width() > 0 && r.Height() > 0 && w.width > 0 && w.height > 0
    ensures InViewport(r, w, false) <==> SharesArea(r, Frame(w))
  {
  }

  /** Without positive size the two differ: a zero-height element inside the
      window shares no area with it, yet passes the any-part test. */
  lemma FlatElementCountsAsVisible()
    ensures var r := Rect(10, 10, 10, 20);
      InViewport(r, Window(100, 100), false) && !SharesArea(r, Frame(Window(100, 100)))
  {
  }

  /** A completely visible element of positive size is also visible in part. */
  lemma CompletelyImpliesAnyPart(r: Rect, w: Window)
    requires r.Width() > 0 && r.Height() > 0
    requires InViewport(r, w, true)
    ensures InViewport(r, w, false)
  {
  }
}
