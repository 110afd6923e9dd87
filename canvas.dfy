/**
 The fixed geometry of the demo: the canvas and sprite sizes, the bounds test
 `Ferris::is_in_canvas`, and the transforms between logical coordinates
 (origin at the bottom-left corner, y up) and the element's screen offsets
 (origin at the top-left corner, y down).
 */
module Canvas {
  import opened Int32

  const CanvasWidth: i32 := 800
  const CanvasHeight: i32 := 600
  const FerrisWidth: i32 := 80
  const FerrisHeight: i32 := 50

  const HalfWidth: i32 := FerrisWidth / 2
  const HalfHeight: i32 := FerrisHeight / 2

  /** A coordinate is ordinary when it is far enough from the i32 limits that
      no arithmetic of the bounds test or the screen transforms wraps. */
  predicate Ordinary(v: int) {
    -0x2000_0000 <= v <= 0x2000_0000
  }

  /** `Ferris::is_in_canvas`, as written: four strict tests on i32, the last
      of which compares the top edge against the canvas WIDTH. */
  predicate InCanvas(x: i32, y: i32) {
    Sub(x, HalfWidth) > 0
    && Add(x, HalfWidth) < CanvasWidth
    && Sub(y, HalfHeight) > 0
    && Add(y, HalfHeight) < CanvasWidth
  }

  /** The reference the bounds test is meant to implement: the sprite's box,
      centred on (x, y), lies strictly inside the canvas on all four edges. */
  predicate BoxInside(x: int, y: int) {
    0 < x - HalfWidth && x + HalfWidth < CanvasWidth
    && 0 < y - HalfHeight && y + HalfHeight < CanvasHeight
  }

  /** Screen offset of the element's top edge (the `top` style property). */
  function Top(y: i32): i32 {
    Sub(Sub(CanvasHeight, y), HalfHeight)
  }

  /** Screen offset of the element's left edge (the `left` style property). */
  function Left(x: i32): i32 {
    Sub(x, HalfWidth)
  }

  /** The mousedown handler's flip of the click's offset from the canvas top
      into a logical height above the canvas bottom. */
  function FlipY(offsetY: i32): i32 {
    Sub(CanvasHeight, offsetY)
  }

  /** The horizontal half of the bounds test, as the wrapping arithmetic
      decides it: inside the canvas, or close enough to an i32 limit that
      one of the two tests wraps and passes. */
  predicate XInside(x: i32) {
    40 < x < 760 || x < Min + 40 || x > Max - 40
  }

  /** The vertical half of the bounds test, as the wrapping arithmetic
      decides it, with the upper bound taken from the canvas width. */
  predicate YInside(y: i32) {
    25 < y < 775 || y < Min + 25 || y > Max - 25
  }

  /** Exactly which points the bounds test accepts, including the points near
      the i32 limits whose tests wrap around and pass. */
  lemma InCanvasExact(x: i32, y: i32)
    ensures InCanvas(x, y) <==> XInside(x) && YInside(y)
  {
  }

  /** Away from the i32 limits the bounds test is four strict comparisons,
      and the top edge may reach 800 rather than the canvas height 600. */
  lemma InCanvasOrdinary(x: i32, y: i32)
    requires Ordinary(x) && Ordinary(y)
    ensures InCanvas(x, y) <==>
      x - 40 > 0 && x + 40 < 800 && y - 25 > 0 && y + 25 < 800
  {
    InCanvasExact(x, y);
  }

  /** The bounds test accepts every box inside the canvas, and more: the
      points whose box sticks out above the canvas, exactly the heights from
      575 to 774 because the test compares against the canvas width, and the
      accepted points near the i32 limits, where a test wraps. */
  lemma {:induction false} InCanvasVersusBox(x: i32, y: i32)
    ensures BoxInside(x, y) ==> InCanvas(x, y)
    ensures InCanvas(x, y) && !BoxInside(x, y) <==>
      (40 < x < 760 && 575 <= y <= 774)
      || (InCanvas(x, y) && (x < Min + 40 || x > Max - 40 || y < Min + 25 || y > Max - 25))
  {
    InCanvasExact(x, y);
  }

  /** Where an accepted sprite of ordinary position is drawn: its left edge
      lies in 1..719, and its top edge in -199..549, which is above the top of
      the canvas for the heights the width-for-height test lets through. */
  lemma {:induction false} PlacementRange(x: i32, y: i32)
    requires Ordinary(x) && Ordinary(y) && InCanvas(x, y)
    ensures 1 <= Left(x) <= 719 && Left(x) == x - 40
    ensures -199 <= Top(y) <= 549 && Top(y) == 575 - y
    ensures Top(y) < 0 <==> y > 575
  {
    InCanvasOrdinary(x, y);
  }

  /** A click's logical height, turned back into a screen offset, is the
      click's own offset: the flip is its own inverse. */
  lemma {:induction false} FlipInvolution(offsetY: i32)
    ensures FlipY(FlipY(offsetY)) == offsetY
  {
    SubSubCancel(CanvasHeight, offsetY);
  }

  /** A sprite placed at the clicked point is drawn with its top edge half a
      sprite above the click, and its left edge half a sprite left of it. */
  lemma {:induction false} DrawnAroundClick(offsetX: i32, offsetY: i32)
    ensures Top(FlipY(offsetY)) == Sub(offsetY, HalfHeight)
    ensures Add(Left(offsetX), HalfWidth) == offsetX
  {
    FlipInvolution(offsetY);
    AddSubInverse(offsetX, HalfWidth);
  }
}
