/** `moveNoButton`: on every approach the evasive button is given a fresh
    random offset inside its area. Element sizes are CSS pixels as
    `getBoundingClientRect` reports them, so they are real numbers; the
    random source `Math.random()` is a parameter `r` with `0 <= r < 1`. */
module Dodge {

  /** Pixels kept free between the button and the area's right and bottom
      edges. */
  const Margin: real := 6.0

  datatype Size = Size(width: real, height: real)

  /** The committed `left` and `top` style offsets, in whole pixels. */
  datatype Position = Position(left: int, top: int)

  /** `Math.max(0, area - button - 6)`: the largest offset that keeps the
      margin, or 0 when the button does not fit. */
  function MaxOffset(area: real, button: real): (m: real)
    ensures m >= 0.0 && m >= area - button - Margin
    ensures m == 0.0 || m == area - button - Margin
  {
    if area - button - Margin > 0.0 then area - button - Margin else 0.0
  }

  lemma PositiveProduct(a: real, b: real)
    requires a > 0.0 && b > 0.0
    ensures a * b > 0.0
  {
  }

  /** `Math.floor(r * (max + 1))`, the offset as the source draws it. */
  function RandomOffset(r: real, max: real): (k: int)
    requires 0.0 <= r < 1.0 && max >= 0.0
    ensures 0 <= k && (k as real) < max + 1.0
  {
    assert r * (max + 1.0) < max + 1.0 by {
      PositiveProduct(1.0 - r, max + 1.0);
      assert (1.0 - r) * (max + 1.0) == (max + 1.0) - r * (max + 1.0);
    }
    (r * (max + 1.0)).Floor
  }

  /** Every whole offset below `max + 1` is drawn for some `r`: the draws
      cover `0 .. ceil(max)`, one more than `max` itself when `max` has a
      fractional part. */
  lemma RandomOffsetCovers(k: int, max: real)
    requires max >= 0.0 && 0 <= k && (k as real) < max + 1.0
    ensures exists r :: 0.0 <= r < 1.0 && RandomOffset(r, max) == k
  {
    var r := (k as real) / (max + 1.0);
    assert r * (max + 1.0) == k as real;
    assert RandomOffset(r, max) == k;
  }

  /** For whole-pixel room the draw stays within `0 .. max`, the range the
      comment on the draw promises. */
  lemma RandomOffsetWholeBound(r: real, max: real)
    requires 0.0 <= r < 1.0 && max >= 0.0 && max.Floor as real == max
    ensures RandomOffset(r, max) <= max.Floor
  {
  }

  /** Some draw lands past `max` exactly when `max` has a fractional part:
      the promised range `0 .. max` holds only for whole-pixel room. */
  lemma RandomOffsetOvershootIff(max: real)
    requires max >= 0.0
    ensures (exists r :: 0.0 <= r < 1.0 && RandomOffset(r, max) as real > max)
            <==> max.Floor as real < max
  {
    if max.Floor as real < max {
      RandomOffsetCovers(max.Floor + 1, max);
      var r :| 0.0 <= r < 1.0 && RandomOffset(r, max) == max.Floor + 1;
      assert RandomOffset(r, max) as real > max;
    } else if exists r :: 0.0 <= r < 1.0 && RandomOffset(r, max) as real > max {
      var r :| 0.0 <= r < 1.0 && RandomOffset(r, max) as real > max;
      RandomOffsetWholeBound(r, max);
    }
  }

  /** A concrete draw past the bound: with half a pixel of room, `r = 0.9`
      gives offset 1. */
  lemma RandomOffsetOvershoots()
    ensures RandomOffset(0.9, 0.5) == 1 && RandomOffset(0.9, 0.5) as real > 0.5
  {
    assert 0.9 * (0.5 + 1.0) == 1.35;
  }

  /** Even so, the drawn offset leaves the button inside its area, with more
      than 5 of the 6 margin pixels, whenever it fits. */
  lemma RandomOffsetStaysInArea(r: real, area: real, button: real)
    requires 0.0 <= r < 1.0 && area - button - Margin >= 0.0
    ensures RandomOffset(r, MaxOffset(area, button)) as real + button < area - Margin + 1.0
  {
  }

  /** The draw with its range rounded down to whole pixels first,
      `Math.floor(r * (Math.floor(max) + 1))`: it covers exactly
      `0 .. floor(max)`. */
  function WholeOffset(r: real, max: real): (k: int)
    requires 0.0 <= r < 1.0 && max >= 0.0
    ensures 0 <= k <= max.Floor && k as real <= max
  {
    RandomOffset(r, max.Floor as real)
  }

  /** Every offset in `0 .. floor(max)` is drawn for some `r`. */
  lemma WholeOffsetCovers(k: int, max: real)
    requires max >= 0.0 && 0 <= k <= max.Floor
    ensures exists r :: 0.0 <= r < 1.0 && WholeOffset(r, max) == k
  {
    RandomOffsetCovers(k, max.Floor as real);
    var r :| 0.0 <= r < 1.0 && RandomOffset(r, max.Floor as real) == k;
    assert WholeOffset(r, max) == k;
  }

  /** Whole-pixel geometry: rounding the range first changes nothing. */
  lemma WholeOffsetAgrees(r: real, max: real)
    requires 0.0 <= r < 1.0 && max >= 0.0 && max.Floor as real == max
    ensures WholeOffset(r, max) == RandomOffset(r, max)
  {
  }

  /** `moveNoButton`'s new position for the button inside `area`, from two
      random draws, as the source computes it. Each offset is below its room
      plus one pixel, so it can pass a fractional room by less than a pixel. */
  function NewPosition(area: Size, button: Size, rx: real, ry: real): (p: Position)
    requires 0.0 <= rx < 1.0 && 0.0 <= ry < 1.0
    ensures 0 <= p.left && (p.left as real) < MaxOffset(area.width, button.width) + 1.0
    ensures 0 <= p.top && (p.top as real) < MaxOffset(area.height, button.height) + 1.0
  {
    Position(RandomOffset(rx, MaxOffset(area.width, button.width)),
             RandomOffset(ry, MaxOffset(area.height, button.height)))
  }

  /** The button stays inside its area. Where it fits with the margin, it
      keeps more than 5 of the 6 margin pixels on the right and at the
      bottom. Along an axis with no room beyond the margin, it sits at 0. */
  lemma NewPositionInside(area: Size, button: Size, rx: real, ry: real)
    requires 0.0 <= rx < 1.0 && 0.0 <= ry < 1.0
    ensures var p := NewPosition(area, button, rx, ry);
      (area.width - button.width >= Margin ==> p.left as real + button.width < area.width - Margin + 1.0) &&
      (area.height - button.height >= Margin ==> p.top as real + button.height < area.height - Margin + 1.0) &&
      (area.width - button.width <= Margin ==> p.left == 0) &&
      (area.height - button.height <= Margin ==> p.top == 0)
  {
    if area.width - button.width >= Margin {
      RandomOffsetStaysInArea(rx, area.width, button.width);
    }
    if area.height - button.height >= Margin {
      RandomOffsetStaysInArea(ry, area.height, button.height);
    }
  }

  /** The draw as written passes the margin: with an area 100.5 pixels wide,
      a button 94 pixels wide and `Math.random()` returning 0.9, the button
      lands at left offset 1 and keeps only 5.5 of the 6 margin pixels. */
  lemma NewPositionOvershoots(ry: real)
    requires 0.0 <= ry < 1.0
    ensures var p := NewPosition(Size(100.5, 40.0), Size(94.0, 30.0), 0.9, ry);
      p.left == 1 && p.left as real + 94.0 > 100.5 - Margin
  {
    RandomOffsetOvershoots();
    assert MaxOffset(100.5, 94.0) == 0.5;
  }

  /** A position the source can draw. */
  predicate Reachable(area: Size, button: Size, p: Position) {
    0 <= p.left && (p.left as real) < MaxOffset(area.width, button.width) + 1.0 &&
    0 <= p.top && (p.top as real) < MaxOffset(area.height, button.height) + 1.0
  }

  /** Every reachable position is drawn for some pair of random numbers,
      including the one the button already has: nothing excludes the
      previous spot, and no nudge moves the button off it. */
  lemma MayStayPut(area: Size, button: Size, current: Position)
    requires Reachable(area, button, current)
    ensures exists rx, ry :: 0.0 <= rx < 1.0 && 0.0 <= ry < 1.0 &&
                             NewPosition(area, button, rx, ry) == current
  {
    var mx := MaxOffset(area.width, button.width);
    var my := MaxOffset(area.height, button.height);
    RandomOffsetCovers(current.left, mx);
    RandomOffsetCovers(current.top, my);
    var rx :| 0.0 <= rx < 1.0 && RandomOffset(rx, mx) == current.left;
    var ry :| 0.0 <= ry < 1.0 && RandomOffset(ry, my) == current.top;
    assert NewPosition(area, button, rx, ry) == current;
  }

  /** When the button does not fit with the margin on either axis, every
      approach puts it back at (0, 0). */
  lemma NoRoomNoMove(area: Size, button: Size, rx: real, ry: real)
    requires 0.0 <= rx < 1.0 && 0.0 <= ry < 1.0
    requires area.width - button.width <= Margin && area.height - button.height <= Margin
    ensures NewPosition(area, button, rx, ry) == Position(0, 0)
  {
  }

  /** The corrected move: each offset drawn by `WholeOffset`, so it never
      passes its room. */
  function NewPositionIntended(area: Size, button: Size, rx: real, ry: real): (p: Position)
    requires 0.0 <= rx < 1.0 && 0.0 <= ry < 1.0
    ensures 0 <= p.left && p.left as real <= MaxOffset(area.width, button.width)
    ensures 0 <= p.top && p.top as real <= MaxOffset(area.height, button.height)
  {
    Position(WholeOffset(rx, MaxOffset(area.width, button.width)),
             WholeOffset(ry, MaxOffset(area.height, button.height)))
  }

  /** The corrected move keeps the full margin whenever the button fits, and
      with less than one pixel of room on both axes it always gives (0, 0). */
  lemma NewPositionIntendedInside(area: Size, button: Size, rx: real, ry: real)
    requires 0.0 <= rx < 1.0 && 0.0 <= ry < 1.0
    ensures var p := NewPositionIntended(area, button, rx, ry);
      (area.width - button.width >= Margin ==> p.left as real + button.width <= area.width - Margin) &&
      (area.height - button.height >= Margin ==> p.top as real + button.height <= area.height - Margin) &&
      (area.width - button.width - Margin < 1.0 && area.height - button.height - Margin < 1.0 ==>
         p == Position(0, 0))
  {
  }

  /** Every position the corrected move can give is one the source can give,
      and for whole-pixel room the two moves agree on every draw. */
  lemma NewPositionIntendedAgrees(area: Size, button: Size, rx: real, ry: real)
    requires 0.0 <= rx < 1.0 && 0.0 <= ry < 1.0
    ensures Reachable(area, button, NewPositionIntended(area, button, rx, ry))
    ensures MaxOffset(area.width, button.width).Floor as real == MaxOffset(area.width, button.width) &&
            MaxOffset(area.height, button.height).Floor as real == MaxOffset(area.height, button.height) ==>
            NewPositionIntended(area, button, rx, ry) == NewPosition(area, button, rx, ry)
  {
    if MaxOffset(area.width, button.width).Floor as real == MaxOffset(area.width, button.width) &&
       MaxOffset(area.height, button.height).Floor as real == MaxOffset(area.height, button.height) {
      WholeOffsetAgrees(rx, MaxOffset(area.width, button.width));
      WholeOffsetAgrees(ry, MaxOffset(area.height, button.height));
    }
  }

  /** The five events the button listens to. */
  datatype Approach = MouseEnter | Focus | PointerOver | TouchStart | Click

  /** What one listener does: the new position, and whether it cancels the
      browser's default action. */
  datatype Reaction = Reaction(moveTo: Position, cancelsDefault: bool)

  /** The dodging button's listeners. All five run the same move; only the
      touch and click handlers cancel the default action, so a tap does not
      turn into a click and a click submits nothing. */
  function React(e: Approach, area: Size, button: Size, rx: real, ry: real): (o: Reaction)
    requires 0.0 <= rx < 1.0 && 0.0 <= ry < 1.0
    ensures o.cancelsDefault <==> e == TouchStart || e == Click
    ensures Reachable(area, button, o.moveTo)
  {
    Reaction(NewPosition(area, button, rx, ry), e == TouchStart || e == Click)
  }

  /** The event that triggers the move never changes where the button goes. */
  lemma ReactSameMove(e1: Approach, e2: Approach, area: Size, button: Size, rx: real, ry: real)
    requires 0.0 <= rx < 1.0 && 0.0 <= ry < 1.0
    ensures React(e1, area, button, rx, ry).moveTo == React(e2, area, button, rx, ry).moveTo
  {
  }
}
