/**
 * Hit-testing geometry of the viewer: rectangles in window coordinates
 * (x, y of the top-left corner, width, height), mouse click points, the
 * two overlap tests, the vertical centering of a glyph inside a line, and
 * the two small mutable records `ThroughLine` and `BlinkState`.
 *
 * Coordinates are `i32` in the program; here they are unbounded integers,
 * so arithmetic overflow is not modelled.
 */
module Geometry {
  import opened Common

  /** `Rectangle(x, y, w, h)`: top-left corner and size. */
  datatype Rectangle = Rectangle(x: int, y: int, w: int, h: int)

  function Abs(a: int): int { if a < 0 then -a else a }

  /**
   * `Rectangle::new`: a rectangle spanned from (x, y) by a possibly
   * negative width and height, normalised so that the corner is the
   * top-left one and the size is not negative.
   */
  function NewRect(x: int, y: int, w: int, h: int): (r: Rectangle)
    ensures r.w >= 0 && r.h >= 0
    ensures r.x == Min(x, x + w) && r.y == Min(y, y + h)
    ensures r.w == Abs(w) && r.h == Abs(h)
  {
    if w < 0 && h < 0 then Rectangle(x + w, y + h, -w, -h)
    else if w < 0 then Rectangle(x + w, y, -w, h)
    else if h < 0 then Rectangle(x, y + h, w, -h)
    else Rectangle(x, y, w, h)
  }

  /** A rectangle that is already normalised is left as it is; normalising twice changes nothing. */
  lemma NewRectIdempotent(x: int, y: int, w: int, h: int)
    ensures var r := NewRect(x, y, w, h); NewRect(r.x, r.y, r.w, r.h) == r
    ensures w >= 0 && h >= 0 ==> NewRect(x, y, w, h) == Rectangle(x, y, w, h)
  {
  }

  /** The same rectangle results whichever of two opposite corners it is spanned from. */
  lemma NewRectFromEitherCorner(x: int, y: int, w: int, h: int)
    ensures NewRect(x, y, w, h) == NewRect(x + w, y + h, -w, -h)
  {
  }

  /** `Rectangle::intersects`: the strict test; rectangles that only touch do not intersect. */
  predicate Intersects(a: Rectangle, b: Rectangle): (r: bool)
    ensures r ==> IsOverlap(a, b) && IsOverlap(b, a)
  {
    a.x < b.x + b.w && a.x + a.w > b.x && a.y < b.y + b.h && a.y + a.h > b.y
  }

  /** `is_overlap`: the inclusive test; touching edges count as overlap. */
  predicate IsOverlap(target: Rectangle, selection: Rectangle): (r: bool)
    ensures (&& target.w >= 0 && target.h >= 0 && selection.w >= 0 && selection.h >= 0
             && target.x <= selection.x <= target.x + target.w
             && target.y <= selection.y <= target.y + target.h) ==> r
  {
    target.x <= selection.x + selection.w
    && target.x + target.w >= selection.x
    && target.y <= selection.y + selection.h
    && target.y + target.h >= selection.y
  }

  /** `Rectangle::is_below`: the top edge lies strictly under the other rectangle's bottom edge. */
  predicate IsBelow(a: Rectangle, another: Rectangle): (r: bool)
    ensures r ==> !IsOverlap(a, another) && !Intersects(a, another)
  {
    a.y > another.y + another.h
  }

  /** Both overlap tests are symmetric, and the strict one implies the inclusive one. */
  lemma OverlapProperties(a: Rectangle, b: Rectangle)
    ensures IsOverlap(a, b) <==> IsOverlap(b, a)
    ensures Intersects(a, b) <==> Intersects(b, a)
    ensures Intersects(a, b) ==> IsOverlap(a, b)
  {
  }

  /** Rectangles that only share an edge overlap inclusively but do not intersect. */
  lemma TouchingIsOverlapNotIntersection(a: Rectangle)
    requires a.w >= 0 && a.h >= 0
    ensures var b := Rectangle(a.x + a.w, a.y, 1, a.h);
      IsOverlap(a, b) && !Intersects(a, b)
  {
  }

  /** A rectangle lying below another one does not overlap it, provided its height is not negative. */
  lemma BelowIsDisjoint(a: Rectangle, b: Rectangle)
    requires a.h >= 0
    ensures IsBelow(a, b) ==> !IsOverlap(a, b) && !IsOverlap(b, a)
  {
  }

  /**
   * `Ord for Rectangle`: rectangles are ordered by the y coordinate, then
   * by x; width and height play no part.
   */
  function Compare(a: Rectangle, b: Rectangle): (o: Ordering)
    ensures o == Equal <==> a.x == b.x && a.y == b.y
    ensures o == Less <==> a.y < b.y || (a.y == b.y && a.x < b.x)
  {
    if a.y > b.y then Greater
    else if a.y < b.y then Less
    else if a.x > b.x then Greater
    else if a.x < b.x then Less
    else Equal
  }

  /** The ordering is a total preorder: antisymmetric in its answers and transitive. */
  lemma CompareIsOrder(a: Rectangle, b: Rectangle, c: Rectangle)
    ensures Compare(a, b) == Less <==> Compare(b, a) == Greater
    ensures Compare(a, b) == Less && Compare(b, c) == Less ==> Compare(a, c) == Less
    ensures Compare(a, b) == Equal && Compare(b, c) == Equal ==> Compare(a, c) == Equal
  {
  }

  /**
   * `ClickPoint`: a mouse position together with the index of the piece
   * (`p_i`) and of the character within it (`c_i`) under the pointer.
   */
  datatype ClickPoint = ClickPoint(x: int, y: int, pieceIndex: nat, charIndex: nat)

  /** `ClickPoint::new`. */
  function NewClickPoint(x: int, y: int): (p: ClickPoint)
    ensures p.x == x && p.y == y && p.pieceIndex == 0 && p.charIndex == 0
  {
    ClickPoint(x, y, 0, 0)
  }

  /** `ClickPoint::as_rect`: the empty rectangle at the point. */
  function AsRect(p: ClickPoint): (r: Rectangle)
    ensures r == Rectangle(p.x, p.y, 0, 0)
  {
    NewRect(p.x, p.y, 0, 0)
  }

  /** `ClickPoint::to_rect`: the normalised rectangle spanned by two points. */
  function ToRect(from: ClickPoint, to: ClickPoint): (r: Rectangle)
    ensures r.w >= 0 && r.h >= 0
    ensures r.x == Min(from.x, to.x) && r.y == Min(from.y, to.y)
    ensures r.x + r.w == Max(from.x, to.x) && r.y + r.h == Max(from.y, to.y)
  {
    NewRect(from.x, from.y, to.x - from.x, to.y - from.y)
  }

  /** The rectangle spanned by two points does not depend on their order. */
  lemma ToRectSymmetric(p: ClickPoint, q: ClickPoint)
    ensures ToRect(p, q) == ToRect(q, p)
  {
  }

  /** `Rectangle::corner_rect`: empty rectangles at the top-left and bottom-right corners. */
  function CornerRect(r: Rectangle): (c: (Rectangle, Rectangle))
    ensures c.0 == Rectangle(r.x, r.y, 0, 0)
    ensures c.1 == Rectangle(r.x + r.w, r.y + r.h, 0, 0)
  {
    (AsRect(NewClickPoint(r.x, r.y)), AsRect(NewClickPoint(r.x + r.w, r.y + r.h)))
  }

  /** Integer division truncating toward zero, as Rust's `/` on `i32`. */
  function TruncDiv(a: int, d: int): (q: int)
    requires d > 0
    ensures a >= 0 ==> q == a / d
    ensures a < 0 ==> q == -((-a) / d)
  {
    if a >= 0 then a / d else -((-a) / d)
  }

  /**
   * `calc_v_center_offset`: the offsets, from the top of a line, of the top
   * and bottom of a glyph centred in it.
   */
  function CalcVCenterOffset(lineHeight: int, fontHeight: int): (r: (int, int))
    ensures 0 <= fontHeight <= lineHeight ==> r.1 - r.0 == fontHeight
  {
    (TruncDiv(lineHeight - fontHeight, 2), TruncDiv(lineHeight + fontHeight, 2))
  }

  /**
   * A glyph no taller than its line is placed inside the line, its top and
   * bottom exactly a glyph height apart, and centred to within one pixel.
   */
  lemma VCenterOffsetFits(lineHeight: int, fontHeight: int)
    requires 0 <= fontHeight <= lineHeight
    ensures var (up, down) := CalcVCenterOffset(lineHeight, fontHeight);
      0 <= up && down <= lineHeight && down - up == fontHeight
      && 0 <= (lineHeight - down) - up <= 1
  {
  }

  /**
   * Once the glyph is taller than the line (a negative numerator), the
   * division truncates toward zero rather than flooring: with line height 0
   * and glyph height 3 the top offset is -1, not -2.
   */
  lemma VCenterOffsetTruncates()
    ensures CalcVCenterOffset(0, 3) == (-1, 1)
  {
  }

  /**
   * `ThroughLine`: what the pieces laid out on one visual line share; the
   * list of weak references to those pieces is not part of this model.
   */
  class ThroughLine {
    var maxH: int
    var existImage: bool

    /** `ThroughLine::new`. */
    constructor (maxH: int, existImage: bool)
      ensures this.maxH == maxH && this.existImage == existImage
    {
      this.maxH := maxH;
      this.existImage := existImage;
    }

    /** `ThroughLine::set_max_h`: the recorded height only ever grows, to the tallest offered. */
    method SetMaxH(h: int)
      modifies this
      ensures maxH == Max(old(maxH), h)
      ensures maxH >= h && maxH >= old(maxH)
      ensures existImage == old(existImage)
    {
      if h > maxH {
        maxH := h;
      }
    }
  }

  /** `BlinkDegree`. */
  datatype BlinkDegree = Normal | Contrast

  function Flip(d: BlinkDegree): (e: BlinkDegree)
    ensures e != d
  {
    match d
    case Normal => Contrast
    case Contrast => Normal
  }

  /**
   * `BlinkState`: whether anything visible blinks and which intensity the
   * next repaint shows. The focus colours and border width are drawing
   * constants and are not part of this model.
   */
  class BlinkState {
    var on: bool
    var next: BlinkDegree

    /** `BlinkState::new`: off, next repaint in the normal colours. */
    constructor ()
      ensures !on && next == Normal
    {
      on := false;
      next := Normal;
    }

    /** `BlinkState::off`: the intensity to come is kept. */
    method Off()
      modifies this
      ensures !on && next == old(next)
    {
      on := false;
    }

    /** `BlinkState::on`. */
    method On()
      modifies this
      ensures on && next == old(next)
    {
      on := true;
    }

    /**
     * `BlinkState::toggle_when_on`: while blinking is on, alternate the
     * intensity and report `true`; while it is off, change nothing and
     * report `false`.
     */
    method ToggleWhenOn() returns (toggled: bool)
      modifies this
      ensures toggled == old(on) && on == old(on)
      ensures next == if old(on) then Flip(old(next)) else old(next)
    {
      if on {
        next := Flip(next);
        toggled := true;
      } else {
        toggled := false;
      }
    }
  }

  /** Two toggles while blinking is on bring the intensity back to where it was. */
  method ToggleTwiceRestores(b: BlinkState)
    requires b.on
    modifies b
    ensures b.on && b.next == old(b.next)
  {
    var first := b.ToggleWhenOn();
    var second := b.ToggleWhenOn();
    assert first && second;
  }
}
