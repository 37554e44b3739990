/** Rectangles and the coordinate flip between the render space of the
    document engine (origin top-left, y grows downward) and the exchange space
    of XFDF (origin bottom-left, y grows upward, the user-space convention of
    section 8.3.2.3 of ISO 32000-1). */
module Geometry {

  /** Four bounds in one coordinate space; only meaningful together with the
      height of the page they were measured on. */
  datatype Rect = Rect(x0: real, y0: real, x1: real, y1: real)

  datatype Point = Point(x: real, y: real)

  predicate WellFormed(r: Rect) {
    r.x0 <= r.x1 && r.y0 <= r.y1
  }

  predicate Inside(r: Rect, p: Point) {
    r.x0 <= p.x <= r.x1 && r.y0 <= p.y <= r.y1
  }

  /** The engine's `Rect.width`, which never goes below zero. */
  function Width(r: Rect): (w: real)
    ensures w >= 0.0 && w >= r.x1 - r.x0
    ensures r.x0 <= r.x1 ==> w == r.x1 - r.x0
    ensures r.x1 < r.x0 ==> w == 0.0
  {
    if r.x1 - r.x0 > 0.0 then r.x1 - r.x0 else 0.0
  }

  /** The engine's `Rect.height`, which never goes below zero. */
  function Height(r: Rect): (h: real)
    ensures h >= 0.0 && h >= r.y1 - r.y0
    ensures r.y0 <= r.y1 ==> h == r.y1 - r.y0
    ensures r.y1 < r.y0 ==> h == 0.0
  {
    if r.y1 - r.y0 > 0.0 then r.y1 - r.y0 else 0.0
  }

  /** The y-flip on a page of height `h`, used in both directions: render to
      exchange when suggestions are generated, exchange to render when
      redactions are applied. x is kept; the top edge's distance from the top
      of the page becomes the bottom edge's distance from the bottom. */
  function FlipY(r: Rect, h: real): (e: Rect)
    ensures e.x0 == r.x0 && e.x1 == r.x1
    ensures Width(e) == Width(r) && Height(e) == Height(r)
    ensures r.y0 < r.y1 <==> e.y0 < e.y1
    ensures WellFormed(r) <==> WellFormed(e)
  {
    Rect(r.x0, h - r.y1, r.x1, h - r.y0)
  }

  /** The flip is its own inverse: exchange-to-render after render-to-exchange
      (and the other way round) with the same page height is the identity. */
  lemma FlipYInvolution(r: Rect, h: real)
    ensures FlipY(FlipY(r, h), h) == r
  {
  }

  /** Two rectangles flipped on the same page are equal only if they were equal:
      no two distinct regions share an exchange-space description. */
  lemma FlipYInjective(r: Rect, s: Rect, h: real)
    requires FlipY(r, h) == FlipY(s, h)
    ensures r == s
  {
    FlipYInvolution(r, h);
    FlipYInvolution(s, h);
  }
}
