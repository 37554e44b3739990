/** The branded redaction overlay: the style configuration, the opaque
    redaction identifier, the size tiers, the rounded frame path, and the
    drawing and annotation directives one redaction region receives. */
module Branding {
  import opened Wrappers
  import opened Errors
  import opened Text
  import opened Geometry
  import opened Colors

  // Size thresholds of the two-tier degradation (on the target, not the frame).
  const LargeMinWidth: real := 80.0
  const LargeMinHeight: real := 20.0
  const MediumMinWidth: real := 30.0
  const MediumMinHeight: real := 10.0

  const IconPadding: real := 2.0
  const IconMaxSize: real := 20.0
  /** An icon is placed only when its side exceeds this. */
  const IconMinSize: real := 4.0

  /** Corner radius of the frame, clamped to half its smaller side. */
  const BorderRadius: real := 3.0
  /** How far the frame extends beyond the redaction rectangle on every side. */
  const FramePadding: real := 3.0
  const FrameStrokeWidth: real := 0.5
  /** The quadratic-to-cubic control-point factor of each rounded corner. */
  const CurveFactor: real := 2.0 / 3.0

  const LargeFontSize: real := 7.0
  const MediumFontSize: real := 5.5
  /** A label whose font would be smaller than this is suppressed. */
  const MinFontSize: real := 4.0
  const LabelFontName: string := "helv"
  /** Space above the label's text inside its rectangle. */
  const LabelLeading: real := 2.0
  /** Gap between the label's right edge and the frame's right edge. */
  const LabelRightInset: real := 2.5

  const DefaultFillColor: string := "#000000"
  const DefaultTextColor: string := "#FFFFFF"
  const DefaultLabelPrefix: string := "ID:"

  // ---------------------------------------------------------------------
  // Redaction identifier
  // ---------------------------------------------------------------------

  predicate IsLowerHexDigit(c: char) {
    '0' <= c <= '9' || 'a' <= c <= 'f'
  }

  /** A SHA-256 `hexdigest()`: 64 lower-case hex characters. */
  type HexDigest = s: string | |s| == 64 && forall i :: 0 <= i < |s| ==> IsLowerHexDigit(s[i])
    witness seq(64, i => '0')

  /** What the identifier hashes: a page index and four coordinates, packed
      big-endian as one 32-bit integer and four 32-bit floats. */
  datatype IdInput = IdInput(page: int, x0: real, y0: real, x1: real, y1: real)

  /** `generate_redaction_id`: the first 12 characters of the hex SHA-256
      digest of the packed page and rectangle. The digest is a parameter
      (`digest`); being a function, the identifier is determined by page and
      rectangle alone. */
  function RedactionId(digest: IdInput -> HexDigest, page: int, rect: Rect): (id: string)
    ensures |id| == 12
    ensures forall i :: 0 <= i < |id| ==> IsLowerHexDigit(id[i])
    ensures id <= digest(IdInput(page, rect.x0, rect.y0, rect.x1, rect.y1))
  {
    digest(IdInput(page, rect.x0, rect.y0, rect.x1, rect.y1))[..12]
  }

  // ---------------------------------------------------------------------
  // Style
  // ---------------------------------------------------------------------

  /** The optional style configuration; an absent key is `None`. */
  datatype StyleConfig = StyleConfig(
    fillColor: Option<string>,
    borderColor: Option<string>,
    textColor: Option<string>,
    iconPng: Option<seq<byte>>,
    labelPrefix: Option<string>)

  /** The validated style, built once per redaction call. */
  datatype BrandingStyle = BrandingStyle(
    fillColor: Rgb,
    borderColor: Rgb,
    textColor: Rgb,
    iconPng: Option<seq<byte>>,
    labelPrefix: string)

  /** Python truthiness of an optional string: present and non-empty. */
  predicate Truthy(s: Option<string>) {
    s.Some? && |s.value| > 0
  }

  /** The fill colour text, the default when absent. */
  function FillText(c: StyleConfig): string {
    c.fillColor.GetOr(DefaultFillColor)
  }

  /** The text colour text, the default when absent. */
  function TextText(c: StyleConfig): string {
    c.textColor.GetOr(DefaultTextColor)
  }

  /** Every colour the configuration uses parses: the fill, the border when
      one is given, and the text colour. */
  predicate ColoursValid(c: StyleConfig) {
    && HexToRgb(FillText(c)).Ok?
    && (Truthy(c.borderColor) ==> HexToRgb(c.borderColor.value).Ok?)
    && HexToRgb(TextText(c)).Ok?
  }

  /** `BrandingStyle.from_config`. No configuration means no branding; a
      configuration parses the fill, then the border (only when present and
      non-empty, otherwise it is the fill), then the text colour, and the
      first colour that does not parse is reported. */
  function FromConfig(config: Option<StyleConfig>): (r: Result<Option<BrandingStyle>, Error>)
    ensures config.None? ==> r == Ok(None)
    ensures config.Some? && r.Ok? ==> r.value.Some?
    ensures r.Ok? && r.value.Some? ==>
      var st := r.value.value;
      InUnitRange(st.fillColor) && InUnitRange(st.borderColor) && InUnitRange(st.textColor)
    ensures r.Ok? && config.Some? && !Truthy(config.value.borderColor) ==>
      r.value.value.borderColor == r.value.value.fillColor
    ensures r.Ok? && config.Some? ==>
      r.value.value.labelPrefix == config.value.labelPrefix.GetOr(DefaultLabelPrefix) &&
      r.value.value.iconPng == config.value.iconPng
    ensures config.Some? ==>
      (r.Ok? <==> ColoursValid(config.value))
    ensures r.Ok? && config.Some? ==>
      && r.value.value.fillColor == HexToRgb(FillText(config.value)).value
      && r.value.value.textColor == HexToRgb(TextText(config.value)).value
      && (Truthy(config.value.borderColor) ==> r.value.value.borderColor == HexToRgb(config.value.borderColor.value).value)
    ensures config.Some? && HexToRgb(FillText(config.value)).Err? ==>
      r == Err(InvalidHexColor(FillText(config.value)))
    ensures (config.Some? && HexToRgb(FillText(config.value)).Ok?
             && Truthy(config.value.borderColor) && HexToRgb(config.value.borderColor.value).Err?) ==>
      r == Err(InvalidHexColor(config.value.borderColor.value))
    ensures (config.Some? && HexToRgb(FillText(config.value)).Ok?
             && (Truthy(config.value.borderColor) ==> HexToRgb(config.value.borderColor.value).Ok?)
             && HexToRgb(TextText(config.value)).Err?) ==>
      r == Err(InvalidHexColor(TextText(config.value)))
    ensures r.Err? ==> r.error.InvalidHexColor?
  {
    match config
    case None => Ok(None)
    case Some(c) =>
      var fill :- HexToRgb(FillText(c));
      var border :- if Truthy(c.borderColor) then HexToRgb(c.borderColor.value) else Ok(fill);
      var text :- HexToRgb(TextText(c));
      Ok(Some(BrandingStyle(fill, border, text, c.iconPng, c.labelPrefix.GetOr(DefaultLabelPrefix))))
  }

  /** An empty configuration gives black fill and border, white text, no icon
      and the "ID:" prefix. */
  lemma DefaultStyle()
    ensures FromConfig(Some(StyleConfig(None, None, None, None, None)))
         == Ok(Some(BrandingStyle(Rgb(0.0, 0.0, 0.0), Rgb(0.0, 0.0, 0.0), Rgb(1.0, 1.0, 1.0), None, "ID:")))
  {
    FormatHexRoundTrip(0, 0, 0);
    FormatHexRoundTrip(255, 255, 255);
    assert FormatHex(0, 0, 0) == DefaultFillColor;
    assert FormatHex(255, 255, 255) == DefaultTextColor;
  }

  // ---------------------------------------------------------------------
  // Tiers
  // ---------------------------------------------------------------------

  datatype Tier = Small | Medium | Large

  function Rank(t: Tier): nat {
    match t
    case Small => 0
    case Medium => 1
    case Large => 2
  }

  /** The tier of a target of the given width and height. Medium and large
      are each decided by their own pair of thresholds, and a large target
      is always at least medium. */
  function Classify(width: real, height: real): (t: Tier)
    ensures t != Small <==> width >= MediumMinWidth && height >= MediumMinHeight
    ensures t == Large <==> width >= LargeMinWidth && height >= LargeMinHeight
  {
    if width >= LargeMinWidth && height >= LargeMinHeight then Large
    else if width >= MediumMinWidth && height >= MediumMinHeight then Medium
    else Small
  }

  /** Growing a region never demotes its tier. */
  lemma ClassifyMonotone(w: real, h: real, w': real, h': real)
    requires w <= w' && h <= h'
    ensures Rank(Classify(w, h)) <= Rank(Classify(w', h'))
  {
  }

  function TierOf(target: Rect): Tier {
    Classify(Width(target), Height(target))
  }

  // ---------------------------------------------------------------------
  // The rounded frame
  // ---------------------------------------------------------------------

  /** A path segment: a straight line, or a cubic Bezier curve with two
      control points. */
  datatype Segment =
    | Line(p0: Point, p1: Point)
    | Curve(p0: Point, c1: Point, c2: Point, p1: Point)

  /** Each segment starts where the previous one ends, and the last ends
      where the first starts. */
  predicate ClosedPath(path: seq<Segment>) {
    && |path| > 0
    && (forall i :: 0 < i < |path| ==> path[i].p0 == path[i - 1].p1)
    && path[|path| - 1].p1 == path[0].p0
  }

  predicate SegmentInside(r: Rect, s: Segment) {
    Inside(r, s.p0) && Inside(r, s.p1) && (s.Curve? ==> Inside(r, s.c1) && Inside(r, s.c2))
  }

  /** `r` with every side moved inward by `d`. */
  function Shrink(r: Rect, d: real): Rect {
    Rect(r.x0 + d, r.y0 + d, r.x1 - d, r.y1 - d)
  }

  /** The frame: the redaction rectangle grown by the padding on every side.
      Moving each side of the frame back in by the padding gives the target,
      and the frame has the target's centre. */
  function Frame(target: Rect): (f: Rect)
    ensures Shrink(f, FramePadding) == target
    ensures f.x0 + f.x1 == target.x0 + target.x1 && f.y0 + f.y1 == target.y0 + target.y1
    ensures Width(target) > 0.0 ==> Width(f) == Width(target) + 2.0 * FramePadding
    ensures Height(target) > 0.0 ==> Height(f) == Height(target) + 2.0 * FramePadding
    ensures WellFormed(target) ==> WellFormed(f) && Inside(f, Point(target.x0, target.y0)) && Inside(f, Point(target.x1, target.y1))
  {
    Rect(target.x0 - FramePadding, target.y0 - FramePadding, target.x1 + FramePadding, target.y1 + FramePadding)
  }

  /** The corner radius: the requested one, clamped to half the smaller side. */
  function CornerRadius(frame: Rect, radius: real): (r: real)
    requires radius >= 0.0
    ensures 0.0 <= r <= radius && r <= Width(frame) / 2.0 && r <= Height(frame) / 2.0
    ensures r == radius || r == Width(frame) / 2.0 || r == Height(frame) / 2.0
  {
    var w := Width(frame) / 2.0;
    var h := Height(frame) / 2.0;
    if radius <= w && radius <= h then radius else if w <= h then w else h
  }

  /** `_draw_rounded_rect`'s outline: top edge, top-right corner, right edge,
      bottom-right corner, bottom edge, bottom-left corner, left edge,
      top-left corner. The edges lie on the frame's sides, each corner leaves
      along the edge it ends and arrives along the edge it starts, and on a
      well-formed frame every point, control points included, stays inside. */
  function RoundedRectPath(frame: Rect, radius: real): (path: seq<Segment>)
    requires radius >= 0.0
    ensures |path| == 8 && ClosedPath(path)
    ensures forall i :: 0 <= i < 8 ==> (path[i].Line? <==> i % 2 == 0)
    ensures path[0].p0.y == frame.y0 == path[0].p1.y && path[4].p0.y == frame.y1 == path[4].p1.y
    ensures path[2].p0.x == frame.x1 == path[2].p1.x && path[6].p0.x == frame.x0 == path[6].p1.x
    ensures path[1].c1.y == path[1].p0.y && path[1].c2.x == path[1].p1.x
    ensures path[3].c1.x == path[3].p0.x && path[3].c2.y == path[3].p1.y
    ensures path[5].c1.y == path[5].p0.y && path[5].c2.x == path[5].p1.x
    ensures path[7].c1.x == path[7].p0.x && path[7].c2.y == path[7].p1.y
    ensures WellFormed(frame) ==> forall i :: 0 <= i < 8 ==> SegmentInside(frame, path[i])
    ensures var r := CornerRadius(frame, radius); var d := (1.0 - CurveFactor) * r;
      && path[1] == Curve(Point(frame.x1 - r, frame.y0), Point(frame.x1 - d, frame.y0), Point(frame.x1, frame.y0 + d), Point(frame.x1, frame.y0 + r))
      && path[3] == Curve(Point(frame.x1, frame.y1 - r), Point(frame.x1, frame.y1 - d), Point(frame.x1 - d, frame.y1), Point(frame.x1 - r, frame.y1))
      && path[5] == Curve(Point(frame.x0 + r, frame.y1), Point(frame.x0 + d, frame.y1), Point(frame.x0, frame.y1 - d), Point(frame.x0, frame.y1 - r))
      && path[7] == Curve(Point(frame.x0, frame.y0 + r), Point(frame.x0, frame.y0 + d), Point(frame.x0 + d, frame.y0), Point(frame.x0 + r, frame.y0))
  {
    var r := CornerRadius(frame, radius);
    var k := CurveFactor;
    var x0, y0, x1, y1 := frame.x0, frame.y0, frame.x1, frame.y1;
    [ Line(Point(x0 + r, y0), Point(x1 - r, y0)),
      Curve(Point(x1 - r, y0), Point(x1 - r + k * r, y0), Point(x1, y0 + r - k * r), Point(x1, y0 + r)),
      Line(Point(x1, y0 + r), Point(x1, y1 - r)),
      Curve(Point(x1, y1 - r), Point(x1, y1 - r + k * r), Point(x1 - r + k * r, y1), Point(x1 - r, y1)),
      Line(Point(x1 - r, y1), Point(x0 + r, y1)),
      Curve(Point(x0 + r, y1), Point(x0 + r - k * r, y1), Point(x0, y1 - r + k * r), Point(x0, y1 - r)),
      Line(Point(x0, y1 - r), Point(x0, y0 + r)),
      Curve(Point(x0, y0 + r), Point(x0, y0 + r - k * r), Point(x0 + r - k * r, y0), Point(x0 + r, y0)) ]
  }

  // ---------------------------------------------------------------------
  // Directives
  // ---------------------------------------------------------------------

  datatype AnnotFlag = ReadOnly | Locked | LockedContents
  datatype Align = AlignLeft | AlignCenter | AlignRight

  /** What the renderer asks the engine to draw on the page. */
  datatype Directive =
    | FillPath(path: seq<Segment>, stroke: Rgb, fill: Rgb, strokeWidth: real)
    | FreeText(rect: Rect, text: string, fontSize: real, fontName: string,
               textColor: Rgb, fillColor: Rgb, align: Align, flags: set<AnnotFlag>)
    | InsertImage(rect: Rect, image: seq<byte>)

  /** The flags that make the label read-only and locked. */
  const LabelFlags: set<AnnotFlag> := {ReadOnly, Locked, LockedContents}

  predicate HasIcon(style: BrandingStyle) {
    style.iconPng.Some? && |style.iconPng.value| > 0
  }

  /** The icon's side: the target's height less the padding above and
      below, capped at the maximum. */
  function IconSize(target: Rect): (s: real)
    ensures s <= IconMaxSize && s <= Height(target) - 2.0 * IconPadding
    ensures s == IconMaxSize || s == Height(target) - 2.0 * IconPadding
  {
    if Height(target) - 2.0 * IconPadding <= IconMaxSize then Height(target) - 2.0 * IconPadding else IconMaxSize
  }

  /** The icon square at the frame's top-left corner, when there are icon
      bytes and the square is large enough. */
  function IconRect(target: Rect, style: BrandingStyle): (r: Option<Rect>)
    ensures r.Some? <==> HasIcon(style) && IconSize(target) > IconMinSize
    ensures r.Some? ==>
      && r.value.x0 == Frame(target).x0 && r.value.y0 == Frame(target).y0
      && Width(r.value) == Height(r.value) == IconSize(target)
      && IconMinSize < Width(r.value) <= IconMaxSize
  {
    if HasIcon(style) && IconSize(target) > IconMinSize then
      var f := Frame(target);
      var s := IconSize(target);
      Some(Rect(f.x0, f.y0, f.x0 + s, f.y0 + s))
    else None
  }

  /** The label's font size: 7.0 for large targets, 5.5 otherwise, reduced
      when the target is too short. */
  function LabelFontSize(tier: Tier, target: Rect): real {
    var preferred := if tier == Large then LargeFontSize else MediumFontSize;
    if preferred <= Height(target) - 4.0 then preferred else Height(target) - 4.0
  }

  /** The label's rectangle: from just past the icon (or the frame's left
      edge) to just inside the frame's right edge, sitting on the frame's
      bottom edge. */
  function LabelRect(target: Rect, style: BrandingStyle, fontSize: real): Rect {
    var f := Frame(target);
    var icon := IconRect(target, style);
    var left := if icon.Some? then icon.value.x1 else f.x0;
    Rect(left, f.y1 - fontSize - LabelLeading, f.x1 - LabelRightInset, f.y1)
  }

  /** The label text `"{prefix} {id}"`. */
  function LabelText(style: BrandingStyle, redactionId: string): string {
    style.labelPrefix + " " + redactionId
  }

  /** `draw_branding`: the frame outline is always drawn first; a medium or
      large target then gets exactly one locked, right-aligned label in the
      style's colours, a small target none; the icon is placed last whenever
      it fits, whatever the tier. Whether the engine manages to embed the
      icon image does not change the directives. */
  function DrawBranding(target: Rect, redactionId: string, style: BrandingStyle): (ds: seq<Directive>)
    ensures |ds| == 1 + (if TierOf(target) != Small then 1 else 0) + (if IconRect(target, style).Some? then 1 else 0)
    ensures ds[0] == FillPath(RoundedRectPath(Frame(target), BorderRadius), style.borderColor, style.fillColor, FrameStrokeWidth)
    ensures forall i :: 0 <= i < |ds| && ds[i].FreeText? ==> i == 1 && TierOf(target) != Small
    ensures TierOf(target) != Small ==>
      && |ds| >= 2 && ds[1].FreeText?
      && ds[1].text == LabelText(style, redactionId)
      && ds[1].fontSize == (if TierOf(target) == Large then LargeFontSize else MediumFontSize)
      && ds[1].fontName == LabelFontName && ds[1].align == AlignRight && ds[1].flags == LabelFlags
      && ds[1].textColor == style.textColor && ds[1].fillColor == style.fillColor
    ensures (exists i :: 0 <= i < |ds| && ds[i].InsertImage?) <==> IconRect(target, style).Some?
    ensures IconRect(target, style).Some? ==>
      ds[|ds| - 1] == InsertImage(IconRect(target, style).value, style.iconPng.value)
  {
    var frame := Frame(target);
    var tier := TierOf(target);
    var outline := FillPath(RoundedRectPath(frame, BorderRadius), style.borderColor, style.fillColor, FrameStrokeWidth);
    var fontSize := LabelFontSize(tier, target);
    var labels :=
      if tier != Small && fontSize >= MinFontSize then
        [FreeText(LabelRect(target, style, fontSize), LabelText(style, redactionId), fontSize, LabelFontName,
                  style.textColor, style.fillColor, AlignRight, LabelFlags)]
      else [];
    var icon := IconRect(target, style);
    var image := if icon.Some? then [InsertImage(icon.value, style.iconPng.value)] else [];
    var ds := [outline] + labels + image;
    assert forall i :: 0 <= i < |ds| - |image| ==> !ds[i].InsertImage?;
    assert icon.Some? ==> ds[|ds| - 1].InsertImage?;
    ds
  }

  /** Where the label sits: its left edge is the icon's right edge (or the
      frame's left edge without an icon), its right edge 2.5 inside the
      frame, its bottom on the frame's bottom edge; for a large target its
      top lies below the target's vertical midpoint. */
  lemma LabelPlacement(target: Rect, redactionId: string, style: BrandingStyle)
    requires TierOf(target) != Small
    ensures var ds := DrawBranding(target, redactionId, style);
      && ds[1].rect.x0 == (if IconRect(target, style).Some? then IconRect(target, style).value.x1 else Frame(target).x0)
      && ds[1].rect.x1 == Frame(target).x1 - LabelRightInset
      && ds[1].rect.y1 == Frame(target).y1
      && (TierOf(target) == Large ==> ds[1].rect.y0 > target.y0 + Height(target) / 2.0)
  {
  }
}
