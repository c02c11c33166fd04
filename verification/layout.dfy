/**
 * A text node's geometry: the snapshot taken before translation
 * (code.js:125-136), the trigger for fitting an auto-resizing node
 * (code.js:353-366), re-centering (code.js:368-381) and the natural-size
 * measurement of a fixed box (code.js:138-146).
 */
module Layout {
  import opened Style

  /** Figma's `textAutoResize`: "NONE", "WIDTH", "HEIGHT", "WIDTH_AND_HEIGHT". */
  datatype AutoResize = NoAutoResize | AutoWidth | AutoHeight | AutoWidthAndHeight

  datatype TextAlign = AlignLeft | AlignCenter | AlignRight | AlignJustified

  datatype Dims = Dims(width: real, height: real)

  /** The part of a Figma text node the engine reads and writes. */
  datatype TextNode = TextNode(
    buffer: Buffer,
    x: real, y: real, width: real, height: real,
    textAlignHorizontal: TextAlign,
    textAutoResize: AutoResize)

  /** The snapshot taken before the node is touched. */
  datatype TextLayout = TextLayout(
    x: real, y: real, width: real, height: real,
    centerX: real, centerY: real,
    textAlignHorizontal: TextAlign,
    textAutoResize: AutoResize)

  /** The host's layout of a buffer: the box a node with this content takes
      in the given resize mode, its fixed sides as they were captured. */
  type Measure = (Buffer, AutoResize) -> Dims

  const WidthTolerance: real := 1.12
  const HeightTolerance: real := 1.25

  /** The box can change with its content. */
  predicate ShiftsWithContent(mode: AutoResize) {
    mode == AutoWidthAndHeight || mode == AutoHeight || mode == AutoWidth
  }

  /** captureTextNodeLayout. */
  function CaptureTextNodeLayout(node: TextNode): (layout: TextLayout)
    ensures layout.x == node.x && layout.y == node.y
    ensures layout.width == node.width && layout.height == node.height
    ensures layout.textAutoResize == node.textAutoResize
    ensures layout.textAlignHorizontal == node.textAlignHorizontal
    ensures layout.centerX - layout.x == layout.x + layout.width - layout.centerX
    ensures layout.centerY - layout.y == layout.y + layout.height - layout.centerY
  {
    TextLayout(node.x, node.y, node.width, node.height,
               node.x + node.width / 2.0, node.y + node.height / 2.0,
               node.textAlignHorizontal, node.textAutoResize)
  }

  /** restoreCenteredPositionIfNeeded: an auto-resizing node is moved so its
      centre is the captured one; a fixed box is not moved. */
  function RestoreCenteredPositionIfNeeded(node: TextNode, layout: TextLayout): (r: TextNode)
    ensures !ShiftsWithContent(layout.textAutoResize) ==> r == node
    ensures ShiftsWithContent(layout.textAutoResize) ==>
      r.x + r.width / 2.0 == layout.centerX && r.y + r.height / 2.0 == layout.centerY
    ensures r.buffer == node.buffer && r.width == node.width && r.height == node.height
    ensures r.textAutoResize == node.textAutoResize
    ensures r.textAlignHorizontal == node.textAlignHorizontal
  {
    if !ShiftsWithContent(layout.textAutoResize) then node
    else node.(x := layout.centerX - node.width / 2.0, y := layout.centerY - node.height / 2.0)
  }

  /** Capturing and then re-centering a node whose size did not change puts
      it back where it was. */
  lemma RecenterAfterCaptureIsIdentity(node: TextNode)
    ensures RestoreCenteredPositionIfNeeded(node, CaptureTextNodeLayout(node)) == node
  {
  }

  /** shouldFitAutoResizeNode: an auto-resizing node grew more than 12% in
      width or 25% in height. */
  function ShouldFitAutoResizeNode(node: TextNode, layout: TextLayout): (r: bool)
    ensures !ShiftsWithContent(layout.textAutoResize) ==> !r
    ensures ShiftsWithContent(layout.textAutoResize) ==>
      (r <==> node.width > layout.width * WidthTolerance || node.height > layout.height * HeightTolerance)
  {
    var autoSize := layout.textAutoResize;
    if autoSize != AutoWidthAndHeight && autoSize != AutoWidth && autoSize != AutoHeight then false
    else
      var tooWide := node.width > layout.width * WidthTolerance;
      var tooTall := node.height > layout.height * HeightTolerance;
      tooWide || tooTall
  }

  /** A node that has not changed size never triggers a fit, and one that
      does has grown on some axis. */
  lemma FitTriggerNeedsGrowth(node: TextNode, layout: TextLayout)
    requires layout.width >= 0.0 && layout.height >= 0.0
    ensures ShouldFitAutoResizeNode(node, layout) ==> node.width > layout.width || node.height > layout.height
    ensures node.width == layout.width && node.height == layout.height ==> !ShouldFitAutoResizeNode(node, layout)
  {
  }

  /** measureNaturalSizeForFixedTextNode: switch to WIDTH_AND_HEIGHT, read
      the size, then switch back to NONE and resize to the captured box. */
  function MeasureNaturalSizeForFixedTextNode(node: TextNode, layout: TextLayout, measure: Measure)
    : (r: (Dims, TextNode))
    ensures r.0 == measure(node.buffer, AutoWidthAndHeight)
    ensures r.1.textAutoResize == NoAutoResize
    ensures r.1.width == layout.width && r.1.height == layout.height
    ensures r.1.buffer == node.buffer && r.1.x == node.x && r.1.y == node.y
    ensures r.1 == node.(textAutoResize := NoAutoResize, width := layout.width, height := layout.height)
  {
    var width := layout.width;
    var height := layout.height;
    var grown := node.(textAutoResize := AutoWidthAndHeight);
    var natural := measure(grown.buffer, grown.textAutoResize);
    var fixed := grown.(textAutoResize := NoAutoResize);
    (natural, fixed.(width := width, height := height))
  }
}
