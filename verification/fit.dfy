/**
 * fitTextNodeToOriginalBounds (code.js:309-351): measure, and while the text
 * overflows its captured box by more than half a unit, shrink font sizes and
 * pixel line heights by a damped ratio, at most twelve times.
 */
module Fit {
  import opened Style
  import opened Scaling
  import opened Layout
  import opened Seqs

  const MinFontSize: real := 8.0
  const MaxIterations: nat := 12
  const MaxFactor: real := 0.98
  const Slack: real := 0.5

  datatype FitResult = FitResult(reduced: bool, stillOverflowing: bool)

  /** Neither side exceeds the captured one by more than the slack. */
  predicate Fits(size: Dims, layout: TextLayout) {
    !(size.width > layout.width + Slack) && !(size.height > layout.height + Slack)
  }

  /** What one pass of the loop measures for `node`: the natural size of a
      fixed box, the node's own box otherwise. */
  function Observed(node: TextNode, layout: TextLayout, measure: Measure): Dims {
    if layout.textAutoResize == NoAutoResize then measure(node.buffer, AutoWidthAndHeight)
    else Dims(node.width, node.height)
  }

  /** `min(width ratio, height ratio, 0.98)`, each measured side floored at 1. */
  function ShrinkFactor(current: Dims, layout: TextLayout): (factor: real)
    ensures factor <= MaxFactor
    ensures factor <= layout.width / Max(current.width, 1.0)
    ensures factor <= layout.height / Max(current.height, 1.0)
    ensures factor == MaxFactor || factor == layout.width / Max(current.width, 1.0)
            || factor == layout.height / Max(current.height, 1.0)
  {
    var widthRatio := layout.width / Max(current.width, 1.0);
    var heightRatio := layout.height / Max(current.height, 1.0);
    if widthRatio <= heightRatio && widthRatio <= MaxFactor then widthRatio
    else if heightRatio <= MaxFactor then heightRatio
    else MaxFactor
  }

  /** The node after the host took a new buffer: an auto-resizing box is
      laid out again, a fixed box keeps its size. */
  function WithBuffer(node: TextNode, buffer: Buffer, measure: Measure): (r: TextNode)
    ensures r.buffer == buffer && r.x == node.x && r.y == node.y
    ensures r.textAutoResize == node.textAutoResize
    ensures node.textAutoResize == NoAutoResize ==> r.width == node.width && r.height == node.height
  {
    if node.textAutoResize == NoAutoResize then node.(buffer := buffer)
    else
      var box := measure(buffer, node.textAutoResize);
      node.(buffer := buffer, width := box.width, height := box.height)
  }

  /** One shrink pass: font sizes with a floor of 8, then pixel line
      heights; it changed something when either scaler did. */
  function ShrinkOnce(buf: Buffer, factor: real): (r: Scaled)
    ensures r.buffer.characters == buf.characters
    ensures forall k :: 0 <= k < |buf.styles| ==>
      r.buffer.styles[k] == CharStyle(ScaleFontSize(buf.styles[k].fontSize, factor, MinFontSize),
                                      ScaleLineHeight(buf.styles[k].lineHeight, factor))
    ensures AtMost(r.buffer, buf)
    ensures r.changed <==> r.buffer != buf
  {
    var sizes := ScaleFontSizes(buf, factor, MinFontSize);
    var heights := ScalePixelLineHeights(sizes.buffer, factor);
    ShrinkOncePointwise(buf, factor);
    ShrinkOnceLowers(buf, factor);
    Scaled(heights.buffer, sizes.changed || heights.changed)
  }

  /** Font sizes are scaled first, then line heights: each character gets
      both its scaled size and its scaled line height. */
  lemma ShrinkOncePointwise(buf: Buffer, factor: real)
    ensures var b := ScalePixelLineHeights(ScaleFontSizes(buf, factor, MinFontSize).buffer, factor).buffer;
      forall k :: 0 <= k < |buf.styles| ==>
        b.styles[k] == CharStyle(ScaleFontSize(buf.styles[k].fontSize, factor, MinFontSize),
                                 ScaleLineHeight(buf.styles[k].lineHeight, factor))
  {
    var sizes := ScaleFontSizes(buf, factor, MinFontSize).buffer;
    var heights := ScalePixelLineHeights(sizes, factor).buffer;
    forall k | 0 <= k < |buf.styles|
      ensures heights.styles[k] == CharStyle(ScaleFontSize(buf.styles[k].fontSize, factor, MinFontSize),
                                             ScaleLineHeight(buf.styles[k].lineHeight, factor))
    {
      assert sizes.styles[k] == buf.styles[k].(fontSize := ScaleFontSize(buf.styles[k].fontSize, factor, MinFontSize));
    }
  }

  /** The two scalers together only lower styles, and change the buffer
      exactly when one of them reports a change. */
  lemma ShrinkOnceLowers(buf: Buffer, factor: real)
    ensures var sizes := ScaleFontSizes(buf, factor, MinFontSize);
      var heights := ScalePixelLineHeights(sizes.buffer, factor);
      && AtMost(heights.buffer, buf)
      && (heights.buffer != buf <==> sizes.changed || heights.changed)
  {
    var sizes := ScaleFontSizes(buf, factor, MinFontSize);
    ScaleFontSizesShrinks(buf, factor, MinFontSize);
    ScalePixelLineHeightsShrinks(sizes.buffer, factor);
    AtMostTransitive(ScalePixelLineHeights(sizes.buffer, factor).buffer, sizes.buffer, buf);
  }

  /** Every factor lies in (0, 0.98]. */
  ghost predicate DampedFactors(factors: seq<real>) {
    forall i :: 0 <= i < |factors| ==> 0.0 < factors[i] <= MaxFactor
  }

  lemma DampedFactorsAppend(factors: seq<real>, factor: real)
    requires DampedFactors(factors) && 0.0 < factor <= MaxFactor
    ensures DampedFactors(factors + [factor])
  {
  }

  /** The node as a pass measures it: a fixed box is back in NONE mode at
      its captured size; any other node is left as it is. */
  function Measured(node: TextNode, layout: TextLayout): TextNode {
    if layout.textAutoResize == NoAutoResize then
      node.(textAutoResize := NoAutoResize, width := layout.width, height := layout.height)
    else node
  }

  /** A productive pass from `node`: the measured text overflows, `factor`
      is the damped ratio for it, lies in (0, 1), and changes the buffer. */
  ghost predicate ShrinksAt(node: TextNode, layout: TextLayout, measure: Measure, factor: real) {
    var observed := Observed(Measured(node, layout), layout, measure);
    && !Fits(observed, layout)
    && factor == ShrinkFactor(observed, layout)
    && 0.0 < factor < 1.0
    && ShrinkOnce(node.buffer, factor).changed
  }

  /** An overflowing pass that cannot shrink: the damped ratio is outside
      (0, 1), or scaling by it leaves every style as it was. */
  ghost predicate CannotShrink(node: TextNode, layout: TextLayout, measure: Measure) {
    var factor := ShrinkFactor(Observed(Measured(node, layout), layout, measure), layout);
    !(0.0 < factor < 1.0) || !ShrinkOnce(node.buffer, factor).changed
  }

  /** Where a productive pass by `factor` leaves `node`. */
  function Step(node: TextNode, layout: TextLayout, measure: Measure, factor: real): TextNode {
    WithBuffer(Measured(node, layout), ShrinkOnce(node.buffer, factor).buffer, measure)
  }

  /** The node after productive passes by each of `rounds` in turn. */
  function After(node: TextNode, layout: TextLayout, measure: Measure, rounds: seq<real>): TextNode
    decreases |rounds|
  {
    if |rounds| == 0 then node
    else Step(After(node, layout, measure, rounds[..|rounds| - 1]), layout, measure, rounds[|rounds| - 1])
  }

  /** Each round was a productive pass from where the ones before it left
      the node. */
  ghost predicate ValidRounds(node: TextNode, layout: TextLayout, measure: Measure, rounds: seq<real>)
    decreases |rounds|
  {
    var last := |rounds| - 1;
    |rounds| == 0 ||
      (ValidRounds(node, layout, measure, rounds[..last])
       && ShrinksAt(After(node, layout, measure, rounds[..last]), layout, measure, rounds[last]))
  }

  lemma AfterAppend(node: TextNode, layout: TextLayout, measure: Measure, rounds: seq<real>, factor: real)
    ensures After(node, layout, measure, rounds + [factor]) ==
      Step(After(node, layout, measure, rounds), layout, measure, factor)
  {
    assert (rounds + [factor])[..|rounds|] == rounds;
  }

  lemma RoundsAppend(node: TextNode, layout: TextLayout, measure: Measure, rounds: seq<real>, factor: real)
    requires ValidRounds(node, layout, measure, rounds)
    requires ShrinksAt(After(node, layout, measure, rounds), layout, measure, factor)
    ensures ValidRounds(node, layout, measure, rounds + [factor])
  {
    assert (rounds + [factor])[..|rounds|] == rounds;
  }

  lemma ValidRoundsLast(node: TextNode, layout: TextLayout, measure: Measure, rounds: seq<real>)
    requires |rounds| > 0 && ValidRounds(node, layout, measure, rounds)
    ensures ValidRounds(node, layout, measure, rounds[..|rounds| - 1])
    ensures ShrinksAt(After(node, layout, measure, rounds[..|rounds| - 1]), layout, measure, rounds[|rounds| - 1])
  {
  }

  /** One productive pass lowers some style, keeps the position, and
      leaves a fixed box in NONE mode at its captured size. */
  lemma StepFacts(node: TextNode, layout: TextLayout, measure: Measure, factor: real)
    requires ShrinksAt(node, layout, measure, factor)
    ensures var n := Step(node, layout, measure, factor);
      && AtMost(n.buffer, node.buffer) && n.buffer != node.buffer
      && n.x == node.x && n.y == node.y
      && (layout.textAutoResize == NoAutoResize ==>
            n.textAutoResize == NoAutoResize && n.width == layout.width && n.height == layout.height)
      && (layout.textAutoResize != NoAutoResize ==> n.textAutoResize == node.textAutoResize)
    ensures 0.0 < factor <= MaxFactor
  {
  }

  /** What the productive passes do to the node: they only lower styles,
      change the buffer as soon as there is one, keep the position, leave
      a fixed box in NONE mode at its captured size, and use damped
      factors. */
  lemma {:induction false} AfterFacts(node: TextNode, layout: TextLayout, measure: Measure, rounds: seq<real>)
    requires ValidRounds(node, layout, measure, rounds)
    ensures var n := After(node, layout, measure, rounds);
      && AtMost(n.buffer, node.buffer)
      && (|rounds| > 0 <==> n.buffer != node.buffer)
      && n.x == node.x && n.y == node.y
      && (layout.textAutoResize == NoAutoResize && |rounds| > 0 ==>
            n.textAutoResize == NoAutoResize && n.width == layout.width && n.height == layout.height)
      && (layout.textAutoResize != NoAutoResize ==> n.textAutoResize == node.textAutoResize)
    ensures DampedFactors(rounds)
    decreases |rounds|
  {
    if |rounds| > 0 {
      var last := |rounds| - 1;
      var prev := After(node, layout, measure, rounds[..last]);
      ValidRoundsLast(node, layout, measure, rounds);
      AfterFacts(node, layout, measure, rounds[..last]);
      StepFacts(prev, layout, measure, rounds[last]);
      AtMostTransitive(Step(prev, layout, measure, rounds[last]).buffer, prev.buffer, node.buffer);
      SplitLast(rounds);
      DampedFactorsAppend(rounds[..last], rounds[last]);
    }
  }

  /** How one pass of the loop ends: the text fits, it overflows but
      cannot shrink further, or it was shrunk by `factor`. */
  datatype Pass = Fitted | Stuck | Shrunk(factor: real)

  /**
   * The body of the fit loop. `measuredNode` is the node once measured (a
   * fixed box is back in NONE mode at its captured size); `next` is the
   * node the following pass starts from.
   */
  method MeasureAndShrink(node: TextNode, layout: TextLayout, measure: Measure)
    returns (pass: Pass, measuredNode: TextNode, next: TextNode)
    ensures measuredNode == Measured(node, layout)
    ensures measuredNode.buffer == node.buffer && measuredNode.x == node.x && measuredNode.y == node.y
    ensures pass.Fitted? <==> Fits(Observed(measuredNode, layout, measure), layout)
    ensures pass.Stuck? ==> CannotShrink(node, layout, measure)
    ensures !pass.Shrunk? ==> next == measuredNode
    ensures pass.Shrunk? ==>
      && ShrinksAt(node, layout, measure, pass.factor)
      && next == Step(node, layout, measure, pass.factor)
      && AtMost(next.buffer, node.buffer) && next.buffer != node.buffer
  {
    var current: Dims;
    measuredNode := node;
    if layout.textAutoResize == NoAutoResize {
      var natural := MeasureNaturalSizeForFixedTextNode(node, layout, measure);
      current, measuredNode := natural.0, natural.1;
    } else {
      current := Dims(node.width, node.height);
    }
    assert measuredNode == Measured(node, layout);
    assert current == Observed(measuredNode, layout, measure);
    next := measuredNode;

    var overflowX := current.width > layout.width + Slack;
    var overflowY := current.height > layout.height + Slack;
    if !(overflowX || overflowY) {
      return Fitted, measuredNode, next;
    }

    var factor := ShrinkFactor(current, layout);
    if !(factor > 0.0 && factor < 1.0) {
      return Stuck, measuredNode, next;
    }

    var shrunk := ShrinkOnce(measuredNode.buffer, factor);
    if !shrunk.changed {
      return Stuck, measuredNode, next;
    }
    next := WithBuffer(measuredNode, shrunk.buffer, measure);
    pass := Shrunk(factor);
  }

  /**
   * The fit loop. `rounds` logs the factor of each productive pass. After
   * the twelfth shrink there is no new measurement: the node is returned
   * as that shrink left it and still counts as overflowing.
   */
  method FitTextNodeToOriginalBounds(node: TextNode, layout: TextLayout, measure: Measure)
    returns (result: FitResult, fitted: TextNode, ghost rounds: seq<real>)
    ensures |rounds| <= MaxIterations
    ensures ValidRounds(node, layout, measure, rounds)
    ensures DampedFactors(rounds)
    ensures result.reduced <==> |rounds| > 0
    ensures result.reduced <==> fitted.buffer != node.buffer
    ensures AtMost(fitted.buffer, node.buffer)
    ensures !result.stillOverflowing ==> Fits(Observed(fitted, layout, measure), layout)
    ensures |rounds| == MaxIterations ==> result.stillOverflowing && fitted == After(node, layout, measure, rounds)
    ensures |rounds| < MaxIterations ==> fitted == Measured(After(node, layout, measure, rounds), layout)
    ensures |rounds| < MaxIterations ==>
      (result.stillOverflowing <==> !Fits(Observed(fitted, layout, measure), layout))
    ensures |rounds| < MaxIterations && result.stillOverflowing ==>
      CannotShrink(After(node, layout, measure, rounds), layout, measure)
    ensures fitted.x == node.x && fitted.y == node.y
    ensures layout.textAutoResize == NoAutoResize ==>
      fitted.textAutoResize == NoAutoResize && fitted.width == layout.width && fitted.height == layout.height
    ensures layout.textAutoResize != NoAutoResize ==> fitted.textAutoResize == node.textAutoResize
  {
    var iteration := 0;
    fitted := node;
    rounds := [];

    while iteration < MaxIterations
      invariant 0 <= iteration <= MaxIterations
      invariant |rounds| == iteration
      invariant fitted == After(node, layout, measure, rounds)
      invariant ValidRounds(node, layout, measure, rounds)
      decreases MaxIterations - iteration
    {
      var pass, measuredNode, next := MeasureAndShrink(fitted, layout, measure);
      if !pass.Shrunk? {
        // Fitted returns at once; Stuck breaks out with the overflow flag set.
        AfterFacts(node, layout, measure, rounds);
        return FitResult(iteration > 0, pass.Stuck?), measuredNode, rounds;
      }
      RoundsAppend(node, layout, measure, rounds, pass.factor);
      AfterAppend(node, layout, measure, rounds, pass.factor);
      fitted := next;
      rounds := rounds + [pass.factor];
      iteration := iteration + 1;
    }

    AfterFacts(node, layout, measure, rounds);
    result := FitResult(iteration > 0, true);
  }
}
