/**
 * The shrinking passes over a buffer: scaleFontSizes (code.js:169-191),
 * scalePixelLineHeights (code.js:227-265) and normalizeMultilineLineHeight
 * (code.js:267-307). Each walks the runs computed once at its start and
 * restyles a whole run or leaves it alone.
 */
module Scaling {
  import opened Runs
  import opened Style

  const MinLineHeight: real := 8.0
  const MaxLineHeightRatio: real := 1.28

  /** A buffer after a pass, and whether the pass restyled any run. */
  datatype Scaled = Scaled(buffer: Buffer, changed: bool)

  /** Font size `a` is `b` or a finite size below it. */
  predicate SizeAtMost(a: FontSize, b: FontSize) {
    a == b || (a.Pt? && b.Pt? && a.size < b.size)
  }

  /** Line height `a` is `b` or a pixel height below it. */
  predicate HeightAtMost(a: LineHeight, b: LineHeight) {
    a == b || (a.Pixels? && b.Pixels? && a.px < b.px)
  }

  /** `b1` is `b0` with some font sizes and pixel line heights lowered. */
  ghost predicate AtMost(b1: Buffer, b0: Buffer) {
    && b1.characters == b0.characters
    && forall k :: 0 <= k < |b0.styles| ==>
         SizeAtMost(b1.styles[k].fontSize, b0.styles[k].fontSize)
         && HeightAtMost(b1.styles[k].lineHeight, b0.styles[k].lineHeight)
  }

  lemma AtMostTransitive(b2: Buffer, b1: Buffer, b0: Buffer)
    requires AtMost(b2, b1) && AtMost(b1, b0)
    ensures AtMost(b2, b0)
    ensures b1 != b0 ==> b2 != b0
  {
    if b1 != b0 {
      assert b1.styles != b0.styles;
      var k :| 0 <= k < |b0.styles| && b1.styles[k] != b0.styles[k];
      assert b2.styles[k] != b0.styles[k];
    }
  }

  /** One run's step of scaleFontSizes: the candidate is
      `max(minFontSize, round2(size * factor))`, applied only when smaller. */
  function ScaleFontSize(v: FontSize, factor: real, minFontSize: real): (r: FontSize)
    ensures SizeAtMost(r, v)
    ensures v.NotFinite? ==> r == v
    ensures r != v ==> r.size == Max(minFontSize, Round2(v.size * factor)) && r.size >= minFontSize
    ensures v.Pt? && Max(minFontSize, Round2(v.size * factor)) < v.size ==> r != v
  {
    match v
    case NotFinite => v
    case Pt(_) =>
      var next := Max(minFontSize, Round2(v.size * factor));
      if next < v.size then Pt(next) else v
  }

  /** One run's step of scalePixelLineHeights: only pixel heights move, to
      `max(8, round2(px * factor))` when that is smaller. */
  function ScaleLineHeight(v: LineHeight, factor: real): (r: LineHeight)
    ensures HeightAtMost(r, v)
    ensures !v.Pixels? ==> r == v
    ensures r != v ==> r.px == Max(MinLineHeight, Round2(v.px * factor)) && r.px >= MinLineHeight
    ensures v.Pixels? && Max(MinLineHeight, Round2(v.px * factor)) < v.px ==> r != v
  {
    match v
    case Pixels(_) =>
      var next := Max(MinLineHeight, Round2(v.px * factor));
      if next < v.px then Pixels(next) else v
    case _ => v
  }

  /** One run's step of normalizeMultilineLineHeight, given the font size at
      the run's first character: a pixel height above
      `round2(fontSize * 1.28)` is set to that cap. */
  function CapLineHeight(v: LineHeight, fontSize: FontSize): (r: LineHeight)
    ensures HeightAtMost(r, v)
    ensures !v.Pixels? || fontSize.NotFinite? || fontSize.size <= 0.0 ==> r == v
    ensures r != v ==> r.px == Round2(fontSize.size * MaxLineHeightRatio)
    ensures v.Pixels? && fontSize.Pt? && fontSize.size > 0.0 ==>
      r.px <= Round2(fontSize.size * MaxLineHeightRatio)
  {
    match v
    case Pixels(current) =>
      if fontSize.NotFinite? || fontSize.size <= 0.0 then v
      else
        var maxDesired := Round2(fontSize.size * MaxLineHeightRatio);
        if current > maxDesired then Pixels(maxDesired) else v
    case _ => v
  }

  /** A 40 px line height over 20 pt text is brought down to 25.6 px. */
  lemma CapExample()
    ensures CapLineHeight(Pixels(40.0), Pt(20.0)) == Pixels(25.6)
  {
    assert 20.0 * MaxLineHeightRatio == 25.6;
    assert (25.6 * 100.0 + 0.5).Floor == 2560;
  }

  /** The shared loop: for each run in order, when `changes(run)` holds,
      restyle its range and note the change. */
  function RestyleRuns<T>(buf: Buffer, runs: seq<Run<T>>, from: nat,
                          changes: Run<T> -> bool, restyle: (Run<T>, CharStyle) -> CharStyle)
    : (r: Scaled)
    requires Tiles(runs, from, |buf.styles|)
    ensures r.buffer.characters == buf.characters
    ensures forall k :: 0 <= k < from && k < |buf.styles| ==> r.buffer.styles[k] == buf.styles[k]
    ensures forall j, k :: 0 <= j < |runs| && runs[j].start <= k < runs[j].end ==>
      r.buffer.styles[k] == (if changes(runs[j]) then restyle(runs[j], buf.styles[k]) else buf.styles[k])
    ensures r.changed <==> exists j :: 0 <= j < |runs| && changes(runs[j])
    decreases |runs|
  {
    if |runs| == 0 then Scaled(buf, false)
    else
      var run := runs[0];
      var b := RestyleRun(buf, run, changes, restyle);
      TilesTail(runs, from, |buf.styles|);
      var rest := RestyleRuns(b, runs[1..], run.end, changes, restyle);
      RestyleStep(buf, runs, changes, restyle, b, rest.buffer, rest.changed);
      Scaled(rest.buffer, changes(run) || rest.changed)
  }

  /** One run's step: restyle its range when `changes(run)` holds. */
  function RestyleRun<T>(buf: Buffer, run: Run<T>,
                         changes: Run<T> -> bool, restyle: (Run<T>, CharStyle) -> CharStyle): (b: Buffer)
    requires run.start <= run.end <= |buf.styles|
    ensures b.characters == buf.characters && |b.styles| == |buf.styles|
    ensures forall k :: 0 <= k < |buf.styles| && (k < run.start || run.end <= k) ==> b.styles[k] == buf.styles[k]
    ensures forall k :: run.start <= k < run.end ==>
      b.styles[k] == (if changes(run) then restyle(run, buf.styles[k]) else buf.styles[k])
  {
    if changes(run) then SetRange(buf, run.start, run.end, s => restyle(run, s)) else buf
  }

  /** The first run restyled into `b`, the others into `after`: every run's
      characters hold what the run asks for, and something changed when
      some run asked for it. */
  lemma RestyleStep<T>(buf: Buffer, runs: seq<Run<T>>,
                       changes: Run<T> -> bool, restyle: (Run<T>, CharStyle) -> CharStyle,
                       b: Buffer, after: Buffer, restChanged: bool)
    requires |runs| > 0 && Tiles(runs, runs[0].start, |buf.styles|)
    requires |b.styles| == |buf.styles| && |after.styles| == |buf.styles|
    requires forall k :: 0 <= k < |buf.styles| && (k < runs[0].start || runs[0].end <= k) ==>
      b.styles[k] == buf.styles[k]
    requires forall k :: runs[0].start <= k < runs[0].end ==>
      b.styles[k] == (if changes(runs[0]) then restyle(runs[0], buf.styles[k]) else buf.styles[k])
    requires forall k :: 0 <= k < runs[0].end ==> after.styles[k] == b.styles[k]
    requires forall j, k :: 0 <= j < |runs[1..]| && runs[1..][j].start <= k < runs[1..][j].end ==>
      after.styles[k] == (if changes(runs[1..][j]) then restyle(runs[1..][j], b.styles[k]) else b.styles[k])
    requires restChanged <==> exists j :: 0 <= j < |runs[1..]| && changes(runs[1..][j])
    ensures forall j, k :: 0 <= j < |runs| && runs[j].start <= k < runs[j].end ==>
      after.styles[k] == (if changes(runs[j]) then restyle(runs[j], buf.styles[k]) else buf.styles[k])
    ensures changes(runs[0]) || restChanged <==> exists j :: 0 <= j < |runs| && changes(runs[j])
  {
    forall j, k | 0 <= j < |runs| && runs[j].start <= k < runs[j].end
      ensures after.styles[k] == (if changes(runs[j]) then restyle(runs[j], buf.styles[k]) else buf.styles[k])
    {
      if j > 0 {
        assert runs[j] == runs[1..][j - 1];
        assert runs[0].end <= runs[j].start;
        assert b.styles[k] == buf.styles[k];
      }
    }
    if restChanged {
      var j :| 0 <= j < |runs[1..]| && changes(runs[1..][j]);
      assert runs[j + 1] == runs[1..][j];
    }
    if exists j :: 0 <= j < |runs| && changes(runs[j]) {
      var j :| 0 <= j < |runs| && changes(runs[j]);
      if j > 0 {
        assert runs[j] == runs[1..][j - 1];
      }
    }
  }

  /** scaleFontSizes: every character's size becomes its run's scaled size,
      which is the character's own size scaled; nothing else moves. */
  function ScaleFontSizes(buf: Buffer, factor: real, minFontSize: real): (r: Scaled)
    ensures r.buffer.characters == buf.characters
    ensures forall k :: 0 <= k < |buf.styles| ==>
      r.buffer.styles[k] == buf.styles[k].(fontSize := ScaleFontSize(buf.styles[k].fontSize, factor, minFontSize))
    ensures r.changed <==> r.buffer != buf
  {
    var runs := FontSizeRuns(buf);
    if |runs| == 0 then Scaled(buf, false)
    else
      var changes := (run: Run<FontSize>) => ScaleFontSize(run.value, factor, minFontSize) != run.value;
      var restyle := (run: Run<FontSize>, s: CharStyle) => s.(fontSize := ScaleFontSize(run.value, factor, minFontSize));
      var r := RestyleRuns(buf, runs, 0, changes, restyle);
      PointwiseFromRuns(buf, r, runs, changes, restyle,
                        (s: CharStyle) => s.fontSize, (s: CharStyle, v: FontSize) => s.(fontSize := v),
                        (v: FontSize) => ScaleFontSize(v, factor, minFontSize));
      r
  }

  /** scalePixelLineHeights: pixel heights are scaled with a floor of 8;
      other units, `Mixed` and font sizes are untouched. */
  function ScalePixelLineHeights(buf: Buffer, factor: real): (r: Scaled)
    ensures r.buffer.characters == buf.characters
    ensures forall k :: 0 <= k < |buf.styles| ==>
      r.buffer.styles[k] == buf.styles[k].(lineHeight := ScaleLineHeight(buf.styles[k].lineHeight, factor))
    ensures r.changed <==> r.buffer != buf
  {
    var runs := LineHeightRuns(buf);
    if |runs| == 0 then Scaled(buf, false)
    else
      var changes := (run: Run<LineHeight>) => ScaleLineHeight(run.value, factor) != run.value;
      var restyle := (run: Run<LineHeight>, s: CharStyle) => s.(lineHeight := ScaleLineHeight(run.value, factor));
      var r := RestyleRuns(buf, runs, 0, changes, restyle);
      PointwiseFromRuns(buf, r, runs, changes, restyle,
                        (s: CharStyle) => s.lineHeight, (s: CharStyle, v: LineHeight) => s.(lineHeight := v),
                        (v: LineHeight) => ScaleLineHeight(v, factor));
      r
  }

  /** scaleFontSizes never grows a value. */
  lemma ScaleFontSizesShrinks(buf: Buffer, factor: real, minFontSize: real)
    ensures AtMost(ScaleFontSizes(buf, factor, minFontSize).buffer, buf)
  {
    var r := ScaleFontSizes(buf, factor, minFontSize).buffer;
    forall k | 0 <= k < |buf.styles|
      ensures SizeAtMost(r.styles[k].fontSize, buf.styles[k].fontSize)
      ensures HeightAtMost(r.styles[k].lineHeight, buf.styles[k].lineHeight)
    {
      assert r.styles[k].fontSize == ScaleFontSize(buf.styles[k].fontSize, factor, minFontSize);
    }
  }

  /** scalePixelLineHeights never grows a value. */
  lemma ScalePixelLineHeightsShrinks(buf: Buffer, factor: real)
    ensures AtMost(ScalePixelLineHeights(buf, factor).buffer, buf)
  {
    var r := ScalePixelLineHeights(buf, factor).buffer;
    forall k | 0 <= k < |buf.styles|
      ensures SizeAtMost(r.styles[k].fontSize, buf.styles[k].fontSize)
      ensures HeightAtMost(r.styles[k].lineHeight, buf.styles[k].lineHeight)
    {
      assert r.styles[k].lineHeight == ScaleLineHeight(buf.styles[k].lineHeight, factor);
    }
  }

  /** A run-wise pass whose effect on each character depends only on that
      character's own style is that per-character map, and it changed
      something exactly when the buffer differs. */
  lemma PointwiseFromRuns<T>(buf: Buffer, r: Scaled, runs: seq<Run<T>>,
                             changes: Run<T> -> bool, restyle: (Run<T>, CharStyle) -> CharStyle,
                             get: CharStyle -> T, put: (CharStyle, T) -> CharStyle, step: T -> T)
    requires Tiles(runs, 0, |buf.styles|)
    requires forall j, k :: 0 <= j < |runs| && runs[j].start <= k < runs[j].end ==>
      get(buf.styles[k]) == runs[j].value
    requires forall run :: changes(run) == (step(run.value) != run.value)
    requires forall run, s :: restyle(run, s) == put(s, step(run.value))
    requires forall s, v :: get(put(s, step(v))) == step(v)
    requires forall s :: put(s, get(s)) == s
    requires r.buffer.characters == buf.characters
    requires forall j, k :: 0 <= j < |runs| && runs[j].start <= k < runs[j].end ==>
      r.buffer.styles[k] == (if changes(runs[j]) then restyle(runs[j], buf.styles[k]) else buf.styles[k])
    requires r.changed <==> exists j :: 0 <= j < |runs| && changes(runs[j])
    ensures forall k :: 0 <= k < |buf.styles| ==> r.buffer.styles[k] == put(buf.styles[k], step(get(buf.styles[k])))
    ensures r.changed <==> r.buffer != buf
  {
    forall k | 0 <= k < |buf.styles|
      ensures r.buffer.styles[k] == put(buf.styles[k], step(get(buf.styles[k])))
    {
      var j := TilesCover(runs, 0, |buf.styles|, k);
    }
    if r.changed {
      var j :| 0 <= j < |runs| && changes(runs[j]);
      var k := runs[j].start;
      assert runs[j].start < runs[j].end;
      assert r.buffer.styles[k] == put(buf.styles[k], step(runs[j].value));
      assert get(buf.styles[k]) == runs[j].value;
      assert step(runs[j].value) != runs[j].value;
      assert get(r.buffer.styles[k]) != get(buf.styles[k]);
    } else {
      forall k | 0 <= k < |buf.styles|
        ensures r.buffer.styles[k] == buf.styles[k]
      {
        var j := TilesCover(runs, 0, |buf.styles|, k);
      }
      assert r.buffer.styles == buf.styles;
    }
  }


  /** normalizeMultilineLineHeight: without a line break nothing happens;
      otherwise each pixel line-height run is capped at 1.28 times the font
      size of its first character. */
  function NormalizeMultilineLineHeight(buf: Buffer): (r: Scaled)
    ensures '\n' !in buf.characters ==> r == Scaled(buf, false)
    ensures r.buffer.characters == buf.characters
    ensures forall k :: 0 <= k < |buf.styles| ==> r.buffer.styles[k].fontSize == buf.styles[k].fontSize
    ensures '\n' in buf.characters ==>
      var runs := LineHeightRuns(buf);
      forall j, k :: 0 <= j < |runs| && runs[j].start <= k < runs[j].end ==>
        r.buffer.styles[k].lineHeight
          == CapLineHeight(buf.styles[k].lineHeight, buf.styles[runs[j].start].fontSize)
    ensures AtMost(r.buffer, buf)
    ensures r.changed <==> r.buffer != buf
  {
    if '\n' !in buf.characters then Scaled(buf, false)
    else
      var runs := LineHeightRuns(buf);
      var startSize := (run: Run<LineHeight>) =>
        if run.start < |buf.styles| then buf.styles[run.start].fontSize else NotFinite;
      var changes := (run: Run<LineHeight>) => CapLineHeight(run.value, startSize(run)) != run.value;
      var restyle := (run: Run<LineHeight>, s: CharStyle) => s.(lineHeight := CapLineHeight(run.value, startSize(run)));
      var r := RestyleRuns(buf, runs, 0, changes, restyle);
      NormalizeFacts(buf, r, runs, changes, restyle, startSize);
      r
  }

  lemma NormalizeFacts(buf: Buffer, r: Scaled, runs: seq<Run<LineHeight>>,
                       changes: Run<LineHeight> -> bool,
                       restyle: (Run<LineHeight>, CharStyle) -> CharStyle,
                       startSize: Run<LineHeight> -> FontSize)
    requires Tiles(runs, 0, |buf.styles|)
    requires forall j, k :: 0 <= j < |runs| && runs[j].start <= k < runs[j].end ==>
      buf.styles[k].lineHeight == runs[j].value
    requires forall j :: 0 <= j < |runs| ==> startSize(runs[j]) == buf.styles[runs[j].start].fontSize
    requires forall run :: changes(run) == (CapLineHeight(run.value, startSize(run)) != run.value)
    requires forall run, s :: restyle(run, s) == s.(lineHeight := CapLineHeight(run.value, startSize(run)))
    requires r.buffer.characters == buf.characters
    requires forall j, k :: 0 <= j < |runs| && runs[j].start <= k < runs[j].end ==>
      r.buffer.styles[k] == (if changes(runs[j]) then restyle(runs[j], buf.styles[k]) else buf.styles[k])
    requires r.changed <==> exists j :: 0 <= j < |runs| && changes(runs[j])
    ensures forall k :: 0 <= k < |buf.styles| ==> r.buffer.styles[k].fontSize == buf.styles[k].fontSize
    ensures forall j, k :: 0 <= j < |runs| && runs[j].start <= k < runs[j].end ==>
      r.buffer.styles[k].lineHeight == CapLineHeight(buf.styles[k].lineHeight, buf.styles[runs[j].start].fontSize)
    ensures AtMost(r.buffer, buf)
    ensures r.changed <==> r.buffer != buf
  {
    forall k | 0 <= k < |buf.styles|
      ensures r.buffer.styles[k].fontSize == buf.styles[k].fontSize
      ensures HeightAtMost(r.buffer.styles[k].lineHeight, buf.styles[k].lineHeight)
    {
      var j := TilesCover(runs, 0, |buf.styles|, k);
    }
    if r.changed {
      var j :| 0 <= j < |runs| && changes(runs[j]);
      assert r.buffer.styles[runs[j].start] != buf.styles[runs[j].start];
    } else {
      forall k | 0 <= k < |buf.styles|
        ensures r.buffer.styles[k] == buf.styles[k]
      {
        var j := TilesCover(runs, 0, |buf.styles|, k);
      }
      assert r.buffer.styles == buf.styles;
    }
  }
}
