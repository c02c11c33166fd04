/**
 * The text buffer the engine works on, standing for a Figma text node's
 * characters and per-character font size and line height, and the two run
 * views of it (code.js:148-167, 193-225).
 */
module Style {
  import opened Runs

  /** A font size as `Number` reads it. `NotFinite` stands for NaN, the
      value of an unreadable size: it is never `===` to anything. */
  datatype FontSize = Pt(size: real) | NotFinite

  /** Figma's `LineHeight`, plus the `figma.mixed` sentinel. */
  datatype LineHeight = Pixels(px: real) | Percent(pct: real) | Auto | Mixed

  datatype CharStyle = CharStyle(fontSize: FontSize, lineHeight: LineHeight)

  datatype TextBuffer = TextBuffer(characters: string, styles: seq<CharStyle>)

  /** One style record per character. */
  type Buffer = b: TextBuffer | |b.characters| == |b.styles| witness TextBuffer("", [])

  function Max(a: real, b: real): (r: real)
    ensures r >= a && r >= b && (r == a || r == b)
  {
    if a >= b then a else b
  }

  /** `Math.round(x * 100) / 100` on exact reals: `Math.round` is
      `floor(x + 0.5)`. */
  function Round2(x: real): real {
    ((x * 100.0 + 0.5).Floor as real) / 100.0
  }

  /** `size !== runSize` negated: numbers compare by value, NaN never equals. */
  predicate SameFontSize(a: FontSize, b: FontSize)
    ensures SameFontSize(a, b) <==> a.Pt? && a == b
  {
    a.Pt? && b.Pt? && a.size == b.size
  }

  /** lineHeightsEqual. The identity test `a === b` comes first, so
      `figma.mixed` equals itself; the unit-and-value test makes the rest
      structural. */
  function LineHeightsEqual(a: LineHeight, b: LineHeight): (r: bool)
    ensures r <==> a == b
  {
    if a == b then true
    else if a.Mixed? || b.Mixed? then false
    else match (a, b)
      case (Pixels(x), Pixels(y)) => x == y
      case (Percent(x), Percent(y)) => x == y
      case (Auto, Auto) => true
      case _ => false
  }

  function FontSizes(buf: Buffer): (sizes: seq<FontSize>)
    ensures |sizes| == |buf.styles|
    ensures forall k :: 0 <= k < |sizes| ==> sizes[k] == buf.styles[k].fontSize
  {
    seq(|buf.styles|, k requires 0 <= k < |buf.styles| => buf.styles[k].fontSize)
  }

  function LineHeights(buf: Buffer): (heights: seq<LineHeight>)
    ensures |heights| == |buf.styles|
    ensures forall k :: 0 <= k < |heights| ==> heights[k] == buf.styles[k].lineHeight
  {
    seq(|buf.styles|, k requires 0 <= k < |buf.styles| => buf.styles[k].lineHeight)
  }

  /** getFontSizeRuns. */
  function FontSizeRuns(buf: Buffer): (runs: seq<Run<FontSize>>)
    ensures |runs| == 0 <==> |buf.characters| == 0
    ensures Tiles(runs, 0, |buf.characters|)
    ensures forall j, k :: 0 <= j < |runs| && runs[j].start <= k < runs[j].end ==>
      buf.styles[k].fontSize == runs[j].value
    ensures forall j, k :: 0 <= j < |runs| && runs[j].start < k < runs[j].end ==>
      SameFontSize(buf.styles[k].fontSize, runs[j].value)
    ensures forall j :: 0 <= j < |runs| - 1 ==>
      !SameFontSize(buf.styles[runs[j + 1].start].fontSize, runs[j].value)
  {
    ScanRuns(FontSizes(buf), SameFontSize)
  }

  /** A size that does not compare equal to itself forms a run of its own. */
  lemma NotFiniteRunIsSingle(buf: Buffer, j: nat)
    requires j < |FontSizeRuns(buf)| && FontSizeRuns(buf)[j].value == NotFinite
    ensures FontSizeRuns(buf)[j].end == FontSizeRuns(buf)[j].start + 1
  {
    var runs := FontSizeRuns(buf);
    var next := runs[j].start + 1;
    assert next < runs[j].end ==> SameFontSize(buf.styles[next].fontSize, runs[j].value);
  }

  /** getLineHeightRuns. */
  function LineHeightRuns(buf: Buffer): (runs: seq<Run<LineHeight>>)
    ensures |runs| == 0 <==> |buf.characters| == 0
    ensures Tiles(runs, 0, |buf.characters|)
    ensures forall j, k :: 0 <= j < |runs| && runs[j].start <= k < runs[j].end ==>
      buf.styles[k].lineHeight == runs[j].value
    ensures forall j :: 0 <= j < |runs| - 1 ==> runs[j + 1].value != runs[j].value
  {
    ScanRuns(LineHeights(buf), LineHeightsEqual)
  }

  /** The host's `setRangeFontSize` / `setRangeLineHeight`: restyle the
      characters in `[start, end)` and no others. */
  function SetRange(buf: Buffer, start: nat, end: nat, restyle: CharStyle -> CharStyle): (r: Buffer)
    requires start <= end <= |buf.styles|
    ensures r.characters == buf.characters
    ensures forall k :: 0 <= k < |buf.styles| && (k < start || end <= k) ==> r.styles[k] == buf.styles[k]
    ensures forall k :: start <= k < end ==> r.styles[k] == restyle(buf.styles[k])
  {
    var middle := seq(end - start, i requires 0 <= i < end - start => restyle(buf.styles[start + i]));
    TextBuffer(buf.characters, buf.styles[..start] + middle + buf.styles[end..])
  }
}
