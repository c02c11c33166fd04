/**
 * Font fallback resolution: the family-to-styles index of installed fonts
 * (code.js:83-94) and the per-language choice of a display font
 * (code.js:96-114).
 */
module Fonts {
  import opened Wrappers
  import opened Seqs

  datatype FontName = FontName(family: string, style: string)

  /** A family's styles in insertion order, as the JavaScript `Set` keeps them. */
  type FontIndex = map<string, seq<string>>

  const StylePreferences: seq<string> :=
    ["Black", "ExtraBold", "Bold", "SemiBold", "DemiBold", "Medium", "Regular"]

  const LatinDisplay: seq<string> := ["Bungee", "Anton", "Archivo Black", "Arial Black", "Impact"]

  const LanguageFallbacks: map<string, seq<string>> := map[
    "Japanese" := ["M PLUS Rounded 1c", "Noto Sans JP", "Hiragino Kaku Gothic ProN", "Yu Gothic", "Meiryo"],
    "Korean" := ["Noto Sans KR", "Apple SD Gothic Neo", "Malgun Gothic"],
    "German" := LatinDisplay,
    "French" := LatinDisplay,
    "Spanish (Latin America)" := LatinDisplay,
    "Portuguese (Brazil)" := LatinDisplay,
    "Italian" := LatinDisplay,
    "Spanish (Spain)" := LatinDisplay,
    "Turkish" := LatinDisplay,
    "Thai" := ["Noto Sans Thai", "Sarabun", "Prompt", "Thonburi"],
    "Indonesian" := LatinDisplay,
    "Vietnamese" := LatinDisplay,
    "Polish" := LatinDisplay,
    "Arabic" := ["Cairo", "Tajawal", "Noto Kufi Arabic", "Noto Sans Arabic", "Geeza Pro"],
    "Russian" := ["Russo One", "Exo 2", "Roboto Condensed", "Noto Sans", "Arial", "Tahoma"]
  ]

  /** One step of the indexing loop: create the family's entry if needed and
      add the style unless it is already there. */
  function AddFont(index: FontIndex, font: FontName): FontIndex {
    if font.family !in index then index[font.family := [font.style]]
    else if font.style in index[font.family] then index
    else index[font.family := index[font.family] + [font.style]]
  }

  /** `index` holds exactly the families of `fonts`. */
  ghost predicate FamiliesOf(index: FontIndex, fonts: seq<FontName>) {
    forall f :: f in index <==> exists i :: 0 <= i < |fonts| && fonts[i].family == f
  }

  /** Each family's styles are exactly the installed ones, none twice. */
  ghost predicate StylesOf(index: FontIndex, fonts: seq<FontName>) {
    && (forall f, s :: f in index ==> (s in index[f] <==> FontName(f, s) in fonts))
    && (forall f :: f in index ==> |index[f]| > 0 && Distinct(index[f]))
  }

  /** The first font of `family` in `fonts` has `style`. */
  ghost predicate FirstFontOf(fonts: seq<FontName>, family: string, style: string) {
    exists i ::
      0 <= i < |fonts| && fonts[i] == FontName(family, style) && forall j :: 0 <= j < i ==> fonts[j].family != family
  }

  /** Each family's first style is that of its first installed font. */
  ghost predicate FirstStyleOf(index: FontIndex, fonts: seq<FontName>) {
    forall f :: f in index && |index[f]| > 0 ==> FirstFontOf(fonts, f, index[f][0])
  }

  lemma AddFontFamilies(before: FontIndex, prefix: seq<FontName>, last: FontName)
    requires FamiliesOf(before, prefix)
    ensures FamiliesOf(AddFont(before, last), prefix + [last])
  {
    var fonts := prefix + [last];
    forall f | exists i :: 0 <= i < |fonts| && fonts[i].family == f
      ensures f in AddFont(before, last)
    {
      var i :| 0 <= i < |fonts| && fonts[i].family == f;
      if i < |prefix| {
        assert prefix[i].family == f;
      }
    }
    forall f | f in AddFont(before, last)
      ensures exists i :: 0 <= i < |fonts| && fonts[i].family == f
    {
      if f == last.family {
        assert fonts[|prefix|].family == f;
      } else {
        var i :| 0 <= i < |prefix| && prefix[i].family == f;
        assert fonts[i].family == f;
      }
    }
  }

  lemma AddFontStyles(before: FontIndex, prefix: seq<FontName>, last: FontName)
    requires FamiliesOf(before, prefix) && StylesOf(before, prefix)
    ensures StylesOf(AddFont(before, last), prefix + [last])
  {
    var fonts := prefix + [last];
    var after := AddFont(before, last);
    forall f, s | f in after
      ensures s in after[f] <==> FontName(f, s) in fonts
    {
      if f != last.family {
        assert f in before;
        assert FontName(f, s) in fonts <==> FontName(f, s) in prefix;
      }
    }
    forall f | f in after
      ensures |after[f]| > 0 && Distinct(after[f])
    {
      if f == last.family && last.family in before && last.style !in before[f] {
        DistinctAppend(before[f], last.style);
      }
    }
  }

  lemma AddFontFirstStyle(before: FontIndex, prefix: seq<FontName>, last: FontName)
    requires FamiliesOf(before, prefix) && StylesOf(before, prefix) && FirstStyleOf(before, prefix)
    ensures FirstStyleOf(AddFont(before, last), prefix + [last])
  {
    var fonts := prefix + [last];
    var after := AddFont(before, last);
    forall f | f in after && |after[f]| > 0
      ensures FirstFontOf(fonts, f, after[f][0])
    {
      if f in before {
        assert after[f][0] == before[f][0];
        assert FirstFontOf(prefix, f, before[f][0]);
        var i :| 0 <= i < |prefix| && prefix[i] == FontName(f, before[f][0])
                 && forall j :: 0 <= j < i ==> prefix[j].family != f;
        assert fonts[i] == prefix[i];
        assert forall j :: 0 <= j < i ==> fonts[j] == prefix[j];
      } else {
        assert f == last.family && after[f] == [last.style];
        assert fonts[|prefix|] == last;
        forall j | 0 <= j < |prefix|
          ensures fonts[j].family != f
        {
          assert fonts[j] == prefix[j];
        }
      }
    }
  }

  /** buildAvailableFontIndex. */
  function BuildAvailableFontIndex(fonts: seq<FontName>): (index: FontIndex)
    ensures FamiliesOf(index, fonts)
    ensures StylesOf(index, fonts)
    ensures FirstStyleOf(index, fonts)
    decreases |fonts|
  {
    if |fonts| == 0 then map[]
    else
      var prefix := fonts[..|fonts| - 1];
      var last := fonts[|fonts| - 1];
      var before := BuildAvailableFontIndex(prefix);
      assert fonts == prefix + [last];
      AddFontFamilies(before, prefix, last);
      AddFontStyles(before, prefix, last);
      AddFontFirstStyle(before, prefix, last);
      AddFont(before, last)
  }

  /** The family has an entry with at least one style. */
  predicate Installed(index: FontIndex, family: string) {
    family in index && |index[family]| > 0
  }

  /** `x` is the first of `prefs` that `styles` has. */
  ghost predicate FirstOf(prefs: seq<string>, styles: seq<string>, x: string) {
    exists m ::
      0 <= m < |prefs| && prefs[m] == x && x in styles && forall k :: 0 <= k < m ==> prefs[k] !in styles
  }

  /** The first of `prefs` that `styles` has. */
  function FirstPreferred(prefs: seq<string>, styles: seq<string>): (r: Option<string>)
    ensures r.None? <==> forall m :: 0 <= m < |prefs| ==> prefs[m] !in styles
    ensures r.Some? ==> FirstOf(prefs, styles, r.value)
    decreases |prefs|
  {
    if |prefs| == 0 then None
    else if prefs[0] in styles then Some(prefs[0])
    else
      var r := FirstPreferred(prefs[1..], styles);
      assert forall m :: 1 <= m < |prefs| ==> prefs[m] == prefs[1..][m - 1];
      assert r.Some? ==> FirstOf(prefs, styles, r.value) by {
        if r.Some? {
          var m :| 0 <= m < |prefs[1..]| && prefs[1..][m] == r.value && r.value in styles
                   && forall k :: 0 <= k < m ==> prefs[1..][k] !in styles;
          assert prefs[m + 1] == r.value;
        }
      }
      r
  }

  /** The style taken from an installed family: the first preferred style it
      has, else its first style. */
  function ChooseStyle(styles: seq<string>): (style: string)
    requires |styles| > 0
    ensures (forall m :: 0 <= m < |StylePreferences| ==> StylePreferences[m] !in styles) ==> style == styles[0]
    ensures (exists m :: 0 <= m < |StylePreferences| && StylePreferences[m] in styles) ==>
      FirstOf(StylePreferences, styles, style)
  {
    match FirstPreferred(StylePreferences, styles)
    case Some(preferredStyle) => preferredStyle
    case None => styles[0]
  }

  /** The loop over a language's families: the first installed one, in the
      style `ChooseStyle` picks. */
  function ResolveAmong(families: seq<string>, index: FontIndex): (r: Option<FontName>)
    ensures r.None? <==> forall i :: 0 <= i < |families| ==> !Installed(index, families[i])
    ensures r.Some? ==> Installed(index, r.value.family)
    ensures r.Some? ==> r.value.style == ChooseStyle(index[r.value.family])
    ensures r.Some? ==> FirstInstalled(families, index, r.value.family)
    decreases |families|
  {
    if |families| == 0 then None
    else
      var family := families[0];
      assert forall i :: 1 <= i < |families| ==> families[i] == families[1..][i - 1];
      if family !in index then ResolveAmong(families[1..], index)
      else
        match FirstPreferred(StylePreferences, index[family])
        case Some(preferredStyle) => Some(FontName(family, preferredStyle))
        case None =>
          if |index[family]| > 0 then Some(FontName(family, index[family][0]))
          else ResolveAmong(families[1..], index)
  }

  /** `family` is the first of `families` that is installed. */
  ghost predicate FirstInstalled(families: seq<string>, index: FontIndex, family: string) {
    exists i :: 0 <= i < |families| && families[i] == family && Installed(index, family)
      && forall j :: 0 <= j < i ==> !Installed(index, families[j])
  }

  /** `LANGUAGE_BUNGEE_FALLBACKS[language] || []`. */
  function Fallbacks(language: string): seq<string> {
    if language in LanguageFallbacks then LanguageFallbacks[language] else []
  }

  /** resolveLanguageFallbackFont. */
  function ResolveLanguageFallbackFont(language: string, index: FontIndex): (r: Option<FontName>)
    ensures language !in LanguageFallbacks ==> r.None?
    ensures r.None? <==> forall i :: 0 <= i < |Fallbacks(language)| ==> !Installed(index, Fallbacks(language)[i])
    ensures r.Some? ==> Installed(index, r.value.family)
    ensures r.Some? ==> r.value.style == ChooseStyle(index[r.value.family])
    ensures r.Some? ==> FirstInstalled(Fallbacks(language), index, r.value.family)
  {
    ResolveAmong(Fallbacks(language), index)
  }

  /** Against an index of the installed fonts, the chosen font is one of them. */
  lemma ResolvedFontIsInstalled(language: string, fonts: seq<FontName>)
    ensures var r := ResolveLanguageFallbackFont(language, BuildAvailableFontIndex(fonts));
      r.Some? ==> r.value in fonts
  {
  }
}
