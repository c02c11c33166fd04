/**
 * The small pure steps around each exported frame: which text a node ends
 * up with (code.js:589-603), the exported file name (code.js:652-654) and
 * the cleaned language list (code.js:670-673).
 */
module Export {
  import opened Wrappers
  import opened Text
  import opened Tokens
  import opened Seqs

  /** The warnings the final-text choice can raise. */
  datatype Warning = EmptyTranslation | PreservedTokens(tokens: seq<string>)

  datatype FinalText = FinalText(text: string, warning: Option<Warning>)

  /** `!text || !text.trim()`. */
  predicate IsBlank(text: string)
    ensures IsBlank(text) <==> AllSpace(text)
  {
    |text| == 0 || |Trim(text)| == 0
  }

  /** The enforced translation, unless it is blank: then the source text is
      kept and a warning raised. A non-blank translation that needed tokens
      put back raises a warning naming them. */
  function ChooseFinalText(sourceText: string, enforced: Enforced): (r: FinalText)
    ensures AllSpace(enforced.text) ==> r.text == sourceText && r.warning == Some(EmptyTranslation)
    ensures !AllSpace(enforced.text) ==> r.text == enforced.text
    ensures !AllSpace(enforced.text) ==> (r.warning.Some? <==> |enforced.addedTokens| > 0)
    ensures !AllSpace(enforced.text) && |enforced.addedTokens| > 0 ==>
      r.warning == Some(PreservedTokens(enforced.addedTokens))
    ensures r.warning.Some? && r.warning.value.PreservedTokens? ==> r.warning.value.tokens == enforced.addedTokens
  {
    if IsBlank(enforced.text) then FinalText(sourceText, Some(EmptyTranslation))
    else if |enforced.addedTokens| > 0 then FinalText(enforced.text, Some(PreservedTokens(enforced.addedTokens)))
    else FinalText(enforced.text, None)
  }

  /** Whichever branch is taken, every numeric token of the source is in the
      text the node is given, up to whitespace and case. */
  lemma FinalTextKeepsEveryToken(sourceText: string, translatedText: string, t: string)
    requires t in ExtractNumericTokens(sourceText)
    ensures TranslationHasToken(ChooseFinalText(sourceText, EnforceNumericTokens(sourceText, translatedText)).text, t)
  {
    var enforced := EnforceNumericTokens(sourceText, translatedText);
    if AllSpace(enforced.text) {
      var k :| 0 <= k < |ExtractNumericTokens(sourceText)| && ExtractNumericTokens(sourceText)[k] == t;
      NormalizeKeepsSubstring(t, sourceText);
    } else {
      EnforcedTextHasEveryToken(sourceText, translatedText);
    }
  }

  /** A node is left blank only when its source text was blank. */
  lemma FinalTextBlankOnlyIfSourceBlank(sourceText: string, enforced: Enforced)
    requires !AllSpace(sourceText)
    ensures !AllSpace(ChooseFinalText(sourceText, enforced).text)
  {
  }

  /** The characters `\ / : * ? " < > |` that the file name may not hold. */
  predicate IsForbiddenFileChar(c: char) {
    c in "\\/:*?\"<>|"
  }

  ghost predicate NoForbidden(s: string) {
    forall k :: 0 <= k < |s| ==> !IsForbiddenFileChar(s[k])
  }

  /** Fit for a file name: no forbidden character and no whitespace. */
  ghost predicate CleanFileName(s: string) {
    NoForbidden(s) && SpaceFree(s)
  }

  /** `.replace(/[\\/:*?"<>|]/g, "_")`. */
  function ReplaceForbidden(s: string): (r: string)
    ensures |r| == |s|
    ensures forall k :: 0 <= k < |s| && IsForbiddenFileChar(s[k]) ==> r[k] == '_'
    ensures forall k :: 0 <= k < |s| && !IsForbiddenFileChar(s[k]) ==> r[k] == s[k]
  {
    if |s| == 0 then ""
    else [if IsForbiddenFileChar(s[0]) then '_' else s[0]] + ReplaceForbidden(s[1..])
  }

  lemma SuffixNoForbidden(s: string, n: nat)
    requires n <= |s|
    ensures NoForbidden(s) ==> NoForbidden(s[n..])
  {
    if NoForbidden(s) {
      forall k | 0 <= k < |s| - n
        ensures !IsForbiddenFileChar(s[n..][k])
      {
        assert s[n..][k] == s[n + k];
      }
    }
  }

  /** `.replace(/\s+/g, "_")`: each maximal run of whitespace becomes one
      underscore. */
  function CollapseSpaces(s: string): (r: string)
    ensures |r| <= |s|
    ensures SpaceFree(r)
    ensures NoForbidden(s) ==> NoForbidden(r)
    ensures SpaceFree(s) ==> r == s
    decreases |s|
  {
    if |s| == 0 then ""
    else if IsSpace(s[0]) then
      var rest := TrimStart(s);
      assert |rest| < |s|;
      SuffixNoForbidden(s, |s| - |rest|);
      ['_'] + CollapseSpaces(rest)
    else
      SuffixNoForbidden(s, 1);
      [s[0]] + CollapseSpaces(s[1..])
  }

  /** Each run of whitespace is replaced where it stands: a space-free
      prefix is kept, the run becomes one underscore, and the rest is
      collapsed on its own. */
  lemma {:induction false} CollapseSpacesSplice(a: string, w: string, b: string)
    requires SpaceFree(a)
    requires |w| > 0 && AllSpace(w)
    requires |b| == 0 || !IsSpace(b[0])
    ensures CollapseSpaces(a + w + b) == a + "_" + CollapseSpaces(b)
    decreases |a|
  {
    if |a| == 0 {
      assert a + w + b == w + b;
      CollapseSpacesRun(w, b);
    } else {
      assert SpaceFree(a[1..]) by {
        assert forall k :: 0 <= k < |a| - 1 ==> a[1..][k] == a[k + 1];
      }
      CollapseSpacesSplice(a[1..], w, b);
      CollapseSpacesKeepsHead(a, w + b);
      HeadOfConcat3(a, w, b);
      HeadOfConcat3(a, "_", CollapseSpaces(b));
    }
  }

  /** A run of whitespace at the front becomes one underscore. */
  lemma CollapseSpacesRun(w: string, b: string)
    requires |w| > 0 && AllSpace(w)
    requires |b| == 0 || !IsSpace(b[0])
    ensures CollapseSpaces(w + b) == "_" + CollapseSpaces(b)
  {
    TrimStartSpaces(w, b);
    assert (w + b)[0] == w[0];
  }

  /** A non-space at the front is kept. */
  lemma CollapseSpacesKeepsHead(a: string, b: string)
    requires |a| > 0 && !IsSpace(a[0])
    ensures CollapseSpaces(a + b) == [a[0]] + CollapseSpaces(a[1..] + b)
  {
    assert (a + b)[0] == a[0] && (a + b)[1..] == a[1..] + b;
  }

  /** The replacement works character by character. */
  lemma ReplaceForbiddenConcat(a: string, b: string)
    ensures ReplaceForbidden(a + b) == ReplaceForbidden(a) + ReplaceForbidden(b)
  {
    var r, ra, rb := ReplaceForbidden(a + b), ReplaceForbidden(a), ReplaceForbidden(b);
    assert forall k :: 0 <= k < |a| ==> (a + b)[k] == a[k];
    assert forall k :: |a| <= k < |a + b| ==> (a + b)[k] == b[k - |a|];
    assert forall k :: 0 <= k < |r| ==> r[k] == (ra + rb)[k];
  }

  /** The two replacements, in the source's order. */
  function SanitizeFileName(s: string): (r: string)
    ensures CleanFileName(r)
    ensures CleanFileName(s) ==> r == s
  {
    var replaced := ReplaceForbidden(s);
    assert NoForbidden(replaced);
    assert NoForbidden(s) ==> replaced == s;
    CollapseSpaces(replaced)
  }

  /** Sanitising a sanitised name changes nothing. */
  lemma SanitizeIsIdempotent(s: string)
    ensures SanitizeFileName(SanitizeFileName(s)) == SanitizeFileName(s)
  {
  }

  /** A run of whitespace inside a name becomes one underscore; the clean
      part before it is kept and the part after it is sanitised alone. */
  lemma SanitizeSplice(a: string, w: string, b: string)
    requires CleanFileName(a)
    requires |w| > 0 && AllSpace(w)
    requires |b| == 0 || !IsSpace(b[0])
    ensures SanitizeFileName(a + w + b) == a + "_" + SanitizeFileName(b)
  {
    ReplaceForbiddenConcat(a + w, b);
    ReplaceForbiddenConcat(a, w);
    assert ReplaceForbidden(a) == a;
    assert ReplaceForbidden(w) == w;
    var rb := ReplaceForbidden(b);
    assert |rb| == 0 || !IsSpace(rb[0]);
    CollapseSpacesSplice(a, w, rb);
  }

  /** A space-free prefix passes through the collapse untouched. */
  lemma {:induction false} CollapseSpacesPrefix(p: string, x: string)
    requires SpaceFree(p)
    ensures CollapseSpaces(p + x) == p + CollapseSpaces(x)
    decreases |p|
  {
    if |p| == 0 {
      assert p + x == x;
    } else {
      assert SpaceFree(p[1..]) by {
        assert forall k :: 0 <= k < |p| - 1 ==> p[1..][k] == p[k + 1];
      }
      calc {
        CollapseSpaces(p + x);
        { CollapseSpacesKeepsHead(p, x); }
        [p[0]] + CollapseSpaces(p[1..] + x);
        { CollapseSpacesPrefix(p[1..], x); }
        [p[0]] + (p[1..] + CollapseSpaces(x));
        { TailOfConcat(p, CollapseSpaces(x)); SplitFirst(p + CollapseSpaces(x)); }
        p + CollapseSpaces(x);
      }
    }
  }

  /** A forbidden character inside a name becomes one underscore; the clean
      part before it is kept and the part after it is sanitised alone. */
  lemma SanitizeForbidden(a: string, c: char, b: string)
    requires CleanFileName(a)
    requires IsForbiddenFileChar(c)
    ensures SanitizeFileName(a + [c] + b) == a + "_" + SanitizeFileName(b)
  {
    ReplaceForbiddenConcat(a + [c], b);
    ReplaceForbiddenConcat(a, [c]);
    assert ReplaceForbidden(a) == a;
    assert ReplaceForbidden([c]) == "_";
    CollapseSpacesPrefix(a + "_", ReplaceForbidden(b));
  }

  /** `${frame.name}__${targetLanguage}.png`, sanitised. */
  function ExportFileName(frameName: string, language: string): (r: string)
    ensures CleanFileName(r)
    ensures CleanFileName(frameName) && CleanFileName(language) ==> r == frameName + "__" + language + ".png"
  {
    var raw := frameName + "__" + language + ".png";
    assert CleanFileName(frameName) && CleanFileName(language) ==> CleanFileName(raw);
    SanitizeFileName(raw)
  }

  /** A frame name with a run of whitespace after a clean prefix gets one
      underscore in its place in the file name. */
  lemma ExportFileNameSplice(a: string, w: string, b: string, language: string)
    requires CleanFileName(a)
    requires |w| > 0 && AllSpace(w)
    requires |b| == 0 || !IsSpace(b[0])
    ensures ExportFileName(a + w + b, language) == a + "_" + ExportFileName(b, language)
  {
    var tail := b + "__" + language + ".png";
    assert a + w + b + "__" + language + ".png" == a + w + tail;
    assert tail[0] == if |b| == 0 then '_' else b[0];
    SanitizeSplice(a, w, tail);
  }

  /** A frame name with a forbidden character after a clean prefix gets an
      underscore in its place in the file name. */
  lemma ExportFileNameForbidden(a: string, c: char, b: string, language: string)
    requires CleanFileName(a)
    requires IsForbiddenFileChar(c)
    ensures ExportFileName(a + [c] + b, language) == a + "_" + ExportFileName(b, language)
  {
    var tail := b + "__" + language + ".png";
    assert a + [c] + b + "__" + language + ".png" == a + [c] + tail;
    SanitizeForbidden(a, c, tail);
  }

  /** With a clean frame name only the language part is rewritten. */
  lemma ExportFileNameCleanFrame(frameName: string, language: string)
    requires CleanFileName(frameName)
    ensures ExportFileName(frameName, language) == frameName + "__" + SanitizeFileName(language + ".png")
  {
    var head := frameName + "__";
    assert CleanFileName(head);
    assert frameName + "__" + language + ".png" == head + (language + ".png");
    ReplaceForbiddenConcat(head, language + ".png");
    assert ReplaceForbidden(head) == head;
    CollapseSpacesPrefix(head, ReplaceForbidden(language + ".png"));
  }

  /** Some entry of `languages` trims to `x`. */
  ghost predicate TrimsTo(languages: seq<string>, x: string) {
    exists i :: 0 <= i < |languages| && Trim(languages[i]) == x
  }

  ghost predicate AllBlank(languages: seq<string>) {
    forall i :: 0 <= i < |languages| ==> |Trim(languages[i])| == 0
  }

  lemma TrimsToPrepend(languages: seq<string>)
    requires |languages| > 0
    ensures forall x :: TrimsTo(languages, x) <==> Trim(languages[0]) == x || TrimsTo(languages[1..], x)
    ensures AllBlank(languages) <==> |Trim(languages[0])| == 0 && AllBlank(languages[1..])
  {
    forall x
      ensures TrimsTo(languages, x) <==> Trim(languages[0]) == x || TrimsTo(languages[1..], x)
    {
      if TrimsTo(languages, x) && Trim(languages[0]) != x {
        var i :| 0 <= i < |languages| && Trim(languages[i]) == x;
        assert languages[1..][i - 1] == languages[i];
      }
      if TrimsTo(languages[1..], x) {
        var i :| 0 <= i < |languages[1..]| && Trim(languages[1..][i]) == x;
        assert languages[i + 1] == languages[1..][i];
      }
    }
    if |Trim(languages[0])| == 0 && AllBlank(languages[1..]) {
      forall i | 1 <= i < |languages|
        ensures |Trim(languages[i])| == 0
      {
        assert languages[i] == languages[1..][i - 1];
      }
    }
  }

  /** The result of one step of the map-and-filter: the head's trim is kept
      when it is non-empty. */
  function KeepTrimmed(head: string, rest: seq<string>): seq<string> {
    var trimmed := Trim(head);
    if |trimmed| > 0 then [trimmed] + rest else rest
  }

  lemma KeepTrimmedAppend(head: string, x: seq<string>, y: seq<string>)
    ensures KeepTrimmed(head, x + y) == KeepTrimmed(head, x) + y
  {
  }

  lemma KeepTrimmedNames(head: string, rest: seq<string>)
    requires forall k :: 0 <= k < |rest| ==> IsTrimmedWord(rest[k])
    ensures forall k :: 0 <= k < |KeepTrimmed(head, rest)| ==> IsTrimmedWord(KeepTrimmed(head, rest)[k])
  {
    var r := KeepTrimmed(head, rest);
    forall k | 0 <= k < |r|
      ensures IsTrimmedWord(r[k])
    {
      if |Trim(head)| > 0 && k > 0 {
        assert r[k] == rest[k - 1];
      }
    }
  }

  lemma KeepTrimmedMembers(languages: seq<string>, rest: seq<string>)
    requires |languages| > 0
    requires forall x :: x in rest <==> |x| > 0 && TrimsTo(languages[1..], x)
    ensures forall x :: x in KeepTrimmed(languages[0], rest) <==> |x| > 0 && TrimsTo(languages, x)
  {
    TrimsToPrepend(languages);
    var r := KeepTrimmed(languages[0], rest);
    forall x
      ensures x in r <==> |x| > 0 && TrimsTo(languages, x)
    {
      assert x in r <==> (|Trim(languages[0])| > 0 && x == Trim(languages[0])) || x in rest;
    }
  }

  lemma KeepTrimmedBlank(languages: seq<string>, rest: seq<string>)
    requires |languages| > 0
    requires |rest| == 0 <==> AllBlank(languages[1..])
    ensures |KeepTrimmed(languages[0], rest)| == 0 <==> AllBlank(languages)
  {
    TrimsToPrepend(languages);
  }

  /** `.map(lang => String(lang).trim()).filter(Boolean)`. */
  function NormalizeLanguages(languages: seq<string>): (r: seq<string>)
    ensures |r| <= |languages|
    ensures forall k :: 0 <= k < |r| ==> IsTrimmedWord(r[k])
    ensures forall x :: x in r <==> |x| > 0 && TrimsTo(languages, x)
    ensures |r| == 0 <==> AllBlank(languages)
  {
    if |languages| == 0 then []
    else
      var rest := NormalizeLanguages(languages[1..]);
      KeepTrimmedNames(languages[0], rest);
      KeepTrimmedMembers(languages, rest);
      KeepTrimmedBlank(languages, rest);
      KeepTrimmed(languages[0], rest)
  }

  /** One step of the map-and-filter. */
  lemma NormalizeLanguagesStep(languages: seq<string>)
    requires |languages| > 0
    ensures NormalizeLanguages(languages) == KeepTrimmed(languages[0], NormalizeLanguages(languages[1..]))
  {
  }

  /** A single entry becomes its trim, or nothing when that is empty. */
  lemma NormalizeLanguagesSingle(x: string)
    ensures NormalizeLanguages([x]) == if |Trim(x)| > 0 then [Trim(x)] else []
  {
    NormalizeLanguagesStep([x]);
    assert [x][1..] == [];
  }

  /** The map-and-filter works entry by entry: the list can be cut anywhere. */
  lemma {:induction false} NormalizeLanguagesConcat(a: seq<string>, b: seq<string>)
    ensures NormalizeLanguages(a + b) == NormalizeLanguages(a) + NormalizeLanguages(b)
    decreases |a|
  {
    if |a| == 0 {
      assert a + b == b;
    } else {
      TailOfConcat(a, b);
      NormalizeLanguagesStep(a + b);
      NormalizeLanguagesStep(a);
      NormalizeLanguagesConcat(a[1..], b);
      KeepTrimmedAppend(a[0], NormalizeLanguages(a[1..]), NormalizeLanguages(b));
    }
  }

  /** A trimmed head is kept in front of the normalised rest. */
  lemma NormalizeLanguagesKeepsHead(languages: seq<string>)
    requires |languages| > 0 && IsTrimmedWord(languages[0])
    requires NormalizeLanguages(languages[1..]) == languages[1..]
    ensures NormalizeLanguages(languages) == languages
  {
    NormalizeLanguagesStep(languages);
    TrimOfTrimmed(languages[0]);
    SplitFirst(languages);
  }

  /** A list whose entries are all non-empty and trimmed passes unchanged. */
  lemma {:induction false} NormalizeLanguagesKeepsClean(languages: seq<string>)
    requires forall k :: 0 <= k < |languages| ==> IsTrimmedWord(languages[k])
    ensures NormalizeLanguages(languages) == languages
    decreases |languages|
  {
    if |languages| > 0 {
      var rest := languages[1..];
      assert forall k :: 0 <= k < |rest| ==> rest[k] == languages[k + 1];
      NormalizeLanguagesKeepsClean(rest);
      NormalizeLanguagesKeepsHead(languages);
    }
  }

  /** Normalising a normalised list changes nothing. */
  lemma NormalizeLanguagesIsIdempotent(languages: seq<string>)
    ensures NormalizeLanguages(NormalizeLanguages(languages)) == NormalizeLanguages(languages)
  {
    NormalizeLanguagesKeepsClean(NormalizeLanguages(languages));
  }
}
