# Text fit and numeric-token safety net of the Figma frame translator

The plugin in `code.js` translates the text nodes of a Figma frame and exports one PNG per
language. This project models the deterministic engine around each text node. The Figma
node is replaced by a plain value: a character sequence with one style record per character.
Each record holds a font size and a line height (`Pixels`, `Percent`, `Auto` or `Mixed`).

- `text.dfy`: the character classes of JavaScript regular expressions (`\d`, `\s`), `trim`,
  `indexOf`, and `normalizeToken` (drop whitespace, lower-case).
- `seqs.dfy`: order-preserving de-duplication, as done with the `seen` set.
- `tokens.dfy`: `extractNumericTokens`, `translationHasToken` and `enforceNumericTokens`.
  The global regex match is a left-to-right scan over the string. The alternative
  `\d+[A-Za-z]+` is never reached, because `\d+%?` already succeeds at every digit. So
  "3D" yields "3", and the model keeps that behaviour.
- `runs.dfy`, `style.dfy`: the buffer, and the run scanners `getFontSizeRuns` and
  `getLineHeightRuns`. Both are instances of one generic scanner. Its result tiles the
  buffer, every run is uniform, and adjacent runs are unequal.
- `scaling.dfy`: `scaleFontSizes`, `scalePixelLineHeights` and `normalizeMultilineLineHeight`.
  Each one walks the runs it computed at its start and restyles whole runs.
- `layout.dfy`, `fit.dfy`: the layout snapshot, the fit trigger and re-centering, and the
  bounded shrink loop `fitTextNodeToOriginalBounds`.
- `fonts.dfy`: the family-to-styles index and the per-language fallback font, with the
  full language table.
- `export.dfy`: the final-text choice, the export file name and the language-list
  normalisation.

The host's text layout is a parameter `measure: (Buffer, AutoResize) -> Dims`. It gives the
box a node with that content takes in that resize mode. A fixed box is measured by switching
it to `WIDTH_AND_HEIGHT`. An auto-resizing node is laid out again by the host after each
shrink.

`lineHeightsEqual` starts with the identity test `a === b`. So `figma.mixed` equals itself
and only differs from every other value; the model follows the code here. A font size that
`Number` reads as NaN is `NotFinite`. It never compares equal, so each such character forms
a run of its own.

## Model

| member | source | states |
|---|---|---|
| Text.Trim | code.js:430 | the result is the input with whitespace removed from its two ends only: a contiguous piece of it with only whitespace before and after; a non-empty result starts and ends with a non-space, and it is empty exactly when the input is all whitespace |
| Text.TrimIdempotent | code.js:430 | trimming a trimmed string changes nothing |
| Text.TrimFromNonSpace | code.js:430 | a string that does not start with whitespace loses only its trailing whitespace |
| Text.TrimEndConcat | code.js:430 | trailing whitespace of a concatenation whose last part is not blank is cut from that part only |
| Text.TrimEndSpaces | code.js:430 | whitespace after a string that ends in a non-space is cut entirely |
| Text.Normalize | code.js:399-403 | the normal form is no longer than the input and holds no whitespace; it is empty exactly when the input is all whitespace, and a whitespace-free input is only lower-cased |
| Text.NormalizeSpaced | code.js:399-403 | two words joined by a space normalise to the two normal forms run together |
| Text.NormalizeChar | code.js:399-403 | a single character normalises to nothing when it is whitespace and to its lower-case form otherwise |
| Text.NormalizeConcat | code.js:399-403 | normalising a concatenation gives the concatenation of the normalised parts |
| Text.NormalizeTrim | code.js:399-403 | trimming before normalising makes no difference to the normalised form |
| Text.IndexOf | code.js:405-409 | `indexOf` is non-negative exactly when the needle is a substring, and then it is the first offset where it occurs |
| Text.Contains | code.js:408 | `indexOf(...) >= 0` holds exactly when the needle is a substring |
| Text.NormalizeKeepsSubstring | code.js:405-409 | a substring of a text is still found in it after both are normalised |
| Seqs.Dedup | code.js:388-395 | the result has no duplicates, holds exactly the input's elements, and lists them in the order of their first occurrence |
| Tokens.MatchEnd | code.js:387 | a match starting at a digit takes at least the whole digit run and ends on a digit or a `%` |
| Tokens.PairTestComplete | code.js:387 | whenever a dimension pair can match at an offset, the scanner's test for the first alternative succeeds there |
| Tokens.PairTestSound | code.js:387 | when that test succeeds, what it reads off has the shape digits, optional whitespace, one of `xXvV`, optional whitespace, digits |
| Tokens.MatchEndShape | code.js:387 | when a dimension pair can match at the digit, the match is such a pair and takes the whole second digit run; otherwise it is the digit run, followed by `%` exactly when one comes next |
| Tokens.MatchSpans | code.js:387 | the `g`-flag scan yields spans that are matches found at digits at or after the start, each ending no later than any later one starts, and every digit at or after the start lies in one of them |
| Tokens.CoveredOnce | code.js:387 | every digit of the text lies inside exactly one match |
| Tokens.Matches | code.js:387 | every match is a non-empty substring of the text that starts with a digit and ends with a digit or a `%` |
| Tokens.MatchesArePieces | code.js:387 | the matches are exactly the pieces of the text that the search's spans mark out, one per span and in the same order |
| Tokens.MatchesSkip | code.js:387 | characters that are not digits never start a match |
| Tokens.ExtractNumericTokens | code.js:383-397 | an empty text gives no tokens; otherwise the tokens are exactly the distinct matches, each a substring starting with a digit and ending with a digit or `%`, in the order of their first match |
| Tokens.UnitSuffixIsNotKept | code.js:387 | "3D" yields the single token "3", because the unit-suffix alternative is never reached |
| Tokens.DimensionPairExample | code.js:383-397 | "Unlock 4v4 Mode" yields the single token "4v4" |
| Tokens.TranslationHasToken | code.js:405-409 | true exactly when the normalised token is a substring of the normalised text |
| Tokens.MissingTokens | code.js:418-423 | the missing tokens are exactly the tokens the translation does not contain after normalisation, in extraction order |
| Tokens.MissingTokensSingle | code.js:419-422 | a single token is missing exactly when the translation does not contain it |
| Tokens.MissingTokensConcat | code.js:418-423 | the filter goes token by token: the missing tokens of a concatenated list are those of each part in turn, so a token listed twice is reported twice |
| Tokens.EnforceNumericTokens | code.js:411-433 | the added tokens are exactly the source tokens the translation lost, in extraction order, and with none added the text is the translation; with tokens added the text is the space-joined tokens, then a space and the translation without its trailing whitespace, or the joined tokens alone when the translation is blank, and it normalises to the normalised tokens followed by the normalised translation |
| Tokens.TokensAreTrimmed | code.js:387 | no token has whitespace at either end |
| Tokens.JoinTrimmed | code.js:430 | joining words that have no whitespace at either end gives such a word |
| Tokens.PrependedText | code.js:430 | trimming `joined + " " + translation` keeps the joined tokens whole, cuts only the translation's trailing whitespace, and drops the space with a blank translation |
| Tokens.JoinHasEveryToken | code.js:430 | the space-joined tokens contain each token after normalisation |
| Tokens.NormalizePrepended | code.js:429-432 | prepending the joined tokens with a space and trimming keeps both parts side by side after normalisation |
| Tokens.EnforcedTextHasEveryToken | code.js:405-433 | after enforcement, every source token is contained in the normalised text |
| Tokens.NothingMissing | code.js:418-427 | when the translation holds every token, nothing is missing |
| Tokens.EnforceIsIdempotent | code.js:411-433 | enforcing again against the enforced text adds nothing and keeps the text |
| Tokens.EnforceChangesTextIffTokensAdded | code.js:411-433 | the text changes exactly when tokens were added |
| Tokens.TokenLostExample | code.js:405-423 | "Desbloquear Modo" has lost the token "4v4" |
| Tokens.LostTokenExample | code.js:411-433 | enforcing "Unlock 4v4 Mode" against "Desbloquear Modo" gives "4v4 Desbloquear Modo" and reports "4v4" as added |
| Runs.ScanFrom | code.js:155-165 | from an open run, the scan tiles the rest of the buffer with maximal runs |
| Runs.ScanRuns | code.js:148-167 | there are no runs exactly for an empty buffer; the runs are non-empty, start at 0, end at the length, each ends where the next starts, each is uniform, and adjacent runs differ |
| Runs.TilesCover | code.js:148-167 | every offset of the buffer lies in exactly one run |
| Style.SameFontSize | code.js:159 | two sizes compare equal exactly when they are the same finite value; NaN equals nothing, itself included |
| Style.LineHeightsEqual | code.js:193-204 | two line heights compare equal exactly when they are the same value, `figma.mixed` included |
| Style.FontSizeRuns | code.js:148-167 | the font-size runs tile the text; each holds one size, every later size in a run compares equal to the run's size under `!==`, and adjacent runs hold sizes that do not compare equal |
| Style.NotFiniteRunIsSingle | code.js:159 | a run whose size is NaN holds exactly one character, since NaN never compares equal |
| Style.LineHeightRuns | code.js:206-225 | the line-height runs tile the text, each holds one line height, and adjacent runs hold different ones |
| Style.SetRange | code.js:186 | restyling a range changes the characters in `[start, end)` and no others |
| Scaling.ScaleFontSize | code.js:177-188 | a size never grows, NaN is left alone, and a changed size is `max(minFontSize, round2(size * factor))`, at least the floor; it changes whenever that value is smaller |
| Scaling.ScaleLineHeight | code.js:235-262 | only pixel heights change, never upwards, and a changed height is `max(8, round2(px * factor))`, at least 8 |
| Scaling.CapLineHeight | code.js:275-304 | only pixel heights over a positive finite font size change, never upwards, and a changed height is exactly `round2(fontSize * 1.28)` |
| Scaling.CapExample | code.js:297-302 | a 40 px line height over 20 pt text is capped to 25.6 px |
| Scaling.RestyleRuns | code.js:176-189 | each run's characters are restyled when the run asks for it and kept otherwise, and the pass reports a change exactly when some run asked for one |
| Scaling.ScaleFontSizes | code.js:169-191 | every character's size becomes its own size scaled, characters and line heights stay, and the result is true exactly when the buffer changed |
| Scaling.ScaleFontSizesShrinks | code.js:181-188 | scaling font sizes never increases any value |
| Scaling.ScalePixelLineHeights | code.js:227-265 | every character's line height becomes its own height scaled, font sizes stay, and the result is true exactly when the buffer changed |
| Scaling.ScalePixelLineHeightsShrinks | code.js:252-262 | scaling pixel line heights never increases any value |
| Scaling.NormalizeMultilineLineHeight | code.js:267-307 | without a newline nothing changes and the result is false; otherwise each run's line height is capped against the font size at the run's start, font sizes stay, nothing grows, and the result is true exactly when the buffer changed |
| Layout.CaptureTextNodeLayout | code.js:125-136 | the snapshot keeps the box, the horizontal alignment and the resize mode, and the captured centre is the middle of the box |
| Layout.RestoreCenteredPositionIfNeeded | code.js:368-381 | a fixed box is not moved; an auto-resizing node is moved so its centre is the captured one; size, content, alignment and resize mode are kept |
| Layout.RecenterAfterCaptureIsIdentity | code.js:368-381 | re-centering a node against its own snapshot leaves it where it was |
| Layout.ShouldFitAutoResizeNode | code.js:353-366 | false for a fixed box; otherwise true exactly when the node is more than 12% wider or 25% taller than captured |
| Layout.FitTriggerNeedsGrowth | code.js:363-365 | a fit is only triggered by growth, and a node whose size did not change never triggers one |
| Layout.MeasureNaturalSizeForFixedTextNode | code.js:138-146 | the natural size is the host's `WIDTH_AND_HEIGHT` layout of the content, and afterwards the node is back in `NONE` mode at the captured size |
| Fit.ShrinkFactor | code.js:335-337 | the factor is at most 0.98 and at most both ratios of captured to measured size, and it equals one of the three |
| Fit.ShrinkOnce | code.js:342-346 | every character gets its font size scaled with a floor of 8 and its line height scaled, the characters stay; nothing grows, and the pass reports a change exactly when the buffer changed |
| Fit.MeasureAndShrink | code.js:316-346 | the measured node is the input, a fixed box back in `NONE` mode at its captured size; the pass fits exactly when the measurement is within 0.5 of the captured box; it shrinks only overflowing text, by the damped ratio of that measurement, which lies in (0, 1) and changes the buffer, and the next node is the measured one with the shrunk buffer; it is stuck only when that ratio is outside (0, 1) or shrinking by it changes nothing |
| Fit.StepFacts | code.js:342-346 | a productive pass lowers some style, keeps the position, and leaves a fixed box in `NONE` mode at its captured size |
| Fit.AfterFacts | code.js:314-348 | after any sequence of productive passes nothing has grown, the buffer differs from the start exactly when there was a pass, the position is kept, and every factor lies in (0, 0.98] |
| Fit.FitTextNodeToOriginalBounds | code.js:309-351 | at most 12 rounds, each a productive pass from where the rounds before it left the node, with a factor in (0, 0.98]; `reduced` exactly when there was a round, exactly when the buffer changed; nothing grows; after 12 rounds the node is as they left it and still overflowing; before that, the node is the last measured one, `stillOverflowing` says exactly whether that measurement overflows, and when it does no further shrink was possible |
| Fonts.BuildAvailableFontIndex | code.js:83-94 | the index holds exactly the installed families, each with exactly its installed styles, none twice, the first one first |
| Fonts.FirstPreferred | code.js:103-107 | the first preferred style a family has, and none exactly when it has no preferred style |
| Fonts.ChooseStyle | code.js:103-111 | a family with a preferred style gets the first of them in preference order, otherwise its first style |
| Fonts.ResolveAmong | code.js:98-113 | no font exactly when none of the families is installed; otherwise the first installed family, in the style `ChooseStyle` picks |
| Fonts.ResolveLanguageFallbackFont | code.js:96-114 | no font for an unlisted language or when none of its listed families is installed; otherwise the first listed installed family in its chosen style |
| Fonts.ResolvedFontIsInstalled | code.js:83-114 | against the index of the installed fonts, the resolved font is one of them |
| Export.IsBlank | code.js:590 | a text is blank exactly when it is all whitespace |
| Export.ChooseFinalText | code.js:589-603 | a blank enforced text falls back to the source text with an empty-translation warning; otherwise the enforced text is used, with a warning naming exactly the added tokens when there are any |
| Export.FinalTextKeepsEveryToken | code.js:587-597 | whichever branch is taken, every source token is in the node's final text after normalisation |
| Export.FinalTextBlankOnlyIfSourceBlank | code.js:589-595 | the final text is blank only when the source text was |
| Export.ReplaceForbidden | code.js:653 | each forbidden file-name character (backslash, slash, colon, asterisk, question mark, double quote, angle brackets, vertical bar) becomes `_`, and every other character is kept in place |
| Export.CollapseSpaces | code.js:654 | the result holds no whitespace and no new forbidden character, and a name without whitespace is kept |
| Export.CollapseSpacesSplice | code.js:654 | a maximal run of whitespace after a whitespace-free prefix becomes one underscore, and the rest is collapsed on its own |
| Export.ReplaceForbiddenConcat | code.js:653 | the replacement goes character by character: replacing in a concatenation replaces in each part |
| Export.SanitizeFileName | code.js:652-654 | the result has no forbidden character and no whitespace, and a name that already has neither is kept |
| Export.SanitizeIsIdempotent | code.js:652-654 | sanitising a sanitised name changes nothing |
| Export.SanitizeSplice | code.js:652-654 | a maximal run of whitespace after a clean prefix becomes one underscore, and the rest is sanitised on its own |
| Export.CollapseSpacesPrefix | code.js:654 | a whitespace-free prefix passes through the whitespace collapse unchanged |
| Export.SanitizeForbidden | code.js:652-653 | a forbidden character (such as `/` or `:`) after a clean prefix becomes one underscore, and the rest is sanitised on its own; with SanitizeSplice and the identity on clean names this fixes the sanitised value of every name |
| Export.ExportFileName | code.js:652-654 | the file name is clean, and it is `frame__language.png` when both parts are clean |
| Export.ExportFileNameSplice | code.js:652-654 | a frame name with a maximal run of whitespace after a clean prefix gets one underscore in its place in the file name, the rest sanitised as before |
| Export.ExportFileNameForbidden | code.js:652-653 | a forbidden character in the frame name after a clean prefix becomes one underscore in the file name, the rest sanitised as before |
| Export.ExportFileNameCleanFrame | code.js:652-654 | with a clean frame name the file name is that name, `__`, and the sanitised `language.png` |
| Export.NormalizeLanguages | code.js:670-672 | no more entries than given, every entry non-empty and trimmed, the entries are exactly the non-empty trims of the input, and the list is empty exactly when every entry was blank |
| Export.NormalizeLanguagesSingle | code.js:670-672 | a single entry becomes its trim, or nothing when that is empty |
| Export.NormalizeLanguagesConcat | code.js:670-672 | the map-and-filter goes entry by entry: normalising a concatenated list gives the normalised parts in turn |
| Export.NormalizeLanguagesKeepsClean | code.js:670-672 | a list of non-empty, trimmed names passes unchanged |
| Export.NormalizeLanguagesIsIdempotent | code.js:670-672 | normalising a normalised list changes nothing |

## Left out

- Network translation (code.js:456-542): the HTTP client, prompt text and JSON parsing. The translated string is an input.
- Host plumbing: cloning, `findAll`, PNG export, clone removal and progress messages, UI messaging and client-storage settings. All of these are I/O.
- Async font loading and its cache (code.js:116-123, 439-454): side effects through the host.
- The per-node orchestration in `exportTranslatedFrame` (code.js:544-657): the node loop, the warnings set, the guard that applies the fallback font, and when fitting is called. The pure steps it calls are modelled one by one.
- Real text measurement: the host's font shaping is the `measure` parameter.
- IEEE-754 arithmetic: sizes and ratios are exact reals, and `Math.round(x * 100) / 100` is `floor(x * 100 + 0.5) / 100` on reals.
- Text.Lower: `toLowerCase` is modelled on ASCII letters only; other scripts are kept as they are.
- Text offsets: a string is a sequence of Unicode scalar values, while JavaScript's `length`, range offsets and `slice` count UTF-16 code units. Run offsets are therefore numbered differently around characters outside the Basic Multilingual Plane. No modelled result depends on the numbering.
- Null and non-string inputs (`String(value || "")`, `translatedText == null`): every text is a string.
- Style.FontSize: a size that is not a finite number is one value, `NotFinite`, standing for NaN; infinite sizes are not told apart from it.
- Style.LineHeight: pixel and percent values are finite reals, so a non-finite line-height value is not modelled.
- Fonts.Fallbacks: keys inherited through the object prototype (such as `toString`) are not modelled; a language is listed only when it is a key of the table.
- Tokens.MatchEnd: which alternative of the pattern matched is stated in the separate lemma MatchEndShape, not in the function's contract.
- Scaling.ScaleFontSizes: the property that no value grows is stated in the separate lemma ScaleFontSizesShrinks, not in the function's contract.
- Scaling.ScalePixelLineHeights: the property that no value grows is stated in the separate lemma ScalePixelLineHeightsShrinks, not in the function's contract.
