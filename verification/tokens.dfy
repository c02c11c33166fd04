/**
 * The numeric-token safety net (code.js:383-433): tokens such as "4v4",
 * "100%" or "2" are pulled out of the source string, and any of them the
 * translation lost is put back in front of it.
 */
module Tokens {
  import opened Text
  import opened Seqs

  /** The separator of a dimension pair, `[xXvV]`. */
  predicate IsSeparator(c: char) {
    c == 'x' || c == 'X' || c == 'v' || c == 'V'
  }

  /** End of the maximal run of digits starting at `i`. */
  function DigitsEnd(s: string, i: nat): (e: nat)
    requires i <= |s|
    ensures i <= e <= |s|
    ensures forall k :: i <= k < e ==> IsDigit(s[k])
    ensures e < |s| ==> !IsDigit(s[e])
    decreases |s| - i
  {
    if i < |s| && IsDigit(s[i]) then DigitsEnd(s, i + 1) else i
  }

  /** End of the maximal run of whitespace starting at `i`. */
  function SpacesEnd(s: string, i: nat): (e: nat)
    requires i <= |s|
    ensures i <= e <= |s|
    ensures forall k :: i <= k < e ==> IsSpace(s[k])
    ensures e < |s| ==> !IsSpace(s[e])
    decreases |s| - i
  {
    if i < |s| && IsSpace(s[i]) then SpacesEnd(s, i + 1) else i
  }

  /** `s[i..e]` is a dimension pair `\d+\s*[xXvV]\s*\d+`: digits up to
      `p`, whitespace up to the separator at `q`, whitespace up to `t`,
      digits up to `e`. */
  ghost predicate PairShape(s: string, i: nat, p: nat, q: nat, t: nat, e: nat) {
    && i < p <= q < t < e <= |s|
    && (forall k :: i <= k < p ==> IsDigit(s[k]))
    && (forall k :: p <= k < q ==> IsSpace(s[k]))
    && IsSeparator(s[q])
    && (forall k :: q < k < t ==> IsSpace(s[k]))
    && (forall k :: t <= k < e ==> IsDigit(s[k]))
  }

  ghost predicate PairAt(s: string, i: nat, e: nat) {
    exists p, q, t :: PairShape(s, i, p, q, t, e)
  }

  /** The first alternative of the pattern can match at `i`. */
  ghost predicate HasPairAt(s: string, i: nat) {
    exists e :: PairAt(s, i, e)
  }

  /** A run that ends where `DigitsEnd` stops is the one it finds. */
  lemma {:induction false} DigitsEndAt(s: string, i: nat, p: nat)
    requires i <= p <= |s|
    requires forall k :: i <= k < p ==> IsDigit(s[k])
    requires p == |s| || !IsDigit(s[p])
    ensures DigitsEnd(s, i) == p
    decreases p - i
  {
    if i < p {
      DigitsEndAt(s, i + 1, p);
    }
  }

  lemma {:induction false} SpacesEndAt(s: string, i: nat, p: nat)
    requires i <= p <= |s|
    requires forall k :: i <= k < p ==> IsSpace(s[k])
    requires p == |s| || !IsSpace(s[p])
    ensures SpacesEnd(s, i) == p
    decreases p - i
  {
    if i < p {
      SpacesEndAt(s, i + 1, p);
    }
  }

  /** The test `MatchEnd` makes for the first alternative. */
  predicate PairTest(s: string, i: nat)
    requires i <= |s|
  {
    var gap := SpacesEnd(s, DigitsEnd(s, i));
    gap < |s| && IsSeparator(s[gap]) && SpacesEnd(s, gap + 1) < |s| && IsDigit(s[SpacesEnd(s, gap + 1)])
  }

  /** Whenever a pair can be matched at `i`, the test finds it. */
  lemma PairTestComplete(s: string, i: nat)
    requires i <= |s|
    ensures HasPairAt(s, i) ==> PairTest(s, i)
  {
    if HasPairAt(s, i) {
      var e: nat :| PairAt(s, i, e);
      var p: nat, q: nat, t: nat :| PairShape(s, i, p, q, t, e);
      DigitsEndAt(s, i, p);
      SpacesEndAt(s, p, q);
      SpacesEndAt(s, q + 1, t);
    }
  }

  /** Where the pair the test found ends: the end of its second digit run. */
  function PairEnd(s: string, i: nat): (e: nat)
    requires i <= |s| && PairTest(s, i)
    ensures DigitsEnd(s, i) < e <= |s|
    ensures IsDigit(s[e - 1])
    ensures e == |s| || !IsDigit(s[e])
  {
    DigitsEnd(s, SpacesEnd(s, SpacesEnd(s, DigitsEnd(s, i)) + 1))
  }

  /** When the test succeeds, what it reads off is a pair. */
  lemma PairTestSound(s: string, i: nat)
    requires i < |s| && IsDigit(s[i]) && PairTest(s, i)
    ensures PairAt(s, i, PairEnd(s, i))
  {
    var p := DigitsEnd(s, i);
    var q := SpacesEnd(s, p);
    var t := SpacesEnd(s, q + 1);
    assert PairShape(s, i, p, q, t, PairEnd(s, i));
  }

  /**
   * End of the match of `\d+\s*[xXvV]\s*\d+|\d+%?|\d+[A-Za-z]+` at `i`.
   * Greedy runs never need to give characters back here: a digit run cut
   * short is followed by a digit, which neither `\s` nor the separator
   * accepts. The second alternative succeeds at every digit, so the third
   * (`\d+[A-Za-z]+`) is never tried.
   */
  function MatchEnd(s: string, i: nat): (e: nat)
    requires i < |s| && IsDigit(s[i])
    ensures i < e <= |s|
    ensures DigitsEnd(s, i) <= e
    ensures IsDigit(s[e - 1]) || s[e - 1] == '%'
  {
    var digits := DigitsEnd(s, i);
    if PairTest(s, i) then PairEnd(s, i)
    else if digits < |s| && s[digits] == '%' then digits + 1
    else digits
  }

  /** The alternatives are tried in order: a dimension pair whenever one
      matches at `i`, taken with its whole second digit run; otherwise the
      digit run, with the percent sign that follows it if there is one. */
  lemma MatchEndShape(s: string, i: nat)
    requires i < |s| && IsDigit(s[i])
    ensures var e := MatchEnd(s, i);
      HasPairAt(s, i) ==> PairAt(s, i, e) && (e == |s| || !IsDigit(s[e]))
    ensures var e := MatchEnd(s, i);
      !HasPairAt(s, i) ==>
        || (e == DigitsEnd(s, i) && (e == |s| || s[e] != '%'))
        || (e == DigitsEnd(s, i) + 1 && s[e - 1] == '%')
  {
    PairTestComplete(s, i);
    if PairTest(s, i) {
      PairTestSound(s, i);
    }
  }

  /** What every match is: a non-empty piece of `s` that starts with a digit
      and ends with a digit or a percent sign. */
  ghost predicate IsToken(m: string, s: string) {
    && |m| > 0 && IsDigit(m[0])
    && (IsDigit(m[|m| - 1]) || m[|m| - 1] == '%')
    && IsSubstring(m, s)
  }

  lemma MatchIsToken(s: string, i: nat)
    requires i < |s| && IsDigit(s[i])
    ensures IsToken(s[i..MatchEnd(s, i)], s)
  {
    assert OccursAt(s, s[i..MatchEnd(s, i)], i);
  }

  /** Where a match sits in the string: `s[start..end]`. */
  datatype Span = Span(start: nat, end: nat)

  /** Every span is the match found at a digit at or after `i`. */
  ghost predicate SpansAreMatches(s: string, i: nat, spans: seq<Span>) {
    forall k :: 0 <= k < |spans| ==>
      i <= spans[k].start < |s| && IsDigit(s[spans[k].start]) && spans[k].end == MatchEnd(s, spans[k].start)
  }

  /** Each span ends before any later one starts. */
  ghost predicate InOrder(spans: seq<Span>) {
    forall a, b :: 0 <= a < b < |spans| ==> spans[a].end <= spans[b].start
  }

  /** Offset `j` lies inside one of `spans`. */
  ghost predicate Covered(spans: seq<Span>, j: nat) {
    exists k :: 0 <= k < |spans| && spans[k].start <= j < spans[k].end
  }

  /** Every digit at or after `i` lies inside one of `spans`. */
  ghost predicate CoversDigits(s: string, i: nat, spans: seq<Span>) {
    forall j :: i <= j < |s| && IsDigit(s[j]) ==> Covered(spans, j)
  }

  /** Putting a span in front keeps what was covered and covers its own
      offsets. */
  lemma CoveredCons(sp: Span, rest: seq<Span>, j: nat)
    requires Covered(rest, j) || sp.start <= j < sp.end
    ensures Covered([sp] + rest, j)
  {
    if sp.start <= j < sp.end {
      assert ([sp] + rest)[0] == sp;
    } else {
      var k :| 0 <= k < |rest| && rest[k].start <= j < rest[k].end;
      assert ([sp] + rest)[k + 1] == rest[k];
    }
  }

  lemma InOrderCons(sp: Span, rest: seq<Span>)
    requires InOrder(rest)
    requires forall k :: 0 <= k < |rest| ==> sp.end <= rest[k].start
    ensures InOrder([sp] + rest)
  {
    assert forall k :: 0 < k < |rest| + 1 ==> ([sp] + rest)[k] == rest[k - 1];
  }

  /** A match at `i` followed by the spans found after it. */
  lemma SpansPrepend(s: string, i: nat, rest: seq<Span>)
    requires i < |s| && IsDigit(s[i])
    requires SpansAreMatches(s, MatchEnd(s, i), rest)
    requires InOrder(rest)
    requires CoversDigits(s, MatchEnd(s, i), rest)
    ensures SpansAreMatches(s, i, [Span(i, MatchEnd(s, i))] + rest)
    ensures InOrder([Span(i, MatchEnd(s, i))] + rest)
    ensures CoversDigits(s, i, [Span(i, MatchEnd(s, i))] + rest)
  {
    var sp := Span(i, MatchEnd(s, i));
    var spans := [sp] + rest;
    assert forall k :: 0 < k < |spans| ==> spans[k] == rest[k - 1];
    InOrderCons(sp, rest);
    forall j | i <= j < |s| && IsDigit(s[j])
      ensures Covered(spans, j)
    {
      CoveredCons(sp, rest, j);
    }
  }

  /** The spans of the successive matches of the `g`-flag search from `i`:
      each search resumes where the previous match ended, and no digit is
      passed over. */
  function MatchSpans(s: string, i: nat): (spans: seq<Span>)
    requires i <= |s|
    ensures SpansAreMatches(s, i, spans)
    ensures InOrder(spans)
    ensures CoversDigits(s, i, spans)
    decreases |s| - i
  {
    if i == |s| then []
    else if !IsDigit(s[i]) then MatchSpans(s, i + 1)
    else
      SpansPrepend(s, i, MatchSpans(s, MatchEnd(s, i)));
      [Span(i, MatchEnd(s, i))] + MatchSpans(s, MatchEnd(s, i))
  }

  /** Spans in order never overlap: an offset lies in at most one. */
  lemma InOrderDisjoint(spans: seq<Span>, j: nat, k: nat, m: nat)
    requires InOrder(spans)
    requires k < |spans| && spans[k].start <= j < spans[k].end
    requires m < |spans| && spans[m].start <= j < spans[m].end
    ensures m == k
  {
  }

  lemma CoveredOnceIn(s: string, i: nat, spans: seq<Span>, j: nat)
    requires InOrder(spans) && CoversDigits(s, i, spans)
    requires i <= j < |s| && IsDigit(s[j])
    ensures Covered(spans, j)
    ensures forall k, m ::
      (0 <= k < |spans| && spans[k].start <= j < spans[k].end &&
       0 <= m < |spans| && spans[m].start <= j < spans[m].end) ==> m == k
  {
    forall k, m | 0 <= k < |spans| && spans[k].start <= j < spans[k].end &&
        0 <= m < |spans| && spans[m].start <= j < spans[m].end
      ensures m == k
    {
      InOrderDisjoint(spans, j, k, m);
    }
  }

  /** So every digit at or after `i` lies inside exactly one match. */
  lemma CoveredOnce(s: string, i: nat, j: nat)
    requires i <= j < |s| && IsDigit(s[j])
    ensures Covered(MatchSpans(s, i), j)
    ensures var spans := MatchSpans(s, i);
      forall k, m ::
        (0 <= k < |spans| && spans[k].start <= j < spans[k].end &&
         0 <= m < |spans| && spans[m].start <= j < spans[m].end) ==> m == k
  {
    CoveredOnceIn(s, i, MatchSpans(s, i), j);
  }

  /** `ms` are the pieces of `s` that `spans` mark out. */
  ghost predicate Pieces(s: string, spans: seq<Span>, ms: seq<string>) {
    && |ms| == |spans|
    && forall k :: 0 <= k < |ms| ==>
      spans[k].start <= spans[k].end <= |s| && ms[k] == s[spans[k].start..spans[k].end]
  }

  lemma PiecesCons(s: string, sp: Span, spans: seq<Span>, ms: seq<string>)
    requires Pieces(s, spans, ms)
    requires sp.start <= sp.end <= |s|
    ensures Pieces(s, [sp] + spans, [s[sp.start..sp.end]] + ms)
  {
    var spans', ms' := [sp] + spans, [s[sp.start..sp.end]] + ms;
    assert forall k :: 0 < k < |ms'| ==> ms'[k] == ms[k - 1] && spans'[k] == spans[k - 1];
  }

  /** `text.match(re)` with the `g` flag, scanning from offset `i`: the
      pieces of `s` the spans of `MatchSpans` mark out. */
  function Matches(s: string, i: nat): (ms: seq<string>)
    requires i <= |s|
    ensures forall k :: 0 <= k < |ms| ==> IsToken(ms[k], s)
    decreases |s| - i
  {
    if i == |s| then []
    else if !IsDigit(s[i]) then Matches(s, i + 1)
    else
      MatchIsToken(s, i);
      [s[i..MatchEnd(s, i)]] + Matches(s, MatchEnd(s, i))
  }

  /** The matches are the pieces of the text the spans of the search mark
      out, one per span and in the same order. */
  lemma {:induction false} MatchesArePieces(s: string, i: nat)
    requires i <= |s|
    ensures Pieces(s, MatchSpans(s, i), Matches(s, i))
    decreases |s| - i
  {
    if i == |s| {
    } else if !IsDigit(s[i]) {
      MatchesArePieces(s, i + 1);
    } else {
      var e := MatchEnd(s, i);
      MatchesArePieces(s, e);
      PiecesCons(s, Span(i, e), MatchSpans(s, e), Matches(s, e));
    }
  }

  /** Characters that are not digits are skipped without a match. */
  lemma {:induction false} MatchesSkip(s: string, i: nat, j: nat)
    requires i <= j <= |s|
    requires forall k :: i <= k < j ==> !IsDigit(s[k])
    ensures Matches(s, i) == Matches(s, j)
    decreases j - i
  {
    if i < j {
      calc {
        Matches(s, i);
        { MatchesSkipOne(s, i); }
        Matches(s, i + 1);
        { MatchesSkip(s, i + 1, j); }
        Matches(s, j);
      }
    }
  }

  lemma MatchesSkipOne(s: string, i: nat)
    requires i < |s| && !IsDigit(s[i])
    ensures Matches(s, i) == Matches(s, i + 1)
  {
  }

  /** At a digit the match found there comes first. */
  lemma MatchesAtDigit(s: string, i: nat)
    requires i < |s| && IsDigit(s[i])
    ensures Matches(s, i) == [s[i..MatchEnd(s, i)]] + Matches(s, MatchEnd(s, i))
  {
  }

  /** extractNumericTokens: the matches, each kept once, in the order of
      their first occurrence. */
  function ExtractNumericTokens(text: string): (tokens: seq<string>)
    ensures |text| == 0 ==> tokens == []
    ensures Distinct(tokens)
    ensures forall k :: 0 <= k < |tokens| ==> IsToken(tokens[k], text)
    ensures forall k :: 0 <= k < |tokens| ==> tokens[k] in Matches(text, 0)
    ensures forall k :: 0 <= k < |Matches(text, 0)| ==> Matches(text, 0)[k] in tokens
    ensures forall i, j :: 0 <= i < j < |tokens| ==>
      FirstIndex(Matches(text, 0), tokens[i]) < FirstIndex(Matches(text, 0), tokens[j])
  {
    if |text| == 0 then [] else Dedup(Matches(text, 0))
  }

  /** translationHasToken: containment after dropping whitespace and case. */
  predicate TranslationHasToken(text: string, token: string)
    ensures TranslationHasToken(text, token) <==> IsSubstring(Normalize(token), Normalize(text))
  {
    Contains(Normalize(text), Normalize(token))
  }

  /** The tokens the translation lost, in extraction order. */
  function MissingTokens(tokens: seq<string>, translated: string): (missing: seq<string>)
    ensures forall t :: t in missing <==> t in tokens && !TranslationHasToken(translated, t)
    ensures IsSubsequence(missing, tokens)
    decreases |tokens|
  {
    if |tokens| == 0 then []
    else
      var rest := MissingTokens(tokens[1..], translated);
      if TranslationHasToken(translated, tokens[0]) then
        rest
      else
        assert ([tokens[0]] + rest)[1..] == rest;
        [tokens[0]] + rest
  }

  lemma MissingTokensSingle(t: string, translated: string)
    ensures MissingTokens([t], translated) == if TranslationHasToken(translated, t) then [] else [t]
  {
    assert [t][1..] == [];
  }

  /** The filter works token by token: the list can be cut anywhere, so a
      token listed twice is reported twice. */
  lemma {:induction false} MissingTokensConcat(a: seq<string>, b: seq<string>, translated: string)
    ensures MissingTokens(a + b, translated) == MissingTokens(a, translated) + MissingTokens(b, translated)
    decreases |a|
  {
    if |a| == 0 {
      assert a + b == b;
    } else {
      TailOfConcat(a, b);
      MissingTokensConcat(a[1..], b, translated);
    }
  }

  /** `Array.prototype.join`. */
  function Join(xs: seq<string>, sep: string): string
    decreases |xs|
  {
    if |xs| == 0 then ""
    else if |xs| == 1 then xs[0]
    else xs[0] + sep + Join(xs[1..], sep)
  }

  datatype Enforced = Enforced(text: string, addedTokens: seq<string>)

  /** enforceNumericTokens: prepend the missing tokens, space-joined, and trim. */
  function EnforceNumericTokens(sourceText: string, translatedText: string): (r: Enforced)
    ensures forall t :: t in r.addedTokens <==>
      t in ExtractNumericTokens(sourceText) && !TranslationHasToken(translatedText, t)
    ensures IsSubsequence(r.addedTokens, ExtractNumericTokens(sourceText))
    ensures r.addedTokens == [] ==> r.text == translatedText
    ensures |r.addedTokens| > 0 && AllSpace(translatedText) ==> r.text == Join(r.addedTokens, " ")
    ensures |r.addedTokens| > 0 && !AllSpace(translatedText) ==>
      r.text == Join(r.addedTokens, " ") + " " + TrimEnd(translatedText)
    ensures |r.addedTokens| > 0 ==>
      Normalize(r.text) == Normalize(Join(r.addedTokens, " ")) + Normalize(translatedText)
  {
    var tokens := ExtractNumericTokens(sourceText);
    if |tokens| == 0 then Enforced(translatedText, [])
    else
      var missing := MissingTokens(tokens, translatedText);
      if |missing| == 0 then Enforced(translatedText, [])
      else
        var joined := Join(missing, " ");
        TokensAreTrimmed(tokens, sourceText);
        JoinTrimmed(missing, " ");
        PrependedText(joined, translatedText);
        NormalizePrepended(joined, translatedText);
        Enforced(Trim(joined + " " + translatedText), missing)
  }

  /** A token has no whitespace at either end. */
  lemma TokensAreTrimmed(tokens: seq<string>, text: string)
    requires forall k :: 0 <= k < |tokens| ==> IsToken(tokens[k], text)
    ensures forall t :: t in tokens ==> IsTrimmedWord(t)
  {
    forall t | t in tokens
      ensures IsTrimmedWord(t)
    {
      var k :| 0 <= k < |tokens| && tokens[k] == t;
      assert IsToken(tokens[k], text);
    }
  }

  /** Words joined by anything are still a word with no whitespace at
      either end. */
  lemma {:induction false} JoinTrimmed(xs: seq<string>, sep: string)
    requires |xs| > 0
    requires forall x :: x in xs ==> IsTrimmedWord(x)
    ensures IsTrimmedWord(Join(xs, sep))
    decreases |xs|
  {
    if |xs| > 1 {
      assert forall x :: x in xs[1..] ==> x in xs;
      JoinTrimmed(xs[1..], sep);
      var rest := Join(xs[1..], sep);
      assert xs[0] in xs;
      assert Join(xs, sep) == xs[0] + sep + rest;
      assert (xs[0] + sep + rest)[0] == xs[0][0];
      assert (xs[0] + sep + rest)[|xs[0] + sep + rest| - 1] == rest[|rest| - 1];
    } else {
      assert xs[0] in xs;
    }
  }

  /** Trimming the tokens-then-translation text only trims the end of the
      translation, and drops it with its separating space when it is blank. */
  lemma PrependedText(joined: string, translated: string)
    requires IsTrimmedWord(joined)
    ensures AllSpace(translated) ==> Trim(joined + " " + translated) == joined
    ensures !AllSpace(translated) ==> Trim(joined + " " + translated) == joined + " " + TrimEnd(translated)
  {
    PrependedStart(joined, translated);
    if AllSpace(translated) {
      PrependedBlank(joined, translated);
    } else {
      TrimEndConcat(joined + " ", translated);
    }
  }

  lemma PrependedStart(joined: string, translated: string)
    requires |joined| > 0 && !IsSpace(joined[0])
    ensures Trim(joined + " " + translated) == TrimEnd(joined + " " + translated)
  {
    var text := joined + " " + translated;
    assert text[0] == joined[0];
    TrimFromNonSpace(text);
  }

  lemma PrependedBlank(joined: string, translated: string)
    requires |joined| > 0 && !IsSpace(joined[|joined| - 1])
    requires AllSpace(translated)
    ensures TrimEnd(joined + " " + translated) == joined
  {
    var tail := " " + translated;
    assert joined + " " + translated == joined + tail;
    assert forall k :: 0 < k < |tail| ==> tail[k] == translated[k - 1];
    TrimEndSpaces(joined, tail);
  }


  /** The separator vanishes under normalisation. */
  lemma NormalizeJoinStep(xs: seq<string>)
    requires |xs| > 1
    ensures Normalize(Join(xs, " ")) == Normalize(xs[0]) + Normalize(Join(xs[1..], " "))
  {
    var rest := Join(xs[1..], " ");
    assert Join(xs, " ") == xs[0] + " " + rest;
    NormalizeSpaced(xs[0], rest);
  }

  lemma {:induction false} JoinHasEveryToken(xs: seq<string>, t: string)
    requires t in xs
    ensures Contains(Normalize(Join(xs, " ")), Normalize(t))
    decreases |xs|
  {
    if |xs| == 1 {
      assert Join(xs, " ") == t;
      ContainsSelf(Normalize(t));
    } else {
      var rest := Join(xs[1..], " ");
      NormalizeJoinStep(xs);
      if t == xs[0] {
        ContainsSelf(Normalize(t));
        ContainsLeft(Normalize(xs[0]), Normalize(rest), Normalize(t));
      } else {
        assert t in xs[1..];
        JoinHasEveryToken(xs[1..], t);
        ContainsRight(Normalize(xs[0]), Normalize(rest), Normalize(t));
      }
    }
  }

  /** Prepending the joined tokens and trimming keeps both parts visible
      after normalisation. */
  lemma NormalizePrepended(joined: string, translated: string)
    ensures Normalize(Trim(joined + " " + translated)) == Normalize(joined) + Normalize(translated)
  {
    NormalizeSpaced(joined, translated);
    NormalizeTrim(joined + " " + translated);
  }

  lemma {:induction false} NothingMissing(tokens: seq<string>, translated: string)
    requires forall t | t in tokens :: TranslationHasToken(translated, t)
    ensures MissingTokens(tokens, translated) == []
    decreases |tokens|
  {
    if |tokens| > 0 {
      NothingMissing(tokens[1..], translated);
    }
  }

  /** After enforcement every source token is in the text. */
  lemma EnforcedTextHasEveryToken(sourceText: string, translatedText: string)
    ensures forall t | t in ExtractNumericTokens(sourceText) ::
      TranslationHasToken(EnforceNumericTokens(sourceText, translatedText).text, t)
  {
    var tokens := ExtractNumericTokens(sourceText);
    var r := EnforceNumericTokens(sourceText, translatedText);
    if |r.addedTokens| > 0 {
      var missing := MissingTokens(tokens, translatedText);
      assert r.addedTokens == missing;
      var joined := Join(missing, " ");
      assert r.text == Trim(joined + " " + translatedText);
      NormalizePrepended(joined, translatedText);
      forall t | t in tokens
        ensures TranslationHasToken(r.text, t)
      {
        if t in missing {
          JoinHasEveryToken(missing, t);
          ContainsLeft(Normalize(joined), Normalize(translatedText), Normalize(t));
        } else {
          ContainsRight(Normalize(joined), Normalize(translatedText), Normalize(t));
        }
      }
    }
  }

  /** Enforcing again against the enforced text adds nothing. */
  lemma EnforceIsIdempotent(sourceText: string, translatedText: string)
    ensures var r := EnforceNumericTokens(sourceText, translatedText);
      EnforceNumericTokens(sourceText, r.text) == Enforced(r.text, [])
  {
    var r := EnforceNumericTokens(sourceText, translatedText);
    EnforcedTextHasEveryToken(sourceText, translatedText);
    NothingMissing(ExtractNumericTokens(sourceText), r.text);
  }

  /** The text is left alone exactly when nothing was missing. */
  lemma EnforceChangesTextIffTokensAdded(sourceText: string, translatedText: string)
    ensures var r := EnforceNumericTokens(sourceText, translatedText);
      r.text == translatedText <==> r.addedTokens == []
  {
    var r := EnforceNumericTokens(sourceText, translatedText);
    if |r.addedTokens| > 0 {
      var t := r.addedTokens[0];
      assert t in r.addedTokens;
      EnforcedTextHasEveryToken(sourceText, translatedText);
      assert TranslationHasToken(r.text, t) && !TranslationHasToken(translatedText, t);
    }
  }

  /** "3D" yields "3": the unit-suffix alternative is never reached. */
  lemma UnitSuffixIsNotKept()
    ensures ExtractNumericTokens("3D") == ["3"]
  {
    var s := "3D";
    assert |s| == 2 && s[0] == '3' && s[1] == 'D';
    assert DigitsEnd(s, 1) == 1;
    assert DigitsEnd(s, 0) == 1;
    assert SpacesEnd(s, 1) == 1;
    assert MatchEnd(s, 0) == 1;
    assert Matches(s, 2) == [];
    assert Matches(s, 1) == [];
    assert s[0..1] == "3";
    assert Matches(s, 0) == ["3"];
    assert DedupFrom(["3"], {}) == ["3"] + DedupFrom([], {"3"});
  }

  /** The match at the "4" of "Unlock 4v4 Mode" is "4v4". */
  lemma DimensionPairMatchEnd()
    ensures MatchEnd("Unlock 4v4 Mode", 7) == 10
  {
    var s := "Unlock 4v4 Mode";
    assert DigitsEnd(s, 9) == 10 && DigitsEnd(s, 7) == 8;
    assert SpacesEnd(s, 8) == 8 && SpacesEnd(s, 9) == 9;
  }

  lemma DimensionPairMatches()
    ensures Matches("Unlock 4v4 Mode", 0) == ["4v4"]
  {
    var s := "Unlock 4v4 Mode";
    MatchesSkip(s, 0, 7);
    DimensionPairMatchAt();
  }

  lemma DimensionPairMatchAt()
    ensures Matches("Unlock 4v4 Mode", 7) == ["4v4"]
  {
    var s := "Unlock 4v4 Mode";
    DimensionPairTail();
    DimensionPairSlice();
    DimensionPairMatchEnd();
    MatchesAtDigit(s, 7);
  }

  lemma DimensionPairTail()
    ensures Matches("Unlock 4v4 Mode", 10) == []
  {
    MatchesSkip("Unlock 4v4 Mode", 10, 15);
  }

  lemma DimensionPairSlice()
    ensures "Unlock 4v4 Mode"[7..10] == "4v4"
  {
  }

  /** "Unlock 4v4 Mode" yields the single token "4v4". */
  lemma DimensionPairExample()
    ensures ExtractNumericTokens("Unlock 4v4 Mode") == ["4v4"]
  {
    DimensionPairMatches();
    assert DedupFrom(["4v4"], {}) == ["4v4"] + DedupFrom([], {"4v4"});
  }

  /** "Desbloquear Modo" has lost the "4v4". */
  lemma TokenLostExample()
    ensures MissingTokens(["4v4"], "Desbloquear Modo") == ["4v4"]
  {
    assert '4' !in "Desbloquear Modo";
    NormalizeLacks("Desbloquear Modo", '4');
    assert Normalize("4v4")[0] == '4';
    LacksFirstChar(Normalize("Desbloquear Modo"), Normalize("4v4"));
  }

  /** A translation that dropped "4v4" gets it back in front. */
  lemma LostTokenExample()
    ensures EnforceNumericTokens("Unlock 4v4 Mode", "Desbloquear Modo")
         == Enforced("4v4" + " " + "Desbloquear Modo", ["4v4"])
  {
    DimensionPairExample();
    TokenLostExample();
    LostTokenText();
  }

  lemma LostTokenText()
    ensures Trim(Join(["4v4"], " ") + " " + "Desbloquear Modo") == "4v4" + " " + "Desbloquear Modo"
  {
    assert Join(["4v4"], " ") == "4v4";
    TrimOfTrimmed("4v4" + " " + "Desbloquear Modo");
  }
}
