/**
 * Character classes and the small string operations the plugin takes from
 * JavaScript: `\d`, `\s`, `trim`, `toLowerCase` and `indexOf`.
 */
module Text {
  import opened Seqs

  /** `\d` in a regular expression without the `u` flag: ASCII digits only. */
  predicate IsDigit(c: char) {
    '0' <= c <= '9'
  }

  /** `\s`, which is also the set `String.prototype.trim` removes:
      ECMAScript WhiteSpace and LineTerminator code points. */
  predicate IsSpace(c: char) {
    c == '\t' || c == '\n' || c == '\U{000B}' || c == '\U{000C}' || c == '\r' || c == ' '
    || c == '\U{00A0}' || c == '\U{1680}' || ('\U{2000}' <= c <= '\U{200A}')
    || c == '\U{2028}' || c == '\U{2029}' || c == '\U{202F}' || c == '\U{205F}'
    || c == '\U{3000}' || c == '\U{FEFF}'
  }

  /** `toLowerCase` on one character, restricted to the ASCII range. */
  function Lower(c: char): (r: char)
    ensures IsSpace(c) <==> IsSpace(r)
    ensures IsDigit(c) <==> IsDigit(r)
  {
    if 'A' <= c <= 'Z' then (c as int + 32) as char else c
  }

  /** No character of `s` is whitespace. */
  ghost predicate SpaceFree(s: string) {
    forall k :: 0 <= k < |s| ==> !IsSpace(s[k])
  }

  ghost predicate AllSpace(s: string) {
    forall k :: 0 <= k < |s| ==> IsSpace(s[k])
  }

  /** `needle` occurs in `hay` starting at offset `i`. */
  ghost predicate OccursAt(hay: string, needle: string, i: int) {
    0 <= i && i + |needle| <= |hay| && hay[i..i + |needle|] == needle
  }

  ghost predicate IsSubstring(needle: string, hay: string) {
    exists i :: OccursAt(hay, needle, i)
  }

  /** Every character lower-cased, in place. */
  function LowerAll(s: string): (r: string)
    ensures |r| == |s|
  {
    seq(|s|, k requires 0 <= k < |s| => Lower(s[k]))
  }

  /** The first character is whitespace; the rest decides blankness. */
  lemma AllSpaceTail(s: string)
    requires |s| > 0 && IsSpace(s[0])
    ensures AllSpace(s) <==> AllSpace(s[1..])
  {
    if AllSpace(s[1..]) {
      assert forall k :: 1 <= k < |s| ==> s[k] == s[1..][k - 1];
    }
  }

  /** `value.replace(/\s+/g, "").toLowerCase()`: drop every whitespace
      character and lower-case the rest. */
  function Normalize(s: string): (r: string)
    ensures |r| <= |s|
    ensures SpaceFree(r)
    ensures |r| == 0 <==> AllSpace(s)
    ensures SpaceFree(s) ==> r == LowerAll(s)
    decreases |s|
  {
    if |s| == 0 then ""
    else if IsSpace(s[0]) then
      AllSpaceTail(s);
      Normalize(s[1..])
    else
      assert SpaceFree(s) ==> SpaceFree(s[1..]);
      assert SpaceFree(s) ==> [Lower(s[0])] + LowerAll(s[1..]) == LowerAll(s);
      [Lower(s[0])] + Normalize(s[1..])
  }

  /** One character: whitespace vanishes, anything else is lower-cased.
      With NormalizeConcat this fixes `Normalize` on every string. */
  lemma NormalizeChar(c: char)
    ensures Normalize([c]) == if IsSpace(c) then "" else [Lower(c)]
  {
    assert [c][1..] == "";
  }

  lemma {:induction false} NormalizeConcat(a: string, b: string)
    ensures Normalize(a + b) == Normalize(a) + Normalize(b)
    decreases |a|
  {
    if |a| == 0 {
      assert a + b == b;
    } else {
      TailOfConcat(a, b);
      NormalizeConcat(a[1..], b);
    }
  }

  /** Words joined by a space normalise to the words run together. */
  lemma NormalizeSpaced(a: string, b: string)
    ensures Normalize(a + " " + b) == Normalize(a) + Normalize(b)
  {
    NormalizeConcat(a + " ", b);
    NormalizeConcat(a, " ");
    NormalizeChar(' ');
  }

  lemma {:induction false} NormalizeAllSpace(s: string)
    requires AllSpace(s)
    ensures Normalize(s) == ""
    decreases |s|
  {
    if |s| > 0 {
      NormalizeAllSpace(s[1..]);
    }
  }

  /** `trimStart`: the suffix of `s` after its leading whitespace. */
  function TrimStart(s: string): (r: string)
    ensures |r| <= |s| && r == s[|s| - |r|..]
    ensures AllSpace(s[..|s| - |r|])
    ensures |r| > 0 ==> !IsSpace(r[0])
    decreases |s|
  {
    if |s| > 0 && IsSpace(s[0]) then
      var r := TrimStart(s[1..]);
      assert s[1..][..|s[1..]| - |r|] == s[1..|s| - |r|];
      r
    else s
  }

  /** Leading whitespace in front of a non-space is all dropped. */
  lemma {:induction false} TrimStartSpaces(w: string, b: string)
    requires AllSpace(w)
    requires |b| == 0 || !IsSpace(b[0])
    ensures TrimStart(w + b) == b
    decreases |w|
  {
    if |w| > 0 {
      assert (w + b)[0] == w[0] && (w + b)[1..] == w[1..] + b;
      TrimStartSpaces(w[1..], b);
    } else {
      assert w + b == b;
    }
  }

  /** `trimEnd`: the prefix of `s` before its trailing whitespace. */
  function TrimEnd(s: string): (r: string)
    ensures |r| <= |s| && r == s[..|r|]
    ensures AllSpace(s[|r|..])
    ensures |r| > 0 ==> !IsSpace(r[|r| - 1])
    decreases |s|
  {
    if |s| > 0 && IsSpace(s[|s| - 1]) then
      var r := TrimEnd(s[..|s| - 1]);
      assert AllSpace(s[|r|..]) by {
        forall k | 0 <= k < |s| - |r|
          ensures IsSpace(s[|r|..][k])
        {
          if |r| + k < |s| - 1 {
            assert s[|r|..][k] == s[..|s| - 1][|r|..][k];
          }
        }
      }
      r
    else s
  }

  /** Trailing whitespace is cut only from the part that holds it. */
  lemma {:induction false} TrimEndConcat(a: string, b: string)
    requires !AllSpace(b)
    ensures TrimEnd(a + b) == a + TrimEnd(b)
    decreases |b|
  {
    if IsSpace(b[|b| - 1]) {
      assert (a + b)[..|a + b| - 1] == a + b[..|b| - 1];
      assert !AllSpace(b[..|b| - 1]) by {
        if AllSpace(b[..|b| - 1]) {
          forall k | 0 <= k < |b|
            ensures IsSpace(b[k])
          {
            if k < |b| - 1 {
              assert b[k] == b[..|b| - 1][k];
            }
          }
        }
      }
      TrimEndConcat(a, b[..|b| - 1]);
    }
  }

  /** Whitespace after a string that ends in a non-space is all cut. */
  lemma {:induction false} TrimEndSpaces(a: string, b: string)
    requires |a| == 0 || !IsSpace(a[|a| - 1])
    requires AllSpace(b)
    ensures TrimEnd(a + b) == a
    decreases |b|
  {
    if |b| > 0 {
      assert (a + b)[..|a + b| - 1] == a + b[..|b| - 1];
      TrimEndSpaces(a, b[..|b| - 1]);
    } else {
      assert a + b == a;
    }
  }

  /** `String.prototype.trim`: leading whitespace is dropped one character
      at a time, then the trailing whitespace of what is left. */
  function Trim(s: string): (r: string)
    ensures |r| <= |s|
    ensures |r| > 0 ==> !IsSpace(r[0]) && !IsSpace(r[|r| - 1])
    ensures |r| == 0 <==> AllSpace(s)
    ensures StripsTo(s, r)
    decreases |s|
  {
    if |s| > 0 && IsSpace(s[0]) then
      AllSpaceTail(s);
      StripsToPrepend(s, Trim(s[1..]));
      Trim(s[1..])
    else
      var r := TrimEnd(s);
      assert |r| == 0 ==> s[|r|..] == s;
      StripsToTrimEnd(s);
      r
  }

  /** With nothing to strip at the front, `trim` only strips the end. */
  lemma TrimFromNonSpace(s: string)
    requires |s| > 0 && !IsSpace(s[0])
    ensures Trim(s) == TrimEnd(s)
  {
  }

  /** `r` is `s` with some whitespace removed from its start and its end. */
  ghost predicate StripsTo(s: string, r: string) {
    exists i :: 0 <= i <= |s| - |r| && s[i..i + |r|] == r && AllSpace(s[..i]) && AllSpace(s[i + |r|..])
  }

  lemma StripsToTrimEnd(s: string)
    ensures StripsTo(s, TrimEnd(s))
  {
    var r := TrimEnd(s);
    assert s[0..|r|] == r && s[..0] == "";
  }

  lemma StripsToPrepend(s: string, r: string)
    requires |s| > 0 && IsSpace(s[0]) && StripsTo(s[1..], r)
    ensures StripsTo(s, r)
  {
    var i :| 0 <= i <= |s[1..]| - |r| && s[1..][i..i + |r|] == r && AllSpace(s[1..][..i])
             && AllSpace(s[1..][i + |r|..]);
    assert s[i + 1..i + 1 + |r|] == r;
    assert s[i + 1 + |r|..] == s[1..][i + |r|..];
    var front := s[..i + 1];
    forall k | 0 <= k < |front|
      ensures IsSpace(front[k])
    {
      if k > 0 {
        assert front[k] == s[1..][..i][k - 1];
      }
    }
  }

  /** Trimming only removes whitespace, so it is invisible after `Normalize`. */
  lemma {:induction false} NormalizeTrim(s: string)
    ensures Normalize(Trim(s)) == Normalize(s)
    decreases |s|
  {
    if |s| > 0 && IsSpace(s[0]) {
      NormalizeTrim(s[1..]);
    } else {
      var r := TrimEnd(s);
      assert s == r + s[|r|..];
      NormalizeConcat(r, s[|r|..]);
      NormalizeAllSpace(s[|r|..]);
    }
  }

  /** Non-empty, with no whitespace at either end: what `trim` leaves of a
      string that is not blank. */
  predicate IsTrimmedWord(s: string) {
    |s| > 0 && !IsSpace(s[0]) && !IsSpace(s[|s| - 1])
  }

  /** A string with no whitespace at either end is its own trim. */
  lemma TrimOfTrimmed(s: string)
    requires IsTrimmedWord(s)
    ensures Trim(s) == s
  {
  }

  /** A trimmed string is its own trim. */
  lemma TrimIdempotent(s: string)
    ensures Trim(Trim(s)) == Trim(s)
  {
    if |Trim(s)| > 0 {
      TrimOfTrimmed(Trim(s));
    }
  }

  /** `hay.indexOf(needle, from)`: the first offset at or after `from` where
      `needle` occurs, or -1. */
  function IndexOfFrom(hay: string, needle: string, from: nat): (r: int)
    ensures r == -1 || (from <= r && OccursAt(hay, needle, r))
    ensures r == -1 <==> forall i :: from <= i ==> !OccursAt(hay, needle, i)
    ensures r >= 0 ==> forall i :: from <= i < r ==> !OccursAt(hay, needle, i)
    decreases |hay| - from
  {
    if from + |needle| > |hay| then -1
    else if hay[from..from + |needle|] == needle then from
    else IndexOfFrom(hay, needle, from + 1)
  }

  function IndexOf(hay: string, needle: string): (r: int)
    ensures r >= 0 <==> IsSubstring(needle, hay)
    ensures r >= 0 ==> OccursAt(hay, needle, r) && forall i :: 0 <= i < r ==> !OccursAt(hay, needle, i)
  {
    IndexOfFrom(hay, needle, 0)
  }

  /** `hay.indexOf(needle) >= 0`. */
  predicate Contains(hay: string, needle: string)
    ensures Contains(hay, needle) <==> IsSubstring(needle, hay)
  {
    IndexOf(hay, needle) >= 0
  }

  lemma ContainsLeft(a: string, b: string, needle: string)
    requires Contains(a, needle)
    ensures Contains(a + b, needle)
  {
    var i := IndexOf(a, needle);
    assert (a + b)[i..i + |needle|] == a[i..i + |needle|];
    assert OccursAt(a + b, needle, i);
  }

  lemma ContainsRight(a: string, b: string, needle: string)
    requires Contains(b, needle)
    ensures Contains(a + b, needle)
  {
    var i := IndexOf(b, needle);
    assert (a + b)[|a| + i..|a| + i + |needle|] == b[i..i + |needle|];
    assert OccursAt(a + b, needle, |a| + i);
  }

  lemma ContainsSelf(s: string)
    ensures Contains(s, s)
  {
    assert OccursAt(s, s, 0);
  }

  /** A substring of `hay` survives normalisation of both sides. */
  lemma NormalizeKeepsSubstring(needle: string, hay: string)
    requires IsSubstring(needle, hay)
    ensures Contains(Normalize(hay), Normalize(needle))
  {
    var i :| OccursAt(hay, needle, i);
    var a, b := hay[..i], hay[i + |needle|..];
    assert hay == a + needle + b;
    NormalizeConcat(a + needle, b);
    NormalizeConcat(a, needle);
    ContainsSelf(Normalize(needle));
    ContainsRight(Normalize(a), Normalize(needle), Normalize(needle));
    ContainsLeft(Normalize(a) + Normalize(needle), Normalize(b), Normalize(needle));
  }

  /** A string cannot contain a needle whose first character it lacks. */
  lemma LacksFirstChar(hay: string, needle: string)
    requires |needle| > 0 && needle[0] !in hay
    ensures !Contains(hay, needle)
  {
  }

  /** `Normalize` introduces no character that only lower-cases to itself. */
  lemma {:induction false} NormalizeLacks(s: string, c: char)
    requires c !in s && forall d :: Lower(d) == c ==> d == c
    ensures c !in Normalize(s)
    decreases |s|
  {
    if |s| > 0 {
      NormalizeLacks(s[1..], c);
      assert s[0] != c;
    }
  }
}
