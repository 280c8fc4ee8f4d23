/** Text shaping for listings and metadata (generate-static-posts.mjs,
    `escapeHtml`, `stripMarkdown`, `truncateText` and
    `estimateReadingTimeMinutes`). */
module Metrics {
  import opened Text
  import opened Scan

  // ---------------------------------------------------------------------
  // HTML escaping
  // ---------------------------------------------------------------------

  /** `escapeHtml`: five global replacements, ampersands first. */
  function EscapeHtml(value: string): (r: string)
    ensures '<' !in r && '>' !in r && '"' !in r && '\'' !in r
  {
    EscapeEquivalent(value);
    EscapedCharsSafe(value);
    EscapePasses(value)
  }

  /** The entity a single character escapes to. */
  function EscapeChar(c: char): string {
    if c == '&' then "&amp;"
    else if c == '<' then "&lt;"
    else if c == '>' then "&gt;"
    else if c == '"' then "&quot;"
    else if c == '\'' then "&#39;"
    else [c]
  }

  /** Escaping character by character: the reference for `EscapeHtml`. */
  function EscapeChars(s: string): string
    decreases |s|
  {
    if |s| == 0 then "" else EscapeChar(s[0]) + EscapeChars(s[1..])
  }

  /** The five passes of `escapeHtml`, in the order it applies them. */
  function EscapePasses(value: string): string {
    Replace(Literal('\'', "&#39;"),
      Replace(Literal('"', "&quot;"),
        Replace(Literal('>', "&gt;"),
          Replace(Literal('<', "&lt;"),
            Replace(Literal('&', "&amp;"), value)))))
  }

  lemma LiteralSplit(c: char, rep: string, a: string, b: string)
    ensures Replace(Literal(c, rep), a + b) == Replace(Literal(c, rep), a) + Replace(Literal(c, rep), b)
  {
    LiteralAppend(c, rep, a, b, 0);
  }

  lemma PassesSplit(a: string, b: string)
    ensures EscapePasses(a + b) == EscapePasses(a) + EscapePasses(b)
  {
    var a1 := Replace(Literal('&', "&amp;"), a);
    var b1 := Replace(Literal('&', "&amp;"), b);
    LiteralSplit('&', "&amp;", a, b);
    var a2 := Replace(Literal('<', "&lt;"), a1);
    var b2 := Replace(Literal('<', "&lt;"), b1);
    LiteralSplit('<', "&lt;", a1, b1);
    var a3 := Replace(Literal('>', "&gt;"), a2);
    var b3 := Replace(Literal('>', "&gt;"), b2);
    LiteralSplit('>', "&gt;", a2, b2);
    var a4 := Replace(Literal('"', "&quot;"), a3);
    var b4 := Replace(Literal('"', "&quot;"), b3);
    LiteralSplit('"', "&quot;", a3, b3);
    LiteralSplit('\'', "&#39;", a4, b4);
  }

  lemma LiteralAbsent(c: char, rep: string, s: string)
    requires c !in s
    ensures Replace(Literal(c, rep), s) == s
  {
    NoMatchIdentity(Literal(c, rep), s);
  }

  lemma LiteralOne(c: char, rep: string)
    ensures Replace(Literal(c, rep), [c]) == rep
  {
    assert ReplaceAll(Literal(c, rep), [c], 1) == "";
    assert rep + "" == rep;
  }

  /** On one character the passes give that character's entity. */
  lemma PassesChar(c: char)
    ensures EscapePasses([c]) == EscapeChar(c)
  {
    if c == '&' {
      PassesEntity(c, "&amp;");
    } else if c == '<' {
      LiteralAbsent('&', "&amp;", [c]);
      PassesEntity(c, "&lt;");
    } else if c == '>' {
      LiteralAbsent('&', "&amp;", [c]);
      LiteralAbsent('<', "&lt;", [c]);
      PassesEntity(c, "&gt;");
    } else if c == '"' {
      LiteralAbsent('&', "&amp;", [c]);
      LiteralAbsent('<', "&lt;", [c]);
      LiteralAbsent('>', "&gt;", [c]);
      PassesEntity(c, "&quot;");
    } else if c == '\'' {
      LiteralAbsent('&', "&amp;", [c]);
      LiteralAbsent('<', "&lt;", [c]);
      LiteralAbsent('>', "&gt;", [c]);
      LiteralAbsent('"', "&quot;", [c]);
      LiteralOne('\'', "&#39;");
    } else {
      LiteralAbsent('&', "&amp;", [c]);
      LiteralAbsent('<', "&lt;", [c]);
      LiteralAbsent('>', "&gt;", [c]);
      LiteralAbsent('"', "&quot;", [c]);
      LiteralAbsent('\'', "&#39;", [c]);
    }
  }

  /** An entity holds only `&`, `#`, `;`, letters and digits, so the passes
      after the one that produced it leave it alone. */
  lemma PassesEntity(c: char, e: string)
    requires (c, e) in {('&', "&amp;"), ('<', "&lt;"), ('>', "&gt;"), ('"', "&quot;")}
    ensures Replace(Literal(c, e), [c]) == e
    ensures c == '&' ==> Replace(Literal('\'', "&#39;"), Replace(Literal('"', "&quot;"),
      Replace(Literal('>', "&gt;"), Replace(Literal('<', "&lt;"), e)))) == e
    ensures c == '<' ==> Replace(Literal('\'', "&#39;"), Replace(Literal('"', "&quot;"),
      Replace(Literal('>', "&gt;"), e))) == e
    ensures c == '>' ==> Replace(Literal('\'', "&#39;"), Replace(Literal('"', "&quot;"), e)) == e
    ensures c == '"' ==> Replace(Literal('\'', "&#39;"), e) == e
  {
    LiteralOne(c, e);
    assert '<' !in e && '>' !in e && '"' !in e && '\'' !in e;
    LiteralAbsent('<', "&lt;", e);
    LiteralAbsent('>', "&gt;", e);
    LiteralAbsent('"', "&quot;", e);
    LiteralAbsent('\'', "&#39;", e);
  }

  /** The five passes escape each character on its own: the ampersand pass
      running first keeps the later entities from being escaped again. */
  lemma {:induction false} EscapeEquivalent(s: string)
    ensures EscapePasses(s) == EscapeChars(s)
    decreases |s|
  {
    if |s| == 0 {
      NoMatchIdentity(Literal('&', "&amp;"), s);
      NoMatchIdentity(Literal('<', "&lt;"), s);
      NoMatchIdentity(Literal('>', "&gt;"), s);
      NoMatchIdentity(Literal('"', "&quot;"), s);
      NoMatchIdentity(Literal('\'', "&#39;"), s);
    } else {
      assert s == [s[0]] + s[1..];
      PassesSplit([s[0]], s[1..]);
      PassesChar(s[0]);
      EscapeEquivalent(s[1..]);
    }
  }

  lemma {:induction false} EscapedCharsSafe(s: string)
    ensures '<' !in EscapeChars(s) && '>' !in EscapeChars(s) && '"' !in EscapeChars(s) && '\'' !in EscapeChars(s)
    decreases |s|
  {
    if |s| > 0 {
      EscapedCharsSafe(s[1..]);
      EscapedCharSafe(s[0]);
      SafeAppend(EscapeChar(s[0]), EscapeChars(s[1..]));
    }
  }

  /** No character `escapeHtml` escapes is left by escaping one character. */
  lemma EscapedCharSafe(c: char)
    ensures '<' !in EscapeChar(c) && '>' !in EscapeChar(c) && '"' !in EscapeChar(c) && '\'' !in EscapeChar(c)
  {
  }

  lemma SafeAppend(a: string, b: string)
    requires '<' !in a && '>' !in a && '"' !in a && '\'' !in a
    requires '<' !in b && '>' !in b && '"' !in b && '\'' !in b
    ensures '<' !in a + b && '>' !in a + b && '"' !in a + b && '\'' !in a + b
  {
  }

  /** The character an entity at the start of `s` stands for, and the
      entity's length. */
  function EntityAt(s: string): (r: Option<(char, nat)>)
    ensures r.Some? ==> 4 <= r.value.1 <= |s|
  {
    if |s| >= 5 && s[0] == '&' && s[1] == 'a' && s[2] == 'm' && s[3] == 'p' && s[4] == ';' then Some(('&', 5))
    else if |s| >= 4 && s[0] == '&' && s[1] == 'l' && s[2] == 't' && s[3] == ';' then Some(('<', 4))
    else if |s| >= 4 && s[0] == '&' && s[1] == 'g' && s[2] == 't' && s[3] == ';' then Some(('>', 4))
    else if |s| >= 6 && s[0] == '&' && s[1] == 'q' && s[2] == 'u' && s[3] == 'o' && s[4] == 't' && s[5] == ';' then Some(('"', 6))
    else if |s| >= 5 && s[0] == '&' && s[1] == '#' && s[2] == '3' && s[3] == '9' && s[4] == ';' then Some(('\'', 5))
    else None
  }

  /** Reads the five entities back; every other character stands for
      itself. */
  function Unescape(s: string): string
    decreases |s|
  {
    if |s| == 0 then ""
    else
      match EntityAt(s)
      case Some((c, n)) => [c] + Unescape(s[n..])
      case None => [s[0]] + Unescape(s[1..])
  }

  lemma UnescapeStep(c: char, t: string)
    ensures Unescape(EscapeChar(c) + t) == [c] + Unescape(t)
  {
    var e := EscapeChar(c);
    var s := e + t;
    assert forall k :: 0 <= k < |e| ==> s[k] == e[k];
    assert s[|e|..] == t;
    if |e| == 1 {
      assert s[0] == c && c != '&';
      assert EntityAt(s) == None;
    } else {
      assert EntityAt(s) == Some((c, |e|));
    }
  }

  /** Escaping loses nothing: unescaping gives the text back. */
  lemma {:induction false} EscapeRoundTrip(s: string)
    ensures Unescape(EscapeHtml(s)) == s
    decreases |s|
  {
    EscapeEquivalent(s);
    EscapeCharsRoundTrip(s);
  }

  lemma {:induction false} EscapeCharsRoundTrip(s: string)
    ensures Unescape(EscapeChars(s)) == s
    decreases |s|
  {
    if |s| > 0 {
      UnescapeStep(s[0], EscapeChars(s[1..]));
      EscapeCharsRoundTrip(s[1..]);
      assert s == [s[0]] + s[1..];
    }
  }

  // ---------------------------------------------------------------------
  // Plain text from markdown
  // ---------------------------------------------------------------------

  /** `stripMarkdown`: code, images and link targets removed, heading
      markers and emphasis characters dropped, whitespace collapsed to single
      spaces and the ends trimmed. */
  function StripMarkdown(markdown: string): (r: string)
    ensures IsTrimmed(r) && Collapsed(r)
    ensures '\n' !in r
    ensures forall k :: 0 <= k < |r| ==> !IsEmphasisChar(r[k])
  {
    var noEmphasis := Replace(Emphasis, StripStructure(markdown));
    var oneLine := Replace(NewlineRun, noEmphasis);
    var spaced := Replace(SpaceRun(" "), oneLine);
    EmphasisGone(StripStructure(markdown));
    EmphasisStaysGone(NewlineRun, noEmphasis);
    EmphasisStaysGone(SpaceRun(" "), oneLine);
    SpaceRunCollapsed(oneLine, 0);
    TrimKeepsCollapsed(spaced);
    Trim(spaced)
  }

  /** The passes of `stripMarkdown` that remove markdown structure. */
  function StripStructure(markdown: string): string {
    Replace(HeadingMarker,
      Replace(Link,
        Replace(Image,
          Replace(InlineCode,
            Replace(Fence, markdown)))))
  }

  lemma EmphasisGone(s: string)
    ensures forall c :: c in Replace(Emphasis, s) ==> !IsEmphasisChar(c)
  {
    forall c | c in Replace(Emphasis, s)
      ensures !IsEmphasisChar(c)
    {
      OutputChars(Emphasis, s, 0, c);
    }
  }

  lemma EmphasisStaysGone(p: Pattern, s: string)
    requires p == NewlineRun || p == SpaceRun(" ")
    requires forall c :: c in s ==> !IsEmphasisChar(c)
    ensures forall c :: c in Replace(p, s) ==> !IsEmphasisChar(c)
  {
    forall c | c in Replace(p, s)
      ensures !IsEmphasisChar(c)
    {
      CharsOfReplace(p, s, c);
    }
  }

  lemma TrimKeepsCollapsed(s: string)
    requires Collapsed(s)
    requires forall c :: c in s ==> !IsEmphasisChar(c)
    ensures Collapsed(Trim(s))
    ensures forall k :: 0 <= k < |Trim(s)| ==> !IsEmphasisChar(Trim(s)[k])
  {
    TrimCollapsed(s);
    var a := TrimOffset(s);
    var t := Trim(s);
    assert forall k :: 0 <= k < |t| ==> t[k] == s[a + k];
  }

  /** Text with nothing for the passes to act on: trimmed, single-spaced,
      without backticks, brackets, hashes or emphasis characters. */
  predicate PlainProse(s: string) {
    IsTrimmed(s) && Collapsed(s) &&
    forall k :: 0 <= k < |s| ==> s[k] != '`' && s[k] != '[' && s[k] != '#' && !IsEmphasisChar(s[k])
  }

  /** Plain prose comes out of `stripMarkdown` unchanged. */
  lemma PlainProseUnchanged(s: string)
    requires PlainProse(s)
    ensures StripMarkdown(s) == s
  {
    PlainProseNoStructure(s);
    NoMatchIdentity(Emphasis, s);
    NoMatchIdentity(NewlineRun, s);
    SingleSpacesKept(s);
    TrimTrimmed(s);
  }

  lemma PlainProseNoStructure(s: string)
    requires PlainProse(s)
    ensures StripStructure(s) == s
  {
    forall k | 0 <= k < |s|
      ensures MatchAt(Fence, s, k).None?
    {
      assert k + 3 <= |s| ==> s[k..k + 3][0] == s[k];
    }
    NoMatchIdentity(Fence, s);
    NoMatchIdentity(InlineCode, s);
    NoMatchIdentity(Image, s);
    NoMatchIdentity(Link, s);
    NoMatchIdentity(HeadingMarker, s);
  }

  // ---------------------------------------------------------------------
  // Truncation
  // ---------------------------------------------------------------------

  /** `truncateText`: text longer than `maxLength` is cut to that length,
      stripped of trailing whitespace and marked with an ellipsis. */
  function TruncateText(text: string, maxLength: nat): (r: string)
    ensures |text| <= maxLength ==> r == text
    ensures |text| > maxLength ==>
      |r| >= 3 && |r| <= maxLength + 3 && EndsWith(r, "...") &&
      StartsWith(text, r[..|r| - 3]) &&
      (|r| == 3 || !IsSpace(r[|r| - 4])) &&
      forall k :: |r| - 3 <= k < maxLength ==> IsSpace(text[k])
  {
    if |text| <= maxLength then text
    else
      var kept := TrimEnd(text[..maxLength]);
      assert (kept + "...")[..|kept|] == kept;
      assert text[..|kept|] == kept;
      assert (kept + "...")[|kept|..] == "...";
      kept + "..."
  }

  // ---------------------------------------------------------------------
  // Reading time
  // ---------------------------------------------------------------------

  const AverageReadingWpm: nat := 220

  predicate NoSpace(s: string) {
    forall k :: 0 <= k < |s| ==> !IsSpace(s[k])
  }

  /** The index just past the word that starts at `i`. */
  function WordEnd(s: string, i: nat): (e: nat)
    requires i <= |s|
    ensures i <= e <= |s|
    ensures forall k :: i <= k < e ==> !IsSpace(s[k])
    ensures e == |s| || IsSpace(s[e])
    decreases |s| - i
  {
    if i < |s| && !IsSpace(s[i]) then WordEnd(s, i + 1) else i
  }

  /** `s.split(/\s+/).filter(Boolean)`: the maximal runs of non-whitespace
      characters, in order. */
  function Words(s: string): (ws: seq<string>)
    ensures forall i :: 0 <= i < |ws| ==> |ws[i]| > 0 && NoSpace(ws[i])
    decreases |s|
  {
    if |s| == 0 then []
    else if IsSpace(s[0]) then Words(s[1..])
    else
      var e := WordEnd(s, 0);
      var w := s[..e];
      assert forall k :: 0 <= k < |w| ==> w[k] == s[k];
      [w] + Words(s[e..])
  }

  /** `estimateReadingTimeMinutes`: at least one minute, else the word count
      divided by the reading speed, rounded up. */
  function ReadingTime(plainText: string): (minutes: nat)
    ensures minutes >= 1
    ensures |plainText| == 0 || |Words(plainText)| == 0 ==> minutes == 1
    ensures |plainText| > 0 && |Words(plainText)| > 0 ==>
      (minutes - 1) * AverageReadingWpm < |Words(plainText)| <= minutes * AverageReadingWpm
  {
    if |plainText| == 0 then 1
    else
      var words := |Words(plainText)|;
      var m := (words + AverageReadingWpm - 1) / AverageReadingWpm;
      if m < 1 then 1 else m
  }

  /** Words joined by single spaces. */
  function Unwords(ws: seq<string>): string {
    Join(ws, " ")
  }

  lemma WordsOfWord(w: string, rest: string)
    requires |w| > 0 && NoSpace(w)
    requires |rest| == 0 || IsSpace(rest[0])
    ensures Words(w + rest) == [w] + Words(rest)
  {
    var s := w + rest;
    assert forall k :: 0 <= k < |w| ==> s[k] == w[k];
    assert |rest| > 0 ==> s[|w|] == rest[0];
    assert WordEnd(s, 0) == |w|;
    assert s[..|w|] == w;
    assert s[|w|..] == rest;
  }

  /** A word, a space and more text split into the word and the words of
      the rest. */
  lemma WordsSpaced(w: string, rest: string)
    requires |w| > 0 && NoSpace(w)
    ensures Words(w + " " + rest) == [w] + Words(rest)
  {
    var t := " " + rest;
    assert t[1..] == rest;
    assert Words(t) == Words(rest);
    WordsOfWord(w, t);
    assert w + " " + rest == w + t;
  }

  /** Splitting words joined by spaces gives the words back. */
  lemma {:induction false} WordsRoundTrip(ws: seq<string>)
    requires forall i :: 0 <= i < |ws| ==> |ws[i]| > 0 && NoSpace(ws[i])
    ensures Words(Unwords(ws)) == ws
    decreases |ws|
  {
    if |ws| == 1 {
      WordsOfWord(ws[0], "");
      assert ws[0] + "" == ws[0];
    } else if |ws| > 1 {
      JoinCons(ws[0], ws[1..], " ");
      assert ws == [ws[0]] + ws[1..];
      WordsRoundTrip(ws[1..]);
      WordsSpaced(ws[0], Join(ws[1..], " "));
    }
  }

  /** Trimmed text whose whitespace is single spaces, which is what
      `stripMarkdown` produces, is its own words joined by spaces: the
      words are exactly the text between the spaces. */
  lemma {:induction false} UnwordsWords(s: string)
    requires IsTrimmed(s) && Collapsed(s)
    ensures Unwords(Words(s)) == s
    decreases |s|
  {
    if |s| > 0 {
      var e := WordEnd(s, 0);
      if e < |s| {
        var rest := s[e + 1..];
        FirstWordSpaced(s);
        TailCollapsed(s, e + 1);
        UnwordsWords(rest);
        WordsEmpty(rest);
        JoinCons(s[..e], Words(rest), " ");
      } else {
        WordsOfWord(s, "");
        assert s + "" == s;
      }
    }
  }

  /** In trimmed, collapsed text holding a space, the first word is followed
      by one space and the rest of the words. */
  lemma FirstWordSpaced(s: string)
    requires IsTrimmed(s) && Collapsed(s) && |s| > 0 && WordEnd(s, 0) < |s|
    ensures var e := WordEnd(s, 0);
      e + 1 < |s| && s == s[..e] + " " + s[e + 1..] && Words(s) == [s[..e]] + Words(s[e + 1..])
  {
    var e := WordEnd(s, 0);
    assert s[e] == ' ';
    CutAt(s, e);
    WordsSpaced(s[..e], s[e + 1..]);
  }

  lemma CutAt(s: string, e: nat)
    requires e < |s|
    ensures s == s[..e] + [s[e]] + s[e + 1..]
  {
  }

  /** What follows a single space inside trimmed, collapsed text is again
      trimmed and collapsed, and not empty. */
  lemma TailCollapsed(s: string, i: nat)
    requires IsTrimmed(s) && Collapsed(s) && 0 < i <= |s| && IsSpace(s[i - 1])
    ensures IsTrimmed(s[i..]) && Collapsed(s[i..]) && |s[i..]| > 0
  {
    var t := s[i..];
    assert forall k :: 0 <= k < |t| ==> t[k] == s[i + k];
  }

  /** A text holds words exactly when it holds a character that is not
      whitespace. */
  lemma {:induction false} WordsEmpty(s: string)
    ensures |Words(s)| == 0 <==> AllSpace(s)
    decreases |s|
  {
    if |s| > 0 && IsSpace(s[0]) {
      WordsEmpty(s[1..]);
      assert forall k :: 1 <= k < |s| ==> s[k] == s[1..][k - 1];
    }
  }

  /** The boundary cases of the reading time: 440 words read in two
      minutes, 441 in three. */
  lemma ReadingTimeExamples(ws: seq<string>)
    requires forall i :: 0 <= i < |ws| ==> |ws[i]| > 0 && NoSpace(ws[i])
    ensures |ws| == 440 ==> ReadingTime(Unwords(ws)) == 2
    ensures |ws| == 441 ==> ReadingTime(Unwords(ws)) == 3
    ensures ReadingTime("") == 1
  {
    WordsRoundTrip(ws);
    if |ws| > 0 {
      assert |Unwords(ws)| > 0 by {
        assert Words(Unwords(ws)) == ws;
      }
    }
  }
}
