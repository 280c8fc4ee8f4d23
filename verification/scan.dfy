/** The global regular-expression replacements the generator applies to text
    (`s.replace(/.../g, ...)`), each written as a hand-made matcher.

    `ReplaceAll` follows the JavaScript semantics of a global replace: scan
    from the left, and at each index either the pattern matches (emit the
    replacement, continue after the match) or it does not (keep the
    character, continue at the next index). None of the patterns here can
    match the empty string, so no empty-match stepping rule is needed. */
module Scan {
  import opened Text

  /** One match: it covers the text up to `end` (exclusive) and is replaced
      by `replacement`. */
  datatype Hit = Hit(end: nat, replacement: string)

  /** The replacements used by the generator. */
  datatype Pattern =
      /** A fenced code block: three backticks, then anything, lazily, up to
          the next three backticks; replaced by one space. */
    | Fence
      /** Inline code: a backtick, one or more non-backticks, a backtick;
          replaced by the inner text. */
    | InlineCode
      /** An image: `![`, non-`]` characters, `](`, non-`)` characters, `)`;
          replaced by one space. */
    | Image
      /** A link: `[`, one or more non-`]` characters, `](`, non-`)`
          characters, `)`; replaced by the link text. */
    | Link
      /** At the start of a line: one to six `#` followed by a whitespace
          run; removed. */
    | HeadingMarker
      /** One of `>`, `*`, `_`, `~`; removed. */
    | Emphasis
      /** A run of newlines; replaced by one space. */
    | NewlineRun
      /** A run of whitespace; replaced by `rep`. */
    | SpaceRun(rep: string)
      /** A run of hyphens; replaced by one hyphen. */
    | DashRun
      /** An HTML entity `&name;` (letters of either case) or `&#digits;`;
          replaced by one space. */
    | Entity
      /** A tag: `<`, one or more non-`>` characters, `>`; removed. */
    | Tag
      /** A character other than a lower-case letter, a digit, whitespace or
          a hyphen; removed. */
    | NotSlugChar
      /** One occurrence of the character `c`; replaced by `rep`. */
    | Literal(c: char, rep: string)

  /** The index just past the run of characters satisfying `p` that starts
      at `i`. */
  function RunEnd(s: string, i: nat, p: char -> bool): (e: nat)
    requires i <= |s|
    ensures i <= e <= |s|
    ensures forall k :: i <= k < e ==> p(s[k])
    ensures e == |s| || !p(s[e])
    decreases |s| - i
  {
    if i < |s| && p(s[i]) then RunEnd(s, i + 1, p) else i
  }

  predicate IsNewline(c: char) { c == '\n' }

  predicate IsHash(c: char) { c == '#' }

  predicate IsDash(c: char) { c == '-' }

  predicate IsEmphasisChar(c: char) { c == '>' || c == '*' || c == '_' || c == '~' }

  /** The characters a slug may keep before whitespace is turned into
      hyphens. */
  predicate IsSlugOrSpace(c: char) { IsLower(c) || IsDigit(c) || IsSpace(c) || c == '-' }

  /** `^` under the multiline flag: the start of the text or just after a
      line terminator. */
  predicate LineStart(s: string, i: nat)
    requires i <= |s|
  {
    i == 0 || s[i - 1] == '\n' || s[i - 1] == '\r'
  }

  /** The match of `p` at index `i`, if any. */
  function MatchAt(p: Pattern, s: string, i: nat): (h: Option<Hit>)
    requires i < |s|
    ensures h.Some? ==> i < h.value.end <= |s|
  {
    match p
    case Fence =>
      if OccursAt(s, i, "```") then
        match FindSub(s, i + 3, "```")
        case Some(j) => Some(Hit(j + 3, " "))
        case None => None
      else None
    case InlineCode =>
      if s[i] == '`' && i + 1 < |s| && s[i + 1] != '`' then
        match FindChar(s, i + 1, '`')
        case Some(j) => Some(Hit(j + 1, s[i + 1..j]))
        case None => None
      else None
    case Image =>
      if s[i] == '!' && i + 1 < |s| && s[i + 1] == '[' then
        match FindChar(s, i + 2, ']')
        case Some(j) =>
          if j + 1 < |s| && s[j + 1] == '(' then
            match FindChar(s, j + 2, ')')
            case Some(k) => Some(Hit(k + 1, " "))
            case None => None
          else None
        case None => None
      else None
    case Link =>
      if s[i] == '[' && i + 1 < |s| && s[i + 1] != ']' then
        match FindChar(s, i + 1, ']')
        case Some(j) =>
          if j + 1 < |s| && s[j + 1] == '(' then
            match FindChar(s, j + 2, ')')
            case Some(k) => Some(Hit(k + 1, s[i + 1..j]))
            case None => None
          else None
        case None => None
      else None
    case HeadingMarker =>
      if LineStart(s, i) && s[i] == '#' then
        var e := RunEnd(s, i, IsHash);
        if e - i <= 6 && e < |s| && IsSpace(s[e]) then Some(Hit(RunEnd(s, e, IsSpace), "")) else None
      else None
    case Emphasis =>
      if IsEmphasisChar(s[i]) then Some(Hit(i + 1, "")) else None
    case NewlineRun =>
      if s[i] == '\n' then Some(Hit(RunEnd(s, i, IsNewline), " ")) else None
    case SpaceRun(rep) =>
      if IsSpace(s[i]) then Some(Hit(RunEnd(s, i, IsSpace), rep)) else None
    case DashRun =>
      if s[i] == '-' then Some(Hit(RunEnd(s, i, IsDash), "-")) else None
    case Entity =>
      if s[i] == '&' && i + 1 < |s| then
        if IsLetter(s[i + 1]) then
          var e := RunEnd(s, i + 1, IsLetter);
          if e < |s| && s[e] == ';' then Some(Hit(e + 1, " ")) else None
        else if s[i + 1] == '#' && i + 2 < |s| && IsDigit(s[i + 2]) then
          var e := RunEnd(s, i + 2, IsDigit);
          if e < |s| && s[e] == ';' then Some(Hit(e + 1, " ")) else None
        else None
      else None
    case Tag =>
      if s[i] == '<' && i + 1 < |s| && s[i + 1] != '>' then
        match FindChar(s, i + 1, '>')
        case Some(j) => Some(Hit(j + 1, ""))
        case None => None
      else None
    case NotSlugChar =>
      if !IsSlugOrSpace(s[i]) then Some(Hit(i + 1, "")) else None
    case Literal(c, rep) =>
      if s[i] == c then Some(Hit(i + 1, rep)) else None
  }

  /** The global replace of `p` over `s[i..]`. */
  function ReplaceAll(p: Pattern, s: string, i: nat): string
    requires i <= |s|
    decreases |s| - i
  {
    if i == |s| then ""
    else
      match MatchAt(p, s, i)
      case Some(h) => h.replacement + ReplaceAll(p, s, h.end)
      case None => [s[i]] + ReplaceAll(p, s, i + 1)
  }

  function Replace(p: Pattern, s: string): string {
    ReplaceAll(p, s, 0)
  }

  /** Characters that a replacement of `p` may bring in that were not in the
      text. */
  predicate Introduces(p: Pattern, c: char) {
    match p
    case Fence => c == ' '
    case Image => c == ' '
    case NewlineRun => c == ' '
    case SpaceRun(rep) => c in rep
    case DashRun => c == '-'
    case Entity => c == ' '
    case Literal(_, rep) => c in rep
    case _ => false
  }

  /** A global replace changes nothing when every match would be replaced by
      the text it covers (in particular when nothing matches). */
  lemma {:induction false} ReplaceIdentity(p: Pattern, s: string, i: nat)
    requires i <= |s|
    requires forall k :: i <= k < |s| && MatchAt(p, s, k).Some? ==>
      MatchAt(p, s, k).value.replacement == s[k..MatchAt(p, s, k).value.end]
    ensures ReplaceAll(p, s, i) == s[i..]
    decreases |s| - i
  {
    if i < |s| {
      ReplaceStep(p, s, i);
      if MatchAt(p, s, i).Some? {
        var e := MatchAt(p, s, i).value.end;
        ReplaceIdentity(p, s, e);
        SliceSplit(s, i, e);
      } else {
        ReplaceIdentity(p, s, i + 1);
        SliceSplit(s, i, i + 1);
      }
    }
  }

  lemma SliceSplit<T>(s: seq<T>, i: nat, e: nat)
    requires i < e <= |s|
    ensures s[i..] == s[i..e] + s[e..] && s[i..i + 1] == [s[i]]
  {
  }

  /** One step of a global replace. */
  lemma ReplaceStep(p: Pattern, s: string, i: nat)
    requires i < |s|
    ensures MatchAt(p, s, i).Some? ==>
      ReplaceAll(p, s, i) == MatchAt(p, s, i).value.replacement + ReplaceAll(p, s, MatchAt(p, s, i).value.end)
    ensures MatchAt(p, s, i).None? ==> ReplaceAll(p, s, i) == [s[i]] + ReplaceAll(p, s, i + 1)
  {
  }

  /** An index where the pattern does not match is kept. */
  lemma KeptStep(p: Pattern, s: string, i: nat)
    requires i < |s| && MatchAt(p, s, i).None?
    ensures ReplaceAll(p, s, i) == [s[i]] + ReplaceAll(p, s, i + 1)
  {
  }

  lemma NoMatchIdentity(p: Pattern, s: string)
    requires forall k :: 0 <= k < |s| ==> MatchAt(p, s, k).None?
    ensures Replace(p, s) == s
  {
    ReplaceIdentity(p, s, 0);
  }

  /** Every character of the output was kept from an unmatched index of the
      text, or came from a replacement. */
  lemma {:induction false} OutputChars(p: Pattern, s: string, i: nat, c: char)
    requires i <= |s|
    requires c in ReplaceAll(p, s, i)
    ensures (exists k :: i <= k < |s| && s[k] == c && MatchAt(p, s, k).None?)
         || (exists k :: i <= k < |s| && MatchAt(p, s, k).Some? && c in MatchAt(p, s, k).value.replacement)
    decreases |s| - i
  {
    match MatchAt(p, s, i)
    case Some(h) =>
      if c !in h.replacement {
        OutputChars(p, s, h.end, c);
      }
    case None =>
      if c != s[i] {
        OutputChars(p, s, i + 1, c);
      }
  }

  /** Replacements of `p` only bring in characters of the matched text and
      the characters `Introduces` names. */
  lemma ReplacementChars(p: Pattern, s: string, k: nat)
    requires k < |s| && MatchAt(p, s, k).Some?
    ensures forall c :: c in MatchAt(p, s, k).value.replacement ==>
      (exists j :: k <= j < MatchAt(p, s, k).value.end && s[j] == c) || Introduces(p, c)
  {
    var e := MatchAt(p, s, k).value.end;
    match p
    case InlineCode =>
      var m := s[k + 1..FindChar(s, k + 1, '`').value];
      assert forall i :: 0 <= i < |m| ==> m[i] == s[k + 1 + i];
    case Link =>
      var m := s[k + 1..FindChar(s, k + 1, ']').value];
      assert forall i :: 0 <= i < |m| ==> m[i] == s[k + 1 + i];
    case _ =>
  }

  /** A character that is neither in the text nor introduced by the pattern
      is not in the output. */
  lemma {:induction false} AbsentStaysAbsent(p: Pattern, s: string, i: nat, c: char)
    requires i <= |s|
    requires forall k :: i <= k < |s| ==> s[k] != c
    requires !Introduces(p, c)
    ensures c !in ReplaceAll(p, s, i)
    decreases |s| - i
  {
    if i < |s| {
      match MatchAt(p, s, i)
      case Some(h) =>
        AbsentStaysAbsent(p, s, h.end, c);
        ReplacementChars(p, s, i);
      case None =>
        AbsentStaysAbsent(p, s, i + 1, c);
    }
  }

  lemma CharsOfReplace(p: Pattern, s: string, c: char)
    requires c in Replace(p, s)
    ensures c in s || Introduces(p, c)
  {
    if c !in s && !Introduces(p, c) {
      AbsentStaysAbsent(p, s, 0, c);
    }
  }

  /** A literal replacement works character by character. */
  lemma {:induction false} LiteralAppend(c: char, rep: string, a: string, b: string, i: nat)
    requires i <= |a|
    ensures ReplaceAll(Literal(c, rep), a + b, i) == ReplaceAll(Literal(c, rep), a, i) + Replace(Literal(c, rep), b)
    decreases |a| - i
  {
    var p := Literal(c, rep);
    if i == |a| {
      LiteralShift(c, rep, a, b, 0);
    } else {
      var s := a + b;
      assert s[i] == a[i];
      LiteralAppend(c, rep, a, b, i + 1);
      LiteralStep(c, rep, s, i);
      LiteralStep(c, rep, a, i);
      ConcatAssoc(if a[i] == c then rep else [a[i]], ReplaceAll(p, a, i + 1), Replace(p, b));
    }
  }

  lemma {:induction false} LiteralShift(c: char, rep: string, a: string, b: string, i: nat)
    requires i <= |b|
    ensures ReplaceAll(Literal(c, rep), a + b, |a| + i) == ReplaceAll(Literal(c, rep), b, i)
    decreases |b| - i
  {
    if i < |b| {
      assert (a + b)[|a| + i] == b[i];
      LiteralShift(c, rep, a, b, i + 1);
      LiteralStep(c, rep, a + b, |a| + i);
      LiteralStep(c, rep, b, i);
    }
  }

  lemma ConcatAssoc(x: string, y: string, z: string)
    ensures x + (y + z) == (x + y) + z
  {
  }

  /** One step of a literal replacement. */
  lemma LiteralStep(c: char, rep: string, s: string, i: nat)
    requires i < |s|
    ensures ReplaceAll(Literal(c, rep), s, i) ==
      (if s[i] == c then rep else [s[i]]) + ReplaceAll(Literal(c, rep), s, i + 1)
  {
  }

  /** Whitespace that is already single spaces is kept by the pass that
      turns whitespace runs into one space. */
  lemma SingleSpacesKept(s: string)
    requires Collapsed(s)
    ensures Replace(SpaceRun(" "), s) == s
  {
    forall k | 0 <= k < |s| && MatchAt(SpaceRun(" "), s, k).Some?
      ensures MatchAt(SpaceRun(" "), s, k).value.replacement == s[k..MatchAt(SpaceRun(" "), s, k).value.end]
    {
      assert RunEnd(s, k, IsSpace) == k + 1;
    }
    ReplaceIdentity(SpaceRun(" "), s, 0);
  }

  /** Over text whose whitespace is single spaces, replacing whitespace runs
      is replacing each space on its own. */
  lemma {:induction false} SingleSpacesAsLiteral(rep: string, s: string, i: nat)
    requires i <= |s| && Collapsed(s)
    ensures ReplaceAll(SpaceRun(rep), s, i) == ReplaceAll(Literal(' ', rep), s, i)
    decreases |s| - i
  {
    if i < |s| {
      SingleSpacesAsLiteral(rep, s, i + 1);
      ReplaceStep(SpaceRun(rep), s, i);
      LiteralStep(' ', rep, s, i);
      if IsSpace(s[i]) {
        assert RunEnd(s, i + 1, IsSpace) == i + 1;
      }
    }
  }

  /** `s` with every `c` turned into `d`. */
  function SwapChar(c: char, d: char, s: string): (r: string)
    ensures |r| == |s|
    ensures forall k :: 0 <= k < |s| ==> r[k] == (if s[k] == c then d else s[k])
  {
    seq(|s|, k requires 0 <= k < |s| => if s[k] == c then d else s[k])
  }

  lemma SwapCharCons(c: char, d: char, s: string)
    requires |s| > 0
    ensures SwapChar(c, d, s) == [if s[0] == c then d else s[0]] + SwapChar(c, d, s[1..])
  {
  }

  /** Replacing a character by one character maps the text position by
      position. */
  lemma {:induction false} LiteralCharwise(c: char, d: char, s: string, i: nat)
    requires i <= |s|
    ensures ReplaceAll(Literal(c, [d]), s, i) == SwapChar(c, d, s[i..])
    decreases |s| - i
  {
    if i < |s| {
      LiteralCharwise(c, d, s, i + 1);
      LiteralStep(c, [d], s, i);
      SwapCharCons(c, d, s[i..]);
      assert s[i..][1..] == s[i + 1..];
    } else {
      assert s[i..] == "";
    }
  }

  /** Turning each whitespace run into one space collapses the text. */
  lemma {:induction false} SpaceRunCollapsed(s: string, i: nat)
    requires i <= |s|
    ensures Collapsed(ReplaceAll(SpaceRun(" "), s, i))
    ensures i < |s| && !IsSpace(s[i]) ==> ReplaceAll(SpaceRun(" "), s, i)[0] == s[i]
    decreases |s| - i
  {
    if i < |s| {
      ReplaceStep(SpaceRun(" "), s, i);
      if IsSpace(s[i]) {
        var e := RunEnd(s, i, IsSpace);
        SpaceRunCollapsed(s, e);
        CollapsedCons(' ', ReplaceAll(SpaceRun(" "), s, e));
      } else {
        SpaceRunCollapsed(s, i + 1);
        CollapsedCons(s[i], ReplaceAll(SpaceRun(" "), s, i + 1));
      }
    }
  }

  /** A character in front of a collapsed text keeps it collapsed when it
      is not whitespace, or is one space before a text that does not start
      with whitespace. */
  lemma CollapsedCons(c: char, t: string)
    requires Collapsed(t)
    requires IsSpace(c) ==> c == ' ' && (|t| == 0 || !IsSpace(t[0]))
    ensures Collapsed([c] + t)
  {
    assert forall k :: 1 <= k < |t| + 1 ==> ([c] + t)[k] == t[k - 1];
  }
}
