/** URL slugs and tag stripping (generate-static-posts.mjs, `slugify` and
    `stripHtmlTags`). */
module Slug {
  import opened Text
  import opened Scan

  predicate IsSlugChar(c: char) { IsLower(c) || IsDigit(c) || c == '-' }

  predicate NoDoubleDash(s: string) {
    forall k :: 0 <= k < |s| - 1 ==> !(s[k] == '-' && s[k + 1] == '-')
  }

  /** What `slugify` can produce: lower-case letters, digits and single
      hyphens. */
  predicate IsSlug(s: string) {
    (forall k :: 0 <= k < |s| ==> IsSlugChar(s[k])) && NoDoubleDash(s)
  }

  /** `slugify`: lower-case, turn entities into spaces, drop every character
      that is not a letter, digit, whitespace or hyphen, trim, turn whitespace
      runs into hyphens and hyphen runs into one hyphen. */
  function Slugify(value: string): (r: string)
    ensures IsSlug(r)
  {
    var lowered := Lower(value);
    var noEntities := Replace(Entity, lowered);
    var kept := Replace(NotSlugChar, noEntities);
    var trimmed := Trim(kept);
    var hyphenated := Replace(SpaceRun("-"), trimmed);
    KeptSlugOrSpace(noEntities);
    TrimmedSlugOrSpace(kept);
    HyphenatedSlugChars(trimmed);
    DashRunSlug(hyphenated);
    Replace(DashRun, hyphenated)
  }

  lemma KeptSlugOrSpace(s: string)
    ensures forall c :: c in Replace(NotSlugChar, s) ==> IsSlugOrSpace(c)
  {
    forall c | c in Replace(NotSlugChar, s)
      ensures IsSlugOrSpace(c)
    {
      OutputChars(NotSlugChar, s, 0, c);
    }
  }

  lemma TrimmedSlugOrSpace(s: string)
    requires forall c :: c in s ==> IsSlugOrSpace(c)
    ensures forall c :: c in Trim(s) ==> IsSlugOrSpace(c)
  {
    var t := Trim(s);
    assert forall j :: 0 <= j < |t| ==> t[j] == s[TrimOffset(s) + j];
  }

  lemma HyphenatedSlugChars(s: string)
    requires forall c :: c in s ==> IsSlugOrSpace(c)
    ensures forall c :: c in Replace(SpaceRun("-"), s) ==> IsSlugChar(c)
  {
    forall c | c in Replace(SpaceRun("-"), s)
      ensures IsSlugChar(c)
    {
      OutputChars(SpaceRun("-"), s, 0, c);
      if exists k :: 0 <= k < |s| && s[k] == c && MatchAt(SpaceRun("-"), s, k).None? {
        var k :| 0 <= k < |s| && s[k] == c && MatchAt(SpaceRun("-"), s, k).None?;
        assert IsSlugOrSpace(s[k]) && !IsSpace(s[k]);
      }
    }
  }

  lemma DashRunSlug(s: string)
    requires forall c :: c in s ==> IsSlugChar(c)
    ensures IsSlug(Replace(DashRun, s))
  {
    var r := Replace(DashRun, s);
    forall k | 0 <= k < |r|
      ensures IsSlugChar(r[k])
    {
      OutputChars(DashRun, s, 0, r[k]);
    }
    DashRunNoDouble(s, 0);
  }

  /** Replacing hyphen runs by one hyphen leaves no doubled hyphen. */
  lemma {:induction false} DashRunNoDouble(s: string, i: nat)
    requires i <= |s|
    ensures NoDoubleDash(ReplaceAll(DashRun, s, i))
    decreases |s| - i
  {
    if i < |s| {
      if s[i] == '-' {
        var e := RunEnd(s, i, IsDash);
        DashRunNoDouble(s, e);
        var t := ReplaceAll(DashRun, s, e);
        assert ReplaceAll(DashRun, s, i) == "-" + t;
        assert e < |s| ==> t[0] == s[e];
      } else {
        DashRunNoDouble(s, i + 1);
      }
    }
  }

  /** `slugify` is the identity on slugs, so applying it twice is the same
      as applying it once. */
  lemma SlugifyOfSlug(x: string)
    requires IsSlug(x)
    ensures Slugify(x) == x
  {
    SlugifyUnfold(x);
    LowerOfLowerCase(x);
    SlugHasNoEntity(x);
    SlugKeepsAll(x);
    SlugIsTrimmed(x);
    TrimTrimmed(x);
    SlugHasNoSpace(x);
    SlugDashRuns(x);
  }

  /** `slugify` as its chain of passes. */
  lemma SlugifyUnfold(x: string)
    ensures Slugify(x) == Replace(DashRun, Replace(SpaceRun("-"), Trim(Replace(NotSlugChar, Replace(Entity, Lower(x))))))
  {
  }

  lemma SlugKeepsAll(x: string)
    requires IsSlug(x)
    ensures Replace(NotSlugChar, x) == x
  {
    NoMatchIdentity(NotSlugChar, x);
  }

  lemma SlugHasNoSpace(x: string)
    requires IsSlug(x)
    ensures Replace(SpaceRun("-"), x) == x
  {
    NoMatchIdentity(SpaceRun("-"), x);
  }

  lemma SlugHasNoEntity(x: string)
    requires IsSlug(x)
    ensures Replace(Entity, x) == x
  {
    NoMatchIdentity(Entity, x);
  }

  lemma SlugIsTrimmed(x: string)
    requires IsSlug(x)
    ensures IsTrimmed(x)
  {
  }

  /** Every hyphen run of a slug is a single hyphen, replaced by itself. */
  lemma SlugDashRuns(x: string)
    requires IsSlug(x)
    ensures Replace(DashRun, x) == x
  {
    forall k | 0 <= k < |x| && MatchAt(DashRun, x, k).Some?
      ensures MatchAt(DashRun, x, k).value.replacement == x[k..MatchAt(DashRun, x, k).value.end]
    {
      assert k + 1 < |x| ==> x[k + 1] != '-';
      assert RunEnd(x, k, IsDash) == k + 1;
    }
    ReplaceIdentity(DashRun, x, 0);
  }

  /** Words of letters and digits separated by single spaces, as a
      heading's plain text usually is. */
  predicate SpacedWords(x: string) {
    IsTrimmed(x) && Collapsed(x) && forall k :: 0 <= k < |x| ==> IsLetter(x[k]) || IsDigit(x[k]) || x[k] == ' '
  }

  /** Such text is slugified by lower-casing it and turning each space into
      a hyphen: `Setup 2` becomes `setup-2`. */
  lemma SlugifyWords(x: string)
    requires SpacedWords(x)
    ensures Slugify(x) == SwapChar(' ', '-', Lower(x))
  {
    var y := Lower(x);
    SlugifyUnfold(x);
    LoweredWords(x);
    KeptBeforeHyphens(y);
    HyphenatedWords(y);
  }

  /** Lower-case words and single spaces pass the entity, character and
      trimming steps unchanged. */
  lemma KeptBeforeHyphens(y: string)
    requires IsTrimmed(y) && forall k :: 0 <= k < |y| ==> IsLower(y[k]) || IsDigit(y[k]) || y[k] == ' '
    ensures Trim(Replace(NotSlugChar, Replace(Entity, y))) == y
  {
    NoMatchIdentity(Entity, y);
    NoMatchIdentity(NotSlugChar, y);
    TrimTrimmed(y);
  }

  /** The last two steps turn each single space into a hyphen. */
  lemma HyphenatedWords(y: string)
    requires Collapsed(y) && forall k :: 0 <= k < |y| ==> IsLower(y[k]) || IsDigit(y[k]) || y[k] == ' '
    ensures Replace(DashRun, Replace(SpaceRun("-"), y)) == SwapChar(' ', '-', y)
  {
    SingleSpacesAsLiteral("-", y, 0);
    LiteralCharwise(' ', '-', y, 0);
    assert y[0..] == y;
    HyphenatedIsSlug(y);
    SlugDashRuns(SwapChar(' ', '-', y));
  }

  /** Lower-casing keeps the spaces where they were and leaves lower-case
      letters and digits. */
  lemma LoweredWords(x: string)
    requires SpacedWords(x)
    ensures var y := Lower(x);
      IsTrimmed(y) && Collapsed(y) && forall k :: 0 <= k < |y| ==> IsLower(y[k]) || IsDigit(y[k]) || y[k] == ' '
  {
  }

  lemma HyphenatedIsSlug(y: string)
    requires Collapsed(y) && forall k :: 0 <= k < |y| ==> IsLower(y[k]) || IsDigit(y[k]) || y[k] == ' '
    ensures IsSlug(SwapChar(' ', '-', y))
  {
  }

  /** The slugs of the headings `Setup` and `Setup 2`. */
  lemma SlugifyExample(x: string)
    requires x == "Setup" || x == "Setup 2"
    ensures x == "Setup" ==> Slugify(x) == "setup"
    ensures x == "Setup 2" ==> Slugify(x) == "setup-2"
  {
    ExampleWords(x);
    SlugifyWords(x);
    ExampleHyphens(x);
  }

  lemma ExampleWords(x: string)
    requires x == "Setup" || x == "Setup 2"
    ensures SpacedWords(x)
  {
  }

  lemma ExampleHyphens(x: string)
    requires x == "Setup" || x == "Setup 2"
    ensures x == "Setup" ==> SwapChar(' ', '-', Lower(x)) == "setup"
    ensures x == "Setup 2" ==> SwapChar(' ', '-', Lower(x)) == "setup-2"
  {
  }

  lemma SlugifyIdempotent(x: string)
    ensures Slugify(Slugify(x)) == Slugify(x)
  {
    SlugifyOfSlug(Slugify(x));
  }

  // ---------------------------------------------------------------------
  // Tag stripping
  // ---------------------------------------------------------------------

  /** No tag left for the tag pattern to match. */
  predicate NoTag(s: string) {
    forall k :: 0 <= k < |s| ==> MatchAt(Tag, s, k).None?
  }

  /** `stripHtmlTags`: removes every `<...>` tag. */
  function StripHtmlTags(html: string): (r: string)
    ensures NoTag(r)
  {
    TagFreeOutput(html, 0);
    Replace(Tag, html)
  }

  lemma TagShift(c: char, t: string, k: nat)
    requires k < |t|
    ensures MatchAt(Tag, [c] + t, k + 1).None? <==> MatchAt(Tag, t, k).None?
  {
    var s := [c] + t;
    assert forall j :: 0 <= j < |t| ==> s[j + 1] == t[j];
    if k + 1 < |t| {
      var a := FindChar(s, k + 2, '>');
      var b := FindChar(t, k + 1, '>');
      if a.Some? {
        assert t[a.value - 1] == '>';
      }
      if b.Some? {
        assert s[b.value + 1] == '>';
      }
    }
  }

  lemma {:induction false} TagFreeOutput(s: string, i: nat)
    requires i <= |s|
    ensures NoTag(ReplaceAll(Tag, s, i))
    decreases |s| - i
  {
    if i < |s| {
      match MatchAt(Tag, s, i)
      case Some(h) =>
        TagFreeOutput(s, h.end);
        assert ReplaceAll(Tag, s, i) == ReplaceAll(Tag, s, h.end);
      case None =>
        TagFreeOutput(s, i + 1);
        var t := ReplaceAll(Tag, s, i + 1);
        var out := [s[i]] + t;
        assert ReplaceAll(Tag, s, i) == out;
        KeptCharStartsNoTag(s, i);
        forall k | 1 <= k < |out|
          ensures MatchAt(Tag, out, k).None?
        {
          TagShift(s[i], t, k - 1);
        }
    }
  }

  /** A `<` the tag pattern did not match does not start a tag in the
      output either. */
  lemma KeptCharStartsNoTag(s: string, i: nat)
    requires i < |s| && MatchAt(Tag, s, i).None?
    ensures MatchAt(Tag, [s[i]] + ReplaceAll(Tag, s, i + 1), 0).None?
  {
    var t := ReplaceAll(Tag, s, i + 1);
    var out := [s[i]] + t;
    if s[i] == '<' && i + 1 < |s| && s[i + 1] != '>' {
      AbsentStaysAbsent(Tag, s, i + 1, '>');
      assert forall j :: 1 <= j < |out| ==> out[j] == t[j - 1];
    }
    if s[i] == '<' && i + 1 < |s| && s[i + 1] == '>' {
      assert t[0] == '>';
    }
  }

  /** Stripping tags changes the text exactly when it holds a tag. */
  lemma StripHtmlTagsFixed(html: string)
    ensures StripHtmlTags(html) == html <==> NoTag(html)
  {
    if NoTag(html) {
      NoMatchIdentity(Tag, html);
    }
  }

  /** Text before the first `<` is kept as it is. */
  lemma StripHtmlTagsPrefix(a: string, b: string)
    requires '<' !in a
    ensures StripHtmlTags(a + b) == a + StripHtmlTags(b)
  {
    TagFreePrefix(a, b, 0);
  }

  /** A tag, `<` then one or more characters other than `>` then `>`, is
      removed with nothing in its place. */
  lemma StripHtmlTagsOfTag(a: string, t: string, b: string)
    requires '<' !in a && |t| > 0 && '>' !in t
    ensures StripHtmlTags(a + "<" + t + ">" + b) == a + StripHtmlTags(b)
  {
    var tagged := "<" + t + ">" + b;
    assert a + "<" + t + ">" + b == a + tagged;
    StripHtmlTagsPrefix(a, tagged);
    TagRemoved(t, b);
  }

  /** A tag at the start of the text is dropped. */
  lemma TagRemoved(t: string, b: string)
    requires |t| > 0 && '>' !in t
    ensures Replace(Tag, "<" + t + ">" + b) == Replace(Tag, b)
  {
    var tag := "<" + t + ">";
    var s := tag + b;
    assert s == "<" + t + ">" + b;
    assert forall k :: 1 <= k <= |t| ==> s[k] == t[k - 1];
    assert s[0] == '<' && s[1 + |t|] == '>';
    FindCharAt(s, 1, '>', 1 + |t|);
    ReplaceStep(Tag, s, 0);
    TagShiftAll(tag, b, 0);
  }

  /** Characters without `<` in front of the text leave its replacement
      as it is. */
  lemma {:induction false} TagFreePrefix(a: string, b: string, i: nat)
    requires i <= |a| && '<' !in a
    ensures ReplaceAll(Tag, a + b, i) == a[i..] + Replace(Tag, b)
    decreases |a| - i
  {
    if i == |a| {
      TagShiftAll(a, b, 0);
    } else {
      var s := a + b;
      assert s[i] == a[i] && a[i] != '<';
      KeptStep(Tag, s, i);
      TagFreePrefix(a, b, i + 1);
      assert a[i..] == [a[i]] + a[i + 1..];
    }
  }

  /** Replacing tags in `b` is the same whatever text stands before it. */
  lemma {:induction false} TagShiftAll(a: string, b: string, i: nat)
    requires i <= |b|
    ensures ReplaceAll(Tag, a + b, |a| + i) == ReplaceAll(Tag, b, i)
    decreases |b| - i
  {
    if i < |b| {
      var e, x := TagShiftStep(a, b, i);
      TagShiftAll(a, b, e);
    }
  }

  /** One step of the replacement in `b` and at the same place in `a + b`:
      both emit the same text and go on at the same place. */
  lemma TagShiftStep(a: string, b: string, i: nat) returns (e: nat, x: string)
    requires i < |b|
    ensures i < e <= |b|
    ensures ReplaceAll(Tag, a + b, |a| + i) == x + ReplaceAll(Tag, a + b, |a| + e)
    ensures ReplaceAll(Tag, b, i) == x + ReplaceAll(Tag, b, e)
  {
    var s := a + b;
    TagMatchShift(a, b, i);
    ReplaceStep(Tag, s, |a| + i);
    ReplaceStep(Tag, b, i);
    if MatchAt(Tag, b, i).Some? {
      e, x := MatchAt(Tag, b, i).value.end, "";
    } else {
      e, x := i + 1, [b[i]];
      assert s[|a| + i] == b[i];
    }
  }

  lemma TagMatchShift(a: string, b: string, i: nat)
    requires i < |b|
    ensures MatchAt(Tag, a + b, |a| + i).Some? <==> MatchAt(Tag, b, i).Some?
    ensures MatchAt(Tag, b, i).Some? ==> MatchAt(Tag, a + b, |a| + i).value == Hit(|a| + MatchAt(Tag, b, i).value.end, "")
  {
    var s := a + b;
    assert forall j :: 0 <= j < |b| ==> s[|a| + j] == b[j];
    if b[i] == '<' && i + 1 < |b| && b[i + 1] != '>' {
      match FindChar(b, i + 1, '>')
      case Some(j) =>
        FindCharAt(s, |a| + i + 1, '>', |a| + j);
      case None =>
    }
  }

  /** Stripping tags twice is the same as once. */
  lemma StripHtmlTagsIdempotent(html: string)
    ensures StripHtmlTags(StripHtmlTags(html)) == StripHtmlTags(html)
  {
    NoMatchIdentity(Tag, StripHtmlTags(html));
  }
}
