/** The metadata normalisers of the generator (generate-static-posts.mjs,
    `normalizeTags`, `normalizeStatus`, `normalizeRelated`,
    `normalizeCategory` and `getCategoryLabel`). Each takes the raw
    frontmatter value of one key, absent when the header does not name it. */
module Normalize {
  import opened Text
  import opened Frontmatter

  /** The items of a list-valued field: a list as it is, a string split at
      commas, anything else nothing. */
  function RawItems(raw: Option<Value>): seq<string> {
    match raw
    case None => []
    case Some(List(xs)) => xs
    case Some(Scalar(s)) => Split(s, ',')
  }

  /** One item trimmed, and lower-cased for tags. */
  function CleanEntry(item: string, lower: bool): string {
    if lower then Lower(Trim(item)) else Trim(item)
  }

  /** The form every normalised item has. */
  predicate IsCleanEntry(x: string, lower: bool) {
    |x| > 0 && IsTrimmed(x) && (lower ==> forall k :: 0 <= k < |x| ==> !IsUpper(x[k]))
  }

  lemma LowerKeepsTrimmed(s: string)
    requires IsTrimmed(s)
    ensures IsTrimmed(Lower(s))
  {
  }

  lemma CleanEntryForm(item: string, lower: bool)
    ensures |CleanEntry(item, lower)| > 0 ==> IsCleanEntry(CleanEntry(item, lower), lower)
  {
    LowerKeepsTrimmed(Trim(item));
  }

  /** The non-empty strings of `xs`, in order. */
  function NonEmpty(xs: seq<string>): (r: seq<string>)
    ensures forall i :: 0 <= i < |r| ==> |r[i]| > 0 && r[i] in xs
    ensures forall j :: 0 <= j < |xs| && |xs[j]| > 0 ==> xs[j] in r
    decreases |xs|
  {
    if |xs| == 0 then []
    else
      var rest := NonEmpty(xs[1..]);
      assert forall j :: 1 <= j < |xs| ==> xs[j] == xs[1..][j - 1];
      if |xs[0]| == 0 then rest else [xs[0]] + rest
  }

  /** Every item cleaned, empty ones included. */
  function CleanEach(items: seq<string>, lower: bool): (c: seq<string>)
    ensures |c| == |items|
    ensures forall i :: 0 <= i < |c| ==> c[i] == CleanEntry(items[i], lower)
  {
    seq(|items|, i requires 0 <= i < |items| => CleanEntry(items[i], lower))
  }

  /** The cleaned items, empty ones dropped, in order. */
  function CleanEntries(items: seq<string>, lower: bool): (r: seq<string>)
    ensures forall i :: 0 <= i < |r| ==> IsCleanEntry(r[i], lower)
    ensures forall i :: 0 <= i < |r| ==> exists j :: 0 <= j < |items| && r[i] == CleanEntry(items[j], lower)
    ensures forall j :: 0 <= j < |items| && |CleanEntry(items[j], lower)| > 0 ==> CleanEntry(items[j], lower) in r
  {
    var cleaned := CleanEach(items, lower);
    forall i | 0 <= i < |items|
      ensures |cleaned[i]| > 0 ==> IsCleanEntry(cleaned[i], lower)
    {
      CleanEntryForm(items[i], lower);
    }
    var r := NonEmpty(cleaned);
    forall i | 0 <= i < |r|
      ensures exists j :: 0 <= j < |items| && r[i] == CleanEntry(items[j], lower)
    {
      var j :| 0 <= j < |cleaned| && cleaned[j] == r[i];
    }
    forall j | 0 <= j < |items| && |CleanEntry(items[j], lower)| > 0
      ensures CleanEntry(items[j], lower) in r
    {
      assert cleaned[j] == CleanEntry(items[j], lower);
    }
    r
  }

  /** `normalizeTags`: trimmed, lower-cased, non-empty tags without
      repeats, each where it first occurs. */
  function NormalizeTags(raw: Option<Value>): (r: seq<string>)
    ensures Distinct(r)
    ensures forall i :: 0 <= i < |r| ==> IsCleanEntry(r[i], true)
    ensures forall i :: 0 <= i < |r| ==>
      exists j :: 0 <= j < |RawItems(raw)| && r[i] == CleanEntry(RawItems(raw)[j], true)
    ensures forall j :: 0 <= j < |RawItems(raw)| && |CleanEntry(RawItems(raw)[j], true)| > 0 ==>
      CleanEntry(RawItems(raw)[j], true) in r
  {
    Dedupe(CleanEntries(RawItems(raw), true))
  }

  /** `normalizeRelated`: trimmed, non-empty ids without repeats, each where
      it first occurs; case is kept. */
  function NormalizeRelated(raw: Option<Value>): (r: seq<string>)
    ensures Distinct(r)
    ensures forall i :: 0 <= i < |r| ==> IsCleanEntry(r[i], false)
    ensures forall i :: 0 <= i < |r| ==>
      exists j :: 0 <= j < |RawItems(raw)| && r[i] == CleanEntry(RawItems(raw)[j], false)
    ensures forall j :: 0 <= j < |RawItems(raw)| && |CleanEntry(RawItems(raw)[j], false)| > 0 ==>
      CleanEntry(RawItems(raw)[j], false) in r
  {
    Dedupe(CleanEntries(RawItems(raw), false))
  }

  /** The normalised items keep the order in which they first occur among
      the cleaned items of the header, as the `Set` does. */
  lemma NormalizedOrder(raw: Option<Value>, lower: bool)
    ensures var items := CleanEntries(RawItems(raw), lower);
      var r := Dedupe(items);
      forall i, j :: 0 <= i < j < |r| ==> FirstIndex(items, r[i]) < FirstIndex(items, r[j])
    ensures var c := CleanEach(RawItems(raw), lower);
      var r := if lower then NormalizeTags(raw) else NormalizeRelated(raw);
      forall i, j :: 0 <= i < j < |r| ==> r[i] in c && r[j] in c && FirstIndex(c, r[i]) < FirstIndex(c, r[j])
  {
    var items := CleanEntries(RawItems(raw), lower);
    DedupeFirstOccurrenceOrder(items);
    CleanedOrder(RawItems(raw), lower);
    NormalizedIsDedupe(raw, lower);
  }

  /** Both normalisers are the de-duplicated cleaned items. */
  lemma NormalizedIsDedupe(raw: Option<Value>, lower: bool)
    ensures (if lower then NormalizeTags(raw) else NormalizeRelated(raw)) == Dedupe(CleanEntries(RawItems(raw), lower))
  {
  }

  /** The same over any list of items. */
  lemma CleanedOrder(items: seq<string>, lower: bool)
    ensures var c := CleanEach(items, lower);
      var r := Dedupe(CleanEntries(items, lower));
      forall i, j :: 0 <= i < j < |r| ==> r[i] in c && r[j] in c && FirstIndex(c, r[i]) < FirstIndex(c, r[j])
  {
    CleanEntriesFilter(items, lower);
    FilteredOrder(CleanEach(items, lower));
  }

  lemma CleanEntriesFilter(items: seq<string>, lower: bool)
    ensures CleanEntries(items, lower) == NonEmpty(CleanEach(items, lower))
  {
  }

  /** De-duplicating the non-empty strings keeps their order of first
      occurrence in the whole list. */
  lemma FilteredOrder(c: seq<string>)
    ensures var r := Dedupe(NonEmpty(c));
      forall i, j :: 0 <= i < j < |r| ==> r[i] in c && r[j] in c && FirstIndex(c, r[i]) < FirstIndex(c, r[j])
  {
    var ne := NonEmpty(c);
    var r := Dedupe(ne);
    DedupeFirstOccurrenceOrder(ne);
    forall i, j | 0 <= i < j < |r|
      ensures r[i] in c && r[j] in c && FirstIndex(c, r[i]) < FirstIndex(c, r[j])
    {
      NonEmptyOrder(c, r[i], r[j]);
    }
  }

  /** Dropping the empty strings keeps the order of first occurrence of the
      others. */
  lemma {:induction false} NonEmptyOrder(xs: seq<string>, a: string, b: string)
    requires a in NonEmpty(xs) && b in NonEmpty(xs)
    ensures a in xs && b in xs
    ensures FirstIndex(NonEmpty(xs), a) < FirstIndex(NonEmpty(xs), b) <==> FirstIndex(xs, a) < FirstIndex(xs, b)
    decreases |xs|
  {
    var rest := xs[1..];
    NonEmptyCons(xs);
    if xs[0] != a && xs[0] != b {
      if |xs[0]| > 0 {
        FirstIndexCons(NonEmpty(xs), a);
        FirstIndexCons(NonEmpty(xs), b);
      }
      NonEmptyOrder(rest, a, b);
      FirstIndexCons(xs, a);
      FirstIndexCons(xs, b);
    }
  }

  lemma NonEmptyCons(xs: seq<string>)
    requires |xs| > 0
    ensures NonEmpty(xs) == if |xs[0]| == 0 then NonEmpty(xs[1..]) else [xs[0]] + NonEmpty(xs[1..])
  {
  }

  lemma FirstIndexCons<T>(xs: seq<T>, x: T)
    requires x in xs && xs[0] != x
    ensures x in xs[1..] && FirstIndex(xs, x) == 1 + FirstIndex(xs[1..], x)
  {
  }

  lemma {:induction false} NonEmptyOfNonEmpty(xs: seq<string>)
    requires forall i :: 0 <= i < |xs| ==> |xs[i]| > 0
    ensures NonEmpty(xs) == xs
    decreases |xs|
  {
    if |xs| > 0 {
      var rest := xs[1..];
      assert forall i :: 0 <= i < |rest| ==> |rest[i]| > 0;
      NonEmptyOfNonEmpty(rest);
      assert NonEmpty(xs) == [xs[0]] + NonEmpty(rest);
      assert xs == [xs[0]] + rest;
    }
  }

  lemma CleanEntriesOfClean(xs: seq<string>, lower: bool)
    requires forall i :: 0 <= i < |xs| ==> IsCleanEntry(xs[i], lower)
    ensures CleanEntries(xs, lower) == xs
  {
    var cleaned := seq(|xs|, i requires 0 <= i < |xs| => CleanEntry(xs[i], lower));
    forall i | 0 <= i < |xs|
      ensures cleaned[i] == xs[i]
    {
      TrimTrimmed(xs[i]);
      if lower {
        LowerOfLowerCase(xs[i]);
      }
    }
    assert cleaned == xs;
    NonEmptyOfNonEmpty(xs);
  }

  /** Normalising normalised tags changes nothing. */
  lemma NormalizeTagsIdempotent(raw: Option<Value>)
    ensures NormalizeTags(Some(List(NormalizeTags(raw)))) == NormalizeTags(raw)
  {
    var r := NormalizeTags(raw);
    CleanEntriesOfClean(r, true);
    DedupeDistinct(r);
  }

  lemma NormalizeRelatedIdempotent(raw: Option<Value>)
    ensures NormalizeRelated(Some(List(NormalizeRelated(raw)))) == NormalizeRelated(raw)
  {
    var r := NormalizeRelated(raw);
    CleanEntriesOfClean(r, false);
    DedupeDistinct(r);
  }

  /** `normalizeStatus`: a string value trimmed and lower-cased, nothing when
      that leaves it empty or the value is not a string. */
  function NormalizeStatus(raw: Option<Value>): (r: Option<string>)
    ensures r.Some? ==> IsCleanEntry(r.value, true)
    ensures r.Some? <==> raw.Some? && raw.value.Scalar? && !AllSpace(raw.value.text)
  {
    match raw
    case Some(Scalar(s)) =>
      var n := Lower(Trim(s));
      CleanEntryForm(s, true);
      TrimEmptyIffAllSpace(s);
      if |n| == 0 then None else Some(n)
    case _ => None
  }

  lemma NormalizeStatusIdempotent(raw: Option<Value>)
    requires NormalizeStatus(raw).Some?
    ensures NormalizeStatus(Some(Scalar(NormalizeStatus(raw).value))) == NormalizeStatus(raw)
  {
    var n := NormalizeStatus(raw).value;
    TrimTrimmed(n);
    LowerOfLowerCase(n);
  }

  const Research: string := "research"
  const Technical: string := "technical"
  const Personal: string := "personal"
  const Uncategorized: string := "uncategorized"

  /** The named categories, in display order. */
  const CategoryOrder: seq<string> := [Research, Technical, Personal]

  /** The display label of each category. */
  const CategoryLabels: map<string, string> :=
    map[Research := Research, Technical := Technical, Personal := Personal, Uncategorized := "other"]

  predicate IsCategory(c: string) {
    c in CategoryOrder || c == Uncategorized
  }

  /** `normalizeCategory`: one of the named categories, written in any case
      and with surrounding whitespace, else `uncategorized`. */
  function NormalizeCategory(raw: Option<Value>): (r: string)
    ensures IsCategory(r)
    ensures r != Uncategorized ==> raw.Some? && raw.value.Scalar? && Lower(Trim(raw.value.text)) == r
    ensures raw.Some? && raw.value.Scalar? && Lower(Trim(raw.value.text)) in CategoryOrder ==>
      r == Lower(Trim(raw.value.text))
  {
    match raw
    case Some(Scalar(s)) =>
      var n := Lower(Trim(s));
      if n in CategoryOrder then n else Uncategorized
    case _ => Uncategorized
  }

  lemma NormalizeCategoryIdempotent(raw: Option<Value>)
    ensures NormalizeCategory(Some(Scalar(NormalizeCategory(raw)))) == NormalizeCategory(raw)
  {
    if NormalizeCategory(raw) == Uncategorized {
      UncategorizedFixed();
    } else {
      LowerTrimFixed(raw.value.text);
    }
  }

  /** A trimmed lower-case string is its own cleaned form. */
  lemma CleanFixed(s: string)
    requires IsTrimmed(s) && forall k :: 0 <= k < |s| ==> !IsUpper(s[k])
    ensures Lower(Trim(s)) == s
  {
    TrimTrimmed(s);
    LowerOfLowerCase(s);
  }

  lemma UncategorizedFixed()
    ensures Lower(Trim(Uncategorized)) == Uncategorized
  {
    CleanFixed(Uncategorized);
  }

  /** Cleaning a cleaned string changes nothing. */
  lemma LowerTrimFixed(x: string)
    ensures Lower(Trim(Lower(Trim(x)))) == Lower(Trim(x))
  {
    LowerKeepsTrimmed(Trim(x));
    CleanFixed(Lower(Trim(x)));
  }

  /** `getCategoryLabel`: a named category is its own label, everything
      else reads `other`. */
  function CategoryLabel(category: string): (shown: string)
    ensures category in CategoryOrder ==> shown == category
    ensures category !in CategoryOrder ==> shown == "other"
  {
    if category in CategoryLabels then CategoryLabels[category] else CategoryLabels[Uncategorized]
  }
}
