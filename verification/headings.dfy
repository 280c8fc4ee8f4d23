/** Heading anchors (generate-static-posts.mjs, `addHeadingIdsAndCollect`).
    Every `<h2>` and `<h3>` element with some text gets an `id`, and is
    collected for the table of contents. The id is the element's own `id`
    attribute, else the slug of its text, else `section-<n>`; a base id seen
    before gets the suffix `-<k>` for its `k`-th use. */
module Headings {
  import opened Text
  import opened Scan
  import Slug

  /** A collected heading: its level, its plain text and its id. */
  datatype Heading = Heading(level: nat, text: string, id: string)

  /** A matched element `<hN attrs>inner</hN>`, with its text as written. */
  datatype Element = Element(level: char, attrs: string, inner: string, raw: string)

  /** A piece of the page: one character, or a heading element. */
  datatype Piece = Char(c: char) | Block(e: Element)

  function Raw(p: Piece): string {
    match p
    case Char(c) => [c]
    case Block(e) => e.raw
  }

  /** The closing tag of a level. */
  function Closing(level: char): string {
    "</h" + [level] + ">"
  }

  /** The match of `<h([23])([^>]*)>([\s\S]*?)<\/h\1>` at `i`, if any: the
      attributes run to the first `>`, the content to the first closing tag
      of the same level. */
  function ElementAt(html: string, i: nat): (r: Option<(Element, nat)>)
    requires i <= |html|
    ensures r.Some? ==> i < r.value.1 <= |html| && r.value.0.raw == html[i..r.value.1]
    ensures r.Some? ==> r.value.0.level == '2' || r.value.0.level == '3'
    ensures r.Some? ==> ElementShape(r.value.0)
    ensures forall e :: ElementShape(e) && OccursAt(html, i, e.raw) ==> r.Some?
  {
    ShapesFound(html, i);
    if OccursAt(html, i, "<h") && i + 2 < |html| && (html[i + 2] == '2' || html[i + 2] == '3') then
      var level := html[i + 2];
      match FindChar(html, i + 3, '>')
      case Some(a) =>
        (match FindSub(html, a + 1, Closing(level))
         case Some(c) =>
           CutShape(html, i, a, c, level);
           Some((Cut(html, i, a, c), c + |Closing(level)|))
         case None => None)
      case None => None
    else
      None
  }

  /** The element cut from `html` given where its tag starts (`i`), where
      its opening tag ends (`a`) and where its closing tag starts (`c`). */
  function Cut(html: string, i: nat, a: nat, c: nat): Element
    requires i + 3 <= a < c && c + 5 <= |html|
  {
    Element(html[i + 2], html[i + 3..a], html[a + 1..c], html[i..c + 5])
  }

  /** The piece that starts at `i` and the index just past it. */
  function PieceAt(html: string, i: nat): (r: (Piece, nat))
    requires i < |html|
    ensures i < r.1 <= |html| && Raw(r.0) == html[i..r.1]
    ensures r.0.Block? ==> r.0.e.level == '2' || r.0.e.level == '3'
  {
    match ElementAt(html, i)
    case Some((e, end)) => (Block(e), end)
    case None => (Char(html[i]), i + 1)
  }

  /** The text the pieces were cut from. */
  function Original(ps: seq<Piece>): string
    decreases |ps|
  {
    if |ps| == 0 then "" else Raw(ps[0]) + Original(ps[1..])
  }

  /** The page cut into pieces the way the global search for headings goes
      through it; cutting loses nothing. */
  function Pieces(html: string, i: nat): (ps: seq<Piece>)
    requires i <= |html|
    ensures Original(ps) == html[i..]
    ensures forall k :: 0 <= k < |ps| && ps[k].Block? ==> ps[k].e.level == '2' || ps[k].e.level == '3'
    decreases |html| - i
  {
    if i == |html| then []
    else
      var pe := PieceAt(html, i);
      var rest := Pieces(html, pe.1);
      PiecesCons(html, i, pe.1, pe.0, rest);
      [pe.0] + rest
  }

  /** A piece in front of the pieces that follow it covers the text from
      its start. */
  lemma PiecesCons(html: string, i: nat, j: nat, p: Piece, rest: seq<Piece>)
    requires i < j <= |html| && Raw(p) == html[i..j] && Original(rest) == html[j..]
    requires p.Block? ==> p.e.level == '2' || p.e.level == '3'
    requires forall k :: 0 <= k < |rest| && rest[k].Block? ==> rest[k].e.level == '2' || rest[k].e.level == '3'
    ensures Original([p] + rest) == html[i..]
    ensures forall k :: 0 <= k < |[p] + rest| && ([p] + rest)[k].Block? ==>
      ([p] + rest)[k].e.level == '2' || ([p] + rest)[k].e.level == '3'
  {
    var ps := [p] + rest;
    assert ps[1..] == rest;
    assert html[i..] == html[i..j] + html[j..];
  }

  /** The opening tag `<hN attrs>`. */
  function Opening(level: char, attrs: string): string {
    "<h" + [level] + attrs + ">"
  }

  /** No closing tag of the level starts inside `inner` when the closing
      tag follows it: the content runs to the first closing tag. */
  predicate FirstClosing(inner: string, level: char) {
    forall k :: 0 <= k < |inner| ==> !OccursAt(inner + Closing(level), k, Closing(level))
  }

  /** What a match of the heading pattern is: an opening tag whose
      attributes hold no `>`, the content, and the first closing tag of the
      same level after it. */
  predicate ElementShape(e: Element) {
    (e.level == '2' || e.level == '3') && '>' !in e.attrs
    && e.raw == Opening(e.level, e.attrs) + e.inner + Closing(e.level)
    && FirstClosing(e.inner, e.level)
  }

  /** The element cut between a `<hN` tag at `i`, the first `>` after it
      at `a`, and the first closing tag of the level after that at `c` has
      the shape of the pattern. */
  lemma CutShape(html: string, i: nat, a: nat, c: nat, level: char)
    requires OccursAt(html, i, "<h") && i + 2 < |html| && html[i + 2] == level && (level == '2' || level == '3')
    requires i + 3 <= a < |html| && html[a] == '>' && forall k :: i + 3 <= k < a ==> html[k] != '>'
    requires a < c && OccursAt(html, c, Closing(level))
    requires forall k :: a + 1 <= k < c ==> !OccursAt(html, k, Closing(level))
    ensures c + 5 <= |html| && ElementShape(Cut(html, i, a, c))
  {
    var cl := Closing(level);
    var end := c + |cl|;
    var el := Cut(html, i, a, c);
    OpeningAt(html, i, a);
    assert html[c..end] == cl;
    SliceCut(html, i, a + 1, end);
    SliceCut(html, a + 1, c, end);
    assert html[i..end] == Opening(level, el.attrs) + (el.inner + cl);
    forall k | 0 <= k < |el.inner|
      ensures !OccursAt(el.inner + cl, k, cl)
    {
      OccursShift(html, a + 1, el.inner + cl, k, cl);
    }
  }

  /** Every element of the shape of the pattern at `i` is found by the
      searches `ElementAt` makes. */
  lemma ShapesFound(html: string, i: nat)
    ensures forall e :: ElementShape(e) && OccursAt(html, i, e.raw) ==>
      OccursAt(html, i, "<h") && i + 2 < |html| && html[i + 2] == e.level
      && FindChar(html, i + 3, '>') == Some(i + 3 + |e.attrs|)
      && FindSub(html, i + 4 + |e.attrs|, Closing(e.level)) == Some(i + 4 + |e.attrs| + |e.inner|)
  {
    forall e | ElementShape(e) && OccursAt(html, i, e.raw)
      ensures OccursAt(html, i, "<h") && i + 2 < |html| && html[i + 2] == e.level
      && FindChar(html, i + 3, '>') == Some(i + 3 + |e.attrs|)
      && FindSub(html, i + 4 + |e.attrs|, Closing(e.level)) == Some(i + 4 + |e.attrs| + |e.inner|)
    {
      ShapeFound(html, i, e);
    }
  }

  /** One element of the shape of the pattern at `i` is found by the
      searches `ElementAt` makes. */
  lemma ShapeFound(html: string, i: nat, e: Element)
    requires ElementShape(e) && OccursAt(html, i, e.raw)
    ensures OccursAt(html, i, "<h") && i + 2 < |html| && html[i + 2] == e.level
    ensures FindChar(html, i + 3, '>') == Some(i + 3 + |e.attrs|)
    ensures FindSub(html, i + 4 + |e.attrs|, Closing(e.level)) == Some(i + 4 + |e.attrs| + |e.inner|)
  {
    ShapeParts(html, i, e);
    AttrsFound(html, i + 3, e.attrs);
    InnerFound(html, i + 4 + |e.attrs|, e.inner, e.level);
  }

  /** Where the attributes, and the content with its closing tag, of a
      well-shaped element lie in a text it occurs in. */
  lemma ShapeParts(html: string, i: nat, e: Element)
    requires ElementShape(e) && OccursAt(html, i, e.raw)
    ensures OccursAt(html, i, "<h") && i + 2 < |html| && html[i + 2] == e.level
    ensures i + 3 + |e.attrs| < |html| && html[i + 3..i + 3 + |e.attrs|] == e.attrs
      && html[i + 3 + |e.attrs|] == '>'
    ensures var b := i + 4 + |e.attrs|;
      b + |e.inner| + |Closing(e.level)| <= |html|
      && html[b..b + |e.inner| + |Closing(e.level)|] == e.inner + Closing(e.level)
  {
    ElementLayout(html, i, e);
  }

  /** The search for `>` after the tag name stops right after the
      attributes. */
  lemma AttrsFound(html: string, b: nat, attrs: string)
    requires b + |attrs| < |html| && html[b..b + |attrs|] == attrs && html[b + |attrs|] == '>'
    requires '>' !in attrs
    ensures FindChar(html, b, '>') == Some(b + |attrs|)
  {
    forall k | b <= k < b + |attrs| ensures html[k] != '>' {
      assert html[k] == attrs[k - b];
    }
    FindCharAt(html, b, '>', b + |attrs|);
  }

  /** The search for the closing tag stops right after the content. */
  lemma InnerFound(html: string, b: nat, inner: string, level: char)
    requires b + |inner| + |Closing(level)| <= |html|
    requires html[b..b + |inner| + |Closing(level)|] == inner + Closing(level)
    requires FirstClosing(inner, level)
    ensures FindSub(html, b, Closing(level)) == Some(b + |inner|)
  {
    var cl := Closing(level);
    forall k | b <= k < b + |inner| ensures !OccursAt(html, k, cl) {
      OccursShift(html, b, inner + cl, k - b, cl);
    }
    OccursShift(html, b, inner + cl, |inner|, cl);
    FindSubAt(html, b, cl, b + |inner|);
  }

  /** Two elements of the shape of the pattern at the same place are the
      same element. */
  lemma ShapeUnique(html: string, i: nat, e: Element, f: Element)
    requires ElementShape(e) && OccursAt(html, i, e.raw)
    requires ElementShape(f) && OccursAt(html, i, f.raw)
    ensures e == f
  {
    ShapeFound(html, i, e);
    ShapeFound(html, i, f);
    SameCut(html, i, e, f);
  }

  /** Two elements at the same place with parts of the same lengths are the
      same element. */
  lemma SameCut(html: string, i: nat, e: Element, f: Element)
    requires e.raw == Opening(e.level, e.attrs) + e.inner + Closing(e.level) && OccursAt(html, i, e.raw)
    requires f.raw == Opening(f.level, f.attrs) + f.inner + Closing(f.level) && OccursAt(html, i, f.raw)
    requires |e.attrs| == |f.attrs| && |e.inner| == |f.inner|
    ensures e == f
  {
    ElementLayout(html, i, e);
    ElementLayout(html, i, f);
    assert |e.raw| == |f.raw|;
  }

  /** Every element of the shape of the pattern at `i` is what `ElementAt`
      matches there. */
  lemma ElementAtComplete(html: string, i: nat, e: Element)
    requires ElementShape(e) && OccursAt(html, i, e.raw)
    ensures ElementAt(html, i) == Some((e, i + |e.raw|))
  {
    var r := ElementAt(html, i);
    ShapeUnique(html, i, e, r.value.0);
  }

  /** Where the parts of a well-shaped element lie in a text it occurs in. */
  lemma ElementLayout(html: string, i: nat, e: Element)
    requires e.raw == Opening(e.level, e.attrs) + e.inner + Closing(e.level) && OccursAt(html, i, e.raw)
    ensures var a := i + 3 + |e.attrs|; var c := a + 1 + |e.inner|;
      c + 5 == i + |e.raw| <= |html|
      && OccursAt(html, i, "<h") && html[i + 2] == e.level
      && html[i + 3..a] == e.attrs && html[a] == '>'
      && html[a + 1..c] == e.inner && html[a + 1..c + 5] == e.inner + Closing(e.level)
      && OccursAt(html, c, Closing(e.level))
  {
    ThreeParts(html, i, Opening(e.level, e.attrs), e.inner, Closing(e.level));
    OpeningLayout(html, i, e.level, e.attrs);
  }

  /** Where three consecutive parts lie in a text their join occurs in. */
  lemma ThreeParts(s: string, i: nat, x: string, y: string, z: string)
    requires OccursAt(s, i, x + y + z)
    ensures OccursAt(s, i, x) && OccursAt(s, i + |x|, y + z)
      && s[i + |x|..i + |x| + |y|] == y && OccursAt(s, i + |x| + |y|, z)
  {
    assert x + y + z == x + (y + z);
    OccursConcat(s, i, x, y + z);
    OccursConcat(s, i + |x|, y, z);
  }

  /** Where the parts of an opening tag lie in a text it occurs in. */
  lemma OpeningLayout(s: string, i: nat, level: char, attrs: string)
    requires OccursAt(s, i, Opening(level, attrs))
    ensures OccursAt(s, i, "<h") && s[i + 2] == level
      && s[i + 3..i + 3 + |attrs|] == attrs && s[i + 3 + |attrs|] == '>'
  {
    var o := Opening(level, attrs);
    OpeningParts(level, attrs);
    OccursSlice(s, i, o, 0, 2);
    OccursSlice(s, i, o, 3, 3 + |attrs|);
    OccursSlice(s, i, o, 2, 4 + |attrs|);
    assert s[i + 2] == s[i + 2..i + 4 + |attrs|][0];
    assert s[i + 3 + |attrs|] == s[i + 2..i + 4 + |attrs|][1 + |attrs|];
  }

  /** An occurrence of a concatenation is an occurrence of each part. */
  lemma OccursConcat(s: string, i: nat, x: string, y: string)
    requires OccursAt(s, i, x + y)
    ensures OccursAt(s, i, x) && OccursAt(s, i + |x|, y) && s[i..i + |x + y|] == x + y
  {
    OccursSlice(s, i, x + y, 0, |x|);
    OccursSlice(s, i, x + y, |x|, |x + y|);
    assert (x + y)[..|x|] == x && (x + y)[|x|..] == y;
  }

  /** The parts of an opening tag. */
  lemma OpeningParts(level: char, attrs: string)
    ensures var o := Opening(level, attrs);
      |o| == |attrs| + 4 && o[..2] == "<h" && o[2] == level
      && o[3..3 + |attrs|] == attrs && o[3 + |attrs|] == '>'
  {
  }

  /** An opening tag read off the text: `<hN`, then everything up to `>`. */
  lemma OpeningAt(s: string, i: nat, a: nat)
    requires OccursAt(s, i, "<h") && i + 2 < a < |s| && s[a] == '>'
    ensures s[i..a + 1] == Opening(s[i + 2], s[i + 3..a])
  {
    assert s[i..i + 2] == "<h";
    assert s[i..a + 1] == s[i..i + 2] + [s[i + 2]] + s[i + 3..a] + [s[a]];
  }

  /** A slice cut in two. */
  lemma SliceCut(s: string, p: nat, q: nat, r: nat)
    requires p <= q <= r <= |s|
    ensures s[p..r] == s[p..q] + s[q..r]
  {
  }

  /** A slice of an occurrence is a slice of the text. */
  lemma OccursSlice(s: string, i: nat, t: string, k: nat, l: nat)
    requires OccursAt(s, i, t) && k <= l <= |t|
    ensures s[i + k..i + l] == t[k..l]
  {
    forall j | 0 <= j < l - k ensures s[i + k..i + l][j] == t[k..l][j] {
      assert t[k + j] == s[i..i + |t|][k + j];
    }
  }

  /** An occurrence inside a slice is an occurrence in the whole text. */
  lemma OccursShift(s: string, off: nat, t: string, k: nat, pat: string)
    requires off + |t| <= |s| && s[off..off + |t|] == t && k + |pat| <= |t|
    ensures OccursAt(t, k, pat) <==> OccursAt(s, off + k, pat)
  {
    OccursSlice(s, off, t, k, k + |pat|);
  }

  // ---------------------------------------------------------------------
  // One heading
  // ---------------------------------------------------------------------

  /** The heading's plain text: tags removed, entities turned into spaces,
      whitespace runs turned into one space, trimmed. */
  function PlainHeading(inner: string): (r: string)
    ensures IsTrimmed(r) && Collapsed(r)
  {
    var plain := Replace(Entity, Slug.StripHtmlTags(inner));
    var spaced := Replace(SpaceRun(" "), plain);
    SpaceRunCollapsed(plain, 0);
    TrimCollapsed(spaced);
    Trim(spaced)
  }

  /** The end of an attribute `\sid="..."` starting at `p`, just past its
      closing quote; `nonEmpty` asks for at least one character between the
      quotes. */
  function IdAttrAt(attrs: string, p: nat, nonEmpty: bool): (r: Option<nat>)
    requires p <= |attrs|
    ensures r.Some? ==> p + 6 <= r.value <= |attrs| && OccursAt(attrs, p + 1, "id=\"")
    ensures r.Some? ==> attrs[r.value - 1] == '"' && '"' !in attrs[p + 5..r.value - 1]
    ensures r.Some? && nonEmpty ==> p + 7 <= r.value
  {
    if p < |attrs| && IsSpace(attrs[p]) && OccursAt(attrs, p + 1, "id=\"") then
      match FindChar(attrs, p + 5, '"')
      case Some(q) =>
        var v := attrs[p + 5..q];
        assert forall k :: 0 <= k < |v| ==> v[k] == attrs[p + 5 + k];
        if nonEmpty && q == p + 5 then None else Some(q + 1)
      case None => None
    else
      None
  }

  /** The first index at or after `p` where such an attribute starts. */
  function FindIdAttr(attrs: string, p: nat, nonEmpty: bool): (r: Option<nat>)
    requires p <= |attrs|
    ensures r.Some? ==> p <= r.value <= |attrs| && IdAttrAt(attrs, r.value, nonEmpty).Some?
    ensures r.Some? ==> forall k :: p <= k < r.value ==> IdAttrAt(attrs, k, nonEmpty).None?
    ensures r.None? ==> forall k :: p <= k <= |attrs| ==> IdAttrAt(attrs, k, nonEmpty).None?
    decreases |attrs| - p
  {
    if IdAttrAt(attrs, p, nonEmpty).Some? then Some(p)
    else if p == |attrs| then None
    else FindIdAttr(attrs, p + 1, nonEmpty)
  }

  /** The value of the first `\sid="([^"]+)"` in the attributes. */
  function ExistingId(attrs: string): (r: Option<string>)
    ensures r.Some? ==> |r.value| > 0 && '"' !in r.value
  {
    match FindIdAttr(attrs, 0, true)
    case Some(p) => Some(attrs[p + 5..IdAttrAt(attrs, p, true).value - 1])
    case None => None
  }

  /** An attribute list starting with ` id="v"` has the existing id `v`. */
  lemma ExistingIdOf(v: string, rest: string)
    requires |v| > 0 && '"' !in v
    ensures ExistingId(" id=\"" + v + "\"" + rest) == Some(v)
  {
    var attrs := " id=\"" + v + "\"" + rest;
    assert attrs[0] == ' ' && attrs[1..5] == "id=\"";
    assert forall k :: 0 <= k < |v| ==> attrs[5 + k] == v[k];
    assert attrs[5 + |v|] == '"';
    assert FindChar(attrs, 5, '"') == Some(5 + |v|);
    assert attrs[5..5 + |v|] == v;
  }

  /** The attributes with the first `\sid="[^"]*"` removed. */
  function RemoveId(attrs: string): (r: string)
    ensures |r| <= |attrs|
  {
    match FindIdAttr(attrs, 0, false)
    case Some(p) => attrs[..p] + attrs[IdAttrAt(attrs, p, false).value..]
    case None => attrs
  }

  /** A heading that is collected: one with some plain text. */
  predicate Titled(p: Piece) {
    p.Block? && |PlainHeading(p.e.inner)| > 0
  }

  /** Text without tags, entities, or whitespace other than single inner
      spaces is its own plain text. */
  lemma PlainHeadingOfPlain(x: string)
    requires '<' !in x && '&' !in x && IsTrimmed(x) && Collapsed(x)
    ensures PlainHeading(x) == x
  {
    NoMatchIdentity(Tag, x);
    NoMatchIdentity(Entity, x);
    SingleSpacesKept(x);
    TrimTrimmed(x);
  }

  /** The id a titled heading starts from, when `n` headings were collected
      before it. */
  function BaseId(e: Element, n: nat): (b: string)
    ensures |b| > 0
    ensures ExistingId(e.attrs).Some? ==> b == ExistingId(e.attrs).value
    ensures ExistingId(e.attrs).None? && |Slug.Slugify(PlainHeading(e.inner))| > 0 ==>
      b == Slug.Slugify(PlainHeading(e.inner))
    ensures ExistingId(e.attrs).None? && |Slug.Slugify(PlainHeading(e.inner))| == 0 ==>
      b == "section-" + NatToString(n + 1)
  {
    var own := match ExistingId(e.attrs) case Some(x) => x case None => Slug.Slugify(PlainHeading(e.inner));
    if |own| == 0 then "section-" + NatToString(n + 1) else own
  }

  /** The id of the `count + 1`-th use of a base id. */
  function Suffixed(base: string, count: nat): string {
    if count > 0 then base + "-" + NatToString(count + 1) else base
  }

  function LevelNumber(level: char): nat {
    if level == '2' then 2 else 3
  }

  // ---------------------------------------------------------------------
  // The page
  // ---------------------------------------------------------------------

  /** The collected headings and the `slugCounts` map after some pieces. */
  datatype Collected = Collected(headings: seq<Heading>, counts: map<string, nat>)

  /** The replacement callback, run over the pieces in order. */
  function Collect(ps: seq<Piece>): Collected
    decreases |ps|
  {
    if |ps| == 0 then Collected([], map[])
    else
      var st := Collect(ps[..|ps| - 1]);
      var p := ps[|ps| - 1];
      if Titled(p) then
        var base := BaseId(p.e, |st.headings|);
        var count := if base in st.counts then st.counts[base] else 0;
        var h := Heading(LevelNumber(p.e.level), PlainHeading(p.e.inner), Suffixed(base, count));
        Collected(st.headings + [h], st.counts[base := count + 1])
      else
        st
  }

  /** What the last piece becomes: a titled heading gets its id in place of
      any `id` attribute it had; anything else stays. */
  function Output(ps: seq<Piece>): string
    requires |ps| > 0
  {
    var p := ps[|ps| - 1];
    if Titled(p) then
      var hs := Collect(ps).headings;
      assert |hs| > 0;
      var id := hs[|hs| - 1].id;
      "<h" + [p.e.level] + RemoveId(p.e.attrs) + " id=\"" + id + "\">" + p.e.inner + Closing(p.e.level)
    else
      Raw(p)
  }

  /** The replacement of every piece from the `k`-th on, in order. */
  function Render(ps: seq<Piece>, k: nat): string
    requires k <= |ps|
    decreases |ps| - k
  {
    if k == |ps| then "" else Output(ps[..k + 1]) + Render(ps, k + 1)
  }

  /** `addHeadingIdsAndCollect`: the page with heading ids, and the
      headings in page order. */
  function AddHeadingIds(html: string): (r: (string, seq<Heading>))
    ensures forall k :: 0 <= k < |r.1| ==> WellFormed(r.1[k])
    ensures |r.1| == |Bases(Pieces(html, 0))|
    ensures forall k :: 0 <= k < |r.1| ==> r.1[k].id == IdOf(Bases(Pieces(html, 0)), k)
    ensures |r.1| == |TitledElements(Pieces(html, 0))|
    ensures forall k :: 0 <= k < |r.1| ==>
      r.1[k].level == LevelNumber(TitledElements(Pieces(html, 0))[k].level) &&
      r.1[k].text == PlainHeading(TitledElements(Pieces(html, 0))[k].inner)
  {
    var ps := Pieces(html, 0);
    HeadingsWellFormed(ps);
    CollectFollowsBases(ps);
    CollectFollowsTitled(ps);
    (Render(ps, 0), Collect(ps).headings)
  }

  // ---------------------------------------------------------------------
  // Properties
  // ---------------------------------------------------------------------

  /** The base ids of the titled headings, in order. */
  function Bases(ps: seq<Piece>): (bs: seq<string>)
    decreases |ps|
  {
    if |ps| == 0 then []
    else
      var bs := Bases(ps[..|ps| - 1]);
      var p := ps[|ps| - 1];
      if Titled(p) then bs + [BaseId(p.e, |bs|)] else bs
  }

  /** The elements of the titled headings, in order. */
  function TitledElements(ps: seq<Piece>): (es: seq<Element>)
    decreases |ps|
  {
    if |ps| == 0 then []
    else
      var es := TitledElements(ps[..|ps| - 1]);
      var p := ps[|ps| - 1];
      if Titled(p) then es + [p.e] else es
  }

  /** The callback's headings follow the titled elements: one heading per
      element, with the element's level and plain text, and the element's
      base id given the number of headings before it. */
  lemma {:induction false} CollectFollowsTitled(ps: seq<Piece>)
    ensures |Collect(ps).headings| == |TitledElements(ps)| == |Bases(ps)|
    ensures forall k :: 0 <= k < |TitledElements(ps)| ==>
      Collect(ps).headings[k].level == LevelNumber(TitledElements(ps)[k].level) &&
      Collect(ps).headings[k].text == PlainHeading(TitledElements(ps)[k].inner)
    ensures forall k :: 0 <= k < |TitledElements(ps)| ==> Bases(ps)[k] == BaseId(TitledElements(ps)[k], k)
    decreases |ps|
  {
    if |ps| > 0 {
      var init := ps[..|ps| - 1];
      var p := ps[|ps| - 1];
      CollectFollowsTitled(init);
      if Titled(p) {
        TitledStep(Collect(init).headings, TitledElements(init), Bases(init), p.e,
          Collect(ps).headings, TitledElements(ps), Bases(ps));
      }
    }
  }

  /** One titled element appended to all three sequences keeps them in
      step. */
  lemma TitledStep(hs: seq<Heading>, es: seq<Element>, bs: seq<string>, e: Element,
                   hs': seq<Heading>, es': seq<Element>, bs': seq<string>)
    requires |hs| == |es| == |bs|
    requires forall k :: 0 <= k < |es| ==>
      hs[k].level == LevelNumber(es[k].level) && hs[k].text == PlainHeading(es[k].inner)
    requires forall k :: 0 <= k < |es| ==> bs[k] == BaseId(es[k], k)
    requires es' == es + [e] && bs' == bs + [BaseId(e, |bs|)]
    requires |hs'| == |hs| + 1 && hs'[..|hs|] == hs
    requires hs'[|hs|].level == LevelNumber(e.level) && hs'[|hs|].text == PlainHeading(e.inner)
    ensures |hs'| == |es'| == |bs'|
    ensures forall k :: 0 <= k < |es'| ==>
      hs'[k].level == LevelNumber(es'[k].level) && hs'[k].text == PlainHeading(es'[k].inner)
    ensures forall k :: 0 <= k < |es'| ==> bs'[k] == BaseId(es'[k], k)
  {
    forall k | 0 <= k < |es'|
      ensures hs'[k].level == LevelNumber(es'[k].level) && hs'[k].text == PlainHeading(es'[k].inner)
      ensures bs'[k] == BaseId(es'[k], k)
    {
      if k < |es| {
        assert hs'[k] == hs[k] && es'[k] == es[k] && bs'[k] == bs[k];
      }
    }
  }

  /** How often each base id occurs. */
  function Counts(bs: seq<string>): map<string, nat> {
    map b | b in bs :: multiset(bs)[b]
  }

  /** The reference id of the `k`-th heading: its base, suffixed by how
      many equal bases came before it. */
  function IdOf(bs: seq<string>, k: nat): string
    requires k < |bs|
  {
    Suffixed(bs[k], multiset(bs[..k])[bs[k]])
  }

  /** The callback's state follows the bases: one heading per base, the
      counts of the bases, and each id as the reference gives it. */
  lemma {:induction false} CollectFollowsBases(ps: seq<Piece>)
    ensures |Collect(ps).headings| == |Bases(ps)|
    ensures Collect(ps).counts == Counts(Bases(ps))
    ensures forall k :: 0 <= k < |Bases(ps)| ==> Collect(ps).headings[k].id == IdOf(Bases(ps), k)
    decreases |ps|
  {
    if |ps| > 0 {
      var init := ps[..|ps| - 1];
      var p := ps[|ps| - 1];
      CollectFollowsBases(init);
      if Titled(p) {
        var st := Collect(init);
        var b := BaseId(p.e, |st.headings|);
        var count := if b in st.counts then st.counts[b] else 0;
        var h := Heading(LevelNumber(p.e.level), PlainHeading(p.e.inner), Suffixed(b, count));
        assert Collect(ps) == Collected(st.headings + [h], st.counts[b := count + 1]);
        assert Bases(ps) == Bases(init) + [b];
        CollectStep(st, Bases(init), b, h);
      }
    }
  }

  /** One titled heading added to a state that follows the bases gives a
      state that follows the bases with its base added. */
  lemma CollectStep(st: Collected, bs: seq<string>, b: string, h: Heading)
    requires |st.headings| == |bs| && st.counts == Counts(bs)
    requires forall k :: 0 <= k < |bs| ==> st.headings[k].id == IdOf(bs, k)
    requires h.id == Suffixed(b, if b in st.counts then st.counts[b] else 0)
    ensures var count := if b in st.counts then st.counts[b] else 0;
      var hs := st.headings + [h];
      |hs| == |bs + [b]| && st.counts[b := count + 1] == Counts(bs + [b])
      && forall k :: 0 <= k < |bs + [b]| ==> hs[k].id == IdOf(bs + [b], k)
  {
    var hs := st.headings + [h];
    AddBase(bs, b, st.counts);
    forall k | 0 <= k < |bs| ensures hs[k].id == IdOf(bs + [b], k) {
      assert hs[k] == st.headings[k];
    }
  }

  /** Adding one base: the count looked up is the occurrences so far, the
      stored count becomes the new number of occurrences, earlier ids stay
      and the new one is the reference id. */
  lemma AddBase(bs: seq<string>, b: string, counts: map<string, nat>)
    requires counts == Counts(bs)
    ensures (if b in counts then counts[b] else 0) == multiset(bs)[b]
    ensures counts[b := multiset(bs)[b] + 1] == Counts(bs + [b])
    ensures IdOf(bs + [b], |bs|) == Suffixed(b, multiset(bs)[b])
    ensures forall k :: 0 <= k < |bs| ==> IdOf(bs + [b], k) == IdOf(bs, k)
  {
    AddBaseCounts(bs, b, counts);
    AddBaseIds(bs, b);
  }

  lemma AddBaseCounts(bs: seq<string>, b: string, counts: map<string, nat>)
    requires counts == Counts(bs)
    ensures (if b in counts then counts[b] else 0) == multiset(bs)[b]
    ensures counts[b := multiset(bs)[b] + 1] == Counts(bs + [b])
  {
    var bs' := bs + [b];
    assert bs'[..|bs|] == bs;
    if b !in bs {
      assert multiset(bs)[b] == 0;
    }
  }

  lemma AddBaseIds(bs: seq<string>, b: string)
    ensures IdOf(bs + [b], |bs|) == Suffixed(b, multiset(bs)[b])
    ensures forall k :: 0 <= k < |bs| ==> IdOf(bs + [b], k) == IdOf(bs, k)
  {
    var bs' := bs + [b];
    assert bs'[..|bs|] == bs;
    assert forall k :: 0 <= k < |bs| ==> bs'[..k] == bs[..k] && bs'[k] == bs[k];
  }

  /** What every collected heading has: trimmed text that is not empty, a
      level of 2 or 3, and an id. */
  predicate WellFormed(h: Heading) {
    |h.text| > 0 && IsTrimmed(h.text) && (h.level == 2 || h.level == 3) && |h.id| > 0
  }

  /** Every collected heading has text, a level of 2 or 3, and an id. */
  lemma {:induction false} HeadingsWellFormed(ps: seq<Piece>)
    requires forall k :: 0 <= k < |ps| && ps[k].Block? ==> ps[k].e.level == '2' || ps[k].e.level == '3'
    ensures forall k :: 0 <= k < |Collect(ps).headings| ==> WellFormed(Collect(ps).headings[k])
    decreases |ps|
  {
    if |ps| > 0 {
      var init := ps[..|ps| - 1];
      assert forall k :: 0 <= k < |init| ==> init[k] == ps[k];
      HeadingsWellFormed(init);
    }
  }

  /** A base used the first time is the id itself, and a repeated base is
      suffixed with its use number. */
  lemma IdOfUses(bs: seq<string>, k: nat)
    requires k < |bs|
    ensures bs[k] !in bs[..k] ==> IdOf(bs, k) == bs[k]
    ensures bs[k] in bs[..k] ==> IdOf(bs, k) == bs[k] + "-" + NatToString(multiset(bs[..k])[bs[k]] + 1)
  {
  }

  /** Suffixes do not make ids unique: headings titled `Setup`, `Setup` and
      `Setup 2` get the ids `setup`, `setup-2` and `setup-2`. */
  lemma IdsCanRepeat(a: Element, b: Element, c: Element)
    requires a.attrs == "" && a.inner == "Setup"
    requires b.attrs == "" && b.inner == "Setup"
    requires c.attrs == "" && c.inner == "Setup 2"
    ensures var hs := Collect([Block(a), Block(b), Block(c)]).headings;
      |hs| == 3 && hs[0].id == "setup" && hs[1].id == "setup-2" && hs[2].id == "setup-2"
  {
    var ps := [Block(a), Block(b), Block(c)];
    ExampleBases(a, b, c);
    CollectFollowsBases(ps);
    RepeatedBase(Bases(ps));
  }

  /** The base ids of the three example headings. */
  lemma ExampleBases(a: Element, b: Element, c: Element)
    requires a.attrs == "" && a.inner == "Setup"
    requires b.attrs == "" && b.inner == "Setup"
    requires c.attrs == "" && c.inner == "Setup 2"
    ensures Bases([Block(a), Block(b), Block(c)]) == ["setup", "setup", "setup-2"]
  {
    var p1 := [Block(a)];
    var p2 := p1 + [Block(b)];
    var ps := p2 + [Block(c)];
    assert [] + [Block(a)] == p1;
    ThreeSteps(p1, p2, ps, a, b, c);
    assert ps == [Block(a), Block(b), Block(c)];
  }

  /** The three steps of the example, over prefixes named by the caller. */
  lemma ThreeSteps(p1: seq<Piece>, p2: seq<Piece>, ps: seq<Piece>, a: Element, b: Element, c: Element)
    requires a.attrs == "" && a.inner == "Setup"
    requires b.attrs == "" && b.inner == "Setup"
    requires c.attrs == "" && c.inner == "Setup 2"
    requires p1 == [] + [Block(a)] && p2 == p1 + [Block(b)] && ps == p2 + [Block(c)]
    ensures Bases(ps) == ["setup", "setup", "setup-2"]
  {
    ExampleStep([], a);
    ExampleStep(p1, b);
    ExampleStep(p2, c);
  }

  /** One example heading appended to a document adds its base id. */
  lemma ExampleStep(ps: seq<Piece>, e: Element)
    requires e.attrs == "" && (e.inner == "Setup" || e.inner == "Setup 2")
    ensures Bases(ps + [Block(e)]) == Bases(ps) + [if e.inner == "Setup" then "setup" else "setup-2"]
  {
    ExampleBase(e, |Bases(ps)|);
    BasesSnoc(ps, Block(e));
  }

  lemma BasesSnoc(ps: seq<Piece>, p: Piece)
    ensures Bases(ps + [p]) == if Titled(p) then Bases(ps) + [BaseId(p.e, |Bases(ps)|)] else Bases(ps)
  {
    assert (ps + [p])[..|ps|] == ps;
  }

  /** The base id of a heading without attributes titled `Setup` or
      `Setup 2`. */
  lemma ExampleBase(e: Element, n: nat)
    requires e.attrs == "" && (e.inner == "Setup" || e.inner == "Setup 2")
    ensures Titled(Block(e))
    ensures BaseId(e, n) == if e.inner == "Setup" then "setup" else "setup-2"
  {
    ExamplePlain(e.inner);
    Slug.SlugifyExample(e.inner);
    assert FindIdAttr(e.attrs, 0, true).None?;
  }

  lemma ExamplePlain(x: string)
    requires x == "Setup" || x == "Setup 2"
    ensures PlainHeading(x) == x
  {
    assert '<' !in x && '&' !in x && IsTrimmed(x) && Collapsed(x);
    PlainHeadingOfPlain(x);
  }

  /** The ids of the bases `setup`, `setup`, `setup-2`. */
  lemma RepeatedBase(bs: seq<string>)
    requires bs == ["setup", "setup", "setup-2"]
    ensures IdOf(bs, 0) == "setup" && IdOf(bs, 1) == "setup-2" && IdOf(bs, 2) == "setup-2"
  {
    assert bs[..0] == [];
    assert bs[..1] == ["setup"];
    assert bs[..2] == ["setup", "setup"];
    assert multiset(bs[..1])["setup"] == 1;
    assert "setup-2" != "setup";
    assert multiset(bs[..2])["setup-2"] == 0;
    assert NatToString(2) == "2";
  }

  /** A page without titled headings comes out unchanged, and nothing is
      collected. */
  lemma {:induction false} NoTitledUnchanged(ps: seq<Piece>, k: nat)
    requires k <= |ps|
    requires forall j :: 0 <= j < |ps| ==> !Titled(ps[j])
    ensures Render(ps, k) == Original(ps[k..])
    decreases |ps| - k
  {
    if k < |ps| {
      NoTitledUnchanged(ps, k + 1);
      assert ps[..k + 1][k] == ps[k];
      assert ps[k..][1..] == ps[k + 1..];
    }
  }

  lemma {:induction false} NothingCollected(ps: seq<Piece>)
    requires forall j :: 0 <= j < |ps| ==> !Titled(ps[j])
    ensures Collect(ps).headings == []
    decreases |ps|
  {
    if |ps| > 0 {
      var init := ps[..|ps| - 1];
      assert forall k :: 0 <= k < |init| ==> init[k] == ps[k];
      NothingCollected(init);
    }
  }

  lemma PageWithoutHeadings(html: string)
    requires forall j :: 0 <= j < |Pieces(html, 0)| ==> !Titled(Pieces(html, 0)[j])
    ensures AddHeadingIds(html) == (html, [])
  {
    var ps := Pieces(html, 0);
    NoTitledUnchanged(ps, 0);
    assert ps[0..] == ps;
    NothingCollected(ps);
  }

  /** An attribute list without an `id` attribute is kept whole. */
  lemma RemoveIdWithoutId(attrs: string)
    requires forall k :: 0 <= k <= |attrs| ==> IdAttrAt(attrs, k, false).None?
    ensures RemoveId(attrs) == attrs
    ensures ExistingId(attrs).None?
  {
    forall k | 0 <= k <= |attrs|
      ensures IdAttrAt(attrs, k, true).None?
    {
      assert IdAttrAt(attrs, k, false).None?;
    }
  }
}
