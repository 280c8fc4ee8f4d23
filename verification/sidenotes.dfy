/** Footnote references turned into numbered sidenotes
    (generate-static-posts.mjs, `renderInlineMarkdown` and
    `replaceFootnoteReferences`). The Markdown renderer is not part of this
    model: it is a parameter. */
module Sidenotes {
  import opened Text
  import Slug

  /** The Markdown library: a block renderer, and an inline renderer that
      some versions lack. */
  datatype Renderer = Renderer(parse: string -> string, parseInline: Option<string -> string>)

  /** Removes one leading `<p>` and then one trailing `</p>`. */
  function StripParagraph(html: string): (r: string)
    ensures |r| <= |html|
    ensures var d := if StartsWith(html, "<p>") then 3 else 0;
      d + |r| <= |html| && r == html[d..d + |r|] &&
      |html| - d - |r| == (if EndsWith(html[d..], "</p>") then 4 else 0)
  {
    var a := if StartsWith(html, "<p>") then html[3..] else html;
    if EndsWith(a, "</p>") then a[..|a| - 4] else a
  }

  /** `renderInlineMarkdown`: the inline renderer when there is one, else
      the block renderer's output, trimmed and without its paragraph
      wrapper. */
  function RenderInline(r: Renderer, markdown: string): (html: string)
    ensures r.parseInline.Some? ==> html == r.parseInline.value(markdown)
    ensures r.parseInline.None? ==> |html| <= |Trim(r.parse(markdown))|
  {
    match r.parseInline
    case Some(inline) => inline(markdown)
    case None => StripParagraph(Trim(r.parse(markdown)))
  }

  /** Without an inline renderer, a note the block renderer wraps in one
      paragraph comes out as the paragraph's content. */
  lemma RenderInlineUnwraps(r: Renderer, markdown: string, x: string)
    requires r.parseInline.None? && Trim(r.parse(markdown)) == "<p>" + x + "</p>"
    ensures RenderInline(r, markdown) == x
  {
    UnwrapParagraph(x);
  }

  /** Without an inline renderer, a rendering that neither opens nor closes
      a paragraph (a list, say) comes out trimmed and otherwise as it is. */
  lemma RenderInlinePassesThrough(r: Renderer, markdown: string)
    requires r.parseInline.None?
    requires !StartsWith(Trim(r.parse(markdown)), "<p>") && !EndsWith(Trim(r.parse(markdown)), "</p>")
    ensures RenderInline(r, markdown) == Trim(r.parse(markdown))
  {
    var t := Trim(r.parse(markdown));
    assert t[0..] == t;
  }

  /** Unwrapping a paragraph gives back its content. */
  lemma UnwrapParagraph(x: string)
    ensures StripParagraph("<p>" + x + "</p>") == x
  {
    var h := "<p>" + x + "</p>";
    assert h[..3] == "<p>";
    var a := h[3..];
    assert a == x + "</p>";
    assert a[|a| - 4..] == "</p>";
    assert a[..|a| - 4] == x;
  }

  // ---------------------------------------------------------------------
  // References
  // ---------------------------------------------------------------------

  /** A piece of the page: one character of text, or a reference
      `[^key]` with its text as written and its trimmed key. */
  datatype Piece = Char(c: char) | Ref(raw: string, key: string)

  function Raw(p: Piece): string {
    match p
    case Char(c) => [c]
    case Ref(raw, _) => raw
  }

  /** The reference `\[\^([^\]]+)\]` starting at `i`, if any: `[^`, one or
      more characters other than `]`, then `]`. Its end is just past the
      `]`. */
  function RefAt(html: string, i: nat): (r: Option<(nat, string)>)
    requires i <= |html|
    ensures r.Some? ==> i + 4 <= r.value.0 <= |html|
    ensures r.Some? ==> OccursAt(html, i, "[^") && html[r.value.0 - 1] == ']'
    ensures r.Some? ==> forall k :: i + 2 <= k < r.value.0 - 1 ==> html[k] != ']'
    ensures r.Some? ==> r.value.1 == Trim(html[i + 2..r.value.0 - 1])
  {
    if OccursAt(html, i, "[^") then
      match FindChar(html, i + 2, ']')
      case Some(j) => if j > i + 2 then Some((j + 1, Trim(html[i + 2..j]))) else None
      case None => None
    else
      None
  }

  /** `[^`, then one or more characters other than `]`, then `]` is always
      a reference, whose key is the trimmed text between. */
  lemma RefAtComplete(html: string, i: nat, j: nat)
    requires OccursAt(html, i, "[^") && i + 2 < j < |html| && html[j] == ']'
    requires forall k :: i + 2 <= k < j ==> html[k] != ']'
    ensures RefAt(html, i) == Some((j + 1, Trim(html[i + 2..j])))
  {
    var f := FindChar(html, i + 2, ']');
    assert f.Some? && f.value == j;
  }

  /** The piece that starts at `i` and the index just past it. */
  function PieceAt(html: string, i: nat): (r: (Piece, nat))
    requires i < |html|
    ensures i < r.1 <= |html| && Raw(r.0) == html[i..r.1]
  {
    match RefAt(html, i)
    case Some((e, key)) => (Ref(html[i..e], key), e)
    case None => (Char(html[i]), i + 1)
  }

  /** The text the pieces were cut from. */
  function Original(ps: seq<Piece>): string
    decreases |ps|
  {
    if |ps| == 0 then "" else Raw(ps[0]) + Original(ps[1..])
  }

  /** The page cut into pieces the way the global search for references
      goes through it: a reference where one starts, else one character.
      Cutting loses nothing. */
  function Pieces(html: string, i: nat): (ps: seq<Piece>)
    requires i <= |html|
    ensures Original(ps) == html[i..]
    decreases |html| - i
  {
    if i == |html| then []
    else
      var pe := PieceAt(html, i);
      var rest := Pieces(html, pe.1);
      PiecesCons(html, i, pe.1, pe.0, rest);
      [pe.0] + rest
  }

  /** A piece in front of the pieces that follow it covers the text from
      its start. */
  lemma PiecesCons(html: string, i: nat, j: nat, p: Piece, rest: seq<Piece>)
    requires i < j <= |html| && Raw(p) == html[i..j] && Original(rest) == html[j..]
    ensures Original([p] + rest) == html[i..]
  {
    assert ([p] + rest)[1..] == rest;
    assert html[i..] == html[i..j] + html[j..];
  }

  /** A reference that gets a sidenote: its key has a note that is not
      empty. Any other reference stays as written. */
  predicate Live(p: Piece, notes: map<string, string>) {
    p.Ref? && p.key in notes && |notes[p.key]| > 0
  }

  /** The keys of the live references, in order, repeats included. */
  function LiveKeys(ps: seq<Piece>, notes: map<string, string>): seq<string>
    decreases |ps|
  {
    if |ps| == 0 then []
    else
      var p := ps[|ps| - 1];
      LiveKeys(ps[..|ps| - 1], notes) + (if Live(p, notes) then [p.key] else [])
  }

  /** The `assignedNumbers` map after the pieces: the keys in the order they
      were numbered, key `a[n - 1]` having number `n`. A key is numbered
      the first time a live reference names it. */
  function Assigned(ps: seq<Piece>, notes: map<string, string>): (a: seq<string>)
    ensures forall k :: 0 <= k < |ps| && Live(ps[k], notes) ==> ps[k].key in a
    decreases |ps|
  {
    if |ps| == 0 then []
    else
      var init := ps[..|ps| - 1];
      var p := ps[|ps| - 1];
      var a := Assigned(init, notes);
      assert forall k :: 0 <= k < |init| ==> init[k] == ps[k];
      if Live(p, notes) && p.key !in a then a + [p.key] else a
  }

  /** `sn-<slug of the post id>-<number>`. */
  function ToggleId(postSlug: string, number: nat): string {
    "sn-" + postSlug + "-" + NatToString(number)
  }

  /** The markup of one sidenote. */
  function Sidenote(toggleId: string, number: nat, noteHtml: string): string {
    var n := NatToString(number);
    "<label for=\"" + toggleId + "\" class=\"sidenote-number\">" + n + "</label>"
    + "<input type=\"checkbox\" id=\"" + toggleId + "\" class=\"sidenote-toggle\">"
    + "<span class=\"sidenote\"><span class=\"sidenote-prefix\">" + n + ". </span>" + noteHtml + "</span>"
  }

  /** What the last piece becomes: a live reference its sidenote, numbered
      by the map after it; anything else itself. */
  function Output(ps: seq<Piece>, notes: map<string, string>, r: Renderer, postSlug: string): string
    requires |ps| > 0
  {
    var p := ps[|ps| - 1];
    if Live(p, notes) then
      assert Live(ps[|ps| - 1], notes);
      var n := FirstIndex(Assigned(ps, notes), p.key) + 1;
      Sidenote(ToggleId(postSlug, n), n, RenderInline(r, notes[p.key]))
    else
      Raw(p)
  }

  /** The replacement of every piece from the `k`-th on, in order. */
  function Render(ps: seq<Piece>, k: nat, notes: map<string, string>, r: Renderer, postSlug: string): string
    requires k <= |ps|
    decreases |ps| - k
  {
    if k == |ps| then "" else Output(ps[..k + 1], notes, r, postSlug) + Render(ps, k + 1, notes, r, postSlug)
  }

  /** `replaceFootnoteReferences`: the page unchanged when there are no
      notes, else every reference with a note replaced by its sidenote. */
  function LinkReferences(r: Renderer, html: string, notes: map<string, string>, postId: string): (out: string)
    ensures |notes| == 0 ==> out == html
  {
    if |notes| == 0 then html else Render(Pieces(html, 0), 0, notes, r, Slug.Slugify(postId))
  }

  // ---------------------------------------------------------------------
  // Properties
  // ---------------------------------------------------------------------

  /** The numbering map holds the live keys without repeats, in the order
      of their first reference. */
  lemma {:induction false} AssignedIsDedupe(ps: seq<Piece>, notes: map<string, string>)
    ensures Assigned(ps, notes) == Dedupe(LiveKeys(ps, notes))
    decreases |ps|
  {
    if |ps| > 0 {
      var init := ps[..|ps| - 1];
      var p := ps[|ps| - 1];
      AssignedIsDedupe(init, notes);
      if Live(p, notes) {
        DedupeSnoc(LiveKeys(init, notes), p.key);
      } else {
        assert LiveKeys(ps, notes) == LiveKeys(init, notes) + [];
        assert LiveKeys(init, notes) + [] == LiveKeys(init, notes);
      }
    }
  }

  /** The map after a prefix is a prefix of the map after the whole. */
  lemma {:induction false} AssignedGrows(ps: seq<Piece>, notes: map<string, string>, m: nat)
    requires m <= |ps|
    ensures |Assigned(ps[..m], notes)| <= |Assigned(ps, notes)|
    ensures Assigned(ps[..m], notes) == Assigned(ps, notes)[..|Assigned(ps[..m], notes)|]
    decreases |ps| - m
  {
    if m < |ps| {
      var init := ps[..|ps| - 1];
      assert init[..m] == ps[..m];
      AssignedGrows(init, notes, m);
    } else {
      assert ps[..m] == ps;
    }
  }

  /** The number a live reference gets. */
  function Number(ps: seq<Piece>, k: nat, notes: map<string, string>): nat
    requires k < |ps| && Live(ps[k], notes)
  {
    assert ps[..k + 1][k] == ps[k];
    FirstIndex(Assigned(ps[..k + 1], notes), ps[k].key) + 1
  }

  /** The number of a live reference is its key's place in the final
      map. */
  lemma NumberInFinalMap(ps: seq<Piece>, k: nat, notes: map<string, string>)
    requires k < |ps| && Live(ps[k], notes)
    ensures Number(ps, k, notes) == FirstIndex(Assigned(ps, notes), ps[k].key) + 1
  {
    var pre := ps[..k + 1];
    assert pre[k] == ps[k];
    var a := Assigned(pre, notes);
    assert ps[k].key in a;
    AssignedGrows(ps, notes, k + 1);
    var whole := Assigned(ps, notes);
    var more := whole[|a|..];
    assert whole == a + more;
    FirstIndexOfPrefix(a, more, ps[k].key);
  }

  /** Every reference to a key gets the same number. */
  lemma SameKeySameNumber(ps: seq<Piece>, j: nat, k: nat, notes: map<string, string>)
    requires j < |ps| && k < |ps| && Live(ps[j], notes) && Live(ps[k], notes)
    ensures Number(ps, j, notes) == Number(ps, k, notes) <==> ps[j].key == ps[k].key
  {
    NumberInFinalMap(ps, j, notes);
    NumberInFinalMap(ps, k, notes);
  }

  /** The first reference to a key gets the next number: one more than the
      count of keys numbered before it. */
  lemma FirstReferenceNextNumber(ps: seq<Piece>, k: nat, notes: map<string, string>)
    requires k < |ps| && Live(ps[k], notes)
    requires forall j :: 0 <= j < k && Live(ps[j], notes) ==> ps[j].key != ps[k].key
    ensures Number(ps, k, notes) == |Assigned(ps[..k], notes)| + 1
  {
    var pre := ps[..k + 1];
    assert pre[..k] == ps[..k];
    assert pre[k] == ps[k];
    var a := Assigned(ps[..k], notes);
    AssignedIsDedupe(ps[..k], notes);
    LiveKeysFrom(ps[..k], notes, ps[k].key);
    assert ps[k].key !in a;
    assert Assigned(pre, notes) == a + [ps[k].key];
    assert FirstIndex(a + [ps[k].key], ps[k].key) == |a|;
  }

  /** Every live key names a live reference. */
  lemma {:induction false} LiveKeysFrom(ps: seq<Piece>, notes: map<string, string>, key: string)
    requires forall j :: 0 <= j < |ps| && Live(ps[j], notes) ==> ps[j].key != key
    ensures key !in LiveKeys(ps, notes)
    decreases |ps|
  {
    if |ps| > 0 {
      var init := ps[..|ps| - 1];
      assert forall j :: 0 <= j < |init| ==> init[j] == ps[j];
      LiveKeysFrom(init, notes, key);
    }
  }

  /** Different numbers give different toggle ids within a post. */
  lemma ToggleIdInjective(postSlug: string, m: nat, n: nat)
    requires ToggleId(postSlug, m) == ToggleId(postSlug, n)
    ensures m == n
  {
    var p := "sn-" + postSlug + "-";
    assert ToggleId(postSlug, m) == p + NatToString(m);
    assert ToggleId(postSlug, n) == p + NatToString(n);
    assert NatToString(m) == ToggleId(postSlug, m)[|p|..];
    assert NatToString(n) == ToggleId(postSlug, n)[|p|..];
    NatToStringInjective(m, n);
  }

  /** Without live references the pieces render as the text they came
      from. */
  lemma {:induction false} NoLiveUnchanged(ps: seq<Piece>, k: nat, notes: map<string, string>, r: Renderer, postSlug: string)
    requires k <= |ps|
    requires forall j :: 0 <= j < |ps| ==> !Live(ps[j], notes)
    ensures Render(ps, k, notes, r, postSlug) == Original(ps[k..])
    decreases |ps| - k
  {
    if k < |ps| {
      NoLiveUnchanged(ps, k + 1, notes, r, postSlug);
      assert ps[..k + 1][k] == ps[k];
      assert ps[k..][1..] == ps[k + 1..];
    }
  }

  /** A page whose references all lack a note, or have an empty one, comes
      out unchanged. */
  lemma NoNotedReferenceUnchanged(r: Renderer, html: string, notes: map<string, string>, postId: string)
    requires forall k :: 0 <= k < |Pieces(html, 0)| ==> !Live(Pieces(html, 0)[k], notes)
    ensures LinkReferences(r, html, notes, postId) == html
  {
    if |notes| > 0 {
      NoLiveUnchanged(Pieces(html, 0), 0, notes, r, Slug.Slugify(postId));
      assert Pieces(html, 0)[0..] == Pieces(html, 0);
    }
  }
}
