/** One post as the generator assembles it from a Markdown file: the body
    of the per-file loop of `main` in generate-static-posts.mjs. The
    renderer and the post's date timestamp come in as parameters. */
module Posts {
  import opened Text
  import opened Frontmatter
  import Footnotes
  import Sidenotes
  import Headings
  import Metrics
  import Normalize

  /** A post record. `timestamp` stands for `new Date(metadata.date)
      .getTime() || 0`, the only use the generator makes of the date when
      it relates posts. */
  datatype Post = Post(
    id: string,
    metadata: Metadata,
    content: string,
    plain: string,
    html: string,
    headings: seq<Headings.Heading>,
    category: string,
    tags: seq<string>,
    status: Option<string>,
    relatedIds: seq<string>,
    readingTimeMinutes: nat,
    timestamp: int)

  /** `fileName.replace(/\.md$/, '')`: one trailing `.md` removed. */
  function FileId(fileName: string): (id: string)
    ensures EndsWith(fileName, ".md") ==> id + ".md" == fileName
    ensures !EndsWith(fileName, ".md") ==> id == fileName
  {
    if EndsWith(fileName, ".md") then fileName[..|fileName| - 3] else fileName
  }

  /** The id of `name.md` is `name`, whatever `name` is. */
  lemma FileIdOfMarkdown(name: string)
    ensures FileId(name + ".md") == name
  {
    var f := name + ".md";
    assert f[|f| - 3..] == ".md";
    assert f[..|f| - 3] == name;
  }

  /** The value of a header key, absent when the header does not name it. */
  function Field(metadata: Metadata, key: string): (v: Option<Value>)
    ensures v.Some? <==> key in metadata
    ensures v.Some? ==> v.value == metadata[key]
  {
    if key in metadata then Some(metadata[key]) else None
  }

  /** The page of a body: rendered, references to the notes linked to
      sidenotes, headings given ids; with the headings collected. Without
      notes the linking step leaves the rendered body as it is. */
  function Page(r: Sidenotes.Renderer, body: string, notes: map<string, string>, id: string): (page: (string, seq<Headings.Heading>))
    ensures forall k :: 0 <= k < |page.1| ==> Headings.WellFormed(page.1[k])
    ensures |notes| == 0 ==> page == Headings.AddHeadingIds(r.parse(body))
  {
    var linked := Sidenotes.LinkReferences(r, r.parse(body), notes, id);
    Headings.AddHeadingIds(linked)
  }

  /** One post: header parsed off, footnote definitions extracted, the rest
      rendered, references linked to sidenotes, headings given ids, and the
      metadata normalised. */
  function BuildPost(fileName: string, raw: string, r: Sidenotes.Renderer, timestamp: int): (p: Post)
    ensures p.id == FileId(fileName)
    ensures p.metadata == ParseFrontmatter(raw).metadata
    ensures p.content == Footnotes.ExtractFootnotes(ParseFrontmatter(raw).content).content
    ensures |p.content| <= |ParseFrontmatter(raw).content|
    ensures IsTrimmed(p.plain) && '\n' !in p.plain
    ensures Normalize.IsCategory(p.category)
    ensures Distinct(p.tags) && Distinct(p.relatedIds)
    ensures forall i :: 0 <= i < |p.tags| ==> Normalize.IsCleanEntry(p.tags[i], true)
    ensures forall i :: 0 <= i < |p.relatedIds| ==> Normalize.IsCleanEntry(p.relatedIds[i], false)
    ensures p.status.Some? ==> Normalize.IsCleanEntry(p.status.value, true)
    ensures p.readingTimeMinutes >= 1
    ensures forall k :: 0 <= k < |p.headings| ==> Headings.WellFormed(p.headings[k])
    ensures p.timestamp == timestamp
    ensures p.category == Normalize.NormalizeCategory(Field(p.metadata, "category"))
    ensures p.tags == Normalize.NormalizeTags(Field(p.metadata, "tags"))
    ensures p.status == Normalize.NormalizeStatus(Field(p.metadata, "status"))
    ensures p.relatedIds == Normalize.NormalizeRelated(Field(p.metadata, "related"))
    ensures p.plain == Metrics.StripMarkdown(p.content)
    ensures p.readingTimeMinutes == Metrics.ReadingTime(p.plain)
    ensures (p.html, p.headings) == Page(r, p.content, Footnotes.ExtractFootnotes(ParseFrontmatter(raw).content).notes, p.id)
  {
    var parsed := ParseFrontmatter(raw);
    var id := FileId(fileName);
    var fn := Footnotes.ExtractFootnotes(parsed.content);
    var page := Page(r, fn.content, fn.notes, id);
    var plain := Metrics.StripMarkdown(fn.content);
    var f := Classify(parsed.metadata);
    Post(id, parsed.metadata, fn.content, plain, page.0, page.1,
      f.0, f.1, f.2, f.3, Metrics.ReadingTime(plain), timestamp)
  }

  /** The normalised category, tags, status and related ids of a header.
      An empty header gives `uncategorized` and nothing else. */
  function Classify(metadata: Metadata): (f: (string, seq<string>, Option<string>, seq<string>))
    ensures Normalize.IsCategory(f.0)
    ensures Distinct(f.1) && Distinct(f.3)
    ensures forall i :: 0 <= i < |f.1| ==> Normalize.IsCleanEntry(f.1[i], true)
    ensures forall i :: 0 <= i < |f.3| ==> Normalize.IsCleanEntry(f.3[i], false)
    ensures f.2.Some? ==> Normalize.IsCleanEntry(f.2.value, true)
    ensures metadata == map[] ==> f == (Normalize.Uncategorized, [], None, [])
    ensures "category" !in metadata ==> f.0 == Normalize.Uncategorized
    ensures "tags" !in metadata ==> f.1 == []
    ensures "status" !in metadata ==> f.2 == None
    ensures "related" !in metadata ==> f.3 == []
  {
    (Normalize.NormalizeCategory(Field(metadata, "category")),
     Normalize.NormalizeTags(Field(metadata, "tags")),
     Normalize.NormalizeStatus(Field(metadata, "status")),
     Normalize.NormalizeRelated(Field(metadata, "related")))
  }

  /** Without footnote definitions the body is kept as written and the page
      is the rendered body with heading ids: the linking step has nothing to
      link. */
  lemma BuildPostWithoutFootnotes(fileName: string, raw: string, r: Sidenotes.Renderer, timestamp: int)
    requires var lines := Split(ParseFrontmatter(raw).content, '\n');
      forall k :: 0 <= k < |lines| ==> Footnotes.DefinitionLine(lines[k]).None?
    ensures BuildPost(fileName, raw, r, timestamp).content == ParseFrontmatter(raw).content
    ensures BuildPost(fileName, raw, r, timestamp).html ==
      Headings.AddHeadingIds(r.parse(ParseFrontmatter(raw).content)).0
  {
    Footnotes.NoDefinitionsUnchanged(ParseFrontmatter(raw).content);
  }

  /** A file without a header keeps its whole text as the body and has
      empty metadata, so it lands in `uncategorized` with no tags, status
      or related ids. */
  lemma BuildPostWithoutHeader(fileName: string, raw: string, r: Sidenotes.Renderer, timestamp: int)
    requires !StartsWith(raw, "---")
    ensures var p := BuildPost(fileName, raw, r, timestamp);
      p.metadata == map[] && p.category == Normalize.Uncategorized &&
      p.tags == [] && p.status == None && p.relatedIds == [] &&
      p.content == Footnotes.ExtractFootnotes(raw).content
  {
  }
}
