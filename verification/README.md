# Static post generator: a Dafny model

This project models the text pipeline of a small static blog generator,
`generate-static-posts.mjs`. It also models the older frontmatter parser of
the site's browser script, `script.js`.

For every Markdown post the generator does these steps:

1. It reads the `---` header into metadata (`parseFrontmatter`).
2. It removes the footnote definitions (`extractFootnotes`).
3. It renders the rest with the Markdown library.
4. It turns footnote references into numbered sidenotes (`replaceFootnoteReferences`).
5. It gives the `<h2>`/`<h3>` headings anchor ids and collects them (`addHeadingIdsAndCollect`).
6. It derives the plain text and the reading time (`stripMarkdown`, `estimateReadingTimeMinutes`).
7. It normalises category, tags, status and related ids.

Over the whole corpus it then picks up to three related posts per post
(`selectRelatedPosts`). The homepage groups posts by category
(`getOrderedCategoryGroups`).

Everything is modelled as pure functions over `string` (`seq<char>`),
`seq` and `map`. The Markdown library is a parameter: `Sidenotes.Renderer`
holds its block renderer and its optional inline renderer as uninterpreted
functions.

Each regular expression the generator applies is written out as a
hand-written matcher:

- `Scan.MatchAt` covers the global replacements, with `Scan.ReplaceAll` as the left-to-right global replace.
- `Frontmatter.MatchHeader` covers the header pattern, including its backtracking.
- `Footnotes.DefinitionLine`, `Sidenotes.RefAt` and `Headings.ElementAt` cover the line, reference and heading patterns.

Characters are ASCII: whitespace is space, tab, newline, carriage return,
vertical tab and form feed, and case mapping is on `A`-`Z` only.

Modules, by file:

- `text.dfy` (`Text`): trimming, lower-casing, splitting and joining, the first-occurrence de-duplication `Array.from(new Set(...))`, decimal rendering, and the in-order map assignment.
- `scan.dfy` (`Scan`): the global replacements.
- `frontmatter.dfy` (`Frontmatter`): `parseFrontmatter` and `parseFrontmatterValue` of the generator.
- `legacy_frontmatter.dfy` (`LegacyFrontmatter`): the browser script's `parseFrontmatter`, and where the two parsers agree.
- `metrics.dfy` (`Metrics`): `escapeHtml`, `stripMarkdown`, `truncateText` and `estimateReadingTimeMinutes`.
- `normalize.dfy` (`Normalize`): `normalizeTags`, `normalizeStatus`, `normalizeRelated`, `normalizeCategory` and `getCategoryLabel`.
- `slug.dfy` (`Slug`): `slugify` and `stripHtmlTags`.
- `footnotes.dfy` (`Footnotes`): `extractFootnotes`.
- `sidenotes.dfy` (`Sidenotes`): `renderInlineMarkdown` and `replaceFootnoteReferences`.
- `headings.dfy` (`Headings`): `addHeadingIdsAndCollect`.
- `posts.dfy` (`Posts`): the per-file body of `main`.
- `related.dfy` (`Related`): `selectRelatedPosts` and the corpus loop that calls it.
- `groups.dfy` (`Groups`): `getOrderedCategoryGroups`.

Some behaviour of the code is kept as written and stated as such:

- Heading ids are not unique: "Setup", "Setup", "Setup 2" give `setup`, `setup-2`, `setup-2` (`Headings.IdsCanRepeat`).
- A footnote definition line with text before a final carriage return (a CRLF file) is not a definition, because `.` does not match the carriage return.
- The existing-id lookup (`\sid="([^"]+)"`) and the id removal (`\sid="[^"]*"`) can pick different attributes when an empty `id=""` comes first.
- The explicit related tier is not capped before the final slice.
- One fill pass (`Related.Fill`) models both the tag-overlap loop and the corpus loop. Its current-post test is redundant in the first, whose candidates already exclude the current post.
- `byId` keeps the last post of a repeated id.

## Model

| member | source | states |
|---|---|---|
| Text.Trim | generate-static-posts.mjs:101 | the result has no whitespace at either end, every character cut from either end is whitespace, and the result is the text between the cut ends |
| Text.TrimKeepsChars | generate-static-posts.mjs:101 | trimming keeps every character that is not whitespace |
| Text.TrimEmptyIffAllSpace | generate-static-posts.mjs:280 | a line trims to the empty string exactly when it is all whitespace |
| Text.TrimSurrounded | generate-static-posts.mjs:65-66 | whitespace of any kind and length around a trimmed non-empty text is exactly what trimming removes |
| Text.Lower | generate-static-posts.mjs:249 | `toLowerCase` maps each character on its own, keeps the length, and leaves no upper-case letter |
| Text.LowerOfLowerCase | generate-static-posts.mjs:249 | lower-casing text without upper-case letters changes nothing |
| Text.IndexOf | generate-static-posts.mjs:96 | `indexOf` finds the first occurrence of the character |
| Text.Split | generate-static-posts.mjs:95 | `split` on one character gives at least one part, and no part contains the separator |
| Text.JoinSplit | generate-static-posts.mjs:262-299 | joining the split lines with the separator gives the text back |
| Text.SplitJoin | generate-static-posts.mjs:262-299 | splitting a join of separator-free parts gives the parts back |
| Text.SplitAppend | generate-static-posts.mjs:95 | splitting two texts joined by the separator splits each of them |
| Text.Dedupe | generate-static-posts.mjs:195-197 | `Array.from(new Set(xs))` has no repeats, holds exactly the elements of `xs`, and is no longer than `xs` |
| Text.DedupeSnocCases | generate-static-posts.mjs:195-197 | a repeated element adds nothing, and a new element goes at the end |
| Text.DedupeFirstOccurrenceOrder | generate-static-posts.mjs:195-197 | the kept elements are in the order of their first occurrence |
| Text.DedupeDistinct | generate-static-posts.mjs:216-218 | a list without repeats passes through de-duplication unchanged |
| Text.NatToString | generate-static-posts.mjs:336 | a number renders as decimal digits with no leading zero |
| Text.ParseNatToString | generate-static-posts.mjs:336 | reading the rendered digits back gives the number |
| Text.NatToStringInjective | generate-static-posts.mjs:367 | different numbers render differently |
| Text.FindCharAt | generate-static-posts.mjs:347 | the character search stops at the first occurrence |
| Text.FindSubAt | generate-static-posts.mjs:124 | the substring search stops at the first occurrence |
| Text.AssignKeys | generate-static-posts.mjs:107 | the keys of the assigned map are exactly the keys of the entries |
| Text.AssignLastWins | generate-static-posts.mjs:107 | a key holds the value of its last entry |
| Scan.ReplaceAll | generate-static-posts.mjs:122-133 | no contract of its own; what a global replace produces is stated by the `Scan` rows below and the `Scan.Literal*` rows |
| Scan.MatchAt | generate-static-posts.mjs:124-131 | a match is never empty and ends within the text |
| Scan.ReplaceIdentity | generate-static-posts.mjs:122-133 | a global replace changes nothing when every match would be replaced by its own text |
| Scan.NoMatchIdentity | generate-static-posts.mjs:122-133 | a global replace with no match changes nothing |
| Scan.OutputChars | generate-static-posts.mjs:122-133 | every output character is kept from an unmatched position or comes from a replacement |
| Scan.AbsentStaysAbsent | generate-static-posts.mjs:122-133 | a character neither in the text nor brought in by the pattern is not in the output |
| Scan.CharsOfReplace | generate-static-posts.mjs:122-133 | every output character was in the text or is one the pattern brings in |
| Scan.LiteralAppend | generate-static-posts.mjs:115-119 | a one-character replacement distributes over concatenation |
| Scan.LiteralCharwise | generate-static-posts.mjs:115-119 | a global replace of one character by another swaps every occurrence and keeps every other character in place |
| Scan.SingleSpacesAsLiteral | generate-static-posts.mjs:131 | on text whose only whitespace is single spaces, replacing whitespace runs is the same as replacing each space |
| Frontmatter.MatchHeader | generate-static-posts.mjs:85 | text not starting with `---` has no header; a match has `---`, a whitespace run ending in a newline, the header lines, the first `\n---` closing line and a whitespace run ending in the newline before the body; a header is found whenever the text has that shape, the chosen closing line is the earliest possible, and the body starts after the last newline of the whitespace run that follows it |
| Frontmatter.ParseFrontmatter | generate-static-posts.mjs:84-111 | without a header match the metadata is empty and the content is the whole text; with one the content is the text after the match, strictly shorter, and the metadata is the parse of the header lines |
| Frontmatter.CanonicalDocument | generate-static-posts.mjs:84-111 | `---\n<header>\n---\n<body>` is recognised, with the header lines parsed and the body as content |
| Frontmatter.ParseValue | generate-static-posts.mjs:64-82 | `tags` and `related` give lists of non-empty items; every other key gives the cleaned scalar |
| Frontmatter.LineEntry | generate-static-posts.mjs:95-108 | a line without a colon gives nothing; an entry has a trimmed non-empty key |
| Frontmatter.SplitAtFirstColon | generate-static-posts.mjs:96-107 | a line is cut at its first colon: the key is trimmed, the value keeps later colons, and a blank key gives nothing |
| Frontmatter.ScalarEntry | generate-static-posts.mjs:96-107 | a non-list key stores the cleaned text after the first colon |
| Frontmatter.ParseLinesKeys | generate-static-posts.mjs:95-108 | a key is in the metadata exactly when some header line has it |
| Frontmatter.LastLineWins | generate-static-posts.mjs:107 | a repeated key keeps the value of its last line |
| Frontmatter.BracketedValue | generate-static-posts.mjs:70-78 | under a list key, a bracketed value is split at commas between the brackets |
| Frontmatter.ListRoundTrip | generate-static-posts.mjs:64-82 | plain items written as `[a, b, c]` and parsed under a list key come back in order |
| Frontmatter.TagListExample | generate-static-posts.mjs:64-82 | `[a, "b c", 'd']` under `tags` gives `a`, `b c`, `d` |
| Frontmatter.CleanScalar | generate-static-posts.mjs:65-67 | the scalar is the middle of the trimmed value with the same number `d` of characters cut from each end; `d` is positive exactly when the trimmed value is in double or single quotes, and two exactly when double quotes hold a single-quoted text |
| Frontmatter.QuoteOrder | generate-static-posts.mjs:66-67 | double quotes are dropped before single quotes: `"'x'"` gives `x`, and `'"x"'` gives `"x"` |
| Frontmatter.CleanQuoted | generate-static-posts.mjs:65-68 | one surrounding pair of double or single quotes is dropped after trimming |
| Frontmatter.PaddedValue | generate-static-posts.mjs:65-66 | whitespace of any kind and length around a value does not change what it parses to |
| LegacyFrontmatter.StripLooseQuotes | script.js:33 | the result is the text with one quote removed from its start when it starts with one and one from its end when it ends with one, each end on its own, and nothing else changed |
| LegacyFrontmatter.QuoteExamples | script.js:33 | mismatched and lone quotes are removed from each end independently, and list syntax stays text |
| LegacyFrontmatter.LineEntry | script.js:29-35 | a line gives an entry exactly when it has a colon that is not its first character |
| LegacyFrontmatter.ValueAfterFirstColon | script.js:30-33 | the key is trimmed, and the value is everything after the first colon, trimmed and loosely de-quoted |
| LegacyFrontmatter.RestAfterFirstColon | script.js:30-32 | the split parts after the first, rejoined with colons, are the text after the first colon |
| LegacyFrontmatter.ParseLinesKeys | script.js:29-35 | a key is in the metadata exactly when some header line gives an entry for it |
| LegacyFrontmatter.LastLineWins | script.js:29-35 | a repeated key keeps the value of its last line |
| LegacyFrontmatter.ParseFrontmatter | script.js:14-38 | without a header match the metadata is empty and the content is the whole text; otherwise the content is the generator parser's and the metadata is the in-order assignment of the header lines' entries |
| LegacyFrontmatter.LineAgreement | script.js:29-35 | on a line without quotes whose key is not a list key, both parsers store the same entry |
| LegacyFrontmatter.DocumentAgreement | script.js:14-38 | on such headers both parsers give the same content and the same metadata |
| Metrics.EscapeHtml | generate-static-posts.mjs:113-120 | the escaped text has no `<`, `>`, `"` or `'` |
| Metrics.EscapeEquivalent | generate-static-posts.mjs:113-120 | the five passes, ampersands first, escape each character on its own, so no entity is escaped twice |
| Metrics.EscapeRoundTrip | generate-static-posts.mjs:113-120 | unescaping the five entities gives the original text back |
| Metrics.StripMarkdown | generate-static-posts.mjs:122-133 | the plain text is trimmed, has only single spaces as whitespace, no newline and none of `>*_~` |
| Metrics.PlainProseUnchanged | generate-static-posts.mjs:122-133 | trimmed single-spaced text without Markdown syntax passes through unchanged |
| Scan.SpaceRunCollapsed | generate-static-posts.mjs:131 | replacing each whitespace run by one space leaves no whitespace but single spaces |
| Metrics.TruncateText | generate-static-posts.mjs:135-141 | text that fits is kept; longer text is cut at `maxLength`, loses the whitespace at the end of the cut, and gets `...`: the kept part is a prefix of the text without trailing whitespace, only whitespace lies between it and `maxLength`, and the result is at most `maxLength + 3` long |
| Metrics.Words | generate-static-posts.mjs:243 | the words are non-empty and contain no whitespace |
| Metrics.WordsRoundTrip | generate-static-posts.mjs:243 | splitting words joined by spaces gives the words back |
| Metrics.UnwordsWords | generate-static-posts.mjs:243 | a trimmed text whose only whitespace is single spaces is its words joined by spaces |
| Metrics.WordsEmpty | generate-static-posts.mjs:243 | a text has no words exactly when it is all whitespace |
| Metrics.ReadingTime | generate-static-posts.mjs:238-245 | at least one minute; empty or wordless text takes one; otherwise the word count divided by 220, rounded up |
| Metrics.ReadingTimeExamples | generate-static-posts.mjs:238-245 | 440 words take two minutes, 441 take three, and empty text takes one |
| Normalize.NormalizeTags | generate-static-posts.mjs:188-198 | tags are trimmed, lower-case, non-empty and without repeats; each comes from a raw item, and every non-empty raw item is present |
| Normalize.NormalizeRelated | generate-static-posts.mjs:209-219 | ids are trimmed, non-empty and without repeats, case kept; each comes from a raw item, and every non-empty raw item is present |
| Normalize.NormalizedOrder | generate-static-posts.mjs:188-219 | two normalised items stand in the order of their first occurrences among the cleaned raw items (trimmed, lower-cased for tags), and of their first occurrences among the non-empty cleaned items |
| Normalize.NormalizeTagsIdempotent | generate-static-posts.mjs:188-198 | normalising normalised tags changes nothing |
| Normalize.NormalizeRelatedIdempotent | generate-static-posts.mjs:209-219 | normalising normalised related ids changes nothing |
| Normalize.NormalizeStatus | generate-static-posts.mjs:200-207 | a status exists exactly when the value is a string that is not all whitespace, and it is trimmed and lower-case |
| Normalize.NormalizeStatusIdempotent | generate-static-posts.mjs:200-207 | normalising a normalised status changes nothing |
| Normalize.NormalizeCategory | generate-static-posts.mjs:221-232 | the result is `research`, `technical`, `personal` or `uncategorized`; a named category is the trimmed lower-cased value, and such a value always gives its category |
| Normalize.NormalizeCategoryIdempotent | generate-static-posts.mjs:221-232 | normalising a normalised category changes nothing |
| Normalize.CategoryLabel | generate-static-posts.mjs:17-23 | a named category is its own label, and everything else reads `other` |
| Slug.Slugify | generate-static-posts.mjs:247-255 | a slug holds only lower-case letters, digits and single hyphens, with no hyphen doubled |
| Slug.SlugifyOfSlug | generate-static-posts.mjs:247-255 | `slugify` is the identity on slugs |
| Slug.SlugifyIdempotent | generate-static-posts.mjs:247-255 | slugifying twice is the same as once |
| Slug.SlugifyWords | generate-static-posts.mjs:247-255 | words of letters and digits separated by single spaces slugify to the lower-cased words joined by hyphens |
| Slug.SlugifyExample | generate-static-posts.mjs:247-255 | "Setup" gives `setup` and "Setup 2" gives `setup-2` |
| Slug.DashRunNoDouble | generate-static-posts.mjs:254 | replacing hyphen runs by one hyphen leaves no doubled hyphen |
| Slug.StripHtmlTags | generate-static-posts.mjs:257-259 | the result contains nothing the tag pattern matches |
| Slug.StripHtmlTagsIdempotent | generate-static-posts.mjs:257-259 | stripping tags twice is the same as once |
| Slug.StripHtmlTagsFixed | generate-static-posts.mjs:257-259 | stripping tags leaves the text unchanged exactly when it holds no tag |
| Slug.StripHtmlTagsPrefix | generate-static-posts.mjs:257-259 | text before the first `<` is kept as it is, in front of the stripped rest |
| Slug.StripHtmlTagsOfTag | generate-static-posts.mjs:257-259 | a tag, `<` then one or more characters other than `>` then `>`, is removed with nothing in its place, and the text before it is kept |
| Footnotes.Continuation | generate-static-posts.mjs:278-292 | a blank line adds an empty line to a note; a line indented by two or more spaces adds itself without its leading spaces; a tab-indented line adds itself without that tab; exactly the other lines end the note |
| Footnotes.ExtractFootnotes | generate-static-posts.mjs:261-302 | the content is no longer than the input, and every key and note is trimmed |
| Footnotes.ExtractKeepsOrder | generate-static-posts.mjs:266-272 | the kept lines are the input lines in order with some left out |
| Footnotes.KeptAreNotDefinitions | generate-static-posts.mjs:268-272 | no kept line is a definition |
| Footnotes.DefinedAreTrimmed | generate-static-posts.mjs:275-295 | every collected key and note is trimmed |
| Footnotes.NotesKeys | generate-static-posts.mjs:295 | a key has a note exactly when some definition names it |
| Footnotes.NotesLastWins | generate-static-posts.mjs:295 | the last definition of a key wins |
| Footnotes.NoDefinitionsUnchanged | generate-static-posts.mjs:261-302 | a document without definition lines is its own content and has no notes |
| Footnotes.ContentLines | generate-static-posts.mjs:299 | the lines of the content are the kept lines |
| Footnotes.ExtractIdempotent | generate-static-posts.mjs:261-302 | extracting from extracted content finds nothing more |
| Footnotes.PlainPrefix | generate-static-posts.mjs:266-272 | lines without definitions in front of others are kept, and do not change what the later lines give |
| Footnotes.LoneDefinition | generate-static-posts.mjs:274-295 | a definition with nothing after it is the only note, with its text trimmed |
| Footnotes.DefinitionLine | generate-static-posts.mjs:268 | no contract of its own; the two rows below state that it matches exactly the lines of the pattern `^\[\^([^\]]+)\]:\s*(.*)$` |
| Footnotes.DefinitionLineSound | generate-static-posts.mjs:268 | every recognised line is `[^key]:`, a whitespace run and a text, with a non-empty key without `]`, a text without line break that does not start with whitespace, and the trimmed key |
| Footnotes.DefinitionLineComplete | generate-static-posts.mjs:268 | every line of that shape is recognised, with its trimmed key and its text |
| Footnotes.DefinitionOfParses | generate-static-posts.mjs:268 | `[^key]: text` is recognised, with the trimmed key and the text |
| Footnotes.AppendDefinition | generate-static-posts.mjs:261-302 | a document plus one definition line gives the document back as content and that one note |
| Footnotes.DefinitionWithBody | generate-static-posts.mjs:274-295 | a definition followed by continuation lines gives one note: its text and the continuations' texts joined by newlines and trimmed, ahead of the notes of the lines after them |
| Footnotes.NoteWithBody | generate-static-posts.mjs:261-302 | lines without definitions before such a note are kept, and the note and the later lines give what they give alone |
| Footnotes.NoteBodyOfRun | generate-static-posts.mjs:278-292 | a note's body takes exactly the texts of the continuation lines and stops at the first other line |
| Sidenotes.RenderInline | generate-static-posts.mjs:304-311 | the inline renderer is used when present; otherwise the result is no longer than the trimmed block rendering, and is that rendering with the paragraph tags stripped (next row) |
| Sidenotes.StripParagraph | generate-static-posts.mjs:310 | the result is the text with `<p>` cut from its start when it starts with one and `</p>` cut from the end of the rest when it ends with one, and nothing else changed |
| Sidenotes.RenderInlinePassesThrough | generate-static-posts.mjs:309-310 | without an inline renderer, a block rendering not wrapped in paragraph tags comes out trimmed and otherwise unchanged |
| Sidenotes.RenderInlineUnwraps | generate-static-posts.mjs:309-310 | without an inline renderer, a note rendered as one paragraph comes out as the paragraph's content |
| Sidenotes.RefAt | generate-static-posts.mjs:322 | a reference `[^key]` starts with `[^`, runs to the first `]` after it with at least one character between, and gives the trimmed key |
| Sidenotes.RefAtComplete | generate-static-posts.mjs:322 | every `[^` followed by a non-empty run without `]` and a `]` is a reference, ending at that first `]` |
| Sidenotes.Pieces | generate-static-posts.mjs:322 | cutting the page into characters and references loses nothing |
| Sidenotes.LinkReferences | generate-static-posts.mjs:313-317 | with no notes the page is returned unchanged |
| Sidenotes.NoNotedReferenceUnchanged | generate-static-posts.mjs:322-328 | a page whose references all lack a note or have an empty one comes out unchanged |
| Sidenotes.AssignedIsDedupe | generate-static-posts.mjs:330-333 | the numbering map holds the keys of the noted references without repeats, in order of first reference |
| Sidenotes.NumberInFinalMap | generate-static-posts.mjs:330-335 | a reference's number is its key's place in the final numbering, counted from one |
| Sidenotes.SameKeySameNumber | generate-static-posts.mjs:330-335 | two noted references get the same number exactly when they have the same key |
| Sidenotes.FirstReferenceNextNumber | generate-static-posts.mjs:330-333 | the first reference to a key gets one more than the number of keys numbered before it |
| Sidenotes.ToggleIdInjective | generate-static-posts.mjs:336 | within a post, different numbers give different toggle ids |
| Headings.ElementAt | generate-static-posts.mjs:347 | a match has the pattern's shape: `<h2` or `<h3`, attributes without `>`, `>`, the content, and the first closing tag of that level after it; and it covers the text from where it starts |
| Headings.ElementAtComplete | generate-static-posts.mjs:347 | every text of that shape where the search stands is what is matched there, so the match is the only one |
| Headings.ShapeUnique | generate-static-posts.mjs:347 | two texts of the pattern's shape at the same place are the same element |
| Headings.Pieces | generate-static-posts.mjs:347 | cutting the page into characters and `h2`/`h3` elements loses nothing |
| Headings.PlainHeading | generate-static-posts.mjs:348-351 | the heading text is trimmed and its only whitespace is single spaces |
| Headings.PlainHeadingOfPlain | generate-static-posts.mjs:348-351 | trimmed single-spaced text without tags or entities is its own heading text |
| Headings.ExistingId | generate-static-posts.mjs:357 | an existing id is non-empty and has no quote |
| Headings.ExistingIdOf | generate-static-posts.mjs:357 | ` id="v"` at the start of the attributes gives the existing id `v` |
| Headings.BaseId | generate-static-posts.mjs:357-362 | an existing id is preferred, then the slug of the text, then `section-<n+1>` when the slug is empty |
| Headings.CollectFollowsBases | generate-static-posts.mjs:364-368 | there is one heading per base id; the counts are the occurrences so far; each id is its base suffixed by its use number |
| Headings.IdOfUses | generate-static-posts.mjs:364-368 | a base's first use is the id itself, and its k-th use is suffixed `-k` |
| Headings.IdsCanRepeat | generate-static-posts.mjs:343-368 | three headings "Setup", "Setup", "Setup 2" get the ids `setup`, `setup-2` and `setup-2` |
| Headings.ExampleBases | generate-static-posts.mjs:357-362 | the base ids of "Setup", "Setup", "Setup 2" are `setup`, `setup`, `setup-2` |
| Headings.CollectFollowsTitled | generate-static-posts.mjs:347-375 | there is one heading per element whose plain text is not empty, in page order; each heading has its element's level number and plain text, and each base id is the element's own id, its slug, or `section-n` for the n-th heading |
| Headings.AddHeadingIds | generate-static-posts.mjs:343-384 | every collected heading has trimmed non-empty text, a level of 2 or 3, and an id; there is one heading per titled element, in page order, with that element's level number and plain text, and each id is its base suffixed by its use number |
| Headings.PageWithoutHeadings | generate-static-posts.mjs:353-355 | a page without titled `h2`/`h3` headings comes out unchanged, and nothing is collected |
| Headings.RemoveIdWithoutId | generate-static-posts.mjs:376 | attributes without an `id` attribute are kept whole |
| Posts.FileId | generate-static-posts.mjs:999 | one trailing `.md` is removed, and any other name is kept |
| Posts.FileIdOfMarkdown | generate-static-posts.mjs:999 | the id of `name.md` is `name` |
| Posts.Page | generate-static-posts.mjs:1002-1005 | every collected heading is well formed; without notes the page is the rendered body with heading ids |
| Posts.Classify | generate-static-posts.mjs:1015-1018 | the category is a named one or `uncategorized`; tags and related ids are clean and without repeats; a missing key gives `uncategorized`, no tags, no status or no related ids |
| Posts.BuildPost | generate-static-posts.mjs:998-1021 | the post has the file's id, the parsed metadata, the content without definitions, its plain text and the reading time of that plain text, category, tags, status and related ids normalised from its metadata fields, the page of its content and notes, and well-formed headings |
| Posts.BuildPostWithoutFootnotes | generate-static-posts.mjs:1001-1005 | without definition lines the body is kept and the page is the rendered body with heading ids |
| Posts.BuildPostWithoutHeader | generate-static-posts.mjs:998-1018 | a file without a header keeps its whole text as the body and lands in `uncategorized` with no tags, status or related ids |
| Related.ById | generate-static-posts.mjs:559 | an id is found exactly when some post has it, and the post found has it |
| Related.ByIdIsLast | generate-static-posts.mjs:559 | of several posts with one id, the last is found |
| Related.Explicit | generate-static-posts.mjs:563-569 | the explicit tier holds only other posts of the corpus without repeated ids, and no more posts than listed ids |
| Related.ExplicitIds | generate-static-posts.mjs:563-569 | the explicit tier is the listed ids that name another post, without repeats, in listed order |
| Related.Overlap | generate-static-posts.mjs:575 | the overlap is zero exactly when no tag is shared |
| Related.OverlapShared | generate-static-posts.mjs:575 | with tags free of repeats, the overlap is the number of shared tags |
| Related.ScoreCandidates | generate-static-posts.mjs:572-579 | the candidates are exactly the open posts that share a tag, each with its score |
| Related.OrderIsPermutation | generate-static-posts.mjs:580-586 | the sort visits every candidate exactly once |
| Related.RankedOrder | generate-static-posts.mjs:580-586 | the sorted candidates are a permutation; the comparator never goes up along them, and equal candidates keep their order |
| Related.RankedSorted | generate-static-posts.mjs:580-586 | the sorted posts run by overlap and then timestamp, both descending |
| Related.Fill | generate-static-posts.mjs:588-608 | a pass keeps what was selected and adds only other candidates, stops at `maxItems`, and leaves no candidate out while room remains |
| Related.FillValid | generate-static-posts.mjs:588-608 | a pass keeps the selection to other posts of the corpus without repeated ids |
| Related.FillOrder | generate-static-posts.mjs:588-608 | the posts a pass adds keep the order of its candidate list |
| Related.SkippedOnlyWhenFull | generate-static-posts.mjs:588-608 | an open candidate a pass does not take was reached only after the pass had filled `maxItems` places |
| Related.FillPrefix | generate-static-posts.mjs:588-608 | a pass over the first candidates selects a prefix of what the pass over all of them selects |
| Related.SelectRelated | generate-static-posts.mjs:558-611 | at most `maxItems` posts, all from the corpus, never the current post, never an id twice |
| Related.SelectExplicitFirst | generate-static-posts.mjs:563-569 | the result starts with the explicit tier, cut at `maxItems` |
| Related.TagTierShares | generate-static-posts.mjs:571-597 | after the explicit tier come only posts that share a tag |
| Related.TagTierOrder | generate-static-posts.mjs:580-597 | the tag tier runs by overlap and then timestamp, both descending |
| Related.TagTierComplete | generate-static-posts.mjs:588-597 | while the tag tier leaves room, every other post sharing a tag has its id taken |
| Related.FillTierOrder | generate-static-posts.mjs:599-608 | after the tag tier come only posts sharing no tag, in corpus order |
| Related.SelectLength | generate-static-posts.mjs:558-611 | the result has `maxItems` posts, or one per other id when there are fewer |
| Related.OtherIdsOfUniqueIds | generate-static-posts.mjs:558-611 | with unique ids, the other ids number one less than the posts |
| Related.SelectExample | generate-static-posts.mjs:558-611 | a post listing `d` and sharing tags with `b` (newer) and `c` (older) gets `d`, `b`, `c` |
| Related.LinkCorpus | generate-static-posts.mjs:1026-1028 | every post gets at most three related posts, valid for it |
| Groups.Members | generate-static-posts.mjs:630 | a group has no more posts than the corpus |
| Groups.MembersInOrder | generate-static-posts.mjs:630 | a group's posts are exactly those that belong to it, in corpus order |
| Groups.KeyedGroupsWellFormed | generate-static-posts.mjs:629-636 | each named group has posts, its label, and exactly its members |
| Groups.KeyedGroupsKeys | generate-static-posts.mjs:629-636 | the named groups are the categories with posts, in display order |
| Groups.CategoryGroups | generate-static-posts.mjs:628-648 | every group has a known key, a label, posts, and exactly the posts that belong to it |
| Groups.GroupsOrdered | generate-static-posts.mjs:628-648 | the group keys follow the display order, each at most once, with `uncategorized` last |
| Groups.GroupPresence | generate-static-posts.mjs:628-648 | a group is present exactly when some post belongs to it |
| Groups.BelongsOnce | generate-static-posts.mjs:630-638 | a post belongs under exactly one of the four keys |
| Groups.GroupsPartition | generate-static-posts.mjs:628-648 | the groups together are a rearrangement of the corpus: every post is in exactly one group |

## Left out

- Fetching and loading the Markdown library (generate-static-posts.mjs:25-62) is left out: it is network access and `vm` execution. The library's two renderers are parameters.
- Date handling (`toIsoDate`, `formatDate`, `formatMonthDay`, `formatYear`, generate-static-posts.mjs:143-186) is left out because it depends on JavaScript `Date` parsing and locale formatting. The timestamp `new Date(...).getTime() || 0` (line 576) is an integer field of the post, given to `Posts.BuildPost` as a parameter.
- The corpus sort by date at line 1024 is left out for the same reason. `Related.LinkCorpus` takes the posts in the order that sort produces.
- File reading and writing, directory creation, `JSON.parse` of the post list, and `console.log` are left out: they are I/O.
- The page templates and embedded browser scripts (`buildPostHtml`, `buildArchiveHtml`, `buildHomepageHtml`, `buildSitemap`, `buildPostMeta`, `buildTocMarkup`, `buildRelatedPostsSection` and the theme, table-of-contents and archive scripts) are left out. They are string concatenation with no decisions worth a contract.
- The rest of script.js (DOM updates, `fetch`, syntax highlighting, math rendering, the floating-point reading-progress bar) is left out because it is browser I/O.
- Unicode is left out. Whitespace is ASCII only, and lower-casing covers `A`-`Z` only. JavaScript's `\s` and `toLowerCase` cover more characters.
- JavaScript prototype keys (a footnote key such as `constructor` looked up in a plain object) are left out. Lookups are in a `map` with no inherited entries.
- Non-string metadata values other than lists cannot arise from the header parser, so the `String(tag)` conversions of the normalisers see only strings.
- `Headings.AddHeadingIds`: its contract states each collected heading's level, text and id against the titled elements in page order; its rewritten page is stated only by `Headings.PageWithoutHeadings` and, for a titled heading, through the model's `Headings.Output`.
- `Sidenotes.LinkReferences` states only the no-notes case. The numbering is stated on the pieces of the page, in `Sidenotes.AssignedIsDedupe`, `Sidenotes.NumberInFinalMap`, `Sidenotes.SameKeySameNumber` and `Sidenotes.FirstReferenceNextNumber`. The sidenote markup itself is written out in `Sidenotes.Sidenote` without a contract.
- `Metrics.StripMarkdown` states the shape of the plain text and that plain prose is kept. It does not state which characters of links, images and code survive.
