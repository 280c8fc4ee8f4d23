/** The older frontmatter parser of the browser script (script.js,
    `parseFrontmatter`). It recognises the same header as the generator but
    reads the lines more loosely: values are always strings, and quotes are
    removed one at a time from either end. */
module LegacyFrontmatter {
  import opened Text
  import Frontmatter

  datatype Parsed = Parsed(metadata: map<string, string>, content: string)

  predicate IsQuote(c: char) { c == '"' || c == '\'' }

  /** Removes a quote at the start and a quote at the end, each on its own
      (they need not match, and a lone quote is removed too). */
  function StripLooseQuotes(v: string): (r: string)
    ensures |v| - 2 <= |r| <= |v|
    ensures |v| > 0 && !IsQuote(v[0]) && !IsQuote(v[|v| - 1]) ==> r == v
    ensures var d := LeadingQuote(v);
      d + |r| <= |v| && r == v[d..d + |r|] &&
      |v| - d - |r| == (if |v| > d && IsQuote(v[|v| - 1]) then 1 else 0)
  {
    var a := if |v| > 0 && IsQuote(v[0]) then v[1..] else v;
    if |a| > 0 && IsQuote(a[|a| - 1]) then a[..|a| - 1] else a
  }

  /** How many quotes the start of a value loses: one when it starts with
      a quote. */
  function LeadingQuote(v: string): (d: nat)
    ensures d <= 1 && d <= |v|
    ensures d == 1 <==> |v| > 0 && IsQuote(v[0])
  {
    if |v| > 0 && IsQuote(v[0]) then 1 else 0
  }

  /** The entry of one line: the text before the first colon must be
      non-empty (it is stored trimmed), and the value is everything after
      that colon, trimmed and loosely de-quoted. */
  function LineEntry(line: string): (e: Option<(string, string)>)
    ensures e.Some? <==> ':' in line && line[0] != ':'
  {
    var parts := Split(line, ':');
    var key := parts[0];
    RestAfterFirstColon(line);
    if |key| > 0 && |parts| > 1 then
      Some((Trim(key), StripLooseQuotes(Trim(Join(parts[1..], ":")))))
    else
      None
  }

  /** The metadata of the header lines, read in order. */
  function ParseLines(lines: seq<string>): map<string, string> {
    Assign(EntriesOf(lines, LineEntry))
  }

  /** `parseFrontmatter` of the browser script. */
  function ParseFrontmatter(markdown: string): (r: Parsed)
    ensures Frontmatter.MatchHeader(markdown).None? ==> r == Parsed(map[], markdown)
    ensures Frontmatter.MatchHeader(markdown).Some? ==>
      r.content == Frontmatter.ParseFrontmatter(markdown).content &&
      r.metadata == ParseLines(Frontmatter.HeaderLines(markdown))
  {
    match Frontmatter.MatchHeader(markdown)
    case None => Parsed(map[], markdown)
    case Some(m) =>
      Parsed(ParseLines(Frontmatter.HeaderLines(markdown)), markdown[m.bodyStart..])
  }

  /** A key is present exactly when some header line stores an entry under
      it. */
  lemma ParseLinesKeys(lines: seq<string>, k: string)
    ensures k in ParseLines(lines) <==>
      exists i :: 0 <= i < |lines| && LineEntry(lines[i]).Some? && LineEntry(lines[i]).value.0 == k
  {
    var es := EntriesOf(lines, LineEntry);
    AssignKeys(es, k);
    assert forall i :: 0 <= i < |lines| ==>
      (EntryFor(es[i], k) <==> LineEntry(lines[i]).Some? && LineEntry(lines[i]).value.0 == k);
  }

  /** A later line with the same key overwrites an earlier one, so a key
      keeps the value of its last line. */
  lemma LastLineWins(lines: seq<string>, i: nat)
    requires i < |lines| && LineEntry(lines[i]).Some?
    requires forall j :: i < j < |lines| ==>
      LineEntry(lines[j]).None? || LineEntry(lines[j]).value.0 != LineEntry(lines[i]).value.0
    ensures LineEntry(lines[i]).value.0 in ParseLines(lines)
    ensures ParseLines(lines)[LineEntry(lines[i]).value.0] == LineEntry(lines[i]).value.1
  {
    var es := EntriesOf(lines, LineEntry);
    assert forall j :: i < j < |lines| ==> !EntryFor(es[j], es[i].value.0);
    AssignLastWins(es, i);
  }

  // ---------------------------------------------------------------------
  // Properties
  // ---------------------------------------------------------------------

  /** The parts after the first one, joined back with colons, are the text
      after the first colon. */
  lemma RestAfterFirstColon(line: string)
    ensures ':' in line ==> Split(line, ':')[0] == line[..IndexOf(line, ':')]
    ensures ':' in line ==> Join(Split(line, ':')[1..], ":") == line[IndexOf(line, ':') + 1..]
    ensures ':' !in line ==> Split(line, ':') == [line]
  {
    if ':' in line {
      var k := IndexOf(line, ':');
      var parts := Split(line, ':');
      assert parts == [line[..k]] + Split(line[k + 1..], ':');
      assert parts[1..] == Split(line[k + 1..], ':');
      JoinSplit(line[k + 1..], ':');
    }
  }

  /** A value keeps its later colons: `k: a:b` stores `a:b` under `k`. */
  lemma ValueAfterFirstColon(k: string, v: string)
    requires |k| > 0 && ':' !in k
    ensures LineEntry(k + ":" + v) == Some((Trim(k), StripLooseQuotes(Trim(v))))
  {
    var line := k + ":" + v;
    assert line[|k|] == ':';
    assert forall i :: 0 <= i < |k| ==> line[i] == k[i];
    RestAfterFirstColon(line);
    assert IndexOf(line, ':') == |k|;
    assert line[..|k|] == k;
    assert line[|k| + 1..] == v;
  }

  /** Quotes are removed from each end on their own, so mismatched or lone
      quotes go too; list syntax is kept as text. */
  lemma QuoteExamples()
    ensures StripLooseQuotes("\"x'") == "x"
    ensures StripLooseQuotes("\"x") == "x"
    ensures StripLooseQuotes("\"") == ""
    ensures StripLooseQuotes("[a, b]") == "[a, b]"
  {
    assert "\"x'"[1..] == "x'";
    assert "x'"[..1] == "x";
    assert "\"x"[1..] == "x";
  }

  function Lift(e: Option<(string, string)>): Option<(string, Frontmatter.Value)> {
    match e
    case Some((k, v)) => Some((k, Frontmatter.Scalar(v)))
    case None => None
  }

  /** The lines on which the two parsers are meant to agree: without a colon,
      or with a non-blank key that is not a list key and no quotes. */
  predicate Agreeable(line: string) {
    ':' !in line ||
    (var key := Trim(line[..IndexOf(line, ':')]);
     |key| > 0 && !Frontmatter.IsListKey(key) && '"' !in line && '\'' !in line)
  }

  /** On such lines the generator's parser and this one store the same
      entry. */
  lemma LineAgreement(line: string)
    requires Agreeable(line)
    ensures Frontmatter.LineEntry(line) == Lift(LineEntry(line))
  {
    if ':' in line {
      var sep := IndexOf(line, ':');
      var rest := line[sep + 1..];
      UnquotedValue(rest);
      ColonEntry(line);
      Frontmatter.ScalarEntry(line);
    } else {
      RestAfterFirstColon(line);
    }
  }

  /** The entry of a line with a colon that does not start it. */
  lemma ColonEntry(line: string)
    requires ':' in line && line[0] != ':'
    ensures LineEntry(line) ==
      Some((Trim(line[..IndexOf(line, ':')]), StripLooseQuotes(Trim(line[IndexOf(line, ':') + 1..]))))
  {
    RestAfterFirstColon(line);
  }

  /** Without quotes, both parsers keep the trimmed value as it is. */
  lemma UnquotedValue(rest: string)
    requires '"' !in rest && '\'' !in rest
    ensures Frontmatter.CleanScalar(rest) == Trim(rest)
    ensures StripLooseQuotes(Trim(rest)) == Trim(rest)
  {
    TrimKeepsChars(rest, '"');
    TrimKeepsChars(rest, '\'');
    var v := Trim(rest);
    assert |v| == 0 || (!IsQuote(v[0]) && !IsQuote(v[|v| - 1]));
  }

  lemma {:induction false} AssignLift(es: seq<Option<(string, string)>>, fs: seq<Option<(string, Frontmatter.Value)>>)
    requires |es| == |fs|
    requires forall i :: 0 <= i < |es| ==> fs[i] == Lift(es[i])
    ensures Assign(fs) == map k | k in Assign(es) :: Frontmatter.Scalar(Assign(es)[k])
    decreases |es|
  {
    if |es| > 0 {
      var n := |es| - 1;
      AssignLift(es[..n], fs[..n]);
    }
  }

  /** A document whose header lines are all agreeable parses to the same
      content under both parsers, and to the same metadata once the legacy
      strings are read as scalar values. */
  lemma DocumentAgreement(markdown: string)
    requires forall i :: 0 <= i < |Frontmatter.HeaderLines(markdown)| ==>
      Agreeable(Frontmatter.HeaderLines(markdown)[i])
    ensures ParseFrontmatter(markdown).content == Frontmatter.ParseFrontmatter(markdown).content
    ensures Frontmatter.ParseFrontmatter(markdown).metadata ==
      map k | k in ParseFrontmatter(markdown).metadata :: Frontmatter.Scalar(ParseFrontmatter(markdown).metadata[k])
  {
    match Frontmatter.MatchHeader(markdown)
    case None =>
    case Some(m) =>
      var lines := Frontmatter.HeaderLines(markdown);
      forall i | 0 <= i < |lines|
        ensures EntriesOf(lines, Frontmatter.LineEntry)[i] == Lift(EntriesOf(lines, LineEntry)[i])
      {
        LineAgreement(lines[i]);
      }
      AssignLift(EntriesOf(lines, LineEntry), EntriesOf(lines, Frontmatter.LineEntry));
  }
}
