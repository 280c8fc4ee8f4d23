/** The frontmatter parser of the static generator
    (generate-static-posts.mjs, `parseFrontmatter` and
    `parseFrontmatterValue`).

    A document carries a header when it starts with `---`, then a whitespace
    run ending in a newline, then the header lines, then a newline, `---`, a
    whitespace run ending in a newline, and the body. The header regex is
    written out here as the search the JavaScript engine performs: the
    opening whitespace run is tried longest first (backing off to earlier
    newlines inside it), the header text is the shortest that allows a
    closing line, and the closing whitespace run is taken longest. */
module Frontmatter {
  import opened Text
  import opened Scan

  /** A metadata value: list-valued keys hold lists, every other key a
      string. */
  datatype Value = Scalar(text: string) | List(items: seq<string>)

  type Metadata = map<string, Value>

  datatype Parsed = Parsed(metadata: Metadata, content: string)

  /** Where the header pattern matched: the header lines are
      `s[open..close]` and the body is `s[bodyStart..]`. */
  datatype HeaderMatch = HeaderMatch(open: nat, close: nat, bodyStart: nat)

  datatype Closing = Closing(at: nat, bodyStart: nat)

  /** The last newline in `s[lo..hi]`. */
  function LastNewline(s: string, lo: nat, hi: nat): (r: Option<nat>)
    requires lo <= hi <= |s|
    ensures r.Some? ==> lo <= r.value < hi && s[r.value] == '\n'
    ensures r.Some? ==> forall k :: r.value < k < hi ==> s[k] != '\n'
    ensures r.None? ==> forall k :: lo <= k < hi ==> s[k] != '\n'
    decreases hi - lo
  {
    if hi == lo then None
    else if s[hi - 1] == '\n' then Some(hi - 1)
    else LastNewline(s, lo, hi - 1)
  }

  /** The closing line can start at `j` (`\n---`, then a whitespace run
      holding a newline); the body starts after the last newline of that
      run. */
  function ClosingAt(s: string, j: nat): (r: Option<nat>)
    requires j <= |s|
    ensures r.Some? ==> OccursAt(s, j, "\n---") && j + 4 < r.value <= |s| && s[r.value - 1] == '\n'
    ensures r.Some? ==> forall k :: j + 4 <= k < r.value ==> IsSpace(s[k])
    ensures r.Some? ==> forall k :: r.value <= k < RunEnd(s, j + 4, IsSpace) ==> s[k] != '\n'
  {
    if j + 4 <= |s| && OccursAt(s, j, "\n---") then
      match LastNewline(s, j + 4, RunEnd(s, j + 4, IsSpace))
      case Some(n) => Some(n + 1)
      case None => None
    else None
  }

  /** The first index at or after `j` where the closing line can start. */
  function FirstClosing(s: string, j: nat): (r: Option<Closing>)
    requires j <= |s|
    ensures r.Some? ==> j <= r.value.at <= |s| && ClosingAt(s, r.value.at) == Some(r.value.bodyStart)
    ensures r.Some? ==> forall k :: j <= k < r.value.at ==> ClosingAt(s, k).None?
    ensures r.None? ==> forall k :: j <= k <= |s| ==> ClosingAt(s, k).None?
    decreases |s| - j
  {
    match ClosingAt(s, j)
    case Some(b) => Some(Closing(j, b))
    case None => if j == |s| then None else FirstClosing(s, j + 1)
  }

  /** Tries the newlines of the opening whitespace run below `hi`, latest
      first, as the end of the opening line. */
  function TryOpen(s: string, hi: nat): (r: Option<HeaderMatch>)
    requires 3 <= hi <= |s|
    ensures r.Some? ==> 4 <= r.value.open <= hi && s[r.value.open - 1] == '\n'
    ensures r.Some? ==> r.value.open <= r.value.close <= |s| && ClosingAt(s, r.value.close) == Some(r.value.bodyStart)
    ensures r.Some? ==> forall k :: r.value.open <= k < r.value.close ==> ClosingAt(s, k).None?
    decreases hi
  {
    match LastNewline(s, 3, hi)
    case None => None
    case Some(q) =>
      match FirstClosing(s, q + 1)
      case Some(c) => Some(HeaderMatch(q + 1, c.at, c.bodyStart))
      case None => TryOpen(s, q)
  }

  /** The shape the header pattern demands of a match: `---` and a
      whitespace run up to the newline ending the opening line, header
      lines holding no earlier closing line, then `\n---` and a whitespace
      run ending in the newline before the body. */
  predicate HeaderShape(s: string, m: HeaderMatch) {
    && StartsWith(s, "---") && 4 <= m.open <= m.close && m.close + 4 < m.bodyStart <= |s|
    && s[m.open - 1] == '\n' && (forall k :: 3 <= k < m.open ==> IsSpace(s[k]))
    && OccursAt(s, m.close, "\n---") && s[m.bodyStart - 1] == '\n'
    && (forall k :: m.close + 4 <= k < m.bodyStart ==> IsSpace(s[k]))
    && (forall k :: m.open <= k < m.close ==> ClosingAt(s, k).None?)
  }

  /** The header pattern, anchored at the start of the text. */
  function MatchHeader(s: string): (r: Option<HeaderMatch>)
    ensures !StartsWith(s, "---") ==> r.None?
    ensures r.Some? ==> HeaderShape(s, r.value)
    ensures (exists m :: HeaderShape(s, m)) ==> r.Some?
    ensures r.Some? ==> forall m :: HeaderShape(s, m) ==> m.open <= r.value.open
    ensures r.Some? ==> forall k :: r.value.bodyStart <= k < RunEnd(s, r.value.close + 4, IsSpace) ==> s[k] != '\n'
  {
    if StartsWith(s, "---") then
      var hi := RunEnd(s, 3, IsSpace);
      var r := TryOpen(s, hi);
      HeaderLatest(s);
      if r.Some? then
        MatchFacts(s, hi, r.value);
        r
      else r
    else None
  }

  /** Every text with the header shape has a match, and the opening line the
      search settles on ends no earlier than that of any such shape: the
      opening whitespace run is taken longest first. */
  lemma HeaderLatest(s: string)
    requires StartsWith(s, "---")
    ensures forall m :: HeaderShape(s, m) ==>
      TryOpen(s, RunEnd(s, 3, IsSpace)).Some? && m.open <= TryOpen(s, RunEnd(s, 3, IsSpace)).value.open
  {
    var hi := RunEnd(s, 3, IsSpace);
    forall m | HeaderShape(s, m)
      ensures TryOpen(s, hi).Some? && m.open <= TryOpen(s, hi).value.open
    {
      SpaceRunCovers(s, 3, m.open);
      ClosingOfShape(s, m);
      TryOpenLatest(s, hi, m.open - 1);
    }
  }

  /** A whitespace run from `i` reaches at least as far as any stretch of
      whitespace starting at `i`. */
  lemma SpaceRunCovers(s: string, i: nat, j: nat)
    requires i <= j <= |s| && forall k :: i <= k < j ==> IsSpace(s[k])
    ensures j <= RunEnd(s, i, IsSpace)
  {
  }

  /** The closing line of a header shape is one the search recognises. */
  lemma ClosingOfShape(s: string, m: HeaderMatch)
    requires HeaderShape(s, m)
    ensures ClosingAt(s, m.close).Some?
  {
    SpaceRunCovers(s, m.close + 4, m.bodyStart - 1);
    var e := RunEnd(s, m.close + 4, IsSpace);
    assert m.bodyStart - 1 < e by {
      SpaceRunCovers(s, m.close + 4, m.bodyStart);
    }
  }

  /** When the newline at `q` inside the opening run has a closing line
      after it, the search accepts an opening line ending at `q` or later. */
  lemma {:induction false} TryOpenLatest(s: string, hi: nat, q: nat)
    requires 3 <= q < hi <= |s| && s[q] == '\n'
    requires exists k :: q + 1 <= k <= |s| && ClosingAt(s, k).Some?
    ensures TryOpen(s, hi).Some? && q + 1 <= TryOpen(s, hi).value.open
    decreases hi
  {
    var q' := LastNewline(s, 3, hi).value;
    if FirstClosing(s, q' + 1).None? {
      TryOpenLatest(s, q', q);
    }
  }

  /** An opening line accepted below the end of the opening whitespace run
      and a closing line found after it give a match of the right shape. */
  lemma MatchFacts(s: string, hi: nat, m: HeaderMatch)
    requires StartsWith(s, "---")
    requires 3 <= hi <= |s| && forall k :: 3 <= k < hi ==> IsSpace(s[k])
    requires 4 <= m.open <= hi && s[m.open - 1] == '\n'
    requires m.open <= m.close <= |s| && ClosingAt(s, m.close) == Some(m.bodyStart)
    requires forall k :: m.open <= k < m.close ==> ClosingAt(s, k).None?
    ensures HeaderShape(s, m)
  {
  }

  // ---------------------------------------------------------------------
  // Values
  // ---------------------------------------------------------------------

  /** The keys whose values are lists. */
  predicate IsListKey(key: string) {
    key == "tags" || key == "related"
  }

  /** `s` starts and ends with `q`, two different characters of it. */
  predicate Quoted(s: string, q: char) {
    |s| >= 2 && s[0] == q && s[|s| - 1] == q
  }

  /** Drops one pair of surrounding `q` characters. */
  function Unquote(s: string, q: char): string {
    if Quoted(s, q) then s[1..|s| - 1] else s
  }

  /** Trims, then drops a pair of double quotes, then a pair of single
      quotes. The result is the middle of the trimmed text, with `d` quote
      characters cut from each end: none when it is not quoted, two when
      double quotes hold a single-quoted text. */
  function CleanScalar(raw: string): (r: string)
    ensures var t := Trim(raw); var d := (|t| - |r|) / 2;
      |r| <= |t| && |t| - |r| == 2 * d && r == t[d..d + |r|]
    ensures var t := Trim(raw); var d := (|t| - |r|) / 2;
      (d > 0 <==> Quoted(t, '"') || Quoted(t, '\''))
      && (d == 2 <==> Quoted(t, '"') && Quoted(t[1..|t| - 1], '\''))
  {
    UnquoteBoth(Trim(raw));
    Unquote(Unquote(Trim(raw), '"'), '\'')
  }

  /** Dropping double, then single quotes cuts `d` characters from each
      end, as `CleanScalar` states. */
  lemma UnquoteBoth(t: string)
    ensures var r := Unquote(Unquote(t, '"'), '\''); var d := (|t| - |r|) / 2;
      |r| <= |t| && |t| - |r| == 2 * d && r == t[d..d + |r|]
      && (d > 0 <==> Quoted(t, '"') || Quoted(t, '\''))
      && (d == 2 <==> Quoted(t, '"') && Quoted(t[1..|t| - 1], '\''))
  {
    var u := Unquote(t, '"');
    var r := Unquote(u, '\'');
    if Quoted(t, '"') {
      assert u == t[1..|t| - 1];
      if Quoted(u, '\'') {
        forall k | 0 <= k < |t| - 4 ensures r[k] == t[2..|t| - 2][k] {
          assert r[k] == u[k + 1] == t[k + 2];
        }
        assert r == t[2..|t| - 2];
      } else {
        assert r == t[1..|t| - 1];
      }
    } else {
      assert u == t;
      if Quoted(t, '\'') {
        assert r == t[1..|t| - 1];
      } else {
        assert r == t[0..|t|];
      }
    }
  }

  /** The cleaned comma-separated items, empty ones dropped. */
  function CleanItems(parts: seq<string>): (items: seq<string>)
    ensures forall i :: 0 <= i < |items| ==> |items[i]| > 0
    ensures |items| <= |parts|
    decreases |parts|
  {
    if |parts| == 0 then []
    else
      var item := CleanScalar(parts[0]);
      var rest := CleanItems(parts[1..]);
      if |item| == 0 then rest else [item] + rest
  }

  /** `parseFrontmatterValue`. */
  function ParseValue(key: string, raw: string): (v: Value)
    ensures v.List? <==> IsListKey(key)
    ensures v.Scalar? ==> v.text == CleanScalar(raw)
    ensures v.List? ==> forall i :: 0 <= i < |v.items| ==> |v.items[i]| > 0
  {
    var stripped := CleanScalar(raw);
    if IsListKey(key) then
      List(CleanItems(Split(ListBody(stripped), ',')))
    else
      Scalar(stripped)
  }

  /** A list value without its surrounding brackets, when it has both. */
  function ListBody(stripped: string): string {
    if |stripped| >= 2 && stripped[0] == '[' && stripped[|stripped| - 1] == ']'
    then stripped[1..|stripped| - 1]
    else stripped
  }

  // ---------------------------------------------------------------------
  // Lines
  // ---------------------------------------------------------------------

  /** The entry one header line contributes: the line is cut at its first
      colon, the key is the trimmed text before it, and lines without a
      colon or with a blank key contribute nothing. */
  function LineEntry(line: string): (e: Option<(string, Value)>)
    ensures ':' !in line ==> e.None?
    ensures e.Some? ==> |e.value.0| > 0 && IsTrimmed(e.value.0)
  {
    if ':' in line then
      var sep := IndexOf(line, ':');
      var key := Trim(line[..sep]);
      if |key| == 0 then None else Some((key, ParseValue(key, line[sep + 1..])))
    else
      None
  }

  /** The entry of a line whose key is not a list key holds the cleaned
      scalar after the first colon. */
  lemma ScalarEntry(line: string)
    requires ':' in line
    requires |Trim(line[..IndexOf(line, ':')])| > 0 && !IsListKey(Trim(line[..IndexOf(line, ':')]))
    ensures LineEntry(line) ==
      Some((Trim(line[..IndexOf(line, ':')]), Scalar(CleanScalar(line[IndexOf(line, ':') + 1..]))))
  {
  }

  predicate HasKey(line: string, key: string) {
    LineEntry(line).Some? && LineEntry(line).value.0 == key
  }

  /** The metadata of the header lines, read in order. */
  function ParseLines(lines: seq<string>): Metadata {
    Assign(EntriesOf(lines, LineEntry))
  }

  /** The keys of the metadata are exactly the keys of the lines that hold
      an entry. */
  lemma ParseLinesKeys(lines: seq<string>, k: string)
    ensures k in ParseLines(lines) <==> exists i :: 0 <= i < |lines| && HasKey(lines[i], k)
  {
    var es := EntriesOf(lines, LineEntry);
    AssignKeys(es, k);
    assert forall i :: 0 <= i < |lines| ==> (EntryFor(es[i], k) <==> HasKey(lines[i], k));
  }

  /** A repeated key keeps the value of its last line. */
  lemma LastLineWins(lines: seq<string>, i: nat)
    requires i < |lines| && LineEntry(lines[i]).Some?
    requires forall j :: i < j < |lines| ==> !HasKey(lines[j], LineEntry(lines[i]).value.0)
    ensures LineEntry(lines[i]).value.0 in ParseLines(lines)
    ensures ParseLines(lines)[LineEntry(lines[i]).value.0] == LineEntry(lines[i]).value.1
  {
    var es := EntriesOf(lines, LineEntry);
    assert forall j :: i < j < |lines| ==> !EntryFor(es[j], es[i].value.0);
    AssignLastWins(es, i);
  }

  /** The header lines of a document, none when it has no header. */
  function HeaderLines(markdown: string): seq<string> {
    match MatchHeader(markdown)
    case None => []
    case Some(m) => Split(markdown[m.open..m.close], '\n')
  }

  /** `parseFrontmatter`. */
  function ParseFrontmatter(markdown: string): (r: Parsed)
    ensures MatchHeader(markdown).None? ==> r == Parsed(map[], markdown)
    ensures !StartsWith(markdown, "---") ==> r == Parsed(map[], markdown)
    ensures MatchHeader(markdown).Some? ==> |r.content| < |markdown|
    ensures MatchHeader(markdown).Some? ==>
      r.content == markdown[MatchHeader(markdown).value.bodyStart..] &&
      r.metadata == ParseLines(Split(markdown[MatchHeader(markdown).value.open..MatchHeader(markdown).value.close], '\n'))
  {
    match MatchHeader(markdown)
    case None => Parsed(map[], markdown)
    case Some(m) =>
      Parsed(ParseLines(HeaderLines(markdown)), markdown[m.bodyStart..])
  }

  // ---------------------------------------------------------------------
  // Properties
  // ---------------------------------------------------------------------

  /** The usual document shape `---\n<header>\n---\n<body>` is recognised
      when the header does not start with whitespace and holds no line
      starting with `---`, and the body does not start with whitespace. */
  lemma CanonicalDocument(header: string, body: string)
    requires |header| > 0 && !IsSpace(header[0])
    requires forall k :: !OccursAt(header, k, "\n---")
    requires |body| == 0 || !IsSpace(body[0])
    ensures MatchHeader("---\n" + header + "\n---\n" + body) == Some(HeaderMatch(4, 4 + |header|, 9 + |header|))
    ensures ParseFrontmatter("---\n" + header + "\n---\n" + body) ==
      Parsed(ParseLines(Split(header, '\n')), body)
  {
    var s := "---\n" + header + "\n---\n" + body;
    Pieces("---\n", header, "\n---\n", body);
    CanonicalShape(s, header, body);
  }

  lemma Pieces(a: string, b: string, c: string, d: string)
    ensures var s := a + b + c + d;
      s[..|a|] == a && s[|a|..|a| + |b|] == b &&
      s[|a| + |b|..|a| + |b| + |c|] == c && s[|a| + |b| + |c|..] == d
  {
  }

  lemma CanonicalShape(s: string, header: string, body: string)
    requires |header| > 0 && !IsSpace(header[0])
    requires forall k :: !OccursAt(header, k, "\n---")
    requires |body| == 0 || !IsSpace(body[0])
    requires |s| == 9 + |header| + |body|
    requires s[..4] == "---\n" && s[4..4 + |header|] == header
    requires s[4 + |header|..9 + |header|] == "\n---\n" && s[9 + |header|..] == body
    ensures MatchHeader(s) == Some(HeaderMatch(4, 4 + |header|, 9 + |header|))
  {
    var j0 := 4 + |header|;
    assert s[4] == header[0] by {
      SliceOfSlice(s, 4, j0, 0, 1);
    }
    OpeningLine(s);
    if |body| > 0 {
      assert s[j0 + 5] == body[0];
    }
    ClosingLine(s, j0);
    forall k | 4 <= k < j0
      ensures ClosingAt(s, k).None?
    {
      NoEarlyClosing(s, header, k);
    }
    FirstClosingAt(s, 4, j0, j0 + 5);
    MatchOfOneLineOpening(s, j0, j0 + 5);
  }

  /** With an opening line of exactly `---` and a newline, the match is the
      first closing line after it. */
  lemma MatchOfOneLineOpening(s: string, at: nat, b: nat)
    requires StartsWith(s, "---") && |s| >= 4 && RunEnd(s, 3, IsSpace) == 4 && LastNewline(s, 3, 4) == Some(3)
    requires FirstClosing(s, 4) == Some(Closing(at, b))
    ensures MatchHeader(s) == Some(HeaderMatch(4, at, b))
  {
    assert TryOpen(s, 4) == Some(HeaderMatch(4, at, b));
  }

  lemma SliceOfSlice<T>(s: seq<T>, a: nat, b: nat, i: nat, j: nat)
    requires a <= b <= |s| && i <= j <= b - a
    ensures s[a..b][i..j] == s[a + i..a + j]
  {
    var l := s[a..b];
    assert forall k :: 0 <= k < j - i ==> l[i..j][k] == s[a + i..a + j][k];
  }

  /** `---` and a newline, then no whitespace: the opening line ends at the
      first newline. */
  lemma OpeningLine(s: string)
    requires |s| > 4 && s[..4] == "---\n" && !IsSpace(s[4])
    ensures StartsWith(s, "---") && RunEnd(s, 3, IsSpace) == 4 && LastNewline(s, 3, 4) == Some(3)
  {
    assert s[3] == s[..4][3];
    assert s[..3] == s[..4][..3];
  }

  /** `\n---\n` followed by the end or by no whitespace is a closing line
      whose body starts right after it. */
  lemma ClosingLine(s: string, j: nat)
    requires j + 5 <= |s| && s[j..j + 5] == "\n---\n" && (j + 5 == |s| || !IsSpace(s[j + 5]))
    ensures ClosingAt(s, j) == Some(j + 5)
  {
    assert s[j + 4] == s[j..j + 5][4];
    assert RunEnd(s, j + 4, IsSpace) == j + 5;
    assert LastNewline(s, j + 4, j + 5) == Some(j + 4);
    assert OccursAt(s, j, "\n---") by {
      assert s[j..j + 4] == s[j..j + 5][..4];
    }
  }

  /** The search for a closing line stops at the first place one starts. */
  lemma {:induction false} FirstClosingAt(s: string, j: nat, at: nat, b: nat)
    requires j <= at <= |s| && ClosingAt(s, at) == Some(b)
    requires forall k :: j <= k < at ==> ClosingAt(s, k).None?
    ensures FirstClosing(s, j) == Some(Closing(at, b))
    decreases at - j
  {
    if j < at {
      FirstClosingAt(s, j + 1, at, b);
    }
  }

  lemma NoEarlyClosing(s: string, header: string, k: nat)
    requires |s| >= 9 + |header| && s[4..4 + |header|] == header && s[4 + |header|] == '\n'
    requires forall k :: !OccursAt(header, k, "\n---")
    requires 4 <= k < 4 + |header|
    ensures !OccursAt(s, k, "\n---")
  {
    var j0 := 4 + |header|;
    if k + 4 <= j0 {
      SliceOfSlice(s, 4, j0, k - 4, k);
      assert !OccursAt(header, k - 4, "\n---");
    } else {
      assert s[k..k + 4][j0 - k] == '\n';
    }
  }

  /** Each header line is cut at its first colon: the key is trimmed, and the
      value is everything after that colon, later colons included. */
  lemma SplitAtFirstColon(k: string, v: string)
    requires ':' !in k
    ensures |Trim(k)| > 0 ==> LineEntry(k + ":" + v) == Some((Trim(k), ParseValue(Trim(k), v)))
    ensures |Trim(k)| == 0 ==> LineEntry(k + ":" + v) == None
  {
    var line := k + ":" + v;
    assert line[|k|] == ':';
    assert forall i :: 0 <= i < |k| ==> line[i] == k[i];
    var sep := IndexOf(line, ':');
    assert sep == |k|;
    assert line[..sep] == k;
    assert line[sep + 1..] == v;
  }

  lemma TrimPadded(x: string)
    requires |x| > 0 && IsTrimmed(x)
    ensures Trim(" " + x) == x
  {
    assert (" " + x)[1..] == x;
    assert TrimStart(" " + x) == x;
    TrimTrimmed(x);
  }

  /** A value written with brackets keeps them through the scalar cleaning,
      so the list body is the text between them. */
  lemma BracketedValue(key: string, inner: string)
    requires IsListKey(key)
    ensures ParseValue(key, "[" + inner + "]") == List(CleanItems(Split(inner, ',')))
  {
    var raw := "[" + inner + "]";
    assert raw[0] == '[' && raw[|raw| - 1] == ']';
    assert IsTrimmed(raw);
    TrimTrimmed(raw);
    assert CleanScalar(raw) == raw;
    assert raw[1..|raw| - 1] == inner;
  }

  /** A list item written plainly: non-empty, no comma, no surrounding
      whitespace and no leading quote. */
  predicate PlainItem(x: string) {
    |x| > 0 && ',' !in x && IsTrimmed(x) && x[0] != '"' && x[0] != '\''
  }

  /** The items after the first of `Join(items, ", ")`, each with the space
      that follows its comma. */
  function Padded(items: seq<string>): (r: seq<string>)
    ensures |r| == |items|
    ensures forall i :: 0 <= i < |items| ==> r[i] == " " + items[i]
    decreases |items|
  {
    if |items| == 0 then [] else [" " + items[0]] + Padded(items[1..])
  }

  lemma {:induction false} PaddedJoin(head: string, items: seq<string>)
    requires |items| >= 1
    ensures head + ", " + Join(items, ", ") == Join([head] + Padded(items), ",")
    decreases |items|
  {
    var rest := Padded(items[1..]);
    assert Padded(items) == [" " + items[0]] + rest;
    JoinCons(head, Padded(items), ",");
    if |items| == 1 {
      assert Join(items, ", ") == items[0];
      assert Join(Padded(items), ",") == " " + items[0];
    } else {
      PaddedJoin(items[0], items[1..]);
      JoinCons(items[0], items[1..], ", ");
      JoinCons(" " + items[0], rest, ",");
      JoinCons(items[0], rest, ",");
    }
  }

  lemma {:induction false} CleanPadded(items: seq<string>)
    requires forall i :: 0 <= i < |items| ==> PlainItem(items[i])
    ensures CleanItems(Padded(items)) == items
    decreases |items|
  {
    if |items| > 0 {
      TrimPadded(items[0]);
      CleanPadded(items[1..]);
      assert Padded(items)[1..] == Padded(items[1..]);
    }
  }

  /** Writing plain items as `[a, b, c]` and parsing them under a list key
      gives them back, in order. */
  lemma ListRoundTrip(key: string, items: seq<string>)
    requires IsListKey(key)
    requires forall i :: 0 <= i < |items| ==> PlainItem(items[i])
    ensures ParseValue(key, "[" + Join(items, ", ") + "]") == List(items)
  {
    var inner := Join(items, ", ");
    BracketedValue(key, inner);
    assert ParseValue(key, "[" + inner + "]") == List(CleanItems(Split(inner, ',')));
    CleanJoined(items);
  }

  lemma CleanJoined(items: seq<string>)
    requires forall i :: 0 <= i < |items| ==> PlainItem(items[i])
    ensures CleanItems(Split(Join(items, ", "), ',')) == items
  {
    if |items| == 0 {
      assert Join(items, ", ") == "";
      assert Split("", ',') == [""];
      assert CleanScalar("") == "";
    } else {
      SplitPadded(items);
      CleanFirstPlain(items[0], Padded(items[1..]));
      CleanPadded(items[1..]);
      assert items == [items[0]] + items[1..];
    }
  }

  lemma CleanFirstPlain(x: string, rest: seq<string>)
    requires PlainItem(x)
    ensures CleanItems([x] + rest) == [x] + CleanItems(rest)
  {
    TrimTrimmed(x);
    assert CleanScalar(x) == x;
    assert ([x] + rest)[1..] == rest;
  }

  lemma SplitPadded(items: seq<string>)
    requires |items| > 0
    requires forall i :: 0 <= i < |items| ==> PlainItem(items[i])
    ensures Split(Join(items, ", "), ',') == [items[0]] + Padded(items[1..])
  {
    var parts := [items[0]] + Padded(items[1..]);
    assert |parts| == |items|;
    PaddedParts(items);
    PaddedCommaFree(items);
    SplitJoin(parts, ',');
  }

  /** Joining with `", "` is joining the padded items with `","`. */
  lemma PaddedParts(items: seq<string>)
    requires |items| > 0
    ensures Join(items, ", ") == Join([items[0]] + Padded(items[1..]), ",")
  {
    if |items| == 1 {
      assert Join(items, ", ") == Join([items[0]] + Padded(items[1..]), ",");
    } else {
      assert items == [items[0]] + items[1..];
      JoinCons(items[0], items[1..], ", ");
      PaddedJoin(items[0], items[1..]);
    }
  }

  lemma PaddedCommaFree(items: seq<string>)
    requires |items| > 0
    requires forall i :: 0 <= i < |items| ==> PlainItem(items[i])
    ensures forall i :: 0 <= i < |items| ==> ',' !in ([items[0]] + Padded(items[1..]))[i]
  {
    var parts := [items[0]] + Padded(items[1..]);
    forall i | 0 <= i < |items|
      ensures ',' !in parts[i]
    {
      if i > 0 {
        assert parts[i] == " " + items[i];
      }
    }
  }

  /** The list example from the generator's documentation: brackets dropped,
      items trimmed and de-quoted, order kept. */
  lemma TagListExample()
    ensures ParseValue("tags", " [a, \"b c\", 'd']") == List(["a", "b c", "d"])
  {
    var inner := "a, \"b c\", 'd'";
    var t := "[" + inner + "]";
    assert " [a, \"b c\", 'd']" == " " + t + "";
    PaddedValue("tags", " ", t, "");
    BracketedValue("tags", inner);
    ExampleItems();
  }

  /** Whitespace around a value, of any kind and length, does not change
      what it parses to. */
  lemma PaddedValue(key: string, a: string, x: string, b: string)
    requires AllSpace(a) && AllSpace(b) && |x| > 0 && IsTrimmed(x)
    ensures ParseValue(key, a + x + b) == ParseValue(key, x)
  {
    TrimSurrounded(a, x, b);
    TrimTrimmed(x);
  }

  /** A value in double or single quotes, after a space, loses the space and
      the quotes. */
  lemma CleanQuoted(x: string, q: char)
    requires q == '"' || q == '\''
    requires |x| == 0 || x[0] != '\''
    ensures CleanScalar(" " + [q] + x + [q]) == x
  {
    var quoted := [q] + x + [q];
    assert " " + [q] + x + [q] == " " + quoted;
    TrimPadded(quoted);
    assert quoted[1..|quoted| - 1] == x;
  }

  lemma ExampleItems()
    ensures CleanItems(Split("a, \"b c\", 'd'", ',')) == ["a", "b c", "d"]
  {
    ExampleSplit();
    ExampleClean();
  }

  lemma ExampleSplit()
    ensures Split("a, \"b c\", 'd'", ',') == ["a", " \"b c\"", " 'd'"]
  {
    var parts := ["a", " \"b c\"", " 'd'"];
    JoinCons("a", parts[1..], ",");
    JoinCons(" \"b c\"", [" 'd'"], ",");
    assert Join(parts, ",") == "a, \"b c\", 'd'";
    SplitJoin(parts, ',');
  }

  lemma ExampleClean()
    ensures CleanItems(["a", " \"b c\"", " 'd'"]) == ["a", "b c", "d"]
  {
    ExamplePlain();
    ExampleQuoted();
    CleanCons(" 'd'", []);
    CleanCons(" \"b c\"", [" 'd'"]);
    CleanCons("a", [" \"b c\"", " 'd'"]);
  }

  lemma ExamplePlain()
    ensures CleanScalar("a") == "a"
  {
    TrimTrimmed("a");
  }

  lemma ExampleQuoted()
    ensures CleanScalar(" \"b c\"") == "b c" && CleanScalar(" 'd'") == "d"
  {
    CleanQuoted("b c", '"');
    assert " \"b c\"" == " " + ['"'] + "b c" + ['"'];
    CleanQuoted("d", '\'');
    assert " 'd'" == " " + ['\''] + "d" + ['\''];
  }

  /** Double quotes are dropped before single quotes: single quotes inside
      double quotes go, double quotes inside single quotes stay. */
  lemma QuoteOrder()
    ensures CleanScalar("\"'x'\"") == "x"
    ensures CleanScalar("'\"x\"'") == "\"x\""
  {
    TrimTrimmed("\"'x'\"");
    TrimTrimmed("'\"x\"'");
  }

  lemma CleanCons(x: string, rest: seq<string>)
    requires |CleanScalar(x)| > 0
    ensures CleanItems([x] + rest) == [CleanScalar(x)] + CleanItems(rest)
  {
    assert ([x] + rest)[1..] == rest;
  }
}
