/** Footnote definitions (generate-static-posts.mjs, `extractFootnotes`).
    A line `[^key]: text` defines a note; the blank lines and indented lines
    right after it continue the note. Definitions and their continuations
    leave the document; every other line stays, in order. */
module Footnotes {
  import opened Text

  /** What a definition line holds: its trimmed key and the text after the
      colon and the whitespace that follows it. */
  datatype Definition = Definition(key: string, text: string)

  /** The document without its definitions, and the note of each key. */
  datatype Footnotes = Footnotes(content: string, notes: map<string, string>)

  /** The lines and the notes `extractFootnotes` collects, the notes in the
      order their definitions occur. */
  datatype Extraction = Extraction(kept: seq<string>, defined: seq<(string, string)>)

  /** `.` in a regular expression matches neither of these. */
  predicate NoLineBreak(s: string) {
    forall i :: 0 <= i < |s| ==> s[i] != '\n' && s[i] != '\r'
  }

  /** Matches a line against `^\[\^([^\]]+)\]:\s*(.*)$`: `[^`, a key of one
      or more characters up to the first `]`, then `:`, optional whitespace
      and a text with no line break up to the end. */
  function DefinitionLine(line: string): (d: Option<Definition>)
  {
    if |line| >= 2 && line[0] == '[' && line[1] == '^' && ']' in line[2..] then
      var k := 2 + IndexOf(line[2..], ']');
      if k > 2 && k + 1 < |line| && line[k + 1] == ':' then
        var rest := line[k + 2..];
        var w := SkipSpace(rest, 0);
        var text := rest[w..];
        if NoLineBreak(text) then Some(Definition(Trim(line[2..k]), text)) else None
      else
        None
    else
      None
  }

  /** The index just past the run of spaces that starts at `i`. */
  function SkipBlanks(s: string, i: nat): (k: nat)
    requires i <= |s|
    ensures i <= k <= |s|
    ensures forall j :: i <= j < k ==> s[j] == ' '
    ensures k == |s| || s[k] != ' '
    decreases |s| - i
  {
    if i < |s| && s[i] == ' ' then SkipBlanks(s, i + 1) else i
  }

  /** How a line after a definition continues its note: a blank line adds
      an empty line, a line indented by two or more spaces adds itself
      without its leading spaces, a line indented by a tab adds itself
      without that tab, and any other line ends the note. */
  function Continuation(line: string): (t: Option<string>)
    ensures AllSpace(line) ==> t == Some("")
    ensures t.Some? && !AllSpace(line) ==> EndsWith(line, t.value) && |t.value| < |line|
    ensures !AllSpace(line) && |line| >= 2 && line[0] == ' ' && line[1] == ' ' ==>
      t == Some(line[SkipBlanks(line, 0)..])
    ensures !AllSpace(line) && |line| >= 1 && line[0] == '\t' ==> t == Some(line[1..])
    ensures t.None? <==> !AllSpace(line) && line[0] != '\t' && !(|line| >= 2 && line[0] == ' ' && line[1] == ' ')
  {
    if AllSpace(line) then Some("")
    else if |line| >= 2 && line[0] == ' ' && line[1] == ' ' then
      var k := SkipBlanks(line, 0);
      assert line[|line| - |line[k..]|..] == line[k..];
      Some(line[k..])
    else if |line| >= 1 && line[0] == '\t' then
      assert line[|line| - |line[1..]|..] == line[1..];
      Some(line[1..])
    else
      None
  }

  /** What each line would give as a definition. */
  function Definitions(lines: seq<string>): (ds: seq<Option<Definition>>)
    ensures |ds| == |lines|
    ensures forall k :: 0 <= k < |lines| ==> ds[k] == DefinitionLine(lines[k])
  {
    seq(|lines|, k requires 0 <= k < |lines| => DefinitionLine(lines[k]))
  }

  /** What each line would give as the continuation of a note. */
  function Continuations(lines: seq<string>): (cs: seq<Option<string>>)
    ensures |cs| == |lines|
    ensures forall k :: 0 <= k < |lines| ==> cs[k] == Continuation(lines[k])
  {
    seq(|lines|, k requires 0 <= k < |lines| => Continuation(lines[k]))
  }

  /** The continuation lines of a note, from the start of the lines up to
      the first line that does not continue it. */
  function NoteBody(cs: seq<Option<string>>): (body: seq<string>)
    ensures |body| <= |cs|
    ensures forall k :: 0 <= k < |body| ==> cs[k] == Some(body[k])
    ensures |body| < |cs| ==> cs[|body|].None?
  {
    if |cs| > 0 && cs[0].Some? then [cs[0].value] + NoteBody(cs[1..]) else []
  }

  /** The loop of `extractFootnotes`, over the lines together with what each
      gives as a definition (`ds`) and as a continuation (`cs`): a
      definition line takes its note body with it, and every other line is
      kept. */
  function Collect(lines: seq<string>, ds: seq<Option<Definition>>, cs: seq<Option<string>>): (e: Extraction)
    requires |ds| == |lines| && |cs| == |lines|
    ensures |e.kept| + |e.defined| <= |lines|
    decreases |lines|
  {
    if |lines| == 0 then Extraction([], [])
    else
      match ds[0]
      case None =>
        var e := Collect(lines[1..], ds[1..], cs[1..]);
        Extraction([lines[0]] + e.kept, e.defined)
      case Some(d) =>
        var n := 1 + |NoteBody(cs[1..])|;
        var e := Collect(lines[n..], ds[n..], cs[n..]);
        Extraction(e.kept, [(d.key, Trim(Join([d.text] + NoteBody(cs[1..]), "\n")))] + e.defined)
  }

  /** The kept lines are the lines in their order with some left out. */
  lemma {:induction false} KeptSubseq(lines: seq<string>, ds: seq<Option<Definition>>, cs: seq<Option<string>>)
    requires |ds| == |lines| && |cs| == |lines|
    ensures IsSubseq(Collect(lines, ds, cs).kept, lines)
    decreases |lines|
  {
    if |lines| > 0 {
      assert lines == [lines[0]] + lines[1..];
      match ds[0]
      case None =>
        KeptSubseq(lines[1..], ds[1..], cs[1..]);
        SubseqCons(lines[0], Collect(lines[1..], ds[1..], cs[1..]).kept, lines[1..]);
      case Some(d) =>
        var n := 1 + |NoteBody(cs[1..])|;
        var kept := Collect(lines[n..], ds[n..], cs[n..]).kept;
        KeptSubseq(lines[n..], ds[n..], cs[n..]);
        assert lines[n..] == lines[1..][n - 1..];
        SubseqSkip(kept, lines[1..], n - 1);
        SubseqWeaken(kept, lines[0], lines[1..]);
    }
  }

  /** Every kept line is a line without a definition, so whatever holds of
      all such lines holds of the kept ones. */
  lemma {:induction false} KeptSatisfy(lines: seq<string>, ds: seq<Option<Definition>>, cs: seq<Option<string>>,
                                       ok: string -> bool)
    requires |ds| == |lines| && |cs| == |lines|
    requires forall i :: 0 <= i < |lines| && ds[i].None? ==> ok(lines[i])
    ensures forall k :: 0 <= k < |Collect(lines, ds, cs).kept| ==> ok(Collect(lines, ds, cs).kept[k])
    decreases |lines|
  {
    if |lines| > 0 {
      assert forall i :: 0 <= i < |lines| - 1 ==> lines[1..][i] == lines[i + 1] && ds[1..][i] == ds[i + 1];
      match ds[0]
      case None =>
        KeptSatisfy(lines[1..], ds[1..], cs[1..], ok);
      case Some(d) =>
        var n := 1 + |NoteBody(cs[1..])|;
        assert forall i :: 0 <= i < |lines| - n ==> lines[n..][i] == lines[i + n] && ds[n..][i] == ds[i + n];
        KeptSatisfy(lines[n..], ds[n..], cs[n..], ok);
    }
  }

  /** Every collected key is the key of some definition, so whatever holds
      of all those keys holds of the collected ones. */
  lemma {:induction false} KeysSatisfy(lines: seq<string>, ds: seq<Option<Definition>>, cs: seq<Option<string>>,
                                       ok: string -> bool)
    requires |ds| == |lines| && |cs| == |lines|
    requires forall i :: 0 <= i < |ds| && ds[i].Some? ==> ok(ds[i].value.key)
    ensures forall k :: 0 <= k < |Collect(lines, ds, cs).defined| ==>
      ok(Collect(lines, ds, cs).defined[k].0) && IsTrimmed(Collect(lines, ds, cs).defined[k].1)
    decreases |lines|
  {
    if |lines| > 0 {
      assert forall i :: 0 <= i < |lines| - 1 ==> ds[1..][i] == ds[i + 1];
      match ds[0]
      case None =>
        KeysSatisfy(lines[1..], ds[1..], cs[1..], ok);
      case Some(d) =>
        var n := 1 + |NoteBody(cs[1..])|;
        assert forall i :: 0 <= i < |lines| - n ==> ds[n..][i] == ds[i + n];
        KeysSatisfy(lines[n..], ds[n..], cs[n..], ok);
    }
  }

  /** `extractFootnotes`' loop over the lines of a document. */
  function Extract(lines: seq<string>): (e: Extraction)
    ensures |e.kept| + |e.defined| <= |lines|
  {
    Collect(lines, Definitions(lines), Continuations(lines))
  }

  /** The kept lines of a document are its lines with some left out. */
  lemma ExtractKeepsOrder(lines: seq<string>)
    ensures IsSubseq(Extract(lines).kept, lines)
  {
    KeptSubseq(lines, Definitions(lines), Continuations(lines));
  }

  /** No kept line defines a note. */
  lemma KeptAreNotDefinitions(lines: seq<string>)
    ensures forall k :: 0 <= k < |Extract(lines).kept| ==> DefinitionLine(Extract(lines).kept[k]).None?
  {
    KeptSatisfy(lines, Definitions(lines), Continuations(lines), x => DefinitionLine(x).None?);
  }

  /** Every collected key and note is trimmed. */
  lemma DefinedAreTrimmed(lines: seq<string>)
    ensures forall k :: 0 <= k < |Extract(lines).defined| ==>
      IsTrimmed(Extract(lines).defined[k].0) && IsTrimmed(Extract(lines).defined[k].1)
  {
    var ds := Definitions(lines);
    forall i | 0 <= i < |ds| && ds[i].Some?
      ensures IsTrimmed(ds[i].value.key)
    {
      DefinitionKeyTrimmed(lines[i]);
    }
    KeysSatisfy(lines, ds, Continuations(lines), IsTrimmed);
  }

  lemma DefinitionKeyTrimmed(line: string)
    ensures DefinitionLine(line).Some? ==> IsTrimmed(DefinitionLine(line).value.key)
  {
  }

  function AsEntries(defined: seq<(string, string)>): (es: seq<Option<(string, string)>>)
    ensures |es| == |defined|
    ensures forall k :: 0 <= k < |defined| ==> es[k] == Some(defined[k])
  {
    seq(|defined|, k requires 0 <= k < |defined| => Some(defined[k]))
  }

  /** The note of each key, a later definition replacing an earlier one. */
  function Notes(defined: seq<(string, string)>): map<string, string> {
    Assign(AsEntries(defined))
  }

  /** `extractFootnotes`: the kept lines joined back with newlines, and the
      notes. */
  function ExtractFootnotes(markdown: string): (r: Footnotes)
    ensures |r.content| <= |markdown|
    ensures forall k :: k in r.notes ==> IsTrimmed(k) && IsTrimmed(r.notes[k])
  {
    var lines := Split(markdown, '\n');
    var e := Extract(lines);
    ExtractKeepsOrder(lines);
    KeptLength(e.kept, lines);
    JoinSplit(markdown, '\n');
    DefinedAreTrimmed(lines);
    NotesTrimmed(e.defined);
    var notes := Notes(e.defined);
    Footnotes(Join(e.kept, "\n"), notes)
  }

  // ---------------------------------------------------------------------
  // Properties
  // ---------------------------------------------------------------------

  /** The length of a join of a subsequence is at most that of the whole. */
  lemma {:induction false} KeptLength(a: seq<string>, b: seq<string>)
    requires IsSubseq(a, b)
    ensures |Join(a, "\n")| <= |Join(b, "\n")|
    decreases |b|
  {
    if |a| > 0 {
      if a[0] == b[0] {
        KeptLength(a[1..], b[1..]);
        if |a| > 1 {
          JoinCons(a[0], a[1..], "\n");
          assert a == [a[0]] + a[1..];
        }
        if |b| > 1 {
          JoinCons(b[0], b[1..], "\n");
          assert b == [b[0]] + b[1..];
        }
      } else {
        KeptLength(a, b[1..]);
        if |b| > 1 {
          JoinCons(b[0], b[1..], "\n");
          assert b == [b[0]] + b[1..];
        }
      }
    }
  }

  /** Some entry for the key is the last one, and it holds the stored
      value. */
  lemma {:induction false} LastDefinition(es: seq<Option<(string, string)>>, i: nat)
    requires i < |es| && es[i].Some?
    requires forall j :: 0 <= j < |es| ==> es[j].Some? ==> IsTrimmed(es[j].value.1)
    ensures es[i].value.0 in Assign(es) && IsTrimmed(Assign(es)[es[i].value.0])
    decreases |es| - i
  {
    var k := es[i].value.0;
    if exists j :: i < j < |es| && EntryFor(es[j], k) {
      var j :| i < j < |es| && EntryFor(es[j], k);
      LastDefinition(es, j);
    } else {
      AssignLastWins(es, i);
    }
  }

  lemma NotesTrimmed(defined: seq<(string, string)>)
    requires forall k :: 0 <= k < |defined| ==> IsTrimmed(defined[k].0) && IsTrimmed(defined[k].1)
    ensures forall k :: k in Notes(defined) ==> IsTrimmed(k) && IsTrimmed(Notes(defined)[k])
  {
    var es := AsEntries(defined);
    forall k | k in Assign(es)
      ensures IsTrimmed(k) && IsTrimmed(Assign(es)[k])
    {
      AssignKeys(es, k);
      var i :| 0 <= i < |es| && EntryFor(es[i], k);
      LastDefinition(es, i);
    }
  }

  /** A key has a note exactly when some definition names it. */
  lemma NotesKeys(defined: seq<(string, string)>, key: string)
    ensures key in Notes(defined) <==> exists i :: 0 <= i < |defined| && defined[i].0 == key
  {
    var es := AsEntries(defined);
    AssignKeys(es, key);
    assert forall i :: 0 <= i < |defined| ==> (EntryFor(es[i], key) <==> defined[i].0 == key);
  }

  /** When a key is defined more than once, the last definition wins. */
  lemma NotesLastWins(defined: seq<(string, string)>, i: nat)
    requires i < |defined|
    requires forall j :: i < j < |defined| ==> defined[j].0 != defined[i].0
    ensures defined[i].0 in Notes(defined) && Notes(defined)[defined[i].0] == defined[i].1
  {
    AssignLastWins(AsEntries(defined), i);
  }

  /** Lines none of which defines a note are all kept. */
  lemma {:induction false} CollectPlain(lines: seq<string>, ds: seq<Option<Definition>>, cs: seq<Option<string>>)
    requires |ds| == |lines| && |cs| == |lines|
    requires forall k :: 0 <= k < |ds| ==> ds[k].None?
    ensures Collect(lines, ds, cs) == Extraction(lines, [])
    decreases |lines|
  {
    if |lines| > 0 {
      CollectPlain(lines[1..], ds[1..], cs[1..]);
      assert lines == [lines[0]] + lines[1..];
    }
  }

  lemma NoDefinitions(lines: seq<string>)
    requires forall k :: 0 <= k < |lines| ==> DefinitionLine(lines[k]).None?
    ensures Extract(lines) == Extraction(lines, [])
  {
    CollectPlain(lines, Definitions(lines), Continuations(lines));
  }

  /** A document without definition lines is its own content and has no
      notes. */
  lemma NoDefinitionsUnchanged(markdown: string)
    requires forall k :: 0 <= k < |Split(markdown, '\n')| ==> DefinitionLine(Split(markdown, '\n')[k]).None?
    ensures ExtractFootnotes(markdown) == Footnotes(markdown, map[])
  {
    NoDefinitions(Split(markdown, '\n'));
    JoinSplit(markdown, '\n');
  }

  /** The kept lines are the lines of the content. */
  lemma ContentLines(markdown: string)
    ensures var e := Extract(Split(markdown, '\n'));
      |e.kept| > 0 ==> Split(ExtractFootnotes(markdown).content, '\n') == e.kept
  {
    var lines := Split(markdown, '\n');
    var e := Extract(lines);
    if |e.kept| > 0 {
      KeptSatisfy(lines, Definitions(lines), Continuations(lines), x => '\n' !in x);
      SplitJoin(e.kept, '\n');
    }
  }

  /** Extracting from extracted content finds nothing more. */
  lemma ExtractIdempotent(markdown: string)
    ensures var c := ExtractFootnotes(markdown).content;
      ExtractFootnotes(c) == Footnotes(c, map[])
  {
    var e := Extract(Split(markdown, '\n'));
    var c := ExtractFootnotes(markdown).content;
    ContentLines(markdown);
    KeptAreNotDefinitions(Split(markdown, '\n'));
    if |e.kept| == 0 {
      assert c == "";
      assert Split(c, '\n') == [""];
    }
    NoDefinitionsUnchanged(c);
  }

  /** Lines without definitions in front of the others are kept, and do
      not change what the later lines give. */
  lemma {:induction false} CollectPrefix(front: seq<string>, dsF: seq<Option<Definition>>, csF: seq<Option<string>>,
                                         back: seq<string>, dsB: seq<Option<Definition>>, csB: seq<Option<string>>)
    requires |dsF| == |front| && |csF| == |front| && |dsB| == |back| && |csB| == |back|
    requires forall k :: 0 <= k < |dsF| ==> dsF[k].None?
    ensures Collect(front + back, dsF + dsB, csF + csB) ==
      Extraction(front + Collect(back, dsB, csB).kept, Collect(back, dsB, csB).defined)
    decreases |front|
  {
    if |front| == 0 {
      assert front + back == back && dsF + dsB == dsB && csF + csB == csB;
    } else {
      AppendTail(front, back);
      AppendTail(dsF, dsB);
      AppendTail(csF, csB);
      PlainCons(front + back, dsF + dsB, csF + csB);
      CollectPrefix(front[1..], dsF[1..], csF[1..], back, dsB, csB);
      ConsSplit(front, Collect(back, dsB, csB).kept);
    }
  }

  lemma AppendTail<T>(a: seq<T>, b: seq<T>)
    requires |a| > 0
    ensures (a + b)[0] == a[0] && (a + b)[1..] == a[1..] + b
  {
  }

  lemma ConsSplit<T>(a: seq<T>, t: seq<T>)
    requires |a| > 0
    ensures [a[0]] + (a[1..] + t) == a + t
  {
    assert a == [a[0]] + a[1..];
  }

  /** A line without a definition is kept. */
  lemma PlainCons(lines: seq<string>, ds: seq<Option<Definition>>, cs: seq<Option<string>>)
    requires |ds| == |lines| && |cs| == |lines| && |lines| > 0 && ds[0].None?
    ensures Collect(lines, ds, cs).kept == [lines[0]] + Collect(lines[1..], ds[1..], cs[1..]).kept
    ensures Collect(lines, ds, cs).defined == Collect(lines[1..], ds[1..], cs[1..]).defined
  {
  }

  lemma PlainPrefix(front: seq<string>, back: seq<string>)
    requires forall k :: 0 <= k < |front| ==> DefinitionLine(front[k]).None?
    ensures Extract(front + back).kept == front + Extract(back).kept
    ensures Extract(front + back).defined == Extract(back).defined
  {
    ClassifyAppend(front, back);
    CollectPrefix(front, Definitions(front), Continuations(front),
      back, Definitions(back), Continuations(back));
  }

  /** Lines are classified one by one, so classifying joined lines joins
      the classifications. */
  lemma ClassifyAppend(front: seq<string>, back: seq<string>)
    ensures Definitions(front + back) == Definitions(front) + Definitions(back)
    ensures Continuations(front + back) == Continuations(front) + Continuations(back)
  {
    var lines := front + back;
    assert forall k :: 0 <= k < |lines| ==> lines[k] == if k < |front| then front[k] else back[k - |front|];
  }

  /** A definition with nothing after it is the only note. */
  lemma LoneDefinition(line: string)
    requires DefinitionLine(line).Some?
    ensures Extract([line]) ==
      Extraction([], [(DefinitionLine(line).value.key, Trim(DefinitionLine(line).value.text))])
  {
    var ds := Definitions([line]);
    var cs := Continuations([line]);
    assert ds[0] == DefinitionLine(line);
    assert NoteBody(cs[1..]) == [];
    assert Collect([line][1..], ds[1..], cs[1..]) == Extraction([], []);
  }

  /** The definition line of `key` and `text`. */
  function DefinitionOf(key: string, text: string): string {
    "[^" + key + "]: " + text
  }

  lemma DefinitionOfParses(key: string, text: string)
    requires |key| > 0 && ']' !in key
    requires NoLineBreak(text) && (|text| == 0 || !IsSpace(text[0]))
    ensures DefinitionLine(DefinitionOf(key, text)) == Some(Definition(Trim(key), text))
  {
    var line := DefinitionOf(key, text);
    DefinitionParts(key, text);
    FirstBracket(line[2..], key);
    SpaceThenText(text);
  }

  /** Where the parts of a definition line sit. */
  lemma DefinitionParts(key: string, text: string)
    ensures var line := DefinitionOf(key, text);
      |line| == |key| + |text| + 5 && line[0] == '[' && line[1] == '^' &&
      line[2..][..|key|] == key && line[2..][|key|] == ']' &&
      line[2..2 + |key|] == key && line[3 + |key|] == ':' && line[4 + |key|..] == " " + text
  {
    var line := DefinitionOf(key, text);
    assert line == "[^" + key + "]: " + text;
    assert line[2..] == key + "]: " + text;
  }

  /** The first `]` after a key without one is the one that closes it. */
  lemma FirstBracket(s: string, key: string)
    requires ']' !in key && |key| < |s| && s[..|key|] == key && s[|key|] == ']'
    ensures ']' in s && IndexOf(s, ']') == |key|
  {
    assert forall j :: 0 <= j < |key| ==> s[j] == key[j];
  }

  /** One space in front of a text that does not start with whitespace is
      skipped, and nothing more. */
  lemma SpaceThenText(text: string)
    requires |text| == 0 || !IsSpace(text[0])
    ensures SkipSpace(" " + text, 0) == 1 && (" " + text)[1..] == text
  {
    var rest := " " + text;
    assert rest[0] == ' ';
    assert SkipSpace(rest, 1) == 1;
  }

  /** A line of the definition pattern: `[^`, a key without `]`, `]:`,
      whitespace, and a text that has no line break and does not start with
      whitespace. */
  predicate DefinitionShape(line: string, key: string, space: string, text: string) {
    |key| > 0 && ']' !in key && AllSpace(space) && NoLineBreak(text) &&
    (|text| == 0 || !IsSpace(text[0])) &&
    line == "[^" + key + "]:" + space + text
  }

  /** Every line of that shape is a definition, of its trimmed key and its
      text. */
  lemma DefinitionLineComplete(line: string, key: string, space: string, text: string)
    requires DefinitionShape(line, key, space, text)
    ensures DefinitionLine(line) == Some(Definition(Trim(key), text))
  {
    ShapeParts(key, space, text);
    FirstBracket(line[2..], key);
    SkipSpaceOver(space, text);
  }

  /** Where the parts of a line of the definition shape sit. */
  lemma ShapeParts(key: string, space: string, text: string)
    ensures var line := "[^" + key + "]:" + space + text;
      |line| == |key| + |space| + |text| + 4 && line[0] == '[' && line[1] == '^' &&
      line[2..][..|key|] == key && line[2..][|key|] == ']' && |key| < |line[2..]| &&
      line[2..2 + |key|] == key && line[3 + |key|] == ':' && line[4 + |key|..] == space + text
  {
    var line := "[^" + key + "]:" + space + text;
    assert line[2..] == key + "]:" + space + text;
  }

  /** Whitespace in front of a text that does not start with whitespace is
      skipped, and nothing more. */
  lemma SkipSpaceOver(space: string, text: string)
    requires AllSpace(space) && (|text| == 0 || !IsSpace(text[0]))
    ensures SkipSpace(space + text, 0) == |space| && (space + text)[|space|..] == text
  {
    var s := space + text;
    assert forall j :: 0 <= j < |space| ==> s[j] == space[j];
    if |text| > 0 {
      assert s[|space|] == text[0];
    }
  }

  /** Every definition comes from a line of that shape. */
  lemma DefinitionLineSound(line: string)
    ensures DefinitionLine(line).Some? ==> exists key, space ::
      DefinitionShape(line, key, space, DefinitionLine(line).value.text) &&
      DefinitionLine(line).value.key == Trim(key)
  {
    DefinitionLineParts(line);
    if DefinitionLine(line).Some? {
      var d := DefinitionLine(line).value;
      var k := 2 + IndexOf(line[2..], ']');
      var rest := line[k + 2..];
      var w := SkipSpace(rest, 0);
      LineOfParts(line, k, w);
      assert DefinitionShape(line, line[2..k], rest[..w], d.text);
    }
  }

  /** What a definition line is made of, read off the matcher. */
  lemma DefinitionLineParts(line: string)
    ensures DefinitionLine(line).Some? ==>
      |line| >= 2 && line[0] == '[' && line[1] == '^' && ']' in line[2..] &&
      var k := 2 + IndexOf(line[2..], ']');
      var rest := line[k + 2..];
      k > 2 && k + 1 < |line| && line[k + 1] == ':' && ']' !in line[2..k] &&
      DefinitionLine(line).value == Definition(Trim(line[2..k]), rest[SkipSpace(rest, 0)..]) &&
      NoLineBreak(rest[SkipSpace(rest, 0)..])
  {
    if DefinitionLine(line).Some? {
      var k := 2 + IndexOf(line[2..], ']');
      assert line[2..][..k - 2] == line[2..k];
    }
  }

  /** A line cut into `[^`, the key, `]:`, the whitespace and the text. */
  lemma LineOfParts(line: string, k: nat, w: nat)
    requires 2 < k && k + 1 < |line| && w <= |line| - k - 2
    requires line[0] == '[' && line[1] == '^' && line[k] == ']' && line[k + 1] == ':'
    ensures line == "[^" + line[2..k] + "]:" + line[k + 2..][..w] + line[k + 2..][w..]
  {
    assert line[..2] == "[^" && line[k..k + 2] == "]:";
    assert line == line[..2] + line[2..k] + line[k..k + 2] + line[k + 2..][..w] + line[k + 2..][w..];
  }

  /** Appending a definition to a document gives that document back as the
      content and the definition's text as the only note. */
  lemma AppendDefinition(doc: string, key: string, text: string)
    requires forall k :: 0 <= k < |Split(doc, '\n')| ==> DefinitionLine(Split(doc, '\n')[k]).None?
    requires |key| > 0 && ']' !in key && '\n' !in key
    requires NoLineBreak(text) && (|text| == 0 || !IsSpace(text[0]))
    ensures ExtractFootnotes(doc + "\n" + DefinitionOf(key, text)) == Footnotes(doc, map[Trim(key) := Trim(text)])
  {
    var line := DefinitionOf(key, text);
    var front := Split(doc, '\n');
    DefinitionOfLines(doc, key, text);
    DefinitionOfParses(key, text);
    LoneDefinition(line);
    PlainPrefix(front, [line]);
    assert front + [] == front;
    JoinSplit(doc, '\n');
    SingleNote(Trim(key), Trim(text));
  }

  /** The lines of a document with a definition appended. */
  lemma DefinitionOfLines(doc: string, key: string, text: string)
    requires '\n' !in key && NoLineBreak(text)
    ensures Split(doc + "\n" + DefinitionOf(key, text), '\n') == Split(doc, '\n') + [DefinitionOf(key, text)]
  {
    var line := DefinitionOf(key, text);
    assert '\n' !in line by {
      assert forall j :: 0 <= j < |key| ==> line[2 + j] == key[j];
      assert forall j :: 0 <= j < |text| ==> line[|key| + 5 + j] == text[j];
    }
    SplitAppend(doc, line, '\n');
  }

  lemma SingleNote(key: string, note: string)
    ensures Notes([(key, note)]) == map[key := note]
  {
    var es := [Some((key, note))];
    assert AsEntries([(key, note)]) == es;
    assert es[..0] == [];
    assert Assign(es[..0]) == map[];
    assert Assign(es) == map[][key := note];
  }

  /** The texts a run of continuation lines adds to a note. */
  function Texts(conts: seq<string>): (ts: seq<string>)
    requires forall k :: 0 <= k < |conts| ==> Continuation(conts[k]).Some?
    ensures |ts| == |conts|
    ensures forall k :: 0 <= k < |conts| ==> ts[k] == Continuation(conts[k]).value
  {
    seq(|conts|, k requires 0 <= k < |conts| => Continuation(conts[k]).value)
  }

  /** A note's body runs over the continuation lines and stops at the
      first line that does not continue it. */
  lemma NoteBodyOfRun(conts: seq<string>, rest: seq<string>)
    requires forall k :: 0 <= k < |conts| ==> Continuation(conts[k]).Some?
    requires |rest| > 0 ==> Continuation(rest[0]).None?
    ensures NoteBody(Continuations(conts) + Continuations(rest)) == Texts(conts)
  {
    var cs := Continuations(conts) + Continuations(rest);
    var body := NoteBody(cs);
    assert forall k :: 0 <= k < |conts| ==> cs[k] == Continuation(conts[k]);
    if |rest| > 0 {
      assert cs[|conts|] == Continuation(rest[0]);
    }
  }

  /** A definition takes the continuation lines after it into its note:
      the note is its text and theirs, joined with newlines and trimmed,
      and what follows is extracted as if the note were not there. */
  lemma DefinitionWithBody(def: string, conts: seq<string>, rest: seq<string>)
    requires DefinitionLine(def).Some?
    requires forall k :: 0 <= k < |conts| ==> Continuation(conts[k]).Some?
    requires |rest| > 0 ==> Continuation(rest[0]).None?
    ensures Extract([def] + conts + rest) ==
      Extraction(Extract(rest).kept,
        [(DefinitionLine(def).value.key, Trim(Join([DefinitionLine(def).value.text] + Texts(conts), "\n")))] +
        Extract(rest).defined)
  {
    var lines := [def] + conts + rest;
    var ds := Definitions(lines);
    var cs := Continuations(lines);
    RunSlices(def, conts, rest);
    NoteBodyOfRun(conts, rest);
    DefinitionStep(lines, ds, cs);
  }

  /** Where the parts of a definition, its run and the rest sit among the
      lines and their classifications. */
  lemma RunSlices(def: string, conts: seq<string>, rest: seq<string>)
    ensures var lines := [def] + conts + rest;
      var n := 1 + |conts|;
      Definitions(lines)[0] == DefinitionLine(def) &&
      Continuations(lines)[1..] == Continuations(conts) + Continuations(rest) &&
      lines[n..] == rest && Definitions(lines)[n..] == Definitions(rest) &&
      Continuations(lines)[n..] == Continuations(rest)
  {
    ClassifyAppend([def] + conts, rest);
    ClassifyAppend([def], conts);
    DropFront([def] + conts, rest);
    DropFront(Definitions([def] + conts), Definitions(rest));
    DropFront(Continuations([def] + conts), Continuations(rest));
    DropFirst(Continuations([def]), Continuations(conts), Continuations(rest));
  }

  lemma DropFront<T>(a: seq<T>, b: seq<T>)
    ensures (a + b)[|a|..] == b
  {
  }

  lemma DropFirst<T>(a: seq<T>, b: seq<T>, c: seq<T>)
    requires |a| == 1
    ensures (a + b + c)[1..] == b + c
  {
    assert a + b + c == a + (b + c);
  }

  /** A definition line takes its note body with it, and the lines after
      the body are collected on their own. */
  lemma DefinitionStep(lines: seq<string>, ds: seq<Option<Definition>>, cs: seq<Option<string>>)
    requires |ds| == |lines| && |cs| == |lines| && |lines| > 0 && ds[0].Some?
    ensures var n := 1 + |NoteBody(cs[1..])|;
      Collect(lines, ds, cs) ==
        Extraction(Collect(lines[n..], ds[n..], cs[n..]).kept,
          [(ds[0].value.key, Trim(Join([ds[0].value.text] + NoteBody(cs[1..]), "\n")))] +
          Collect(lines[n..], ds[n..], cs[n..]).defined)
  {
  }

  /** In a document whose lines are plain lines, a definition with its
      continuation lines, and the rest, the plain lines are kept, the note
      is collected, and the rest is extracted on its own. */
  lemma NoteWithBody(front: seq<string>, def: string, conts: seq<string>, rest: seq<string>)
    requires forall k :: 0 <= k < |front| ==> DefinitionLine(front[k]).None?
    requires DefinitionLine(def).Some?
    requires forall k :: 0 <= k < |conts| ==> Continuation(conts[k]).Some?
    requires |rest| > 0 ==> Continuation(rest[0]).None?
    ensures Extract(front + ([def] + conts + rest)).kept == front + Extract(rest).kept
    ensures Extract(front + ([def] + conts + rest)).defined ==
      [(DefinitionLine(def).value.key, Trim(Join([DefinitionLine(def).value.text] + Texts(conts), "\n")))] +
      Extract(rest).defined
  {
    PlainPrefix(front, [def] + conts + rest);
    DefinitionWithBody(def, conts, rest);
  }
}
