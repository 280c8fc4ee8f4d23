/** Text helpers shared by every stage of the post pipeline: ASCII character
    classes, trimming, lower-casing, splitting and joining, decimal numerals,
    and the order-keeping duplicate removal that `Array.from(new Set(xs))`
    performs in the generator. */
module Text {

  datatype Option<+T> = None | Some(value: T)

  /** The characters JavaScript's `\s` and `String.prototype.trim` treat as
      whitespace, restricted to ASCII. */
  predicate IsSpace(c: char) {
    c == ' ' || c == '\t' || c == '\n' || c == '\r' || c == '\U{0B}' || c == '\U{0C}'
  }

  predicate IsDigit(c: char) { '0' <= c <= '9' }

  predicate IsUpper(c: char) { 'A' <= c <= 'Z' }

  predicate IsLower(c: char) { 'a' <= c <= 'z' }

  predicate IsLetter(c: char) { IsUpper(c) || IsLower(c) }

  predicate AllSpace(s: string) {
    forall i :: 0 <= i < |s| ==> IsSpace(s[i])
  }

  /** No whitespace at either end. */
  predicate IsTrimmed(s: string) {
    |s| == 0 || (!IsSpace(s[0]) && !IsSpace(s[|s| - 1]))
  }

  /** Whitespace only as single spaces. */
  predicate Collapsed(s: string) {
    forall k :: 0 <= k < |s| && IsSpace(s[k]) ==> s[k] == ' ' && (k + 1 == |s| || !IsSpace(s[k + 1]))
  }

  predicate StartsWith(s: string, prefix: string) {
    |prefix| <= |s| && s[..|prefix|] == prefix
  }

  predicate EndsWith(s: string, suffix: string) {
    |suffix| <= |s| && s[|s| - |suffix|..] == suffix
  }

  /** `pat` occurs in `s` starting at index `j`. */
  predicate OccursAt(s: string, j: nat, pat: string) {
    j + |pat| <= |s| && s[j..j + |pat|] == pat
  }

  // ---------------------------------------------------------------------
  // Case and trimming
  // ---------------------------------------------------------------------

  function LowerChar(c: char): (r: char)
    ensures !IsUpper(r)
    ensures IsUpper(c) ==> IsLower(r)
    ensures !IsUpper(c) ==> r == c
  {
    if IsUpper(c) then (c as int - 'A' as int + 'a' as int) as char else c
  }

  /** `toLowerCase`, on ASCII letters only. */
  function Lower(s: string): (r: string)
    ensures |r| == |s|
    ensures forall i :: 0 <= i < |s| ==> r[i] == LowerChar(s[i])
    ensures forall c :: c in r ==> !IsUpper(c)
  {
    seq(|s|, i requires 0 <= i < |s| => LowerChar(s[i]))
  }

  lemma LowerOfLowerCase(s: string)
    requires forall c :: c in s ==> !IsUpper(c)
    ensures Lower(s) == s
  {
  }

  /** The first index at or after `i` that does not hold whitespace. */
  function SkipSpace(s: string, i: nat): (k: nat)
    requires i <= |s|
    ensures i <= k <= |s|
    ensures forall j :: i <= j < k ==> IsSpace(s[j])
    ensures k == |s| || !IsSpace(s[k])
    decreases |s| - i
  {
    if i < |s| && IsSpace(s[i]) then SkipSpace(s, i + 1) else i
  }

  /** The index just past the last character of `s[lo..hi]` that is not
      whitespace, or `lo` when there is none. */
  function SkipSpaceBack(s: string, lo: nat, hi: nat): (k: nat)
    requires lo <= hi <= |s|
    ensures lo <= k <= hi
    ensures forall j :: k <= j < hi ==> IsSpace(s[j])
    ensures k == lo || !IsSpace(s[k - 1])
    decreases hi - lo
  {
    if lo < hi && IsSpace(s[hi - 1]) then SkipSpaceBack(s, lo, hi - 1) else hi
  }

  /** `trimStart`. */
  function TrimStart(s: string): (r: string)
    ensures |r| <= |s|
    ensures |r| == 0 || !IsSpace(r[0])
    ensures forall i :: 0 <= i < |s| - |r| ==> IsSpace(s[i])
    ensures r == s[|s| - |r|..]
  {
    s[SkipSpace(s, 0)..]
  }

  /** `trimEnd`. */
  function TrimEnd(s: string): (r: string)
    ensures |r| <= |s|
    ensures |r| == 0 || !IsSpace(r[|r| - 1])
    ensures forall i :: |r| <= i < |s| ==> IsSpace(s[i])
    ensures r == s[..|r|]
  {
    s[..SkipSpaceBack(s, 0, |s|)]
  }

  /** How many leading whitespace characters `trim` removes. */
  function TrimOffset(s: string): (k: nat)
    ensures k <= |s|
  {
    SkipSpace(s, 0)
  }

  /** `String.prototype.trim`: `r` is `s` with its whitespace ends cut off. */
  function Trim(s: string): (r: string)
    ensures IsTrimmed(r)
    ensures TrimOffset(s) + |r| <= |s|
    ensures forall i :: 0 <= i < TrimOffset(s) ==> IsSpace(s[i])
    ensures forall i :: TrimOffset(s) + |r| <= i < |s| ==> IsSpace(s[i])
    ensures r == s[TrimOffset(s)..TrimOffset(s) + |r|]
  {
    s[TrimOffset(s)..SkipSpaceBack(s, TrimOffset(s), |s|)]
  }

  lemma TrimTrimmed(s: string)
    requires IsTrimmed(s)
    ensures Trim(s) == s
  {
  }

  /** Trimming keeps whitespace single. */
  lemma TrimCollapsed(s: string)
    requires Collapsed(s)
    ensures Collapsed(Trim(s))
  {
    var a := TrimOffset(s);
    var t := Trim(s);
    assert forall k :: 0 <= k < |t| ==> t[k] == s[a + k];
  }

  /** Whitespace of any kind around a trimmed text is all that `trim`
      removes. */
  lemma TrimSurrounded(a: string, x: string, b: string)
    requires AllSpace(a) && AllSpace(b) && |x| > 0 && IsTrimmed(x)
    ensures Trim(a + x + b) == x
  {
    var s := a + x + b;
    assert s[|a|] == x[0];
    assert s[|a| + |x| - 1] == x[|x| - 1];
    assert forall j :: 0 <= j < |a| ==> s[j] == a[j];
    assert forall j :: |a| + |x| <= j < |s| ==> s[j] == b[j - |a| - |x|];
    var k := TrimOffset(s);
    assert k == |a|;
    assert SkipSpaceBack(s, k, |s|) == |a| + |x|;
    assert s[|a|..|a| + |x|] == x;
  }

  lemma TrimEmptyIffAllSpace(s: string)
    ensures Trim(s) == [] <==> AllSpace(s)
  {
    var k := TrimOffset(s);
    assert |Trim(s)| > 0 ==> Trim(s)[0] == s[k];
  }

  lemma TrimKeepsChars(s: string, c: char)
    requires !IsSpace(c)
    ensures c in Trim(s) <==> c in s
  {
    var r := Trim(s);
    var k := TrimOffset(s);
    forall i | 0 <= i < |s| && s[i] == c
      ensures c in r
    {
      assert r[i - k] == c;
    }
  }

  // ---------------------------------------------------------------------
  // Searching
  // ---------------------------------------------------------------------

  /** `s.indexOf(c)` for a character known to occur. */
  function IndexOf(s: string, c: char): (k: nat)
    requires c in s
    ensures k < |s| && s[k] == c && c !in s[..k]
    ensures forall j :: 0 <= j < k ==> s[j] != c
  {
    if s[0] == c then 0
    else
      var k := IndexOf(s[1..], c);
      assert s[..k + 1] == [s[0]] + s[1..][..k];
      1 + k
  }

  /** The first index at or after `from` holding `c`. */
  function FindChar(s: string, from: nat, c: char): (r: Option<nat>)
    requires from <= |s|
    ensures r.Some? ==> from <= r.value < |s| && s[r.value] == c
    ensures r.Some? ==> forall k :: from <= k < r.value ==> s[k] != c
    ensures r.None? ==> forall k :: from <= k < |s| ==> s[k] != c
    decreases |s| - from
  {
    if from == |s| then None
    else if s[from] == c then Some(from)
    else FindChar(s, from + 1, c)
  }

  /** The first index at or after `from` where `pat` occurs. */
  function FindSub(s: string, from: nat, pat: string): (r: Option<nat>)
    requires from <= |s|
    ensures r.Some? ==> from <= r.value && OccursAt(s, r.value, pat)
    ensures r.Some? ==> forall k :: from <= k < r.value ==> !OccursAt(s, k, pat)
    ensures r.None? ==> forall k :: from <= k ==> !OccursAt(s, k, pat)
    decreases |s| - from
  {
    if OccursAt(s, from, pat) then Some(from)
    else if from == |s| then None
    else FindSub(s, from + 1, pat)
  }

  /** `FindChar` finds the first occurrence. */
  lemma FindCharAt(s: string, from: nat, c: char, a: nat)
    requires from <= a < |s| && s[a] == c && forall k :: from <= k < a ==> s[k] != c
    ensures FindChar(s, from, c) == Some(a)
  {
    var r := FindChar(s, from, c);
    assert r.Some? && !(r.value < a) && !(r.value > a);
  }

  /** `FindSub` finds the first occurrence. */
  lemma FindSubAt(s: string, from: nat, pat: string, a: nat)
    requires from <= a && OccursAt(s, a, pat) && forall k :: from <= k < a ==> !OccursAt(s, k, pat)
    ensures FindSub(s, from, pat) == Some(a)
  {
    var r := FindSub(s, from, pat);
    assert r.Some? && !(r.value < a) && !(r.value > a);
  }

  // ---------------------------------------------------------------------
  // Split and join
  // ---------------------------------------------------------------------

  /** `s.split(sep)` for a one-character separator: always at least one part,
      and an empty string splits into one empty part. */
  function Split(s: string, sep: char): (parts: seq<string>)
    ensures |parts| >= 1
    ensures forall i :: 0 <= i < |parts| ==> sep !in parts[i]
    decreases |s|
  {
    if sep in s then
      var k := IndexOf(s, sep);
      [s[..k]] + Split(s[k + 1..], sep)
    else
      [s]
  }

  /** `parts.join(sep)`. */
  function Join(parts: seq<string>, sep: string): string
    decreases |parts|
  {
    if |parts| == 0 then ""
    else if |parts| == 1 then parts[0]
    else parts[0] + sep + Join(parts[1..], sep)
  }

  lemma JoinCons(x: string, rest: seq<string>, sep: string)
    requires |rest| >= 1
    ensures Join([x] + rest, sep) == x + sep + Join(rest, sep)
  {
    assert ([x] + rest)[1..] == rest;
  }

  /** Joining the parts of a split with the separator gives back the text. */
  lemma {:induction false} JoinSplit(s: string, sep: char)
    ensures Join(Split(s, sep), [sep]) == s
    decreases |s|
  {
    if sep in s {
      var k := IndexOf(s, sep);
      var rest := Split(s[k + 1..], sep);
      JoinSplit(s[k + 1..], sep);
      JoinCons(s[..k], rest, [sep]);
      assert s == s[..k] + [sep] + s[k + 1..];
    }
  }

  /** Splitting a join of separator-free parts gives back the parts. */
  lemma {:induction false} SplitJoin(parts: seq<string>, sep: char)
    requires |parts| >= 1
    requires forall i :: 0 <= i < |parts| ==> sep !in parts[i]
    ensures Split(Join(parts, [sep]), sep) == parts
    decreases |parts|
  {
    if |parts| > 1 {
      var s := Join(parts, [sep]);
      var x := parts[0];
      JoinCons(x, parts[1..], [sep]);
      assert parts == [x] + parts[1..];
      assert s == x + [sep] + Join(parts[1..], [sep]);
      assert s[|x|] == sep;
      assert s[..|x|] == x;
      assert sep in s;
      var k := IndexOf(s, sep);
      assert forall j :: 0 <= j < |x| ==> s[j] == x[j];
      assert k == |x|;
      assert s[k + 1..] == Join(parts[1..], [sep]);
      SplitJoin(parts[1..], sep);
    } else {
      assert Join(parts, [sep]) == parts[0];
    }
  }

  /** Splitting two texts joined by the separator splits each of them. */
  lemma SplitAppend(a: string, b: string, sep: char)
    ensures Split(a + [sep] + b, sep) == Split(a, sep) + Split(b, sep)
  {
    var pa, pb := Split(a, sep), Split(b, sep);
    JoinAppend(pa, pb, [sep]);
    JoinSplit(a, sep);
    JoinSplit(b, sep);
    SplitJoin(pa + pb, sep);
  }

  /** Joining two runs of parts is joining each and putting the separator
      between. */
  lemma {:induction false} JoinAppend(p: seq<string>, q: seq<string>, sep: string)
    requires |p| >= 1 && |q| >= 1
    ensures Join(p + q, sep) == Join(p, sep) + sep + Join(q, sep)
    decreases |p|
  {
    var x := p[0];
    if |p| == 1 {
      assert p + q == [x] + q;
      JoinCons(x, q, sep);
    } else {
      var r := p[1..];
      assert p + q == [x] + (r + q);
      assert p == [x] + r;
      JoinAppend(r, q, sep);
      JoinCons(x, r + q, sep);
      JoinCons(x, r, sep);
      var jr, jq := Join(r, sep), Join(q, sep);
      assert x + sep + (jr + sep + jq) == (x + sep + jr) + sep + jq;
    }
  }

  // ---------------------------------------------------------------------
  // Sequences
  // ---------------------------------------------------------------------

  predicate Distinct<T(==)>(xs: seq<T>) {
    forall i, j :: 0 <= i < j < |xs| ==> xs[i] != xs[j]
  }

  function Elems<T>(xs: seq<T>): set<T> {
    set x | x in xs
  }

  /** A distinct sequence has as many elements as its set of elements. */
  lemma {:induction false} DistinctCard<T>(xs: seq<T>)
    requires Distinct(xs)
    ensures |Elems(xs)| == |xs|
    decreases |xs|
  {
    if |xs| > 0 {
      var init := xs[..|xs| - 1];
      var last := xs[|xs| - 1];
      assert xs == init + [last];
      assert Distinct(init);
      DistinctCard(init);
      assert last !in init;
      assert Elems(xs) == Elems(init) + {last};
    }
  }

  /** Two distinct sequences with the same elements have the same length. */
  lemma SameElemsSameLength<T>(xs: seq<T>, ys: seq<T>)
    requires Distinct(xs) && Distinct(ys)
    requires forall x :: x in xs <==> x in ys
    ensures |xs| == |ys|
  {
    DistinctCard(xs);
    DistinctCard(ys);
    assert Elems(xs) == Elems(ys);
  }

  /** The index of the first occurrence of `x`. */
  function FirstIndex<T(==)>(xs: seq<T>, x: T): (k: nat)
    requires x in xs
    ensures k < |xs| && xs[k] == x && x !in xs[..k]
    ensures forall j :: 0 <= j < k ==> xs[j] != x
  {
    if xs[0] == x then 0
    else
      var k := FirstIndex(xs[1..], x);
      assert xs[..k + 1] == [xs[0]] + xs[1..][..k];
      1 + k
  }

  lemma FirstIndexOfPrefix<T>(a: seq<T>, b: seq<T>, x: T)
    requires x in a
    ensures FirstIndex(a + b, x) == FirstIndex(a, x)
  {
    var k := FirstIndex(a + b, x);
    var k' := FirstIndex(a, x);
    assert forall j :: 0 <= j < |a| ==> (a + b)[j] == a[j];
  }

  /** `Array.from(new Set(xs))`: the elements of `xs` without repeats, each
      where it first occurs. */
  function Dedupe<T(==)>(xs: seq<T>): (r: seq<T>)
    ensures Distinct(r)
    ensures forall i :: 0 <= i < |r| ==> r[i] in xs
    ensures forall i :: 0 <= i < |xs| ==> xs[i] in r
    ensures |r| <= |xs|
    decreases |xs|
  {
    if |xs| == 0 then []
    else
      var init := xs[..|xs| - 1];
      var last := xs[|xs| - 1];
      assert xs == init + [last];
      var d := Dedupe(init);
      if last in d then d else d + [last]
  }

  /** A repeat adds nothing; a new element goes at the end. */
  lemma DedupeSnocCases<T>(xs: seq<T>, x: T)
    ensures x in xs ==> Dedupe(xs + [x]) == Dedupe(xs)
    ensures x !in xs ==> Dedupe(xs + [x]) == Dedupe(xs) + [x]
  {
    DedupeSnoc(xs, x);
    var d := Dedupe(xs);
    if x in xs {
      var k :| 0 <= k < |xs| && xs[k] == x;
      assert x in d;
    } else {
      assert x !in d;
    }
  }

  lemma DedupeSnoc<T>(xs: seq<T>, x: T)
    ensures Dedupe(xs + [x]) == if x in Dedupe(xs) then Dedupe(xs) else Dedupe(xs) + [x]
  {
    assert (xs + [x])[..|xs|] == xs;
  }

  /** The kept elements appear in the order of their first occurrence. */
  lemma {:induction false} DedupeFirstOccurrenceOrder<T>(xs: seq<T>)
    ensures forall i, j :: 0 <= i < j < |Dedupe(xs)| ==>
      FirstIndex(xs, Dedupe(xs)[i]) < FirstIndex(xs, Dedupe(xs)[j])
    decreases |xs|
  {
    if |xs| > 0 {
      var init := xs[..|xs| - 1];
      var last := xs[|xs| - 1];
      assert xs == init + [last];
      DedupeFirstOccurrenceOrder(init);
      DedupeSnocCases(init, last);
      FirstOrderStep(init, last, Dedupe(init));
    }
  }

  /** Appending one element keeps the first-occurrence order of the
      elements already present, and a new element comes after them all. */
  lemma FirstOrderStep<T>(init: seq<T>, last: T, d: seq<T>)
    requires forall i :: 0 <= i < |d| ==> d[i] in init
    requires forall i, j :: 0 <= i < j < |d| ==> FirstIndex(init, d[i]) < FirstIndex(init, d[j])
    ensures forall i, j :: 0 <= i < j < |d| ==>
      FirstIndex(init + [last], d[i]) < FirstIndex(init + [last], d[j])
    ensures last !in init ==> forall i, j :: 0 <= i < j < |d + [last]| ==>
      FirstIndex(init + [last], (d + [last])[i]) < FirstIndex(init + [last], (d + [last])[j])
  {
    var xs := init + [last];
    forall y | y in init
      ensures FirstIndex(xs, y) == FirstIndex(init, y)
    {
      FirstIndexOfPrefix(init, [last], y);
    }
    if last !in init {
      FirstIndexOfNew(init, last);
      FirstOrderNew(xs, d, last);
    }
  }

  /** An element that is not in `init` first occurs at the end of `init + [last]`. */
  lemma FirstIndexOfNew<T>(init: seq<T>, last: T)
    requires last !in init
    ensures FirstIndex(init + [last], last) == |init|
  {
    var xs := init + [last];
    assert forall j :: 0 <= j < |init| ==> xs[j] == init[j];
  }

  lemma FirstOrderNew<T>(xs: seq<T>, d: seq<T>, last: T)
    requires last in xs && forall i :: 0 <= i < |d| ==> d[i] in xs
    requires forall i, j :: 0 <= i < j < |d| ==> FirstIndex(xs, d[i]) < FirstIndex(xs, d[j])
    requires forall i :: 0 <= i < |d| ==> FirstIndex(xs, d[i]) < FirstIndex(xs, last)
    ensures forall i, j :: 0 <= i < j < |d + [last]| ==>
      FirstIndex(xs, (d + [last])[i]) < FirstIndex(xs, (d + [last])[j])
  {
    var r := d + [last];
    forall i, j | 0 <= i < j < |r|
      ensures FirstIndex(xs, r[i]) < FirstIndex(xs, r[j])
    {
      assert r[i] == d[i];
      if j < |d| {
        assert r[j] == d[j];
      }
    }
  }

  lemma {:induction false} DedupeDistinct<T>(xs: seq<T>)
    requires Distinct(xs)
    ensures Dedupe(xs) == xs
    decreases |xs|
  {
    if |xs| > 0 {
      var init := xs[..|xs| - 1];
      var last := xs[|xs| - 1];
      assert xs == init + [last];
      DedupeDistinct(init);
      assert last !in init;
    }
  }

  /** `a` is a subsequence of `b`: `b` with some elements deleted. */
  predicate IsSubseq<T(==)>(a: seq<T>, b: seq<T>)
    decreases |b|
  {
    if |a| == 0 then true
    else if |b| == 0 then false
    else if a[0] == b[0] then IsSubseq(a[1..], b[1..])
    else IsSubseq(a, b[1..])
  }

  lemma {:induction false} SubseqSkip<T>(a: seq<T>, b: seq<T>, m: nat)
    requires m <= |b|
    requires IsSubseq(a, b[m..])
    ensures IsSubseq(a, b)
    decreases m
  {
    if m > 0 {
      var b' := b[1..];
      assert b'[m - 1..] == b[m..];
      SubseqSkip(a, b', m - 1);
      if |a| > 0 {
        SubseqWeaken(a, b[0], b');
        assert [b[0]] + b' == b;
      }
    }
  }

  lemma {:induction false} SubseqWeaken<T>(a: seq<T>, x: T, b: seq<T>)
    requires IsSubseq(a, b)
    ensures IsSubseq(a, [x] + b)
    decreases |b|, 1
  {
    var xb := [x] + b;
    assert xb[1..] == b;
    if |a| > 0 && a[0] == x {
      SubseqTail(a, b);
    }
  }

  lemma {:induction false} SubseqTail<T>(a: seq<T>, b: seq<T>)
    requires |a| > 0 && IsSubseq(a, b)
    ensures IsSubseq(a[1..], b)
    decreases |b|, 0
  {
    assert [b[0]] + b[1..] == b;
    if a[0] == b[0] {
      if |a[1..]| > 0 {
        SubseqWeaken(a[1..], b[0], b[1..]);
      }
    } else {
      SubseqTail(a, b[1..]);
      if |a[1..]| > 0 {
        SubseqWeaken(a[1..], b[0], b[1..]);
      }
    }
  }

  lemma SubseqCons<T>(x: T, a: seq<T>, b: seq<T>)
    requires IsSubseq(a, b)
    ensures IsSubseq([x] + a, [x] + b)
  {
    assert ([x] + a)[1..] == a;
    assert ([x] + b)[1..] == b;
  }

  lemma {:induction false} SubseqRefl<T>(a: seq<T>)
    ensures IsSubseq(a, a)
    decreases |a|
  {
    if |a| > 0 {
      SubseqRefl(a[1..]);
    }
  }

  // ---------------------------------------------------------------------
  // Decimal numerals
  // ---------------------------------------------------------------------

  function DigitChar(d: nat): (c: char)
    requires d < 10
    ensures IsDigit(c)
  {
    ('0' as int + d) as char
  }

  function DigitValue(c: char): (d: nat)
    requires IsDigit(c)
    ensures d < 10
  {
    c as int - '0' as int
  }

  /** Decimal rendering of a number, as a template literal `${n}` does. */
  function NatToString(n: nat): (r: string)
    ensures |r| >= 1
    ensures forall i :: 0 <= i < |r| ==> IsDigit(r[i])
    ensures n > 0 ==> r[0] != '0'
    decreases n
  {
    if n < 10 then [DigitChar(n)] else NatToString(n / 10) + [DigitChar(n % 10)]
  }

  /** The value of a string of decimal digits; the reference that
      `NatToString` is checked against. */
  function ParseDigits(s: string): nat
    requires forall i :: 0 <= i < |s| ==> IsDigit(s[i])
    decreases |s|
  {
    if |s| == 0 then 0 else ParseDigits(s[..|s| - 1]) * 10 + DigitValue(s[|s| - 1])
  }

  lemma {:induction false} ParseNatToString(n: nat)
    ensures ParseDigits(NatToString(n)) == n
    decreases n
  {
    if n >= 10 {
      ParseNatToString(n / 10);
      var s := NatToString(n);
      assert s[..|s| - 1] == NatToString(n / 10);
    }
  }

  lemma NatToStringInjective(m: nat, n: nat)
    requires NatToString(m) == NatToString(n)
    ensures m == n
  {
    ParseNatToString(m);
    ParseNatToString(n);
  }

  // ---------------------------------------------------------------------
  // Maps filled from keyed entries
  // ---------------------------------------------------------------------

  /** Stores the entries into a map in order, each one overwriting what an
      earlier entry stored under the same key; `None` entries are skipped. */
  function Assign<V>(entries: seq<Option<(string, V)>>): map<string, V>
    decreases |entries|
  {
    if |entries| == 0 then map[]
    else
      var m := Assign(entries[..|entries| - 1]);
      match entries[|entries| - 1]
      case Some((k, v)) => m[k := v]
      case None => m
  }

  /** The entry `entry` reads from each line, in order. */
  function EntriesOf<V>(lines: seq<string>, entry: string -> Option<(string, V)>): (es: seq<Option<(string, V)>>)
    ensures |es| == |lines|
    ensures forall i :: 0 <= i < |lines| ==> es[i] == entry(lines[i])
  {
    seq(|lines|, i requires 0 <= i < |lines| => entry(lines[i]))
  }

  predicate EntryFor<V>(e: Option<(string, V)>, k: string) {
    e.Some? && e.value.0 == k
  }

  /** The keys of the map are exactly the keys of the entries. */
  lemma {:induction false} AssignKeys<V>(entries: seq<Option<(string, V)>>, k: string)
    ensures k in Assign(entries) <==> exists i :: 0 <= i < |entries| && EntryFor(entries[i], k)
    decreases |entries|
  {
    if |entries| > 0 {
      var init := entries[..|entries| - 1];
      var last := entries[|entries| - 1];
      AssignKeys(init, k);
      assert forall i :: 0 <= i < |init| ==> init[i] == entries[i];
      if EntryFor(last, k) {
        assert EntryFor(entries[|entries| - 1], k);
      } else if exists i :: 0 <= i < |entries| && EntryFor(entries[i], k) {
        var i :| 0 <= i < |entries| && EntryFor(entries[i], k);
        assert i < |init| && EntryFor(init[i], k);
      }
    }
  }

  /** A key holds the value of its last entry. */
  lemma {:induction false} AssignLastWins<V>(entries: seq<Option<(string, V)>>, i: nat)
    requires i < |entries| && entries[i].Some?
    requires forall j :: i < j < |entries| ==> !EntryFor(entries[j], entries[i].value.0)
    ensures entries[i].value.0 in Assign(entries)
    ensures Assign(entries)[entries[i].value.0] == entries[i].value.1
    decreases |entries|
  {
    if i < |entries| - 1 {
      var init := entries[..|entries| - 1];
      assert init[i] == entries[i];
      assert forall j :: i < j < |init| ==> init[j] == entries[j];
      LastEntryNotFor(entries, entries[i].value.0);
      AssignLastWins(init, i);
    }
  }

  lemma LastEntryNotFor<V>(entries: seq<Option<(string, V)>>, k: string)
    requires |entries| > 0 && !EntryFor(entries[|entries| - 1], k)
    ensures k in Assign(entries) <==> k in Assign(entries[..|entries| - 1])
    ensures k in Assign(entries) ==> Assign(entries)[k] == Assign(entries[..|entries| - 1])[k]
  {
  }
}
