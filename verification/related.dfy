/** The related-posts selector of the generator (`selectRelatedPosts` in
    generate-static-posts.mjs) and the corpus step that runs it for every
    post. Three tiers fill the list in turn: the post's own `related` ids,
    then posts sharing tags, best match first, then the rest of the corpus
    in order. */
module Related {
  import opened Text
  import opened Posts

  function Min(a: nat, b: nat): nat { if a <= b then a else b }

  /** The ids of some posts, position by position. */
  function Ids(ps: seq<Post>): (ids: seq<string>)
    ensures |ids| == |ps|
    ensures forall i :: 0 <= i < |ps| ==> ids[i] == ps[i].id
  {
    seq(|ps|, i requires 0 <= i < |ps| => ps[i].id)
  }

  lemma IdsSnoc(ps: seq<Post>, p: Post)
    ensures Ids(ps + [p]) == Ids(ps) + [p.id]
  {
  }

  /** What every tier keeps true of the selection: posts of the corpus,
      never the current one, no id twice. */
  predicate Valid(s: seq<Post>, posts: seq<Post>, current: Post) {
    (forall i :: 0 <= i < |s| ==> s[i] in posts && s[i].id != current.id) && Distinct(Ids(s))
  }

  /** May `p` join the selection `s`: it is not the current post and its id
      is not taken yet. */
  predicate Open(p: Post, current: Post, s: seq<Post>) {
    p.id != current.id && p.id !in Ids(s)
  }

  lemma AppendOpen(s: seq<Post>, p: Post, posts: seq<Post>, current: Post)
    requires Valid(s, posts, current) && Open(p, current, s) && p in posts
    ensures Valid(s + [p], posts, current)
  {
    IdsSnoc(s, p);
  }

  // ---------------------------------------------------------------------
  // Explicit tier
  // ---------------------------------------------------------------------

  /** `byId.get(id)`: the map is filled in corpus order, so of several posts
      with one id the last is found. */
  function ById(posts: seq<Post>, id: string): (m: Option<Post>)
    ensures m.Some? ==> m.value in posts && m.value.id == id
    ensures m.None? <==> id !in Ids(posts)
    decreases |posts|
  {
    if |posts| == 0 then None
    else
      var init := posts[..|posts| - 1];
      assert Ids(posts) == Ids(init) + [posts[|posts| - 1].id];
      if posts[|posts| - 1].id == id then Some(posts[|posts| - 1]) else ById(init, id)
  }

  /** The post found for an id is the last one carrying it. */
  lemma {:induction false} ByIdIsLast(posts: seq<Post>, id: string, k: nat)
    requires k < |posts| && posts[k].id == id
    requires forall j :: k < j < |posts| ==> posts[j].id != id
    ensures ById(posts, id) == Some(posts[k])
    decreases |posts|
  {
    if k < |posts| - 1 {
      var init := posts[..|posts| - 1];
      ByIdIsLast(init, id, k);
    }
  }

  /** The first tier: each listed id in turn, when a post has it, it is not
      the current post and it was not listed before. This tier is not cut
      at `maxItems`; only the final slice is. */
  function Explicit(posts: seq<Post>, current: Post, ids: seq<string>): (s: seq<Post>)
    ensures Valid(s, posts, current)
    ensures |s| <= |ids|
    decreases |ids|
  {
    if |ids| == 0 then []
    else
      var s := Explicit(posts, current, ids[..|ids| - 1]);
      match ById(posts, ids[|ids| - 1])
      case None => s
      case Some(m) =>
        if Open(m, current, s) then AppendOpen(s, m, posts, current); s + [m] else s
  }

  /** The listed ids that name another post of the corpus, in order. */
  function Known(posts: seq<Post>, current: Post, ids: seq<string>): seq<string>
    decreases |ids|
  {
    if |ids| == 0 then []
    else
      var k := Known(posts, current, ids[..|ids| - 1]);
      var id := ids[|ids| - 1];
      if id in Ids(posts) && id != current.id then k + [id] else k
  }

  /** The explicit tier holds exactly the listed ids that name another
      post, without repeats, in the order they are first listed. */
  lemma {:induction false} ExplicitIds(posts: seq<Post>, current: Post, ids: seq<string>)
    ensures Ids(Explicit(posts, current, ids)) == Dedupe(Known(posts, current, ids))
    decreases |ids|
  {
    if |ids| > 0 {
      var init := ids[..|ids| - 1];
      var id := ids[|ids| - 1];
      ExplicitIds(posts, current, init);
      var s := Explicit(posts, current, init);
      var k := Known(posts, current, init);
      if id in Ids(posts) && id != current.id {
        DedupeSnoc(k, id);
        var m := ById(posts, id).value;
        if Open(m, current, s) {
          IdsSnoc(s, m);
        }
      }
    }
  }

  // ---------------------------------------------------------------------
  // Tag tier
  // ---------------------------------------------------------------------

  /** `post.tags.filter((tag) => currentTagSet.has(tag)).length`. */
  function Overlap(tags: seq<string>, currentTags: seq<string>): (n: nat)
    ensures n <= |tags|
    ensures n == 0 <==> forall i :: 0 <= i < |tags| ==> tags[i] !in currentTags
    decreases |tags|
  {
    if |tags| == 0 then 0
    else
      var rest := Overlap(tags[1..], currentTags);
      assert forall i :: 1 <= i < |tags| ==> tags[i] == tags[1..][i - 1];
      if tags[0] in currentTags then 1 + rest else rest
  }

  /** With tags free of repeats, the overlap is the number of tags the two
      posts share. */
  lemma {:induction false} OverlapShared(tags: seq<string>, currentTags: seq<string>)
    requires Distinct(tags)
    ensures Overlap(tags, currentTags) == |Elems(tags) * Elems(currentTags)|
    decreases |tags|
  {
    if |tags| > 0 {
      var rest := tags[1..];
      DistinctCons(tags);
      OverlapShared(rest, currentTags);
      SharedCons(tags, currentTags);
    }
  }

  /** The tail of a list without repeats has none, and lacks the head. */
  lemma DistinctCons<T>(xs: seq<T>)
    requires |xs| > 0 && Distinct(xs)
    ensures Distinct(xs[1..]) && xs[0] !in Elems(xs[1..])
  {
    assert forall i :: 0 <= i < |xs| - 1 ==> xs[1..][i] == xs[i + 1];
  }

  /** The shared tags of a list are its head's, if shared, and its tail's. */
  lemma SharedCons(tags: seq<string>, currentTags: seq<string>)
    requires |tags| > 0 && tags[0] !in Elems(tags[1..])
    ensures |Elems(tags) * Elems(currentTags)| ==
      |Elems(tags[1..]) * Elems(currentTags)| + (if tags[0] in currentTags then 1 else 0)
  {
    var rest := tags[1..];
    assert Elems(tags) == {tags[0]} + Elems(rest) by {
      assert forall x :: x in tags <==> x == tags[0] || x in rest;
    }
    var shared := Elems(rest) * Elems(currentTags);
    if tags[0] in currentTags {
      assert Elems(tags) * Elems(currentTags) == shared + {tags[0]};
    } else {
      assert Elems(tags) * Elems(currentTags) == shared;
    }
  }

  /** One scored candidate, as the source builds it. */
  datatype Scored = Scored(post: Post, overlap: nat, timestamp: int)

  function ScoreOf(p: Post, current: Post): Scored {
    Scored(p, Overlap(p.tags, current.tags), p.timestamp)
  }

  /** The candidates: open posts sharing a tag with the current one, in
      corpus order. */
  function Score(posts: seq<Post>, current: Post, taken: seq<Post>): (items: seq<Scored>)
    ensures |items| <= |posts|
    decreases |posts|
  {
    if |posts| == 0 then []
    else
      var init := posts[..|posts| - 1];
      var p := posts[|posts| - 1];
      var items := Score(init, current, taken);
      if Open(p, current, taken) && Overlap(p.tags, current.tags) > 0 then items + [ScoreOf(p, current)]
      else items
  }

  /** Each candidate is an open post of the corpus that shares a tag, with
      its score; and every such post is a candidate. */
  lemma {:induction false} ScoreCandidates(posts: seq<Post>, current: Post, taken: seq<Post>)
    ensures forall i :: 0 <= i < |Score(posts, current, taken)| ==>
      var item := Score(posts, current, taken)[i];
      item == ScoreOf(item.post, current) && item.post in posts && Open(item.post, current, taken) && item.overlap > 0
    ensures forall p :: p in posts && Open(p, current, taken) && Overlap(p.tags, current.tags) > 0 ==>
      ScoreOf(p, current) in Score(posts, current, taken)
    decreases |posts|
  {
    if |posts| > 0 {
      var init := posts[..|posts| - 1];
      var p := posts[|posts| - 1];
      assert posts == init + [p];
      ScoreCandidates(init, current, taken);
    }
  }

  /** The sort comparator: negative when `left` goes first. */
  function Compare(left: Scored, right: Scored): int {
    if right.overlap != left.overlap then right.overlap - left.overlap
    else right.timestamp - left.timestamp
  }

  /** The order the stable sort leaves the candidates in: by the
      comparator, and by original position between equals. */
  predicate Precedes(items: seq<Scored>, i: nat, j: nat)
    requires i < |items| && j < |items|
  {
    Compare(items[i], items[j]) < 0 || (Compare(items[i], items[j]) == 0 && i < j)
  }

  lemma PrecedesOrder(items: seq<Scored>, i: nat, j: nat, k: nat)
    requires i < |items| && j < |items| && k < |items|
    ensures !Precedes(items, i, i)
    ensures i != j ==> Precedes(items, i, j) || Precedes(items, j, i)
    ensures Precedes(items, i, j) && Precedes(items, j, k) ==> Precedes(items, i, k)
  {
  }

  predicate InRange(items: seq<Scored>, s: seq<nat>) {
    forall a :: 0 <= a < |s| ==> s[a] < |items|
  }

  predicate Sorted(items: seq<Scored>, s: seq<nat>)
    requires InRange(items, s)
  {
    forall a, b :: 0 <= a < b < |s| ==> Precedes(items, s[a], s[b])
  }

  lemma SortedFront(items: seq<Scored>, i: nat, s: seq<nat>)
    requires i < |items| && InRange(items, s) && Sorted(items, s)
    requires |s| > 0 && Precedes(items, i, s[0])
    ensures InRange(items, [i] + s) && Sorted(items, [i] + s)
  {
    forall b | 0 <= b < |s|
      ensures Precedes(items, i, s[b])
    {
      PrecedesOrder(items, i, s[0], s[b]);
    }
  }

  lemma SortedBehind(items: seq<Scored>, x: nat, i: nat, rest: seq<nat>, tail: seq<nat>)
    requires x < |items| && i < |items| && InRange(items, rest) && Sorted(items, rest) && InRange(items, tail)
    requires x != i && !Precedes(items, i, x)
    requires forall b :: 0 <= b < |tail| ==> Precedes(items, x, tail[b])
    requires multiset(rest) == multiset(tail) + multiset{i}
    ensures InRange(items, [x] + rest) && Sorted(items, [x] + rest)
  {
    PrecedesOrder(items, x, i, x);
    forall b | 0 <= b < |rest|
      ensures Precedes(items, x, rest[b])
    {
      assert rest[b] in multiset(rest);
      if rest[b] != i {
        assert rest[b] in multiset(tail);
        var c :| 0 <= c < |tail| && tail[c] == rest[b];
      }
    }
  }

  /** Position `i` placed before the first position it precedes. */
  function Insert(items: seq<Scored>, i: nat, s: seq<nat>): (r: seq<nat>)
    requires i < |items| && InRange(items, s) && Sorted(items, s)
    requires i !in s
    ensures InRange(items, r) && Sorted(items, r)
    ensures multiset(r) == multiset(s) + multiset{i}
    decreases |s|
  {
    if |s| == 0 then [i]
    else if Precedes(items, i, s[0]) then
      SortedFront(items, i, s);
      [i] + s
    else
      assert s == [s[0]] + s[1..];
      var rest := Insert(items, i, s[1..]);
      SortedBehind(items, s[0], i, rest, s[1..]);
      [s[0]] + rest
  }

  /** Positions `0..n-1` of the candidates. */
  function Positions(n: nat): (s: seq<nat>)
    ensures |s| == n && forall a :: 0 <= a < n ==> s[a] == a
  {
    seq(n, a => a)
  }

  /** The sorted positions `0..n-1`, each inserted in turn, as a stable
      insertion sort does. */
  function SortPositions(items: seq<Scored>, n: nat): (r: seq<nat>)
    requires n <= |items|
    ensures InRange(items, r) && Sorted(items, r)
    ensures multiset(r) == multiset(Positions(n))
    decreases n
  {
    if n == 0 then []
    else
      assert Positions(n) == Positions(n - 1) + [n - 1];
      var s := SortPositions(items, n - 1);
      assert n - 1 !in multiset(s) by {
        assert n - 1 !in Positions(n - 1);
      }
      Insert(items, n - 1, s)
  }

  /** The order in which the sort leaves the candidates. */
  function Order(items: seq<Scored>): seq<nat> {
    SortPositions(items, |items|)
  }

  /** `scored.sort(...)`, read back as posts. */
  function Ranked(items: seq<Scored>): (ranked: seq<Post>)
    ensures |ranked| == |Order(items)|
    ensures forall a :: 0 <= a < |ranked| ==> ranked[a] == items[Order(items)[a]].post
  {
    var order := Order(items);
    seq(|order|, a requires 0 <= a < |order| => items[order[a]].post)
  }

  /** The sort visits every candidate position exactly once: its order is
      a permutation of the positions. */
  lemma OrderIsPermutation(items: seq<Scored>)
    ensures |Order(items)| == |items|
    ensures multiset(Order(items)) == multiset(Positions(|items|))
    ensures forall k :: 0 <= k < |items| ==> k in Order(items)
  {
    var order := Order(items);
    assert |order| == |multiset(order)| == |multiset(Positions(|items|))| == |items|;
    forall k | 0 <= k < |items|
      ensures k in order
    {
      assert Positions(|items|)[k] == k;
      assert k in multiset(Positions(|items|));
    }
  }

  /** The sorted candidates are a reordering of the candidates, each post
      taken from its position; along the result the comparator never goes
      up, and between equal candidates the earlier one stays first. */
  lemma RankedOrder(items: seq<Scored>)
    ensures var order := Order(items);
      |order| == |items| && |Ranked(items)| == |items| &&
      multiset(order) == multiset(Positions(|items|)) &&
      (forall a :: 0 <= a < |order| ==> order[a] < |items| && Ranked(items)[a] == items[order[a]].post) &&
      (forall a, b :: 0 <= a < b < |order| ==>
        Compare(items[order[a]], items[order[b]]) <= 0 &&
        (Compare(items[order[a]], items[order[b]]) == 0 ==> order[a] < order[b]))
  {
    OrderIsPermutation(items);
  }

  /** The sorted candidates are the candidates' posts. */
  lemma RankedMembers(items: seq<Scored>)
    ensures forall a :: 0 <= a < |Ranked(items)| ==> exists k :: 0 <= k < |items| && Ranked(items)[a] == items[k].post
    ensures forall k :: 0 <= k < |items| ==> items[k].post in Ranked(items)
  {
    var order := Order(items);
    var ranked := Ranked(items);
    OrderIsPermutation(items);
    forall a | 0 <= a < |ranked|
      ensures exists k :: 0 <= k < |items| && ranked[a] == items[k].post
    {
      assert ranked[a] == items[order[a]].post;
    }
    forall k | 0 <= k < |items|
      ensures items[k].post in ranked
    {
      assert k in order;
      var a :| 0 <= a < |order| && order[a] == k;
      assert ranked[a] == items[k].post;
    }
  }

  /** Ranking is by overlap then timestamp, for posts as for candidates. */
  predicate AtLeast(current: Post, p: Post, q: Post) {
    Compare(ScoreOf(p, current), ScoreOf(q, current)) <= 0
  }

  lemma RankedSorted(items: seq<Scored>, current: Post)
    requires forall k :: 0 <= k < |items| ==> items[k] == ScoreOf(items[k].post, current)
    ensures forall a, b :: 0 <= a < b < |Ranked(items)| ==> AtLeast(current, Ranked(items)[a], Ranked(items)[b])
  {
    RankedOrder(items);
  }

  // ---------------------------------------------------------------------
  // Filling
  // ---------------------------------------------------------------------

  /** One `forEach` over candidates: a candidate joins while fewer than
      `maxItems` are selected, when it is open. The source's tag pass does
      not test for the current post, but no tag candidate is the current
      post, so the one test serves both passes. */
  function Fill(taken: seq<Post>, cands: seq<Post>, current: Post, maxItems: nat): (s: seq<Post>)
    ensures |taken| <= |s| && s[..|taken|] == taken
    ensures forall i :: |taken| <= i < |s| ==> s[i] in cands && s[i].id != current.id
    ensures |s| <= |taken| || |s| <= maxItems
    ensures forall i :: 0 <= i < |taken| ==> s[i] == taken[i]
    ensures |s| < maxItems ==> forall c :: c in cands && c.id != current.id ==> c.id in Ids(s)
    decreases |cands|
  {
    if |cands| == 0 then taken
    else
      var init := cands[..|cands| - 1];
      var c := cands[|cands| - 1];
      assert cands == init + [c];
      var s := Fill(taken, init, current, maxItems);
      if |s| >= maxItems then s
      else if Open(c, current, s) then
        IdsSnoc(s, c);
        assert (s + [c])[..|taken|] == s[..|taken|];
        s + [c]
      else s
  }

  lemma FillSnoc(taken: seq<Post>, init: seq<Post>, c: Post, current: Post, maxItems: nat)
    ensures Fill(taken, init + [c], current, maxItems) ==
      var s := Fill(taken, init, current, maxItems);
      if |s| >= maxItems then s else if Open(c, current, s) then s + [c] else s
  {
    assert (init + [c])[..|init|] == init;
  }

  lemma {:induction false} FillValid(taken: seq<Post>, cands: seq<Post>, current: Post, maxItems: nat, posts: seq<Post>)
    requires Valid(taken, posts, current)
    requires forall c :: c in cands ==> c in posts
    ensures Valid(Fill(taken, cands, current, maxItems), posts, current)
    decreases |cands|
  {
    if |cands| > 0 {
      var init := cands[..|cands| - 1];
      var c := cands[|cands| - 1];
      assert cands == init + [c];
      FillValid(taken, init, current, maxItems, posts);
      var s := Fill(taken, init, current, maxItems);
      if |s| < maxItems && Open(c, current, s) {
        AppendOpen(s, c, posts, current);
      }
    }
  }

  /** Every id taken before filling stays taken. */
  lemma FillKeepsIds(taken: seq<Post>, cands: seq<Post>, current: Post, maxItems: nat)
    ensures forall id :: id in Ids(taken) ==> id in Ids(Fill(taken, cands, current, maxItems))
  {
    var s := Fill(taken, cands, current, maxItems);
    forall id | id in Ids(taken)
      ensures id in Ids(s)
    {
      var i :| 0 <= i < |taken| && Ids(taken)[i] == id;
      assert Ids(s)[i] == id;
    }
  }

  /** `x` comes before `y` in `cands`. */
  predicate InOrder(cands: seq<Post>, x: Post, y: Post) {
    exists a, b :: 0 <= a < b < |cands| && x == cands[a] && y == cands[b]
  }

  lemma InOrderSnoc(init: seq<Post>, c: Post, x: Post, y: Post)
    requires InOrder(init, x, y)
    ensures InOrder(init + [c], x, y)
  {
    var a, b :| 0 <= a < b < |init| && x == init[a] && y == init[b];
    assert (init + [c])[a] == x && (init + [c])[b] == y;
  }

  lemma InOrderLast(init: seq<Post>, c: Post, x: Post)
    requires x in init
    ensures InOrder(init + [c], x, c)
  {
    var a :| 0 <= a < |init| && init[a] == x;
    assert (init + [c])[a] == x && (init + [c])[|init|] == c;
  }

  /** The posts a pass adds keep the order of the candidate list. */
  lemma {:induction false} FillOrder(taken: seq<Post>, cands: seq<Post>, current: Post, maxItems: nat)
    ensures forall i, j :: |taken| <= i < j < |Fill(taken, cands, current, maxItems)| ==>
      InOrder(cands, Fill(taken, cands, current, maxItems)[i], Fill(taken, cands, current, maxItems)[j])
    decreases |cands|
  {
    if |cands| > 0 {
      var init := cands[..|cands| - 1];
      var c := cands[|cands| - 1];
      assert cands == init + [c];
      FillOrder(taken, init, current, maxItems);
      var s0 := Fill(taken, init, current, maxItems);
      var s := Fill(taken, cands, current, maxItems);
      forall i, j | |taken| <= i < j < |s|
        ensures InOrder(cands, s[i], s[j])
      {
        assert s[i] == s0[i];
        if j < |s0| {
          assert s[j] == s0[j];
          assert |taken| <= i < j < |s0|;
          assert InOrder(init, s0[i], s0[j]);
          InOrderSnoc(init, c, s0[i], s0[j]);
        } else {
          assert s[j] == c && i < |s0|;
          assert s0[i] in init;
          InOrderLast(init, c, s0[i]);
        }
      }
    }
  }

  /** A pass over the first `j` candidates is where the pass over all of
      them starts: it only ever appends. */
  lemma {:induction false} FillPrefix(taken: seq<Post>, cands: seq<Post>, current: Post, maxItems: nat, j: nat)
    requires j <= |cands|
    ensures var s := Fill(taken, cands, current, maxItems);
      var p := Fill(taken, cands[..j], current, maxItems);
      |p| <= |s| && s[..|p|] == p
    decreases |cands|
  {
    if j < |cands| {
      var init := cands[..|cands| - 1];
      assert cands == init + [cands[|cands| - 1]];
      assert init[..j] == cands[..j];
      FillPrefix(taken, init, current, maxItems, j);
      var p := Fill(taken, cands[..j], current, maxItems);
      var s0 := Fill(taken, init, current, maxItems);
      var s := Fill(taken, cands, current, maxItems);
      assert s[..|s0|] == s0;
      assert s[..|p|] == s0[..|p|];
    } else {
      assert cands[..j] == cands;
    }
  }

  /** An open candidate that a pass does not take was passed over only
      because the selection was already full when its turn came: the pass
      takes the first open candidates, in order. */
  lemma SkippedOnlyWhenFull(taken: seq<Post>, cands: seq<Post>, current: Post, maxItems: nat, a: nat)
    requires a < |cands| && cands[a].id != current.id
    requires cands[a].id !in Ids(Fill(taken, cands, current, maxItems))
    ensures |Fill(taken, cands[..a], current, maxItems)| >= maxItems
  {
    var q := Fill(taken, cands[..a + 1], current, maxItems);
    FillPrefix(taken, cands, current, maxItems, a + 1);
    IdsOfPrefix(q, Fill(taken, cands, current, maxItems));
    assert cands[a].id !in Ids(q);
    TakenAt(taken, cands, current, maxItems, a);
  }

  /** `TakenWhenRoom` for the candidate at position `a`. */
  lemma TakenAt(taken: seq<Post>, cands: seq<Post>, current: Post, maxItems: nat, a: nat)
    requires a < |cands|
    ensures |Fill(taken, cands[..a], current, maxItems)| < maxItems && cands[a].id != current.id ==>
      cands[a].id in Ids(Fill(taken, cands[..a + 1], current, maxItems))
  {
    assert cands[..a + 1] == cands[..a] + [cands[a]];
    TakenWhenRoom(taken, cands[..a], cands[a], current, maxItems);
  }

  /** A candidate whose turn comes while there is room ends up taken. */
  lemma TakenWhenRoom(taken: seq<Post>, init: seq<Post>, c: Post, current: Post, maxItems: nat)
    ensures |Fill(taken, init, current, maxItems)| < maxItems && c.id != current.id ==>
      c.id in Ids(Fill(taken, init + [c], current, maxItems))
  {
    var p := Fill(taken, init, current, maxItems);
    FillSnoc(taken, init, c, current, maxItems);
    IdsSnoc(p, c);
  }

  lemma IdsOfPrefix(q: seq<Post>, s: seq<Post>)
    requires |q| <= |s| && s[..|q|] == q
    ensures forall x :: x in Ids(q) ==> x in Ids(s)
  {
    assert forall i :: 0 <= i < |q| ==> Ids(s)[i] == Ids(q)[i];
  }

  // ---------------------------------------------------------------------
  // The selector
  // ---------------------------------------------------------------------

  /** The explicit tier of `current`. */
  function ExplicitTier(posts: seq<Post>, current: Post): seq<Post> {
    Explicit(posts, current, current.relatedIds)
  }

  /** The tag candidates of `current`, sorted. */
  function TagCandidates(posts: seq<Post>, current: Post): seq<Post> {
    Ranked(Score(posts, current, ExplicitTier(posts, current)))
  }

  /** The explicit tier followed by the tag tier. */
  function TagTier(posts: seq<Post>, current: Post, maxItems: nat): seq<Post> {
    Fill(ExplicitTier(posts, current), TagCandidates(posts, current), current, maxItems)
  }

  /** All three tiers, before the final cut. */
  function AllTiers(posts: seq<Post>, current: Post, maxItems: nat): seq<Post> {
    Fill(TagTier(posts, current, maxItems), posts, current, maxItems)
  }

  lemma AllTiersValid(posts: seq<Post>, current: Post, maxItems: nat)
    ensures Valid(TagTier(posts, current, maxItems), posts, current)
    ensures Valid(AllTiers(posts, current, maxItems), posts, current)
  {
    var e := ExplicitTier(posts, current);
    var items := Score(posts, current, e);
    ScoreCandidates(posts, current, e);
    RankedMembers(items);
    FillValid(e, TagCandidates(posts, current), current, maxItems, posts);
    FillValid(TagTier(posts, current, maxItems), posts, current, maxItems, posts);
  }

  lemma ValidPrefix(s: seq<Post>, n: nat, posts: seq<Post>, current: Post)
    requires Valid(s, posts, current) && n <= |s|
    ensures Valid(s[..n], posts, current)
  {
    assert Ids(s[..n]) == Ids(s)[..n];
  }

  /** `selectRelatedPosts(posts, currentPost, maxItems)`. */
  function SelectRelated(posts: seq<Post>, current: Post, maxItems: nat): (r: seq<Post>)
    ensures |r| <= maxItems
    ensures Valid(r, posts, current)
  {
    var all := AllTiers(posts, current, maxItems);
    AllTiersValid(posts, current, maxItems);
    ValidPrefix(all, Min(maxItems, |all|), posts, current);
    all[..Min(maxItems, |all|)]
  }

  /** The result starts with the explicit tier, cut at `maxItems`. */
  lemma SelectExplicitFirst(posts: seq<Post>, current: Post, maxItems: nat)
    ensures var e := ExplicitTier(posts, current);
      var r := SelectRelated(posts, current, maxItems);
      var n := Min(|e|, maxItems);
      n <= |r| && r[..n] == e[..n]
  {
  }

  /** After the explicit tier come only posts that share a tag with the
      current one. */
  lemma TagTierShares(posts: seq<Post>, current: Post, maxItems: nat)
    ensures var e := ExplicitTier(posts, current);
      var t := TagTier(posts, current, maxItems);
      |e| <= |t| && forall i :: |e| <= i < |t| ==> Overlap(t[i].tags, current.tags) > 0
  {
    var e := ExplicitTier(posts, current);
    var items := Score(posts, current, e);
    ScoreCandidates(posts, current, e);
    var ranked := TagCandidates(posts, current);
    var t := TagTier(posts, current, maxItems);
    RankedMembers(items);
    forall i | |e| <= i < |t|
      ensures Overlap(t[i].tags, current.tags) > 0
    {
      assert t[i] in ranked;
      var a :| 0 <= a < |ranked| && ranked[a] == t[i];
      var k :| 0 <= k < |items| && ranked[a] == items[k].post;
    }
  }

  /** The tag tier runs by overlap and then timestamp, both descending. */
  lemma TagTierOrder(posts: seq<Post>, current: Post, maxItems: nat)
    ensures var e := ExplicitTier(posts, current);
      var t := TagTier(posts, current, maxItems);
      forall i, j :: |e| <= i < j < |t| ==> AtLeast(current, t[i], t[j])
  {
    var e := ExplicitTier(posts, current);
    var items := Score(posts, current, e);
    ScoreCandidates(posts, current, e);
    var ranked := TagCandidates(posts, current);
    var t := TagTier(posts, current, maxItems);
    RankedSorted(items, current);
    FillOrder(e, ranked, current, maxItems);
    forall i, j | |e| <= i < j < |t|
      ensures AtLeast(current, t[i], t[j])
    {
      assert InOrder(ranked, t[i], t[j]);
      var a, b :| 0 <= a < b < |ranked| && t[i] == ranked[a] && t[j] == ranked[b];
    }
  }

  /** When the tag tier leaves room, every other post sharing a tag has its
      id taken by then. */
  lemma TagTierComplete(posts: seq<Post>, current: Post, maxItems: nat, p: Post)
    requires p in posts && p.id != current.id && Overlap(p.tags, current.tags) > 0
    requires |TagTier(posts, current, maxItems)| < maxItems
    ensures p.id in Ids(TagTier(posts, current, maxItems))
  {
    var e := ExplicitTier(posts, current);
    var items := Score(posts, current, e);
    ScoreCandidates(posts, current, e);
    var ranked := TagCandidates(posts, current);
    FillKeepsIds(e, ranked, current, maxItems);
    if p.id !in Ids(e) {
      var k :| 0 <= k < |items| && items[k] == ScoreOf(p, current);
      RankedMembers(items);
      assert p in ranked;
    }
  }

  /** A post added by a pass had an id not taken before the pass. */
  lemma FillAddsNew(taken: seq<Post>, cands: seq<Post>, current: Post, maxItems: nat, i: nat)
    requires Distinct(Ids(Fill(taken, cands, current, maxItems)))
    requires |taken| <= i < |Fill(taken, cands, current, maxItems)|
    ensures Fill(taken, cands, current, maxItems)[i].id !in Ids(taken)
  {
    var s := Fill(taken, cands, current, maxItems);
    forall j | 0 <= j < |taken|
      ensures Ids(taken)[j] != s[i].id
    {
      assert Ids(s)[j] == Ids(taken)[j];
    }
  }

  /** After the tag tier come only posts that share no tag, in corpus
      order. */
  lemma FillTierOrder(posts: seq<Post>, current: Post, maxItems: nat)
    ensures var t := TagTier(posts, current, maxItems);
      var r := SelectRelated(posts, current, maxItems);
      (forall i :: |t| <= i < |r| ==> Overlap(r[i].tags, current.tags) == 0) &&
      (forall i, j :: |t| <= i < j < |r| ==> InOrder(posts, r[i], r[j]))
  {
    var t := TagTier(posts, current, maxItems);
    var all := AllTiers(posts, current, maxItems);
    var r := SelectRelated(posts, current, maxItems);
    assert forall i :: 0 <= i < |r| ==> r[i] == all[i];
    FillOrder(t, posts, current, maxItems);
    AllTiersValid(posts, current, maxItems);
    forall i | |t| <= i < |r|
      ensures Overlap(r[i].tags, current.tags) == 0
    {
      FillAddsNew(t, posts, current, maxItems, i);
      if Overlap(all[i].tags, current.tags) > 0 {
        TagTierComplete(posts, current, maxItems, all[i]);
      }
    }
    forall i, j | |t| <= i < j < |r|
      ensures InOrder(posts, r[i], r[j])
    {
      assert InOrder(posts, all[i], all[j]);
    }
  }

  /** The ids of the posts other than the current one. */
  function OtherIds(posts: seq<Post>, current: Post): set<string> {
    set p | p in posts && p.id != current.id :: p.id
  }

  lemma SubsetCard(a: set<string>, b: set<string>)
    requires a <= b
    ensures |a| <= |b|
  {
    assert b == a + (b - a);
    assert a * (b - a) == {};
  }

  /** The list is as long as it can be: `maxItems` posts, or one post per
      other id when there are fewer. */
  lemma SelectLength(posts: seq<Post>, current: Post, maxItems: nat)
    ensures |SelectRelated(posts, current, maxItems)| == Min(maxItems, |OtherIds(posts, current)|)
  {
    var all := AllTiers(posts, current, maxItems);
    AllTiersValid(posts, current, maxItems);
    var others := OtherIds(posts, current);
    DistinctCard(Ids(all));
    assert Elems(Ids(all)) <= others by {
      forall x | x in Elems(Ids(all))
        ensures x in others
      {
        var i :| 0 <= i < |all| && Ids(all)[i] == x;
        assert all[i] in posts;
      }
    }
    SubsetCard(Elems(Ids(all)), others);
    if |all| < maxItems {
      assert others <= Elems(Ids(all));
      SubsetCard(others, Elems(Ids(all)));
    }
  }

  /** With every id used once, the bound counts posts: `maxItems` or all
      the other posts. */
  lemma OtherIdsOfUniqueIds(posts: seq<Post>, current: Post)
    requires Distinct(Ids(posts))
    requires current in posts
    ensures |OtherIds(posts, current)| == |posts| - 1
  {
    DistinctCard(Ids(posts));
    assert Elems(Ids(posts)) == OtherIds(posts, current) + {current.id} by {
      forall x | x in Elems(Ids(posts))
        ensures x in OtherIds(posts, current) + {current.id}
      {
        var i :| 0 <= i < |posts| && Ids(posts)[i] == x;
        assert posts[i] in posts;
      }
    }
    assert current.id !in OtherIds(posts, current);
  }

  /** The situation of the example below: `a` lists `d`; `b` and `c` share
      tags with `a`, `b` ranking higher. */
  predicate Scenario(a: Post, b: Post, c: Post, d: Post) {
    a.id != b.id && a.id != c.id && a.id != d.id && b.id != c.id && b.id != d.id && c.id != d.id &&
    a.relatedIds == [d.id] &&
    Overlap(b.tags, a.tags) > 0 && Overlap(c.tags, a.tags) > 0 &&
    Compare(ScoreOf(b, a), ScoreOf(c, a)) < 0
  }

  lemma ScenarioExplicit(a: Post, b: Post, c: Post, d: Post)
    requires Scenario(a, b, c, d)
    ensures ExplicitTier([a, b, c, d], a) == [d]
  {
    var posts := [a, b, c, d];
    ByIdIsLast(posts, d.id, 3);
    assert a.relatedIds[..0] == [];
  }

  lemma ScoreSnoc(init: seq<Post>, p: Post, current: Post, taken: seq<Post>)
    ensures Score(init + [p], current, taken) ==
      if Open(p, current, taken) && Overlap(p.tags, current.tags) > 0 then Score(init, current, taken) + [ScoreOf(p, current)]
      else Score(init, current, taken)
  {
    assert (init + [p])[..|init|] == init;
  }

  lemma ScenarioScore(a: Post, b: Post, c: Post, d: Post)
    requires Scenario(a, b, c, d)
    ensures Score([a, b, c, d], a, [d]) == [ScoreOf(b, a), ScoreOf(c, a)]
  {
    var p1 := [a];
    var p2 := p1 + [b];
    var p3 := p2 + [c];
    var p4 := p3 + [d];
    assert [] + [a] == p1;
    ScenarioScoreSteps(p1, p2, p3, p4, a, b, c, d);
    assert p4 == [a, b, c, d];
  }

  /** The four scoring steps of the example, over prefixes named by the
      caller. */
  lemma ScenarioScoreSteps(p1: seq<Post>, p2: seq<Post>, p3: seq<Post>, p4: seq<Post>, a: Post, b: Post, c: Post, d: Post)
    requires Scenario(a, b, c, d)
    requires p1 == [] + [a] && p2 == p1 + [b] && p3 == p2 + [c] && p4 == p3 + [d]
    ensures Score(p4, a, [d]) == [ScoreOf(b, a), ScoreOf(c, a)]
  {
    assert Ids([d]) == [d.id];
    ScenarioScoreFront(p1, p2, a, b, c, d);
    ScenarioScoreBack(p2, p3, p4, a, b, c, d, [ScoreOf(b, a)]);
  }

  /** The current post scores nothing, and `b` is scored. */
  lemma ScenarioScoreFront(p1: seq<Post>, p2: seq<Post>, a: Post, b: Post, c: Post, d: Post)
    requires Scenario(a, b, c, d) && Ids([d]) == [d.id]
    requires p1 == [] + [a] && p2 == p1 + [b]
    ensures Score(p2, a, [d]) == [ScoreOf(b, a)]
  {
    ScoreSnoc([], a, a, [d]);
    ScoreSnoc(p1, b, a, [d]);
  }

  /** `c` is scored after what came before it, and the taken `d` is not. */
  lemma ScenarioScoreBack(p2: seq<Post>, p3: seq<Post>, p4: seq<Post>, a: Post, b: Post, c: Post, d: Post, s: seq<Scored>)
    requires Scenario(a, b, c, d) && Ids([d]) == [d.id]
    requires p3 == p2 + [c] && p4 == p3 + [d] && Score(p2, a, [d]) == s
    ensures Score(p4, a, [d]) == s + [ScoreOf(c, a)]
  {
    ScoreSnoc(p2, c, a, [d]);
    ScoreSnoc(p3, d, a, [d]);
  }

  lemma ScenarioOrder(items: seq<Scored>)
    requires |items| == 2 && Compare(items[0], items[1]) < 0
    ensures Order(items) == [0, 1]
  {
    assert Insert(items, 0, []) == [0];
    assert SortPositions(items, 1) == [0];
    assert Insert(items, 1, [0]) == [0, 1];
  }

  lemma ScenarioTagCandidates(a: Post, b: Post, c: Post, d: Post)
    requires Scenario(a, b, c, d)
    ensures TagCandidates([a, b, c, d], a) == [b, c]
  {
    ScenarioExplicit(a, b, c, d);
    ScenarioScore(a, b, c, d);
    var items := Score([a, b, c, d], a, [d]);
    ScenarioOrder(items);
  }

  lemma ScenarioFirstFill(a: Post, b: Post, c: Post, d: Post)
    requires Scenario(a, b, c, d)
    ensures Fill([d], [b], a, 3) == [d, b]
  {
    assert Ids([d]) == [d.id];
    assert Open(b, a, [d]);
    FillSnoc([d], [], b, a, 3);
    assert [] + [b] == [b];
  }

  lemma ScenarioSecondFill(a: Post, b: Post, c: Post, d: Post)
    requires Scenario(a, b, c, d)
    ensures Fill([d], [b, c], a, 3) == [d, b, c]
  {
    ScenarioFirstFill(a, b, c, d);
    var s := [d, b];
    assert Ids(s) == [d.id, b.id];
    assert Open(c, a, s);
    FillSnoc([d], [b], c, a, 3);
    assert [b] + [c] == [b, c];
  }

  lemma ScenarioTagTier(a: Post, b: Post, c: Post, d: Post)
    requires Scenario(a, b, c, d)
    ensures TagTier([a, b, c, d], a, 3) == [d, b, c]
  {
    ScenarioExplicit(a, b, c, d);
    ScenarioTagCandidates(a, b, c, d);
    ScenarioSecondFill(a, b, c, d);
  }

  /** In that situation the listed post comes first, then the two posts
      sharing tags, the higher ranked first. */
  lemma SelectScenario(a: Post, b: Post, c: Post, d: Post)
    requires Scenario(a, b, c, d)
    ensures SelectRelated([a, b, c, d], a, 3) == [d, b, c]
  {
    ScenarioTagTier(a, b, c, d);
  }

  /** A post with only the fields the selector reads. */
  function Stub(id: string, tags: seq<string>, relatedIds: seq<string>, timestamp: int): Post {
    Post(id, map[], "", "", "", [], "uncategorized", tags, None, relatedIds, 1, timestamp)
  }

  /** Post `a`, tagged `x` and `y`, lists `d`; `b` (tagged `x`, newer) and
      `c` (tagged `y`, older) follow `d`, the newer first. */
  lemma SelectExample()
    ensures var a := Stub("a", ["x", "y"], ["d"], 4);
      var b := Stub("b", ["x"], [], 2);
      var c := Stub("c", ["y"], [], 1);
      var d := Stub("d", [], [], 3);
      SelectRelated([a, b, c, d], a, 3) == [d, b, c]
  {
    var a := Stub("a", ["x", "y"], ["d"], 4);
    var b := Stub("b", ["x"], [], 2);
    var c := Stub("c", ["y"], [], 1);
    var d := Stub("d", [], [], 3);
    assert Overlap(b.tags, a.tags) == 1;
    assert Overlap(c.tags, a.tags) == 1;
    SelectScenario(a, b, c, d);
  }

  // ---------------------------------------------------------------------
  // Corpus
  // ---------------------------------------------------------------------

  /** A post with the posts linked from its "see also" section. */
  datatype Linked = Linked(post: Post, related: seq<Post>)

  /** `posts.forEach((post) => { post.relatedPosts = selectRelatedPosts(posts,
      post, 3); })`, over the corpus as already sorted. */
  function LinkCorpus(posts: seq<Post>): (pages: seq<Linked>)
    ensures |pages| == |posts|
    ensures forall i :: 0 <= i < |posts| ==>
      pages[i].post == posts[i] && |pages[i].related| <= 3 && Valid(pages[i].related, posts, posts[i])
  {
    seq(|posts|, i requires 0 <= i < |posts| => Linked(posts[i], SelectRelated(posts, posts[i], 3)))
  }
}
