/** The homepage grouping of the generator (`getOrderedCategoryGroups` in
    generate-static-posts.mjs): one group per named category that has
    posts, in display order, then one group for every other post. */
module Groups {
  import opened Text
  import opened Posts
  import opened Normalize

  /** A group: its key, the label shown for it (`label` in the source) and
      its posts. */
  datatype Group = Group(key: string, caption: string, posts: seq<Post>)

  /** Does `p` go in the group `key`: a named category holds the posts of
      that category, `uncategorized` every post whose category is not
      named. */
  predicate Belongs(p: Post, key: string) {
    if key in CategoryOrder then p.category == key else p.category !in CategoryOrder
  }

  /** `posts.filter(...)` for the group `key`, in corpus order. */
  function Members(posts: seq<Post>, key: string): (m: seq<Post>)
    ensures |m| <= |posts|
    decreases |posts|
  {
    if |posts| == 0 then []
    else
      var rest := Members(posts[1..], key);
      if Belongs(posts[0], key) then [posts[0]] + rest else rest
  }

  lemma MembersCons(p: Post, rest: seq<Post>, key: string)
    ensures Members([p] + rest, key) == (if Belongs(p, key) then [p] else []) + Members(rest, key)
  {
    assert ([p] + rest)[1..] == rest;
  }

  /** The members of a group are the posts that belong in it, each kept
      where it stands in the corpus. */
  lemma {:induction false} MembersInOrder(posts: seq<Post>, key: string)
    ensures IsSubseq(Members(posts, key), posts)
    ensures forall i :: 0 <= i < |Members(posts, key)| ==> Belongs(Members(posts, key)[i], key)
    ensures forall p :: p in posts && Belongs(p, key) ==> p in Members(posts, key)
    decreases |posts|
  {
    if |posts| > 0 {
      MembersInOrder(posts[1..], key);
      var rest := Members(posts[1..], key);
      assert [posts[0]] + posts[1..] == posts;
      assert forall p :: p in posts ==> p == posts[0] || p in posts[1..];
      if Belongs(posts[0], key) {
        SubseqCons(posts[0], rest, posts[1..]);
      } else if |rest| > 0 {
        SubseqWeaken(rest, posts[0], posts[1..]);
      }
    }
  }

  /** One group per key that has members, in the order of `keys`. */
  function KeyedGroups(posts: seq<Post>, keys: seq<string>): (gs: seq<Group>)
    decreases |keys|
  {
    if |keys| == 0 then []
    else
      var m := Members(posts, keys[0]);
      var rest := KeyedGroups(posts, keys[1..]);
      (if |m| > 0 then [Group(keys[0], CategoryLabel(keys[0]), m)] else []) + rest
  }

  /** Each group has posts, its label, and the members of its key. */
  predicate WellFormed(g: Group, posts: seq<Post>) {
    |g.posts| > 0 && g.caption == CategoryLabel(g.key) && g.posts == Members(posts, g.key)
  }

  /** The keys of some groups. */
  function Keys(gs: seq<Group>): (ks: seq<string>)
    ensures |ks| == |gs| && forall i :: 0 <= i < |gs| ==> ks[i] == gs[i].key
  {
    seq(|gs|, i requires 0 <= i < |gs| => gs[i].key)
  }

  /** The keyed groups are well formed. */
  lemma {:induction false} KeyedGroupsWellFormed(posts: seq<Post>, keys: seq<string>)
    ensures forall i :: 0 <= i < |KeyedGroups(posts, keys)| ==> WellFormed(KeyedGroups(posts, keys)[i], posts)
    decreases |keys|
  {
    if |keys| > 0 {
      KeyedGroupsWellFormed(posts, keys[1..]);
    }
  }

  /** The keys of the keyed groups are the keys with members, in order. */
  lemma {:induction false} KeyedGroupsKeys(posts: seq<Post>, keys: seq<string>)
    ensures IsSubseq(Keys(KeyedGroups(posts, keys)), keys)
    ensures forall k :: k in Keys(KeyedGroups(posts, keys)) <==> k in keys && |Members(posts, k)| > 0
    decreases |keys|
  {
    if |keys| > 0 {
      var m := Members(posts, keys[0]);
      var rest := KeyedGroups(posts, keys[1..]);
      KeyedGroupsKeys(posts, keys[1..]);
      assert keys == [keys[0]] + keys[1..];
      if |m| > 0 {
        var g := Group(keys[0], CategoryLabel(keys[0]), m);
        assert Keys([g] + rest) == [keys[0]] + Keys(rest);
        SubseqCons(keys[0], Keys(rest), keys[1..]);
      } else {
        assert KeyedGroups(posts, keys) == rest;
        if |Keys(rest)| > 0 {
          SubseqWeaken(Keys(rest), keys[0], keys[1..]);
        }
      }
    }
  }

  /** Every group key of the homepage, in display order. */
  const GroupKeys: seq<string> := CategoryOrder + [Uncategorized]

  /** `getOrderedCategoryGroups(posts)`. */
  function CategoryGroups(posts: seq<Post>): (groups: seq<Group>)
    ensures forall i :: 0 <= i < |groups| ==> groups[i].key in GroupKeys && WellFormed(groups[i], posts)
  {
    var named := KeyedGroups(posts, CategoryOrder);
    KeyedGroupsWellFormed(posts, CategoryOrder);
    KeyedGroupsKeys(posts, CategoryOrder);
    var rest := Members(posts, Uncategorized);
    named + (if |rest| > 0 then [Group(Uncategorized, CategoryLabel(Uncategorized), rest)] else [])
  }

  // ---------------------------------------------------------------------
  // Properties
  // ---------------------------------------------------------------------

  lemma {:induction false} SubseqAppend<T>(a: seq<T>, b: seq<T>, x: T)
    requires IsSubseq(a, b)
    ensures IsSubseq(a + [x], b + [x])
    ensures IsSubseq(a, b + [x])
    decreases |b|
  {
    if |b| == 0 {
      assert a == [];
      assert ([x])[1..] == [];
    } else {
      assert (b + [x])[1..] == b[1..] + [x];
      if |a| > 0 && a[0] == b[0] {
        SubseqAppend(a[1..], b[1..], x);
        assert (a + [x])[1..] == a[1..] + [x];
      } else {
        SubseqAppend(a, b[1..], x);
        if |a| == 0 {
          assert (a + [x])[0] == x;
          SubseqAppendEmpty(b, x);
        }
      }
    }
  }

  lemma {:induction false} SubseqAppendEmpty<T>(b: seq<T>, x: T)
    ensures IsSubseq([x], b + [x])
    decreases |b|
  {
    if |b| > 0 {
      assert (b + [x])[1..] == b[1..] + [x];
      SubseqAppendEmpty(b[1..], x);
    }
  }

  /** The group keys follow the display order, `uncategorized` last: each
      key at most once. */
  lemma GroupsOrdered(posts: seq<Post>)
    ensures IsSubseq(Keys(CategoryGroups(posts)), GroupKeys)
  {
    var named := KeyedGroups(posts, CategoryOrder);
    KeyedGroupsKeys(posts, CategoryOrder);
    var rest := Members(posts, Uncategorized);
    SubseqAppend(Keys(named), CategoryOrder, Uncategorized);
    if |rest| > 0 {
      var g := Group(Uncategorized, CategoryLabel(Uncategorized), rest);
      assert Keys(named + [g]) == Keys(named) + [Uncategorized];
    } else {
      assert CategoryGroups(posts) == named;
    }
  }

  /** A group is present exactly when some post belongs in it. */
  lemma GroupPresence(posts: seq<Post>, key: string)
    requires key in GroupKeys
    ensures key in Keys(CategoryGroups(posts)) <==> exists p :: p in posts && Belongs(p, key)
  {
    var named := KeyedGroups(posts, CategoryOrder);
    KeyedGroupsKeys(posts, CategoryOrder);
    MembersInOrder(posts, key);
    var m := Members(posts, key);
    var rest := Members(posts, Uncategorized);
    var gs := CategoryGroups(posts);
    assert Uncategorized !in Keys(named);
    if |rest| > 0 {
      var g := Group(Uncategorized, CategoryLabel(Uncategorized), rest);
      assert Keys(gs) == Keys(named) + [Uncategorized];
    } else {
      assert gs == named;
    }
    if |m| > 0 {
      assert m[0] in posts by {
        SubseqMembers(m, posts, 0);
      }
    }
  }

  lemma {:induction false} SubseqMembers<T>(a: seq<T>, b: seq<T>, i: nat)
    requires IsSubseq(a, b) && i < |a|
    ensures a[i] in b
    decreases |b|
  {
    if a[0] == b[0] {
      if i > 0 {
        SubseqMembers(a[1..], b[1..], i - 1);
      }
    } else {
      SubseqMembers(a, b[1..], i);
    }
  }

  /** All posts of some groups, group after group. */
  function Flatten(gs: seq<Group>): seq<Post>
    decreases |gs|
  {
    if |gs| == 0 then [] else gs[0].posts + Flatten(gs[1..])
  }

  /** The members of each key, key after key. */
  function AllMembers(posts: seq<Post>, keys: seq<string>): seq<Post>
    decreases |keys|
  {
    if |keys| == 0 then [] else Members(posts, keys[0]) + AllMembers(posts, keys[1..])
  }

  /** Dropping the empty groups loses no post. */
  lemma {:induction false} KeyedGroupsFlatten(posts: seq<Post>, keys: seq<string>)
    ensures Flatten(KeyedGroups(posts, keys)) == AllMembers(posts, keys)
    decreases |keys|
  {
    if |keys| > 0 {
      KeyedGroupsFlatten(posts, keys[1..]);
      var m := Members(posts, keys[0]);
      var rest := KeyedGroups(posts, keys[1..]);
      if |m| > 0 {
        var g := Group(keys[0], CategoryLabel(keys[0]), m);
        assert ([g] + rest)[1..] == rest;
      } else {
        assert KeyedGroups(posts, keys) == rest;
      }
    }
  }

  lemma {:induction false} FlattenAppend(gs: seq<Group>, g: Group)
    ensures Flatten(gs + [g]) == Flatten(gs) + g.posts
    decreases |gs|
  {
    if |gs| > 0 {
      assert (gs + [g])[1..] == gs[1..] + [g];
      FlattenAppend(gs[1..], g);
    } else {
      assert Flatten([g]) == g.posts + Flatten([]);
    }
  }

  /** The posts of the four group keys, key after key. */
  function ByKey(posts: seq<Post>): seq<Post> {
    Members(posts, Research) + Members(posts, Technical) + Members(posts, Personal) + Members(posts, Uncategorized)
  }

  lemma AllMembersOfGroupKeys(posts: seq<Post>)
    ensures AllMembers(posts, CategoryOrder) + Members(posts, Uncategorized) == ByKey(posts)
  {
    assert CategoryOrder[1..] == [Technical, Personal];
    assert [Technical, Personal][1..] == [Personal];
    assert [Personal][1..] == [];
    assert AllMembers(posts, [Personal]) == Members(posts, Personal);
    assert AllMembers(posts, [Technical, Personal]) == Members(posts, Technical) + Members(posts, Personal);
  }

  lemma MembersConsCount(p: Post, rest: seq<Post>, key: string)
    ensures multiset(Members([p] + rest, key)) == Own(p, key) + multiset(Members(rest, key))
  {
    MembersCons(p, rest, key);
  }

  /** The posts of `key` among the single post `p`. */
  function Own(p: Post, key: string): multiset<Post> {
    if Belongs(p, key) then multiset{p} else multiset{}
  }

  /** A post belongs under exactly one of the four keys. */
  lemma BelongsOnce(p: Post)
    ensures Own(p, Research) + Own(p, Technical) + Own(p, Personal) + Own(p, Uncategorized) == multiset{p}
  {
    assert Research in CategoryOrder && Technical in CategoryOrder && Personal in CategoryOrder;
    assert Uncategorized !in CategoryOrder;
  }

  lemma ByKeyCons(p: Post, rest: seq<Post>)
    ensures multiset(ByKey([p] + rest)) ==
      Own(p, Research) + Own(p, Technical) + Own(p, Personal) + Own(p, Uncategorized) + multiset(ByKey(rest))
  {
    MembersConsCount(p, rest, Research);
    MembersConsCount(p, rest, Technical);
    MembersConsCount(p, rest, Personal);
    MembersConsCount(p, rest, Uncategorized);
  }

  /** The four keys take every post exactly once. */
  lemma {:induction false} MembersPartition(posts: seq<Post>)
    ensures multiset(ByKey(posts)) == multiset(posts)
    decreases |posts|
  {
    if |posts| > 0 {
      var p := posts[0];
      var rest := posts[1..];
      assert posts == [p] + rest;
      MembersPartition(rest);
      ByKeyCons(p, rest);
      BelongsOnce(p);
    }
  }

  /** Every post lands in exactly one group: the groups together are a
      rearrangement of the corpus. */
  lemma GroupsPartition(posts: seq<Post>)
    ensures multiset(Flatten(CategoryGroups(posts))) == multiset(posts)
  {
    var named := KeyedGroups(posts, CategoryOrder);
    var rest := Members(posts, Uncategorized);
    KeyedGroupsFlatten(posts, CategoryOrder);
    AllMembersOfGroupKeys(posts);
    MembersPartition(posts);
    if |rest| > 0 {
      FlattenAppend(named, Group(Uncategorized, CategoryLabel(Uncategorized), rest));
    } else {
      assert CategoryGroups(posts) == named;
    }
  }
}
