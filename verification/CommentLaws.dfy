// Laws of the linearised list: siblings in creation order, idempotence, and independence of the
// order in which comments arrived.
module CommentLaws {
  import opened Wrappers
  import opened Sorting
  import opened Comments

  // ---------------------------------------------------------------- siblings in creation order

  lemma WithParentCons(c: Comment, rest: seq<Comment>, parent: Option<string>)
    ensures WithParent([c] + rest, parent) == (if c.parentId == parent then [c] else []) + WithParent(rest, parent)
  {
    assert ([c] + rest)[1..] == rest;
  }

  lemma {:induction false} WithParentConcat(a: seq<Comment>, b: seq<Comment>, parent: Option<string>)
    ensures WithParent(a + b, parent) == WithParent(a, parent) + WithParent(b, parent)
  {
    if a == [] {
      assert a + b == b;
    } else {
      hide WithParent;
      WithParentConcat(a[1..], b, parent);
      WithParentCons(a[0], a[1..], parent);
      WithParentCons(a[0], a[1..] + b, parent);
      assert [a[0]] + a[1..] == a && [a[0]] + (a[1..] + b) == a + b;
    }
  }

  /** The listed comments with a given parent, in listed order. */
  function Listed(out: seq<Indented>, parent: Option<string>): seq<Comment> {
    WithParent(CommentsOf(out), parent)
  }

  lemma ListedConcat(a: seq<Indented>, b: seq<Indented>, parent: Option<string>)
    ensures Listed(a + b, parent) == Listed(a, parent) + Listed(b, parent)
  {
    CommentsOfConcat(a, b);
    WithParentConcat(CommentsOf(a), CommentsOf(b), parent);
  }

  /** The thread of a comment never contains the comment's own parent. */
  lemma ParentNotBelow(cs: seq<Comment>, c: Comment, d: nat, x: Indented)
    requires DistinctIds(cs) && AtDepth(cs, c, d) && InThread(cs, c, d, x)
    ensures c.parentId != Some(x.comment.id)
  {
    if c.parentId == Some(x.comment.id) {
      var q :| IsParent(q, c) && AtDepth(cs, q, d - 1);
      SameIdSameComment(cs, q, x.comment);
      DepthUnique(cs, q, d - 1, x.indent);
    }
  }

  lemma HoldsInThread(cs: seq<Comment>, c: Comment, d: nat, parent: Option<string>) returns (x: Indented)
    requires DistinctIds(cs) && AtDepth(cs, c, d) && Holds(Thread(cs, c, d), parent)
    ensures InThread(cs, c, d, x) && parent == Some(x.comment.id) && x in Thread(cs, c, d)
  {
    var k :| 0 <= k < |Thread(cs, c, d)| && Some(Thread(cs, c, d)[k].comment.id) == parent;
    x := Thread(cs, c, d)[k];
    assert x in Thread(cs, c, d);
    ThreadExact(cs, c, d, x);
  }

  lemma HoldsConcat(a: seq<Indented>, b: seq<Indented>, parent: Option<string>)
    ensures Holds(a + b, parent) <==> Holds(a, parent) || Holds(b, parent)
  {
    var ab := a + b;
    if k :| 0 <= k < |a| && Some(a[k].comment.id) == parent {
      assert ab[k] == a[k];
    }
    if k :| 0 <= k < |b| && Some(b[k].comment.id) == parent {
      assert ab[|a| + k] == b[k];
    }
    if k :| 0 <= k < |ab| && Some(ab[k].comment.id) == parent {
      assert if k < |a| then a[k] == ab[k] else b[k - |a|] == ab[k];
    }
  }

  /** In a thread, the replies to each of its comments are listed in creation order. */
  lemma {:induction false} ThreadSiblings(cs: seq<Comment>, c: Comment, d: nat, parent: Option<string>)
    requires DistinctIds(cs) && AtDepth(cs, c, d)
    ensures Listed(Thread(cs, c, d), parent) ==
              if c.parentId == parent then [c]
              else if Holds(Thread(cs, c, d), parent) then Replies(cs, parent) else []
    decreases |cs| - d, 0, 0
  {
    hide AtDepth, DistinctIds, Replies, LevelAt, Holds, Threads;
    DepthBound(cs, c, d);
    RepliesLevel(cs, c, d);
    RepliesDistinct(cs, Some(c.id));
    var list := Replies(cs, Some(c.id));
    var below := Threads(cs, list, d + 1);
    forall k | 0 <= k < |list| ensures list[k].parentId == Some(c.id) {
      RepliesExact(cs, Some(c.id), list[k]);
    }
    ThreadsSiblings(cs, list, d + 1, Some(c.id), parent);
    assert Thread(cs, c, d) == [Indented(c, d)] + below;
    ListedConcat([Indented(c, d)], below, parent);
    ListedOne(c, d, parent);
    HoldsConcat([Indented(c, d)], below, parent);
    if c.parentId == parent && Holds(Thread(cs, c, d), parent) {
      var x := HoldsInThread(cs, c, d, parent);
      ParentNotBelow(cs, c, d, x);
      assert false;
    }
    assert Holds([Indented(c, d)], Some(c.id)) by {
      HoldsOne(c, d, Some(c.id));
    }
    HoldsOne(c, d, parent);
  }

  lemma ListedOne(c: Comment, d: nat, parent: Option<string>)
    ensures Listed([Indented(c, d)], parent) == if c.parentId == parent then [c] else []
  {
    CommentsOfAt([Indented(c, d)]);
    assert CommentsOf([Indented(c, d)]) == [c] + [];
    WithParentCons(c, [], parent);
  }

  lemma HoldsOne(c: Comment, d: nat, parent: Option<string>)
    ensures Holds([Indented(c, d)], parent) <==> parent == Some(c.id)
  {
    var one := [Indented(c, d)];
    if parent == Some(c.id) {
      assert Some(one[0].comment.id) == parent;
    }
  }

  lemma NotBothHold(cs: seq<Comment>, list: seq<Comment>, d: nat, parent: Option<string>)
    requires DistinctIds(cs) && LevelAt(cs, list, d) && DistinctIds(list) && list != []
    ensures !(Holds(Thread(cs, list[0], d), parent) && Holds(Threads(cs, list[1..], d), parent))
  {
    var a, b := Thread(cs, list[0], d), Threads(cs, list[1..], d);
    if Holds(a, parent) && Holds(b, parent) {
      var j :| 0 <= j < |a| && Some(a[j].comment.id) == parent;
      var k :| 0 <= k < |b| && Some(b[k].comment.id) == parent;
      ThreadsApart(cs, list, d, a[j], b[k]);
    }
  }

  lemma {:induction false} ThreadsSiblings(cs: seq<Comment>, list: seq<Comment>, d: nat, above: Option<string>,
                                           parent: Option<string>)
    requires DistinctIds(cs) && LevelAt(cs, list, d) && DistinctIds(list)
    requires forall k :: 0 <= k < |list| ==> list[k].parentId == above
    ensures Listed(Threads(cs, list, d), parent) ==
              if above == parent then list
              else if Holds(Threads(cs, list, d), parent) then Replies(cs, parent) else []
    decreases |cs| - d, 1, |list|
  {
    hide AtDepth, DistinctIds, Replies, LevelAt, Holds, Thread;
    if list == [] {
      NoneHeld(parent);
    } else {
      SiblingsSplit(cs, list, d);
      var a, b := Thread(cs, list[0], d), Threads(cs, list[1..], d);
      ThreadSiblings(cs, list[0], d, parent);
      ThreadsSiblings(cs, list[1..], d, above, parent);
      ListedConcat(a, b, parent);
      HoldsConcat(a, b, parent);
      NotBothHold(cs, list, d, parent);
      assert list == [list[0]] + list[1..];
    }
  }

  lemma NoneHeld(parent: Option<string>)
    ensures Listed([], parent) == [] && !Holds([], parent)
  {
  }

  /** In the threaded part, comments with the same parent are listed in creation order, and in
      arrival order where their times are equal. */
  lemma SiblingsInOrder(cs: seq<Comment>, parent: Option<string>)
    requires DistinctIds(cs)
    requires parent.None? || exists q :: Threaded(cs, q) && parent == Some(q.id)
    ensures LevelAt(cs, Replies(cs, None), 0)
    ensures Listed(Threads(cs, Replies(cs, None), 0), parent) == Replies(cs, parent)
  {
    TopLevel(cs);
    RepliesDistinct(cs, None);
    var list := Replies(cs, None);
    forall k | 0 <= k < |list| ensures list[k].parentId == None {
      RepliesExact(cs, None, list[k]);
    }
    ThreadsSiblings(cs, list, 0, None, parent);
    if parent.Some? {
      var q :| Threaded(cs, q) && parent == Some(q.id);
      var d: nat :| AtDepth(cs, q, d);
      TopThreadsExact(cs, Indented(q, d));
      var k :| 0 <= k < |Threads(cs, list, 0)| && Threads(cs, list, 0)[k] == Indented(q, d);
    }
  }

  // ---------------------------------------------------------------- when two lists show the same

  lemma {:induction false} DepthDependsOnSet(cs: seq<Comment>, ds: seq<Comment>, c: Comment, d: nat)
    requires forall x :: x in cs <==> x in ds
    ensures AtDepth(cs, c, d) <==> AtDepth(ds, c, d)
    decreases d
  {
    if d > 0 {
      if AtDepth(cs, c, d) {
        var q :| IsParent(q, c) && AtDepth(cs, q, d - 1);
        DepthDependsOnSet(cs, ds, q, d - 1);
      }
      if AtDepth(ds, c, d) {
        var q :| IsParent(q, c) && AtDepth(ds, q, d - 1);
        DepthDependsOnSet(cs, ds, q, d - 1);
      }
    }
  }

  /** The same comments, with the same replies below each threaded comment and at the top. */
  ghost predicate SameReplies(cs: seq<Comment>, ds: seq<Comment>) {
    && (forall x :: x in cs <==> x in ds)
    && Replies(cs, None) == Replies(ds, None)
    && forall c :: Threaded(cs, c) ==> Replies(cs, Some(c.id)) == Replies(ds, Some(c.id))
  }

  lemma {:induction false} SameThreadShown(cs: seq<Comment>, ds: seq<Comment>, c: Comment, d: nat)
    requires DistinctIds(cs) && DistinctIds(ds) && SameReplies(cs, ds) && AtDepth(cs, c, d)
    ensures AtDepth(ds, c, d) && Thread(cs, c, d) == Thread(ds, c, d)
    decreases |cs| - d, 0, 0
  {
    hide AtDepth, DistinctIds, Threads, LevelAt, Replies;
    DepthBound(cs, c, d);
    RepliesLevel(cs, c, d);
    DepthDependsOnSet(cs, ds, c, d);
    assert Threaded(cs, c);
    SameThreadsShown(cs, ds, Replies(cs, Some(c.id)), d + 1);
  }

  lemma {:induction false} SameThreadsShown(cs: seq<Comment>, ds: seq<Comment>, list: seq<Comment>, d: nat)
    requires DistinctIds(cs) && DistinctIds(ds) && SameReplies(cs, ds) && LevelAt(cs, list, d)
    ensures LevelAt(ds, list, d) && Threads(cs, list, d) == Threads(ds, list, d)
    decreases |cs| - d, 1, |list|
  {
    hide AtDepth, DistinctIds, Thread, Replies, SameReplies;
    if list != [] {
      DepthBound(cs, list[0], d);
      SameThreadShown(cs, ds, list[0], d);
      SameThreadsShown(cs, ds, list[1..], d);
      assert list == [list[0]] + list[1..];
    }
  }

  // ---------------------------------------------------------------- idempotence

  lemma RepliesOfThreadedAreThreaded(cs: seq<Comment>, q: Comment, c: Comment)
    requires Threaded(cs, q) && IsParent(q, c) && c in cs
    ensures Threaded(cs, c)
  {
    var d: nat :| AtDepth(cs, q, d);
    assert AtDepth(cs, c, d + 1);
  }

  lemma {:induction false} StraysHaveStrayParents(cs: seq<Comment>, items: seq<Indented>, parent: Option<string>)
    requires forall k :: 0 <= k < |items| ==> items[k].comment in cs
    requires parent.None? || exists q :: Threaded(cs, q) && parent == Some(q.id)
    ensures Listed(Strays(cs, items), parent) == []
  {
    if items != [] {
      StraysHaveStrayParents(cs, items[1..], parent);
      var c := items[0].comment;
      if !Threaded(cs, c) {
        var rest := Strays(cs, items[1..]);
        assert Strays(cs, items) == [Indented(c, items[0].indent)] + rest;
        ListedConcat([Indented(c, items[0].indent)], rest, parent);
        ListedOne(c, items[0].indent, parent);
        if c.parentId == parent {
          if parent.Some? {
            var q :| Threaded(cs, q) && parent == Some(q.id);
            RepliesOfThreadedAreThreaded(cs, q, c);
          } else {
            assert AtDepth(cs, c, 0);
          }
        }
      } else {
        assert Strays(cs, items) == Strays(cs, items[1..]);
      }
    }
  }

  /** Linearising keeps every list of siblings as it is. */
  lemma RepliesKept(items: seq<Indented>, parent: Option<string>)
    requires DistinctIds(CommentsOf(items))
    requires parent.None? || exists q :: Threaded(CommentsOf(items), q) && parent == Some(q.id)
    ensures Replies(CommentsOf(Linearised(items)), parent) == Replies(CommentsOf(items), parent)
  {
    var cs := CommentsOf(items);
    TopLevel(cs);
    CommentsOfAt(items);
    var a, b := Threads(cs, Replies(cs, None), 0), Strays(cs, items);
    ListedConcat(a, b, parent);
    SiblingsInOrder(cs, parent);
    StraysHaveStrayParents(cs, items, parent);
    assert Listed(Linearised(items), parent) == Replies(cs, parent);
    NotLaterOrders();
    SortSorts(NotLater, WithParent(cs, parent));
    SortedStays(NotLater, Replies(cs, parent));
  }

  lemma LinearisedSameReplies(items: seq<Indented>)
    requires DistinctIds(CommentsOf(items))
    ensures SameReplies(CommentsOf(items), CommentsOf(Linearised(items)))
  {
    var cs, ds := CommentsOf(items), CommentsOf(Linearised(items));
    forall x ensures x in cs <==> x in ds {
      LinearisedHolds(items, x);
    }
    RepliesKept(items, None);
    forall c | Threaded(cs, c) ensures Replies(cs, Some(c.id)) == Replies(ds, Some(c.id)) {
      RepliesKept(items, Some(c.id));
    }
  }

  lemma {:induction false} StraysConcat(cs: seq<Comment>, a: seq<Indented>, b: seq<Indented>)
    ensures Strays(cs, a + b) == Strays(cs, a) + Strays(cs, b)
  {
    if a == [] {
      assert a + b == b;
    } else {
      StraysConcat(cs, a[1..], b);
      assert (a + b)[1..] == a[1..] + b;
    }
  }

  lemma {:induction false} NoStrays(cs: seq<Comment>, items: seq<Indented>)
    requires forall k :: 0 <= k < |items| ==> Threaded(cs, items[k].comment)
    ensures Strays(cs, items) == []
  {
    if items != [] {
      NoStrays(cs, items[1..]);
    }
  }

  lemma {:induction false} OnlyStrays(cs: seq<Comment>, items: seq<Indented>)
    requires forall k :: 0 <= k < |items| ==> !Threaded(cs, items[k].comment)
    ensures Strays(cs, items) == items
  {
    if items != [] {
      OnlyStrays(cs, items[1..]);
    }
  }

  lemma ThreadedDependsOnSet(cs: seq<Comment>, ds: seq<Comment>, c: Comment)
    requires forall x :: x in cs <==> x in ds
    ensures Threaded(cs, c) <==> Threaded(ds, c)
  {
    if d: nat :| AtDepth(cs, c, d) {
      DepthDependsOnSet(cs, ds, c, d);
    }
    if d: nat :| AtDepth(ds, c, d) {
      DepthDependsOnSet(cs, ds, c, d);
    }
  }

  lemma StraysKept(items: seq<Indented>)
    requires DistinctIds(CommentsOf(items))
    ensures Strays(CommentsOf(Linearised(items)), Linearised(items)) == Strays(CommentsOf(items), items)
  {
    var cs, ds := CommentsOf(items), CommentsOf(Linearised(items));
    TopLevel(cs);
    var a, b := Threads(cs, Replies(cs, None), 0), Strays(cs, items);
    forall x ensures x in cs <==> x in ds {
      LinearisedHolds(items, x);
    }
    StraysConcat(ds, a, b);
    forall k | 0 <= k < |a| ensures Threaded(ds, a[k].comment) {
      TopThreadsExact(cs, a[k]);
      ThreadedDependsOnSet(cs, ds, a[k].comment);
    }
    forall k | 0 <= k < |b| ensures !Threaded(ds, b[k].comment) {
      StraysExact(cs, items, b[k]);
      ThreadedDependsOnSet(cs, ds, b[k].comment);
    }
    NoStrays(ds, a);
    OnlyStrays(ds, b);
  }

  /** Linearising a linearised list changes nothing. */
  lemma LinearisedIdempotent(items: seq<Indented>)
    requires DistinctIds(CommentsOf(items))
    ensures DistinctIds(CommentsOf(Linearised(items)))
    ensures Linearised(Linearised(items)) == Linearised(items)
  {
    hide AtDepth, DistinctIds, Threads, Replies, SameReplies, LevelAt;
    var cs, ds := CommentsOf(items), CommentsOf(Linearised(items));
    EveryCommentOnce(items);
    LinearisedSameReplies(items);
    StraysKept(items);
    TopLevel(cs);
    SameThreadsShown(cs, ds, Replies(cs, None), 0);
    assert Replies(cs, None) == Replies(ds, None) by {
      RepliesKept(items, None);
    }
  }

  // ---------------------------------------------------------------- arrival order does not matter

  /** No two comments with the same parent have the same creation time. */
  ghost predicate DistinctSiblingTimes(cs: seq<Comment>) {
    forall a, b :: a in cs && b in cs && a.parentId == b.parentId && Time(a) == Time(b) ==> a == b
  }

  ghost predicate AllThreaded(cs: seq<Comment>) {
    forall c :: c in cs ==> Threaded(cs, c)
  }

  lemma WithParentPermutes(cs: seq<Comment>, ds: seq<Comment>, parent: Option<string>)
    requires DistinctIds(cs) && DistinctIds(ds) && forall x :: x in cs <==> x in ds
    ensures multiset(WithParent(cs, parent)) == multiset(WithParent(ds, parent))
  {
    WithParentDistinct(cs, parent);
    WithParentDistinct(ds, parent);
    forall x ensures x in WithParent(cs, parent) <==> x in WithParent(ds, parent) {
      WithParentExact(cs, parent, x);
      WithParentExact(ds, parent, x);
    }
    NoDupSameElements(WithParent(cs, parent), WithParent(ds, parent));
  }

  lemma RepliesDependOnSet(cs: seq<Comment>, ds: seq<Comment>, parent: Option<string>)
    requires DistinctIds(cs) && DistinctIds(ds) && forall x :: x in cs <==> x in ds
    requires DistinctSiblingTimes(cs)
    ensures Replies(cs, parent) == Replies(ds, parent)
  {
    WithParentPermutes(cs, ds, parent);
    NotLaterOrders();
    SortSorts(NotLater, WithParent(cs, parent));
    SortSorts(NotLater, WithParent(ds, parent));
    forall a, b | a in Replies(cs, parent) && b in Replies(cs, parent) && NotLater(a, b) && NotLater(b, a)
      ensures a == b
    {
      RepliesExact(cs, parent, a);
      RepliesExact(cs, parent, b);
    }
    SortedUnique(NotLater, Replies(cs, parent), Replies(ds, parent));
  }

  /** The threads of all top-level comments. */
  ghost function TopThreads(cs: seq<Comment>): seq<Indented>
    requires DistinctIds(cs)
  {
    TopLevel(cs);
    Threads(cs, Replies(cs, None), 0)
  }

  /** When sibling times differ, the threaded part of the list depends on nothing but the set of
      comments, whatever parents are missing or form cycles. */
  lemma TopThreadsDependOnSet(cs: seq<Comment>, ds: seq<Comment>)
    requires DistinctIds(cs) && DistinctIds(ds) && forall c :: c in cs <==> c in ds
    requires DistinctSiblingTimes(cs)
    ensures TopThreads(cs) == TopThreads(ds)
  {
    hide AtDepth, DistinctIds, Threads, Replies, LevelAt, DistinctSiblingTimes, Threaded;
    TopLevel(cs);
    forall c | Threaded(cs, c) ensures Replies(cs, Some(c.id)) == Replies(ds, Some(c.id)) {
      RepliesDependOnSet(cs, ds, Some(c.id));
    }
    RepliesDependOnSet(cs, ds, None);
    SameThreadsShown(cs, ds, Replies(cs, None), 0);
  }

  /** When moreover every comment is threaded, so does the whole list: neither the order of the
      comments nor any earlier indentation matters. */
  lemma LinearisedDependsOnSet(items: seq<Indented>, other: seq<Indented>)
    requires DistinctIds(CommentsOf(items)) && DistinctIds(CommentsOf(other))
    requires forall c :: c in CommentsOf(items) <==> c in CommentsOf(other)
    requires AllThreaded(CommentsOf(items)) && DistinctSiblingTimes(CommentsOf(items))
    ensures Linearised(items) == Linearised(other)
  {
    hide AtDepth, DistinctIds, Threads, Replies, LevelAt, DistinctSiblingTimes, Threaded;
    var cs, ds := CommentsOf(items), CommentsOf(other);
    TopThreadsDependOnSet(cs, ds);
    CommentsOfAt(items);
    CommentsOfAt(other);
    forall k | 0 <= k < |items| ensures Threaded(cs, items[k].comment) {
      assert CommentsOf(items)[k] in cs;
    }
    forall k | 0 <= k < |other| ensures Threaded(ds, other[k].comment) {
      assert CommentsOf(other)[k] in cs;
      ThreadedDependsOnSet(cs, ds, other[k].comment);
    }
    NoStrays(cs, items);
    NoStrays(ds, other);
  }
}
