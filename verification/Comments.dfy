// Comment threads: a bag of comments with parent links, and the indented list shown for it.
module Comments {
  import opened Wrappers
  import opened Sorting

  datatype Comment = Comment(id: string, parentId: Option<string>, created: Option<int>, mediaFileId: string,
                             text: string)

  datatype Indented = Indented(comment: Comment, indent: nat)

  function CommentsOf(items: seq<Indented>): seq<Comment> {
    if items == [] then [] else [items[0].comment] + CommentsOf(items[1..])
  }

  lemma {:induction false} CommentsOfAt(items: seq<Indented>)
    ensures |CommentsOf(items)| == |items|
    ensures forall k :: 0 <= k < |items| ==> CommentsOf(items)[k] == items[k].comment
  {
    if items != [] {
      CommentsOfAt(items[1..]);
    }
  }

  lemma {:induction false} CommentsOfConcat(a: seq<Indented>, b: seq<Indented>)
    ensures CommentsOf(a + b) == CommentsOf(a) + CommentsOf(b)
  {
    if a == [] {
      assert a + b == b;
    } else {
      CommentsOfConcat(a[1..], b);
      assert (a + b)[1..] == a[1..] + b;
    }
  }

  predicate DistinctIds(cs: seq<Comment>) {
    forall j, k :: 0 <= j < k < |cs| ==> cs[j].id != cs[k].id
  }

  // ---------------------------------------------------------------- threads

  /** The creation time used for ordering; a comment without one counts as created at the epoch. */
  function Time(c: Comment): int {
    if c.created.Some? then c.created.value else 0
  }

  predicate NotLater(a: Comment, b: Comment) {
    Time(a) <= Time(b)
  }

  function WithParent(cs: seq<Comment>, parent: Option<string>): seq<Comment> {
    if cs == [] then []
    else (if cs[0].parentId == parent then [cs[0]] else []) + WithParent(cs[1..], parent)
  }

  /** The replies to a comment, or with `None` the top-level comments, oldest first. */
  function Replies(cs: seq<Comment>, parent: Option<string>): seq<Comment> {
    Sort(NotLater, WithParent(cs, parent))
  }

  /** `c` is d levels below a top-level comment, with every comment in between present. */
  ghost predicate AtDepth(cs: seq<Comment>, c: Comment, d: nat)
    decreases d
  {
    && c in cs
    && if d == 0 then c.parentId.None?
       else exists q :: IsParent(q, c) && AtDepth(cs, q, d - 1)
  }

  predicate IsParent(q: Comment, c: Comment) {
    c.parentId == Some(q.id)
  }

  ghost predicate Threaded(cs: seq<Comment>, c: Comment) {
    exists d :: AtDepth(cs, c, d)
  }

  /** `a` is found by following the parent links of `c` n times. */
  ghost predicate IsAncestor(cs: seq<Comment>, a: Comment, c: Comment, n: nat)
    decreases n
  {
    && c in cs
    && if n == 0 then a == c
       else exists q :: q in cs && IsParent(q, c) && IsAncestor(cs, a, q, n - 1)
  }

  lemma SameIdSameComment(cs: seq<Comment>, a: Comment, b: Comment)
    requires DistinctIds(cs) && a in cs && b in cs && a.id == b.id
    ensures a == b
  {
    var j, k :| 0 <= j < |cs| && cs[j] == a && 0 <= k < |cs| && cs[k] == b;
  }

  lemma {:induction false} DepthUnique(cs: seq<Comment>, c: Comment, d: nat, e: nat)
    requires DistinctIds(cs) && AtDepth(cs, c, d) && AtDepth(cs, c, e)
    ensures d == e
    decreases d
  {
    if d > 0 && e > 0 {
      var p :| IsParent(p, c) && AtDepth(cs, p, d - 1);
      var q :| IsParent(q, c) && AtDepth(cs, q, e - 1);
      SameIdSameComment(cs, p, q);
      DepthUnique(cs, p, d - 1, e - 1);
    }
  }

  /** The comments on the way up to the top level, `c` included. */
  ghost function Upwards(cs: seq<Comment>, c: Comment, d: nat): set<Comment>
    requires AtDepth(cs, c, d)
    decreases d
  {
    if d == 0 then {c}
    else
      var q :| IsParent(q, c) && AtDepth(cs, q, d - 1);
      Upwards(cs, q, d - 1) + {c}
  }

  lemma {:induction false} UpwardsPresent(cs: seq<Comment>, c: Comment, d: nat, x: Comment)
    requires AtDepth(cs, c, d) && x in Upwards(cs, c, d)
    ensures x in cs && exists e :: 0 <= e <= d && AtDepth(cs, x, e)
    decreases d
  {
    if x != c {
      var q :| IsParent(q, c) && AtDepth(cs, q, d - 1) && Upwards(cs, c, d) == Upwards(cs, q, d - 1) + {c};
      UpwardsPresent(cs, q, d - 1, x);
    }
  }

  lemma {:induction false} UpwardsSize(cs: seq<Comment>, c: Comment, d: nat)
    requires DistinctIds(cs) && AtDepth(cs, c, d)
    ensures |Upwards(cs, c, d)| == d + 1
    decreases d
  {
    if d > 0 {
      var q :| IsParent(q, c) && AtDepth(cs, q, d - 1) && Upwards(cs, c, d) == Upwards(cs, q, d - 1) + {c};
      UpwardsSize(cs, q, d - 1);
      if c in Upwards(cs, q, d - 1) {
        UpwardsPresent(cs, q, d - 1, c);
        var e :| 0 <= e <= d - 1 && AtDepth(cs, c, e);
        DepthUnique(cs, c, d, e);
        assert false;
      }
    }
  }

  lemma DepthBound(cs: seq<Comment>, c: Comment, d: nat)
    requires DistinctIds(cs) && AtDepth(cs, c, d)
    ensures d < |cs|
  {
    UpwardsSize(cs, c, d);
    forall x | x in Upwards(cs, c, d) ensures x in cs {
      UpwardsPresent(cs, c, d, x);
    }
    SetNoLarger(cs);
    SubsetSize(Upwards(cs, c, d), set x | x in cs);
  }

  lemma {:induction false} SetNoLarger<T>(s: seq<T>)
    ensures |set x | x in s| <= |s|
  {
    if s != [] {
      SetNoLarger(s[1..]);
      assert (set x | x in s) == {s[0]} + set x | x in s[1..];
    }
  }

  lemma {:induction false} SubsetSize<T>(a: set<T>, b: set<T>)
    requires a <= b
    ensures |a| <= |b|
  {
    assert b == a + (b - a);
  }

  lemma NotLaterOrders()
    ensures TotalPreorder(NotLater)
  {
  }

  lemma {:induction false} WithParentExact(cs: seq<Comment>, parent: Option<string>, c: Comment)
    ensures c in WithParent(cs, parent) <==> c in cs && c.parentId == parent
  {
    if cs != [] {
      WithParentExact(cs[1..], parent, c);
    }
  }

  lemma RepliesExact(cs: seq<Comment>, parent: Option<string>, c: Comment)
    ensures c in Replies(cs, parent) <==> c in cs && c.parentId == parent
  {
    NotLaterOrders();
    SortElements(NotLater, WithParent(cs, parent), c);
    WithParentExact(cs, parent, c);
  }

  /** All comments of the list sit at depth d. */
  ghost predicate LevelAt(cs: seq<Comment>, list: seq<Comment>, d: nat) {
    forall k :: 0 <= k < |list| ==> AtDepth(cs, list[k], d)
  }

  lemma RepliesLevel(cs: seq<Comment>, c: Comment, d: nat)
    requires AtDepth(cs, c, d)
    ensures LevelAt(cs, Replies(cs, Some(c.id)), d + 1)
  {
    var list := Replies(cs, Some(c.id));
    forall k | 0 <= k < |list| ensures AtDepth(cs, list[k], d + 1) {
      RepliesExact(cs, Some(c.id), list[k]);
      assert IsParent(c, list[k]);
    }
  }

  lemma TopLevel(cs: seq<Comment>)
    ensures LevelAt(cs, Replies(cs, None), 0)
  {
    var list := Replies(cs, None);
    forall k | 0 <= k < |list| ensures AtDepth(cs, list[k], 0) {
      RepliesExact(cs, None, list[k]);
    }
  }

  // ---------------------------------------------------------------- the list shown

  /** A comment followed by everything below it. */
  ghost function Thread(cs: seq<Comment>, c: Comment, d: nat): seq<Indented>
    requires DistinctIds(cs) && AtDepth(cs, c, d)
    decreases |cs| - d, 0, 0
  {
    DepthBound(cs, c, d);
    RepliesLevel(cs, c, d);
    [Indented(c, d)] + Threads(cs, Replies(cs, Some(c.id)), d + 1)
  }

  ghost function Threads(cs: seq<Comment>, list: seq<Comment>, d: nat): seq<Indented>
    requires DistinctIds(cs) && LevelAt(cs, list, d)
    decreases |cs| - d, 1, |list|
  {
    if list == [] then []
    else
      DepthBound(cs, list[0], d);
      Thread(cs, list[0], d) + Threads(cs, list[1..], d)
  }

  /** Comments that hang off a missing parent or a parent cycle, left as they came. */
  ghost function Strays(cs: seq<Comment>, items: seq<Indented>): seq<Indented> {
    if items == [] then []
    else (if Threaded(cs, items[0].comment) then [] else [items[0]]) + Strays(cs, items[1..])
  }

  ghost function Linearised(items: seq<Indented>): seq<Indented>
    requires DistinctIds(CommentsOf(items))
  {
    var cs := CommentsOf(items);
    TopLevel(cs);
    Threads(cs, Replies(cs, None), 0) + Strays(cs, items)
  }

  // ---------------------------------------------------------------- who is in a thread

  /** `x` belongs to the thread of `c`: it is `c` or a reply below it, indented by its depth. */
  ghost predicate InThread(cs: seq<Comment>, c: Comment, d: nat, x: Indented) {
    d <= x.indent && AtDepth(cs, x.comment, x.indent) && IsAncestor(cs, c, x.comment, x.indent - d)
  }

  lemma {:induction false} AncestorStep(cs: seq<Comment>, a: Comment, c: Comment, n: nat) returns (b: Comment)
    requires n > 0 && IsAncestor(cs, a, c, n)
    ensures IsParent(a, b) && b in cs && a in cs && IsAncestor(cs, b, c, n - 1)
    decreases n
  {
    var q :| q in cs && IsParent(q, c) && IsAncestor(cs, a, q, n - 1);
    if n == 1 {
      b := c;
    } else {
      b := AncestorStep(cs, a, q, n - 1);
    }
  }

  lemma {:induction false} AncestorExtends(cs: seq<Comment>, a: Comment, b: Comment, c: Comment, n: nat)
    requires a in cs && IsParent(a, b) && IsAncestor(cs, b, c, n)
    ensures IsAncestor(cs, a, c, n + 1)
    decreases n
  {
    if n == 0 {
      assert IsAncestor(cs, a, a, 0);
    } else {
      var q :| q in cs && IsParent(q, c) && IsAncestor(cs, b, q, n - 1);
      AncestorExtends(cs, a, b, q, n - 1);
    }
  }

  lemma {:induction false} AncestorUnique(cs: seq<Comment>, a: Comment, b: Comment, c: Comment, n: nat)
    requires DistinctIds(cs) && IsAncestor(cs, a, c, n) && IsAncestor(cs, b, c, n)
    ensures a == b
    decreases n
  {
    if n > 0 {
      var p :| p in cs && IsParent(p, c) && IsAncestor(cs, a, p, n - 1);
      var q :| q in cs && IsParent(q, c) && IsAncestor(cs, b, q, n - 1);
      SameIdSameComment(cs, p, q);
      AncestorUnique(cs, a, b, p, n - 1);
    }
  }

  lemma BelowReply(cs: seq<Comment>, c: Comment, d: nat, x: Indented)
    requires AtDepth(cs, c, d)
    ensures InThread(cs, c, d, x) <==>
            || x == Indented(c, d)
            || exists k :: 0 <= k < |Replies(cs, Some(c.id))| && InThread(cs, Replies(cs, Some(c.id))[k], d + 1, x)
  {
    var list := Replies(cs, Some(c.id));
    if k :| 0 <= k < |list| && InThread(cs, list[k], d + 1, x) {
      RepliesExact(cs, Some(c.id), list[k]);
      AncestorExtends(cs, c, list[k], x.comment, x.indent - (d + 1));
    }
    if InThread(cs, c, d, x) && x.indent > d {
      var b := AncestorStep(cs, c, x.comment, x.indent - d);
      RepliesExact(cs, Some(c.id), b);
      var k :| 0 <= k < |list| && list[k] == b;
      assert InThread(cs, list[k], d + 1, x);
    }
  }

  /** The thread of `c` lists exactly the comments below it, each at its own depth. */
  lemma {:induction false} ThreadExact(cs: seq<Comment>, c: Comment, d: nat, x: Indented)
    requires DistinctIds(cs) && AtDepth(cs, c, d)
    ensures x in Thread(cs, c, d) <==> InThread(cs, c, d, x)
    decreases |cs| - d, 0, 0
  {
    DepthBound(cs, c, d);
    RepliesLevel(cs, c, d);
    ThreadsExact(cs, Replies(cs, Some(c.id)), d + 1, x);
    BelowReply(cs, c, d, x);
  }

  lemma {:induction false} ThreadsExact(cs: seq<Comment>, list: seq<Comment>, d: nat, x: Indented)
    requires DistinctIds(cs) && LevelAt(cs, list, d)
    ensures x in Threads(cs, list, d) <==> exists k :: 0 <= k < |list| && InThread(cs, list[k], d, x)
    decreases |cs| - d, 1, |list|
  {
    if list != [] {
      DepthBound(cs, list[0], d);
      ThreadExact(cs, list[0], d, x);
      ThreadsExact(cs, list[1..], d, x);
      if k :| 0 <= k < |list| && InThread(cs, list[k], d, x) {
        if k > 0 {
          assert InThread(cs, list[1..][k - 1], d, x);
        }
      }
    }
  }

  // ---------------------------------------------------------------- every comment once

  lemma DistinctIdsPermute(s: seq<Comment>, t: seq<Comment>)
    requires DistinctIds(s) && multiset(s) == multiset(t)
    ensures DistinctIds(t)
  {
    NoDupPermutes(s, t);
    forall j, k | 0 <= j < k < |t| ensures t[j].id != t[k].id {
      assert t[j] in multiset(s) && t[k] in multiset(s);
    }
  }

  lemma {:induction false} WithParentDistinct(cs: seq<Comment>, parent: Option<string>)
    requires DistinctIds(cs)
    ensures DistinctIds(WithParent(cs, parent))
  {
    if cs != [] {
      WithParentDistinct(cs[1..], parent);
      var rest := WithParent(cs[1..], parent);
      forall k | 0 <= k < |rest| ensures rest[k].id != cs[0].id {
        WithParentExact(cs[1..], parent, rest[k]);
        var j :| 0 <= j < |cs[1..]| && cs[1..][j] == rest[k];
        assert cs[0].id != cs[j + 1].id;
      }
    }
  }

  lemma RepliesDistinct(cs: seq<Comment>, parent: Option<string>)
    requires DistinctIds(cs)
    ensures DistinctIds(Replies(cs, parent))
  {
    WithParentDistinct(cs, parent);
    NotLaterOrders();
    SortSorts(NotLater, WithParent(cs, parent));
    DistinctIdsPermute(WithParent(cs, parent), Replies(cs, parent));
  }

  ghost predicate Holds(out: seq<Indented>, id: Option<string>) {
    exists k :: 0 <= k < |out| && Some(out[k].comment.id) == id
  }

  /** A comment belongs to the thread of only one comment of a given depth. */
  lemma SameThread(cs: seq<Comment>, a: Comment, b: Comment, d: nat, x: Indented, y: Indented)
    requires DistinctIds(cs) && InThread(cs, a, d, x) && InThread(cs, b, d, y) && x.comment.id == y.comment.id
    ensures a == b
  {
    SameIdSameComment(cs, x.comment, y.comment);
    DepthUnique(cs, x.comment, x.indent, y.indent);
    AncestorUnique(cs, a, b, x.comment, x.indent - d);
  }

  /** Sibling threads have no comment in common. */
  lemma ThreadsApart(cs: seq<Comment>, list: seq<Comment>, d: nat, x: Indented, y: Indented)
    requires DistinctIds(cs) && LevelAt(cs, list, d) && DistinctIds(list) && list != []
    requires x in Thread(cs, list[0], d) && y in Threads(cs, list[1..], d)
    ensures x.comment.id != y.comment.id
  {
    ThreadExact(cs, list[0], d, x);
    ThreadsExact(cs, list[1..], d, y);
    if x.comment.id == y.comment.id {
      var k :| 0 <= k < |list[1..]| && InThread(cs, list[1..][k], d, y);
      SameThread(cs, list[0], list[1..][k], d, x, y);
      assert false;
    }
  }

  /** A non-empty list of siblings: its first, the others, and the threads they make up. */
  lemma SiblingsSplit(cs: seq<Comment>, list: seq<Comment>, d: nat)
    requires DistinctIds(cs) && LevelAt(cs, list, d) && DistinctIds(list) && list != []
    ensures AtDepth(cs, list[0], d) && d < |cs|
    ensures LevelAt(cs, list[1..], d) && DistinctIds(list[1..])
    ensures Threads(cs, list, d) == Thread(cs, list[0], d) + Threads(cs, list[1..], d)
  {
    hide AtDepth, Thread;
    DepthBound(cs, list[0], d);
  }

  lemma {:induction false} DistinctConcat(a: seq<Indented>, b: seq<Indented>)
    requires DistinctIds(CommentsOf(a)) && DistinctIds(CommentsOf(b))
    requires forall x, y :: x in a && y in b ==> x.comment.id != y.comment.id
    ensures DistinctIds(CommentsOf(a + b))
  {
    CommentsOfConcat(a, b);
    CommentsOfAt(a);
    CommentsOfAt(b);
  }

  lemma {:induction false} ThreadDistinct(cs: seq<Comment>, c: Comment, d: nat)
    requires DistinctIds(cs) && AtDepth(cs, c, d)
    ensures DistinctIds(CommentsOf(Thread(cs, c, d)))
    decreases |cs| - d, 0, 0
  {
    hide DistinctIds, LevelAt, AtDepth, Threads;
    DepthBound(cs, c, d);
    RepliesLevel(cs, c, d);
    RepliesDistinct(cs, Some(c.id));
    var below := Threads(cs, Replies(cs, Some(c.id)), d + 1);
    ThreadsDistinct(cs, Replies(cs, Some(c.id)), d + 1);
    forall x | x in below ensures x.comment.id != c.id {
      RepliesApart(cs, c, d, x);
    }
    OneIsDistinct(c, d);
    DistinctConcat([Indented(c, d)], below);
  }

  lemma OneIsDistinct(c: Comment, d: nat)
    ensures DistinctIds(CommentsOf([Indented(c, d)]))
  {
    assert [Indented(c, d)][1..] == [];
  }

  lemma RepliesApart(cs: seq<Comment>, c: Comment, d: nat, x: Indented)
    requires DistinctIds(cs) && AtDepth(cs, c, d) && LevelAt(cs, Replies(cs, Some(c.id)), d + 1)
    requires x in Threads(cs, Replies(cs, Some(c.id)), d + 1)
    ensures x.comment.id != c.id && x in Thread(cs, c, d)
  {
    hide Threads, Replies;
    ThreadsExact(cs, Replies(cs, Some(c.id)), d + 1, x);
    if x.comment.id == c.id {
      SameIdSameComment(cs, x.comment, c);
      DepthUnique(cs, c, d, x.indent);
    }
  }

  lemma {:induction false} ThreadsDistinct(cs: seq<Comment>, list: seq<Comment>, d: nat)
    requires DistinctIds(cs) && LevelAt(cs, list, d) && DistinctIds(list)
    ensures DistinctIds(CommentsOf(Threads(cs, list, d)))
    decreases |cs| - d, 1, |list|
  {
    hide DistinctIds, LevelAt, AtDepth, Thread;
    if list == [] {
      NoneIsDistinct();
    } else {
      SiblingsSplit(cs, list, d);
      ThreadDistinct(cs, list[0], d);
      ThreadsDistinct(cs, list[1..], d);
      var a, b := Thread(cs, list[0], d), Threads(cs, list[1..], d);
      forall x, y | x in a && y in b ensures x.comment.id != y.comment.id {
        ThreadsApart(cs, list, d, x, y);
      }
      DistinctConcat(a, b);
    }
  }

  lemma NoneIsDistinct()
    ensures DistinctIds(CommentsOf([]))
  {
  }

  lemma {:induction false} TopOf(cs: seq<Comment>, c: Comment, d: nat) returns (r: Comment)
    requires AtDepth(cs, c, d)
    ensures r in cs && r.parentId.None? && IsAncestor(cs, r, c, d)
    decreases d
  {
    if d == 0 {
      r := c;
    } else {
      var q :| IsParent(q, c) && AtDepth(cs, q, d - 1);
      r := TopOf(cs, q, d - 1);
    }
  }

  /** The threaded part lists exactly the comments that hang off a top-level one, at their depth. */
  lemma TopThreadsExact(cs: seq<Comment>, x: Indented)
    requires DistinctIds(cs)
    ensures LevelAt(cs, Replies(cs, None), 0)
    ensures x in Threads(cs, Replies(cs, None), 0) <==> AtDepth(cs, x.comment, x.indent)
  {
    TopLevel(cs);
    var list := Replies(cs, None);
    ThreadsExact(cs, list, 0, x);
    if AtDepth(cs, x.comment, x.indent) {
      var r := TopOf(cs, x.comment, x.indent);
      RepliesExact(cs, None, r);
      var k :| 0 <= k < |list| && list[k] == r;
      assert InThread(cs, list[k], 0, x);
    }
  }

  lemma {:induction false} StraysExact(cs: seq<Comment>, items: seq<Indented>, x: Indented)
    ensures x in Strays(cs, items) <==> x in items && !Threaded(cs, x.comment)
  {
    if items != [] {
      StraysExact(cs, items[1..], x);
    }
  }

  lemma {:induction false} StraysDistinct(cs: seq<Comment>, items: seq<Indented>)
    requires DistinctIds(CommentsOf(items))
    ensures DistinctIds(CommentsOf(Strays(cs, items)))
  {
    CommentsOfAt(items);
    if items != [] {
      CommentsOfAt(items[1..]);
      StraysDistinct(cs, items[1..]);
      var rest := Strays(cs, items[1..]);
      CommentsOfAt(rest);
      forall k | 0 <= k < |rest| ensures rest[k].comment.id != items[0].comment.id {
        StraysExact(cs, items[1..], rest[k]);
        var j :| 0 <= j < |items[1..]| && items[1..][j] == rest[k];
        assert CommentsOf(items)[0].id != CommentsOf(items)[j + 1].id;
      }
      if !Threaded(cs, items[0].comment) {
        assert CommentsOf([items[0]] + rest) == [items[0].comment] + CommentsOf(rest) by {
          assert ([items[0]] + rest)[1..] == rest;
        }
      } else {
        assert Strays(cs, items) == rest;
      }
    }
  }

  lemma InCommentsOf(items: seq<Indented>, c: Comment)
    ensures c in CommentsOf(items) <==> exists x :: x in items && x.comment == c
  {
    CommentsOfAt(items);
    if c in CommentsOf(items) {
      var k :| 0 <= k < |items| && CommentsOf(items)[k] == c;
      assert items[k] in items;
    }
    if x :| x in items && x.comment == c {
      var k :| 0 <= k < |items| && items[k] == x;
      assert CommentsOf(items)[k] == c;
    }
  }

  lemma LinearisedHolds(items: seq<Indented>, c: Comment)
    requires DistinctIds(CommentsOf(items))
    ensures c in CommentsOf(Linearised(items)) <==> c in CommentsOf(items)
  {
    var cs := CommentsOf(items);
    TopLevel(cs);
    var a, b := Threads(cs, Replies(cs, None), 0), Strays(cs, items);
    CommentsOfConcat(a, b);
    InCommentsOf(a, c);
    InCommentsOf(b, c);
    InCommentsOf(items, c);
    if x :| x in a && x.comment == c {
      TopThreadsExact(cs, x);
    }
    if x :| x in b && x.comment == c {
      StraysExact(cs, items, x);
    }
    if c in cs {
      var x :| x in items && x.comment == c;
      if Threaded(cs, c) {
        var d :| AtDepth(cs, c, d);
        TopThreadsExact(cs, Indented(c, d));
      } else {
        StraysExact(cs, items, x);
      }
    }
  }

  /** The list shown holds every comment exactly once: none is lost, added or repeated, whatever
      parents are missing or form cycles. */
  lemma EveryCommentOnce(items: seq<Indented>)
    requires DistinctIds(CommentsOf(items))
    ensures multiset(CommentsOf(Linearised(items))) == multiset(CommentsOf(items))
    ensures DistinctIds(CommentsOf(Linearised(items)))
  {
    var cs := CommentsOf(items);
    TopLevel(cs);
    var a, b := Threads(cs, Replies(cs, None), 0), Strays(cs, items);
    RepliesDistinct(cs, None);
    ThreadsDistinct(cs, Replies(cs, None), 0);
    StraysDistinct(cs, items);
    CommentsOfConcat(a, b);
    CommentsOfAt(a);
    CommentsOfAt(b);
    forall j, k | 0 <= j < |a| && 0 <= k < |b| ensures a[j].comment.id != b[k].comment.id {
      TopThreadsExact(cs, a[j]);
      StraysExact(cs, items, b[k]);
      InCommentsOf(items, b[k].comment);
      if a[j].comment.id == b[k].comment.id {
        SameIdSameComment(cs, a[j].comment, b[k].comment);
      }
    }
    assert DistinctIds(CommentsOf(a + b));
    forall c ensures c in CommentsOf(a + b) <==> c in cs {
      LinearisedHolds(items, c);
    }
    NoDupSameElements(CommentsOf(a + b), cs);
  }

  // ---------------------------------------------------------------- pre-order

  /** `b` is a reply, direct or not, to `a`. */
  ghost predicate Below(cs: seq<Comment>, a: Indented, b: Indented) {
    a.indent < b.indent && IsAncestor(cs, a.comment, b.comment, b.indent - a.indent)
  }

  lemma {:induction false} AncestorTransitive(cs: seq<Comment>, a: Comment, b: Comment, c: Comment, m: nat, n: nat)
    requires IsAncestor(cs, a, b, m) && IsAncestor(cs, b, c, n)
    ensures IsAncestor(cs, a, c, m + n)
    decreases n
  {
    if n > 0 {
      var q :| q in cs && IsParent(q, c) && IsAncestor(cs, b, q, n - 1);
      AncestorTransitive(cs, a, b, q, m, n - 1);
    }
  }

  ghost predicate DeeperThroughout(out: seq<Indented>, i: nat, j: nat)
    requires i < j < |out|
  {
    forall k :: i < k <= j ==> out[k].indent > out[i].indent
  }

  lemma DeeperInPart(out: seq<Indented>, part: seq<Indented>, from: nat, i: nat, j: nat)
    requires from + |part| <= |out| && out[from..from + |part|] == part
    requires i < j < |part|
    ensures DeeperThroughout(out, from + i, from + j) <==> DeeperThroughout(part, i, j)
  {
    assert forall k :: 0 <= k < |part| ==> out[from + k] == part[k];
    if DeeperThroughout(out, from + i, from + j) {
      forall k | i < k <= j ensures part[k].indent > part[i].indent {
        assert out[from + k].indent > out[from + i].indent;
      }
    } else {
      var k :| from + i < k <= from + j && out[k].indent <= out[from + i].indent;
      assert part[k - from].indent <= part[i].indent;
    }
  }

  lemma HeadPreorder(cs: seq<Comment>, c: Comment, d: nat, j: nat)
    requires DistinctIds(cs) && AtDepth(cs, c, d)
    requires 0 < j < |Thread(cs, c, d)|
    ensures var out := Thread(cs, c, d); Below(cs, out[0], out[j]) && DeeperThroughout(out, 0, j)
  {
    hide AtDepth;
    var out := Thread(cs, c, d);
    forall k | 0 < k <= j ensures out[k].indent > d && InThread(cs, c, d, out[k]) {
      assert out[k] in out;
      ThreadExact(cs, c, d, out[k]);
      LaterIsDeeper(cs, c, d, k);
    }
  }

  lemma LaterIsDeeper(cs: seq<Comment>, c: Comment, d: nat, k: nat)
    requires DistinctIds(cs) && AtDepth(cs, c, d)
    requires 0 < k < |Thread(cs, c, d)|
    ensures Thread(cs, c, d)[k].indent > d
  {
    DepthBound(cs, c, d);
    RepliesLevel(cs, c, d);
    var below := Threads(cs, Replies(cs, Some(c.id)), d + 1);
    assert Thread(cs, c, d)[k] == below[k - 1];
    ThreadsExact(cs, Replies(cs, Some(c.id)), d + 1, below[k - 1]);
  }

  lemma {:induction false} ThreadPreorder(cs: seq<Comment>, c: Comment, d: nat, i: nat, j: nat)
    requires DistinctIds(cs) && AtDepth(cs, c, d)
    requires i < j < |Thread(cs, c, d)|
    ensures var out := Thread(cs, c, d); Below(cs, out[i], out[j]) <==> DeeperThroughout(out, i, j)
    decreases |cs| - d, 0, 0
  {
    hide AtDepth, DistinctIds, DeeperThroughout, Below;
    if i == 0 {
      HeadPreorder(cs, c, d, j);
    } else {
      DepthBound(cs, c, d);
      RepliesLevel(cs, c, d);
      RepliesDistinct(cs, Some(c.id));
      var below := Threads(cs, Replies(cs, Some(c.id)), d + 1);
      assert Thread(cs, c, d) == [Indented(c, d)] + below;
      ThreadsPreorder(cs, Replies(cs, Some(c.id)), d + 1, i - 1, j - 1);
      DeeperInPart(Thread(cs, c, d), below, 1, i - 1, j - 1);
    }
  }

  lemma {:induction false} ThreadsPreorder(cs: seq<Comment>, list: seq<Comment>, d: nat, i: nat, j: nat)
    requires DistinctIds(cs) && LevelAt(cs, list, d) && DistinctIds(list)
    requires i < j < |Threads(cs, list, d)|
    ensures var out := Threads(cs, list, d); Below(cs, out[i], out[j]) <==> DeeperThroughout(out, i, j)
    decreases |cs| - d, 1, |list|
  {
    hide AtDepth, DeeperThroughout, Below, LevelAt, DistinctIds, Thread;
    SiblingsSplit(cs, list, d);
    var a, b, out := Thread(cs, list[0], d), Threads(cs, list[1..], d), Threads(cs, list, d);
    assert out == a + b;
    if j < |a| {
      ThreadPreorder(cs, list[0], d, i, j);
      DeeperInPart(out, a, 0, i, j);
    } else if i >= |a| {
      ThreadsPreorder(cs, list[1..], d, i - |a|, j - |a|);
      DeeperInPart(out, b, |a|, i - |a|, j - |a|);
    } else {
      ThreadsNotBelow(cs, list, d, a[i], b[j - |a|]);
      ThreadsStartAt(cs, list[1..], d);
      NotDeeper(out, i, |a|, j);
    }
  }

  lemma NotDeeper(out: seq<Indented>, i: nat, k: nat, j: nat)
    requires i < k <= j < |out| && out[k].indent <= out[i].indent
    ensures !DeeperThroughout(out, i, j)
  {
  }

  lemma ThreadsStartAt(cs: seq<Comment>, list: seq<Comment>, d: nat)
    requires DistinctIds(cs) && LevelAt(cs, list, d) && Threads(cs, list, d) != []
    ensures Threads(cs, list, d)[0].indent == d
  {
    assert Threads(cs, list, d)[0] == Thread(cs, list[0], d)[0] == Indented(list[0], d);
  }

  /** Nothing in a later sibling's thread is below anything in an earlier one. */
  lemma ThreadsNotBelow(cs: seq<Comment>, list: seq<Comment>, d: nat, x: Indented, y: Indented)
    requires DistinctIds(cs) && LevelAt(cs, list, d) && DistinctIds(list) && list != []
    requires x in Thread(cs, list[0], d) && y in Threads(cs, list[1..], d)
    ensures d <= x.indent && !Below(cs, x, y)
  {
    hide AtDepth, IsAncestor;
    ThreadExact(cs, list[0], d, x);
    ThreadsExact(cs, list[1..], d, y);
    if Below(cs, x, y) {
      AncestorTransitive(cs, list[0], x.comment, y.comment, x.indent - d, y.indent - x.indent);
      assert InThread(cs, list[0], d, y);
      var k :| 0 <= k < |list[1..]| && InThread(cs, list[1..][k], d, y);
      SameThread(cs, list[0], list[1..][k], d, y, y);
      assert false;
    }
  }

  /** In the threaded part, the replies below a comment are exactly the entries that follow it
      without interruption at a deeper indent: each thread is one contiguous block. */
  lemma IndentShowsThreads(items: seq<Indented>, i: nat, j: nat)
    requires DistinctIds(CommentsOf(items))
    requires i < j < |Linearised(items)| && Threaded(CommentsOf(items), Linearised(items)[j].comment)
    ensures var out := Linearised(items);
            Below(CommentsOf(items), out[i], out[j]) <==> DeeperThroughout(out, i, j)
  {
    var cs, out := CommentsOf(items), Linearised(items);
    TopLevel(cs);
    var a := Threads(cs, Replies(cs, None), 0);
    if j >= |a| {
      StraysExact(cs, items, Strays(cs, items)[j - |a|]);
    }
    assert j < |a|;
    RepliesDistinct(cs, None);
    ThreadsPreorder(cs, Replies(cs, None), 0, i, j);
    DeeperInPart(out, a, 0, i, j);
  }
}
