// The order in which the comments of a thread are shown, in terms of their creation times.
module CommentOrder {
  import opened Wrappers
  import opened Sorting
  import opened Comments
  import opened CommentLaws

  /** `a` stands before `b` in the list. */
  ghost predicate Precedes(cs: seq<Comment>, a: Comment, b: Comment) {
    exists i, j :: 0 <= i < j < |cs| && cs[i] == a && cs[j] == b
  }

  lemma PrecedesConcat(s: seq<Comment>, t: seq<Comment>, a: Comment, b: Comment)
    ensures Precedes(s + t, a, b) <==> Precedes(s, a, b) || Precedes(t, a, b) || (a in s && b in t)
  {
    var all := s + t;
    if i, j :| 0 <= i < j < |all| && all[i] == a && all[j] == b {
      if i >= |s| {
        assert t[i - |s|] == a && t[j - |s|] == b;
      }
    }
    if i, j :| 0 <= i < j < |s| && s[i] == a && s[j] == b {
      assert all[i] == a && all[j] == b;
    }
    if i, j :| 0 <= i < j < |t| && t[i] == a && t[j] == b {
      assert all[|s| + i] == a && all[|s| + j] == b;
    }
    if a in s && b in t {
      var i :| 0 <= i < |s| && s[i] == a;
      var j :| 0 <= j < |t| && t[j] == b;
      assert all[i] == a && all[|s| + j] == b;
    }
  }

  /** Picking the comments with one parent keeps their order. */
  lemma {:induction false} WithParentPrecedes(cs: seq<Comment>, parent: Option<string>, a: Comment, b: Comment)
    requires a.parentId == parent && b.parentId == parent
    ensures Precedes(WithParent(cs, parent), a, b) <==> Precedes(cs, a, b)
  {
    if cs != [] {
      var first, rest := [cs[0]], cs[1..];
      WithParentPrecedes(rest, parent, a, b);
      WithParentExact(rest, parent, b);
      assert cs == first + rest;
      PrecedesConcat(first, rest, a, b);
      PrecedesConcat(if cs[0].parentId == parent then first else [], WithParent(rest, parent), a, b);
    }
  }

  lemma {:induction false} TiesHold(cs: seq<Comment>, x: Comment, c: Comment)
    ensures c in Ties(NotLater, cs, x) <==> c in cs && NotLater(c, x) && NotLater(x, c)
  {
    if cs != [] {
      TiesHold(cs[..|cs| - 1], x, c);
      assert cs == cs[..|cs| - 1] + [cs[|cs| - 1]];
    }
  }

  lemma {:induction false} TiesPrecede(cs: seq<Comment>, x: Comment, a: Comment, b: Comment)
    requires NotLater(a, x) && NotLater(x, a) && NotLater(b, x) && NotLater(x, b)
    ensures Precedes(Ties(NotLater, cs, x), a, b) <==> Precedes(cs, a, b)
  {
    if cs != [] {
      var front, last := cs[..|cs| - 1], [cs[|cs| - 1]];
      TiesPrecede(front, x, a, b);
      TiesHold(front, x, a);
      assert cs == front + last;
      PrecedesConcat(front, last, a, b);
      PrecedesConcat(Ties(NotLater, front, x), if NotLater(last[0], x) && NotLater(x, last[0]) then last else [], a, b);
    }
  }

  lemma RepliesOldestFirst(cs: seq<Comment>, parent: Option<string>, a: Comment, b: Comment)
    requires Precedes(Replies(cs, parent), a, b)
    ensures Time(a) <= Time(b)
    ensures Time(a) == Time(b) ==> Precedes(cs, a, b)
  {
    var w, r := WithParent(cs, parent), Replies(cs, parent);
    NotLaterOrders();
    SortSorts(NotLater, w);
    var i, j :| 0 <= i < j < |r| && r[i] == a && r[j] == b;
    assert NotLater(r[i], r[j]);
    RepliesExact(cs, parent, a);
    RepliesExact(cs, parent, b);
    if Time(a) == Time(b) {
      TiesPrecede(r, a, a, b);
      TiesPrecede(w, a, a, b);
      WithParentPrecedes(cs, parent, a, b);
    }
  }

  /** A reply in a thread hangs off a comment in a thread. */
  lemma ParentThreaded(cs: seq<Comment>, c: Comment)
    requires Threaded(cs, c)
    ensures c.parentId.None? || exists q :: Threaded(cs, q) && c.parentId == Some(q.id)
  {
    var d: nat :| AtDepth(cs, c, d);
    if d > 0 {
      var q :| IsParent(q, c) && AtDepth(cs, q, d - 1);
      assert Threaded(cs, q);
    }
  }

  /** In the list shown, of two replies to one comment, or two top-level comments, the one above was
      not created later, and if both were created at once, it came first in the list before. One that
      does not say when it was created counts as created at 0. */
  lemma SiblingsOldestFirst(items: seq<Indented>, i: nat, j: nat)
    requires DistinctIds(CommentsOf(items)) && i < j < |Linearised(items)|
    requires var out := Linearised(items);
             && out[i].comment.parentId == out[j].comment.parentId
             && Threaded(CommentsOf(items), out[i].comment) && Threaded(CommentsOf(items), out[j].comment)
    ensures var a, b := Linearised(items)[i].comment, Linearised(items)[j].comment;
            var s := if a.created.Some? then a.created.value else 0;
            var t := if b.created.Some? then b.created.value else 0;
            && s <= t
            && (s == t ==> exists k, l :: 0 <= k < l < |items| && items[k].comment == a && items[l].comment == b)
  {
    var cs, a, b := CommentsOf(items), Linearised(items)[i].comment, Linearised(items)[j].comment;
    ShownInThreads(items, i, j);
    ParentThreaded(cs, b);
    SiblingsInOrder(cs, b.parentId);
    WithParentPrecedes(CommentsOf(TopThreads(cs)), b.parentId, a, b);
    hide Threaded, AtDepth, Threads, Strays, Linearised, Replies, DistinctIds, TopThreads;
    RepliesOldestFirst(cs, b.parentId, a, b);
    if Time(a) == Time(b) {
      CommentsOfAt(items);
      var k, l :| 0 <= k < l < |cs| && cs[k] == a && cs[l] == b;
      assert items[k].comment == a && items[l].comment == b;
    }
  }

  lemma ShownInThreads(items: seq<Indented>, i: nat, j: nat)
    requires DistinctIds(CommentsOf(items)) && i < j < |Linearised(items)|
    requires Threaded(CommentsOf(items), Linearised(items)[j].comment)
    ensures Precedes(CommentsOf(TopThreads(CommentsOf(items))), Linearised(items)[i].comment,
                     Linearised(items)[j].comment)
  {
    var cs, out := CommentsOf(items), Linearised(items);
    var threads := TopThreads(cs);
    assert out == threads + Strays(cs, items);
    hide Threads, Linearised, TopThreads, Replies, DistinctIds;
    if j >= |threads| {
      StraysExact(cs, items, out[j]);
    }
    CommentsOfAt(threads);
  }
}
