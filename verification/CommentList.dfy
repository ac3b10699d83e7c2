// The comment list of the client: the handler for arriving comments, and what re-running the
// linearisation on every arrival amounts to.
module CommentList {
  import opened Wrappers
  import opened Comments
  import opened CommentLaws

  // ---------------------------------------------------------------- linearisation, as the client does it

  predicate Present(result: seq<Indented>, id: string) {
    exists k :: 0 <= k < |result| && result[k].comment.id == id
  }

  ghost predicate NonePresent(result: seq<Indented>, thread: seq<Indented>) {
    forall x :: x in thread ==> !Present(result, x.comment.id)
  }

  /** Appends the thread of `c`, unless `c` is already listed. */
  method Dfs(items: seq<Indented>, c: Comment, depth: nat, result: seq<Indented>) returns (result': seq<Indented>)
    requires DistinctIds(CommentsOf(items)) && AtDepth(CommentsOf(items), c, depth)
    requires Present(result, c.id) || NonePresent(result, Thread(CommentsOf(items), c, depth))
    ensures result' == if Present(result, c.id) then result else result + Thread(CommentsOf(items), c, depth)
    decreases |items| - depth
  {
    hide DistinctIds, AtDepth, Replies;
    ghost var cs := CommentsOf(items);
    CommentsOfAt(items);
    if Present(result, c.id) {
      return result;
    }
    result' := result + [Indented(c, depth)];
    var children := Replies(CommentsOf(items), Some(c.id));
    ghost var before := result';
    BeforeReplies(cs, c, depth, result);
    ListedEnds(cs, children, depth + 1, before);
    for i := 0 to |children|
      invariant result' == ListedUpTo(cs, children, depth + 1, before, i)
    {
      NextThread(cs, children, depth + 1, i, before);
      result' := Dfs(items, children[i], depth + 1, result');
    }
  }

  /** What is listed after the threads of the first `i` siblings. */
  ghost function ListedUpTo(cs: seq<Comment>, list: seq<Comment>, d: nat, before: seq<Indented>, i: nat): seq<Indented>
    requires DistinctIds(cs) && LevelAt(cs, list, d) && i <= |list|
  {
    assert LevelAt(cs, list[..i], d);
    before + Threads(cs, list[..i], d)
  }

  lemma ListedEnds(cs: seq<Comment>, list: seq<Comment>, d: nat, before: seq<Indented>)
    requires DistinctIds(cs) && LevelAt(cs, list, d)
    ensures ListedUpTo(cs, list, d, before, 0) == before
    ensures ListedUpTo(cs, list, d, before, |list|) == before + Threads(cs, list, d)
  {
    assert list[..|list|] == list;
  }

  /** While siblings are listed in turn, the next one's thread is not listed yet. */
  lemma NextThread(cs: seq<Comment>, list: seq<Comment>, d: nat, i: nat, before: seq<Indented>)
    requires DistinctIds(cs) && DistinctIds(list) && LevelAt(cs, list, d) && i < |list|
    requires NonePresent(before, Threads(cs, list, d))
    ensures ListedUpTo(cs, list, d, before, i + 1) == ListedUpTo(cs, list, d, before, i) + Thread(cs, list[i], d)
    ensures NonePresent(ListedUpTo(cs, list, d, before, i), Thread(cs, list[i], d))
    ensures !Present(ListedUpTo(cs, list, d, before, i), list[i].id)
  {
    hide AtDepth, Replies;
    assert list[..i + 1] == list[..i] + [list[i]];
    ThreadsAppend(cs, list[..i], list[i], d);
    var listed := Threads(cs, list[..i], d);
    forall x | x in Thread(cs, list[i], d) ensures !Present(before + listed, x.comment.id) {
      ThreadExact(cs, list[i], d, x);
      ThreadsExact(cs, list, d, x);
      assert !Present(before, x.comment.id);
      forall k | 0 <= k < |listed| ensures listed[k].comment.id != x.comment.id {
        EarlierThreadApart(cs, list, d, i, listed[k], x);
      }
    }
    assert Thread(cs, list[i], d)[0] == Indented(list[i], d);
  }

  lemma EarlierThreadApart(cs: seq<Comment>, list: seq<Comment>, d: nat, i: nat, y: Indented, x: Indented)
    requires DistinctIds(cs) && DistinctIds(list) && LevelAt(cs, list, d) && i < |list|
    requires LevelAt(cs, list[..i], d) && y in Threads(cs, list[..i], d) && x in Thread(cs, list[i], d)
    ensures y.comment.id != x.comment.id
  {
    ThreadExact(cs, list[i], d, x);
    ThreadsExact(cs, list[..i], d, y);
    if y.comment.id == x.comment.id {
      var k :| 0 <= k < i && InThread(cs, list[..i][k], d, y);
      SameThread(cs, list[i], list[..i][k], d, x, y);
      assert false;
    }
  }

  /** After a comment is listed, its replies are still to come: they make up the rest of its thread. */
  lemma BeforeReplies(cs: seq<Comment>, c: Comment, d: nat, result: seq<Indented>)
    requires DistinctIds(cs) && AtDepth(cs, c, d) && NonePresent(result, Thread(cs, c, d))
    ensures d < |cs| && DistinctIds(Replies(cs, Some(c.id))) && LevelAt(cs, Replies(cs, Some(c.id)), d + 1)
    ensures NonePresent(result + [Indented(c, d)], Threads(cs, Replies(cs, Some(c.id)), d + 1))
    ensures result + Thread(cs, c, d) == result + [Indented(c, d)] + Threads(cs, Replies(cs, Some(c.id)), d + 1)
  {
    hide AtDepth, DistinctIds, Threads, Replies, LevelAt;
    DepthBound(cs, c, d);
    RepliesLevel(cs, c, d);
    RepliesDistinct(cs, Some(c.id));
    var below := Threads(cs, Replies(cs, Some(c.id)), d + 1);
    forall x | x in below ensures !Present(result + [Indented(c, d)], x.comment.id) {
      RepliesApart(cs, c, d, x);
      assert !Present(result, x.comment.id);
    }
  }

  lemma {:induction false} ThreadsAppend(cs: seq<Comment>, list: seq<Comment>, c: Comment, d: nat)
    requires DistinctIds(cs) && LevelAt(cs, list, d) && AtDepth(cs, c, d)
    ensures LevelAt(cs, list + [c], d)
    ensures Threads(cs, list + [c], d) == Threads(cs, list, d) + Thread(cs, c, d)
    decreases |list|
  {
    hide AtDepth, DistinctIds, Thread;
    if list == [] {
      assert [c][1..] == [];
      assert list + [c] == [c];
    } else {
      ThreadsAppend(cs, list[1..], c, d);
      assert (list + [c])[1..] == list[1..] + [c];
    }
  }

  /** The whole list: threads from the top-level comments, then everything not reached. */
  method IndentCommentTree(items: seq<Indented>) returns (res: seq<Indented>)
    requires DistinctIds(CommentsOf(items))
    ensures res == Linearised(items)
  {
    ghost var cs := CommentsOf(items);
    var rootComments := Replies(CommentsOf(items), None);
    TopLevel(cs);
    RepliesDistinct(cs, None);
    res := [];
    ListedEnds(cs, rootComments, 0, []);
    for i := 0 to |rootComments|
      invariant res == ListedUpTo(cs, rootComments, 0, [], i)
    {
      NextThread(cs, rootComments, 0, i, []);
      res := Dfs(items, rootComments[i], 0, res);
    }
    assert [] + Threads(cs, rootComments, 0) == Threads(cs, rootComments, 0);
    TopThreadsListThreaded(cs);
    res := AddOrphans(items, res);
  }

  /** `threads` lists exactly the threaded ones among the comments. */
  ghost predicate ListsThreaded(cs: seq<Comment>, threads: seq<Indented>) {
    forall k :: 0 <= k < |cs| ==> (Present(threads, cs[k].id) <==> Threaded(cs, cs[k]))
  }

  method AddOrphans(items: seq<Indented>, threads: seq<Indented>) returns (res: seq<Indented>)
    requires DistinctIds(CommentsOf(items)) && ListsThreaded(CommentsOf(items), threads)
    ensures res == threads + Strays(CommentsOf(items), items)
  {
    ghost var cs := CommentsOf(items);
    res := threads;
    for i := 0 to |items|
      invariant res == threads + Strays(cs, items[..i])
    {
      NextStray(items, threads, i);
      if !Present(res, items[i].comment.id) {
        res := res + [items[i]];
      }
    }
    assert items[..|items|] == items;
  }

  lemma {:induction false} NextStray(items: seq<Indented>, threads: seq<Indented>, i: nat)
    requires DistinctIds(CommentsOf(items)) && ListsThreaded(CommentsOf(items), threads) && i < |items|
    ensures var cs := CommentsOf(items);
            && (Present(threads + Strays(cs, items[..i]), items[i].comment.id) <==> Threaded(cs, items[i].comment))
            && Strays(cs, items[..i + 1]) ==
                 Strays(cs, items[..i]) + (if Threaded(cs, items[i].comment) then [] else [items[i]])
  {
    var cs, c := CommentsOf(items), items[i].comment;
    CommentsOfAt(items);
    assert items[..i + 1] == items[..i] + [items[i]];
    StraysAppend(cs, items[..i], items[i]);
    var listed: seq<Indented> := threads + Strays(cs, items[..i]);
    assert cs[i] == c;
    if k :| 0 <= k < |listed| && listed[k].comment.id == c.id {
      if k >= |threads| {
        StraysExact(cs, items[..i], listed[k]);
        assert false;
      }
    }
    if Present(threads, c.id) {
      var k :| 0 <= k < |threads| && threads[k].comment.id == c.id;
      assert listed[k].comment.id == c.id;
    }
  }

  lemma {:induction false} StraysAppend(cs: seq<Comment>, items: seq<Indented>, x: Indented)
    ensures Strays(cs, items + [x]) == Strays(cs, items) + (if Threaded(cs, x.comment) then [] else [x])
  {
    if items == [] {
      assert [x][1..] == [] && items + [x] == [x];
    } else {
      StraysAppend(cs, items[1..], x);
      assert (items + [x])[1..] == items[1..] + [x];
    }
  }

  lemma TopThreadsListThreaded(cs: seq<Comment>)
    requires DistinctIds(cs)
    ensures LevelAt(cs, Replies(cs, None), 0) && ListsThreaded(cs, Threads(cs, Replies(cs, None), 0))
  {
    TopLevel(cs);
    var a := Threads(cs, Replies(cs, None), 0);
    forall i | 0 <= i < |cs| ensures Present(a, cs[i].id) <==> Threaded(cs, cs[i]) {
      if k :| 0 <= k < |a| && a[k].comment.id == cs[i].id {
        TopThreadsExact(cs, a[k]);
        SameIdSameComment(cs, a[k].comment, cs[i]);
      }
      if d :| AtDepth(cs, cs[i], d) {
        TopThreadsExact(cs, Indented(cs[i], d));
        var k :| 0 <= k < |a| && a[k] == Indented(cs[i], d);
      }
    }
  }

  // ---------------------------------------------------------------- arriving comments

  function Without(items: seq<Indented>, id: string): seq<Indented> {
    if items == [] then []
    else (if items[0].comment.id != id then [items[0]] else []) + Without(items[1..], id)
  }

  /** The list before it is linearised again: an arriving comment for the open media file replaces
      the one with its id; comments for other files are ignored. */
  function Merged(all: seq<Indented>, arrived: seq<Comment>, mediaFileId: string): seq<Indented> {
    if arrived == [] then all
    else
      var before := Merged(all, arrived[..|arrived| - 1], mediaFileId);
      var c := arrived[|arrived| - 1];
      if c.mediaFileId != mediaFileId then before else Without(before, c.id) + [Indented(c, 0)]
  }

  lemma {:induction false} WithoutExact(items: seq<Indented>, id: string, x: Indented)
    ensures x in Without(items, id) <==> x in items && x.comment.id != id
  {
    if items != [] {
      WithoutExact(items[1..], id, x);
    }
  }

  lemma WithoutHolds(items: seq<Indented>, id: string, c: Comment)
    ensures c in CommentsOf(Without(items, id)) <==> c in CommentsOf(items) && c.id != id
  {
    InCommentsOf(Without(items, id), c);
    InCommentsOf(items, c);
    forall x ensures x in Without(items, id) <==> x in items && x.comment.id != id {
      WithoutExact(items, id, x);
    }
  }

  /** An arriving comment for this media file, with this id. */
  predicate Replaces(c: Comment, mediaFileId: string, id: string) {
    c.mediaFileId == mediaFileId && c.id == id
  }

  /** The last of the arriving comments for this media file that has its id. */
  ghost predicate IsLatest(arrived: seq<Comment>, mediaFileId: string, c: Comment) {
    exists k :: 0 <= k < |arrived| && arrived[k] == c && c.mediaFileId == mediaFileId
                && forall j :: k < j < |arrived| ==> !Replaces(arrived[j], mediaFileId, c.id)
  }

  ghost predicate NoneReplaces(arrived: seq<Comment>, mediaFileId: string, id: string) {
    forall j :: 0 <= j < |arrived| ==> !Replaces(arrived[j], mediaFileId, id)
  }

  lemma LatestGrows(front: seq<Comment>, last: Comment, mediaFileId: string, c: Comment)
    ensures IsLatest(front + [last], mediaFileId, c) <==>
            (last == c && c.mediaFileId == mediaFileId)
            || (IsLatest(front, mediaFileId, c) && !Replaces(last, mediaFileId, c.id))
  {
    var all := front + [last];
    if k :| 0 <= k < |front| && front[k] == c && c.mediaFileId == mediaFileId
            && forall j :: k < j < |front| ==> !Replaces(front[j], mediaFileId, c.id) {
      assert all[k] == c;
    }
    if IsLatest(all, mediaFileId, c) {
      var k :| 0 <= k < |all| && all[k] == c && c.mediaFileId == mediaFileId
               && forall j :: k < j < |all| ==> !Replaces(all[j], mediaFileId, c.id);
      if k < |front| {
        assert front[k] == c;
        assert !Replaces(all[|front|], mediaFileId, c.id);
        assert forall j :: k < j < |front| ==> all[j] == front[j];
      }
    }
    if last == c {
      assert all[|front|] == c;
    }
  }

  /** After merging, the comments of a message are those that came last under their id, and the ones
      from before stay unless one came under their id. */
  lemma {:induction false} MergedExact(all: seq<Indented>, arrived: seq<Comment>, mediaFileId: string, c: Comment)
    ensures c in CommentsOf(Merged(all, arrived, mediaFileId)) <==>
            IsLatest(arrived, mediaFileId, c)
            || (c in CommentsOf(all) && NoneReplaces(arrived, mediaFileId, c.id))
  {
    if arrived != [] {
      var front, last := arrived[..|arrived| - 1], arrived[|arrived| - 1];
      assert arrived == front + [last];
      MergedExact(all, front, mediaFileId, c);
      LatestGrows(front, last, mediaFileId, c);
      assert NoneReplaces(arrived, mediaFileId, c.id) <==>
             NoneReplaces(front, mediaFileId, c.id) && !Replaces(last, mediaFileId, c.id);
      if last.mediaFileId == mediaFileId {
        var before := Merged(all, front, mediaFileId);
        WithoutHolds(before, last.id, c);
        CommentsOfConcat(Without(before, last.id), [Indented(last, 0)]);
        CommentsOfAt([Indented(last, 0)]);
        assert CommentsOf([Indented(last, 0)]) == [last];
      }
    }
  }

  /** All comments of a run of messages, in the order of their arrival. */
  function Arrived(messages: seq<seq<Comment>>): seq<Comment> {
    if messages == [] then [] else Arrived(messages[..|messages| - 1]) + messages[|messages| - 1]
  }

  lemma {:induction false} LatestOfTwo(a: seq<Comment>, b: seq<Comment>, mediaFileId: string, c: Comment)
    ensures IsLatest(a + b, mediaFileId, c) <==>
            IsLatest(b, mediaFileId, c) || (IsLatest(a, mediaFileId, c) && NoneReplaces(b, mediaFileId, c.id))
    decreases |b|
  {
    if b == [] {
      assert a + b == a;
    } else {
      var front, last := b[..|b| - 1], b[|b| - 1];
      LatestOfTwo(a, front, mediaFileId, c);
      assert b == front + [last] && a + b == a + front + [last];
      LatestGrows(front, last, mediaFileId, c);
      LatestGrows(a + front, last, mediaFileId, c);
      assert NoneReplaces(b, mediaFileId, c.id) <==>
             NoneReplaces(front, mediaFileId, c.id) && !Replaces(last, mediaFileId, c.id);
    }
  }

  /** After any run of messages, edits of comments included, the list shows exactly the comments that
      came last under their id. */
  lemma {:induction false} ShownLatestExactly(messages: seq<seq<Comment>>, mediaFileId: string, c: Comment)
    ensures c in CommentsOf(Shown(messages, mediaFileId)) <==> IsLatest(Arrived(messages), mediaFileId, c)
    decreases |messages|
  {
    LinearisedHolds(LastMerged(messages, mediaFileId), c);
    if messages != [] {
      var front, last := messages[..|messages| - 1], messages[|messages| - 1];
      ShownLatestExactly(front, mediaFileId, c);
      MergedExact(Shown(front, mediaFileId), last, mediaFileId, c);
      LatestOfTwo(Arrived(front), last, mediaFileId, c);
    }
  }

  lemma WithoutDistinct(items: seq<Indented>, c: Comment)
    requires DistinctIds(CommentsOf(items))
    ensures DistinctIds(CommentsOf(Without(items, c.id) + [Indented(c, 0)]))
  {
    WithoutKeepsDistinct(items, c.id);
    OneIsDistinct(c, 0);
    forall x | x in Without(items, c.id) ensures x.comment.id != c.id {
      WithoutExact(items, c.id, x);
    }
    DistinctConcat(Without(items, c.id), [Indented(c, 0)]);
  }

  lemma {:induction false} WithoutKeepsDistinct(items: seq<Indented>, id: string)
    requires DistinctIds(CommentsOf(items))
    ensures DistinctIds(CommentsOf(Without(items, id)))
  {
    CommentsOfAt(items);
    if items != [] {
      CommentsOfAt(items[1..]);
      WithoutKeepsDistinct(items[1..], id);
      var c, d := items[0].comment, items[0].indent;
      forall x | x in Without(items[1..], id) ensures c.id != x.comment.id {
        WithoutExact(items[1..], id, x);
        var k :| 0 <= k < |items[1..]| && items[1..][k] == x;
        assert CommentsOf(items)[0].id != CommentsOf(items)[k + 1].id;
      }
      OneIsDistinct(c, d);
      DistinctConcat([Indented(c, d)], Without(items[1..], id));
      assert items[0] == Indented(c, d);
      assert [] + Without(items[1..], id) == Without(items[1..], id);
    }
  }

  lemma {:induction false} MergedDistinct(all: seq<Indented>, arrived: seq<Comment>, mediaFileId: string)
    requires DistinctIds(CommentsOf(all))
    ensures DistinctIds(CommentsOf(Merged(all, arrived, mediaFileId)))
  {
    if arrived != [] {
      var front, c := arrived[..|arrived| - 1], arrived[|arrived| - 1];
      MergedDistinct(all, front, mediaFileId);
      if c.mediaFileId == mediaFileId {
        WithoutDistinct(Merged(all, front, mediaFileId), c);
      }
    }
  }

  /** Handles one message of arriving comments: merge, then linearise the whole list. */
  method AddComments(all: seq<Indented>, arrived: seq<Comment>, mediaFileId: string) returns (all': seq<Indented>)
    requires DistinctIds(CommentsOf(all))
    ensures DistinctIds(CommentsOf(Merged(all, arrived, mediaFileId)))
    ensures all' == Linearised(Merged(all, arrived, mediaFileId))
    ensures DistinctIds(CommentsOf(all'))
  {
    all' := all;
    for i := 0 to |arrived|
      invariant all' == Merged(all, arrived[..i], mediaFileId)
    {
      assert arrived[..i + 1][..i] == arrived[..i];
      var c := arrived[i];
      if c.mediaFileId != mediaFileId {
        continue;
      }
      all' := Without(all', c.id) + [Indented(c, 0)];
    }
    assert arrived[..|arrived|] == arrived;
    MergedDistinct(all, arrived, mediaFileId);
    EveryCommentOnce(all');
    all' := IndentCommentTree(all');
  }

  // ---------------------------------------------------------------- whole runs

  /** The comments of one media file that a run of messages has delivered. */
  predicate Delivered(messages: seq<seq<Comment>>, mediaFileId: string, c: Comment) {
    exists m :: 0 <= m < |messages| && DeliveredIn(messages[m], mediaFileId, c)
  }

  predicate DeliveredIn(arrived: seq<Comment>, mediaFileId: string, c: Comment) {
    c in arrived && c.mediaFileId == mediaFileId
  }

  /** No comment is ever delivered in two versions. */
  ghost predicate OneVersionEach(messages: seq<seq<Comment>>, mediaFileId: string) {
    forall a, b :: Delivered(messages, mediaFileId, a) && Delivered(messages, mediaFileId, b) && a.id == b.id ==> a == b
  }

  /** The list after a run of messages, starting from the empty list of a newly opened file. */
  ghost function Shown(messages: seq<seq<Comment>>, mediaFileId: string): (items: seq<Indented>)
    ensures DistinctIds(CommentsOf(items))
    decreases |messages|
  {
    if messages == [] then NoneIsDistinct(); []
    else
      var front, last := messages[..|messages| - 1], messages[|messages| - 1];
      MergedDistinct(Shown(front, mediaFileId), last, mediaFileId);
      EveryCommentOnce(Merged(Shown(front, mediaFileId), last, mediaFileId));
      Linearised(Merged(Shown(front, mediaFileId), last, mediaFileId))
  }

  method ReceiveAll(messages: seq<seq<Comment>>, mediaFileId: string) returns (all: seq<Indented>)
    ensures all == Shown(messages, mediaFileId)
  {
    NoneIsDistinct();
    all := [];
    for i := 0 to |messages|
      invariant all == Shown(messages[..i], mediaFileId)
    {
      assert messages[..i + 1][..i] == messages[..i];
      all := AddComments(all, messages[i], mediaFileId);
    }
    assert messages[..|messages|] == messages;
  }

  /** The comments of the list together with those arriving hold no two versions of one comment. */
  ghost predicate Consistent(all: seq<Indented>, arrived: seq<Comment>, mediaFileId: string) {
    forall a, b ::
      DeliveredIn(arrived, mediaFileId, a) && (b in CommentsOf(all) || DeliveredIn(arrived, mediaFileId, b))
        && a.id == b.id
      ==> a == b
  }

  lemma ReplacedHolds(before: seq<Indented>, last: Comment, c: Comment)
    requires c in CommentsOf(before) && c.id == last.id ==> c == last
    ensures c in CommentsOf(Without(before, last.id) + [Indented(last, 0)]) <==> c in CommentsOf(before) || c == last
  {
    var after := Without(before, last.id) + [Indented(last, 0)];
    InCommentsOf(before, c);
    InCommentsOf(after, c);
    if x :| x in before && x.comment == c {
      WithoutExact(before, last.id, x);
      assert c.id != last.id ==> x in after;
    }
    if x :| x in after && x.comment == c {
      WithoutExact(before, last.id, x);
    }
    assert Indented(last, 0) in after;
  }

  lemma {:induction false} MergedHolds(all: seq<Indented>, arrived: seq<Comment>, mediaFileId: string, c: Comment)
    requires Consistent(all, arrived, mediaFileId)
    ensures c in CommentsOf(Merged(all, arrived, mediaFileId)) <==>
                c in CommentsOf(all) || DeliveredIn(arrived, mediaFileId, c)
  {
    if arrived != [] {
      var front, last := arrived[..|arrived| - 1], arrived[|arrived| - 1];
      assert arrived == front + [last];
      assert forall x :: DeliveredIn(front, mediaFileId, x) ==> DeliveredIn(arrived, mediaFileId, x);
      MergedHolds(all, front, mediaFileId, c);
      if last.mediaFileId == mediaFileId {
        assert DeliveredIn(arrived, mediaFileId, last);
        ReplacedHolds(Merged(all, front, mediaFileId), last, c);
      }
    }
  }

  lemma DeliveredSplit(front: seq<seq<Comment>>, last: seq<Comment>, mediaFileId: string, c: Comment)
    ensures Delivered(front + [last], mediaFileId, c) <==>
                Delivered(front, mediaFileId, c) || DeliveredIn(last, mediaFileId, c)
  {
    var all := front + [last];
    if m :| 0 <= m < |front| && DeliveredIn(front[m], mediaFileId, c) {
      assert DeliveredIn(all[m], mediaFileId, c);
    }
    if DeliveredIn(last, mediaFileId, c) {
      assert DeliveredIn(all[|front|], mediaFileId, c);
    }
  }

  /** What is merged last shows exactly the delivered comments. */
  ghost function LastMerged(messages: seq<seq<Comment>>, mediaFileId: string): (items: seq<Indented>)
    ensures DistinctIds(CommentsOf(items)) && Shown(messages, mediaFileId) == Linearised(items)
  {
    if messages == [] then
      NoneIsDistinct();
      []
    else
      var front, last := messages[..|messages| - 1], messages[|messages| - 1];
      MergedDistinct(Shown(front, mediaFileId), last, mediaFileId);
      Merged(Shown(front, mediaFileId), last, mediaFileId)
  }

  lemma {:induction false} ShownHolds(messages: seq<seq<Comment>>, mediaFileId: string, c: Comment)
    requires OneVersionEach(messages, mediaFileId)
    ensures c in CommentsOf(LastMerged(messages, mediaFileId)) <==> Delivered(messages, mediaFileId, c)
    decreases |messages|
  {
    if messages != [] {
      var front, last := messages[..|messages| - 1], messages[|messages| - 1];
      assert messages == front + [last];
      forall x ensures Delivered(messages, mediaFileId, x) <==>
        Delivered(front, mediaFileId, x) || DeliveredIn(last, mediaFileId, x) {
        DeliveredSplit(front, last, mediaFileId, x);
      }
      forall x ensures x in CommentsOf(Shown(front, mediaFileId)) <==> Delivered(front, mediaFileId, x) {
        ShownHolds(front, mediaFileId, x);
        LinearisedHolds(LastMerged(front, mediaFileId), x);
      }
      MergedHolds(Shown(front, mediaFileId), last, mediaFileId, c);
    }
  }

  /** `cs` are the delivered comments, in any order. */
  ghost predicate DeliversExactly(messages: seq<seq<Comment>>, mediaFileId: string, cs: seq<Comment>) {
    DistinctIds(cs) && forall c :: c in cs <==> Delivered(messages, mediaFileId, c)
  }

  lemma DeliveredMerged(messages: seq<seq<Comment>>, mediaFileId: string, cs: seq<Comment>)
    requires DeliversExactly(messages, mediaFileId, cs)
    ensures forall c :: c in CommentsOf(LastMerged(messages, mediaFileId)) <==> c in cs
  {
    OneVersionOf(messages, mediaFileId, cs);
    forall c ensures c in CommentsOf(LastMerged(messages, mediaFileId)) <==> c in cs {
      ShownHolds(messages, mediaFileId, c);
    }
  }

  /** However the delivered comments arrive, and whatever parents are missing or form cycles: when
      sibling times differ, the list begins with the same threads, and nothing after them is threaded. */
  lemma ThreadsAfterArrival(messages: seq<seq<Comment>>, mediaFileId: string, cs: seq<Comment>)
    requires DeliversExactly(messages, mediaFileId, cs) && DistinctSiblingTimes(cs)
    ensures var shown, n := Shown(messages, mediaFileId), |TopThreads(cs)|;
            && n <= |shown| && shown[..n] == TopThreads(cs)
            && forall k :: n <= k < |shown| ==> shown[k].comment in cs && !Threaded(cs, shown[k].comment)
  {
    var items, shown, n := LastMerged(messages, mediaFileId), Shown(messages, mediaFileId), |TopThreads(cs)|;
    DeliveredMerged(messages, mediaFileId, cs);
    TopThreadsDependOnSet(cs, CommentsOf(items));
    assert shown == TopThreads(cs) + Strays(CommentsOf(items), items);
    forall k | n <= k < |shown| ensures shown[k].comment in cs && !Threaded(cs, shown[k].comment) {
      StraysExact(CommentsOf(items), items, shown[k]);
      InCommentsOf(items, shown[k].comment);
      ThreadedDependsOnSet(cs, CommentsOf(items), shown[k].comment);
    }
  }

  /** When moreover every delivered comment is threaded, the whole list is the same for every arrival
      order and every way of batching the comments into messages. */
  lemma ArrivalOrderIrrelevant(messages: seq<seq<Comment>>, others: seq<seq<Comment>>, mediaFileId: string,
                               cs: seq<Comment>)
    requires DeliversExactly(messages, mediaFileId, cs) && DeliversExactly(others, mediaFileId, cs)
    requires AllThreaded(cs) && DistinctSiblingTimes(cs)
    ensures Shown(messages, mediaFileId) == Shown(others, mediaFileId)
  {
    hide Threaded, Shown, TopThreads, DeliversExactly;
    AllInThreads(messages, mediaFileId, cs);
    AllInThreads(others, mediaFileId, cs);
  }

  lemma AllInThreads(messages: seq<seq<Comment>>, mediaFileId: string, cs: seq<Comment>)
    requires DeliversExactly(messages, mediaFileId, cs) && AllThreaded(cs) && DistinctSiblingTimes(cs)
    ensures Shown(messages, mediaFileId) == TopThreads(cs)
  {
    hide Threaded, Shown, TopThreads;
    ThreadsAfterArrival(messages, mediaFileId, cs);
    var shown, n := Shown(messages, mediaFileId), |TopThreads(cs)|;
    assert n < |shown| ==> !Threaded(cs, shown[n].comment);
    assert shown[..|shown|] == shown;
  }

  lemma OneVersionOf(messages: seq<seq<Comment>>, mediaFileId: string, cs: seq<Comment>)
    requires DeliversExactly(messages, mediaFileId, cs)
    ensures OneVersionEach(messages, mediaFileId)
  {
    forall a, b | Delivered(messages, mediaFileId, a) && Delivered(messages, mediaFileId, b) && a.id == b.id
      ensures a == b
    {
      SameIdSameComment(cs, a, b);
    }
  }
}
