// When exactly the poller of the incoming folder submits a file, and when that file has kept its size.
module SettledFiles {
  import opened Wrappers
  import opened IncomingMonitor

  // ---------------------------------------------------------------- what one poll takes notice of

  /** A poll changes the size it remembers exactly when it finds another size, unless the file is
      without content or waiting out the delay. */
  lemma ChangeNoticedExactly(m: Memory, es: seq<Entry>, i: nat, size: nat)
    requires DistinctPaths(es) && i < |es| && es[i].size != size && LastSize(m, es[i].path) == size
    ensures LastSize(AfterEntries(m, es), es[i].path) == size <==>
            es[i].size == 0 || es[i].size == 1 || es[i].size == 4096 || es[i].path in m.times
  {
    EntryTraced(m, es, i);
  }

  ghost predicate ListsAt(p: Poll, path: string, size: nat) {
    p.listing.Some? && exists i :: 0 <= i < |p.listing.value| && IsAt(p.listing.value[i], path, size)
  }

  predicate IsAt(e: Entry, path: string, size: nat) {
    e.path == path && e.size == size
  }

  /** The file is waiting out the delay after a submission when poll `k` begins. */
  predicate InDelay(polls: seq<Poll>, k: nat, delay: int, path: string)
    requires k < |polls|
  {
    path in Expired(AfterRun(polls[..k], delay), polls[k].started, delay).times
  }

  /** Poll `k` takes notice of the file, at this size. */
  ghost predicate Notices(polls: seq<Poll>, k: nat, delay: int, path: string, size: nat)
    requires k < |polls|
  {
    && size != 0 && size != 1 && size != 4096
    && !InDelay(polls, k, delay, path) && ListsAt(polls[k], path, size)
  }

  ghost predicate NoOtherNoticed(polls: seq<Poll>, k: nat, delay: int, path: string, size: nat)
    requires k < |polls|
  {
    forall y :: Notices(polls, k, delay, path, y) ==> y == size
  }

  /** Poll `j` took notice of the file at this size, and none of the polls up to `n` of another size. */
  ghost predicate NoticedLast(polls: seq<Poll>, j: nat, n: nat, delay: int, path: string, size: nat)
    requires n <= |polls|
  {
    && j < n && Notices(polls, j, delay, path, size)
    && forall k :: j < k < n ==> NoOtherNoticed(polls, k, delay, path, size)
  }

  lemma RunStep(polls: seq<Poll>, n: nat, delay: int)
    requires n < |polls|
    ensures AfterRun(polls[..n + 1], delay) == AfterPoll(AfterRun(polls[..n], delay), polls[n], delay)
  {
    assert polls[..n + 1] == polls[..n] + [polls[n]];
    PollUnfolds(polls[..n], polls[n], delay);
  }

  lemma SizeAfterPoll(polls: seq<Poll>, n: nat, delay: int, path: string)
    requires ListingsOk(polls) && n < |polls|
    ensures var before, after := AfterRun(polls[..n], delay), AfterRun(polls[..n + 1], delay);
            && (forall y :: Notices(polls, n, delay, path, y) ==> LastSize(after, path) == y)
            && ((forall y :: !Notices(polls, n, delay, path, y)) ==> LastSize(after, path) == LastSize(before, path))
  {
    var m := Expired(AfterRun(polls[..n], delay), polls[n].started, delay);
    RunStep(polls, n, delay);
    if polls[n].listing.Some? {
      var es := polls[n].listing.value;
      if i :| 0 <= i < |es| && es[i].path == path {
        EntryTraced(m, es, i);
        assert IsAt(es[i], path, es[i].size);
        assert HasContent(es[i].size) && !InDelay(polls, n, delay, path) ==> Notices(polls, n, delay, path, es[i].size);
      } else {
        UnlistedUntouched(m, es, path);
      }
    }
  }

  lemma NoticeExtends(polls: seq<Poll>, j: nat, n: nat, delay: int, path: string, size: nat)
    requires n < |polls|
    ensures NoticedLast(polls, j, n + 1, delay, path, size) <==>
            if j == n then Notices(polls, n, delay, path, size)
            else NoticedLast(polls, j, n, delay, path, size) && NoOtherNoticed(polls, n, delay, path, size)
  {
  }

  /** What the poller remembers of a file is the size it took notice of last. */
  lemma {:induction false} RemembersNoticed(polls: seq<Poll>, n: nat, delay: int, path: string, size: nat)
    requires ListingsOk(polls) && n <= |polls| && size > 0
    ensures LastSize(AfterRun(polls[..n], delay), path) == size <==>
            exists j :: NoticedLast(polls, j, n, delay, path, size)
    decreases n
  {
    if n > 0 {
      var last := n - 1;
      RemembersNoticed(polls, last, delay, path, size);
      SizeAfterPoll(polls, last, delay, path);
      if y :| Notices(polls, last, delay, path, y) {
        if y == size {
          assert NoticedLast(polls, last, n, delay, path, size);
        } else {
          assert !NoOtherNoticed(polls, last, delay, path, size);
          forall j: nat ensures !NoticedLast(polls, j, n, delay, path, size) {
            NoticeExtends(polls, j, last, delay, path, size);
          }
        }
      } else {
        assert NoOtherNoticed(polls, last, delay, path, size);
        forall j: nat ensures NoticedLast(polls, j, n, delay, path, size) <==>
          NoticedLast(polls, j, last, delay, path, size) {
          NoticeExtends(polls, j, last, delay, path, size);
        }
      }
    }
  }

  // ---------------------------------------------------------------- what is submitted

  ghost predicate Submits(polls: seq<Poll>, n: nat, delay: int, path: string)
    requires n < |polls|
  {
    var tr := PollTrace(AfterRun(polls[..n], delay), polls[n], delay);
    exists k :: 0 <= k < |tr| && IsSubmission(tr[k], path)
  }

  lemma {:induction false} TracedFrom(m: Memory, es: seq<Entry>, k: nat)
    requires DistinctPaths(es) && k < |EntriesTrace(m, es)|
    ensures exists i :: 0 <= i < |es| && Considered(m, es[i]) == Some(EntriesTrace(m, es)[k])
  {
    var front := es[..|es| - 1];
    if k < |EntriesTrace(m, front)| {
      TracedFrom(m, front, k);
      var i :| 0 <= i < |front| && Considered(m, front[i]) == Some(EntriesTrace(m, front)[k]);
      assert es[i] == front[i];
    } else {
      EntryAlone(m, es, |es| - 1);
    }
  }

  lemma SubmitsEntry(polls: seq<Poll>, n: nat, delay: int, i: nat)
    requires ListingsOk(polls) && n < |polls| && polls[n].listing.Some? && i < |polls[n].listing.value|
    ensures var e := polls[n].listing.value[i];
            var ev := Considered(Expired(AfterRun(polls[..n], delay), polls[n].started, delay), e);
            Submits(polls, n, delay, e.path) <==> ev.Some? && ev.value.Submitted?
  {
    var m, es := Expired(AfterRun(polls[..n], delay), polls[n].started, delay), polls[n].listing.value;
    var tr, ev := EntriesTrace(m, es), Considered(m, es[i]);
    EntryTraced(m, es, i);
    if ev.Some? && ev.value.Submitted? {
      var k :| 0 <= k < |tr| && tr[k] == ev.value;
      assert IsSubmission(([PollStarted(polls[n].started)] + tr)[k + 1], es[i].path);
    }
    if Submits(polls, n, delay, es[i].path) {
      var k :| 0 <= k < |tr| + 1 && IsSubmission(([PollStarted(polls[n].started)] + tr)[k], es[i].path);
      SubmissionFrom(m, es, i, k - 1);
    }
  }

  lemma SubmissionFrom(m: Memory, es: seq<Entry>, i: nat, k: nat)
    requires DistinctPaths(es) && i < |es| && k < |EntriesTrace(m, es)|
             && IsSubmission(EntriesTrace(m, es)[k], es[i].path)
    ensures Considered(m, es[i]) == Some(EntriesTrace(m, es)[k])
  {
    TracedFrom(m, es, k);
    var j :| 0 <= j < |es| && Considered(m, es[j]) == Some(EntriesTrace(m, es)[k]);
    assert es[j].path == es[i].path;
  }

  /** A listed file is submitted exactly when it has content and a known owner, is not waiting out
      the delay, and an earlier poll took notice of it at the same size, and none since at another. */
  lemma SubmittedExactly(polls: seq<Poll>, n: nat, delay: int, i: nat)
    requires ListingsOk(polls) && n < |polls| && polls[n].listing.Some? && i < |polls[n].listing.value|
    ensures var e := polls[n].listing.value[i];
            Submits(polls, n, delay, e.path) <==>
            && e.size != 0 && e.size != 1 && e.size != 4096 && e.owner.Some? && !InDelay(polls, n, delay, e.path)
            && exists j :: NoticedLast(polls, j, n, delay, e.path, e.size)
  {
    var e := polls[n].listing.value[i];
    SubmitsEntry(polls, n, delay, i);
    if HasContent(e.size) {
      RemembersNoticed(polls, n, delay, e.path, e.size);
    }
  }

  // ---------------------------------------------------------------- what goes unnoticed

  ghost predicate IsListed(p: Poll, path: string) {
    exists y :: ListsAt(p, path, y)
  }

  /** Poll `k` finds the file at another size, and overlooks it: without content, or in the delay. */
  ghost predicate Overlooks(polls: seq<Poll>, k: nat, delay: int, path: string, size: nat)
    requires k < |polls|
  {
    exists y :: ListsAt(polls[k], path, y) && y != size
                && (y == 0 || y == 1 || y == 4096 || InDelay(polls, k, delay, path))
  }

  lemma OneSizeListed(p: Poll, path: string, y: nat, z: nat)
    requires p.listing.Some? ==> DistinctPaths(p.listing.value)
    requires ListsAt(p, path, y) && ListsAt(p, path, z)
    ensures y == z
  {
    var es := p.listing.value;
    var i :| 0 <= i < |es| && IsAt(es[i], path, y);
    var j :| 0 <= j < |es| && IsAt(es[j], path, z);
    assert es[i].path == es[j].path;
  }

  /** While no other size is noticed, a poll finds the file at this size exactly when it lists the
      file and overlooks no other size. */
  lemma SameSizeExactly(polls: seq<Poll>, j: nat, n: nat, delay: int, path: string, size: nat, k: nat)
    requires ListingsOk(polls) && n <= |polls| && NoticedLast(polls, j, n, delay, path, size) && j <= k < n
    ensures ListsAt(polls[k], path, size) <==> IsListed(polls[k], path) && !Overlooks(polls, k, delay, path, size)
  {
    if y :| ListsAt(polls[k], path, y) {
      assert HasContent(y) && !InDelay(polls, k, delay, path) ==> Notices(polls, k, delay, path, y);
      assert k > j ==> NoOtherNoticed(polls, k, delay, path, size);
      forall z | ListsAt(polls[k], path, z) ensures z == y {
        OneSizeListed(polls[k], path, y, z);
      }
    }
  }

  /** The poll before a submission found the file at the submitted size exactly when it listed the
      file at all and overlooked no other size. So did every poll since the size was last noticed. */
  lemma SubmittedKeptSizeExactly(polls: seq<Poll>, n: nat, delay: int, i: nat)
    requires ListingsOk(polls) && n < |polls| && polls[n].listing.Some? && i < |polls[n].listing.value|
    requires Submits(polls, n, delay, polls[n].listing.value[i].path)
    ensures n > 0
    ensures var e := polls[n].listing.value[i];
            ListsAt(polls[n - 1], e.path, e.size) <==>
            IsListed(polls[n - 1], e.path) && !Overlooks(polls, n - 1, delay, e.path, e.size)
    ensures var e := polls[n].listing.value[i];
            exists j: nat :: NoticedLast(polls, j, n, delay, e.path, e.size)
                        && forall k: nat :: j <= k < n ==>
                             (ListsAt(polls[k], e.path, e.size) <==>
                              IsListed(polls[k], e.path) && !Overlooks(polls, k, delay, e.path, e.size))
  {
    var e := polls[n].listing.value[i];
    SubmittedExactly(polls, n, delay, i);
    var j: nat :| NoticedLast(polls, j, n, delay, e.path, e.size);
    forall k: nat | j <= k < n
      ensures ListsAt(polls[k], e.path, e.size) <==>
              IsListed(polls[k], e.path) && !Overlooks(polls, k, delay, e.path, e.size)
    {
      SameSizeExactly(polls, j, n, delay, e.path, e.size, k);
    }
  }

  // ---------------------------------------------------------------- the delay, by the clock

  ghost predicate HasSubmission(tr: seq<Event>, path: string, at: int) {
    exists k :: 0 <= k < |tr| && IsSubmission(tr[k], path) && tr[k].at == at
  }

  /** Whatever time is remembered is the time of a submission. */
  ghost predicate TimesTraced(m: Memory, tr: seq<Event>) {
    forall p :: p in m.times ==> HasSubmission(tr, p, m.times[p])
  }

  lemma SubmissionStays(tr: seq<Event>, more: seq<Event>, path: string, at: int)
    requires HasSubmission(tr, path, at)
    ensures HasSubmission(tr + more, path, at)
  {
    var k :| 0 <= k < |tr| && IsSubmission(tr[k], path) && tr[k].at == at;
    assert IsSubmission((tr + more)[k], path);
  }

  lemma TimesTracedStep(m: Memory, tr: seq<Event>, e: Entry)
    requires TimesTraced(m, tr)
    ensures TimesTraced(After(m, Considered(m, e)), tr + Trace(Considered(m, e)))
  {
    var ev := Considered(m, e);
    var m', tr' := After(m, ev), tr + Trace(ev);
    forall p | p in m'.times ensures HasSubmission(tr', p, m'.times[p]) {
      if ev.Some? && IsSubmission(ev.value, p) {
        assert IsSubmission(tr'[|tr|], p);
      } else {
        SubmissionStays(tr, Trace(ev), p, m.times[p]);
      }
    }
  }

  lemma {:induction false} TimesTracedEntries(m: Memory, tr: seq<Event>, es: seq<Entry>)
    requires TimesTraced(m, tr)
    ensures TimesTraced(AfterEntries(m, es), tr + EntriesTrace(m, es))
  {
    if es == [] {
      assert tr + [] == tr;
    } else {
      var front, e := es[..|es| - 1], es[|es| - 1];
      hide TimesTraced;
      TimesTracedEntries(m, tr, front);
      TimesTracedStep(AfterEntries(m, front), tr + EntriesTrace(m, front), e);
      assert tr + EntriesTrace(m, es) == tr + EntriesTrace(m, front) + Trace(Considered(AfterEntries(m, front), e));
    }
  }

  lemma TimesTracedPoll(m: Memory, tr: seq<Event>, p: Poll, delay: int)
    requires TimesTraced(m, tr)
    ensures TimesTraced(AfterPoll(m, p, delay), tr + PollTrace(m, p, delay))
  {
    var m', tr' := Expired(m, p.started, delay), tr + [PollStarted(p.started)];
    forall q | q in m'.times ensures HasSubmission(tr', q, m'.times[q]) {
      SubmissionStays(tr, [PollStarted(p.started)], q, m.times[q]);
    }
    hide TimesTraced;
    if p.listing.Some? {
      TimesTracedEntries(m', tr', p.listing.value);
      assert tr + PollTrace(m, p, delay) == tr' + EntriesTrace(m', p.listing.value);
    } else {
      assert tr + PollTrace(m, p, delay) == tr';
    }
  }

  lemma {:induction false} TimesTracedRun(polls: seq<Poll>, delay: int)
    ensures TimesTraced(AfterRun(polls, delay), RunTrace(polls, delay))
  {
    if polls != [] {
      var front := polls[..|polls| - 1];
      TimesTracedRun(front, delay);
      hide TimesTraced, AfterPoll, PollTrace;
      TimesTracedPoll(AfterRun(front, delay), RunTrace(front, delay), polls[|polls| - 1], delay);
    }
  }

  lemma ClockBefore(polls: seq<Poll>, ends: seq<int>, k: nat)
    requires ClockOk(polls, ends) && k < |polls|
    ensures ClockOk(polls[..k], ends[..k]) && (k > 0 ==> ends[k - 1] <= polls[k].started)
  {
  }

  /** A file is waiting out the delay exactly when less than the delay has passed since one of its
      submissions. */
  lemma InDelayExactly(polls: seq<Poll>, ends: seq<int>, k: nat, delay: int, path: string)
    requires ClockOk(polls, ends) && k < |polls|
    ensures InDelay(polls, k, delay, path) <==>
            exists at :: polls[k].started - at < delay && HasSubmission(RunTrace(polls[..k], delay), path, at)
  {
    ClockBefore(polls, ends, k);
    assert k == 0 ==> RunTrace(polls[..k], delay) == [];
    hide ClockOk, AfterRun, RunTrace, Apart;
    var m, tr := AfterRun(polls[..k], delay), RunTrace(polls[..k], delay);
    TimesTracedRun(polls[..k], delay);
    ResubmittedAfterDelay(polls[..k], ends[..k], delay);
    if at :| polls[k].started - at < delay && HasSubmission(tr, path, at) {
      var n :| 0 <= n < |tr| && IsSubmission(tr[n], path) && tr[n].at == at;
      assert tr[n].path in m.times && tr[n].at <= m.times[tr[n].path];
    }
  }

  // ---------------------------------------------------------------- three files that did change

  function Seen(path: string, size: nat, owner: string, at: int): Poll {
    Poll(at, Some([Entry(path, size, Some(owner), at)]))
  }

  lemma SeenNext(polls: seq<Poll>, path: string, size: nat, owner: string, at: int, delay: int)
    ensures var m := Expired(AfterRun(polls, delay), at, delay);
            var ev := Considered(m, Entry(path, size, Some(owner), at));
            && AfterRun(polls + [Seen(path, size, owner, at)], delay) == After(m, ev)
            && RunTrace(polls + [Seen(path, size, owner, at)], delay) == RunTrace(polls, delay) + [PollStarted(at)]
               + Trace(ev)
  {
    var e := Entry(path, size, Some(owner), at);
    PollUnfolds(polls, Seen(path, size, owner, at), delay);
    OneEntry(Expired(AfterRun(polls, delay), at, delay), e);
  }

  lemma RecordedFirst(path: string, owner: string)
    ensures var polls := [Seen(path, 10, owner, 1)];
            AfterRun(polls, 15) == Memory(map[path := 10], map[])
              && RunTrace(polls, 15) == [PollStarted(1), Recorded(path, 10)]
  {
    assert AfterRun([], 15) == FRESH && RunTrace([], 15) == [];
    SeenNext([], path, 10, owner, 1, 15);
    assert [] + [Seen(path, 10, owner, 1)] == [Seen(path, 10, owner, 1)];
  }

  /** A file that was seen empty since its size was recorded is submitted. */
  lemma EmptiedInBetween(path: string, owner: string)
    ensures RunTrace([Seen(path, 10, owner, 1), Seen(path, 0, owner, 2), Seen(path, 10, owner, 3)], 15)
            == [PollStarted(1), Recorded(path, 10), PollStarted(2), PollStarted(3), Submitted(path, 10, 3, owner)]
  {
    var p1, p2, p3 := Seen(path, 10, owner, 1), Seen(path, 0, owner, 2), Seen(path, 10, owner, 3);
    assert [p1] + [p2] == [p1, p2] && [p1, p2] + [p3] == [p1, p2, p3];
    RecordedFirst(path, owner);
    hide AfterRun, RunTrace, Seen;
    var recorded := Memory(map[path := 10], map[]);
    SeenNext([p1], path, 0, owner, 2, 15);
    assert Expired(recorded, 2, 15) == recorded == Expired(recorded, 3, 15);
    assert AfterRun([p1, p2], 15) == recorded;
    SeenNext([p1, p2], path, 10, owner, 3, 15);
  }

  /** A file that the poll before saw at another size, during the delay, is submitted. */
  lemma GrownInDelay(path: string, owner: string)
    ensures RunTrace([Seen(path, 10, owner, 1), Seen(path, 10, owner, 2), Seen(path, 20, owner, 3),
                      Seen(path, 10, owner, 18)], 15)
            == [PollStarted(1), Recorded(path, 10), PollStarted(2), Submitted(path, 10, 2, owner), PollStarted(3),
                PollStarted(18), Submitted(path, 10, 18, owner)]
  {
    var p1, p2 := Seen(path, 10, owner, 1), Seen(path, 10, owner, 2);
    var p3, p4 := Seen(path, 20, owner, 3), Seen(path, 10, owner, 18);
    SubmittedFirst(path, owner);
    assert [p1, p2] + [p3] == [p1, p2, p3] && [p1, p2, p3] + [p4] == [p1, p2, p3, p4];
    hide AfterRun, RunTrace, Seen;
    var submitted := Memory(map[path := 10], map[path := 2]);
    SeenNext([p1, p2], path, 20, owner, 3, 15);
    assert Expired(submitted, 3, 15) == submitted;
    assert AfterRun([p1, p2, p3], 15) == submitted;
    SeenNext([p1, p2, p3], path, 10, owner, 18, 15);
    assert Expired(submitted, 18, 15) == Memory(map[path := 10], map[]);
  }

  /** A file that the poll before did not find is submitted as soon as it is back. */
  lemma GoneInBetween(path: string, owner: string)
    ensures RunTrace([Seen(path, 10, owner, 1), Poll(2, Some([])), Seen(path, 10, owner, 3)], 15)
            == [PollStarted(1), Recorded(path, 10), PollStarted(2), PollStarted(3), Submitted(path, 10, 3, owner)]
  {
    var p1, p2, p3 := Seen(path, 10, owner, 1), Poll(2, Some([])), Seen(path, 10, owner, 3);
    assert [p1] + [p2] == [p1, p2] && [p1, p2] + [p3] == [p1, p2, p3];
    RecordedFirst(path, owner);
    PollUnfolds([p1], p2, 15);
    var recorded := Memory(map[path := 10], map[]);
    assert AfterPoll(recorded, p2, 15) == recorded && PollTrace(recorded, p2, 15) == [PollStarted(2)];
    hide AfterRun, RunTrace, Seen;
    SeenNext([p1, p2], path, 10, owner, 3, 15);
    assert Expired(recorded, 3, 15) == recorded;
  }

  lemma SubmittedFirst(path: string, owner: string)
    ensures var polls := [Seen(path, 10, owner, 1), Seen(path, 10, owner, 2)];
            && AfterRun(polls, 15) == Memory(map[path := 10], map[path := 2])
            && RunTrace(polls, 15) ==
               [PollStarted(1), Recorded(path, 10), PollStarted(2), Submitted(path, 10, 2, owner)]
  {
    var p1, p2 := Seen(path, 10, owner, 1), Seen(path, 10, owner, 2);
    assert [p1] + [p2] == [p1, p2];
    RecordedFirst(path, owner);
    hide AfterRun, RunTrace, Seen;
    SeenNext([p1], path, 10, owner, 2, 15);
  }
}
