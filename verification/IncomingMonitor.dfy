// The poller of the incoming folder: a file is submitted when it has the size that was recorded last.
module IncomingMonitor {
  import opened Wrappers

  /** A file as one poll finds it. `at` is the clock when it is looked at; the owner may be unknown. */
  datatype Entry = Entry(path: string, size: nat, owner: Option<string>, at: int)

  /** `started` is the clock at the top of the loop; a listing that fails ends the loop. */
  datatype Poll = Poll(started: int, listing: Option<seq<Entry>>)

  datatype Memory = Memory(sizes: map<string, nat>, times: map<string, int>)

  datatype Event =
    | Recorded(path: string, size: nat)
    | Submitted(path: string, size: nat, at: int, owner: string)
    | Rejected(path: string)
    | PollStarted(clock: int)

  const FRESH := Memory(map[], map[])

  // ---------------------------------------------------------------- one poll

  function Expired(m: Memory, now: int, delay: int): Memory {
    m.(times := map p | p in m.times && now - m.times[p] < delay :: m.times[p])
  }

  function LastSize(m: Memory, path: string): nat {
    if path in m.sizes then m.sizes[path] else 0
  }

  /** Files of at most one byte are still empty; 4096 is what an empty file may occupy. */
  predicate HasContent(size: nat) {
    size > 1 && size != 4096
  }

  /** What is done about one file. */
  function Considered(m: Memory, e: Entry): Option<Event> {
    if e.path in m.times || !HasContent(e.size) then None
    else if e.size != LastSize(m, e.path) then Some(Recorded(e.path, e.size))
    else match e.owner
         case Some(o) => Some(Submitted(e.path, e.size, e.at, o))
         case None => Some(Rejected(e.path))
  }

  /** What a poll remembers of what was done. */
  function After(m: Memory, ev: Option<Event>): Memory {
    match ev
    case Some(Recorded(p, z)) => m.(sizes := m.sizes[p := z])
    case Some(Submitted(p, z, t, o)) => m.(times := m.times[p := t])
    case _ => m
  }

  function Trace(ev: Option<Event>): seq<Event> {
    match ev
    case Some(x) => [x]
    case None => []
  }

  function AfterEntries(m: Memory, es: seq<Entry>): Memory {
    if es == [] then m
    else
      var b := AfterEntries(m, es[..|es| - 1]);
      After(b, Considered(b, es[|es| - 1]))
  }

  function EntriesTrace(m: Memory, es: seq<Entry>): seq<Event> {
    if es == [] then []
    else EntriesTrace(m, es[..|es| - 1]) + Trace(Considered(AfterEntries(m, es[..|es| - 1]), es[|es| - 1]))
  }

  // ---------------------------------------------------------------- whole runs

  function AfterPoll(m: Memory, p: Poll, delay: int): Memory {
    var m' := Expired(m, p.started, delay);
    if p.listing.None? then m' else AfterEntries(m', p.listing.value)
  }

  function PollTrace(m: Memory, p: Poll, delay: int): seq<Event> {
    [PollStarted(p.started)]
    + if p.listing.None? then [] else EntriesTrace(Expired(m, p.started, delay), p.listing.value)
  }

  function AfterRun(polls: seq<Poll>, delay: int): Memory {
    if polls == [] then FRESH else AfterPoll(AfterRun(polls[..|polls| - 1], delay), polls[|polls| - 1], delay)
  }

  function RunTrace(polls: seq<Poll>, delay: int): seq<Event> {
    if polls == [] then []
    else
      var front := polls[..|polls| - 1];
      RunTrace(front, delay) + PollTrace(AfterRun(front, delay), polls[|polls| - 1], delay)
  }

  /** A directory lists every path once. */
  ghost predicate DistinctPaths(es: seq<Entry>) {
    forall i, j :: 0 <= i < j < |es| ==> es[i].path != es[j].path
  }

  ghost predicate ListingsOk(polls: seq<Poll>) {
    forall k :: 0 <= k < |polls| && polls[k].listing.Some? ==> DistinctPaths(polls[k].listing.value)
  }

  // ---------------------------------------------------------------- what was recorded

  predicate RecordsPath(ev: Event, path: string) {
    ev.Recorded? && ev.path == path
  }

  /** The size that the trace last recorded for a path, and where. */
  ghost predicate LastRecorded(tr: seq<Event>, path: string, size: nat, at: int) {
    && 0 <= at < |tr| && tr[at] == Recorded(path, size)
    && forall k :: at < k < |tr| ==> !RecordsPath(tr[k], path)
  }

  ghost predicate SizesFrom(m: Memory, tr: seq<Event>) {
    forall p :: p in m.sizes ==> HasContent(m.sizes[p]) && exists at :: LastRecorded(tr, p, m.sizes[p], at)
  }

  lemma SizesFromStep(m: Memory, tr: seq<Event>, e: Entry)
    requires SizesFrom(m, tr)
    ensures SizesFrom(After(m, Considered(m, e)), tr + Trace(Considered(m, e)))
  {
    var ev := Considered(m, e);
    var m', tr' := After(m, ev), tr + Trace(ev);
    forall p | p in m'.sizes ensures HasContent(m'.sizes[p]) && exists at :: LastRecorded(tr', p, m'.sizes[p], at) {
      if ev.Some? && RecordsPath(ev.value, p) {
        assert LastRecorded(tr', p, m'.sizes[p], |tr|);
      } else {
        var at :| LastRecorded(tr, p, m.sizes[p], at);
        assert LastRecorded(tr', p, m'.sizes[p], at);
      }
    }
  }

  lemma {:induction false} SizesFromEntries(m: Memory, tr: seq<Event>, es: seq<Entry>)
    requires SizesFrom(m, tr)
    ensures SizesFrom(AfterEntries(m, es), tr + EntriesTrace(m, es))
  {
    if es == [] {
      assert tr + [] == tr;
    } else {
      var front := es[..|es| - 1];
      SizesFromEntries(m, tr, front);
      var b := AfterEntries(m, front);
      var ev := Considered(b, es[|es| - 1]);
      SizesFromStep(b, tr + EntriesTrace(m, front), es[|es| - 1]);
      assert tr + EntriesTrace(m, es) == (tr + EntriesTrace(m, front)) + Trace(ev);
    }
  }

  /** The size of a submission was recorded in an earlier poll, and no other has been recorded since. */
  ghost predicate Settled(tr: seq<Event>, n: nat)
    requires n < |tr|
  {
    tr[n].Submitted? ==>
      && HasContent(tr[n].size)
      && exists a, b :: 0 <= a < b < n && tr[b].PollStarted? && LastRecorded(tr[..n], tr[n].path, tr[n].size, a)
  }

  ghost predicate AllSettled(tr: seq<Event>) {
    forall n :: 0 <= n < |tr| ==> Settled(tr, n)
  }

  lemma SettledStays(tr: seq<Event>, more: seq<Event>)
    requires AllSettled(tr)
    ensures forall n :: 0 <= n < |tr| ==> Settled(tr + more, n)
  {
    forall n | 0 <= n < |tr| ensures Settled(tr + more, n) {
      assert Settled(tr, n) && (tr + more)[..n] == tr[..n];
    }
  }

  /** A poll does nothing about files it does not list. */
  lemma {:induction false} UnlistedUntouched(m: Memory, es: seq<Entry>, path: string)
    requires forall k :: 0 <= k < |es| ==> es[k].path != path
    ensures LastSize(AfterEntries(m, es), path) == LastSize(m, path)
    ensures path in AfterEntries(m, es).sizes <==> path in m.sizes
    ensures path in AfterEntries(m, es).times <==> path in m.times
    ensures forall k :: 0 <= k < |EntriesTrace(m, es)| ==> !RecordsPath(EntriesTrace(m, es)[k], path)
  {
    if es != [] {
      UnlistedUntouched(m, es[..|es| - 1], path);
    }
  }

  /** What a poll does about a file depends only on what was remembered when the poll began. */
  lemma EntryAlone(m: Memory, es: seq<Entry>, i: nat)
    requires DistinctPaths(es) && i < |es|
    ensures Considered(AfterEntries(m, es[..i]), es[i]) == Considered(m, es[i])
  {
    UnlistedUntouched(m, es[..i], es[i].path);
  }

  lemma SettledSubmission(tr: seq<Event>, path: string, size: nat, at: int, owner: string, a: int, b: int)
    requires AllSettled(tr) && HasContent(size)
    requires LastRecorded(tr, path, size, a) && 0 <= a < b < |tr| && tr[b].PollStarted?
    ensures AllSettled(tr + [Submitted(path, size, at, owner)])
  {
    hide LastRecorded;
    var all := tr + [Submitted(path, size, at, owner)];
    SettledStays(tr, [Submitted(path, size, at, owner)]);
    assert all[..|tr|] == tr;
    assert Settled(all, |tr|);
  }

  /** The size to be submitted was recorded before this poll. */
  lemma {:induction false} RecordedBefore(m: Memory, tr: seq<Event>, front: seq<Entry>, e: Entry) returns (a: int)
    requires SizesFrom(m, tr) && tr != [] && tr[|tr| - 1].PollStarted?
    requires forall k :: 0 <= k < |front| ==> front[k].path != e.path
    requires Considered(m, e).Some? && Considered(m, e).value.Submitted?
    ensures 0 <= a < |tr| - 1 && LastRecorded(tr + EntriesTrace(m, front), e.path, e.size, a)
  {
    a :| LastRecorded(tr, e.path, e.size, a);
    UnlistedUntouched(m, front, e.path);
  }

  lemma {:induction false} SettledEntries(m: Memory, tr: seq<Event>, es: seq<Entry>)
    requires SizesFrom(m, tr) && AllSettled(tr) && DistinctPaths(es)
    requires tr != [] && tr[|tr| - 1].PollStarted?
    ensures AllSettled(tr + EntriesTrace(m, es))
  {
    hide AllSettled, SizesFrom, LastRecorded;
    if es == [] {
      assert tr + [] == tr;
    } else {
      var front, e := es[..|es| - 1], es[|es| - 1];
      SettledEntries(m, tr, front);
      EntryAlone(m, es, |es| - 1);
      var before, ev := tr + EntriesTrace(m, front), Considered(m, e);
      assert tr + EntriesTrace(m, es) == before + Trace(ev);
      assert before[|tr| - 1] == tr[|tr| - 1];
      if ev.Some? && ev.value.Submitted? {
        var a := RecordedBefore(m, tr, front, e);
        SettledSubmission(before, e.path, e.size, e.at, ev.value.owner, a, |tr| - 1);
      } else {
        UnsubmittedSettled(before, Trace(ev));
      }
    }
  }

  lemma UnsubmittedSettled(tr: seq<Event>, more: seq<Event>)
    requires AllSettled(tr) && forall k :: 0 <= k < |more| ==> !more[k].Submitted?
    ensures AllSettled(tr + more)
  {
    hide LastRecorded;
    SettledStays(tr, more);
    forall n | |tr| <= n < |tr + more| ensures Settled(tr + more, n) {
      assert (tr + more)[n] == more[n - |tr|];
    }
  }

  lemma SettledPoll(m: Memory, tr: seq<Event>, p: Poll, delay: int)
    requires AllSettled(tr) && SizesFrom(m, tr) && (p.listing.Some? ==> DistinctPaths(p.listing.value))
    ensures AllSettled(tr + PollTrace(m, p, delay)) && SizesFrom(AfterPoll(m, p, delay), tr + PollTrace(m, p, delay))
  {
    hide AllSettled;
    var m', tr' := Expired(m, p.started, delay), tr + [PollStarted(p.started)];
    UnsubmittedSettled(tr, [PollStarted(p.started)]);
    forall q | q in m'.sizes ensures HasContent(m'.sizes[q]) && exists at :: LastRecorded(tr', q, m'.sizes[q], at) {
      var at :| LastRecorded(tr, q, m.sizes[q], at);
      assert LastRecorded(tr', q, m'.sizes[q], at);
    }
    if p.listing.Some? {
      hide SizesFrom;
      SettledEntries(m', tr', p.listing.value);
      SizesFromEntries(m', tr', p.listing.value);
      assert tr + PollTrace(m, p, delay) == tr' + EntriesTrace(m', p.listing.value);
    } else {
      assert tr + PollTrace(m, p, delay) == tr';
    }
  }

  /** Over every run, what is submitted had the same size in an earlier poll, and no other size was
      recorded in between. */
  lemma {:induction false} SubmittedWhenSettled(polls: seq<Poll>, delay: int)
    requires ListingsOk(polls)
    ensures AllSettled(RunTrace(polls, delay)) && SizesFrom(AfterRun(polls, delay), RunTrace(polls, delay))
  {
    if polls != [] {
      var front, p := polls[..|polls| - 1], polls[|polls| - 1];
      SubmittedWhenSettled(front, delay);
      SettledPoll(AfterRun(front, delay), RunTrace(front, delay), p, delay);
    }
  }

  // ---------------------------------------------------------------- time between submissions

  /** The clock never runs backwards, within a poll or from poll to poll. */
  ghost predicate Ordered(es: seq<Entry>, from: int, to: int) {
    && (forall k :: 0 <= k < |es| ==> from <= es[k].at <= to)
    && (forall j, k :: 0 <= j < k < |es| ==> es[j].at <= es[k].at)
  }

  ghost predicate ClockOk(polls: seq<Poll>, ends: seq<int>) {
    && |ends| == |polls|
    && (forall k :: 0 <= k < |polls| ==> polls[k].started <= ends[k])
    && (forall k :: 0 <= k < |polls| && polls[k].listing.Some? ==>
        Ordered(polls[k].listing.value, polls[k].started, ends[k]))
    && (forall k :: 0 < k < |polls| ==> ends[k - 1] <= polls[k].started)
  }

  predicate IsSubmission(ev: Event, path: string) {
    ev.Submitted? && ev.path == path
  }

  /** Two submissions of a file are at least the delay apart. */
  ghost predicate Apart(tr: seq<Event>, delay: int) {
    forall j, k :: 0 <= j < k < |tr| && tr[j].Submitted? && IsSubmission(tr[k], tr[j].path) ==>
      tr[k].at - tr[j].at >= delay
  }

  /** Every submission is still remembered, or lies at least the delay back. */
  ghost predicate TimesFrom(m: Memory, tr: seq<Event>, clock: int, delay: int) {
    forall k :: 0 <= k < |tr| && tr[k].Submitted? ==>
      (tr[k].path in m.times && tr[k].at <= m.times[tr[k].path]) || clock - tr[k].at >= delay
  }

  /** No remembered time lies ahead of the clock. */
  predicate TimesUpTo(m: Memory, clock: int) {
    forall p :: p in m.times ==> m.times[p] <= clock
  }

  lemma ApartEntry(m: Memory, tr: seq<Event>, e: Entry, delay: int)
    requires TimesFrom(m, tr, e.at, delay) && Apart(tr, delay) && TimesUpTo(m, e.at)
    ensures var ev := Considered(m, e);
            TimesFrom(After(m, ev), tr + Trace(ev), e.at, delay) && Apart(tr + Trace(ev), delay)
              && TimesUpTo(After(m, ev), e.at)
  {
    var ev := Considered(m, e);
    var m', tr' := After(m, ev), tr + Trace(ev);
    forall k | 0 <= k < |tr'| && tr'[k].Submitted?
      ensures (tr'[k].path in m'.times && tr'[k].at <= m'.times[tr'[k].path]) || e.at - tr'[k].at >= delay
    {
    }
  }

  lemma {:induction false} ApartEntries(m: Memory, tr: seq<Event>, es: seq<Entry>, from: int, to: int, delay: int)
    requires TimesFrom(m, tr, from, delay) && Apart(tr, delay) && Ordered(es, from, to) && from <= to
             && TimesUpTo(m, from)
    ensures TimesFrom(AfterEntries(m, es), tr + EntriesTrace(m, es), to, delay)
            && Apart(tr + EntriesTrace(m, es), delay)
    ensures TimesUpTo(AfterEntries(m, es), to)
  {
    if es == [] {
      assert tr + [] == tr;
      Later(m, tr, from, to, delay);
    } else {
      hide TimesFrom, Apart, TimesUpTo, After, Considered, Trace;
      var front, e := es[..|es| - 1], es[|es| - 1];
      ApartEntries(m, tr, front, from, e.at, delay);
      var b, before := AfterEntries(m, front), tr + EntriesTrace(m, front);
      ApartEntry(b, before, e, delay);
      assert tr + EntriesTrace(m, es) == before + Trace(Considered(b, e));
      Later(AfterEntries(m, es), tr + EntriesTrace(m, es), e.at, to, delay);
    }
  }

  lemma Later(m: Memory, tr: seq<Event>, from: int, to: int, delay: int)
    requires TimesFrom(m, tr, from, delay) && TimesUpTo(m, from) && from <= to
    ensures TimesFrom(m, tr, to, delay) && TimesUpTo(m, to)
  {
  }

  lemma ExpiredTimes(m: Memory, tr: seq<Event>, clock: int, now: int, delay: int)
    requires TimesFrom(m, tr, clock, delay) && Apart(tr, delay) && TimesUpTo(m, clock) && clock <= now
    ensures var tr' := tr + [PollStarted(now)];
            TimesFrom(Expired(m, now, delay), tr', now, delay) && Apart(tr', delay)
              && TimesUpTo(Expired(m, now, delay), now)
  {
  }

  lemma ApartPoll(m: Memory, tr: seq<Event>, p: Poll, clock: int, end: int, delay: int)
    requires TimesFrom(m, tr, clock, delay) && Apart(tr, delay) && TimesUpTo(m, clock)
    requires clock <= p.started <= end && (p.listing.Some? ==> Ordered(p.listing.value, p.started, end))
    ensures var m', tr' := AfterPoll(m, p, delay), tr + PollTrace(m, p, delay);
            TimesFrom(m', tr', end, delay) && Apart(tr', delay) && TimesUpTo(m', end)
  {
    hide TimesFrom, Apart, TimesUpTo, Expired;
    var m', tr' := Expired(m, p.started, delay), tr + [PollStarted(p.started)];
    ExpiredTimes(m, tr, clock, p.started, delay);
    if p.listing.Some? {
      ApartEntries(m', tr', p.listing.value, p.started, end, delay);
      assert tr + PollTrace(m, p, delay) == tr' + EntriesTrace(m', p.listing.value);
    } else {
      Later(m', tr', p.started, end, delay);
      assert tr + PollTrace(m, p, delay) == tr';
    }
  }

  /** Over every run, a file is not submitted again before the delay is over. */
  lemma {:induction false} ResubmittedAfterDelay(polls: seq<Poll>, ends: seq<int>, delay: int)
    requires ClockOk(polls, ends)
    ensures Apart(RunTrace(polls, delay), delay)
    ensures polls != [] ==>
              TimesFrom(AfterRun(polls, delay), RunTrace(polls, delay), ends[|polls| - 1], delay)
              && TimesUpTo(AfterRun(polls, delay), ends[|polls| - 1])
  {
    if polls != [] {
      var n := |polls| - 1;
      ResubmittedAfterDelay(polls[..n], ends[..n], delay);
      hide AfterPoll, PollTrace;
      ApartPoll(AfterRun(polls[..n], delay), RunTrace(polls[..n], delay), polls[n],
                if n > 0 then ends[n - 1] else polls[0].started, ends[n], delay);
    }
  }

  // ---------------------------------------------------------------- what does get submitted

  lemma {:induction false} EntryTraced(m: Memory, es: seq<Entry>, i: nat)
    requires DistinctPaths(es) && i < |es|
    ensures Considered(m, es[i]).Some? ==> Considered(m, es[i]).value in EntriesTrace(m, es)
    ensures LastSize(AfterEntries(m, es), es[i].path) == LastSize(After(m, Considered(m, es[i])), es[i].path)
    ensures es[i].path in AfterEntries(m, es).times <==> es[i].path in After(m, Considered(m, es[i])).times
  {
    var front, e := es[..|es| - 1], es[|es| - 1];
    EntryAlone(m, es, |es| - 1);
    var ev := Considered(m, e);
    assert EntriesTrace(m, es) == EntriesTrace(m, front) + Trace(ev);
    assert AfterEntries(m, es) == After(AfterEntries(m, front), ev);
    if i == |es| - 1 {
      UnlistedUntouched(m, front, e.path);
      hide EntriesTrace, AfterEntries, Considered;
      if ev.Some? {
        assert EntriesTrace(m, es)[|EntriesTrace(m, front)|] == ev.value;
      }
    } else {
      EntryTraced(m, front, i);
      assert front[i] == es[i] && es[i].path != e.path;
      OtherUntouched(AfterEntries(m, front), e, es[i].path);
      InFront(EntriesTrace(m, front), Trace(ev));
      hide EntriesTrace, AfterEntries, Considered, After, Trace;
    }
  }

  lemma InFront(s: seq<Event>, t: seq<Event>)
    ensures forall x :: x in s ==> x in s + t
  {
  }

  lemma OtherUntouched(m: Memory, e: Entry, path: string)
    requires e.path != path
    ensures var m' := After(m, Considered(m, e));
            LastSize(m', path) == LastSize(m, path) && (path in m'.times <==> path in m.times)
  {
  }

  /** A file with content that keeps its size over two polls, and is not waiting out the delay, is
      submitted by the second of them if its owner is known: unless the first one submitted it,
      because it had that size before. */
  lemma SettledIsSubmitted(m: Memory, first: seq<Entry>, i: nat, second: seq<Entry>, j: nat,
                           now: int, delay: int)
    requires DistinctPaths(first) && i < |first| && DistinctPaths(second) && j < |second|
    requires first[i].path == second[j].path && first[i].size == second[j].size
    requires first[i].size != 0 && first[i].size != 1 && first[i].size != 4096
    requires first[i].path !in m.times && second[j].owner.Some?
    ensures var e, f := first[i], second[j];
            if e.size == LastSize(m, e.path) && e.owner.Some?
            then Submitted(e.path, e.size, e.at, e.owner.value) in EntriesTrace(m, first)
            else Submitted(f.path, f.size, f.at, f.owner.value)
                 in EntriesTrace(Expired(AfterEntries(m, first), now, delay), second)
  {
    EntryTraced(m, first, i);
    EntryTraced(Expired(AfterEntries(m, first), now, delay), second, j);
  }

  lemma PollUnfolds(polls: seq<Poll>, p: Poll, delay: int)
    ensures AfterRun(polls + [p], delay) == AfterPoll(AfterRun(polls, delay), p, delay)
    ensures RunTrace(polls + [p], delay) == RunTrace(polls, delay) + PollTrace(AfterRun(polls, delay), p, delay)
  {
    assert (polls + [p])[..|polls|] == polls;
  }

  lemma OneEntry(m: Memory, e: Entry)
    ensures AfterEntries(m, [e]) == After(m, Considered(m, e))
    ensures EntriesTrace(m, [e]) == Trace(Considered(m, e))
  {
    assert [e][..0] == [];
    assert AfterEntries(m, []) == m && EntriesTrace(m, []) == [];
  }

  // ---------------------------------------------------------------- the poller

  /** The polls that are made: all of them up to the first whose listing fails. */
  function UpToFailure(polls: seq<Poll>): seq<Poll> {
    if polls == [] || polls[0].listing.None? then polls[..if polls == [] then 0 else 1]
    else [polls[0]] + UpToFailure(polls[1..])
  }

  lemma {:induction false} MadeExactly(polls: seq<Poll>)
    ensures var made := UpToFailure(polls);
            && made <= polls
            && (forall k :: 0 <= k < |made| - 1 ==> made[k].listing.Some?)
            && (|made| < |polls| ==> made != [] && made[|made| - 1].listing.None?)
  {
    if polls != [] && polls[0].listing.Some? {
      MadeExactly(polls[1..]);
      assert polls == [polls[0]] + polls[1..];
    }
  }

  lemma NextPoll(made: seq<Poll>, rest: seq<Poll>)
    requires rest != []
    ensures made + UpToFailure(rest) == made + [rest[0]] + if rest[0].listing.None? then [] else UpToFailure(rest[1..])
  {
    if rest[0].listing.None? {
      assert rest[..1] == [rest[0]];
    }
  }

  lemma NoPolls(delay: int)
    ensures UpToFailure([]) == [] && RunTrace([], delay) == [] && AfterRun([], delay) == FRESH
  {
  }

  class Monitor {
    var lastTestedSize: map<string, nat>
    var submissionTime: map<string, int>
    const resubmitDelay: int

    constructor (delay: int)
      ensures Mem() == FRESH && resubmitDelay == delay
    {
      lastTestedSize, submissionTime, resubmitDelay := map[], map[], delay;
    }

    function Mem(): Memory
      reads this
    {
      Memory(lastTestedSize, submissionTime)
    }

    method ConsiderFiles(es: seq<Entry>) returns (tr: seq<Event>)
      modifies this
      ensures Mem() == AfterEntries(old(Mem()), es) && tr == EntriesTrace(old(Mem()), es)
    {
      tr := [];
      ghost var m := Mem();
      for i := 0 to |es|
        invariant Mem() == AfterEntries(m, es[..i]) && tr == EntriesTrace(m, es[..i])
      {
        var e := es[i];
        assert es[..i + 1][..i] == es[..i];
        if e.path !in submissionTime && e.size > 1 && e.size != 4096 {
          if e.size == (if e.path in lastTestedSize then lastTestedSize[e.path] else 0) {
            match e.owner
            case Some(owner) =>
              submissionTime := submissionTime[e.path := e.at];
              tr := tr + [Submitted(e.path, e.size, e.at, owner)];
            case None =>
              tr := tr + [Rejected(e.path)];
          } else {
            lastTestedSize := lastTestedSize[e.path := e.size];
            tr := tr + [Recorded(e.path, e.size)];
          }
        }
      }
      assert es[..|es|] == es;
    }

    method PollOnce(p: Poll) returns (tr: seq<Event>)
      modifies this
      ensures Mem() == AfterPoll(old(Mem()), p, resubmitDelay) && tr == PollTrace(old(Mem()), p, resubmitDelay)
    {
      submissionTime :=
        map q | q in submissionTime && p.started - submissionTime[q] < resubmitDelay :: submissionTime[q];
      assert Mem() == Expired(old(Mem()), p.started, resubmitDelay);
      tr := [PollStarted(p.started)];
      if p.listing.Some? {
        var more := ConsiderFiles(p.listing.value);
        tr := tr + more;
      }
    }

    /** Polls until a listing fails, or until it is told to stop: after the last of `polls`. */
    method RunForever(polls: seq<Poll>) returns (tr: seq<Event>)
      requires Mem() == FRESH
      modifies this
      ensures tr == RunTrace(UpToFailure(polls), resubmitDelay) && Mem() == AfterRun(UpToFailure(polls), resubmitDelay)
    {
      hide RunTrace, AfterRun, PollTrace, AfterPoll, UpToFailure;
      tr := [];
      ghost var made: seq<Poll> := [];
      var rest, failed := polls, false;
      NoPolls(resubmitDelay);
      while rest != [] && !failed
        invariant made + (if failed then [] else UpToFailure(rest)) == UpToFailure(polls)
        invariant tr == RunTrace(made, resubmitDelay) && Mem() == AfterRun(made, resubmitDelay)
        decreases |rest|
      {
        var p := rest[0];
        PollUnfolds(made, p, resubmitDelay);
        NextPoll(made, rest);
        var more := PollOnce(p);
        tr := tr + more;
        failed := p.listing.None?;
        made, rest := made + [p], rest[1..];
      }
      assert made + [] == made;
    }
  }
}
