// The viewers of media files: sessions that connect, open files and disconnect, with the two locks
// of an opening taken one after the other.
module MediaViewers {
  import opened Wrappers
  import opened CollabState

  /** `dropping` is the previous guard of an opening that has pushed its entry and not yet dropped it. */
  datatype Viewer = Viewer(guard: Option<string>, dropping: Option<Option<string>>)

  datatype Viewers = Viewers(lists: SenderLists, viewers: map<Chan, Viewer>)

  datatype Action =
    | Connect
    | Push(media: string)
    | DropPrevious
    | Disconnect

  const NOBODY: Viewers := Viewers(map[], map[])

  /** One critical section of session `x`, or `None` when it is not at that point. */
  function Step(s: Viewers, x: Chan, a: Action): Option<Viewers> {
    if a.Connect? then
      if x in s.viewers then None else Some(s.(viewers := s.viewers[x := Viewer(None, None)]))
    else if x !in s.viewers then None
    else
      var v := s.viewers[x];
      match a
      case Push(m) =>
        if v.dropping.Some? then None
        else Some(Viewers(AddSender(s.lists, m, x), s.viewers[x := Viewer(Some(m), Some(v.guard))]))
      case DropPrevious =>
        if v.dropping.None? then None
        else Some(Viewers(DropGuard(s.lists, v.dropping.value, x), s.viewers[x := Viewer(v.guard, None)]))
      case Disconnect =>
        if v.dropping.Some? then None
        else Some(Viewers(DropGuard(s.lists, v.guard, x), s.viewers - {x}))
      case _ => None
  }

  /** The two steps of an opening, with nothing in between, are the whole opening. */
  lemma OpeningInSteps(s: Viewers, x: Chan, media: string)
    requires x in s.viewers && s.viewers[x].dropping.None?
    ensures var pushed := Step(s, x, Push(media));
            && pushed.Some? && Step(pushed.value, x, DropPrevious).Some?
            && Step(pushed.value, x, DropPrevious).value.lists == LinkedToMedia(s.lists, s.viewers[x].guard, media, x)
  {
  }

  // ---------------------------------------------------------------- what the history says

  /** Where a session is listed: at most twice, while its opening is between its two locks. */
  datatype Places = Places(first: Option<string>, second: Option<string>)

  /** Follows the steps of session `y` alone: the guard it holds, the one it is about to drop, and
      the files it is listed for. */
  function After(steps: seq<(Chan, Action)>, y: Chan): (Viewer, Places) {
    if steps == [] then (Viewer(None, None), Places(None, None))
    else
      var (v, p) := After(steps[..|steps| - 1], y);
      var (x, a) := steps[|steps| - 1];
      if x != y then (v, p)
      else
        match a
        case Connect => (Viewer(None, None), Places(None, None))
        case Push(m) => (Viewer(Some(m), Some(v.guard)), Places(p.first, Some(m)))
        case DropPrevious =>
          // an opening of the file that is open already takes the session off its list
          if v.dropping.None? then (v, p)
          else (Viewer(v.guard, None), Places(if v.dropping.value == v.guard then None else v.guard, None))
        case Disconnect => (Viewer(None, None), Places(None, None))
  }

  function Times(p: Places, key: string): nat {
    (if p.first == Some(key) then 1 else 0) + (if p.second == Some(key) then 1 else 0)
  }

  ghost predicate IsRun(run: seq<Viewers>, steps: seq<(Chan, Action)>) {
    && |run| == |steps| + 1 && run[0] == NOBODY
    && forall k :: 0 <= k < |steps| ==> Step(run[k], steps[k].0, steps[k].1) == Some(run[k + 1])
  }

  lemma {:induction false} WithoutCount(list: seq<Chan>, x: Chan, y: Chan)
    ensures multiset(Without(list, x))[y] == if y == x then 0 else multiset(list)[y]
  {
    if list != [] {
      WithoutCount(list[1..], x, y);
      assert list == [list[0]] + list[1..];
    }
  }

  function Count(lists: SenderLists, key: string, y: Chan): nat {
    multiset(Listed(lists, key))[y]
  }

  lemma DropCount(lists: SenderLists, guard: Option<string>, x: Chan, key: string, y: Chan)
    ensures Count(DropGuard(lists, guard, x), key, y) ==
            if guard == Some(key) && y == x then 0 else Count(lists, key, y)
  {
    if guard.Some? {
      WithoutCount(Listed(lists, guard.value), x, y);
    }
  }

  lemma AddCount(lists: SenderLists, media: string, x: Chan, key: string, y: Chan)
    ensures Count(AddSender(lists, media, x), key, y) == Count(lists, key, y) + if key == media && y == x then 1 else 0
  {
  }

  /** What the steps of a session say is what the server holds for it. */
  ghost predicate Agrees(s: Viewers, y: Chan, v: Viewer, p: Places) {
    && (y in s.viewers ==> s.viewers[y] == v)
    && (y !in s.viewers ==> v == Viewer(None, None))
    && (p.first.Some? ==> p.first == if v.dropping.Some? then v.dropping.value else v.guard)
    && (p.second == if v.dropping.Some? then v.guard else None)
    && (v.dropping.Some? ==> v.guard.Some?)
    && forall key :: Count(s.lists, key, y) == Times(p, key)
  }

  lemma StepAgrees(s: Viewers, x: Chan, a: Action, steps: seq<(Chan, Action)>, y: Chan)
    requires Step(s, x, a).Some?
    requires Agrees(s, y, After(steps, y).0, After(steps, y).1)
    ensures var now := After(steps + [(x, a)], y); Agrees(Step(s, x, a).value, y, now.0, now.1)
  {
    var all := steps + [(x, a)];
    assert all[..|steps|] == steps;
    var t, now := Step(s, x, a).value, After(all, y);
    forall key ensures Count(t.lists, key, y) == Times(now.1, key) {
      match a {
        case Push(m) => AddCount(s.lists, m, x, key, y);
        case DropPrevious => DropCount(s.lists, s.viewers[x].dropping.value, x, key, y);
        case Disconnect => DropCount(s.lists, s.viewers[x].guard, x, key, y);
        case Connect =>
      }
    }
  }

  /** In every run of openings and disconnects of any sessions, every session is listed exactly as
      often as its own steps say: twice for a file only between the two locks of a re-opening. */
  lemma {:induction false} EveryRunAgrees(run: seq<Viewers>, steps: seq<(Chan, Action)>, n: nat, y: Chan)
    requires IsRun(run, steps) && n <= |steps|
    ensures Agrees(run[n], y, After(steps[..n], y).0, After(steps[..n], y).1)
  {
    hide Agrees, Step;
    if n == 0 {
      NobodyAgrees(y);
      assert steps[..0] == [];
    } else {
      EveryRunAgrees(run, steps, n - 1, y);
      assert Step(run[n - 1], steps[n - 1].0, steps[n - 1].1) == Some(run[n - 1 + 1]);
      assert steps[..n] == steps[..n - 1] + [(steps[n - 1].0, steps[n - 1].1)];
      StepAgrees(run[n - 1], steps[n - 1].0, steps[n - 1].1, steps[..n - 1], y);
    }
  }

  lemma NobodyAgrees(y: Chan)
    ensures Agrees(NOBODY, y, After([], y).0, After([], y).1)
  {
  }

  /** The last opening of `y` was of the file it had open already. */
  predicate Reopened(steps: seq<(Chan, Action)>, y: Chan) {
    if steps == [] then false
    else
      var front, (x, a) := steps[..|steps| - 1], steps[|steps| - 1];
      if x != y || a.DropPrevious? then Reopened(front, y)
      else a.Push? && After(front, y).0.guard == Some(a.media)
  }

  lemma {:induction false} ReopenedExact(steps: seq<(Chan, Action)>, y: Chan)
    ensures var (v, p) := After(steps, y);
            && (v.dropping.Some? ==> (Reopened(steps, y) <==> v.dropping.value == v.guard && v.guard.Some?))
            && (v.dropping.None? ==> p.first == if Reopened(steps, y) then None else v.guard)
  {
    if steps != [] {
      ReopenedExact(steps[..|steps| - 1], y);
    }
  }

  /** In every run, a session between two openings is listed for a file exactly when its guard is for
      that file and its last opening was not of a file it had open already. */
  lemma ViewerExactly(run: seq<Viewers>, steps: seq<(Chan, Action)>, n: nat, y: Chan, key: string)
    requires IsRun(run, steps) && n <= |steps| && y in run[n].viewers && run[n].viewers[y].dropping.None?
    ensures IsListed(run[n].lists, key, y) <==> run[n].viewers[y].guard == Some(key) && !Reopened(steps[..n], y)
    ensures Count(run[n].lists, key, y) <= 1
  {
    hide Step;
    EveryRunAgrees(run, steps, n, y);
    ReopenedExact(steps[..n], y);
    assert IsListed(run[n].lists, key, y) <==> Count(run[n].lists, key, y) > 0;
  }
}
