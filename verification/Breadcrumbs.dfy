// Page ids and the trail of opened folders.
module Breadcrumbs {
  import opened Wrappers
  import opened Decimal
  import opened Sorting

  datatype PageIdError = InvalidPageId

  // ---------------------------------------------------------------- page ids

  function PrintInt(n: int): string {
    if n < 0 then "-" + Print(-n) else Print(n)
  }

  function Printed(xs: seq<int>): seq<string> {
    seq(|xs|, i requires 0 <= i < |xs| => PrintInt(xs[i]))
  }

  function PageIdOf(trail: seq<int>): string {
    Join(Printed(trail), '.')
  }

  predicate AllNumerals(parts: seq<string>) {
    forall k :: 0 <= k < |parts| ==> IsNumeral(parts[k])
  }

  function Values(parts: seq<string>): seq<int>
    requires AllNumerals(parts)
  {
    seq(|parts|, i requires 0 <= i < |parts| => Value(parts[i]))
  }

  function TrailOf(pageId: Option<string>): Result<seq<int>, PageIdError> {
    if pageId.None? || pageId.value == "" then Ok([])
    else
      var parts := Split(pageId.value, '.');
      if AllNumerals(parts) then Ok(Values(parts)) else Err(InvalidPageId)
  }

  /** What the pattern accepts: numerals with single dots between them. */
  ghost predicate IsPageId(s: string) {
    exists parts :: parts != [] && AllNumerals(parts) && s == Join(parts, '.')
  }

  lemma SplitNumerals(parts: seq<string>)
    requires parts != [] && AllNumerals(parts)
    ensures Split(Join(parts, '.'), '.') == parts
    ensures Join(parts, '.') != ""
  {
    forall k | 0 <= k < |parts| ensures '.' !in parts[k] {
      DigitsHaveNo(parts[k], '.');
    }
    JoinThenSplit(parts, '.');
    assert IsNumeral(parts[0]) && Split("", '.')[0] == "";
  }

  lemma PatternExact(s: string)
    requires s != ""
    ensures TrailOf(Some(s)).Ok? <==> IsPageId(s)
  {
    SplitThenJoin(s, '.');
    if IsPageId(s) {
      var parts :| parts != [] && AllNumerals(parts) && s == Join(parts, '.');
      SplitNumerals(parts);
    }
  }

  /** A page id is read back as the trail it was printed from exactly when no id is negative. */
  lemma PrintedThenParsed(trail: seq<int>)
    ensures TrailOf(Some(PageIdOf(trail))) == Ok(trail) <==> forall k :: 0 <= k < |trail| ==> trail[k] >= 0
  {
    var parts := Printed(trail);
    if forall k :: 0 <= k < |trail| ==> trail[k] >= 0 {
      forall k | 0 <= k < |parts| ensures IsNumeral(parts[k]) && Value(parts[k]) == trail[k] {
        PrintThenValue(trail[k]);
      }
      if trail != [] {
        SplitNumerals(parts);
        assert Values(parts) == trail;
      }
    } else if TrailOf(Some(PageIdOf(trail))) == Ok(trail) {
      var k :| 0 <= k < |trail| && trail[k] < 0;
      ParsedNotNegative(PageIdOf(trail));
      assert false;
    }
  }

  lemma ParsedNotNegative(s: string)
    requires TrailOf(Some(s)).Ok?
    ensures forall k :: 0 <= k < |TrailOf(Some(s)).value| ==> TrailOf(Some(s)).value[k] >= 0
  {
  }

  /** A page id that is accepted is printed again just as it was exactly when no number has a leading zero. */
  lemma ParsedThenPrinted(s: string)
    requires s != "" && TrailOf(Some(s)).Ok?
    ensures PageIdOf(TrailOf(Some(s)).value) == s <==>
            forall k :: 0 <= k < |Split(s, '.')| ==> Canonical(Split(s, '.')[k])
  {
    var parts := Split(s, '.');
    var again := Printed(Values(parts));
    SplitThenJoin(s, '.');
    forall k | 0 <= k < |parts| ensures again[k] == parts[k] <==> Canonical(parts[k]) {
      ValueThenPrint(parts[k]);
    }
    forall k | 0 <= k < |again| ensures IsNumeral(again[k]) {
      PrintThenValue(Value(parts[k]));
    }
    SplitNumerals(again);
    if forall k :: 0 <= k < |parts| ==> Canonical(parts[k]) {
      assert again == parts;
    }
  }

  /** A home folder 1 with an open folder 20. */
  lemma TwoFolders()
    ensures PageIdOf([1, 20]) == "1.20"
  {
    assert Print(1) == "1" && Print(2) == "2" && Print(20) == Print(2) + "0";
    assert Printed([1, 20])[0] == "1" && Printed([1, 20])[1] == "20";
    assert Printed([1, 20]) == ["1", "20"];
    assert ["1", "20"][1..] == ["20"];
  }

  // ---------------------------------------------------------------- trails

  function IndexOf(t: seq<int>, x: int): (i: nat)
    requires x in t
    ensures i < |t| && t[i] == x && x !in t[..i]
  {
    if t[0] == x then 0 else 1 + IndexOf(t[1..], x)
  }

  /** Opening a folder that is on the trail goes back to it; any other goes at the end. */
  function Opened(trail: seq<int>, f: int): seq<int> {
    if f in trail then trail[..IndexOf(trail, f) + 1] else trail + [f]
  }

  lemma OpenedSimple(trail: seq<int>, f: int)
    requires NoDup(trail)
    ensures var t := Opened(trail, f);
            NoDup(t) && t != [] && t[|t| - 1] == f
  {
  }

  function OpenedAll(trail: seq<int>, visits: seq<int>): seq<int> {
    if visits == [] then trail else Opened(OpenedAll(trail, visits[..|visits| - 1]), visits[|visits| - 1])
  }

  /** What comes after the last `x`, or everything where there is none. */
  function AfterLast(w: seq<int>, x: int): (r: seq<int>)
    ensures |r| <= |w|
  {
    if w == [] || w[|w| - 1] == x then [] else AfterLast(w[..|w| - 1], x) + [w[|w| - 1]]
  }

  /** A walk with its loops cut out: from each place, go on from the last visit to it. */
  function LoopErased(w: seq<int>): seq<int>
    decreases |w|
  {
    if w == [] then [] else [w[0]] + LoopErased(AfterLast(w[1..], w[0]))
  }

  lemma {:induction false} NoneAfter(w: seq<int>, x: int)
    requires x !in w
    ensures AfterLast(w, x) == w
  {
    if w != [] {
      NoneAfter(w[..|w| - 1], x);
      assert w == w[..|w| - 1] + [w[|w| - 1]];
    }
  }

  lemma IndexUnique(t: seq<int>, x: int, i: nat)
    requires i < |t| && t[i] == x && x !in t[..i]
    ensures IndexOf(t, x) == i
  {
    var j := IndexOf(t, x);
    assert forall k :: 0 <= k < i ==> t[..i][k] == t[k];
    assert forall k :: 0 <= k < j ==> t[..j][k] == t[k];
  }

  lemma OpenedBehind(x: int, t: seq<int>, f: int)
    requires f != x
    ensures Opened([x] + t, f) == [x] + Opened(t, f)
  {
    var u := [x] + t;
    if f in t {
      var i := IndexOf(t, f);
      assert u[i + 1] == f;
      assert u[..i + 1] == [x] + t[..i];
      IndexUnique(u, f, i + 1);
      assert u[..i + 2] == [x] + t[..i + 1];
    } else {
      assert f !in u;
      assert u + [f] == [x] + (t + [f]);
    }
  }

  lemma {:induction false} ErasedGrows(w: seq<int>, f: int)
    ensures LoopErased(w + [f]) == Opened(LoopErased(w), f)
    decreases |w|
  {
    var v := w + [f];
    if w == [] {
      assert v[1..] == [];
    } else {
      var x, rest := w[0], AfterLast(w[1..], w[0]);
      assert v[1..] == w[1..] + [f] && v[1..][..|w| - 1] == w[1..];
      assert AfterLast(v[1..], x) == if f == x then [] else rest + [f];
      if f == x {
        OpenedAtStart(x, LoopErased(rest));
      } else {
        ErasedGrows(rest, f);
        OpenedBehind(x, LoopErased(rest), f);
      }
    }
  }

  lemma OpenedAtStart(x: int, t: seq<int>)
    ensures Opened([x] + t, x) == [x] + LoopErased([])
  {
    IndexUnique([x] + t, x, 0);
  }

  /** Over every run of opened folders, the trail is the walk with its loops cut out. */
  lemma {:induction false} TrailIsLoopErased(visits: seq<int>)
    ensures OpenedAll([], visits) == LoopErased(visits) && NoDup(LoopErased(visits))
  {
    if visits != [] {
      var front, f := visits[..|visits| - 1], visits[|visits| - 1];
      TrailIsLoopErased(front);
      assert visits == front + [f];
      ErasedGrows(front, f);
      OpenedSimple(LoopErased(front), f);
    }
  }

  lemma {:induction false} SimpleIsErased(trail: seq<int>)
    requires NoDup(trail)
    ensures LoopErased(trail) == trail
    decreases |trail|
  {
    if trail != [] {
      var rest := trail[1..];
      assert trail == [trail[0]] + rest;
      assert forall k :: 0 <= k < |rest| ==> rest[k] == trail[k + 1];
      assert NoDup(rest) && trail[0] !in rest;
      NoneAfter(rest, trail[0]);
      SimpleIsErased(rest);
    }
  }

  /** From any trail without repeats, opened folders extend it as if it had been walked from the start. */
  lemma {:induction false} TrailGoesOn(trail: seq<int>, visits: seq<int>)
    requires NoDup(trail)
    ensures OpenedAll(trail, visits) == LoopErased(trail + visits)
  {
    if visits == [] {
      assert trail + [] == trail;
      SimpleIsErased(trail);
    } else {
      var front, f := visits[..|visits| - 1], visits[|visits| - 1];
      TrailGoesOn(trail, front);
      assert trail + visits == trail + front + [f];
      ErasedGrows(trail + front, f);
    }
  }

  // ---------------------------------------------------------------- from ids to folders

  ghost predicate Resolvable(ids: seq<int>, folders: set<int>) {
    ids != [] && NoDup(ids) && forall k :: 0 <= k < |ids| ==> ids[k] in folders
  }

  /** The folders that a trail shows: all of it, or just the root folder. */
  ghost function Resolved(ids: seq<int>, folders: set<int>, root: int): seq<int> {
    if Resolvable(ids, folders) then ids else [root]
  }

  function Found(ids: seq<int>, folders: set<int>): set<int> {
    set f | f in ids && f in folders
  }

  lemma FoundGrows(front: seq<int>, last: int, folders: set<int>)
    ensures Found(front + [last], folders) == Found(front, folders) + if last in folders then {last} else {}
  {
  }

  lemma SimpleGrows(front: seq<int>, last: int)
    ensures NoDup(front + [last]) <==> NoDup(front) && last !in front
  {
    var ids := front + [last];
    if last in front {
      var k :| 0 <= k < |front| && front[k] == last;
      assert ids[k] == ids[|front|];
    }
    if NoDup(ids) {
      assert forall j, k :: 0 <= j < k < |front| ==> ids[j] == front[j] && ids[k] == front[k];
    }
  }

  /** Counting the rows found tells whether all ids exist and none is repeated. */
  lemma {:induction false} CountExact(ids: seq<int>, folders: set<int>)
    ensures |Found(ids, folders)| <= |ids|
    ensures |Found(ids, folders)| == |ids| <==> NoDup(ids) && forall k :: 0 <= k < |ids| ==> ids[k] in folders
  {
    if ids == [] {
      assert Found(ids, folders) == {};
    } else {
      hide NoDup;
      var front, last := ids[..|ids| - 1], ids[|ids| - 1];
      assert ids == front + [last];
      CountExact(front, folders);
      FoundGrows(front, last, folders);
      SimpleGrows(front, last);
      assert last in Found(front, folders) <==> last in front && last in folders;
      if last in Found(front, folders) {
        assert Found(ids, folders) == Found(front, folders);
      }
    }
  }

  /** What a run of opened folders leaves, when folders come and go in between. */
  ghost function TrailAfter(cookie: seq<int>, visits: seq<(int, set<int>)>, root: int): seq<int> {
    if visits == [] then cookie
    else
      var v := visits[|visits| - 1];
      Opened(Resolved(TrailAfter(cookie, visits[..|visits| - 1], root), v.1, root), v.0)
  }

  /** Whatever the cookie held, and whichever folders go, the trail never repeats a folder and ends
      with the one opened last. */
  lemma EveryTrailSimple(cookie: seq<int>, visits: seq<(int, set<int>)>, root: int)
    requires visits != []
    ensures var t := TrailAfter(cookie, visits, root);
            NoDup(t) && t != [] && t[|t| - 1] == visits[|visits| - 1].0
  {
    var v := visits[|visits| - 1];
    OpenedSimple(Resolved(TrailAfter(cookie, visits[..|visits| - 1], root), v.1, root), v.0);
  }

  function Places(visits: seq<(int, set<int>)>): seq<int> {
    if visits == [] then [] else Places(visits[..|visits| - 1]) + [visits[|visits| - 1].0]
  }

  lemma {:induction false} PlaceAt(visits: seq<(int, set<int>)>)
    ensures |Places(visits)| == |visits| && forall k :: 0 <= k < |visits| ==> Places(visits)[k] == visits[k].0
  {
    if visits != [] {
      PlaceAt(visits[..|visits| - 1]);
    }
  }

  /** The root folder and the folders opened so far exist whenever another is opened. */
  ghost predicate FoldersStay(visits: seq<(int, set<int>)>, root: int) {
    && (forall k :: 0 <= k < |visits| ==> root in visits[k].1)
    && (forall j, k :: 0 <= j < k < |visits| ==> visits[j].0 in visits[k].1)
  }

  ghost predicate AllIn(walk: seq<int>, folders: set<int>) {
    forall f :: f in walk ==> f in folders
  }

  lemma WalkStays(visits: seq<(int, set<int>)>, root: int)
    requires visits != [] && FoldersStay(visits, root)
    ensures AllIn([root] + Places(visits[..|visits| - 1]), visits[|visits| - 1].1)
    ensures FoldersStay(visits[..|visits| - 1], root)
  {
    PlaceAt(visits[..|visits| - 1]);
  }

  lemma OpenedFrom(trail: seq<int>, f: int, walk: seq<int>)
    requires forall k :: 0 <= k < |trail| ==> trail[k] in walk
    ensures forall k :: 0 <= k < |Opened(trail, f)| ==> Opened(trail, f)[k] in walk + [f]
  {
  }

  ghost predicate ShowsWalk(t: seq<int>, walk: seq<int>) {
    t == LoopErased(walk) && forall k :: 0 <= k < |t| ==> t[k] in walk
  }

  lemma WalkResolves(t: seq<int>, walk: seq<int>, folders: set<int>, root: int)
    requires t != [] && NoDup(t) && AllIn(walk, folders) && forall k :: 0 <= k < |t| ==> t[k] in walk
    ensures Resolved(t, folders, root) == t
  {
    forall k | 0 <= k < |t| ensures t[k] in folders {
      assert t[k] in walk;
    }
  }

  lemma ShowsWalkStep(t: seq<int>, walk: seq<int>, f: int, folders: set<int>, root: int)
    requires ShowsWalk(t, walk) && walk != [] && AllIn(walk, folders)
    ensures ShowsWalk(Opened(Resolved(t, folders, root), f), walk + [f])
  {
    assert t != [];
    TrailIsLoopErased(walk);
    hide LoopErased, Opened, AllIn, Resolved, NoDup, OpenedAll;
    WalkResolves(t, walk, folders, root);
    ErasedGrows(walk, f);
    OpenedFrom(t, f, walk);
  }

  /** While the folders visited stay, a session that starts at the root folder shows its loop-erased walk. */
  lemma {:induction false} SessionIsLoopErased(visits: seq<(int, set<int>)>, root: int)
    requires FoldersStay(visits, root)
    ensures ShowsWalk(TrailAfter([root], visits, root), [root] + Places(visits))
  {
    if visits == [] {
      StartShown(root);
    } else {
      hide ShowsWalk, Resolved, Opened, FoldersStay;
      var front, v := visits[..|visits| - 1], visits[|visits| - 1];
      WalkStays(visits, root);
      SessionIsLoopErased(front, root);
      ShowsWalkStep(TrailAfter([root], front, root), [root] + Places(front), v.0, v.1, root);
      assert [root] + Places(visits) == [root] + Places(front) + [v.0];
    }
  }

  lemma StartShown(root: int)
    ensures ShowsWalk([root], [root] + Places([]))
  {
    assert [root] + Places([]) == [root];
    assert [root][1..] == [];
  }
}
