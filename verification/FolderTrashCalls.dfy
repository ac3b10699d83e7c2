// The recursion that trashes a folder: which calls it makes, and when it comes to an end.
module FolderTrashCalls {
  import opened Wrappers
  import opened Sorting
  import opened FiniteSets
  import opened Graphs
  import opened FolderStore
  import opened FolderMoves
  import opened FolderTrash

  /** The subfolders of a folder, in some order. */
  ghost predicate ListsSubfolders(s: Store, f: int, ids: seq<int>) {
    NoDup(ids) && forall c :: c in ids <==> c in Subfolders(s, f)
  }

  lemma NothingRemoved(s: Store)
    ensures Removed(s, {}) == s
  {
    assert Removed(s, {}).placed == s.placed && Removed(s, {}).folders == s.folders;
  }

  ghost predicate AllEnd(s: Store, ids: seq<int>) {
    forall k :: 0 <= k < |ids| ==> Ends(s, ids[k])
  }

  /** What is left when the first `i` subfolders are trashed. */
  ghost function AfterSiblings(s: Store, ids: seq<int>, i: nat): Store
    requires i <= |ids|
  {
    Removed(s, SubtreesOf(s, ids[..i]))
  }

  /** When the recursion comes to the next subfolder, its subtree is still as it was. */
  lemma NextSubfolder(s: Store, f: int, ids: seq<int>, i: nat)
    requires ValidStore(s) && f in s.folders && ListsSubfolders(s, f, ids) && i < |ids| && AllEnd(s, ids[..i + 1])
    ensures var gone, c, t := SubtreesOf(s, ids[..i]), ids[i], AfterSiblings(s, ids, i);
            && ValidStore(t) && c in t.folders && Ends(t, c)
            && Subtree(t, c) == Subtree(s, c) && Subtree(s, c) < Subtree(s, f)
            && Subtree(s, c) !! gone && f !in gone && f !in Subtree(s, c)
  {
    var gone, c := SubtreesOf(s, ids[..i]), ids[i];
    RemovedKeeps(s, gone);
    forall k | 0 <= k <= i ensures (f, ids[k]) in Edges(s) && Ends(s, ids[k]) && f !in Subtree(s, ids[k]) {
      assert ids[k] in ids && ids[..i + 1][k] == ids[k];
      SubfolderExact(s, f, ids[k]);
      SubfolderEnds(s, f, ids[k]);
    }
    SubfolderEnds(s, f, c);
    forall g | g in gone ensures g !in Subtree(s, c) && g != f {
      SubtreesOfExact(s, ids[..i], g);
      var k :| 0 <= k < i && g in Subtree(s, ids[..i][k]);
      SubfoldersApart(s, f, ids[k], c, g);
    }
    SubtreeHasRoot(s, c);
    SubtreeUntouched(s, gone, c);
    UntouchedEnds(s, gone, c);
  }

  /** Trashing the next subfolder means the same as trashing it first. */
  lemma TrashStep(s: Store, f: int, ids: seq<int>, i: nat, user: User)
    requires ValidStore(s) && f in s.folders && ListsSubfolders(s, f, ids) && i < |ids| && AllEnd(s, ids[..i + 1])
    ensures var c, t := ids[i], AfterSiblings(s, ids, i);
            Trash(t, c, user) ==
              if MayTrash(s, c, user) then Ok(Removed(t, Subtree(s, c))) else Err(PermissionDenied)
    ensures !MayTrash(s, ids[i], user) ==> !MayTrash(s, f, user)
  {
    var c, t := ids[i], AfterSiblings(s, ids, i);
    NextSubfolder(s, f, ids, i);
    assert Subtree(t, c) == Subtree(s, c);
    forall g | g in Subtree(s, c) ensures g in t.folders && t.folders[g] == s.folders[g] {
      assert g in Subtree(t, c);
    }
    if MayTrash(s, c, user) {
      assert MayTrash(t, c, user);
    } else {
      var g :| g in Subtree(s, c) && !Allowed(user, s.folders[g].owner);
      assert g in Subtree(t, c);
      assert g in Subtree(s, f);
    }
  }

  lemma SiblingGone(s: Store, ids: seq<int>, i: nat)
    requires i < |ids|
    ensures SubtreesOf(s, ids[..i + 1]) == SubtreesOf(s, ids[..i]) + Subtree(s, ids[i])
    ensures AfterSiblings(s, ids, i + 1) == Removed(AfterSiblings(s, ids, i), Subtree(s, ids[i]))
  {
    assert ids[..i + 1][..i] == ids[..i];
    RemovedTwice(s, SubtreesOf(s, ids[..i]), Subtree(s, ids[i]));
  }

  // ---------------------------------------------------------------- what siblings leave alone

  /** A folder that leads to `f` is not in the subtree of a subfolder of `f` that is on no loop. */
  lemma AboveSurvives(s: Store, f: int, ids: seq<int>, i: nat, x: int)
    requires ValidStore(s) && f in s.folders && ListsSubfolders(s, f, ids) && i <= |ids| && AllEnd(s, ids[..i])
    requires Reaches(Edges(s), x, f)
    ensures x !in SubtreesOf(s, ids[..i])
  {
    SubtreesOfExact(s, ids[..i], x);
    if k :| 0 <= k < i && x in Subtree(s, ids[..i][k]) {
      assert ids[k] in ids && ids[..i][k] == ids[k];
      SubfolderExact(s, f, ids[k]);
      ReachesTransitive(Edges(s), ids[k], x, f);
      LeadsBack(Edges(s), f, ids[k]);
    }
  }

  lemma EdgeSurvives(s: Store, ds: set<int>, a: int, b: int)
    requires (a, b) in Edges(s) && a !in ds && b !in ds
    ensures (a, b) in Edges(Removed(s, ds))
  {
    EdgeExact(s, a, b);
    assert !Touches(s, Sub(b), ds);
    EdgeExact(Removed(s, ds), a, b);
  }

  lemma PathSurvives(s: Store, ds: set<int>, p: seq<int>)
    requires IsPath(Edges(s), p) && forall k :: 0 <= k < |p| ==> p[k] !in ds
    ensures IsPath(Edges(Removed(s, ds)), p)
  {
    forall k | 0 <= k < |p| - 1 ensures (p[k], p[k + 1]) in Edges(Removed(s, ds)) {
      EdgeSurvives(s, ds, p[k], p[k + 1]);
    }
  }

  /** While subfolders on no loop are trashed, the loop that the folder itself is on stays closed. */
  lemma LoopSurvives(s: Store, f: int, ids: seq<int>, i: nat, x: int, y: int)
    requires ValidStore(s) && f in s.folders && ListsSubfolders(s, f, ids) && i <= |ids| && AllEnd(s, ids[..i])
    requires SameLoop(Edges(s), f, x) && SameLoop(Edges(s), f, y)
    ensures Reaches(Edges(AfterSiblings(s, ids, i)), x, y)
  {
    var es := Edges(s);
    ReachesTransitive(es, x, f, y);
    var p :| IsPathFrom(es, x, y, p);
    forall k | 0 <= k < |p| ensures p[k] !in SubtreesOf(s, ids[..i]) {
      PathReaches(es, p, k, |p| - 1);
      ReachesTransitive(es, p[k], y, f);
      AboveSurvives(s, f, ids, i, p[k]);
    }
    PathSurvives(s, SubtreesOf(s, ids[..i]), p);
    assert IsPathFrom(Edges(AfterSiblings(s, ids, i)), x, y, p);
  }

  lemma LoopStays(s: Store, f: int, ids: seq<int>, i: nat, x: int)
    requires ValidStore(s) && f in s.folders && ListsSubfolders(s, f, ids) && i <= |ids| && AllEnd(s, ids[..i])
    requires SameLoop(Edges(s), f, x)
    ensures var t := AfterSiblings(s, ids, i);
            && ValidStore(t) && f in t.folders && x in t.folders && SameLoop(Edges(t), f, x)
            && t.folders[x] == s.folders[x] && t.folders[f] == s.folders[f]
  {
    var es, t := Edges(s), AfterSiblings(s, ids, i);
    RemovedKeeps(s, SubtreesOf(s, ids[..i]));
    ReachedExists(s, f, x);
    ReachesSelf(es, f);
    AboveSurvives(s, f, ids, i, f);
    AboveSurvives(s, f, ids, i, x);
    LoopSurvives(s, f, ids, i, f, x);
    LoopSurvives(s, f, ids, i, x, f);
    var b :| (f, b) in es && Reaches(es, b, f);
    EdgeReaches(es, f, b);
    AboveSurvives(s, f, ids, i, b);
    EdgeSurvives(s, SubtreesOf(s, ids[..i]), f, b);
    LoopSurvives(s, f, ids, i, b, f);
  }

  /** A subfolder on a loop is on the loop of its parent. */
  lemma LoopChild(s: Store, f: int, c: int)
    requires (f, c) in Edges(s) && !Ends(s, c)
    ensures SameLoop(Edges(s), f, c) && SameLoop(Edges(s), c, f)
  {
    var es := Edges(s);
    FolderHasOneParent(s);
    ReachesSelf(es, c);
    LoopHasParents(es, c, (f, c));
    LoopMember(es, c, f);
  }

  /** A folder on a loop has a subfolder on that loop. */
  lemma LoopGoesOn(s: Store, f: int, ids: seq<int>) returns (i: nat)
    requires ListsSubfolders(s, f, ids) && !Ends(s, f)
    ensures i < |ids| && !Ends(s, ids[i]) && AllEnd(s, ids[..i])
  {
    var es := Edges(s);
    var b :| (f, b) in es && Reaches(es, b, f);
    LeadsBack(es, f, b);
    SubfolderExact(s, f, b);
    assert b in ids;
    i := 0;
    while Ends(s, ids[i])
      invariant i < |ids| && AllEnd(s, ids[..i])
      invariant b in ids[i..]
      decreases |ids| - i
    {
      assert ids[i..][1..] == ids[i + 1..] && ids[i..][0] == ids[i];
      assert ids[..i + 1] == ids[..i] + [ids[i]];
      i := i + 1;
    }
  }

  // ---------------------------------------------------------------- calls nested without end

  /** The order in which the database returns the subfolders of a folder. */
  type RowOrder = (Store, int) -> seq<int>

  ghost predicate OrdersRows(rows: RowOrder, s: Store, f: int) {
    ListsSubfolders(s, f, rows(s, f))
  }

  ghost predicate IsRowOrder(rows: RowOrder) {
    forall s, f :: OrdersRows(rows, s, f)
  }

  /** What is left when the calls for the subfolders `ids`, one after the other, all succeed. */
  ghost function AllTrashed(s: Store, ids: seq<int>, user: User): Option<Store> {
    if ids == [] then Some(s)
    else
      match AllTrashed(s, ids[..|ids| - 1], user)
      case None => None
      case Some(mid) =>
        match Trash(mid, ids[|ids| - 1], user)
        case Ok(t) => if Ends(mid, ids[|ids| - 1]) then Some(t) else None
        case Err(_) => None
  }

  /** The call on `f` passes its check, and with the subfolders before it trashed comes to a call on
      a subfolder, and so on, n calls deep. */
  ghost predicate NestsTo(rows: RowOrder, s: Store, f: int, user: User, n: nat)
    decreases n
  {
    n == 0 ||
    (f in s.folders && Allowed(user, s.folders[f].owner)
     && exists i :: 0 <= i < |rows(s, f)| && CallsOn(s, rows(s, f), i, user)
                    && NestsTo(rows, AllTrashed(s, rows(s, f)[..i], user).value, rows(s, f)[i], user, n - 1))
  }

  ghost predicate CallsOn(s: Store, ids: seq<int>, i: nat, user: User) {
    i < |ids| && AllTrashed(s, ids[..i], user).Some?
  }

  lemma {:induction false} TrashedInTurn(s: Store, f: int, ids: seq<int>, i: nat, user: User)
    requires ValidStore(s) && f in s.folders && ListsSubfolders(s, f, ids) && i <= |ids|
    requires AllEnd(s, ids[..i])
    ensures AllTrashed(s, ids[..i], user).Some? ==> AllTrashed(s, ids[..i], user) == Some(AfterSiblings(s, ids, i))
    ensures MayTrash(s, f, user) ==> AllTrashed(s, ids[..i], user).Some?
  {
    if i == 0 {
      NothingRemoved(s);
    } else {
      assert ids[..i][..i - 1] == ids[..i - 1] && AllEnd(s, ids[..i - 1 + 1]);
      assert AllEnd(s, ids[..i - 1]);
      hide ListsSubfolders, ValidStore, Subtree, MayTrash, Trash, Ends, AllEnd;
      TrashedInTurn(s, f, ids, i - 1, user);
      NextSubfolder(s, f, ids, i - 1);
      TrashStep(s, f, ids, i - 1, user);
      SiblingGone(s, ids, i - 1);
    }
  }

  lemma LoopCall(s: Store, f: int, ids: seq<int>, user: User) returns (i: nat)
    requires ValidStore(s) && f in s.folders && ListsSubfolders(s, f, ids) && !Ends(s, f) && MayTrash(s, f, user)
    ensures i < |ids| && Allowed(user, s.folders[f].owner)
    ensures var c, t := ids[i], AfterSiblings(s, ids, i);
            && CallsOn(s, ids, i, user) && AllTrashed(s, ids[..i], user) == Some(t)
            && ValidStore(t) && c in t.folders && !Ends(t, c) && MayTrash(t, c, user)
  {
    i := LoopGoesOn(s, f, ids);
    SubtreeHasRoot(s, f);
    hide MayTrash, AllTrashed;
    var c, t := ids[i], AfterSiblings(s, ids, i);
    TrashedInTurn(s, f, ids, i, user);
    assert c in ids;
    SubfolderExact(s, f, c);
    LoopChild(s, f, c);
    LoopStays(s, f, ids, i, c);
    LoopMember(Edges(t), f, c);
    MayTrashBelow(s, SubtreesOf(s, ids[..i]), f, c, user);
  }

  /** From a folder on a loop whose subtree the user may trash, calls nest to every depth, in
      whatever order the rows come. */
  lemma {:induction false} LoopNests(rows: RowOrder, s: Store, f: int, user: User, n: nat)
    requires IsRowOrder(rows) && ValidStore(s) && f in s.folders && !Ends(s, f) && MayTrash(s, f, user)
    ensures NestsTo(rows, s, f, user, n)
    decreases n
  {
    if n > 0 {
      var ids := rows(s, f);
      assert OrdersRows(rows, s, f);
      assert ListsSubfolders(s, f, ids);
      hide ListsSubfolders, ValidStore, MayTrash, Ends, AllTrashed, IsRowOrder, CallsOn;
      var i := LoopCall(s, f, ids, user);
      LoopNests(rows, AfterSiblings(s, ids, i), ids[i], user, n - 1);
    }
  }

  lemma MayTrashBelow(s: Store, ds: set<int>, f: int, c: int, user: User)
    requires ValidStore(s) && f in s.folders && Reaches(Edges(s), f, c) && MayTrash(s, f, user)
    ensures MayTrash(Removed(s, ds), c, user)
  {
    var t := Removed(s, ds);
    RemovedKeeps(s, ds);
    forall g | g in Subtree(t, c) ensures Allowed(user, t.folders[g].owner) {
      ReachesMore(Edges(t), Edges(s), c, g);
      ReachesTransitive(Edges(s), f, c, g);
      assert g in Subtree(s, f);
    }
  }

  lemma MayTrashOwn(s: Store, f: int, user: User)
    requires ValidStore(s) && OwnersAgree(s) && f in s.folders && Allowed(user, s.folders[f].owner)
    ensures MayTrash(s, f, user)
  {
    forall g | g in Subtree(s, f) ensures Allowed(user, s.folders[g].owner) {
      var p :| IsPathFrom(Edges(s), f, g, p);
      OneOwner(s, f, g, p);
    }
  }

  /** Where owners agree, a whole subtree has one owner. */
  lemma {:induction false} OneOwner(s: Store, f: int, g: int, p: seq<int>)
    requires ValidStore(s) && OwnersAgree(s) && f in s.folders && IsPathFrom(Edges(s), f, g, p)
    ensures g in s.folders && s.folders[g].owner == s.folders[f].owner
    decreases |p|
  {
    if |p| > 1 {
      assert (p[0], p[0 + 1]) in Edges(s);
      EdgeExact(s, p[0], p[1]);
      assert PlacedAgrees(s, Sub(p[1]));
      assert IsPathFrom(Edges(s), p[1], g, p[1..]);
      OneOwner(s, p[1], g, p[1..]);
    }
  }

  // ---------------------------------------------------------------- calls that come to an end

  /** The recursion ends: the folder is on no loop, or the user may not trash some folder of that loop. */
  ghost predicate Halts(s: Store, f: int, user: User) {
    Ends(s, f) || exists g :: RefusedOnLoop(s, f, user, g)
  }

  ghost predicate RefusedOnLoop(s: Store, f: int, user: User, g: int) {
    g in s.folders && SameLoop(Edges(s), f, g) && !Allowed(user, s.folders[g].owner)
  }

  /** The callers of the call on `f`, outermost first: each passed its check. */
  ghost predicate IsStack(s: Store, stack: seq<int>, f: int, user: User) {
    && IsPath(Edges(s), stack + [f]) && f !in stack
    && forall k :: 0 <= k < |stack| ==> stack[k] in s.folders && Allowed(user, s.folders[stack[k]].owner)
  }

  lemma StackReaches(es: set<Edge>, stack: seq<int>, f: int, k: nat)
    requires IsPath(es, stack + [f]) && k <= |stack|
    ensures Reaches(es, (stack + [f])[k], f)
  {
    PathReaches(es, stack + [f], k, |stack|);
  }

  /** A call never recurs while it is active: the loop would be allowed all the way round. */
  lemma NotOnStack(s: Store, f: int, c: int, user: User, stack: seq<int>)
    requires ValidStore(s) && f in s.folders && (f, c) in Edges(s) && Halts(s, f, user)
    requires IsStack(s, stack, f, user) && Allowed(user, s.folders[f].owner)
    ensures c !in stack + [f]
  {
    var es, all := Edges(s), stack + [f];
    if k :| 0 <= k < |all| && all[k] == c {
      var loop := all[k..];
      assert IsCycle(es, loop) by {
        forall j | 0 <= j < |loop| - 1 ensures (loop[j], loop[j + 1]) in es {
          assert (all[k + j], all[k + j + 1]) in es;
        }
      }
      StackReaches(es, stack, f, k);
      var g :| RefusedOnLoop(s, f, user, g);
      forall j | 0 <= j < |loop| ensures loop[j] in s.folders && Allowed(user, s.folders[loop[j]].owner) {
        assert loop[j] == all[k + j];
      }
      LoopHolds(s, f, loop, g);
    }
  }

  lemma LoopHolds(s: Store, f: int, loop: seq<int>, g: int)
    requires IsCycle(Edges(s), loop) && loop[|loop| - 1] == f && Reaches(Edges(s), g, f)
    ensures g in loop
  {
    var es, nodes := Edges(s), set x | x in loop;
    FolderHasOneParent(s);
    forall e | e in es && e.1 in nodes ensures e.0 in nodes {
      var k :| 0 <= k < |loop| && loop[k] == e.1;
      CyclePredecessor(es, loop, k, e);
    }
    var p :| IsPathFrom(es, g, f, p);
    ClosedHoldsReaching(es, nodes, p, g, f);
  }

  lemma StackSurvives(s: Store, f: int, ids: seq<int>, i: nat, stack: seq<int>, user: User)
    requires ValidStore(s) && f in s.folders && ListsSubfolders(s, f, ids) && i < |ids| && AllEnd(s, ids[..i])
    requires IsStack(s, stack, f, user) && Halts(s, f, user) && Allowed(user, s.folders[f].owner)
    requires (f, ids[i]) in Edges(AfterSiblings(s, ids, i))
    ensures IsStack(AfterSiblings(s, ids, i), stack + [f], ids[i], user)
  {
    var gone, t, all, c := SubtreesOf(s, ids[..i]), AfterSiblings(s, ids, i), stack + [f], ids[i];
    forall k | 0 <= k < |all| ensures all[k] !in gone {
      StackReaches(Edges(s), stack, f, k);
      AboveSurvives(s, f, ids, i, all[k]);
    }
    PathSurvives(s, gone, all);
    assert IsPath(Edges(t), all + [c]);
    RemovedKeeps(s, gone);
    NotOnStack(s, f, c, user, stack);
  }

  /** The next call meets what the recursion needs; on a loop, it is refused. */
  lemma NextCall(s: Store, f: int, ids: seq<int>, i: nat, user: User, stack: seq<int>)
    requires ValidStore(s) && f in s.folders && ListsSubfolders(s, f, ids) && i < |ids| && AllEnd(s, ids[..i])
    requires IsStack(s, stack, f, user) && Halts(s, f, user) && Allowed(user, s.folders[f].owner)
    ensures var c, t := ids[i], AfterSiblings(s, ids, i);
            && ValidStore(t) && c in t.folders && Halts(t, c, user) && IsStack(t, stack + [f], c, user)
            && (!Ends(s, c) ==> Trash(t, c, user) == Err(PermissionDenied) == Trash(s, f, user))
  {
    var c, gone, t := ids[i], SubtreesOf(s, ids[..i]), AfterSiblings(s, ids, i);
    assert c in ids;
    SubfolderExact(s, f, c);
    ReachesSelf(Edges(s), f);
    AboveSurvives(s, f, ids, i, f);
    if Ends(s, c) {
      assert ids[..i + 1] == ids[..i] + [c];
      NextSubfolder(s, f, ids, i);
      SubtreeHasRoot(t, c);
    } else {
      LoopChild(s, f, c);
      LoopStays(s, f, ids, i, c);
      var g :| RefusedOnLoop(s, f, user, g);
      LoopStays(s, f, ids, i, g);
      LoopMember(Edges(t), f, c);
      ReachesTransitive(Edges(t), c, f, g);
      ReachesTransitive(Edges(t), g, f, c);
      assert RefusedOnLoop(t, c, user, g);
      assert g in Subtree(t, c) && g in Subtree(s, f);
      AboveSurvives(s, f, ids, i, c);
    }
    EdgeSurvives(s, gone, f, c);
    StackSurvives(s, f, ids, i, stack, user);
  }

  /** How a call on a subfolder that is on no loop contributes to the call on its parent. */
  lemma AfterCall(s: Store, f: int, ids: seq<int>, i: nat, user: User)
    requires ValidStore(s) && f in s.folders && ListsSubfolders(s, f, ids) && i < |ids| && AllEnd(s, ids[..i])
             && Ends(s, ids[i])
    ensures var gone, c, t := SubtreesOf(s, ids[..i]), ids[i], AfterSiblings(s, ids, i);
            && AllEnd(s, ids[..i + 1]) && SubtreesOf(s, ids[..i + 1]) == gone + Subtree(s, c)
            && Subtree(t, c) == Subtree(s, c) && Subtree(s, c) !! gone && f !in Subtree(s, c)
            && (Trash(t, c, user).Ok? ==>
                MayTrash(s, c, user) && Trash(t, c, user).value == AfterSiblings(s, ids, i + 1))
            && (Trash(t, c, user).Err? ==> Trash(t, c, user) == Err(PermissionDenied) && !MayTrash(s, f, user))
  {
    assert ids[..i + 1] == ids[..i] + [ids[i]];
    NextSubfolder(s, f, ids, i);
    TrashStep(s, f, ids, i, user);
    SiblingGone(s, ids, i);
  }

  function Active(stack: seq<int>): set<int> {
    set x | x in stack
  }

  lemma FewerLeft(before: set<int>, after: set<int>, stack: seq<int>, f: int)
    requires after <= before && f in before && f !in stack
    ensures after - Active(stack + [f]) < before - Active(stack)
  {
    assert f !in after - Active(stack + [f]);
  }

  // ---------------------------------------------------------------- exactly when calls come to an end

  ghost predicate StopsNesting(rows: RowOrder, s: Store, f: int, user: User) {
    exists n: nat :: !NestsTo(rows, s, f, user, n)
  }

  /** Only subfolders that are on no loop are trashed before a call. */
  lemma {:induction false} TrashedEnd(s: Store, f: int, ids: seq<int>, i: nat, user: User)
    requires ValidStore(s) && f in s.folders && ListsSubfolders(s, f, ids) && i <= |ids|
    requires AllTrashed(s, ids[..i], user).Some?
    ensures AllEnd(s, ids[..i])
  {
    if i > 0 {
      assert ids[..i][..i - 1] == ids[..i - 1];
      TrashedEnd(s, f, ids, i - 1, user);
      TrashedInTurn(s, f, ids, i - 1, user);
      var c := ids[i - 1];
      hide MayTrash, Subtree, ValidStore;
      if !Ends(s, c) {
        assert c in ids;
        SubfolderExact(s, f, c);
        LoopChild(s, f, c);
        LoopStays(s, f, ids, i - 1, c);
        LoopMember(Edges(AfterSiblings(s, ids, i - 1)), f, c);
      }
    }
  }

  /** Where the recursion ends, calls nest at most as deep as there are folders without an active call. */
  lemma {:induction false} DepthBounded(rows: RowOrder, s: Store, f: int, user: User, stack: seq<int>, n: nat)
    requires IsRowOrder(rows) && ValidStore(s) && f in s.folders && Halts(s, f, user)
    requires IsStack(s, stack, f, user) && n >= |s.folders.Keys - Active(stack)|
    ensures !NestsTo(rows, s, f, user, n)
    decreases n
  {
    var ids, left := rows(s, f), s.folders.Keys - Active(stack);
    assert OrdersRows(rows, s, f);
    assert ListsSubfolders(s, f, ids);
    assert f in left && n > 0;
    hide IsStack, Halts, ValidStore, ListsSubfolders, IsRowOrder, OrdersRows, AllTrashed, AllEnd, Active, AfterSiblings;
    if NestsTo(rows, s, f, user, n) {
      var i :| 0 <= i < |ids| && CallsOn(s, ids, i, user)
               && NestsTo(rows, AllTrashed(s, ids[..i], user).value, ids[i], user, n - 1);
      NextCallBounded(s, f, ids, i, user, stack);
      DepthBounded(rows, AfterSiblings(s, ids, i), ids[i], user, stack + [f], n - 1);
    }
  }

  lemma NextCallBounded(s: Store, f: int, ids: seq<int>, i: nat, user: User, stack: seq<int>)
    requires ValidStore(s) && f in s.folders && ListsSubfolders(s, f, ids) && CallsOn(s, ids, i, user)
    requires IsStack(s, stack, f, user) && Halts(s, f, user) && Allowed(user, s.folders[f].owner)
    ensures AllTrashed(s, ids[..i], user) == Some(AfterSiblings(s, ids, i))
    ensures var c, t := ids[i], AfterSiblings(s, ids, i);
            && ValidStore(t) && c in t.folders && Halts(t, c, user) && IsStack(t, stack + [f], c, user)
            && |t.folders.Keys - Active(stack + [f])| < |s.folders.Keys - Active(stack)|
  {
    var t := AfterSiblings(s, ids, i);
    TrashedEnd(s, f, ids, i, user);
    TrashedInTurn(s, f, ids, i, user);
    NextCall(s, f, ids, i, user, stack);
    FewerLeft(s.folders.Keys, t.folders.Keys, stack, f);
    SmallerSize(t.folders.Keys - Active(stack + [f]), s.folders.Keys - Active(stack));
  }

  lemma SmallerSize(a: set<int>, b: set<int>)
    requires a < b
    ensures |a| < |b|
  {
    assert |b| == |a| + |b - a|;
  }

  lemma HaltingStops(rows: RowOrder, s: Store, f: int, user: User)
    requires IsRowOrder(rows) && ValidStore(s) && f in s.folders && Halts(s, f, user)
    ensures StopsNesting(rows, s, f, user)
  {
    assert [] + [f] == [f];
    DepthBounded(rows, s, f, user, [], |s.folders.Keys - Active([])|);
  }

  /** Where owners agree, the calls nest without end exactly from a folder on a loop that the user
      may trash, whatever the order of rows. */
  lemma NestsForever(rows: RowOrder, s: Store, f: int, user: User)
    requires IsRowOrder(rows) && ValidStore(s) && OwnersAgree(s) && f in s.folders
    ensures !StopsNesting(rows, s, f, user) <==> !Ends(s, f) && Allowed(user, s.folders[f].owner)
  {
    if Ends(s, f) {
      HaltingStops(rows, s, f, user);
    } else if Allowed(user, s.folders[f].owner) {
      MayTrashOwn(s, f, user);
      forall n: nat ensures NestsTo(rows, s, f, user, n) {
        LoopNests(rows, s, f, user, n);
      }
    } else {
      assert !NestsTo(rows, s, f, user, 1);
    }
  }

  ghost predicate Lists(ids: seq<int>, cs: set<int>) {
    forall c :: c in ids <==> c in cs
  }

  /** A list of the members of a set, beginning with a given one. */
  lemma {:induction false} ListOf(cs: set<int>, first: int) returns (ids: seq<int>)
    requires first in cs
    ensures NoDup(ids) && Lists(ids, cs) && ids != [] && ids[0] == first
    decreases cs
  {
    var rest, more := cs - {first}, [];
    if rest != {} {
      var next := Member(rest);
      more := ListOf(rest, next);
    }
    assert Lists(more, rest) && cs == rest + {first};
    ids := [first] + more;
    forall c ensures c in ids <==> c in cs {
      assert c in ids <==> c == first || c in more;
    }
  }

  ghost predicate LoopFirst(s: Store, f: int, ids: seq<int>) {
    ListsSubfolders(s, f, ids) && (!Ends(s, f) ==> ids != [] && !Ends(s, ids[0]))
  }

  lemma LoopFirstExists(s: Store, f: int)
    ensures exists ids :: LoopFirst(s, f, ids)
  {
    if Subfolders(s, f) == {} {
      if !Ends(s, f) {
        var b :| (f, b) in Edges(s) && Reaches(Edges(s), b, f);
        SubfolderExact(s, f, b);
      }
      assert LoopFirst(s, f, []);
    } else {
      var first := Member(Subfolders(s, f));
      if !Ends(s, f) {
        var b :| (f, b) in Edges(s) && Reaches(Edges(s), b, f);
        SubfolderExact(s, f, b);
        LeadsBack(Edges(s), f, b);
        first := b;
      }
      var ids := ListOf(Subfolders(s, f), first);
      assert LoopFirst(s, f, ids);
    }
  }

  /** A row order in which a subfolder on a loop comes before its siblings. */
  ghost function LoopRow(s: Store, f: int): (ids: seq<int>)
    ensures LoopFirst(s, f, ids)
  {
    LoopFirstExists(s, f);
    var ids :| LoopFirst(s, f, ids);
    ids
  }

  lemma {:induction false} AllowedLoopNests(rows: RowOrder, s: Store, f: int, user: User, n: nat)
    requires forall s, f :: rows(s, f) == LoopRow(s, f)
    requires ValidStore(s) && f in s.folders && !Halts(s, f, user)
    ensures NestsTo(rows, s, f, user, n)
    decreases n
  {
    if n > 0 {
      var es, ids := Edges(s), rows(s, f);
      assert LoopFirst(s, f, ids);
      var c := ids[0];
      assert c in ids;
      SubfolderExact(s, f, c);
      LoopChild(s, f, c);
      ReachesSelf(es, f);
      ReachedExists(s, f, c);
      assert !RefusedOnLoop(s, f, user, f);
      forall g | RefusedOnLoop(s, c, user, g) ensures RefusedOnLoop(s, f, user, g) {
        ReachesTransitive(es, f, c, g);
        ReachesTransitive(es, g, c, f);
      }
      AllowedLoopNests(rows, s, c, user, n - 1);
      assert ids[..0] == [];
      assert CallsOn(s, ids, 0, user);
    }
  }

  /** In every store, this is exactly when the calls come to an end in whatever order the rows come. */
  lemma HaltsExactly(s: Store, f: int, user: User)
    requires ValidStore(s) && f in s.folders
    ensures Halts(s, f, user) <==> forall rows :: IsRowOrder(rows) ==> StopsNesting(rows, s, f, user)
  {
    if Halts(s, f, user) {
      forall rows | IsRowOrder(rows) ensures StopsNesting(rows, s, f, user) {
        HaltingStops(rows, s, f, user);
      }
    } else {
      var rows: RowOrder := (s, f) => LoopRow(s, f);
      assert IsRowOrder(rows) by {
        forall s, f ensures OrdersRows(rows, s, f) {
          assert LoopFirst(s, f, rows(s, f));
        }
      }
      forall n: nat ensures NestsTo(rows, s, f, user, n) {
        AllowedLoopNests(rows, s, f, user, n);
      }
    }
  }

  // ---------------------------------------------------------------- a move after which trash never ends

  /** Folders 1, 2 and 3 of one user, each in the one before. */
  function Nested(owner: string): Store {
    Store(map[1 := Folder(owner, "Home", 0), 2 := Folder(owner, "A", 0), 3 := Folder(owner, "B", 0)], map[],
          map[Sub(2) := Slot(1, 1), Sub(3) := Slot(2, 1)], 4)
  }

  lemma NestedIsSound(owner: string)
    ensures ValidStore(Nested(owner)) && OwnersAgree(Nested(owner)) && Acyclic(Edges(Nested(owner)))
    ensures 3 in Subtree(Nested(owner), 2)
  {
    var s := Nested(owner);
    forall e | e in Edges(s) ensures e == (1, 2) || e == (2, 3) {
      EdgeExact(s, e.0, e.1);
      assert e == (e.0, e.1);
    }
    RankedAcyclic(Edges(s), map[1 := 2, 2 := 1, 3 := 0]);
    EdgeExact(s, 2, 3);
    EdgeReaches(Edges(s), 2, 3);
  }

  lemma NestedMoved(user: User) returns (t: Store)
    requires user.id != ""
    ensures ValidStore(Nested(user.id)) && MoveRequest(Nested(user.id), [FolderRef(2)], 3, user) == (t, None)
    ensures ValidStore(t) && OwnersAgree(t) && 2 in t.folders && t.folders[2].owner == user.id
    ensures (3, 2) in Edges(t) && (2, 3) in Edges(t)
  {
    var s, order := Nested(user.id), MinOrder(Nested(user.id), 3) - 1;
    NestedIsSound(user.id);
    hide Edges, Reaches, Subtree, MinOrder, OwnersAgree, Acyclic;
    t := MoveFolder(s, 2, 3, order);
    MoveFolderAgrees(s, 2, 3, order);
    MoveFolderValid(s, 2, 3, order);
    assert [FolderRef(2)][1..] == [];
    assert MoveOne(s, FolderRef(2), 3, order, user) == Ok(t);
    MoveAllOne(s, FolderRef(2), 3, order, user, t);
    EdgeExact(t, 3, 2);
    EdgeExact(t, 2, 3);
  }

  lemma MoveAllOne(s: Store, r: ItemRef, d: int, order: int, user: User, t: Store)
    requires ValidStore(s) && d in s.folders && MoveOne(s, r, d, order, user) == Ok(t)
    ensures MoveAll(s, [r], d, order, user) == (t, None)
  {
    MoveOneKeeps(s, r, d, order, user);
    assert [r][1..] == [];
  }

  /** The owner moves folder 2 into its own subfolder 3. The request succeeds, and leaves a loop from
      which trashing does not end. */
  lemma MovedOntoLoop(user: User, rows: RowOrder)
    requires user.id != "" && IsRowOrder(rows)
    ensures var s := Nested(user.id);
            && ValidStore(s) && OwnersAgree(s) && Acyclic(Edges(s))
            && var (t, e) := MoveRequest(s, [FolderRef(2)], 3, user);
               && e == None && ValidStore(t) && OwnersAgree(t) && 2 in t.folders
               && OnCycle(Edges(t), 2) && !StopsNesting(rows, t, 2, user)
  {
    NestedIsSound(user.id);
    var t := NestedMoved(user);
    hide MoveRequest, Nested, ValidStore, OwnersAgree, Edges, IsRowOrder, StopsNesting, Acyclic;
    EdgeReaches(Edges(t), 3, 2);
    assert OnCycle(Edges(t), 2);
    NestsForever(rows, t, 2, user);
  }
}
