// Trashing a folder with everything below it.
module FolderTrash {
  import opened Wrappers
  import opened Graphs
  import opened FolderStore
  import opened FolderMoves

  predicate Touches(s: Store, it: Item, ds: set<int>)
    requires it in s.placed
  {
    s.placed[it].parent in ds || (it.Sub? && it.folder in ds)
  }

  /** The store without the folders `ds`: their contents are unbound, and so are they themselves. */
  function Removed(s: Store, ds: set<int>): Store {
    s.(folders := map f | f in s.folders && f !in ds :: s.folders[f],
       placed := map it | it in s.placed && !Touches(s, it, ds) :: s.placed[it])
  }

  ghost predicate MayTrash(s: Store, f: int, user: User) {
    forall g :: g in Subtree(s, f) ==> Allowed(user, s.folders[g].owner)
  }

  /** The whole effect of trashing: all of the subtree, or nothing. */
  ghost function Trash(s: Store, f: int, user: User): Result<Store, FolderError> {
    if f !in s.folders then Err(NotFound)
    else if !MayTrash(s, f, user) then Err(PermissionDenied)
    else Ok(Removed(s, Subtree(s, f)))
  }

  /** The media files placed in one of the folders. */
  ghost function MediaIn(s: Store, ds: set<int>): set<string> {
    set it | it in s.placed && it.File? && s.placed[it].parent in ds :: it.media
  }

  lemma RemovedKeeps(s: Store, ds: set<int>)
    requires ValidStore(s)
    ensures ValidStore(Removed(s, ds)) && (OwnersAgree(s) ==> OwnersAgree(Removed(s, ds)))
    ensures Edges(Removed(s, ds)) <= Edges(s)
  {
    var t := Removed(s, ds);
    forall it | it in t.placed ensures Exists(t, it) && t.placed[it].parent in t.folders {
      assert Exists(s, it);
    }
    if OwnersAgree(s) {
      forall it | it in t.placed ensures PlacedAgrees(t, it) {
        assert PlacedAgrees(s, it);
      }
    }
    forall e | e in Edges(t) ensures e in Edges(s) {
      EdgeExact(t, e.0, e.1);
      EdgeExact(s, e.0, e.1);
    }
  }

  lemma RemovedTwice(s: Store, ds: set<int>, es: set<int>)
    ensures Removed(Removed(s, ds), es) == Removed(s, ds + es)
  {
    var t, u := Removed(s, ds), Removed(s, ds + es);
    assert Removed(t, es).folders == u.folders;
    forall it ensures it in Removed(t, es).placed <==> it in u.placed {
    }
    assert Removed(t, es).placed == u.placed;
  }

  /** Trashing keeps the store valid, owners in agreement and an acyclic store acyclic, and leaves
      every media file alone. */
  lemma TrashKeeps(s: Store, f: int, user: User)
    requires ValidStore(s) && Trash(s, f, user).Ok?
    ensures var t := Trash(s, f, user).value;
            && ValidStore(t) && (OwnersAgree(s) ==> OwnersAgree(t)) && (Acyclic(Edges(s)) ==> Acyclic(Edges(t)))
            && t.media == s.media
  {
    RemovedKeeps(s, Subtree(s, f));
    if Acyclic(Edges(s)) {
      FewerEdgesAcyclic(Edges(s), Edges(Trash(s, f, user).value));
    }
  }

  /** Exactly the subtree goes: its folders, the rows of what is placed in them, and the row of the
      trashed folder in its own parent. Every other folder and row stays as it was. */
  lemma TrashExact(s: Store, f: int, user: User, it: Item)
    requires ValidStore(s) && Trash(s, f, user).Ok?
    ensures var t := Trash(s, f, user).value;
            && t.folders.Keys == s.folders.Keys - Subtree(s, f)
            && (forall g :: g in t.folders ==> t.folders[g] == s.folders[g])
            && (it in t.placed <==> it in s.placed && it != Sub(f) && s.placed[it].parent !in Subtree(s, f))
            && (it in t.placed ==> t.placed[it] == s.placed[it])
  {
    SubtreeHasRoot(s, f);
    if it.Sub? && it in s.placed && it != Sub(f) && it.folder in Subtree(s, f) {
      SubtreeParent(s, f, it.folder);
    }
  }

  // ---------------------------------------------------------------- the recursion

  /** The recursion visits each subfolder in turn; this is where it must come to an end. */
  ghost predicate Ends(s: Store, f: int) {
    !OnCycle(Edges(s), f)
  }

  /** A subfolder that is on no loop does not lead back, and has the smaller subtree. */
  lemma SubfolderEnds(s: Store, f: int, c: int)
    requires ValidStore(s) && f in s.folders && Ends(s, c) && (f, c) in Edges(s)
    ensures c in s.folders && f !in Subtree(s, c) && Subtree(s, c) < Subtree(s, f)
  {
    var es := Edges(s);
    EdgeExact(s, f, c);
    EdgeReaches(es, f, c);
    forall g | g in Subtree(s, c) ensures g in Subtree(s, f) {
      ReachesTransitive(es, f, c, g);
    }
    SubtreeHasRoot(s, f);
    if f in Subtree(s, c) {
      LeadsBack(es, f, c);
    }
  }

  lemma LeadsBack(es: set<Edge>, f: int, c: int)
    requires (f, c) in es && Reaches(es, c, f)
    ensures OnCycle(es, c) && SameLoop(es, c, f)
  {
    EdgeReaches(es, f, c);
    if c != f {
      var b := FirstEdge(es, c, f);
      ReachesTransitive(es, b, f, c);
    }
  }

  /** The subtrees of two subfolders that are on no loop have no folder in common. */
  lemma SubfoldersApart(s: Store, f: int, c: int, d: int, g: int)
    requires ValidStore(s) && (f, c) in Edges(s) && (f, d) in Edges(s) && c != d && Ends(s, c) && Ends(s, d)
    requires g in Subtree(s, c)
    ensures g !in Subtree(s, d)
  {
    if g in Subtree(s, d) {
      var es := Edges(s);
      FolderHasOneParent(s);
      var p :| IsPathFrom(es, c, g, p);
      OneParentOrdered(es, c, d, g, p);
      if Reaches(es, c, d) {
        var m := LastEdge(es, c, d);
        EdgeExact(s, m, d);
        EdgeExact(s, f, d);
        LeadsBack(es, f, c);
      } else {
        var m := LastEdge(es, d, c);
        EdgeExact(s, m, c);
        EdgeExact(s, f, c);
        LeadsBack(es, f, d);
      }
    }
  }

  /** Removing folders that a subtree does not touch leaves the subtree as it was. */
  lemma SubtreeUntouched(s: Store, ds: set<int>, c: int)
    requires ValidStore(s) && c in s.folders && Subtree(s, c) !! ds
    ensures Subtree(Removed(s, ds), c) == Subtree(s, c)
  {
    var t := Removed(s, ds);
    RemovedKeeps(s, ds);
    forall g ensures g in Subtree(t, c) <==> g in Subtree(s, c) {
      if g in Subtree(t, c) {
        ReachesMore(Edges(t), Edges(s), c, g);
      }
      if g in Subtree(s, c) {
        var p :| IsPathFrom(Edges(s), c, g, p);
        PathUntouched(s, ds, c, g, p);
      }
    }
  }

  lemma {:induction false} PathUntouched(s: Store, ds: set<int>, c: int, g: int, p: seq<int>)
    requires ValidStore(s) && c in s.folders && Subtree(s, c) !! ds && IsPathFrom(Edges(s), c, g, p)
    ensures g in Removed(s, ds).folders && Reaches(Edges(Removed(s, ds)), c, g)
    decreases |p|
  {
    var t := Removed(s, ds);
    assert Reaches(Edges(s), c, g);
    ReachedExists(s, c, g);
    ReachesSelf(Edges(t), c);
    if |p| > 1 {
      var m := p[|p| - 2];
      assert (p[|p| - 2], p[|p| - 2 + 1]) in Edges(s);
      assert IsPathFrom(Edges(s), c, m, p[..|p| - 1]);
      PathUntouched(s, ds, c, m, p[..|p| - 1]);
      EdgeExact(s, m, g);
      assert !Touches(s, Sub(g), ds);
      EdgeExact(t, m, g);
      ReachesThenEdge(Edges(t), c, m, g);
    }
  }

  lemma UntouchedEnds(s: Store, ds: set<int>, c: int)
    requires ValidStore(s) && Ends(s, c)
    ensures Ends(Removed(s, ds), c)
  {
    var t := Removed(s, ds);
    RemovedKeeps(s, ds);
    if OnCycle(Edges(t), c) {
      var b :| (c, b) in Edges(t) && Reaches(Edges(t), b, c);
      ReachesMore(Edges(t), Edges(s), b, c);
    }
  }

  ghost function Subfolders(s: Store, f: int): set<int> {
    set it | it in Contents(s, f) && it.Sub? :: it.folder
  }

  lemma SubfolderExact(s: Store, f: int, c: int)
    ensures c in Subfolders(s, f) <==> (f, c) in Edges(s)
  {
    EdgeExact(s, f, c);
    if (f, c) in Edges(s) {
      assert Sub(c) in Contents(s, f) && Sub(c).Sub?;
    }
  }

  /** The folders in the subtrees of the first few subfolders. */
  ghost function SubtreesOf(s: Store, cs: seq<int>): set<int> {
    if cs == [] then {} else SubtreesOf(s, cs[..|cs| - 1]) + Subtree(s, cs[|cs| - 1])
  }

  lemma {:induction false} SubtreesOfExact(s: Store, cs: seq<int>, g: int)
    ensures g in SubtreesOf(s, cs) <==> exists k :: 0 <= k < |cs| && g in Subtree(s, cs[k])
  {
    if cs != [] {
      SubtreesOfExact(s, cs[..|cs| - 1], g);
    }
  }

  /** A subtree is the folder itself and the subtrees of its subfolders. */
  lemma SubtreeUnfolds(s: Store, f: int, cs: seq<int>)
    requires ValidStore(s) && f in s.folders
    requires forall c :: c in cs <==> c in Subfolders(s, f)
    ensures Subtree(s, f) == {f} + SubtreesOf(s, cs)
  {
    var es := Edges(s);
    SubtreeHasRoot(s, f);
    forall g ensures g in Subtree(s, f) <==> g in {f} + SubtreesOf(s, cs) {
      SubtreesOfExact(s, cs, g);
      if g in Subtree(s, f) && g != f {
        var c := FirstEdge(es, f, g);
        SubfolderExact(s, f, c);
        var k :| 0 <= k < |cs| && cs[k] == c;
        assert g in Subtree(s, cs[k]);
      }
      if k :| 0 <= k < |cs| && g in Subtree(s, cs[k]) {
        assert cs[k] in cs;
        SubfolderExact(s, f, cs[k]);
        EdgeReaches(es, f, cs[k]);
        ReachesTransitive(es, f, cs[k], g);
      }
    }
  }
}
