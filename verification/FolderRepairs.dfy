// The two repairs of the folder tables: one root folder per user, and no folder loops.
module FolderRepairs {
  import opened Graphs
  import opened FolderStore
  import opened FiniteSets
  import CycleFinder

  // ---------------------------------------------------------------- one root folder per user

  /** The folders of a user that are in no other folder. */
  ghost function Roots(s: Store, user: string): set<int> {
    set f | f in s.folders && s.folders[f].owner == user && Sub(f) !in s.placed
  }

  /** The media files of a user that are in no folder. */
  ghost function Orphans(s: Store, user: string): set<string> {
    set m | m in s.media && s.media[m].owner == user && File(m) !in s.placed
  }

  ghost predicate Adoptable(s: Store, root: int, its: set<Item>) {
    && root in s.folders && Sub(root) !in s.placed && Sub(root) !in its
    && forall it :: it in its ==> Exists(s, it) && it !in s.placed
  }

  /** Puts items that are in no folder into the root folder. */
  function Adopt(s: Store, root: int, its: set<Item>): Store {
    s.(placed := s.placed + map it | it in its :: Slot(root, 0))
  }

  function WithNewRoot(s: Store, user: string, title: string, now: int): Store {
    s.(folders := s.folders[s.nextFolderId := Folder(user, title, now)], nextFolderId := s.nextFolderId + 1)
  }

  ghost function Loose(s: Store, user: string, root: int): set<Item> {
    (set f | f in Roots(s, user) && f != root :: Sub(f)) + (set m | m in Orphans(s, user) :: File(m))
  }

  /** The oldest root folder takes in the other roots and the orphaned media files; a user without
      a root folder gets a new one first. */
  ghost function RootRepaired(s: Store, user: string, title: string, now: int): (r: (Store, int)) {
    if Roots(s, user) == {} then
      (Adopt(WithNewRoot(s, user, title, now), s.nextFolderId, Loose(s, user, s.nextFolderId)), s.nextFolderId)
    else
      var root := Least(Roots(s, user));
      (Adopt(s, root, Loose(s, user, root)), root)
  }

  lemma AdoptValid(s: Store, root: int, its: set<Item>)
    requires ValidStore(s) && Adoptable(s, root, its)
    ensures ValidStore(Adopt(s, root, its))
    ensures OwnersAgree(s) && (forall it :: it in its ==> OwnerOf(s, it) == s.folders[root].owner) ==>
                OwnersAgree(Adopt(s, root, its))
  {
    var t := Adopt(s, root, its);
    forall it | it in t.placed ensures Exists(t, it) && t.placed[it].parent in t.folders {
      assert it !in its ==> it in s.placed;
      assert Exists(s, it);
    }
    if OwnersAgree(s) && forall it :: it in its ==> OwnerOf(s, it) == s.folders[root].owner {
      forall it | it in t.placed ensures PlacedAgrees(t, it) {
        assert it !in its ==> PlacedAgrees(s, it);
      }
    }
  }

  /** Nothing leads into a root folder, so a path that starts elsewhere never uses the new edges. */
  lemma {:induction false} PathAvoidsRoot(s: Store, root: int, its: set<Item>, a: int, b: int, p: seq<int>)
    requires Adoptable(s, root, its) && a != root && IsPathFrom(Edges(Adopt(s, root, its)), a, b, p)
    ensures b != root && Reaches(Edges(s), a, b)
    decreases |p|
  {
    var t := Adopt(s, root, its);
    if |p| == 1 {
      ReachesSelf(Edges(s), a);
    } else {
      var m := p[|p| - 2];
      assert IsPathFrom(Edges(t), a, m, p[..|p| - 1]);
      PathAvoidsRoot(s, root, its, a, m, p[..|p| - 1]);
      assert (p[|p| - 2], p[|p| - 2 + 1]) in Edges(t);
      OldEdge(s, root, its, m, b);
      ReachesThenEdge(Edges(s), a, m, b);
    }
  }

  lemma OldEdge(s: Store, root: int, its: set<Item>, m: int, b: int)
    requires Adoptable(s, root, its) && (m, b) in Edges(Adopt(s, root, its))
    ensures b != root
    ensures m != root ==> (m, b) in Edges(s)
  {
    EdgeExact(Adopt(s, root, its), m, b);
    EdgeExact(s, m, b);
  }

  lemma AdoptAcyclic(s: Store, root: int, its: set<Item>)
    requires Adoptable(s, root, its) && Acyclic(Edges(s))
    ensures Acyclic(Edges(Adopt(s, root, its)))
  {
    var t := Adopt(s, root, its);
    CyclicExact(Edges(s));
    CyclicExact(Edges(t));
    if e :| e in Edges(t) && Reaches(Edges(t), e.1, e.0) {
      assert (e.0, e.1) in Edges(t);
      OldEdge(s, root, its, e.0, e.1);
      var p :| IsPathFrom(Edges(t), e.1, e.0, p);
      PathAvoidsRoot(s, root, its, e.1, e.0, p);
    }
  }

  lemma NewRootKeeps(s: Store, user: string, title: string, now: int)
    requires ValidStore(s)
    ensures var t := WithNewRoot(s, user, title, now);
            && ValidStore(t) && (OwnersAgree(s) ==> OwnersAgree(t)) && Edges(t) == Edges(s)
            && Sub(s.nextFolderId) !in t.placed
  {
    var t := WithNewRoot(s, user, title, now);
    forall it | it in t.placed ensures Exists(t, it) && t.placed[it].parent in t.folders {
      assert Exists(s, it);
    }
    assert Sub(s.nextFolderId) in s.placed ==> Exists(s, Sub(s.nextFolderId));
    if OwnersAgree(s) {
      forall it | it in t.placed ensures PlacedAgrees(t, it) {
        assert PlacedAgrees(s, it) && Exists(s, it);
      }
    }
  }

  /** The store that takes in the loose items: unchanged, or with a new root folder. */
  ghost function Base(s: Store, user: string, title: string, now: int): Store {
    if Roots(s, user) == {} then WithNewRoot(s, user, title, now) else s
  }

  lemma RepairAdopts(s: Store, user: string, title: string, now: int)
    requires ValidStore(s)
    ensures var (t, root) := RootRepaired(s, user, title, now);
            var b := Base(s, user, title, now);
            && t == Adopt(b, root, Loose(s, user, root)) && Adoptable(b, root, Loose(s, user, root))
            && b.folders[root].owner == user
            && (forall it :: it in Loose(s, user, root) ==> OwnerOf(b, it) == user)
  {
    var (t, root) := RootRepaired(s, user, title, now);
    var b := Base(s, user, title, now);
    if Roots(s, user) == {} {
      NewRootKeeps(s, user, title, now);
    }
    forall it | it in Loose(s, user, root)
      ensures Exists(b, it) && it !in b.placed && OwnerOf(b, it) == user && it != Sub(root)
    {
      if it.Sub? {
        assert it.folder in Roots(s, user);
      }
    }
  }

  /** Root repair keeps the store valid, owners in agreement, an acyclic store acyclic, and every
      placement there was. */
  lemma RootRepairKeeps(s: Store, user: string, title: string, now: int)
    requires ValidStore(s)
    ensures var t := RootRepaired(s, user, title, now).0;
            && ValidStore(t) && (OwnersAgree(s) ==> OwnersAgree(t)) && (Acyclic(Edges(s)) ==> Acyclic(Edges(t)))
            && (forall it :: it in s.placed ==> it in t.placed && t.placed[it] == s.placed[it])
            && t.media == s.media && (forall f :: f in s.folders ==> f in t.folders && t.folders[f] == s.folders[f])
  {
    var (t, root) := RootRepaired(s, user, title, now);
    var b := Base(s, user, title, now);
    NewRootKeeps(s, user, title, now);
    RepairAdopts(s, user, title, now);
    AdoptValid(b, root, Loose(s, user, root));
    if Acyclic(Edges(s)) {
      AdoptAcyclic(b, root, Loose(s, user, root));
    }
  }

  /** After root repair the user has exactly one root folder, the oldest one if there was any, and
      every media file of the user is in a folder: the root folder, if it was in none before. */
  lemma RootRepairExact(s: Store, user: string, title: string, now: int)
    requires ValidStore(s)
    ensures var (t, root) := RootRepaired(s, user, title, now);
            && Roots(t, user) == {root}
            && (Roots(s, user) != {} ==> root in Roots(s, user) && forall f :: f in Roots(s, user) ==> root <= f)
            && (Roots(s, user) == {} ==> root !in s.folders && t.folders[root].title == title)
            && Orphans(t, user) == {}
            && (forall it :: it in t.placed && it !in s.placed ==>
                t.placed[it] == Slot(root, 0) && OwnerOf(s, it) == user)
  {
    var (t, root) := RootRepaired(s, user, title, now);
    var b := Base(s, user, title, now);
    RepairAdopts(s, user, title, now);
    forall f ensures f in Roots(s, user) && f != root ==> Sub(f) in Loose(s, user, root) {
    }
    forall m ensures m in Orphans(s, user) ==> File(m) in Loose(s, user, root) {
    }
    assert Roots(t, user) == {root};
    assert Orphans(t, user) == {};
  }

  // ---------------------------------------------------------------- no folder loops

  /** The store without the given parent links. */
  function Unlinked(s: Store, es: set<Edge>): Store {
    s.(placed := map it | it in s.placed && !(it.Sub? && (s.placed[it].parent, it.folder) in es) :: s.placed[it])
  }

  lemma UnlinkedKeeps(s: Store, es: set<Edge>)
    requires ValidStore(s)
    ensures var t := Unlinked(s, es); ValidStore(t) && (OwnersAgree(s) ==> OwnersAgree(t)) && Edges(t) == Edges(s) - es
  {
    var t := Unlinked(s, es);
    forall it | it in t.placed ensures Exists(t, it) && t.placed[it].parent in t.folders {
      assert Exists(s, it);
    }
    if OwnersAgree(s) {
      forall it | it in t.placed ensures PlacedAgrees(t, it) {
        assert PlacedAgrees(s, it);
      }
    }
    forall e: Edge ensures e in Edges(t) <==> e in Edges(s) - es {
      EdgeExact(t, e.0, e.1);
      EdgeExact(s, e.0, e.1);
      assert e == (e.0, e.1);
    }
  }

  /** What loop repair does: every reported loop loses the link that closes it. */
  ghost predicate LoopsBroken(s: Store, t: Store, cycles: seq<seq<int>>) {
    CycleFinder.Breaks(Edges(s), cycles) && t == Unlinked(s, CycleFinder.Closing(cycles))
  }

  /** Loop repair makes any store acyclic, keeps it valid and owners in agreement, and changes
      nothing exactly when there was no loop. */
  lemma LoopRepairKeeps(s: Store, t: Store, cycles: seq<seq<int>>)
    requires ValidStore(s) && LoopsBroken(s, t, cycles)
    ensures ValidStore(t) && (OwnersAgree(s) ==> OwnersAgree(t))
    ensures Acyclic(Edges(t))
    ensures t == s <==> Acyclic(Edges(s))
  {
    var closing := CycleFinder.Closing(cycles);
    UnlinkedKeeps(s, closing);
    CycleFinder.NothingToBreak(Edges(s), cycles);
    if cycles == [] {
      assert closing == {};
      assert t.placed == s.placed;
    } else {
      assert t != s;
    }
  }

  /** Every folder loop loses exactly one of its links. */
  lemma EachLoopLosesOneLink(s: Store, t: Store, cycles: seq<seq<int>>, c: seq<int>)
    requires ValidStore(s) && LoopsBroken(s, t, cycles) && IsCycle(Edges(s), c)
    ensures exists e :: e in Edges(s) - Edges(t) && e.1 in c
                        && forall f :: f in Edges(s) - Edges(t) && f.1 in c ==> f == e
  {
    var es, closing := Edges(s), CycleFinder.Closing(cycles);
    UnlinkedKeeps(s, closing);
    FolderHasOneParent(s);
    CycleFinder.EachLoopOneClosing(es, cycles, c);
    assert es - Edges(t) == closing;
  }
}
