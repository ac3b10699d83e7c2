// Moving items between folders: what one request does, step by step, and what it keeps.
module FolderMoves {
  import opened Wrappers
  import opened Graphs
  import opened FolderStore
  import opened FiniteSets

  datatype FolderError = NotFound | PermissionDenied | InvalidArgument | AlreadyExists | AssertionFailed | UnknownUser

  /** An item of a request: a folder, a media file, or neither. */
  datatype ItemRef = FolderRef(folder: int) | MediaRef(media: string) | NoRef

  datatype User = User(id: string, isAdmin: bool)

  predicate Allowed(user: User, owner: string) {
    owner == user.id || user.isAdmin
  }

  // ---------------------------------------------------------------- one item

  function Placed(s: Store, it: Item, d: int, order: int): Store {
    s.(placed := s.placed[it := Slot(d, order)])
  }

  /** Hangs folder `f` into folder `d` and hands everything below it to the owner of `d`. */
  ghost function MoveFolder(s: Store, f: int, d: int, order: int): Store
    requires d in s.folders
  {
    var t := Placed(s, Sub(f), d, order);
    SetOwner(t, Subtree(t, f), s.folders[d].owner)
  }

  function MoveMedia(s: Store, m: string, d: int, order: int): Store
    requires d in s.folders && m in s.media
  {
    Placed(s.(media := s.media[m := s.media[m].(owner := s.folders[d].owner)]), File(m), d, order)
  }

  /** One item of a move request, as one transaction. */
  ghost function MoveOne(s: Store, r: ItemRef, d: int, order: int, user: User): Result<Store, FolderError>
    requires d in s.folders
  {
    match r
    case FolderRef(f) =>
      if f !in s.folders then Err(NotFound)
      else if f == d then Err(InvalidArgument)
      else if !Allowed(user, s.folders[f].owner) then Err(PermissionDenied)
      else if Sub(f) !in s.placed then Err(NotFound)
      else if s.folders[d].owner == "" then Err(AssertionFailed)
      else Ok(MoveFolder(s, f, d, order))
    case MediaRef(m) =>
      if m !in s.media then Err(NotFound)
      else if !Allowed(user, s.media[m].owner) then Err(PermissionDenied)
      else Ok(MoveMedia(s, m, d, order))
    case NoRef => Ok(s)
  }

  lemma MoveFolderValid(s: Store, f: int, d: int, order: int)
    requires ValidStore(s) && f in s.folders && d in s.folders && f != d
    ensures ValidStore(MoveFolder(s, f, d, order))
    ensures Edges(MoveFolder(s, f, d, order)) == Edges(Placed(s, Sub(f), d, order))
  {
    var t := Placed(s, Sub(f), d, order);
    assert ValidStore(t) by {
      forall it | it in t.placed ensures Exists(t, it) && t.placed[it].parent in t.folders {
        assert it != Sub(f) ==> it in s.placed;
      }
    }
    SetOwnerKeepsValid(t, Subtree(t, f), s.folders[d].owner);
  }

  /** Moving a folder keeps owners in agreement, whether or not it closes a loop. */
  lemma MoveFolderAgrees(s: Store, f: int, d: int, order: int)
    requires ValidStore(s) && OwnersAgree(s) && f in s.folders && d in s.folders && f != d
    ensures ValidStore(MoveFolder(s, f, d, order)) && OwnersAgree(MoveFolder(s, f, d, order))
  {
    var t := Placed(s, Sub(f), d, order);
    var fs, u := Subtree(t, f), MoveFolder(s, f, d, order);
    MoveFolderValid(s, f, d, order);
    assert ValidStore(t);
    SubtreeHasRoot(t, f);
    forall it | it in u.placed ensures PlacedAgrees(u, it) {
      var p := t.placed[it].parent;
      if it.Sub? {
        EdgeExact(t, p, it.folder);
        if p in fs {
          SubtreeClosed(t, f, p, it.folder);
        } else if it.folder != f {
          if it.folder in fs {
            SubtreeParent(t, f, it.folder);
          }
          assert PlacedAgrees(s, it);
        }
      } else {
        assert PlacedAgrees(s, it);
      }
    }
  }

  lemma MoveMediaValid(s: Store, m: string, d: int, order: int)
    requires ValidStore(s) && d in s.folders && m in s.media
    ensures ValidStore(MoveMedia(s, m, d, order))
  {
    var u := MoveMedia(s, m, d, order);
    forall it | it in u.placed ensures Exists(u, it) && u.placed[it].parent in u.folders {
      assert it != File(m) ==> it in s.placed;
    }
  }

  lemma MoveMediaAgrees(s: Store, m: string, d: int, order: int)
    requires ValidStore(s) && OwnersAgree(s) && d in s.folders && m in s.media
    ensures ValidStore(MoveMedia(s, m, d, order)) && OwnersAgree(MoveMedia(s, m, d, order))
  {
    var u := MoveMedia(s, m, d, order);
    MoveMediaValid(s, m, d, order);
    forall it | it in u.placed ensures PlacedAgrees(u, it) {
      if it != File(m) {
        assert PlacedAgrees(s, it);
      }
    }
  }

  lemma MoveOneKeeps(s: Store, r: ItemRef, d: int, order: int, user: User)
    requires ValidStore(s) && d in s.folders && MoveOne(s, r, d, order, user).Ok?
    ensures var t := MoveOne(s, r, d, order, user).value;
            && ValidStore(t) && (OwnersAgree(s) ==> OwnersAgree(t))
            && t.folders.Keys == s.folders.Keys && t.media.Keys == s.media.Keys
            && t.folders[d].owner == s.folders[d].owner
  {
    match r {
      case FolderRef(f) =>
        MoveFolderValid(s, f, d, order);
        if OwnersAgree(s) {
          MoveFolderAgrees(s, f, d, order);
        }
      case MediaRef(m) =>
        MoveMediaValid(s, m, d, order);
        if OwnersAgree(s) {
          MoveMediaAgrees(s, m, d, order);
        }
      case NoRef =>
    }
  }

  // ---------------------------------------------------------------- loops

  lemma PlacedEdges(s: Store, f: int, d: int, order: int)
    ensures var rest := Edges(s.(placed := s.placed - {Sub(f)}));
            Edges(Placed(s, Sub(f), d, order)) == rest + {(d, f)} && rest <= Edges(s)
  {
    var t, r := Placed(s, Sub(f), d, order), s.(placed := s.placed - {Sub(f)});
    forall e: Edge ensures e in Edges(t) <==> e in Edges(r) + {(d, f)} {
      EdgeExact(t, e.0, e.1);
      EdgeExact(r, e.0, e.1);
      assert e == (e.0, e.1);
    }
    forall e | e in Edges(r) ensures e in Edges(s) {
      EdgeExact(r, e.0, e.1);
      EdgeExact(s, e.0, e.1);
    }
  }

  /** What a folder reaches does not depend on where the folder itself hangs. */
  lemma {:induction false} ReachWithoutOwnEdge(s: Store, f: int, g: int, p: seq<int>)
    requires IsPathFrom(Edges(s), f, g, p)
    ensures Reaches(Edges(s.(placed := s.placed - {Sub(f)})), f, g)
    decreases |p|
  {
    var r := s.(placed := s.placed - {Sub(f)});
    ReachesSelf(Edges(r), f);
    if |p| > 1 && g != f {
      var m := p[|p| - 2];
      assert (p[|p| - 2], p[|p| - 2 + 1]) in Edges(s);
      assert IsPathFrom(Edges(s), f, m, p[..|p| - 1]);
      ReachWithoutOwnEdge(s, f, m, p[..|p| - 1]);
      EdgeExact(s, m, g);
      EdgeExact(r, m, g);
      ReachesThenEdge(Edges(r), f, m, g);
    }
  }

  /** A move closes a loop exactly when the destination lies in the subtree of the moved folder. */
  lemma MoveLoopsExactly(s: Store, f: int, d: int, order: int)
    requires ValidStore(s) && Acyclic(Edges(s)) && f in s.folders && d in s.folders && f != d
    ensures Acyclic(Edges(MoveFolder(s, f, d, order))) <==> d !in Subtree(s, f)
  {
    var r := s.(placed := s.placed - {Sub(f)});
    MoveFolderValid(s, f, d, order);
    PlacedEdges(s, f, d, order);
    FewerEdgesAcyclic(Edges(s), Edges(r));
    AddEdgeAcyclic(Edges(r), d, f);
    if d in Subtree(s, f) {
      var p :| IsPathFrom(Edges(s), f, d, p);
      ReachWithoutOwnEdge(s, f, d, p);
    }
    if Reaches(Edges(r), f, d) {
      ReachesMore(Edges(r), Edges(s), f, d);
    }
  }

  lemma MediaMoveKeepsEdges(s: Store, m: string, d: int, order: int)
    requires d in s.folders && m in s.media
    ensures Edges(MoveMedia(s, m, d, order)) == Edges(s)
  {
    var t := MoveMedia(s, m, d, order);
    forall e: Edge ensures e in Edges(t) <==> e in Edges(s) {
      EdgeExact(t, e.0, e.1);
      EdgeExact(s, e.0, e.1);
      assert e == (e.0, e.1);
    }
  }

  // ---------------------------------------------------------------- whole requests

  /** The items of a request, one transaction each: the first failure ends the request, and what
      was moved before it stays moved. */
  ghost function MoveAll(s: Store, rs: seq<ItemRef>, d: int, order: int, user: User): (Store, Option<FolderError>)
    requires ValidStore(s) && d in s.folders
    decreases rs
  {
    if rs == [] then (s, None)
    else
      match MoveOne(s, rs[0], d, order, user)
      case Err(e) => (s, Some(e))
      case Ok(t) =>
        MoveOneKeeps(s, rs[0], d, order, user);
        MoveAll(t, rs[1..], d, order, user)
  }

  lemma {:induction false} MoveAllKeeps(s: Store, rs: seq<ItemRef>, d: int, order: int, user: User)
    requires ValidStore(s) && d in s.folders
    ensures var t := MoveAll(s, rs, d, order, user).0;
            && ValidStore(t) && (OwnersAgree(s) ==> OwnersAgree(t))
            && t.folders.Keys == s.folders.Keys && t.media.Keys == s.media.Keys
    decreases rs
  {
    if rs != [] && MoveOne(s, rs[0], d, order, user).Ok? {
      MoveOneKeeps(s, rs[0], d, order, user);
      MoveAllKeeps(MoveOne(s, rs[0], d, order, user).value, rs[1..], d, order, user);
    }
  }

  /** The item a reference stands for. */
  function Target(r: ItemRef): Option<Item> {
    match r
    case FolderRef(f) => Some(Sub(f))
    case MediaRef(m) => Some(File(m))
    case NoRef => None
  }

  predicate Requested(rs: seq<ItemRef>, it: Item) {
    exists k :: 0 <= k < |rs| && Target(rs[k]) == Some(it)
  }

  lemma MoveOnePlaces(s: Store, r: ItemRef, d: int, order: int, user: User, it: Item)
    requires d in s.folders && MoveOne(s, r, d, order, user).Ok?
    ensures var t := MoveOne(s, r, d, order, user).value;
            if Target(r) == Some(it) then it in t.placed && t.placed[it] == Slot(d, order)
            else (it in t.placed <==> it in s.placed) && (it in s.placed ==> t.placed[it] == s.placed[it])
  {
  }

  /** A successful request puts every requested item into the destination with the same sort order,
      and leaves the placement of everything else alone. */
  lemma {:induction false} MoveAllPlaces(s: Store, rs: seq<ItemRef>, d: int, order: int, user: User, it: Item)
    requires ValidStore(s) && d in s.folders
    requires MoveAll(s, rs, d, order, user).1 == None
    ensures var t := MoveAll(s, rs, d, order, user).0;
            if Requested(rs, it) then it in t.placed && t.placed[it] == Slot(d, order)
            else (it in t.placed <==> it in s.placed) && (it in s.placed ==> t.placed[it] == s.placed[it])
    decreases rs
  {
    if rs != [] {
      var t := MoveOne(s, rs[0], d, order, user).value;
      MoveOneKeeps(s, rs[0], d, order, user);
      MoveOnePlaces(s, rs[0], d, order, user, it);
      MoveAllPlaces(t, rs[1..], d, order, user, it);
      if k :| 0 <= k < |rs| && Target(rs[k]) == Some(it) {
        if k > 0 {
          assert Target(rs[1..][k - 1]) == Some(it);
        }
      }
      if k :| 0 <= k < |rs[1..]| && Target(rs[1..][k]) == Some(it) {
        assert Target(rs[k + 1]) == Some(it);
      }
    }
  }

  /** At some point the request moves a folder into its own subtree. */
  ghost predicate MovesIntoItself(s: Store, rs: seq<ItemRef>, d: int, order: int, user: User)
    requires ValidStore(s) && d in s.folders
    decreases rs
  {
    if rs == [] || MoveOne(s, rs[0], d, order, user).Err? then false
    else if rs[0].FolderRef? && d in Subtree(s, rs[0].folder) then true
    else
      MoveOneKeeps(s, rs[0], d, order, user);
      MovesIntoItself(MoveOne(s, rs[0], d, order, user).value, rs[1..], d, order, user)
  }

  /** A path survives a move when it ends in a folder that the moved one does not lead to. */
  lemma PathWithoutMoved(s: Store, f: int, p: seq<int>)
    requires IsPath(Edges(s), p) && !Reaches(Edges(s), f, p[|p| - 1])
    ensures IsPath(Edges(s.(placed := s.placed - {Sub(f)})), p)
  {
    forall k | 0 <= k < |p| - 1 ensures (p[k], p[k + 1]) in Edges(s.(placed := s.placed - {Sub(f)})) {
      PathReaches(Edges(s), p, k + 1, |p| - 1);
      EdgeExact(s, p[k], p[k + 1]);
      EdgeExact(s.(placed := s.placed - {Sub(f)}), p[k], p[k + 1]);
    }
  }

  /** A destination that is on a loop stays on one, whatever is moved there. */
  lemma LoopSurvivesMove(s: Store, f: int, d: int, order: int)
    requires ValidStore(s) && f in s.folders && d in s.folders && f != d && OnCycle(Edges(s), d)
    ensures OnCycle(Edges(MoveFolder(s, f, d, order)), d)
  {
    var r, t := s.(placed := s.placed - {Sub(f)}), MoveFolder(s, f, d, order);
    MoveFolderValid(s, f, d, order);
    PlacedEdges(s, f, d, order);
    if Reaches(Edges(s), f, d) {
      var p :| IsPathFrom(Edges(s), f, d, p);
      ReachWithoutOwnEdge(s, f, d, p);
      ReachesMore(Edges(r), Edges(t), f, d);
      assert (d, f) in Edges(t);
    } else {
      var b :| (d, b) in Edges(s) && Reaches(Edges(s), b, d);
      var p :| IsPathFrom(Edges(s), b, d, p);
      PathWithoutMoved(s, f, p);
      assert IsPathFrom(Edges(r), b, d, p);
      ReachesMore(Edges(r), Edges(t), b, d);
      EdgeExact(s, d, b);
      EdgeExact(r, d, b);
      assert (d, b) in Edges(t);
    }
  }

  lemma {:induction false} LoopSurvivesMoves(s: Store, rs: seq<ItemRef>, d: int, order: int, user: User)
    requires ValidStore(s) && d in s.folders && OnCycle(Edges(s), d)
    ensures OnCycle(Edges(MoveAll(s, rs, d, order, user).0), d)
    decreases rs
  {
    if rs != [] && MoveOne(s, rs[0], d, order, user).Ok? {
      MoveOneKeeps(s, rs[0], d, order, user);
      match rs[0] {
        case FolderRef(f) => LoopSurvivesMove(s, f, d, order);
        case MediaRef(m) => MediaMoveKeepsEdges(s, m, d, order);
        case NoRef =>
      }
      LoopSurvivesMoves(MoveOne(s, rs[0], d, order, user).value, rs[1..], d, order, user);
    }
  }

  lemma MovedIntoItself(s: Store, f: int, d: int, order: int)
    requires ValidStore(s) && f in s.folders && d in s.folders && f != d && d in Subtree(s, f)
    ensures OnCycle(Edges(MoveFolder(s, f, d, order)), d)
  {
    var r, t := s.(placed := s.placed - {Sub(f)}), MoveFolder(s, f, d, order);
    MoveFolderValid(s, f, d, order);
    PlacedEdges(s, f, d, order);
    var p :| IsPathFrom(Edges(s), f, d, p);
    ReachWithoutOwnEdge(s, f, d, p);
    ReachesMore(Edges(r), Edges(t), f, d);
    assert (d, f) in Edges(t);
  }

  /** From an acyclic store, a request, completed or broken off, leaves a loop exactly when it moves
      a folder into its own subtree: what it moves later never opens that loop again. */
  lemma {:induction false} MoveAllLoopsExactly(s: Store, rs: seq<ItemRef>, d: int, order: int, user: User)
    requires ValidStore(s) && d in s.folders && Acyclic(Edges(s))
    ensures Acyclic(Edges(MoveAll(s, rs, d, order, user).0)) <==> !MovesIntoItself(s, rs, d, order, user)
    decreases rs
  {
    if rs != [] && MoveOne(s, rs[0], d, order, user).Ok? {
      MoveOneKeeps(s, rs[0], d, order, user);
      var t := MoveOne(s, rs[0], d, order, user).value;
      if rs[0].FolderRef? && d in Subtree(s, rs[0].folder) {
        MovedIntoItself(s, rs[0].folder, d, order);
        LoopSurvivesMoves(t, rs[1..], d, order, user);
        OnCycleNotAcyclic(Edges(MoveAll(t, rs[1..], d, order, user).0), d);
      } else {
        match rs[0] {
          case FolderRef(f) => MoveLoopsExactly(s, f, d, order);
          case MediaRef(m) => MediaMoveKeepsEdges(s, m, d, order);
          case NoRef =>
        }
        MoveAllLoopsExactly(t, rs[1..], d, order, user);
      }
    }
  }

  // ---------------------------------------------------------------- smallest sort order

  ghost function Orders(s: Store, d: int): set<int> {
    set it | it in Contents(s, d) :: s.placed[it].sortOrder
  }

  /** The smallest sort order in a folder; an empty folder counts as 0. */
  ghost function MinOrder(s: Store, d: int): int {
    if Orders(s, d) == {} then 0 else Least(Orders(s, d))
  }

  ghost function MaxOrder(s: Store, d: int): int {
    if Orders(s, d) == {} then 0 else Greatest(Orders(s, d))
  }

  lemma OrderBounds(s: Store, d: int, it: Item)
    requires it in Contents(s, d)
    ensures MinOrder(s, d) <= s.placed[it].sortOrder <= MaxOrder(s, d)
  {
    assert s.placed[it].sortOrder in Orders(s, d);
  }

  /** The bounds are those of an item; in an empty folder both are 0. */
  lemma OrderAttained(s: Store, d: int)
    ensures Contents(s, d) == {} ==> MinOrder(s, d) == 0 && MaxOrder(s, d) == 0
    ensures Contents(s, d) != {} ==>
              && (exists it :: it in Contents(s, d) && s.placed[it].sortOrder == MinOrder(s, d))
              && exists it :: it in Contents(s, d) && s.placed[it].sortOrder == MaxOrder(s, d)
  {
    if Contents(s, d) != {} {
      var it := Member(Contents(s, d));
      assert s.placed[it].sortOrder in Orders(s, d);
    } else {
      assert Orders(s, d) == {};
    }
  }

  /** No request, completed or broken off, gives a root folder a parent. */
  lemma {:induction false} RootsStayRoots(s: Store, rs: seq<ItemRef>, d: int, order: int, user: User, f: int)
    requires ValidStore(s) && d in s.folders && Sub(f) !in s.placed
    ensures Sub(f) !in MoveAll(s, rs, d, order, user).0.placed
    decreases rs
  {
    if rs != [] && MoveOne(s, rs[0], d, order, user).Ok? {
      MoveOneKeeps(s, rs[0], d, order, user);
      MoveOnePlaces(s, rs[0], d, order, user, Sub(f));
      RootsStayRoots(MoveOne(s, rs[0], d, order, user).value, rs[1..], d, order, user, f);
    }
  }

  /** A whole move request: its checks, then its items, placed before everything that is there. */
  ghost function MoveRequest(s: Store, rs: seq<ItemRef>, d: int, user: User): (Store, Option<FolderError>)
    requires ValidStore(s)
  {
    if rs == [] then (s, None)
    else if d !in s.folders then (s, Some(NotFound))
    else if !Allowed(user, s.folders[d].owner) then (s, Some(PermissionDenied))
    else MoveAll(s, rs, d, MinOrder(s, d) - 1, user)
  }

  lemma MoveRequestKeeps(s: Store, rs: seq<ItemRef>, d: int, user: User)
    requires ValidStore(s)
    ensures var t := MoveRequest(s, rs, d, user).0; ValidStore(t) && (OwnersAgree(s) ==> OwnersAgree(t))
  {
    if d in s.folders {
      MoveAllKeeps(s, rs, d, MinOrder(s, d) - 1, user);
    }
  }
}
