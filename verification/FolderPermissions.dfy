// Who may change what: the effect of whole requests on the folders and media files of other users.
module FolderPermissions {
  import opened Wrappers
  import opened Graphs
  import opened FiniteSets
  import opened FolderStore
  import opened FolderMoves
  import opened FolderTrash
  import opened FolderTrashCalls
  import opened FolderListing

  /** The item is in the same place in both stores, or in none. */
  predicate SamePlace(s: Store, t: Store, it: Item) {
    if it in s.placed then it in t.placed && t.placed[it] == s.placed[it] else it !in t.placed
  }

  /** The item is there in both stores, with the same owner and data, in the same place. */
  predicate Untouched(s: Store, t: Store, it: Item) {
    && SamePlace(s, t, it)
    && match it
       case Sub(f) => f in s.folders && f in t.folders && t.folders[f] == s.folders[f]
       case File(m) => m in s.media && m in t.media && t.media[m] == s.media[m]
  }

  /** Somebody else's folder or media file. */
  predicate Foreign(s: Store, it: Item, user: User) {
    Exists(s, it) && OwnerOf(s, it) != user.id
  }

  // ---------------------------------------------------------------- whose things a move sweeps along

  /** The item is moved by this reference, or lies within the folder that is. */
  ghost predicate Carries(s: Store, r: ItemRef, it: Item) {
    match r
    case FolderRef(f) =>
      (match it
       case Sub(g) => g in Subtree(s, f)
       case File(m) => PlacedWithin(s, m, Subtree(s, f)))
    case MediaRef(m) => it == File(m)
    case NoRef => false
  }

  /** One of the moves that a request makes before it ends carries the item along. */
  ghost predicate CarriedBy(s: Store, rs: seq<ItemRef>, d: int, order: int, user: User, it: Item)
    requires ValidStore(s) && d in s.folders
    decreases rs
  {
    if rs == [] || MoveOne(s, rs[0], d, order, user).Err? then false
    else
      MoveOneKeeps(s, rs[0], d, order, user);
      Carries(s, rs[0], it) || CarriedBy(MoveOne(s, rs[0], d, order, user).value, rs[1..], d, order, user, it)
  }

  /** A folder has the same subtree wherever it hangs. */
  lemma SubtreeMoved(s: Store, f: int, d: int, order: int)
    requires ValidStore(s) && f in s.folders && d in s.folders && f != d
    ensures Subtree(Placed(s, Sub(f), d, order), f) == Subtree(s, f)
  {
    var r, t := s.(placed := s.placed - {Sub(f)}), Placed(s, Sub(f), d, order);
    PlacedEdges(s, f, d, order);
    assert t.placed - {Sub(f)} == r.placed && t.(placed := t.placed - {Sub(f)}) == r;
    forall g ensures Reaches(Edges(s), f, g) <==> Reaches(Edges(t), f, g) {
      if Reaches(Edges(s), f, g) {
        var p :| IsPathFrom(Edges(s), f, g, p);
        ReachWithoutOwnEdge(s, f, g, p);
        ReachesMore(Edges(r), Edges(t), f, g);
      }
      if Reaches(Edges(t), f, g) {
        var p :| IsPathFrom(Edges(t), f, g, p);
        ReachWithoutOwnEdge(t, f, g, p);
        ReachesMore(Edges(r), Edges(s), f, g);
      }
    }
  }

  /** One move gives exactly what it carries to the owner of the destination, and changes no other owner. */
  lemma OneMoveOwners(s: Store, r: ItemRef, d: int, order: int, user: User, it: Item)
    requires ValidStore(s) && d in s.folders && MoveOne(s, r, d, order, user).Ok? && Exists(s, it)
    ensures var t := MoveOne(s, r, d, order, user).value;
            && Exists(t, it)
            && OwnerOf(t, it) == (if Carries(s, r, it) then s.folders[d].owner else OwnerOf(s, it))
            && (!Carries(s, r, it) ==> Untouched(s, t, it))
  {
    match r {
      case FolderRef(f) =>
        SubtreeMoved(s, f, d, order);
        SubtreeHasRoot(s, f);
        var p := Placed(s, Sub(f), d, order);
        if it.File? {
          assert PlacedWithin(p, it.media, Subtree(s, f)) <==> PlacedWithin(s, it.media, Subtree(s, f));
        }
      case MediaRef(m) =>
      case NoRef =>
    }
  }

  /** A request, completed or broken off, gives exactly what it carries to the owner of the destination,
      and leaves everything else untouched. */
  lemma {:induction false} MoveOwnersExactly(s: Store, rs: seq<ItemRef>, d: int, order: int, user: User, it: Item)
    requires ValidStore(s) && d in s.folders && Exists(s, it)
    ensures var t := MoveAll(s, rs, d, order, user).0;
            && Exists(t, it)
            && OwnerOf(t, it) == (if CarriedBy(s, rs, d, order, user, it) then s.folders[d].owner else OwnerOf(s, it))
            && (!CarriedBy(s, rs, d, order, user, it) ==> Untouched(s, t, it))
    decreases rs
  {
    if rs != [] && MoveOne(s, rs[0], d, order, user).Ok? {
      var t := MoveOne(s, rs[0], d, order, user).value;
      MoveOneKeeps(s, rs[0], d, order, user);
      OneMoveOwners(s, rs[0], d, order, user, it);
      hide Carries;
      MoveOwnersExactly(t, rs[1..], d, order, user, it);
    }
  }

  // ---------------------------------------------------------------- moves by plain users

  /** What a plain user can move where owners agree carries nothing of anybody else. */
  lemma CarriesOwn(s: Store, r: ItemRef, d: int, order: int, user: User, it: Item)
    requires ValidStore(s) && OwnersAgree(s) && d in s.folders && MoveOne(s, r, d, order, user).Ok?
    requires !user.isAdmin && Foreign(s, it, user)
    ensures !Carries(s, r, it)
  {
    if r.FolderRef? && Carries(s, r, it) {
      assert it.File? ==> PlacedAgrees(s, it);
      var g := if it.Sub? then it.folder else s.placed[it].parent;
      var p :| IsPathFrom(Edges(s), r.folder, g, p);
      OneOwner(s, r.folder, g, p);
    }
  }

  lemma {:induction false} CarriedOwn(s: Store, rs: seq<ItemRef>, d: int, order: int, user: User, it: Item)
    requires ValidStore(s) && OwnersAgree(s) && d in s.folders
    requires !user.isAdmin && Foreign(s, it, user)
    ensures !CarriedBy(s, rs, d, order, user, it)
    decreases rs
  {
    if rs != [] && MoveOne(s, rs[0], d, order, user).Ok? {
      MoveOneKeeps(s, rs[0], d, order, user);
      CarriesOwn(s, rs[0], d, order, user, it);
      OneMoveOwners(s, rs[0], d, order, user, it);
      hide Carries, OwnersAgree;
      CarriedOwn(MoveOne(s, rs[0], d, order, user).value, rs[1..], d, order, user, it);
    }
  }

  /** Where owners agree, no move request of a plain user, completed or broken off, touches anything
      of anybody else. */
  lemma MoveLeavesOthers(s: Store, rs: seq<ItemRef>, d: int, user: User, it: Item)
    requires ValidStore(s) && OwnersAgree(s) && !user.isAdmin && Foreign(s, it, user)
    ensures Untouched(s, MoveRequest(s, rs, d, user).0, it)
  {
    if d in s.folders {
      CarriedOwn(s, rs, d, MinOrder(s, d) - 1, user, it);
      MoveOwnersExactly(s, rs, d, MinOrder(s, d) - 1, user, it);
    }
  }

  /** In any store, a request of a plain user touches a thing of somebody else exactly when the
      destination is his own and one of the moves made carries it along. Then it is his. */
  lemma MoveTouchesExactly(s: Store, rs: seq<ItemRef>, d: int, user: User, it: Item)
    requires ValidStore(s) && !user.isAdmin && Foreign(s, it, user)
    ensures var t := MoveRequest(s, rs, d, user).0;
            var carried := d in s.folders && s.folders[d].owner == user.id
                           && CarriedBy(s, rs, d, MinOrder(s, d) - 1, user, it);
            && Exists(t, it)
            && (Untouched(s, t, it) <==> !carried)
            && (carried ==> OwnerOf(t, it) == user.id)
  {
    if d in s.folders {
      MoveOwnersExactly(s, rs, d, MinOrder(s, d) - 1, user, it);
    }
  }

  // ---------------------------------------------------------------- trash, create and reorder by plain users

  /** Trashing by a plain user leaves every folder of anybody else untouched; where owners agree, also
      every media file, and the media to be deleted are his own. */
  lemma TrashLeavesOthers(s: Store, f: int, user: User, it: Item)
    requires ValidStore(s) && !user.isAdmin && Trash(s, f, user).Ok? && Foreign(s, it, user)
    ensures it.Sub? || OwnersAgree(s) ==> Untouched(s, Trash(s, f, user).value, it)
    ensures it.File? && OwnersAgree(s) ==> it.media !in MediaIn(s, Subtree(s, f))
  {
    assert OwnersAgree(s) && it in s.placed ==> PlacedAgrees(s, it);
    TrashExact(s, f, user, it);
    SubtreeHasRoot(s, f);
    if it.Sub? && it in s.placed && s.placed[it].parent in Subtree(s, f) {
      EdgeExact(s, s.placed[it].parent, it.folder);
      SubtreeClosed(s, f, s.placed[it].parent, it.folder);
    }
  }

  /** In any store, trashing by a plain user touches a media file of somebody else exactly when it
      lies in a trashed folder. It then loses its place, and nothing else of it changes. */
  lemma TrashTouchesExactly(s: Store, f: int, user: User, m: string)
    requires ValidStore(s) && !user.isAdmin && Trash(s, f, user).Ok? && Foreign(s, File(m), user)
    ensures var t := Trash(s, f, user).value;
            && (Untouched(s, t, File(m)) <==> !PlacedWithin(s, m, Subtree(s, f)))
            && m in t.media && t.media[m] == s.media[m]
  {
    TrashExact(s, f, user, File(m));
  }

  /** Creating a folder touches nothing there was, whoever does it. */
  lemma CreateLeavesAll(s: Store, parent: int, title: string, now: int, user: User, r: Result<int, FolderError>,
                        t: Store,
                        it: Item)
    requires ValidStore(s) && parent in s.folders && IsCreation(s, parent, title, now, user, r, t) && Exists(s, it)
    ensures Untouched(s, t, it)
  {
  }

  /** Reordering touches nothing but the places of requested items in that folder, and where owners
      agree, nothing of anybody but the owner of the folder. */
  lemma ReorderLeavesOthers(s: Store, d: int, rs: seq<ItemRef>, it: Item)
    requires ValidStore(s) && d in s.folders && Exists(s, it)
    ensures var t := Reordered(s, d, rs, 0);
            && (!(Requested(rs, it) && it in s.placed && s.placed[it].parent == d) ==> Untouched(s, t, it))
            && (OwnersAgree(s) && OwnerOf(s, it) != s.folders[d].owner ==> Untouched(s, t, it))
  {
    ReorderedKeeps(s, d, rs, 0);
    if OwnersAgree(s) && it in s.placed {
      assert PlacedAgrees(s, it);
    }
  }

  // ---------------------------------------------------------------- who is refused

  /** One item is refused for permission exactly when it is there, somebody else's, and the user no
      admin; as not found when it is not there, or is a root folder of his; as invalid when it is the
      destination itself. */
  lemma ItemRefusedExactly(s: Store, r: ItemRef, d: int, order: int, user: User)
    requires d in s.folders
    ensures MoveOne(s, r, d, order, user) == Err(PermissionDenied) <==>
            && !user.isAdmin
            && match r
               case FolderRef(f) => f in s.folders && f != d && s.folders[f].owner != user.id
               case MediaRef(m) => m in s.media && s.media[m].owner != user.id
               case NoRef => false
    ensures MoveOne(s, r, d, order, user) == Err(InvalidArgument) <==> r == FolderRef(d)
    ensures MoveOne(s, r, d, order, user) == Err(NotFound) <==>
            match r
            case FolderRef(f) =>
              f !in s.folders
              || (f != d && (user.isAdmin || s.folders[f].owner == user.id) && Sub(f) !in s.placed)
            case MediaRef(m) => m !in s.media
            case NoRef => false
  {
  }

  /** At some point the request comes to an item that is refused. */
  ghost predicate MeetsRefusal(s: Store, rs: seq<ItemRef>, d: int, order: int, user: User)
    requires ValidStore(s) && d in s.folders
    decreases rs
  {
    if rs == [] then false
    else
      match MoveOne(s, rs[0], d, order, user)
      case Err(e) =>
        (match rs[0]
         case FolderRef(f) => f in s.folders && f != d && s.folders[f].owner != user.id
         case MediaRef(m) => m in s.media && s.media[m].owner != user.id
         case NoRef => false)
      case Ok(t) =>
        MoveOneKeeps(s, rs[0], d, order, user);
        MeetsRefusal(t, rs[1..], d, order, user)
  }

  lemma {:induction false} ItemsRefusedExactly(s: Store, rs: seq<ItemRef>, d: int, order: int, user: User)
    requires ValidStore(s) && d in s.folders
    ensures MoveAll(s, rs, d, order, user).1 == Some(PermissionDenied) <==>
            !user.isAdmin && MeetsRefusal(s, rs, d, order, user)
    decreases rs
  {
    if rs != [] {
      ItemRefusedExactly(s, rs[0], d, order, user);
      if MoveOne(s, rs[0], d, order, user).Ok? {
        MoveOneKeeps(s, rs[0], d, order, user);
        ItemsRefusedExactly(MoveOne(s, rs[0], d, order, user).value, rs[1..], d, order, user);
      }
    }
  }

  /** A move request is refused for permission exactly when the user is no admin, and the destination
      or the item it comes to is somebody else's. */
  lemma MoveRefusedExactly(s: Store, rs: seq<ItemRef>, d: int, user: User)
    requires ValidStore(s)
    ensures MoveRequest(s, rs, d, user).1 == Some(PermissionDenied) <==>
            && !user.isAdmin && rs != [] && d in s.folders
            && (s.folders[d].owner != user.id || MeetsRefusal(s, rs, d, MinOrder(s, d) - 1, user))
    ensures rs == [] ==> MoveRequest(s, rs, d, user) == (s, None)
    ensures rs != [] && d !in s.folders ==> MoveRequest(s, rs, d, user) == (s, Some(NotFound))
  {
    if d in s.folders {
      ItemsRefusedExactly(s, rs, d, MinOrder(s, d) - 1, user);
    }
  }

  /** Trashing is refused for permission exactly when the user is no admin, and the folder or one
      below it is somebody else's. */
  lemma TrashRefusedExactly(s: Store, f: int, user: User)
    requires ValidStore(s)
    ensures Trash(s, f, user) == Err(PermissionDenied) <==>
            !user.isAdmin && f in s.folders && exists g :: g in Subtree(s, f) && s.folders[g].owner != user.id
  {
    if f in s.folders && !MayTrash(s, f, user) {
      var g :| g in Subtree(s, f) && !Allowed(user, s.folders[g].owner);
      assert s.folders[g].owner != user.id;
    }
  }

  /** A folder is created exactly when the user is an admin or owns the parent, the title has at most
      255 characters, and nothing in the parent has it. It is a new one, with the title and the owner
      of the parent, behind everything there. */
  lemma CreationExactly(s: Store, parent: int, title: string, now: int, user: User, r: Result<int, FolderError>,
                        t: Store)
    requires ValidStore(s) && parent in s.folders && IsCreation(s, parent, title, now, user, r, t)
    ensures r.Ok? <==>
            && (user.isAdmin || s.folders[parent].owner == user.id) && |title| <= 255
            && forall it :: it in Contents(s, parent) ==> TitleOf(s, it) != title
    ensures r == Err(PermissionDenied) <==> !user.isAdmin && s.folders[parent].owner != user.id
    ensures r.Err? ==> t == s
    ensures r.Ok? ==>
              && r.value !in s.folders && t.folders.Keys == s.folders.Keys + {r.value} && t.media == s.media
              && t.folders[r.value] == Folder(s.folders[parent].owner, title, now)
              && t.placed.Keys == s.placed.Keys + {Sub(r.value)} && t.placed[Sub(r.value)].parent == parent
              && forall it :: it in Contents(s, parent) ==>
                   s.placed[it].sortOrder < t.placed[Sub(r.value)].sortOrder
  {
    if r.Ok? {
      forall it | it in Contents(s, parent) ensures s.placed[it].sortOrder <= MaxOrder(s, parent) {
        OrderBounds(s, parent, it);
      }
    }
    if TitleTaken(s, parent, title) {
      var it :| it in Contents(s, parent) && TitleOf(s, it) == title;
    }
  }
}
