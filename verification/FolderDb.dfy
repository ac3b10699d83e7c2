// The organizer's folder database: the operations as they change the tables, step by step.
module FolderDb {
  import opened Wrappers
  import opened Sorting
  import opened FiniteSets
  import opened Graphs
  import opened FolderStore
  import opened FolderMoves
  import opened FolderTrash
  import opened FolderTrashCalls
  import opened FolderRepairs
  import opened FolderListing
  import CycleFinder

  lemma ReachedFromStart(es: set<Edge>, start: int, s: set<int>, g: int)
    requires start in s && Reaches(es, start, g)
    requires forall e :: e in es && e.0 in s ==> e.1 in s
    ensures g in s
  {
    var p :| IsPathFrom(es, start, g, p);
    ClosedHoldsReached(es, s, p, start, g);
  }

  /** Starting from nothing seen, what has been seen in the end is exactly the subtree. */
  lemma SeenIsSubtree(s: Store, f: int, seen: set<int>)
    requires ValidStore(s) && f in s.folders && f in seen
    requires forall g :: g in seen ==> Reaches(Edges(s), f, g)
    requires forall e :: e in Edges(s) && e.0 in seen ==> e.1 in seen
    ensures seen == Subtree(s, f)
  {
    forall g ensures g in seen <==> g in Subtree(s, f) {
      if g in seen {
        ReachedExists(s, f, g);
      }
      if g in Subtree(s, f) {
        ReachedFromStart(Edges(s), f, seen, g);
      }
    }
  }

  class Db {
    var users: map<string, string>      // id to name
    var folders: map<int, Folder>
    var media: map<string, Media>
    var placed: map<Item, Slot>
    var nextFolderId: int

    constructor ()
      ensures Valid() && State() == Store(map[], map[], map[], 1)
    {
      users, folders, media, placed, nextFolderId := map[], map[], map[], map[], 1;
    }

    ghost function State(): Store
      reads this
    {
      Store(folders, media, placed, nextFolderId)
    }

    ghost predicate Valid()
      reads this
    {
      ValidStore(State())
    }

    // -------------------------------------------------------------- queries

    /** The items placed in a folder, in whatever order the database returns them. */
    method SelectContents(d: int) returns (rows: seq<Item>)
      ensures NoDup(rows)
      ensures forall it :: it in rows <==> it in Contents(State(), d)
    {
      var rest := set it | it in placed && placed[it].parent == d;
      assert rest == Contents(State(), d);
      rows := [];
      while rest != {}
        invariant NoDup(rows)
        invariant forall it :: it in Contents(State(), d) <==> it in rows || it in rest
        invariant forall it :: it in rows ==> it !in rest
        decreases rest
      {
        var it := PickAny(rest);
        rows := rows + [it];
        rest := rest - {it};
      }
    }

    method SelectSubfolders(d: int) returns (ids: seq<int>)
      ensures NoDup(ids)
      ensures forall c :: c in ids <==> c in Subfolders(State(), d)
    {
      var rows := SelectContents(d);
      ids := [];
      for i := 0 to |rows|
        invariant forall c :: c in ids <==> Sub(c) in rows[..i]
        invariant NoDup(ids)
      {
        assert rows[..i + 1] == rows[..i] + [rows[i]];
        if rows[i].Sub? {
          assert rows[i] !in rows[..i];
          ids := ids + [rows[i].folder];
        }
      }
      assert rows[..|rows|] == rows;
      forall c ensures c in ids <==> c in Subfolders(State(), d) {
        SubfolderExact(State(), d, c);
        EdgeExact(State(), d, c);
      }
    }

    method SelectMedia(d: int) returns (ids: seq<string>)
      ensures NoDup(ids)
      ensures forall m :: m in ids <==> m in MediaIn(State(), {d})
    {
      var rows := SelectContents(d);
      ids := [];
      for i := 0 to |rows|
        invariant forall m :: m in ids <==> File(m) in rows[..i]
        invariant NoDup(ids)
      {
        assert rows[..i + 1] == rows[..i] + [rows[i]];
        if rows[i].File? {
          assert rows[i] !in rows[..i];
          ids := ids + [rows[i].media];
        }
      }
      assert rows[..|rows|] == rows;
      forall m ensures m in ids <==> m in MediaIn(State(), {d}) {
        assert File(m) in Contents(State(), d) ==> File(m).File?;
      }
    }

    method SelectMinOrder(d: int) returns (order: int)
      ensures order == MinOrder(State(), d)
    {
      var rows := SelectContents(d);
      if rows == [] {
        assert Orders(State(), d) == {};
        return 0;
      }
      assert rows[0] in Contents(State(), d);
      order := placed[rows[0]].sortOrder;
      for i := 0 to |rows|
        invariant order in Orders(State(), d)
        invariant forall k :: 0 <= k < i ==> rows[k] in placed && order <= placed[rows[k]].sortOrder
      {
        assert rows[i] in Contents(State(), d);
        if placed[rows[i]].sortOrder < order {
          order := placed[rows[i]].sortOrder;
        }
      }
      forall o | o in Orders(State(), d) ensures order <= o {
        var it :| it in Contents(State(), d) && placed[it].sortOrder == o;
        assert it in rows;
      }
    }

    method SelectMaxOrder(d: int) returns (order: int)
      ensures order == MaxOrder(State(), d)
    {
      var rows := SelectContents(d);
      if rows == [] {
        assert Orders(State(), d) == {};
        return 0;
      }
      assert rows[0] in Contents(State(), d);
      order := placed[rows[0]].sortOrder;
      for i := 0 to |rows|
        invariant order in Orders(State(), d)
        invariant forall k :: 0 <= k < i ==> rows[k] in placed && placed[rows[k]].sortOrder <= order
      {
        assert rows[i] in Contents(State(), d);
        if order < placed[rows[i]].sortOrder {
          order := placed[rows[i]].sortOrder;
        }
      }
      forall o | o in Orders(State(), d) ensures o <= order {
        var it :| it in Contents(State(), d) && placed[it].sortOrder == o;
        assert it in rows;
      }
    }

    // -------------------------------------------------------------- ownership

    method SetFolderOwner(f: int, owner: string)
      requires f in folders
      modifies this`folders, this`media
      ensures State() == SetOwner(old(State()), {f}, owner)
    {
      folders := folders[f := folders[f].(owner := owner)];
      media := map m | m in media ::
        if File(m) in placed && placed[File(m)].parent == f then media[m].(owner := owner) else media[m];
      assert folders == SetOwner(old(State()), {f}, owner).folders;
      assert media == SetOwner(old(State()), {f}, owner).media;
    }

    /** Hands a folder and everything below it to a new owner. It ends on every folder graph, loops
        included, because no folder is handled twice. */
    method RecursiveSetFolderOwner(f: int, owner: string, seen: set<int>) returns (seen': set<int>)
      requires Valid() && f in folders
      modifies this`folders, this`media
      ensures State() == SetOwner(old(State()), seen' - seen, owner)
      ensures seen <= seen' && f in seen'
      ensures forall g :: g in seen' - seen ==> Reaches(Edges(old(State())), f, g)
      ensures forall e :: e in Edges(old(State())) && e.0 in seen' - seen ==> e.1 in seen'
      decreases folders.Keys - seen
    {
      ghost var s0 := State();
      if f in seen {
        assert seen - seen == {};
        assert SetOwner(s0, {}, owner) == s0;
        return seen;
      }
      seen' := seen + {f};
      SetFolderOwner(f, owner);
      ReachesSelf(Edges(s0), f);
      assert seen' - seen == {f};
      SetOwnerKeepsValid(s0, {f}, owner);
      var subIds := SelectSubfolders(f);
      for i := 0 to |subIds|
        invariant seen + {f} <= seen'
        invariant State() == SetOwner(s0, seen' - seen, owner)
        invariant forall g :: g in seen' - seen ==> Reaches(Edges(s0), f, g)
        invariant forall e :: e in Edges(s0) && e.0 in seen' - seen - {f} ==> e.1 in seen'
        invariant forall k :: 0 <= k < i ==> subIds[k] in seen'
      {
        ghost var before := seen';
        SetOwnerKeepsValid(s0, before - seen, owner);
        OwnersOnlySubfolder(s0, before - seen, owner, f, subIds[i], subIds);
        seen' := RecursiveSetFolderOwner(subIds[i], owner, seen');
        SetOwnerTwice(s0, before - seen, seen' - before, owner);
        assert (before - seen) + (seen' - before) == seen' - seen;
        forall g | g in seen' - before ensures Reaches(Edges(s0), f, g) {
          EdgeReaches(Edges(s0), f, subIds[i]);
          ReachesTransitive(Edges(s0), f, subIds[i], g);
        }
      }
      forall e | e in Edges(s0) && e.0 == f ensures e.1 in seen' {
        assert (f, e.1) in Edges(s0);
        SubfolderExact(s0, f, e.1);
        assert e.1 in subIds;
      }
    }

    // -------------------------------------------------------------- moving

    /** Moves one folder: its row, then the owners of everything below it. */
    method MoveFolderTo(f: int, d: int, order: int)
      requires Valid() && f in folders && d in folders && f != d
      modifies this`folders, this`media, this`placed
      ensures State() == MoveFolder(old(State()), f, d, order)
    {
      MoveFolderValid(State(), f, d, order);
      var owner := folders[d].owner;
      placed := placed[Sub(f) := Slot(d, order)];
      ghost var t := State();
      MovedRowValid(old(State()), f, d, order);
      var seen := RecursiveSetFolderOwner(f, owner, {});
      assert seen - {} == seen;
      SeenIsSubtree(t, f, seen);
    }

    method MoveMediaTo(m: string, d: int, order: int)
      requires m in media && d in folders
      modifies this`media, this`placed
      ensures State() == MoveMedia(old(State()), m, d, order)
    {
      media := media[m := media[m].(owner := folders[d].owner)];
      placed := placed[File(m) := Slot(d, order)];
    }

    /** Moves a list of items into a folder, one transaction each. */
    method MoveToFolder(ids: seq<ItemRef>, d: int, user: User) returns (r: Result<(), FolderError>)
      requires Valid()
      modifies this`folders, this`media, this`placed
      ensures Valid()
      ensures var (t, e) := MoveRequest(old(State()), ids, d, user);
              State() == t && r == (if e.None? then Ok(()) else Err(e.value))
    {
      hide MoveFolder, MoveMedia, ValidStore, MinOrder;
      ghost var s0 := State();
      MoveRequestKeeps(s0, ids, d, user);
      if ids == [] {
        return Ok(());
      }
      var order := SelectMinOrder(d);
      if d !in folders {
        return Err(NotFound);
      }
      if !Allowed(user, folders[d].owner) {
        return Err(PermissionDenied);
      }
      for i := 0 to |ids|
        invariant Valid() && d in folders
        invariant MoveAll(State(), ids[i..], d, order - 1, user) == MoveAll(s0, ids, d, order - 1, user)
      {
        assert ids[i..][0] == ids[i] && ids[i..][1..] == ids[i + 1..];
        ghost var s := State();
        match ids[i] {
          case FolderRef(f) =>
            if f !in folders { return Err(NotFound); }
            if f == d { return Err(InvalidArgument); }
            if !Allowed(user, folders[f].owner) { return Err(PermissionDenied); }
            if Sub(f) !in placed { return Err(NotFound); }
            if folders[d].owner == "" { return Err(AssertionFailed); }
            MoveOneKeeps(s, ids[i], d, order - 1, user);
            MoveFolderTo(f, d, order - 1);
          case MediaRef(m) =>
            if m !in media { return Err(NotFound); }
            if !Allowed(user, media[m].owner) { return Err(PermissionDenied); }
            MoveOneKeeps(s, ids[i], d, order - 1, user);
            MoveMediaTo(m, d, order - 1);
          case NoRef =>
        }
      }
      return Ok(());
    }

    // -------------------------------------------------------------- trashing

    /** Deletes the rows of everything in the folder, and the folder with its own row. */
    method DeleteFolder(f: int)
      modifies this`folders, this`placed
      ensures State() == Removed(old(State()), {f})
    {
      placed := map it | it in placed && placed[it].parent != f :: placed[it];
      folders := map g | g in folders && g != f :: folders[g];
      placed := map it | it in placed && it != Sub(f) :: placed[it];
      assert placed == Removed(old(State()), {f}).placed;
      assert folders == Removed(old(State()), {f}).folders;
    }

    /** Trashes a folder, subfolders first. On an error the tables are left half changed; the caller's
        transaction undoes that. `stack` are the folders whose calls are active. */
    method TrashFolderRecursive(f: int, user: User, ghost stack: seq<int>) returns (r: Result<seq<string>, FolderError>)
      requires Valid() && (f in folders ==> Halts(State(), f, user) && IsStack(State(), stack, f, user))
      modifies this`folders, this`placed
      ensures match Trash(old(State()), f, user)
              case Err(e) => r == Err(e)
              case Ok(t) =>
                && r.Ok? && State() == t && NoDup(r.value)
                && forall m :: m in r.value <==> m in MediaIn(old(State()), Subtree(old(State()), f))
      decreases folders.Keys - Active(stack)
    {
      ghost var s0 := State();
      if f !in folders {
        return Err(NotFound);
      }
      SubtreeHasRoot(s0, f);
      if !Allowed(user, folders[f].owner) {
        return Err(PermissionDenied);
      }
      var mediaIds := SelectMedia(f);
      var subIds := SelectSubfolders(f);
      ghost var gone: set<int> := {};
      NothingRemoved(s0);
      for i := 0 to |subIds|
        invariant gone == SubtreesOf(s0, subIds[..i]) && AllEnd(s0, subIds[..i])
        invariant State() == AfterSiblings(s0, subIds, i)
        invariant forall g :: g in gone ==> g in s0.folders && Allowed(user, s0.folders[g].owner)
        invariant NoDup(mediaIds) && forall m :: m in mediaIds <==> m in MediaIn(s0, gone + {f})
      {
        hide IsStack, Halts, Ends, AllEnd, SubtreesOf, NoDup;
        var c := subIds[i];
        NextCall(s0, f, subIds, i, user, stack);
        FewerLeft(s0.folders.Keys, folders.Keys, stack, f);
        var sub := TrashFolderRecursive(c, user, stack + [f]);
        if Ends(s0, c) {
          AfterCall(s0, f, subIds, i, user);
        }
        if sub.Err? {
          return Err(sub.error);
        }
        MediaStep(s0, gone, f, c, mediaIds, sub.value);
        mediaIds := mediaIds + sub.value;
        gone := gone + Subtree(s0, c);
      }
      assert subIds[..|subIds|] == subIds;
      SubtreeUnfolds(s0, f, subIds);
      DeleteFolder(f);
      RemovedTwice(s0, gone, {f});
      assert gone + {f} == Subtree(s0, f);
      return Ok(mediaIds);
    }

    /** The trash command: one transaction, so a failure anywhere below leaves everything as it was. */
    method TrashFolder(f: int, user: User) returns (r: Result<seq<string>, FolderError>)
      requires Valid() && (f in folders ==> Halts(State(), f, user))
      modifies this`folders, this`placed
      ensures Valid()
      ensures match Trash(old(State()), f, user)
              case Err(e) => r == Err(e) && State() == old(State())
              case Ok(t) =>
                && r.Ok? && State() == t && NoDup(r.value)
                && forall m :: m in r.value <==> m in MediaIn(old(State()), Subtree(old(State()), f))
    {
      var foldersBefore, placedBefore := folders, placed;
      if Trash(State(), f, user).Ok? {
        TrashKeeps(State(), f, user);
      }
      r := TrashFolderRecursive(f, user, []);
      if r.Err? {
        folders, placed := foldersBefore, placedBefore;
      }
    }

    // -------------------------------------------------------------- creating, reordering, listing

    method TitleExists(d: int, title: string) returns (taken: bool)
      requires Valid()
      ensures taken <==> TitleTaken(State(), d, title)
    {
      var rows := SelectContents(d);
      for i := 0 to |rows|
        invariant forall k :: 0 <= k < i ==> Exists(State(), rows[k]) && TitleOf(State(), rows[k]) != title
      {
        assert rows[i] in Contents(State(), d);
        var t := match rows[i] case Sub(f) => folders[f].title case File(m) => media[m].title;
        if t == title {
          return true;
        }
      }
      forall it | it in Contents(State(), d) ensures TitleOf(State(), it) != title {
        assert it in rows;
      }
      return false;
    }

    /** Creates a folder at the end of its parent. An empty title is accepted here: the check for it
        builds an error without raising it. Only the command that calls this refuses one. */
    method CreateFolder(parent: int, title: string, now: int, user: User) returns (r: Result<int, FolderError>)
      requires Valid() && parent in folders
      modifies this`folders, this`placed, this`nextFolderId
      ensures Valid()
      ensures IsCreation(old(State()), parent, title, now, user, r, State())
    {
      hide Created, TitleTaken, ValidStore, MaxOrder;
      if !Allowed(user, folders[parent].owner) {
        return Err(PermissionDenied);
      }
      if |title| > MAX_TITLE_LENGTH {
        return Err(InvalidArgument);
      }
      var taken := TitleExists(parent, title);
      if taken {
        return Err(AlreadyExists);
      }
      CreatedKeeps(State(), parent, title, now);
      var order := SelectMaxOrder(parent);
      var id := InsertFolder(parent, title, now, order);
      return Ok(id);
    }

    method InsertFolder(parent: int, title: string, now: int, order: int) returns (id: int)
      requires Valid() && parent in folders && order == MaxOrder(State(), parent)
      modifies this`folders, this`placed, this`nextFolderId
      ensures id == old(nextFolderId) && State() == Created(old(State()), parent, title, now)
    {
      id := nextFolderId;
      folders := folders[id := Folder(folders[parent].owner, title, now)];
      placed := placed[Sub(id) := Slot(parent, order + 1)];
      nextFolderId := id + 1;
    }

    method ReorderItems(ids: seq<ItemRef>, parent: Option<int>, user: User) returns (r: Result<(), FolderError>)
      requires Valid()
      modifies this`placed
      ensures Valid()
      ensures if ids == [] then r == Ok(()) && State() == old(State())
              else if parent.None? then r == Err(InvalidArgument) && State() == old(State())
              else if parent.value !in folders then r == Err(NotFound) && State() == old(State())
              else if folders[parent.value].owner != user.id && !user.isAdmin then
                r == Err(PermissionDenied) && State() == old(State())
              else r == Ok(()) && State() == Reordered(old(State()), parent.value, ids, 0)
    {
      if ids == [] {
        return Ok(());
      }
      if parent.None? {
        return Err(InvalidArgument);
      }
      var d := parent.value;
      if d !in folders {
        return Err(NotFound);
      }
      if !Allowed(user, folders[d].owner) {
        return Err(PermissionDenied);
      }
      ReorderedValid(State(), d, ids, 0);
      for i := 0 to |ids|
        invariant Reordered(State(), d, ids[i..], i) == Reordered(old(State()), d, ids, 0)
      {
        assert ids[i..][0] == ids[i] && ids[i..][1..] == ids[i + 1..];
        match ids[i] {
          case FolderRef(f) =>
            if Sub(f) in placed && placed[Sub(f)].parent == d {
              placed := placed[Sub(f) := Slot(d, i)];
            }
          case MediaRef(m) =>
            if File(m) in placed && placed[File(m)].parent == d {
              placed := placed[File(m) := Slot(d, i)];
            }
          case NoRef =>
        }
      }
      return Ok(());
    }

    method FetchFolderContents(d: int, user: User) returns (r: Result<seq<Item>, FolderError>)
      requires Valid() && d in folders
      ensures if folders[d].owner == user.id || user.isAdmin
              then r.Ok? && IsListing(State(), d, r.value)
              else r == Err(PermissionDenied)
    {
      if !Allowed(user, folders[d].owner) {
        return Err(PermissionDenied);
      }
      var items := SelectContents(d);
      var rows: seq<Row> := [];
      for i := 0 to |items|
        invariant |rows| == i
        invariant forall k :: 0 <= k < i ==> items[k] in Contents(State(), d) && rows[k] == RowOf(State(), items[k])
      {
        assert items[i] in Contents(State(), d);
        var it := items[i];
        rows := rows + [Row(it, placed[it].sortOrder, it.File?,
                            match it case Sub(f) => folders[f].created case File(m) => media[m].added)];
      }
      var sorted := Sort(NotAfter, rows);
      var out: seq<Item> := [];
      for i := 0 to |sorted|
        invariant |out| == i
        invariant forall k :: 0 <= k < i ==> out[k] == sorted[k].item
      {
        out := out + [sorted[i].item];
      }
      SortedRowsAreListing(State(), d, items, rows, out);
      return Ok(out);
    }

    // -------------------------------------------------------------- repairs

    method SelectLinks() returns (rows: seq<Edge>)
      ensures NoDup(rows) && CycleFinder.SetOf(rows) == Edges(State())
    {
      var rest := set it | it in placed && it.Sub? :: (placed[it].parent, it.folder);
      assert rest == Edges(State());
      rows := [];
      while rest != {}
        invariant NoDup(rows)
        invariant forall e :: e in Edges(State()) <==> e in rows || e in rest
        invariant forall e :: e in rows ==> e !in rest
        decreases rest
      {
        var e := PickAny(rest);
        rows := rows + [e];
        rest := rest - {e};
      }
    }

    method DeleteLink(p: int, f: int) returns (count: nat)
      modifies this`placed
      ensures State() == Unlinked(old(State()), {(p, f)})
      ensures count == if (p, f) in Edges(old(State())) then 1 else 0
    {
      EdgeExact(State(), p, f);
      count := 0;
      if Sub(f) in placed && placed[Sub(f)].parent == p {
        placed := map it | it in placed && it != Sub(f) :: placed[it];
        count := 1;
      }
      assert placed == Unlinked(old(State()), {(p, f)}).placed;
    }

    /** Start-up check for folder loops: every loop found loses the link that closes it, and each
        deletion removes exactly one row. */
    method CheckForFolderLoops() returns (found: bool)
      requires Valid()
      modifies this`placed
      ensures Valid()
      ensures exists cycles :: LoopsBroken(old(State()), State(), cycles) && (found <==> cycles != [])
    {
      ghost var s0 := State();
      var rows := SelectLinks();
      var cycles := CycleFinder.FindCycles(rows);
      NothingUnlinked(s0);
      UnlinkedKeeps(s0, CycleFinder.Closing(cycles));
      for i := 0 to |cycles|
        invariant State() == Unlinked(s0, CycleFinder.Closing(cycles[..i]))
      {
        NextLoop(s0, cycles, i);
        var cyc := cycles[i];
        UnlinkedTwice(s0, CycleFinder.Closing(cycles[..i]), CycleFinder.ClosingEdge(cyc));
        UnlinkedKeeps(s0, CycleFinder.Closing(cycles[..i]));
        var count := DeleteLink(cyc[|cyc| - 1], cyc[0]);
        assert count == 1;
      }
      assert cycles[..|cycles|] == cycles;
      assert LoopsBroken(s0, State(), cycles);
      return cycles != [];
    }

    method InsertItem(it: Item, parent: int, order: int)
      requires it !in placed
      modifies this`placed
      ensures placed == old(placed)[it := Slot(parent, order)]
    {
      placed := placed[it := Slot(parent, order)];
    }

    method SelectRoots(user: string) returns (ids: seq<int>)
      ensures NoDup(ids) && forall f :: f in ids <==> f in Roots(State(), user)
    {
      var rest := set f | f in folders && folders[f].owner == user && Sub(f) !in placed;
      assert rest == Roots(State(), user);
      ids := [];
      while rest != {}
        invariant NoDup(ids)
        invariant forall f :: f in Roots(State(), user) <==> f in ids || f in rest
        invariant forall f :: f in ids ==> f !in rest
        decreases rest
      {
        var f := PickAny(rest);
        ids := ids + [f];
        rest := rest - {f};
      }
    }

    method SelectOrphans(user: string) returns (ids: seq<string>)
      ensures NoDup(ids) && forall m :: m in ids <==> m in Orphans(State(), user)
    {
      var rest := set m | m in media && media[m].owner == user && File(m) !in placed;
      assert rest == Orphans(State(), user);
      ids := [];
      while rest != {}
        invariant NoDup(ids)
        invariant forall m :: m in Orphans(State(), user) <==> m in ids || m in rest
        invariant forall m :: m in ids ==> m !in rest
        decreases rest
      {
        var m := PickAny(rest);
        ids := ids + [m];
        rest := rest - {m};
      }
    }

    /** Puts the other root folders into the oldest one. */
    method AdoptRoots(ids: seq<int>, root: int)
      requires NoDup(ids) && forall f :: f in ids ==> Sub(f) !in placed
      modifies this`placed
      ensures State() == Adopt(old(State()), root, SubItems(ids, root))
    {
      ghost var s0 := State();
      ghost var done: set<Item> := {};
      AdoptNothing(s0, root);
      for i := 0 to |ids|
        invariant done == SubItems(ids[..i], root)
        invariant State() == Adopt(s0, root, done)
      {
        assert ids[..i + 1] == ids[..i] + [ids[i]];
        if ids[i] != root {
          assert Sub(ids[i]) !in done;
          InsertItem(Sub(ids[i]), root, 0);
          AdoptOneMore(s0, root, done, Sub(ids[i]));
          done := done + {Sub(ids[i])};
        }
      }
      assert ids[..|ids|] == ids;
    }

    method AdoptOrphans(ids: seq<string>, root: int)
      requires NoDup(ids) && forall m :: m in ids ==> File(m) !in placed
      modifies this`placed
      ensures State() == Adopt(old(State()), root, FileItems(ids))
    {
      ghost var s0 := State();
      ghost var done: set<Item> := {};
      AdoptNothing(s0, root);
      for i := 0 to |ids|
        invariant done == FileItems(ids[..i])
        invariant State() == Adopt(s0, root, done)
      {
        assert ids[..i + 1] == ids[..i] + [ids[i]];
        assert File(ids[i]) !in done;
        InsertItem(File(ids[i]), root, 0);
        AdoptOneMore(s0, root, done, File(ids[i]));
        done := done + {File(ids[i])};
      }
      assert ids[..|ids|] == ids;
    }

    /** The first half: exactly one root folder. */
    method EnsureOneRoot(user: string, title: string, now: int) returns (root: int)
      modifies this`folders, this`placed, this`nextFolderId
      ensures root == RootFor(old(State()), user)
      ensures State() == Adopt(Base(old(State()), user, title, now), root, LooseRoots(old(State()), user, root))
    {
      ghost var s0 := State();
      var roots := SelectRoots(user);
      if |roots| == 0 {
        assert Roots(s0, user) == {};
        root := nextFolderId;
        folders := folders[root := Folder(user, title, now)];
        nextFolderId := root + 1;
        AdoptNothing(State(), root);
      } else {
        LeastRootListed(s0, user, roots);
        root := roots[0];
        for i := 0 to |roots|
          invariant root in roots && forall k :: 0 <= k < i ==> root <= roots[k]
        {
          if roots[i] < root {
            root := roots[i];
          }
        }
        assert root == Least(Roots(s0, user));
        AdoptRoots(roots, root);
      }
      assert SubItems(roots, root) == LooseRoots(s0, user, root);
    }

    /** Finds the user's root folder, creating it or merging several into the oldest as needed, and
        takes in the user's media files that are in no folder. */
    method GetOrCreateUserRootFolder(user: string, name: string, now: int) returns (r: Result<int, FolderError>)
      requires Valid()
      modifies this`folders, this`placed, this`nextFolderId
      ensures Valid()
      ensures if user == "" || name == "" then r == Err(AssertionFailed) && State() == old(State())
              else if user !in users then r == Err(UnknownUser) && State() == old(State())
              else
                var (t, root) := RootRepaired(old(State()), user, "Home of '" + name + "'", now);
                r == Ok(root) && State() == t
    {
      if user == "" || name == "" {
        return Err(AssertionFailed);
      }
      if user !in users {
        return Err(UnknownUser);
      }
      hide Adopt, Base, RootFor, LooseRoots, RootRepaired, ValidStore, Orphans, FileItems, RootTitle, NoDup;
      ghost var s0 := State();
      RootRepairValid(s0, user, RootTitle(name), now);
      var root := EnsureOneRoot(user, RootTitle(name), now);
      StepsKeepOrphans(s0, user, RootTitle(name), now, root);
      var orphans := SelectOrphans(user);
      OrphansUnplaced(State(), user, orphans);
      AdoptOrphans(orphans, root);
      RootRepairedInSteps(s0, user, RootTitle(name), now, orphans);
      return Ok(root);
    }
  }

  lemma OwnersOnlySubfolder(s: Store, fs: set<int>, owner: string, f: int, c: int, ids: seq<int>)
    requires ValidStore(s) && c in ids
    requires forall x :: x in ids <==> x in Subfolders(s, f)
    ensures (f, c) in Edges(s) && c in SetOwner(s, fs, owner).folders
  {
    SubfolderExact(s, f, c);
    EdgeExact(s, f, c);
  }

  lemma MovedRowValid(s: Store, f: int, d: int, order: int)
    requires ValidStore(s) && f in s.folders && d in s.folders && f != d
    ensures ValidStore(Placed(s, Sub(f), d, order))
  {
    var t := Placed(s, Sub(f), d, order);
    forall it | it in t.placed ensures Exists(t, it) && t.placed[it].parent in t.folders {
      assert it != Sub(f) ==> it in s.placed;
    }
  }

  lemma InMediaIn(s: Store, ds: set<int>, m: string)
    ensures m in MediaIn(s, ds) <==> PlacedWithin(s, m, ds)
  {
    if PlacedWithin(s, m, ds) {
      assert File(m) in s.placed && File(m).File?;
    }
  }

  lemma MediaStep(s: Store, gone: set<int>, f: int, c: int, a: seq<string>, b: seq<string>)
    requires Subtree(s, c) !! gone && f !in Subtree(s, c)
    requires NoDup(a) && forall m :: m in a <==> m in MediaIn(s, gone + {f})
    requires NoDup(b) && forall m :: m in b <==> m in MediaIn(Removed(s, gone), Subtree(s, c))
    ensures NoDup(a + b) && forall m :: m in a + b <==> m in MediaIn(s, gone + Subtree(s, c) + {f})
  {
    forall m ensures m in a + b <==> m in MediaIn(s, gone + Subtree(s, c) + {f}) {
      InMediaIn(s, gone + {f}, m);
      InMediaIn(Removed(s, gone), Subtree(s, c), m);
      InMediaIn(s, gone + Subtree(s, c) + {f}, m);
    }
    forall m | m in b ensures m !in a {
      InMediaIn(s, gone + {f}, m);
      InMediaIn(Removed(s, gone), Subtree(s, c), m);
    }
    var ab := a + b;
    forall j, k | 0 <= j < k < |ab| ensures ab[j] != ab[k] {
      if j < |a| <= k {
        assert ab[k] == b[k - |a|] && b[k - |a|] in b;
        assert ab[j] == a[j] && a[j] in a;
      } else if j >= |a| {
        assert ab[j] == b[j - |a|] && ab[k] == b[k - |a|];
      }
    }
  }

  lemma SortedRowsAreListing(s: Store, d: int, items: seq<Item>, rows: seq<Row>, out: seq<Item>)
    requires ValidStore(s) && NoDup(items) && |rows| == |items|
    requires forall it :: it in items <==> it in Contents(s, d)
    requires forall k :: 0 <= k < |items| ==> items[k] in Contents(s, d) && rows[k] == RowOf(s, items[k])
    requires |out| == |Sort(NotAfter, rows)| && forall k :: 0 <= k < |out| ==> out[k] == Sort(NotAfter, rows)[k].item
    ensures IsListing(s, d, out)
  {
    var sorted := Sort(NotAfter, rows);
    NotAfterOrders();
    SortSorts(NotAfter, rows);
    forall k | 0 <= k < |sorted| ensures out[k] in Contents(s, d) && sorted[k] == RowOf(s, out[k]) {
      assert sorted[k] in multiset(rows);
      var j :| 0 <= j < |rows| && rows[j] == sorted[k];
    }
    assert NoDup(rows) by {
      forall j, k | 0 <= j < k < |rows| ensures rows[j] != rows[k] {
        assert rows[j].item == items[j] && rows[k].item == items[k];
      }
    }
    NoDupPermutes(rows, sorted);
    forall j, k | 0 <= j < k < |out| ensures out[j] != out[k] {
      assert sorted[j] != sorted[k];
    }
    forall it | it in Contents(s, d) ensures it in out {
      var j :| 0 <= j < |items| && items[j] == it;
      assert rows[j] in multiset(sorted);
      var k :| 0 <= k < |sorted| && sorted[k] == rows[j];
      assert out[k] == it;
    }
    forall i, j | 0 <= i < j < |out| ensures NotAfter(RowOf(s, out[i]), RowOf(s, out[j])) {
      assert NotAfter(sorted[i], sorted[j]);
    }
  }

  function RootTitle(name: string): string {
    "Home of '" + name + "'"
  }

  lemma NothingUnlinked(s: Store)
    ensures Unlinked(s, CycleFinder.Closing([])) == s
  {
    assert Unlinked(s, CycleFinder.Closing([])).placed == s.placed;
  }

  lemma UnlinkedTwice(s: Store, es: set<Edge>, e: Edge)
    ensures Unlinked(Unlinked(s, es), {e}) == Unlinked(s, es + {e})
  {
    assert Unlinked(Unlinked(s, es), {e}).placed == Unlinked(s, es + {e}).placed;
  }

  /** The link that closes the next loop is still there. */
  lemma NextLoop(s: Store, cycles: seq<seq<int>>, i: nat)
    requires CycleFinder.Breaks(Edges(s), cycles) && i < |cycles|
    ensures cycles[i] != []
    ensures CycleFinder.ClosingEdge(cycles[i]) in Edges(s) - CycleFinder.Closing(cycles[..i])
    ensures CycleFinder.Closing(cycles[..i + 1]) == CycleFinder.Closing(cycles[..i])
            + {CycleFinder.ClosingEdge(cycles[i])}
  {
    CycleFinder.ReportedIsCycle(Edges(s), cycles, i);
    assert cycles[..i + 1] == cycles[..i] + [cycles[i]];
    CycleFinder.ClosingAppend(cycles[..i], cycles[i]);
  }

  lemma AdoptOneMore(s: Store, root: int, its: set<Item>, it: Item)
    ensures Adopt(s, root, its + {it}).placed == Adopt(s, root, its).placed[it := Slot(root, 0)]
  {
  }

  lemma AdoptTwice(s: Store, root: int, its: set<Item>, others: set<Item>)
    ensures Adopt(Adopt(s, root, its), root, others) == Adopt(s, root, its + others)
  {
    assert Adopt(Adopt(s, root, its), root, others).placed == Adopt(s, root, its + others).placed;
  }

  function SubItems(ids: seq<int>, root: int): set<Item> {
    set f | f in ids && f != root :: Sub(f)
  }

  function FileItems(ids: seq<string>): set<Item> {
    set m | m in ids :: File(m)
  }

  ghost function RootFor(s: Store, user: string): int {
    if Roots(s, user) == {} then s.nextFolderId else Least(Roots(s, user))
  }

  ghost function LooseRoots(s: Store, user: string, root: int): set<Item> {
    set f | f in Roots(s, user) && f != root :: Sub(f)
  }

  lemma RootRepairValid(s: Store, user: string, title: string, now: int)
    requires ValidStore(s)
    ensures ValidStore(RootRepaired(s, user, title, now).0)
  {
    RootRepairKeeps(s, user, title, now);
  }

  lemma LeastRootListed(s: Store, user: string, roots: seq<int>)
    requires roots != [] && forall f :: f in roots <==> f in Roots(s, user)
    ensures Roots(s, user) != {} && Least(Roots(s, user)) in roots
  {
    var f := roots[0];
    assert f in roots;
    assert f in Roots(s, user);
  }

  lemma AdoptNothing(s: Store, root: int)
    ensures Adopt(s, root, {}) == s
  {
    assert Adopt(s, root, {}).placed == s.placed;
  }

  lemma OrphansUnplaced(s: Store, user: string, ids: seq<string>)
    requires forall m :: m in ids <==> m in Orphans(s, user)
    ensures forall m :: m in ids ==> File(m) !in s.placed
  {
  }

  lemma StepsKeepOrphans(s: Store, user: string, title: string, now: int, root: int)
    ensures Orphans(Adopt(Base(s, user, title, now), root, LooseRoots(s, user, root)), user) == Orphans(s, user)
  {
    var t := Adopt(Base(s, user, title, now), root, LooseRoots(s, user, root));
    forall m ensures File(m) in t.placed <==> File(m) in s.placed {
    }
  }

  /** Adopting the roots and then the orphans is the whole repair. */
  lemma RootRepairedInSteps(s: Store, user: string, title: string, now: int, orphans: seq<string>)
    requires forall m :: m in orphans <==> m in Orphans(s, user)
    ensures var root := RootFor(s, user);
            RootRepaired(s, user, title, now) ==
              (Adopt(Adopt(Base(s, user, title, now), root, LooseRoots(s, user, root)), root, FileItems(orphans)), root)
  {
    var root := RootFor(s, user);
    AdoptTwice(Base(s, user, title, now), root, LooseRoots(s, user, root), FileItems(orphans));
    assert Loose(s, user, root) == LooseRoots(s, user, root) + FileItems(orphans);
  }
}
