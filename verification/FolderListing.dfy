// The order in which a folder's contents are listed, and how the operations agree with it.
module FolderListing {
  import opened Wrappers
  import opened Sorting
  import opened Graphs
  import opened FolderStore
  import opened FolderMoves

  // ---------------------------------------------------------------- listing

  function Order(s: Store, it: Item): int
    requires it in s.placed
  {
    s.placed[it].sortOrder
  }

  function Time(s: Store, it: Item): int
    requires Exists(s, it)
  {
    match it
    case Sub(f) => s.folders[f].created
    case File(m) => s.media[m].added
  }

  /** What a listing is sorted by: sort order, folders before media files, newest first. */
  datatype Row = Row(item: Item, order: int, isMedia: bool, time: int)

  function RowOf(s: Store, it: Item): Row
    requires it in s.placed && Exists(s, it)
  {
    Row(it, Order(s, it), it.File?, Time(s, it))
  }

  predicate NotAfter(a: Row, b: Row) {
    a.order < b.order
    || (a.order == b.order && ((!a.isMedia && b.isMedia) || (a.isMedia == b.isMedia && a.time >= b.time)))
  }

  lemma NotAfterOrders()
    ensures TotalPreorder(NotAfter)
  {
  }

  /** A listing shows the contents of a folder, each item once, sorted. */
  ghost predicate IsListing(s: Store, d: int, out: seq<Item>)
    requires ValidStore(s)
  {
    && NoDup(out)
    && (forall i :: 0 <= i < |out| ==> out[i] in Contents(s, d))
    && (forall it :: it in Contents(s, d) ==> it in out)
    && forall i, j :: 0 <= i < j < |out| ==> NotAfter(RowOf(s, out[i]), RowOf(s, out[j]))
  }

  /** Of two listed items, the one above has the smaller sort order; with the same one, a folder is
      above a media file, and of two folders or two media files the newer one is above. */
  lemma ListedByOrder(s: Store, d: int, out: seq<Item>, i: nat, j: nat)
    requires ValidStore(s) && IsListing(s, d, out) && i < j < |out|
    ensures out[i] in s.placed && out[j] in s.placed
    ensures s.placed[out[i]].sortOrder <= s.placed[out[j]].sortOrder
    ensures s.placed[out[i]].sortOrder == s.placed[out[j]].sortOrder ==>
              match (out[i], out[j])
              case (File(m), Sub(f)) => false
              case (Sub(f), File(m)) => true
              case (Sub(f), Sub(g)) =>
                f in s.folders && g in s.folders && s.folders[f].created >= s.folders[g].created
              case (File(m), File(n)) => m in s.media && n in s.media && s.media[m].added >= s.media[n].added
  {
    assert Exists(s, out[i]) && Exists(s, out[j]);
    assert NotAfter(RowOf(s, out[i]), RowOf(s, out[j]));
  }

  // ---------------------------------------------------------------- creating a folder

  const MAX_TITLE_LENGTH := 255

  ghost function Created(s: Store, parent: int, title: string, now: int): Store
    requires parent in s.folders
  {
    s.(folders := s.folders[s.nextFolderId := Folder(s.folders[parent].owner, title, now)],
       placed := s.placed[Sub(s.nextFolderId) := Slot(parent, MaxOrder(s, parent) + 1)],
       nextFolderId := s.nextFolderId + 1)
  }

  function TitleOf(s: Store, it: Item): string
    requires Exists(s, it)
  {
    match it
    case Sub(f) => s.folders[f].title
    case File(m) => s.media[m].title
  }

  ghost predicate TitleTaken(s: Store, d: int, title: string)
    requires ValidStore(s)
  {
    exists it :: it in Contents(s, d) && TitleOf(s, it) == title
  }

  /** The outcome of creating a folder: refused, or created. */
  ghost predicate IsCreation(s: Store, parent: int, title: string, now: int, user: User, r: Result<int, FolderError>,
                             t: Store)
    requires ValidStore(s) && parent in s.folders
  {
    if !Allowed(user, s.folders[parent].owner) then r == Err(PermissionDenied) && t == s
    else if |title| > MAX_TITLE_LENGTH then r == Err(InvalidArgument) && t == s
    else if TitleTaken(s, parent, title) then r == Err(AlreadyExists) && t == s
    else r == Ok(s.nextFolderId) && t == Created(s, parent, title, now)
  }

  lemma CreatedKeeps(s: Store, parent: int, title: string, now: int)
    requires ValidStore(s) && parent in s.folders
    ensures var t := Created(s, parent, title, now);
            && ValidStore(t) && (OwnersAgree(s) ==> OwnersAgree(t)) && (Acyclic(Edges(s)) ==> Acyclic(Edges(t)))
  {
    var n, t := s.nextFolderId, Created(s, parent, title, now);
    assert ValidStore(t) by {
      forall it | it in t.placed ensures Exists(t, it) && t.placed[it].parent in t.folders {
        assert it != Sub(n) ==> Exists(s, it);
      }
    }
    if OwnersAgree(s) {
      forall it | it in t.placed ensures PlacedAgrees(t, it) {
        assert it != Sub(n) ==> PlacedAgrees(s, it) && Exists(s, it);
      }
    }
    if Acyclic(Edges(s)) {
      CreatedEdges(s, parent, title, now);
      if Reaches(Edges(s), n, parent) {
        var c := FirstEdge(Edges(s), n, parent);
        EdgeExact(s, n, c);
        assert false;
      }
      AddEdgeAcyclic(Edges(s), parent, n);
    }
  }

  lemma CreatedEdges(s: Store, parent: int, title: string, now: int)
    requires ValidStore(s) && parent in s.folders
    ensures Edges(Created(s, parent, title, now)) == Edges(s) + {(parent, s.nextFolderId)}
  {
    var n, t := s.nextFolderId, Created(s, parent, title, now);
    assert Sub(n) in s.placed ==> Exists(s, Sub(n));
    forall e: Edge ensures e in Edges(t) <==> e in Edges(s) + {(parent, n)} {
      EdgeExact(t, e.0, e.1);
      EdgeExact(s, e.0, e.1);
      assert e == (e.0, e.1);
    }
  }

  /** A created folder is listed last in its parent. */
  lemma CreatedListedLast(s: Store, parent: int, title: string, now: int, out: seq<Item>)
    requires ValidStore(s) && parent in s.folders
    requires ValidStore(Created(s, parent, title, now))
    requires IsListing(Created(s, parent, title, now), parent, out)
    ensures out != [] && out[|out| - 1] == Sub(s.nextFolderId)
  {
    var n, t := s.nextFolderId, Created(s, parent, title, now);
    assert Sub(n) in Contents(t, parent);
    var i :| 0 <= i < |out| && out[i] == Sub(n);
    var last := out[|out| - 1];
    assert last in Contents(t, parent);
    assert last != Sub(n) ==> last in Contents(s, parent);
    if last in Contents(s, parent) {
      OrderBounds(s, parent, last);
    }
  }

  // ---------------------------------------------------------------- moved items come first

  /** After a successful move, every moved item is listed before everything else in the destination. */
  lemma MovedListedFirst(s: Store, rs: seq<ItemRef>, d: int, user: User, out: seq<Item>, i: nat, j: nat)
    requires ValidStore(s) && d in s.folders
    requires MoveAll(s, rs, d, MinOrder(s, d) - 1, user).1 == None
    requires ValidStore(MoveAll(s, rs, d, MinOrder(s, d) - 1, user).0)
    requires IsListing(MoveAll(s, rs, d, MinOrder(s, d) - 1, user).0, d, out)
    requires i < |out| && j < |out| && Requested(rs, out[i]) && !Requested(rs, out[j])
    ensures i < j
  {
    hide Requested;
    var t := MoveAll(s, rs, d, MinOrder(s, d) - 1, user).0;
    MoveAllPlaces(s, rs, d, MinOrder(s, d) - 1, user, out[i]);
    MoveAllPlaces(s, rs, d, MinOrder(s, d) - 1, user, out[j]);
    assert out[j] in Contents(t, d);
    assert out[j] in Contents(s, d);
    OrderBounds(s, d, out[j]);
    assert Order(t, out[i]) < Order(t, out[j]);
    assert j < i ==> NotAfter(RowOf(t, out[j]), RowOf(t, out[i]));
  }

  /** Moving puts every requested item into the destination's listing. */
  lemma MovedListed(s: Store, rs: seq<ItemRef>, d: int, order: int, user: User, out: seq<Item>, it: Item)
    requires ValidStore(s) && d in s.folders
    requires MoveAll(s, rs, d, order, user).1 == None
    requires ValidStore(MoveAll(s, rs, d, order, user).0)
    requires IsListing(MoveAll(s, rs, d, order, user).0, d, out)
    requires Requested(rs, it)
    ensures it in out
  {
    MoveAllPlaces(s, rs, d, order, user, it);
    assert it in Contents(MoveAll(s, rs, d, order, user).0, d);
  }

  // ---------------------------------------------------------------- reordering

  function SetOrder(s: Store, d: int, r: ItemRef, order: int): Store {
    match Target(r)
    case None => s
    case Some(it) =>
      if it in s.placed && s.placed[it].parent == d then s.(placed := s.placed[it := Slot(d, order)]) else s
  }

  /** Numbers the requested items of folder `d` in the order of the request, starting at `from`. */
  function Reordered(s: Store, d: int, rs: seq<ItemRef>, from: int): Store
    decreases rs
  {
    if rs == [] then s else Reordered(SetOrder(s, d, rs[0], from), d, rs[1..], from + 1)
  }

  predicate DistinctTargets(rs: seq<ItemRef>) {
    forall j, k :: 0 <= j < k < |rs| && Target(rs[j]).Some? ==> Target(rs[j]) != Target(rs[k])
  }

  /** Only sort orders change, and only those of requested items that are in the folder. */
  lemma {:induction false} ReorderedKeeps(s: Store, d: int, rs: seq<ItemRef>, from: int)
    ensures var t := Reordered(s, d, rs, from);
            && t.folders == s.folders && t.media == s.media && t.nextFolderId == s.nextFolderId
            && t.placed.Keys == s.placed.Keys
            && forall it :: it in s.placed ==>
                 && t.placed[it].parent == s.placed[it].parent
                 && (!Requested(rs, it) || s.placed[it].parent != d ==> t.placed[it] == s.placed[it])
    decreases rs
  {
    if rs != [] {
      var u := SetOrder(s, d, rs[0], from);
      ReorderedKeeps(u, d, rs[1..], from + 1);
      forall it | it in s.placed && !Requested(rs, it) ensures !Requested(rs[1..], it) && Target(rs[0]) != Some(it) {
        assert forall k :: 0 <= k < |rs[1..]| ==> rs[1..][k] == rs[k + 1];
      }
    }
  }

  lemma ReorderedValid(s: Store, d: int, rs: seq<ItemRef>, from: int)
    requires ValidStore(s)
    ensures var t := Reordered(s, d, rs, from);
            ValidStore(t) && (OwnersAgree(s) ==> OwnersAgree(t)) && Edges(t) == Edges(s)
  {
    var t := Reordered(s, d, rs, from);
    ReorderedKeeps(s, d, rs, from);
    forall it | it in t.placed ensures Exists(t, it) && t.placed[it].parent in t.folders {
      assert Exists(s, it);
    }
    forall f | Sub(f) in t.placed ensures t.placed[Sub(f)].parent != f {
      assert s.placed[Sub(f)].parent != f;
    }
    if OwnersAgree(s) {
      forall it | it in t.placed ensures PlacedAgrees(t, it) {
        assert PlacedAgrees(s, it);
      }
    }
    forall e: Edge ensures e in Edges(t) <==> e in Edges(s) {
      EdgeExact(t, e.0, e.1);
      EdgeExact(s, e.0, e.1);
      assert e == (e.0, e.1);
    }
  }

  /** In a request without repeats, the k-th item gets the number k if it is in the folder. */
  lemma {:induction false} ReorderedNumbers(s: Store, d: int, rs: seq<ItemRef>, from: int, k: nat, it: Item)
    requires k < |rs| && Target(rs[k]) == Some(it) && DistinctTargets(rs)
    requires it in s.placed && s.placed[it].parent == d
    ensures it in Reordered(s, d, rs, from).placed && Reordered(s, d, rs, from).placed[it] == Slot(d, from + k)
    decreases rs
  {
    var u := SetOrder(s, d, rs[0], from);
    assert DistinctTargets(rs[1..]) by {
      forall i, j | 0 <= i < j < |rs[1..]| && Target(rs[1..][i]).Some?
        ensures Target(rs[1..][i]) != Target(rs[1..][j]) {
        assert Target(rs[i + 1]) != Target(rs[j + 1]);
      }
    }
    if k > 0 {
      ReorderedNumbers(u, d, rs[1..], from + 1, k - 1, it);
    } else {
      ReorderedKeeps(u, d, rs[1..], from + 1);
      assert !Requested(rs[1..], it) by {
        assert forall j :: 0 <= j < |rs[1..]| ==> Target(rs[1..][j]) == Target(rs[j + 1]);
      }
    }
  }

  /** After a reorder without repeats, the requested items that are in the folder are listed in the
      requested relative order. */
  lemma ReorderedListed(s: Store, d: int, rs: seq<ItemRef>, out: seq<Item>, a: nat, b: nat, i: nat, j: nat)
    requires ValidStore(s) && DistinctTargets(rs)
    requires ValidStore(Reordered(s, d, rs, 0)) && IsListing(Reordered(s, d, rs, 0), d, out)
    requires i < |out| && j < |out| && a < b < |rs|
    requires Target(rs[a]) == Some(out[i]) && Target(rs[b]) == Some(out[j])
    ensures i < j
  {
    var t := Reordered(s, d, rs, 0);
    ReorderedKeeps(s, d, rs, 0);
    assert out[i] in Contents(t, d) && out[j] in Contents(t, d);
    ReorderedNumbers(s, d, rs, 0, a, out[i]);
    ReorderedNumbers(s, d, rs, 0, b, out[j]);
    assert j < i ==> NotAfter(RowOf(t, out[j]), RowOf(t, out[i]));
  }
}
