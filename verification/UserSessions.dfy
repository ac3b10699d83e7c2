// A user session of the organizer: the cookie that holds its trail, and the pages it is shown.
module UserSessions {
  import opened Wrappers
  import opened Sorting
  import opened FolderStore
  import opened FolderMoves
  import opened FolderRepairs
  import opened FolderListing
  import opened FolderDb
  import opened Breadcrumbs

  /** The outcome of looking up a trail: its folders, or the user's root folder. */
  ghost predicate IsPath(s: Store, users: map<string, string>, user: string, name: string, ids: seq<int>, now: int,
                         r: Result<seq<int>, FolderError>, t: Store)
    requires ValidStore(s)
  {
    if Resolvable(ids, s.folders.Keys) then r == Ok(ids) && t == s
    else if user == "" || name == "" then r == Err(AssertionFailed) && t == s
    else if user !in users then r == Err(UnknownUser) && t == s
    else
      var (repaired, root) := RootRepaired(s, user, RootTitle(name), now);
      r == Ok([root]) && t == repaired
  }

  /** The outcome of the command that creates a folder in the last one of a path. */
  ghost predicate IsNewFolder(s: Store, path: Result<seq<int>, FolderError>, title: Option<string>, now: int,
                              user: User, r: Result<int, FolderError>, t: Store)
    requires ValidStore(s)
  {
    match path
    case Err(e) => r == Err(e) && t == s
    case Ok(ids) =>
      if title.None? || title.value == "" then r == Err(InvalidArgument) && t == s
      else ids != [] && ids[|ids| - 1] in s.folders && IsCreation(s, ids[|ids| - 1], title.value, now, user, r, t)
  }

  class Session {
    const db: Db
    const user: string
    const name: string
    const isAdmin: bool
    var cookie: seq<int>    // empty when there is none

    constructor (db: Db, user: string, name: string, isAdmin: bool)
      ensures this.db == db && this.user == user && this.name == name && this.isAdmin == isAdmin && cookie == []
    {
      this.db, this.user, this.name, this.isAdmin, cookie := db, user, name, isAdmin, [];
    }

    /** The folders of the trail, or just the root folder. A trail that cannot be shown clears the cookie. */
    method GetCurrentFolderPath(override: Option<seq<int>>, now: int) returns (r: Result<seq<int>, FolderError>)
      requires db.Valid()
      modifies this`cookie, db`folders, db`placed, db`nextFolderId
      ensures db.Valid()
      ensures var ids := if override.Some? then override.value else old(cookie);
              && IsPath(old(db.State()), db.users, user, name, ids, now, r, db.State())
              && cookie == if ids == [] || Resolvable(ids, old(db.folders.Keys)) then old(cookie) else []
    {
      var ids := if override.Some? then override.value else cookie;
      if ids != [] {
        var rows := Found(ids, db.folders.Keys);
        CountExact(ids, db.folders.Keys);
        if |rows| == |ids| {
          return Ok(ids);
        }
        cookie := [];
      }
      var root := db.GetOrCreateUserRootFolder(user, name, now);
      match root
      case Ok(id) => r := Ok([id]);
      case Err(e) => r := Err(e);
    }

    /** Opens a folder: extends or cuts the trail, and shows the folder at its end. */
    method OpenFolder(folder: int, now: int) returns (r: Result<seq<int>, FolderError>)
      requires db.Valid()
      modifies this`cookie, db`folders, db`placed, db`nextFolderId
      ensures db.Valid()
      ensures folder == 0 ==> r == Err(AssertionFailed) && cookie == old(cookie) && db.State() == old(db.State())
      ensures folder != 0 ==>
                exists before, mid :: ValidStore(mid)
                  && IsPath(old(db.State()), db.users, user, name, old(cookie), now, before, mid)
                  && match before
                     case Err(e) => r == Err(e) && db.State() == mid && cookie == []
                     case Ok(path) =>
                       var trail := Opened(path, folder);
                       && IsPath(mid, db.users, user, name, trail, now, r, db.State())
                       && cookie == if Resolvable(trail, mid.folders.Keys) then trail else []
      ensures folder != 0 && Resolvable(old(cookie), old(db.folders.Keys)) && folder in old(db.folders) ==>
                cookie == Opened(old(cookie), folder) && r == Ok(cookie) && db.State() == old(db.State())
      ensures r.Ok? ==>
                  NoDup(r.value) && r.value != [] && (folder in old(db.folders) ==> r.value[|r.value| - 1] == folder)
    {
      if folder == 0 {
        return Err(AssertionFailed);
      }
      hide RootRepaired, RootTitle, ValidStore;
      var path := GetCurrentFolderPath(None, now);
      ghost var mid := db.State();
      if path.Err? {
        return path;
      }
      var trail := path.value;
      OpenedSimple(trail, folder);
      if folder in trail {
        trail := trail[..IndexOf(trail, folder) + 1];
      } else {
        trail := trail + [folder];
      }
      cookie := trail;
      assert trail == Opened(path.value, folder);
      r := GetCurrentFolderPath(Some(trail), now);
    }

    /** Creates a folder in the folder shown last. Without a name, or with an empty one, nothing is created. */
    method NewFolder(title: Option<string>, now: int) returns (r: Result<int, FolderError>)
      requires db.Valid()
      modifies this`cookie, db`folders, db`placed, db`nextFolderId
      ensures db.Valid()
      ensures exists before, mid :: ValidStore(mid)
                && IsPath(old(db.State()), db.users, user, name, old(cookie), now, before, mid)
                && IsNewFolder(mid, before, title, now, User(user, isAdmin), r, db.State())
    {
      ghost var s0 := db.State();
      var path := GetCurrentFolderPath(None, now);
      ghost var mid := db.State();
      if path.Err? {
        return Err(path.error);
      }
      if title.None? || title.value == "" {
        return Err(InvalidArgument);
      }
      PathExists(s0, db.users, user, name, old(cookie), now, path, mid);
      hide IsPath, IsCreation;
      r := db.CreateFolder(path.value[|path.value| - 1], title.value, now, User(user, isAdmin));
      assert IsNewFolder(mid, path, title, now, User(user, isAdmin), r, db.State());
    }

    /** Shows the page of a page id. One that is malformed shows the page of the cookie instead. */
    method NavigatePage(pageId: Option<string>, now: int) returns (r: Result<seq<int>, FolderError>)
      requires db.Valid()
      modifies this`cookie, db`folders, db`placed, db`nextFolderId
      ensures db.Valid()
      ensures var ids := match TrailOf(pageId) case Ok(xs) => xs case Err(_) => old(cookie);
              && IsPath(old(db.State()), db.users, user, name, ids, now, r, db.State())
              && cookie == if pageId.None? || (ids != [] && !Resolvable(ids, old(db.folders.Keys))) then []
                 else old(cookie)
    {
      var override := match TrailOf(pageId) case Ok(xs) => Some(xs) case Err(_) => None;
      if pageId.None? {
        cookie := [];
      }
      r := GetCurrentFolderPath(override, now);
    }
  }

  /** Following the page id of a trail whose folders exist shows that trail, and changes nothing. */
  lemma PageShowsTrail(s: Store, users: map<string, string>, user: string, name: string, trail: seq<int>, now: int,
                       r: Result<seq<int>, FolderError>, t: Store)
    requires ValidStore(s) && Resolvable(trail, s.folders.Keys)
    ensures TrailOf(Some(PageIdOf(trail))) == Ok(trail)
    ensures IsPath(s, users, user, name, TrailOf(Some(PageIdOf(trail))).value, now, r, t) <==> r == Ok(trail) && t == s
  {
    PrintedThenParsed(trail);
  }

  /** The folder that root repair settles on for a user. */
  ghost function RootFolder(s: Store, user: string, name: string, now: int): int {
    RootRepaired(s, user, RootTitle(name), now).1
  }

  /** A path holds the user's root folder exactly when its trail cannot be shown, or names it. */
  lemma PathHoldsRootExactly(s: Store, users: map<string, string>, user: string, name: string, ids: seq<int>, now: int,
                             r: Result<seq<int>, FolderError>, t: Store)
    requires ValidStore(s) && IsPath(s, users, user, name, ids, now, r, t) && r.Ok?
    ensures var root := RootFolder(s, user, name, now);
            root in r.value <==> !Resolvable(ids, s.folders.Keys) || root in ids
  {
  }

  /** A root folder 1 with the subfolder 2. */
  function OneSubfolder(user: string): Store {
    Store(map[1 := Folder(user, "Home", 0), 2 := Folder(user, "Sub", 0)], map[], map[Sub(2) := Slot(1, 1)], 3)
  }

  /** The page id "2" shows the subfolder alone, without the root folder. */
  lemma PathWithoutRoot(users: map<string, string>, user: string, name: string, now: int)
    ensures var s := OneSubfolder(user);
            && ValidStore(s) && RootFolder(s, user, name, now) == 1 && TrailOf(Some("2")) == Ok([2])
            && IsPath(s, users, user, name, TrailOf(Some("2")).value, now, Ok([2]), s)
  {
    var s := OneSubfolder(user);
    assert Roots(s, user) == {1};
    assert PageIdOf([2]) == "2" by {
      assert Printed([2]) == ["2"];
    }
    PrintedThenParsed([2]);
  }

  lemma PathExists(s: Store, users: map<string, string>, user: string, name: string, ids: seq<int>, now: int,
                   r: Result<seq<int>, FolderError>, t: Store)
    requires ValidStore(s) && IsPath(s, users, user, name, ids, now, r, t) && r.Ok?
    ensures r.value != [] && forall k :: 0 <= k < |r.value| ==> r.value[k] in t.folders
  {
    if !Resolvable(ids, s.folders.Keys) {
      RootRepairExact(s, user, RootTitle(name), now);
      assert RootFolder(s, user, name, now) in Roots(t, user);
    }
  }
}
