// The folder tables of the organizer, as values: folders, media files, and where each is placed.
module FolderStore {
  import opened Graphs

  datatype Folder = Folder(owner: string, title: string, created: int)

  datatype Media = Media(owner: string, title: string, added: int)

  /** What a row of the items table places: exactly one of a subfolder and a media file. */
  datatype Item = Sub(folder: int) | File(media: string)

  datatype Slot = Slot(parent: int, sortOrder: int)

  /** The items table is keyed by what a row places, since both columns are UNIQUE. */
  datatype Store = Store(folders: map<int, Folder>, media: map<string, Media>, placed: map<Item, Slot>,
                         nextFolderId: int)

  predicate Exists(s: Store, it: Item) {
    match it
    case Sub(f) => f in s.folders
    case File(m) => m in s.media
  }

  function OwnerOf(s: Store, it: Item): string
    requires Exists(s, it)
  {
    match it
    case Sub(f) => s.folders[f].owner
    case File(m) => s.media[m].owner
  }

  /** What the schema guarantees: foreign keys, no folder inside itself, ids that are never reused. */
  ghost predicate ValidStore(s: Store) {
    && (forall it :: it in s.placed ==> Exists(s, it) && s.placed[it].parent in s.folders)
    && (forall f :: Sub(f) in s.placed ==> s.placed[Sub(f)].parent != f)
    && (forall f :: f in s.folders ==> 0 < f < s.nextFolderId)
    && 0 < s.nextFolderId
  }

  ghost predicate PlacedAgrees(s: Store, it: Item)
    requires ValidStore(s) && it in s.placed
  {
    OwnerOf(s, it) == s.folders[s.placed[it].parent].owner
  }

  /** Whatever is placed in a folder belongs to the owner of the folder. */
  ghost predicate OwnersAgree(s: Store)
    requires ValidStore(s)
  {
    forall it :: it in s.placed ==> PlacedAgrees(s, it)
  }

  ghost function Contents(s: Store, d: int): set<Item> {
    set it | it in s.placed && s.placed[it].parent == d
  }

  /** The folder graph: an edge from every folder to each of its subfolders. */
  ghost function Edges(s: Store): set<Edge> {
    set it | it in s.placed && it.Sub? :: (s.placed[it].parent, it.folder)
  }

  lemma EdgeExact(s: Store, p: int, f: int)
    ensures (p, f) in Edges(s) <==> Sub(f) in s.placed && s.placed[Sub(f)].parent == p
  {
    if Sub(f) in s.placed && s.placed[Sub(f)].parent == p {
      assert Sub(f).Sub?;
    }
  }

  lemma FolderHasOneParent(s: Store)
    ensures OneParent(Edges(s))
  {
    forall e, f | e in Edges(s) && f in Edges(s) && e.1 == f.1 ensures e == f {
      EdgeExact(s, e.0, e.1);
      EdgeExact(s, f.0, f.1);
    }
  }

  /** A folder and all folders below it. */
  ghost function Subtree(s: Store, f: int): set<int> {
    set g | g in s.folders && Reaches(Edges(s), f, g)
  }

  lemma ReachedExists(s: Store, f: int, g: int)
    requires ValidStore(s) && f in s.folders && Reaches(Edges(s), f, g)
    ensures g in s.folders && g in Subtree(s, f)
  {
    if f != g {
      var p := LastEdge(Edges(s), f, g);
      EdgeExact(s, p, g);
    }
  }

  /** The subtree of a folder is closed under taking subfolders. */
  lemma SubtreeClosed(s: Store, f: int, p: int, g: int)
    requires ValidStore(s) && f in s.folders && p in Subtree(s, f) && (p, g) in Edges(s)
    ensures g in Subtree(s, f)
  {
    ReachesThenEdge(Edges(s), f, p, g);
    ReachedExists(s, f, g);
  }

  lemma SubtreeHasRoot(s: Store, f: int)
    requires f in s.folders
    ensures f in Subtree(s, f)
  {
    ReachesSelf(Edges(s), f);
  }

  /** Apart from the top folder, whatever is in a subtree has its parent there too. */
  lemma SubtreeParent(s: Store, f: int, g: int)
    requires ValidStore(s) && f in s.folders && g in Subtree(s, f) && g != f
    ensures Sub(g) in s.placed && s.placed[Sub(g)].parent in Subtree(s, f)
  {
    var p := LastEdge(Edges(s), f, g);
    EdgeExact(s, p, g);
    ReachedExists(s, f, p);
  }

  // ---------------------------------------------------------------- changing owners

  predicate PlacedWithin(s: Store, m: string, fs: set<int>) {
    File(m) in s.placed && s.placed[File(m)].parent in fs
  }

  /** Gives the folders `fs`, and the media files placed directly in them, to `owner`. */
  function SetOwner(s: Store, fs: set<int>, owner: string): Store {
    s.(folders := map f | f in s.folders :: if f in fs then s.folders[f].(owner := owner) else s.folders[f],
       media := map m | m in s.media :: if PlacedWithin(s, m, fs) then s.media[m].(owner := owner) else s.media[m])
  }

  lemma SetOwnerTwice(s: Store, fs: set<int>, gs: set<int>, owner: string)
    ensures SetOwner(SetOwner(s, fs, owner), gs, owner) == SetOwner(s, fs + gs, owner)
  {
    var t, u := SetOwner(s, fs, owner), SetOwner(s, fs + gs, owner);
    forall m ensures PlacedWithin(t, m, gs) <==> PlacedWithin(s, m, gs) {
    }
    assert SetOwner(t, gs, owner).folders == u.folders;
    assert SetOwner(t, gs, owner).media == u.media;
  }

  lemma SetOwnerKeepsValid(s: Store, fs: set<int>, owner: string)
    requires ValidStore(s)
    ensures ValidStore(SetOwner(s, fs, owner)) && Edges(SetOwner(s, fs, owner)) == Edges(s)
  {
    var t := SetOwner(s, fs, owner);
    forall it | it in t.placed ensures Exists(t, it) && t.placed[it].parent in t.folders {
      assert Exists(s, it);
    }
  }
}
