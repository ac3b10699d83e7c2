// Whole runs of the folder database: what holds after any sequence of operations.
module FolderRuns {
  import opened Wrappers
  import opened Graphs
  import opened FolderStore
  import opened FolderMoves
  import opened FolderTrash
  import opened FolderRepairs
  import opened FolderListing

  datatype Command =
    | Move(ids: seq<ItemRef>, dst: int, user: User)
    | Reorder(ids: seq<ItemRef>, parent: int)
    | Create(parent: int, title: string, now: int)
    | TrashFolder(folder: int, user: User)
    | RepairRoot(userId: string, homeTitle: string, now: int)
    | RepairLoops
    | MediaAdded(id: string, file: Media)     // by the server, outside any folder
    | MediaDeleted(id: string)                // by the server; its row goes with it

  function WithoutMedia(s: Store, m: string): Store {
    s.(media := s.media - {m}, placed := s.placed - {File(m)})
  }

  /** One operation. Operations that may be refused may also leave the store as it was. */
  ghost predicate Step(s: Store, c: Command, t: Store)
    requires ValidStore(s)
  {
    match c
    case Move(ids, dst, user) => t == MoveRequest(s, ids, dst, user).0
    case Reorder(ids, parent) => t == s || (parent in s.folders && t == Reordered(s, parent, ids, 0))
    case Create(parent, title, now) => t == s || (parent in s.folders && t == Created(s, parent, title, now))
    case TrashFolder(f, user) => t == s || Trash(s, f, user) == Ok(t)
    case RepairRoot(userId, homeTitle, now) => t == s || t == RootRepaired(s, userId, homeTitle, now).0
    case RepairLoops => exists cycles :: LoopsBroken(s, t, cycles)
    case MediaAdded(m, file) => m !in s.media && t == s.(media := s.media[m := file])
    case MediaDeleted(m) => t == WithoutMedia(s, m)
  }

  lemma MediaStepsKeep(s: Store, m: string, file: Media)
    requires ValidStore(s)
    ensures ValidStore(WithoutMedia(s, m)) && (OwnersAgree(s) ==> OwnersAgree(WithoutMedia(s, m)))
    ensures Edges(WithoutMedia(s, m)) == Edges(s)
    ensures m !in s.media ==>
              var t := s.(media := s.media[m := file]);
              ValidStore(t) && (OwnersAgree(s) ==> OwnersAgree(t)) && Edges(t) == Edges(s)
  {
    var u, t := WithoutMedia(s, m), s.(media := s.media[m := file]);
    forall it | it in s.placed ensures Exists(s, it) && s.placed[it].parent in s.folders {
    }
    forall e: Edge ensures e in Edges(u) <==> e in Edges(s) {
      EdgeExact(u, e.0, e.1);
      EdgeExact(s, e.0, e.1);
      assert e == (e.0, e.1);
    }
    if OwnersAgree(s) {
      forall it | it in u.placed ensures PlacedAgrees(u, it) {
        assert PlacedAgrees(s, it);
      }
      if m !in s.media {
        forall it | it in t.placed ensures PlacedAgrees(t, it) {
          assert PlacedAgrees(s, it);
        }
      }
    }
  }

  lemma StepKeeps(s: Store, c: Command, t: Store)
    requires ValidStore(s) && Step(s, c, t)
    ensures ValidStore(t) && (OwnersAgree(s) ==> OwnersAgree(t))
  {
    match c {
      case Move(ids, dst, user) => MoveRequestKeeps(s, ids, dst, user);
      case Reorder(ids, parent) => ReorderedValid(s, parent, ids, 0);
      case Create(parent, title, now) =>
        if parent in s.folders {
          CreatedKeeps(s, parent, title, now);
        }
      case TrashFolder(f, user) =>
        if Trash(s, f, user).Ok? {
          TrashKeeps(s, f, user);
        }
      case RepairRoot(userId, homeTitle, now) => RootRepairKeeps(s, userId, homeTitle, now);
      case RepairLoops =>
        var cycles :| LoopsBroken(s, t, cycles);
        LoopRepairKeeps(s, t, cycles);
      case MediaAdded(m, file) => MediaStepsKeep(s, m, file);
      case MediaDeleted(m) => MediaStepsKeep(s, m, Media("", "", 0));
    }
  }

  /** The states a run goes through, each reached from the one before by one operation. */
  ghost predicate IsRun(run: seq<Store>, cs: seq<Command>) {
    && |run| == |cs| + 1
    && ValidStore(run[0])
    && forall k :: 0 <= k < |cs| && ValidStore(run[k]) ==> Step(run[k], cs[k], run[k + 1])
  }

  lemma {:induction false} EveryRunStaysValid(run: seq<Store>, cs: seq<Command>, n: nat)
    requires IsRun(run, cs) && n <= |cs|
    ensures ValidStore(run[n])
  {
    if n > 0 {
      EveryRunStaysValid(run, cs, n - 1);
      StepKeeps(run[n - 1], cs[n - 1], run[n]);
    }
  }

  /** After any run, whatever is placed in a folder belongs to that folder's owner, and nothing is
      in two folders: also when move requests broke off part-way. */
  lemma {:induction false} EveryRunKeepsOwners(run: seq<Store>, cs: seq<Command>, n: nat)
    requires IsRun(run, cs) && OwnersAgree(run[0]) && n <= |cs|
    ensures ValidStore(run[n]) && OwnersAgree(run[n]) && OneParent(Edges(run[n]))
  {
    if n > 0 {
      EveryRunKeepsOwners(run, cs, n - 1);
      StepKeeps(run[n - 1], cs[n - 1], run[n]);
    }
    FolderHasOneParent(run[n]);
  }

  /** The only way to make a folder loop: a move that puts a folder into its own subtree. */
  ghost predicate ClosesLoop(s: Store, c: Command)
    requires ValidStore(s)
  {
    && c.Move? && c.dst in s.folders && Allowed(c.user, s.folders[c.dst].owner)
    && MovesIntoItself(s, c.ids, c.dst, MinOrder(s, c.dst) - 1, c.user)
  }

  /** A loop repair ends all loops, and no other operation makes one except such a move. */
  lemma StepAcyclicExactly(s: Store, c: Command, t: Store)
    requires ValidStore(s) && Step(s, c, t)
    requires Acyclic(Edges(s)) || c.RepairLoops?
    ensures Acyclic(Edges(t)) <==> !ClosesLoop(s, c)
  {
    match c {
      case Move(ids, dst, user) =>
        if dst in s.folders {
          MoveAllLoopsExactly(s, ids, dst, MinOrder(s, dst) - 1, user);
        }
      case Reorder(ids, parent) => ReorderedValid(s, parent, ids, 0);
      case Create(parent, title, now) =>
        if parent in s.folders {
          CreatedKeeps(s, parent, title, now);
        }
      case TrashFolder(f, user) =>
        if Trash(s, f, user).Ok? {
          TrashKeeps(s, f, user);
        }
      case RepairRoot(userId, homeTitle, now) => RootRepairKeeps(s, userId, homeTitle, now);
      case RepairLoops =>
        var cycles :| LoopsBroken(s, t, cycles);
        LoopRepairKeeps(s, t, cycles);
      case MediaAdded(m, file) => MediaStepsKeep(s, m, file);
      case MediaDeleted(m) => MediaStepsKeep(s, m, Media("", "", 0));
    }
  }

  ghost predicate NoLoopClosed(run: seq<Store>, cs: seq<Command>, from: nat, n: nat)
    requires IsRun(run, cs) && n <= |cs|
  {
    forall k :: from <= k < n && ValidStore(run[k]) ==> !ClosesLoop(run[k], cs[k])
  }

  /** From a loop repair on, or from any state without loops, the folders stay free of loops exactly
      as long as no move puts a folder into its own subtree. */
  lemma {:induction false} EveryRunAcyclicExactly(run: seq<Store>, cs: seq<Command>, from: nat, n: nat)
    requires IsRun(run, cs) && from < n <= |cs|
    requires cs[from].RepairLoops? || Acyclic(Edges(run[from]))
    ensures NoLoopClosed(run, cs, from, n) <==> forall k :: from < k <= n ==> Acyclic(Edges(run[k]))
  {
    EveryRunStaysValid(run, cs, n - 1);
    var before := n == from + 1 || NoLoopClosed(run, cs, from, n - 1);
    if n > from + 1 {
      EveryRunAcyclicExactly(run, cs, from, n - 1);
    }
    assert NoLoopClosed(run, cs, from, n) <==> before && !ClosesLoop(run[n - 1], cs[n - 1]);
    if before {
      assert n > from + 1 ==> Acyclic(Edges(run[n - 1]));
      StepAcyclicExactly(run[n - 1], cs[n - 1], run[n]);
    }
  }
}
