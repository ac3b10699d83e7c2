# Verification of the Clapshot core

Clapshot is a self-hosted tool for reviewing media: a Rust server, a Svelte client and a Python "organizer"
plugin that keeps media files in folders. This project is a Dafny model of the six parts of it that decide
something hard, with proofs of what they promise.

| part | files |
|---|---|
| Migration planner: a backtracking search for the shortest order of database migrations, and the run of its plan | `MigrationPlans`, `MigrationSolver`, `ServerMigrations`, `MigrationExecution`, `MigrationChains`, `MigrationLaws` (with `Versions`, `Sorting`) |
| Folder store of the organizer: moves, ownership, trash, root repair, loop repair, listings, and whole runs of them | `Graphs`, `CycleFinder`, `FolderStore`, `FolderMoves`, `FolderTrash`, `FolderTrashCalls`, `FolderRepairs`, `FolderListing`, `FolderPermissions`, `FolderDb`, `FolderRuns` |
| Comment threads of the client, linearised anew on every arrival | `Comments`, `CommentLaws`, `CommentOrder`, `CommentList` |
| Session lists and the collab protocol of the server | `CollabState`, `ServerState`, `CollabProtocol`, `MediaViewers` |
| Frame numbers, time codes and seeking in the player | `VideoFrame` (with `Decimal`) |
| Poller of the incoming folder; page ids and the trail of opened folders | `IncomingMonitor`, `SettledFiles`; `Breadcrumbs`, `UserSessions` |

`Wrappers`, `Sorting`, `FiniteSets`, `Decimal` and `Versions` hold what several parts share.
`dafny verify dfyconfig.toml` checks everything.

## How the model is made

- What the source does step by step is a method with loops, or a class whose methods change its fields, each
  proved equal to a specification function; the laws are proved about the functions. Recursions that share
  mutable state in the source (`best_path`, `visited` and `cycles`, `seen`, `result`) are methods over that state.
- The organizer's tables are maps. The row of an item is keyed by what it places, since both columns are UNIQUE
  and exactly one of them is set (migrations.py:103-110). A `begin_nested` block is one atomic step.
- The collab protocol is a state machine: each step is one critical section of one session, and a run is any
  interleaving of such steps. The lock on the pin map is part of the state because a join holds it from the
  check of the media file until the sender is listed (server_state.rs:195-201).
- JavaScript numbers are exact reals. Version strings are compared by code point.

## Where the code differs from what it says

- `create_folder` builds an error for an empty title without raising it (helpers/folders.py:197-198) and so accepts
  one: `FolderDb.Db.CreateFolder`. The command that calls it refuses an empty name itself
  (user_session_methods.py:82, 88-90): `UserSessions.Session.NewFolder`.
- A session that opens the media file it already has open is dropped from the list of viewers, because the guard
  of the first opening removes every entry of its channel: `CollabState.LinkExact`, `CollabState.OpenedTwice`.
- The planner checks pending UUIDs for duplicates, but plans are routed by a table over all listed migrations:
  `MigrationExecution.RoutingExact` says exactly when every pending migration is run by its own module,
  `MigrationExecution.MisroutedPlan` shows a plan that is run by the wrong one.
- The planner's target is the newest listed version. A module that is already past it makes the set unsolvable:
  `MigrationSolver.TooNewUnsolvable`. The comments that call the search paths reversed are wrong; they are in order.
- A move refuses a folder as its own destination, but not a folder below it, and so can make a loop:
  `FolderMoves.MoveLoopsExactly` says exactly when, `FolderTrashCalls.MovedOntoLoop` is such a request.
- Trashing has no seen-set. It does not end from a folder on a loop that the user may trash:
  `FolderTrashCalls.NestsForever`, and `FolderTrashCalls.MovedOntoLoop` for a store in which it happens. A user who may
  not trash it is refused at once.
- `get_current_folder_path` says that the list contains the root folder. A trail whose folders all exist is
  returned as it is, with or without it: `UserSessions.PathHoldsRootExactly`, `UserSessions.PathWithoutRoot`.
- The poller takes a file as complete when it has the size recorded last; otherwise it logs that the file is still being
  written to (incoming_monitor.rs:65-87). That size need not be the one of the poll before: the poll before may not have
  found the file at all, or may have found another size that it overlooked, because the file was without content (at
  most one byte, or 4096 bytes) or the delay after a submission lasted. `SettledFiles.SubmittedKeptSizeExactly` says that
  there is no other way; `SettledFiles.GoneInBetween`, `EmptiedInBetween` and `GrownInDelay` are runs of each kind.
- `toFrames` is not the inverse of `toSMPTE` at fractional rates, where the frames field may round down, and
  seeking to a frame may show the one before: `VideoFrame.FrameMisread` and `VideoFrame.FrameMissed` are such frames,
  `VideoFrame.FramesRoundTrip` and `VideoFrame.SeekNear` say exactly which frames are.

## Model

| member | source | states |
|---|---|---|
| `MigrationSolver.SolveMigrationGraph` | server/src/database/migration_solver.rs:14-51 | the planner ends for every set of modules; it fails exactly when two pending migrations share a UUID, answers `None` exactly when no repeat-free valid plan exists, and otherwise gives a shortest valid plan, the lexicographically first such plan in the version-sorted list |
| `MigrationSolver.DepthFirstSearch` | server/src/database/migration_solver.rs:56-110 | the search through the shared best-so-far: a visit replaces it by the best completion of the current path when that is strictly shorter, and otherwise keeps it |
| `MigrationSolver.CanApply` | server/src/database/migration_solver.rs:80-95 | the flag left by the loop is true exactly when every dependency on a module that has a version finds it within the minimum and maximum given, both included, and every other dependency has no minimum |
| `MigrationSolver.UuidsUnique` | server/src/database/migration_solver.rs:37-43 | the duplicate check succeeds exactly when all pending UUIDs differ |
| `MigrationSolver.CandidatesExact` | server/src/database/migration_solver.rs:30-35 | the list searched holds exactly the migrations newer than the current version of their module, and all migrations of a module without a version |
| `MigrationSolver.OrderedExact` | server/src/database/migration_solver.rs:45 | sorting by version keeps the candidates, puts older versions first and keeps the order of equal versions |
| `MigrationSolver.NewestVersion` | server/src/database/migration_solver.rs:25 | the target of a module is the greatest listed version, absent only without migrations |
| `MigrationSolver.StartAndTargetExact` | server/src/database/migration_solver.rs:17-28 | with distinct module names, the search starts at each current version and aims at each newest listed version |
| `MigrationPlans.PlanUnfolds` | server/src/database/migration_solver.rs:75-108 | a plan is valid exactly when its first migration is unused and applicable and the rest is valid from there; this is what one level of the search decides |
| `MigrationSolver.BestPlanUnique` | server/src/database/migration_solver.rs:64-72 | there is one most preferred plan |
| `MigrationSolver.AnswerUnique` | server/src/database/migration_solver.rs:14-51 | the answer does not depend on the iteration order of the hash maps |
| `MigrationLaws.NoneExactly` | server/src/database/migration_solver.rs:10-51 | the planner gives up exactly when there is no run: pending migrations, none twice, each of which finds every dependency within its bounds when its turn comes, that bring every module to the newest migration it lists |
| `MigrationLaws.AnswerIsShortestRun` | server/src/database/migration_solver.rs:10-72 | the answer is such a run, and none is shorter |
| `MigrationLaws.AnswerComesFirst` | server/src/database/migration_solver.rs:45-75 | at the first place where another shortest plan differs, it has a candidate that comes later in the list |
| `MigrationLaws.BoundsExact` | server/src/database/migration_solver.rs:80-95 | a migration is applicable after a run exactly when the versions then reached are within the bounds of its dependencies, both included |
| `MigrationLaws.TargetExact` | server/src/database/migration_solver.rs:64-66 | the search is at its target exactly when every module that lists migrations is at the newest one |
| `MigrationLaws.PendingExact` | server/src/database/migration_solver.rs:30-35 | the candidates are the listed migrations whose version comes after the current one of their module |
| `Versions.LeExact` | server/src/database/migration_solver.rs:33 | versions are compared as strings: a prefix comes first, and otherwise the smaller character at the first place where they differ |
| `MigrationSolver.TooNewUnsolvable` | server/src/database/migration_solver.rs:10-33 | a module that is past the newest migration it lists leaves the whole set without a plan, whatever the other modules need |
| `ServerMigrations.ServerModule` | server/src/lib.rs:164-188 | the loop over the pending migrations builds the chain in which each one requires exactly the version before it |
| `ServerMigrations.ChainAt` | server/src/lib.rs:166-179 | the k-th migration of the chain has one dependency, whose minimum and maximum are the version the (k-1)-th leads to, or the current version |
| `ServerMigrations.ChainPlanUnique` | server/src/lib.rs:165-188 | for pending migrations with distinct names and rising versions, the chain has no other valid plan than all of it in order |
| `ServerMigrations.ServerChainSolved` | server/src/lib.rs:164-233 | any correct answer for the server alone is the whole chain in its own order |
| `ServerMigrations.PlanServerMigrations` | server/src/lib.rs:164-233 | building the server's chain and calling the planner gives the planner's answer for it, which is the chain itself when names differ and versions rise |
| `MigrationChains.ServerChainInOrder` | server/src/lib.rs:190-233 | planned together with any other modules of different names, every valid plan holds the server's migrations exactly in the order of its chain, all of them, with those of the others in between |
| `MigrationChains.ServerInJointRun` | server/src/lib.rs:190-264 | in a complete run for the server and others, with sound routing, the server runs its chain in order and is always at the version of the last migration of its own that has run: it passes through each pending version once, in order |
| `MigrationChains.ServerStep` | server/src/database/migration_solver.rs:75-108 | at each point of a valid plan, the next migration of the server can only be the next one of its chain |
| `MigrationExecution.RouteIsLastListing` | server/src/lib.rs:301-303 | the UUID table sends a migration to the last module that lists its UUID |
| `MigrationExecution.RoutingExact` | server/src/lib.rs:301-306 | every pending migration is run by its own module if and only if no later module lists its UUID again |
| `MigrationExecution.MisroutedPlan` | server/src/lib.rs:301-330 | two modules with different pending UUIDs, for which the planner does give a plan; running it runs the server's migration on the organizer, and the server stays without a version |
| `MigrationExecution.RunLengthExact` | server/src/lib.rs:305-336 | a run stops at the first migration that fails: everything before it ran |
| `MigrationExecution.Databases.ApplyMigrations` | server/src/lib.rs:290-337 | succeeds exactly when nothing fails; it applies the migrations before the first failure, in plan order, each on the module its UUID is routed to |
| `MigrationExecution.Databases.MigrateDb` | server/src/lib.rs:224-286 | the outcome and what stays run, for every answer of the planner and every failure: a failed run is undone when there was a backup, and otherwise left as it is and reported as success (lines 268-271, 285); after success, with sound routing, every migration found its dependencies satisfied and every module is at its target |
| `MigrationExecution.ReplayIsVersionsAfter` | server/src/lib.rs:305-336 | the execution loop reaches the versions the planner computed for its plan |
| `MigrationExecution.PlannedRunIsSound` | server/src/lib.rs:233-264 | with sound routing, a complete run of the planner's answer meets every dependency on its way and ends at every target |
| `MigrationExecution.ServerRunVisitsEachVersion` | server/src/lib.rs:305-314 | running the answer for the server's own chain runs its migrations in order on the server, and after each one the server is at exactly that version; the run covers all of them if and only if none fails |
| `CycleFinder.Search.Dfs` | organizer/basic_folders/organizer/database/operations.py:126-136 | the recursion over the shared visited set, recursion stack, path and cycle list: it ends on every graph, restores the path, reports an edge back into the path and explores any other unvisited node completely |
| `CycleFinder.BuildGraph` | organizer/basic_folders/organizer/database/operations.py:122-123 | the adjacency lists hold exactly the edges given, and every end of an edge is a node |
| `CycleFinder.FindCycles` | organizer/basic_folders/organizer/database/operations.py:121-140 | every reported cycle is one; giving up the closing edge of each, and nothing else, leaves no cycle; no two reports share their closing edge, and each has no other closing edge on it |
| `CycleFinder.NothingToBreak` | organizer/basic_folders/organizer/database/operations.py:148-161 | no cycle is reported if and only if the graph has none |
| `CycleFinder.EachLoopOnce` | organizer/basic_folders/organizer/database/operations.py:121-140 | with at most one parent per folder, every loop is reported exactly once |
| `CycleFinder.ReportedApart` | organizer/basic_folders/organizer/database/operations.py:121-140 | with at most one parent per folder, two reports never show the same loop |
| `CycleFinder.EachLoopOneClosing` | organizer/basic_folders/organizer/database/operations.py:149-157 | with at most one parent per folder, exactly one of the edges given up enters any given loop |
| `Graphs.AddEdgeAcyclic` | organizer/basic_folders/organizer/folder_op_methods.py:44-50 | a new edge closes a cycle in an acyclic graph exactly when its end already reaches its start |
| `Graphs.OneParentCyclesMeet` | organizer/basic_folders/organizer/database/migrations.py:103-110 | with at most one parent per folder, loops that share a folder are the same loop |
| `FolderStore.FolderHasOneParent` | organizer/basic_folders/organizer/database/migrations.py:103-104 | the UNIQUE column gives every folder at most one parent |
| `FolderDb.Db.CheckForFolderLoops` | organizer/basic_folders/organizer/database/operations.py:142-161 | the start-up check removes the closing link of every loop found, exactly one row for each, and reports whether there was any |
| `FolderDb.Db.DeleteLink` | organizer/basic_folders/organizer/database/operations.py:155-157 | deleting a link removes that row alone and counts it |
| `FolderRepairs.LoopRepairKeeps` | organizer/basic_folders/organizer/database/operations.py:142-161 | afterwards any store is acyclic, owners still agree, and nothing changed exactly when there was no loop |
| `FolderRepairs.EachLoopLosesOneLink` | organizer/basic_folders/organizer/database/operations.py:149-157 | every loop loses exactly one of its links |
| `FolderDb.Db.MoveToFolder` | organizer/basic_folders/organizer/folder_op_methods.py:16-79 | a move request does its checks, then its items in order, one transaction each; the first failure ends it and what was moved before stays moved |
| `FolderDb.Db.MoveFolderTo` | organizer/basic_folders/organizer/folder_op_methods.py:49-55 | one folder move changes the row of the folder and hands exactly its subtree, with the media in it, to the owner of the destination |
| `FolderDb.Db.MoveMediaTo` | organizer/basic_folders/organizer/folder_op_methods.py:68-74 | a media move changes or inserts its one row and its owner |
| `FolderDb.Db.RecursiveSetFolderOwner` | organizer/basic_folders/organizer/folder_op_methods.py:82-106 | ends on every folder graph, loops included; it changes the owners of exactly the folders newly seen and the media in them, and what it has seen is closed under subfolders and reachable |
| `FolderDb.SeenIsSubtree` | organizer/basic_folders/organizer/folder_op_methods.py:88-106 | started with nothing seen, the folders handled are exactly those reachable from the start |
| `FolderMoves.MoveFolderAgrees` | organizer/basic_folders/organizer/folder_op_methods.py:36-57 | a folder move keeps the owner of everything placed equal to the owner of its folder, even when it closes a loop |
| `FolderMoves.MoveMediaAgrees` | organizer/basic_folders/organizer/folder_op_methods.py:60-74 | so does a media move |
| `FolderMoves.MoveLoopsExactly` | organizer/basic_folders/organizer/folder_op_methods.py:44-55 | a move makes a loop if and only if the destination lies in the subtree of the moved folder: the check refuses only the folder itself |
| `FolderMoves.MoveAllKeeps` | organizer/basic_folders/organizer/folder_op_methods.py:36-74 | a request, completed or broken off, keeps the tables valid, owners in agreement and the same folders and media files |
| `FolderMoves.MoveAllPlaces` | organizer/basic_folders/organizer/folder_op_methods.py:36-74 | a successful request puts exactly the requested items into the destination, all with one sort order, and leaves every other placement alone |
| `FolderMoves.MoveAllLoopsExactly` | organizer/basic_folders/organizer/folder_op_methods.py:36-57 | from an acyclic store, a request, completed or broken off, leaves a loop if and only if one of its moves puts a folder into its own subtree |
| `FolderMoves.LoopSurvivesMove` | organizer/basic_folders/organizer/folder_op_methods.py:49-55 | once the destination is on a loop, nothing that is moved there opens it |
| `FolderMoves.RootsStayRoots` | organizer/basic_folders/organizer/folder_op_methods.py:50-52 | no request, completed or broken off, gives a root folder a parent |
| `FolderMoves.OrderBounds` | organizer/basic_folders/organizer/folder_op_methods.py:29 | the minimum read before a move bounds every sort order in the destination; an empty folder counts as 0 |
| `FolderMoves.OrderAttained` | organizer/basic_folders/organizer/folder_op_methods.py:29 | the minimum and maximum are attained, and 0 in an empty folder |
| `FolderMoves.MoveRequestKeeps` | organizer/basic_folders/organizer/folder_op_methods.py:16-74 | every move request keeps the tables valid and owners in agreement |
| `FolderPermissions.MoveOwnersExactly` | organizer/basic_folders/organizer/folder_op_methods.py:36-74 | a request, completed or broken off, gives exactly what its moves carry along to the owner of the destination, and leaves everything else untouched |
| `FolderPermissions.MoveLeavesOthers` | organizer/basic_folders/organizer/folder_op_methods.py:33-74 | where owners agree, no move request of a plain user, completed or broken off, touches a folder or media file of anybody else |
| `FolderPermissions.MoveTouchesExactly` | organizer/basic_folders/organizer/folder_op_methods.py:33-74 | in any store, it touches a thing of somebody else exactly when the destination is his own and a move made carries it along; then it is his |
| `FolderPermissions.MoveRefusedExactly` | organizer/basic_folders/organizer/folder_op_methods.py:23-66 | a request is refused for permission exactly when the user is no admin and the destination, or the item it comes to, is somebody else's; nothing is moved to a folder that is not there |
| `FolderPermissions.ItemRefusedExactly` | organizer/basic_folders/organizer/folder_op_methods.py:39-66 | which items are refused for permission, as not found and as invalid |
| `FolderDb.Db.TrashFolderRecursive` | organizer/basic_folders/organizer/helpers/folders.py:115-140 | from a folder on no loop, or on a loop with a folder the user may not trash, the recursion ends: it removes the subtree and returns exactly its media ids, each once, or fails exactly when the user may not trash some folder below |
| `FolderDb.Db.TrashFolder` | organizer/basic_folders/organizer/user_session_methods.py:137-147 | the trash command is all or nothing: a permission failure anywhere below leaves everything as it was |
| `FolderTrash.TrashExact` | organizer/basic_folders/organizer/helpers/folders.py:115-140 | exactly the folders of the subtree go, with the rows of what is in them and the row of the trashed folder; every other folder and row stays as it was |
| `FolderTrash.TrashKeeps` | organizer/basic_folders/organizer/helpers/folders.py:115-140 | trashing keeps the tables valid, owners in agreement and an acyclic store acyclic, and touches no media file |
| `FolderPermissions.TrashRefusedExactly` | organizer/basic_folders/organizer/helpers/folders.py:120-133 | trashing is refused for permission exactly when the user is no admin and the folder or one below it is somebody else's |
| `FolderPermissions.TrashLeavesOthers` | organizer/basic_folders/organizer/helpers/folders.py:115-140 | trashing by a plain user leaves every folder of anybody else untouched; where owners agree, also every media file, and what is to be deleted is his own |
| `FolderPermissions.TrashTouchesExactly` | organizer/basic_folders/organizer/helpers/folders.py:115-140 | in any store, it touches a media file of somebody else exactly when that lies in a trashed folder; the file only loses its place |
| `FolderTrash.SubtreeUnfolds` | organizer/basic_folders/organizer/helpers/folders.py:131-133 | a subtree is the folder and the subtrees of its subfolders |
| `FolderTrash.SubfoldersApart` | organizer/basic_folders/organizer/helpers/folders.py:131-133 | the recursive calls for two subfolders on no loop never meet |
| `FolderTrash.SubfolderEnds` | organizer/basic_folders/organizer/helpers/folders.py:131-133 | a subfolder that is on no loop does not lead back and has a strictly smaller subtree |
| `FolderTrashCalls.NestsForever` | organizer/basic_folders/organizer/helpers/folders.py:115-133 | calls as they nest, with their permission checks and the subfolders before them trashed: where owners agree, they nest to every depth if and only if the folder is on a loop and the user may trash it, in whatever order the rows come |
| `FolderTrashCalls.HaltsExactly` | organizer/basic_folders/organizer/helpers/folders.py:115-133 | in every store, the condition under which the recursion is run here (on no loop, or some folder of the loop refused) is exactly that its calls come to an end in whatever order the rows come |
| `FolderTrashCalls.MovedOntoLoop` | organizer/basic_folders/organizer/folder_op_methods.py:36-57 | from a sound store of three nested folders, a request of their owner succeeds, moves a folder into its own subfolder, and leaves a loop from which trashing never ends, in whatever order the rows come |
| `FolderTrashCalls.LoopNests` | organizer/basic_folders/organizer/helpers/folders.py:123-133 | from a folder on a loop, calls nest to every depth when the user may trash all of its subtree, whoever owns it |
| `FolderTrashCalls.NotOnStack` | organizer/basic_folders/organizer/helpers/folders.py:131-133 | while the recursion runs, no folder is trashed that a call is still active for |
| `FolderDb.Db.GetOrCreateUserRootFolder` | organizer/basic_folders/organizer/database/operations.py:164-220 | root repair in its three steps (create or merge roots, then adopt orphaned media), with its two failures |
| `FolderRepairs.RootRepairExact` | organizer/basic_folders/organizer/database/operations.py:178-212 | afterwards the user owns exactly one parentless folder, the one with the smallest id if any existed, all media of the user are in a folder, and only the user's own loose items were placed, all into the root |
| `FolderRepairs.RootRepairKeeps` | organizer/basic_folders/organizer/database/operations.py:178-212 | root repair keeps validity, owners, acyclicity and every existing placement, folder and media file |
| `FolderDb.Db.CreateFolder` | organizer/basic_folders/organizer/helpers/folders.py:188-212 | a folder is created after every item of its parent and with its owner, or refused for permission, length or a taken title; this function accepts an empty title |
| `FolderDb.Db.TitleExists` | organizer/basic_folders/organizer/helpers/folders.py:200-201 | the title is taken exactly when something listed in the folder has it |
| `FolderListing.CreatedKeeps` | organizer/basic_folders/organizer/helpers/folders.py:203-212 | creating keeps validity, owners and acyclicity |
| `FolderListing.CreatedListedLast` | organizer/basic_folders/organizer/helpers/folders.py:203-212 | a created folder is listed last in its parent |
| `FolderPermissions.CreationExactly` | organizer/basic_folders/organizer/helpers/folders.py:192-212 | a folder is created exactly when the user is an admin or owns the parent, the title has at most 255 characters and nothing in the parent has it; it has the title, the owner of the parent, and the greatest sort order |
| `FolderPermissions.CreateLeavesAll` | organizer/basic_folders/organizer/helpers/folders.py:203-212 | creating a folder touches nothing there was |
| `FolderListing.ListedByOrder` | organizer/basic_folders/organizer/helpers/folders.py:103-108 | of two listed items the one above has the smaller sort order; with the same one, folders are above media files, and newer ones above older ones |
| `FolderListing.MovedListedFirst` | organizer/basic_folders/organizer/folder_op_methods.py:29-74 | after a successful move every moved item is listed before every other item of the destination |
| `FolderListing.MovedListed` | organizer/basic_folders/organizer/folder_op_methods.py:36-74 | and every moved item is listed there |
| `FolderDb.Db.ReorderItems` | organizer/basic_folders/organizer/folder_op_methods.py:110-144 | reordering numbers the requested items that are in the folder, skips the others, and is refused as a whole without folder or permission |
| `FolderListing.ReorderedKeeps` | organizer/basic_folders/organizer/folder_op_methods.py:132-140 | reordering changes nothing but sort orders of requested items in that folder |
| `FolderListing.ReorderedNumbers` | organizer/basic_folders/organizer/folder_op_methods.py:132-140 | in a request without repeats the k-th item gets number k if it is in the folder |
| `FolderListing.ReorderedListed` | organizer/basic_folders/organizer/folder_op_methods.py:132-140 | after a reorder without repeats the requested items in the folder are listed in the requested relative order |
| `FolderPermissions.ReorderLeavesOthers` | organizer/basic_folders/organizer/folder_op_methods.py:132-140 | reordering touches nothing but the places of requested items in that folder, and where owners agree nothing of anybody but the owner of the folder |
| `FolderDb.Db.FetchFolderContents` | organizer/basic_folders/organizer/helpers/folders.py:73-113 | a listing shows exactly the contents of the folder, each once, by sort order, folders before media, newest first; other users are refused |
| `FolderRuns.EveryRunKeepsOwners` | organizer/basic_folders/organizer/folder_op_methods.py:36-74 | over every run of move, reorder, create, trash, root repair, loop repair and media arrivals and deletions, everything placed has the owner of its folder and at most one parent |
| `FolderRuns.EveryRunAcyclicExactly` | organizer/basic_folders/organizer/database/operations.py:114-161 | from a loop repair on, or from any acyclic store, a run stays acyclic throughout if and only if no permitted move puts a folder into its own subtree |
| `FolderRuns.StepAcyclicExactly` | organizer/basic_folders/organizer/folder_op_methods.py:36-57 | no other operation makes a loop |
| `CommentList.Dfs` | client/src/App.svelte:795-802 | the recursion appends exactly the thread of a comment, or nothing when it is already listed; it ends although parent links may form cycles |
| `CommentList.IndentCommentTree` | client/src/App.svelte:789-813 | the whole function: threads of the top-level comments in creation order, then everything else in input order |
| `CommentList.AddOrphans` | client/src/App.svelte:808-811 | the second pass appends exactly the comments that hang off no top-level one, as they were |
| `Comments.EveryCommentOnce` | client/src/App.svelte:789-813 | every comment is listed exactly once, whatever parents are missing or form cycles |
| `Comments.ThreadExact` | client/src/App.svelte:795-802 | a thread holds exactly the comments below its first one, each with its depth as indent |
| `Comments.TopThreadsExact` | client/src/App.svelte:791-805 | the threaded part holds exactly the comments that lead up to a top-level one, each at its depth |
| `Comments.StraysExact` | client/src/App.svelte:808-811 | the rest holds exactly the others, unchanged |
| `Comments.DepthUnique` | client/src/App.svelte:795-801 | a comment has at most one depth |
| `Comments.DepthBound` | client/src/App.svelte:795-801 | the depth is below the number of comments, which is why the recursion ends |
| `Comments.IndentShowsThreads` | client/src/App.svelte:795-805 | the replies below a comment are exactly the entries that follow it without interruption at a deeper indent: pre-order, each thread one block |
| `CommentLaws.SiblingsInOrder` | client/src/App.svelte:791-801 | in the threaded part, the comments with one parent are listed as a stable sort leaves them |
| `CommentOrder.SiblingsOldestFirst` | client/src/App.svelte:791-801 | in the list shown, of two replies to one comment, or two top-level comments, the one above was not created later (none given counts as 0), and of two created at once it came first in the input |
| `CommentLaws.LinearisedIdempotent` | client/src/App.svelte:789-814 | linearising the list shown changes nothing |
| `CommentLaws.TopThreadsDependOnSet` | client/src/App.svelte:791-805 | with distinct sibling times, the threaded part of the list depends on the set of comments alone, whatever parents are missing or form cycles |
| `CommentLaws.LinearisedDependsOnSet` | client/src/App.svelte:789-813 | with distinct sibling times and every comment threaded (no parent missing, no parent cycle), the whole list depends on the set of comments alone |
| `CommentList.AddComments` | client/src/App.svelte:773-815 | one message: arriving comments of the open media file replace those with their id, and the whole list is linearised |
| `CommentList.MergedHolds` | client/src/App.svelte:776-786 | the merged list holds what was there and what arrived for this media file, and nothing else |
| `CommentList.MergedExact` | client/src/App.svelte:776-786 | after a message, exactly those of its comments are there that came last under their id, and those from before under whose id none came |
| `CommentList.ShownHolds` | client/src/App.svelte:773-815 | after any run of messages the list holds exactly the delivered comments of the media file |
| `CommentList.ShownLatestExactly` | client/src/App.svelte:773-815 | after any run of messages, edits of comments included, the list shows exactly the comments that came last under their id |
| `CommentList.ReceiveAll` | client/src/App.svelte:773-815 | handling the messages one by one gives that list |
| `CommentList.ThreadsAfterArrival` | client/src/App.svelte:776-814 | with distinct sibling times, for every arrival order and every batching the list begins with the same threads, and nothing after them is threaded, whatever parents are missing or form cycles |
| `CommentList.ArrivalOrderIrrelevant` | client/src/App.svelte:776-814 | with distinct sibling times and every delivered comment threaded (no parent missing, no parent cycle), the final list is the same for every arrival order and every batching |
| `ServerState.SenderMap.Add` | server/src/api_server/server_state.rs:217-220 | adding a sender appends its channel to the list of the key |
| `ServerState.SenderMap.DropGuardOf` | server/src/api_server/server_state.rs:222-230 | dropping a guard removes every entry of its channel under its key, and the key with its last entry |
| `ServerState.SenderMap.SendToAll` | server/src/api_server/server_state.rs:155-164 | a fan-out reaches the listed channels in order up to the first closed one, and succeeds exactly when there is none |
| `ServerState.State.GarbageCollectCollabMediaFileMap` | server/src/api_server/server_state.rs:177-182 | exactly the collabs without listed senders lose their media file |
| `ServerState.State.LinkSessionToCollab` | server/src/api_server/server_state.rs:189-202 | a join succeeds if and only if nobody was listed for the collab, it had no media file, or it had this one; it then has this file and the sender is listed |
| `ServerState.State.LinkSessionToMediaFile` | server/src/api_server/server_state.rs:169-175 | pushing the new entry first and dropping the previous guard last |
| `CollabState.LinkExact` | server/src/api_server/server_state.rs:169-175 | opening a media file lists the session if and only if its previous guard is for another file; other sessions are untouched and the session is listed nowhere else |
| `CollabState.OpenedTwice` | server/src/api_server/server_state.rs:172-173 | a session that opens the same file twice is no longer listed as its viewer |
| `CollabState.BetweenLocks` | server/src/api_server/server_state.rs:172-173 | between the push and the drop, a message for the file reaches the linking session once more than before, twice if it was listed already, and every other session as often as before |
| `MediaViewers.OpeningInSteps` | server/src/api_server/server_state.rs:169-175 | pushing the entry and then dropping the previous guard, as two steps, is the whole opening |
| `MediaViewers.EveryRunAgrees` | server/src/api_server/server_state.rs:169-175 | in every interleaving of connects, openings and disconnects of any sessions, with the two locks of an opening taken apart, every session is listed for every file exactly as often as its own steps say |
| `MediaViewers.ViewerExactly` | server/src/api_server/server_state.rs:169-175 | in every run, a session between two openings is listed for a file if and only if its guard is for that file and its last opening was not of a file it had open already, and never twice |
| `CollabState.RemoveExact` | server/src/api_server/server_state.rs:225-228 | a dropped guard removes that channel from that key and nothing else, and leaves no empty list |
| `CollabState.AddExact` | server/src/api_server/server_state.rs:217-220 | an added sender is listed under its key and nothing else changes |
| `CollabState.WithoutExact` | server/src/api_server/server_state.rs:227 | what is retained is exactly the other channels, without new repeats |
| `CollabState.SentUpTo` | server/src/api_server/server_state.rs:159-161 | all channels before the first closed one get the message |
| `CollabProtocol.InvStep` | server/src/api_server/ws_handers.rs:557-629 | every critical section of every session keeps the protocol invariant: lists match sessions, the pin lock matches its holder, pins match what participants joined with |
| `CollabProtocol.EveryRunKeepsInv` | server/src/api_server/ws_handers.rs:557-629 | the invariant holds throughout every interleaving |
| `CollabProtocol.ParticipantsSharePin` | server/src/api_server/server_state.rs:189-202 | in every interleaving a collab with a participant has a media file, and every participant joined with it |
| `CollabProtocol.PinStays` | server/src/api_server/server_state.rs:178-200 | no step changes the media file of a collab that somebody is listed for |
| `CollabProtocol.PinConstantWhileOccupied` | server/src/api_server/server_state.rs:189-202 | while a collab has participants, whoever they are, its media file never changes |
| `CollabProtocol.IdleSessionExact` | server/src/api_server/ws_handers.rs:564-574 | between messages a session is listed for exactly the collab in its `cur_collab_id` |
| `CollabProtocol.ListedOnce` | server/src/api_server/server_state.rs:217-220 | a session is never listed for two collabs, nor twice for one |
| `CollabProtocol.DoubleJoinIgnored` | server/src/api_server/ws_handers.rs:558-563 | a join is ignored exactly when the session is in a collab, also when it asks for another one |
| `CollabProtocol.PinOrRejectExactly` | server/src/api_server/server_state.rs:195-200 | with the lock free, a joining session gets past the pin map exactly when the collab has no media file or the one it brings |
| `CollabProtocol.CanJoin` | server/src/api_server/ws_handers.rs:557-592 | in every reachable state with the lock free, a free session can join a collab that nobody is in or whose media file it brings, and nobody loses their place by it |
| `CollabProtocol.TwoParticipants` | server/src/api_server/ws_handers.rs:557-592 | two sessions can take part in one collab |
| `CollabProtocol.NoSendFails` | server/src/api_server/server_state.rs:155-164 | in every reachable state no listed channel is closed, so a fan-out never stops part-way |
| `CollabProtocol.ReportExact` | server/src/api_server/ws_handers.rs:614-629 | a report goes once to each participant of the sender's collab and to nobody else |
| `CollabProtocol.AnnouncementExact` | server/src/api_server/ws_handers.rs:571-607 | a session that has joined or is leaving is announced once to each participant of its collab, itself included, and to nobody else |
| `CollabProtocol.NobodyIsStuck` | server/src/api_server/server_state.rs:189-202 | the holder of the pin lock can always release it, and with the lock free every session can take a step |
| `VideoFrame.FramesRoundTrip` | client/src/lib/player_view/VideoFrame.ts:153-205 | for every frame and every positive real rate the printed time code is read as that frame or the one before, and as that frame exactly when the frames past the full second are whole or at least half past one |
| `VideoFrame.TimeCodeExact` | client/src/lib/player_view/VideoFrame.ts:153-164 | the printed fields are the hours, minutes and seconds of the full seconds before the frame, and the nearest whole number of frames since, the larger of two equally near |
| `VideoFrame.HourIntoIt` | client/src/lib/player_view/VideoFrame.ts:153-164 | frame 86439 at 24 frames per second is printed as 01:00:01:15 |
| `VideoFrame.ThreeFields` | client/src/lib/player_view/VideoFrame.ts:172-189 | a time code without a frames field is a whole number of seconds, and no frame number |
| `VideoFrame.WholeRateRoundTrip` | client/src/lib/player_view/VideoFrame.ts:153-205 | at whole rates every frame comes back, with hours unbounded |
| `VideoFrame.TimeCodeRoundTrip` | client/src/lib/player_view/VideoFrame.ts:153-205 | at whole rates every time code with its fields in range is printed for the frame it is read as |
| `VideoFrame.SmpteThenFrames` | client/src/lib/player_view/VideoFrame.ts:153-205 | what is read back is the frame plus the rounding error of the frames field, cut to a whole number |
| `VideoFrame.SmpteFields` | client/src/lib/player_view/VideoFrame.ts:153-176 | hours, minutes and seconds of a printed time code are those of the full seconds before the frame |
| `VideoFrame.FullUnits` | client/src/lib/player_view/VideoFrame.ts:157-161 | the three divisions of the frame number agree with dividing its full seconds |
| `VideoFrame.SeekLands` | client/src/lib/player_view/VideoFrame.ts:185-189 | the added millisecond makes up for the fraction of a millisecond that was cut off, and overshoots by at most one |
| `VideoFrame.SeekNear` | client/src/lib/player_view/VideoFrame.ts:244-250 | at every positive real rate below 500, seeking to a frame shows it or the one before; it shows the frame itself if and only if no whole millisecond lies between the printed time and the time of the frame |
| `VideoFrame.SeekShowsExactly` | client/src/lib/player_view/VideoFrame.ts:244-250 | at every positive real rate, seeking shows the requested frame if and only if the first whole millisecond after the printed time lies within that frame |
| `VideoFrame.SeekSetsNextMillisecond` | client/src/lib/player_view/VideoFrame.ts:185-189 | the time that seeking sets is the first whole millisecond after the printed time |
| `VideoFrame.FrameMisread` | client/src/lib/player_view/VideoFrame.ts:153-205 | frame 30 at 29.97 frames per second is read back as frame 29 |
| `VideoFrame.FrameMissed` | client/src/lib/player_view/VideoFrame.ts:244-250 | seeking to frame 30 at 29.97 frames per second shows frame 29 |
| `VideoFrame.SeekExact` | client/src/lib/player_view/VideoFrame.ts:244-250 | at a whole rate, seeking shows every requested frame if and only if the rate is below 1000 |
| `VideoFrame.StepLands` | client/src/lib/player_view/VideoFrame.ts:213-218 | at every rate, a step moves by its number of frames plus the whole frames in 10 microseconds |
| `VideoFrame.ThereAndBack` | client/src/lib/player_view/VideoFrame.ts:226-242 | a step forward and the same step back return to the start if and only if the rate is positive and below 100000 |
| `VideoFrame.StepsAddUp` | client/src/lib/player_view/VideoFrame.ts:213-242 | over any run of steps the frame moves by their sum and by the whole frames in 10 microseconds for each step, which are none at positive rates below 100000 |
| `VideoFrame.Player.Seek` | client/src/lib/player_view/VideoFrame.ts:213-218 | pauses the video and moves by the requested frames in the requested direction |
| `VideoFrame.Player.SeekForward` | client/src/lib/player_view/VideoFrame.ts:226-230 | a forward step; 0 frames means 1 |
| `VideoFrame.Player.SeekBackward` | client/src/lib/player_view/VideoFrame.ts:238-242 | a backward step; 0 frames means 1 |
| `VideoFrame.Player.SeekToSMPTE` | client/src/lib/player_view/VideoFrame.ts:248-250 | sets the time of a time code, or nothing when it cannot be read |
| `VideoFrame.Player.SeekToFrame` | client/src/lib/player_view/VideoFrame.ts:244-246 | at a positive rate, sets the time of the printed code; below 500 it shows the requested frame or the one before |
| `VideoFrame.Player.constructor` | client/src/lib/player_view/VideoFrame.ts:85-89 | a missing or zero rate means 24; any other is stored as given |
| `Decimal.PrintThenValue` | client/src/lib/player_view/VideoFrame.ts:162-163 | a printed number is read back, and has no leading zero |
| `Decimal.PadThenValue` | client/src/lib/player_view/VideoFrame.ts:162 | padding keeps the value and gives at least two digits |
| `Decimal.JoinThenSplit` | client/src/lib/player_view/VideoFrame.ts:174 | splitting at a separator undoes joining with it |
| `Decimal.SplitThenJoin` | organizer/basic_folders/organizer/utils.py:18 | joining undoes splitting, for every text |
| `IncomingMonitor.SubmittedWhenSettled` | server/src/video_pipeline/incoming_monitor.rs:36-99 | over every run of polls, what is submitted had its size recorded in an earlier poll, and no size was recorded for that path since |
| `IncomingMonitor.ResubmittedAfterDelay` | server/src/video_pipeline/incoming_monitor.rs:36-99 | over every run with a clock that does not run backwards, two submissions of a path are at least the delay apart |
| `IncomingMonitor.EntryAlone` | server/src/video_pipeline/incoming_monitor.rs:62-88 | what a poll does about a file does not depend on the other files of the listing |
| `IncomingMonitor.SettledIsSubmitted` | server/src/video_pipeline/incoming_monitor.rs:65-88 | a file with content that keeps its size over two polls, outside the delay and with a known owner, is submitted by the second, or by the first if it had that size before |
| `SettledFiles.SubmittedExactly` | server/src/video_pipeline/incoming_monitor.rs:36-88 | over every run, a listed file is submitted if and only if it has content and a known owner, is not in the delay after a submission, and an earlier poll took notice of it at this size and none since at another |
| `SettledFiles.SubmittedKeptSizeExactly` | server/src/video_pipeline/incoming_monitor.rs:62-88 | the poll before a submission found the file at the submitted size if and only if it listed the file at all and not at another size while the file was without content or in the delay; the same holds of every poll since the size was last noticed |
| `SettledFiles.ChangeNoticedExactly` | server/src/video_pipeline/incoming_monitor.rs:63-88 | one poll overlooks a change of size if and only if the file is without content or in the delay |
| `SettledFiles.RemembersNoticed` | server/src/video_pipeline/incoming_monitor.rs:67-88 | the size remembered is the one taken notice of last |
| `SettledFiles.InDelayExactly` | server/src/video_pipeline/incoming_monitor.rs:38-39 | with a clock that does not run backwards, a file is in the delay if and only if less than the delay has passed since one of its submissions |
| `SettledFiles.EmptiedInBetween` | server/src/video_pipeline/incoming_monitor.rs:65-88 | a run in which a file that was seen empty in between is submitted |
| `SettledFiles.GrownInDelay` | server/src/video_pipeline/incoming_monitor.rs:63-88 | a run in which a file that the poll before saw at another size, during the delay, is submitted |
| `SettledFiles.GoneInBetween` | server/src/video_pipeline/incoming_monitor.rs:62-88 | a run in which a file that the poll before did not list is submitted as soon as it is listed again |
| `IncomingMonitor.Monitor.ConsiderFiles` | server/src/video_pipeline/incoming_monitor.rs:62-88 | the loop over one listing |
| `IncomingMonitor.Monitor.PollOnce` | server/src/video_pipeline/incoming_monitor.rs:37-88 | one round: expire, list, consider |
| `IncomingMonitor.Monitor.RunForever` | server/src/video_pipeline/incoming_monitor.rs:36-99 | the polls are made in order and none after the first listing that fails |
| `IncomingMonitor.MadeExactly` | server/src/video_pipeline/incoming_monitor.rs:36-99 | the polls made are all of them up to the first whose listing fails |
| `Breadcrumbs.PrintedThenParsed` | organizer/basic_folders/organizer/utils.py:3-18 | a printed trail is parsed back if and only if no id is negative |
| `Breadcrumbs.ParsedThenPrinted` | organizer/basic_folders/organizer/utils.py:3-18 | an accepted page id is printed again as it was if and only if no number has a leading zero |
| `Breadcrumbs.TwoFolders` | organizer/basic_folders/organizer/utils.py:3-7 | the trail of folders 1 and 20 is printed as 1.20 |
| `Breadcrumbs.PatternExact` | organizer/basic_folders/organizer/utils.py:16-18 | a page id is accepted exactly when it is numerals joined by single dots |
| `Breadcrumbs.TrailIsLoopErased` | organizer/basic_folders/organizer/user_session_methods.py:101-105 | over every run of opened folders the trail is the walk with its loops cut out, and names no folder twice |
| `Breadcrumbs.TrailGoesOn` | organizer/basic_folders/organizer/user_session_methods.py:101-105 | from any trail without repeats, a run of opened folders leaves the trail that walking it first and then the folders leaves with its loops cut out |
| `Breadcrumbs.OpenedSimple` | organizer/basic_folders/organizer/user_session_methods.py:102-105 | opening a folder keeps the trail free of repeats and ends it in that folder |
| `Breadcrumbs.CountExact` | organizer/basic_folders/organizer/helpers/folders.py:43-44 | the number of rows found equals the number of ids exactly when all exist and none is repeated |
| `Breadcrumbs.EveryTrailSimple` | organizer/basic_folders/organizer/user_session_methods.py:101-109 | whatever the cookie held and whichever folders go, the trail never repeats a folder and ends with the one opened last |
| `Breadcrumbs.SessionIsLoopErased` | organizer/basic_folders/organizer/user_session_methods.py:101-116 | while the folders visited stay, a session from the root folder shows its loop-erased walk |
| `UserSessions.Session.GetCurrentFolderPath` | organizer/basic_folders/organizer/helpers/folders.py:27-71 | the folders of the trail, or the root folder after root repair; a trail that cannot be shown clears the cookie |
| `UserSessions.Session.OpenFolder` | organizer/basic_folders/organizer/user_session_methods.py:92-117 | opens a folder: the trail that can be shown, or else the root folder alone, is cut or extended, kept in the cookie and shown; the folder shown last is the one opened if it exists |
| `UserSessions.Session.NavigatePage` | organizer/basic_folders/organizer/user_session_methods.py:36-60 | a page id shows its folders, or the root folder, and leaves the trail of the cookie alone; the cookie is cleared without a page id or when the trail cannot be shown, and a malformed page id shows the page of the cookie |
| `UserSessions.PageShowsTrail` | organizer/basic_folders/organizer/user_session_methods.py:50-60 | following the page id of a trail whose folders exist shows that trail and changes nothing |
| `UserSessions.PathHoldsRootExactly` | organizer/basic_folders/organizer/helpers/folders.py:31-47 | a path holds the user's root folder if and only if its trail cannot be shown, or names it |
| `UserSessions.PathWithoutRoot` | organizer/basic_folders/organizer/helpers/folders.py:43-47 | a page id whose page shows a subfolder without the root folder |
| `UserSessions.Session.NewFolder` | organizer/basic_folders/organizer/user_session_methods.py:77-90 | the command creates a folder in the last one of the current path; without a name, or with an empty one, it creates nothing |

## Left out

- SQL, Diesel, SQLAlchemy, connection pools and lock retries: tables are maps, and transactions run one after another.
- gRPC, websockets, HTTP upload, authentication headers, subprocesses, logging and signals.
- ffmpeg and mediainfo calls, metadata extraction, hashing, thumbnails and the copying of backup files. A run without a
  backup is modelled as the code has it (lib.rs:268-271), though the code reaches it only when the database file vanishes
  after it was opened.
- All of `App.svelte` except the handler of arriving comments, and all other user interface, including page HTML.
- Field conversions, paging, message types and bitrate choice, and `rename_folder`: only easy members.
- The outcome of an authorization call: in the collab protocol a join may be refused at that point or not.
- Plans that apply one migration twice: the code never considers them.
- Floating-point rounding of JavaScript numbers and of `as_secs_f32`, NaN arithmetic, negative frame numbers,
  and what a browser does when a time lies outside the video.
- Time code fields that JavaScript reads as numbers without being plain digits (`1.5`, `0x1F`, surrounding blanks):
  the model reads them as NaN. An empty time code means the current time in the code and NaN in the model.
- `toTime`, and with it `toSMPTE` without a frame: it depends on the local date and a 12-hour clock.
- Python's recursion and digit limits, non-ASCII digits and a trailing newline in a page id, cookies that are not
  a JSON list of integers, and ids in requests that are not numbers.
- The message that tells a user about several root folders, and the page that is built after each command.
- The lists of senders per user and per session id: they are kept in the same way as those per media file.
- The pauses between polls, and the removal of files whose owner is unknown.
- MigrationExecution.Databases.MigrateDb: what one migration does to the data is not modelled, only which version of which module it leads to.
- FolderDb.Db.TrashFolderRecursive: requires that the folder is on no loop or that the user may not trash some folder of
  its loop. Otherwise there is an order of rows in which the recursion does not end (`FolderTrashCalls.HaltsExactly`), and
  where owners agree it ends in none (`FolderTrashCalls.NestsForever`).
- FolderDb.Db.TrashFolder: requires the same.
- ServerState.State.LinkSessionToMediaFile: states what is left when both locks have been taken. What a message
  delivers in between is stated by `CollabState.BetweenLocks`, and whole runs with the locks taken apart are those of
  `MediaViewers`.
- VideoFrame.Player.SeekToFrame: requires a positive rate; time codes at negative rates are not modelled.
