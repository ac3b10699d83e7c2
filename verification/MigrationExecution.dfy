// Executing a plan: routing every migration to its module by UUID, running it there, and restoring
// the backup when anything fails.
module MigrationExecution {
  import opened Wrappers
  import opened Versions
  import opened Sorting
  import opened MigrationPlans
  import opened MigrationSolver
  import opened ServerMigrations

  // ---------------------------------------------------------------- routing by UUID

  predicate Lists(m: GraphModule, uuid: string) {
    exists k :: 0 <= k < |m.migrations| && m.migrations[k].uuid == uuid
  }

  /** The UUID table covers every listed migration, pending or not; a later module overwrites an
      earlier one. */
  function RouteOf(modules: seq<GraphModule>, uuid: string): Option<string> {
    if modules == [] then None
    else
      var m := modules[|modules| - 1];
      if Lists(m, uuid) then Some(m.name) else RouteOf(modules[..|modules| - 1], uuid)
  }

  /** Every pending migration is run by the module it belongs to. */
  ghost predicate RoutesOwn(modules: seq<GraphModule>) {
    forall e :: IsCandidate(modules, e) ==> RouteOf(modules, e.mig.uuid) == Some(e.owner)
  }

  /** A later module lists the UUID of a migration that is pending in an earlier one. */
  predicate UuidReusedLater(modules: seq<GraphModule>) {
    exists i, j, k :: 0 <= i < j < |modules| && 0 <= k < |modules[i].migrations|
      && PendingIn(modules[i], modules[i].migrations[k]) && Lists(modules[j], modules[i].migrations[k].uuid)
  }

  predicate PendingIn(m: GraphModule, mig: Migration) {
    m.curVersion.None? || Lt(m.curVersion.value, mig.version)
  }

  lemma {:induction false} RouteIsLastListing(modules: seq<GraphModule>, i: nat, uuid: string)
    requires i < |modules| && Lists(modules[i], uuid)
    requires forall j :: i < j < |modules| ==> !Lists(modules[j], uuid)
    ensures RouteOf(modules, uuid) == Some(modules[i].name)
  {
    if i < |modules| - 1 {
      RouteIsLastListing(modules[..|modules| - 1], i, uuid);
    }
  }

  lemma {:induction false} RouteAvoidsEarlier(modules: seq<GraphModule>, i: nat, j: nat, uuid: string)
    requires DistinctNames(modules) && i < j < |modules| && Lists(modules[j], uuid)
    ensures RouteOf(modules, uuid) != Some(modules[i].name)
  {
    if j < |modules| - 1 && !Lists(modules[|modules| - 1], uuid) {
      RouteAvoidsEarlier(modules[..|modules| - 1], i, j, uuid);
    }
  }

  /** Routing by UUID reaches the right modules exactly when no pending UUID is listed again by a
      later module. The planner's duplicate check does not see this: it only looks at pending ones. */
  lemma RoutingExact(modules: seq<GraphModule>)
    requires DistinctNames(modules)
    ensures RoutesOwn(modules) <==> !UuidReusedLater(modules)
  {
    if UuidReusedLater(modules) {
      var i, j, k :| 0 <= i < j < |modules| && 0 <= k < |modules[i].migrations|
        && PendingIn(modules[i], modules[i].migrations[k]) && Lists(modules[j], modules[i].migrations[k].uuid);
      var e := Entry(modules[i].name, modules[i].migrations[k]);
      assert AdvancesModule(modules[i], e);
      RouteAvoidsEarlier(modules, i, j, e.mig.uuid);
      assert IsCandidate(modules, e);
    } else {
      forall e | IsCandidate(modules, e)
        ensures RouteOf(modules, e.mig.uuid) == Some(e.owner)
      {
        var i :| 0 <= i < |modules| && AdvancesModule(modules[i], e);
        var k :| 0 <= k < |modules[i].migrations| && modules[i].migrations[k] == e.mig;
        assert PendingIn(modules[i], modules[i].migrations[k]);
        RouteIsLastListing(modules, i, e.mig.uuid);
      }
    }
  }

  // ---------------------------------------------------------------- running a plan

  /** What the outside world decides: whether an organizer can be reached, which migrations fail,
      and whether there was a database to back up. */
  datatype World = World(organizerReachable: bool, failing: set<string>, foreignKeysOk: bool, backupMade: bool)

  predicate Runs(modules: seq<GraphModule>, mig: Migration, world: World) {
    var route := RouteOf(modules, mig.uuid);
    route.Some? && (route.value == SERVER_MODULE_NAME || world.organizerReachable) && mig.uuid !in world.failing
  }

  /** How many migrations of the plan run before the first failure. */
  function RunLength(modules: seq<GraphModule>, plan: seq<Migration>, world: World): (n: nat)
    ensures n <= |plan|
  {
    if plan == [] || !Runs(modules, plan[0], world) then 0 else 1 + RunLength(modules, plan[1..], world)
  }

  lemma {:induction false} RunLengthExact(modules: seq<GraphModule>, plan: seq<Migration>, world: World, k: nat)
    requires k < |plan|
    ensures k < RunLength(modules, plan, world) ==> Runs(modules, plan[k], world)
    ensures k == RunLength(modules, plan, world) ==> !Runs(modules, plan[k], world)
    ensures var route := RouteOf(modules, plan[k].uuid);
            Runs(modules, plan[k], world) <==>
            && plan[k].uuid !in world.failing && route.Some?
            && (route.value != SERVER_MODULE_NAME ==> world.organizerReachable)
  {
    if k > 0 && Runs(modules, plan[0], world) {
      RunLengthExact(modules, plan[1..], world, k - 1);
    }
  }

  /** The migrations that run before the first failure, each with the module that runs it. */
  ghost function RoutedRun(modules: seq<GraphModule>, plan: seq<Migration>, world: World): (run: seq<Entry>)
    ensures |run| == RunLength(modules, plan, world)
    ensures forall k :: 0 <= k < |run| ==> run[k].mig == plan[k] && RouteOf(modules, plan[k].uuid) == Some(run[k].owner)
  {
    var n := RunLength(modules, plan, world);
    forall k | 0 <= k < n ensures RouteOf(modules, plan[k].uuid).Some? {
      RunLengthExact(modules, plan, world, k);
    }
    seq(n, k requires 0 <= k < n => Entry(RouteOf(modules, plan[k].uuid).value, plan[k]))
  }

  function Replay(versions: VersionMap, run: seq<Entry>): VersionMap {
    if run == [] then versions else Apply(Replay(versions, run[..|run| - 1]), run[|run| - 1])
  }

  lemma ReplayAppend(versions: VersionMap, run: seq<Entry>, e: Entry)
    ensures Replay(versions, run + [e]) == Apply(Replay(versions, run), e)
  {
    assert (run + [e])[..|run|] == run;
  }

  /** Every migration of the run found its dependencies satisfied by what had been run before it. */
  ghost predicate DependenciesHeld(versions: VersionMap, run: seq<Entry>) {
    forall k :: 0 <= k < |run| ==> Applicable(run[k].mig, Replay(versions, run[..k]))
  }

  datatype Outcome = NothingToDo | Migrated | Unsolvable | DuplicateUuids | Restored | LeftAsItIs

  ghost predicate NothingListed(modules: seq<GraphModule>) {
    forall k :: 0 <= k < |modules| ==> modules[k].migrations == []
  }

  /** The outcome when the planner answers `s`, and what was run and kept. */
  ghost predicate IsOutcome(modules: seq<GraphModule>, world: World, s: Result<Option<seq<Migration>>, SolverError>,
                            r: Outcome, kept: seq<Entry>)
  {
    if NothingListed(modules) then r == NothingToDo && kept == []
    else
      match s
      case Err(_) => r == DuplicateUuids && kept == []
      case Ok(None) => r == Unsolvable && kept == []
      case Ok(Some(plan)) =>
        var run := RoutedRun(modules, plan, world);
        if plan == [] then r == NothingToDo && kept == []
        else if |run| == |plan| && world.foreignKeysOk then r == Migrated && kept == run
        else if world.backupMade then r == Restored && kept == []
        else r == LeftAsItIs && kept == run
  }

  class Databases {
    var versions: VersionMap    // the version every module's schema is at
    var history: seq<Entry>     // the migrations run, in order, each with the module that ran it

    constructor (versions: VersionMap)
      ensures this.versions == versions && history == []
    {
      this.versions := versions;
      this.history := [];
    }

    method Run(owner: string, mig: Migration)
      modifies this
      ensures versions == Apply(old(versions), Entry(owner, mig))
      ensures history == old(history) + [Entry(owner, mig)]
    {
      versions := versions[owner := mig.version];
      history := history + [Entry(owner, mig)];
    }

    /** Runs the plan up to its first failure, each migration on the module its UUID is listed by. */
    method ApplyMigrations(modules: seq<GraphModule>, plan: seq<Migration>, world: World) returns (ok: bool)
      modifies this
      ensures ok <==> RunLength(modules, plan, world) == |plan|
      ensures var run := RoutedRun(modules, plan, world);
              && history == old(history) + run
              && versions == Replay(old(versions), run)
    {
      ghost var n := RunLength(modules, plan, world);
      ghost var run := RoutedRun(modules, plan, world);
      assert run[..n] == run;
      for i := 0 to |plan|
        invariant i <= n
        invariant history == old(history) + run[..i]
        invariant versions == Replay(old(versions), run[..i])
      {
        RunLengthExact(modules, plan, world, i);
        var mig := plan[i];
        var route := RouteOf(modules, mig.uuid);
        if route.None? || (route.value != SERVER_MODULE_NAME && !world.organizerReachable)
           || mig.uuid in world.failing {
          return false;
        }
        Run(route.value, mig);
        assert run[..i + 1] == run[..i] + [Entry(route.value, mig)];
        ReplayAppend(old(versions), run[..i], Entry(route.value, mig));
      }
      return true;
    }

    /** Plans and runs the pending migrations. A failed run is undone from the backup; without one, it
        is left as it is, and no error is reported. */
    method MigrateDb(modules: seq<GraphModule>, world: World) returns (r: Outcome)
      requires modules != []
      requires versions == CurrentVersions(modules)
      modifies this
      ensures exists s, kept :: Solves(modules, s) && IsOutcome(modules, world, s, r, kept)
                                && history == old(history) + kept && versions == Replay(old(versions), kept)
      ensures r.NothingToDo? ==> AtTarget(TargetVersions(modules), versions)
      ensures r.Migrated? && DistinctNames(modules) && !UuidReusedLater(modules) ==>
                exists run :: history == old(history) + run && AtTarget(TargetVersions(modules), versions)
                              && DependenciesHeld(old(versions), run) && versions == Replay(old(versions), run)
    {
      var total := 0;
      for i := 0 to |modules|
        invariant 0 <= total && (total == 0 <==> forall k :: 0 <= k < i ==> modules[k].migrations == [])
      {
        total := total + |modules[i].migrations|;
      }
      assert history + [] == history;
      hide Solves, AtTarget, DependenciesHeld, UuidReusedLater, DistinctNames;
      if total == 0 {
        NothingToSolve(modules);
        EmptyAnswer(modules);
        assert IsOutcome(modules, world, Ok(Some([])), NothingToDo, []);
        return NothingToDo;
      }
      assert !NothingListed(modules);
      var solution := SolveMigrationGraph(modules);
      match solution {
        case Err(_) =>
          assert IsOutcome(modules, world, solution, DuplicateUuids, []);
          return DuplicateUuids;
        case Ok(None) =>
          assert IsOutcome(modules, world, solution, Unsolvable, []);
          return Unsolvable;
        case Ok(Some(plan)) =>
          if plan == [] {
            EmptyAnswer(modules);
            assert IsOutcome(modules, world, solution, NothingToDo, []);
            return NothingToDo;
          }
          var backupVersions, backupHistory := versions, history;
          var ok := ApplyMigrations(modules, plan, world);
          ghost var run := RoutedRun(modules, plan, world);
          if !ok || !world.foreignKeysOk {
            if !world.backupMade {
              assert IsOutcome(modules, world, solution, LeftAsItIs, run);
              return LeftAsItIs;
            }
            versions, history := backupVersions, backupHistory;
            assert IsOutcome(modules, world, solution, Restored, []);
            return Restored;
          }
          assert IsOutcome(modules, world, solution, Migrated, run);
          if DistinctNames(modules) && !UuidReusedLater(modules) {
            PlannedRunIsSound(modules, plan, world);
          }
          return Migrated;
      }
    }
  }

  lemma {:induction false} NoCandidates(modules: seq<GraphModule>)
    requires NothingListed(modules)
    ensures Candidates(modules) == []
  {
    if modules != [] {
      NoCandidates(modules[1..]);
    }
  }

  lemma NothingToSolve(modules: seq<GraphModule>)
    requires NothingListed(modules)
    ensures Solves(modules, Ok(Some([])))
  {
    var all := Ordered(modules);
    NoCandidates(modules);
    NoTargets(modules);
    EmptyPlan(all, TargetVersions(modules), CurrentVersions(modules), {});
    assert IsBestPlan(all, TargetVersions(modules), CurrentVersions(modules), {}, Some([]));
    assert Migrations(all, []) == [];
  }

  lemma EmptyAnswer(modules: seq<GraphModule>)
    requires Solves(modules, Ok(Some([])))
    ensures AtTarget(TargetVersions(modules), CurrentVersions(modules))
  {
    var best := PlanBehind(modules, Ok(Some([]))).value;
    assert |Migrations(Ordered(modules), best)| == |best|;
    assert best == [];
    EmptyPlan(Ordered(modules), TargetVersions(modules), CurrentVersions(modules), {});
  }

  lemma {:induction false} NoTargets(modules: seq<GraphModule>)
    requires NothingListed(modules)
    ensures TargetVersions(modules) == map[]
  {
    if modules != [] {
      NoTargets(modules[..|modules| - 1]);
    }
  }

  function Chosen(all: seq<Entry>, plan: seq<nat>): seq<Entry>
    requires InRange(all, plan)
  {
    seq(|plan|, k requires 0 <= k < |plan| => all[plan[k]])
  }

  lemma {:induction false} ReplayIsVersionsAfter(all: seq<Entry>, cur: VersionMap, plan: seq<nat>)
    requires InRange(all, plan)
    ensures Replay(cur, Chosen(all, plan)) == VersionsAfter(all, cur, plan)
    decreases |plan|
  {
    if plan != [] {
      var n := |plan| - 1;
      assert Chosen(all, plan)[..n] == Chosen(all, plan[..n]);
      ReplayIsVersionsAfter(all, cur, plan[..n]);
      VersionsAfterAppend(all, cur, plan[..n], plan[n]);
      assert plan == plan[..n] + [plan[n]];
    }
  }

  lemma {:induction false} VersionsAfterAppend(all: seq<Entry>, cur: VersionMap, plan: seq<nat>, i: nat)
    requires InRange(all, plan) && i < |all|
    ensures VersionsAfter(all, cur, plan + [i]) == Apply(VersionsAfter(all, cur, plan), all[i])
    decreases plan
  {
    if plan == [] {
      assert [i][1..] == [];
    } else {
      VersionsAfterAppend(all, Apply(cur, all[plan[0]]), plan[1..], i);
      assert (plan + [i])[1..] == plan[1..] + [i];
    }
  }

  /** With sound routing, what is run is what was planned, module for module. */
  lemma RoutedAsPlanned(modules: seq<GraphModule>, best: seq<nat>, k: nat)
    requires DistinctNames(modules) && !UuidReusedLater(modules)
    requires InRange(Ordered(modules), best) && k < |best|
    ensures RouteOf(modules, Ordered(modules)[best[k]].mig.uuid) == Some(Ordered(modules)[best[k]].owner)
  {
    var all := Ordered(modules);
    RoutingExact(modules);
    OrderedExact(modules);
    assert all[best[k]] in multiset(all);
    assert all[best[k]] in Candidates(modules);
    CandidatesExact(modules, all[best[k]]);
  }

  /** With sound routing, a complete run of the planner's answer runs the plan behind it. */
  lemma RunIsChosen(modules: seq<GraphModule>, plan: seq<Migration>, world: World)
    requires DistinctNames(modules) && !UuidReusedLater(modules)
    requires Solves(modules, Ok(Some(plan))) && RunLength(modules, plan, world) == |plan|
    ensures var best := PlanBehind(modules, Ok(Some(plan))).value;
            InRange(Ordered(modules), best) && RoutedRun(modules, plan, world) == Chosen(Ordered(modules), best)
  {
    var run, best := RoutedRun(modules, plan, world), PlanBehind(modules, Ok(Some(plan))).value;
    forall k | 0 <= k < |run| ensures run[k] == Ordered(modules)[best[k]] {
      RoutedAsPlanned(modules, best, k);
    }
  }

  /** With sound routing, a complete run of the planner's answer meets every dependency on its way
      and brings every module to its target. */
  lemma PlannedRunIsSound(modules: seq<GraphModule>, plan: seq<Migration>, world: World)
    requires DistinctNames(modules) && !UuidReusedLater(modules)
    requires Solves(modules, Ok(Some(plan))) && RunLength(modules, plan, world) == |plan|
    ensures var cur, run := CurrentVersions(modules), RoutedRun(modules, plan, world);
            DependenciesHeld(cur, run) && AtTarget(TargetVersions(modules), Replay(cur, run))
  {
    RunIsChosen(modules, plan, world);
    PlanRunsSoundly(Ordered(modules), TargetVersions(modules), CurrentVersions(modules),
                    PlanBehind(modules, Ok(Some(plan))).value);
  }

  lemma PlanRunsSoundly(all: seq<Entry>, target: VersionMap, cur: VersionMap, plan: seq<nat>)
    requires IsPlan(all, target, cur, {}, plan)
    ensures DependenciesHeld(cur, Chosen(all, plan)) && AtTarget(target, Replay(cur, Chosen(all, plan)))
  {
    var run := Chosen(all, plan);
    ReplayIsVersionsAfter(all, cur, plan);
    forall k | 0 <= k < |run|
      ensures Applicable(run[k].mig, Replay(cur, run[..k]))
    {
      assert AppliesAt(all, cur, plan, k);
      assert run[..k] == Chosen(all, plan[..k]);
      ReplayIsVersionsAfter(all, cur, plan[..k]);
    }
  }

  /** Running the planner's answer to the server's own chain visits every pending version once, in
      order, on the server: all of them, unless a migration fails. */
  lemma ServerRunVisitsEachVersion(current: Option<string>, pending: seq<Pending>, plan: seq<Migration>, world: World)
    requires Rising(current, pending)
    requires Solves([GraphModule(SERVER_MODULE_NAME, current, Chain(current, pending))], Ok(Some(plan)))
    ensures var modules := [GraphModule(SERVER_MODULE_NAME, current, Chain(current, pending))];
            var cur, run := CurrentVersions(modules), RoutedRun(modules, plan, world);
            && |run| <= |pending|
            && (|run| == |pending| <==> forall k :: 0 <= k < |pending| ==> pending[k].name !in world.failing)
            && forall k :: 0 <= k < |run| ==>
                 && run[k] == Entry(SERVER_MODULE_NAME, Chain(current, pending)[k])
                 && Replay(cur, run[..k + 1]) == cur[SERVER_MODULE_NAME := pending[k].version]
  {
    var modules := [GraphModule(SERVER_MODULE_NAME, current, Chain(current, pending))];
    var cur, run := CurrentVersions(modules), RoutedRun(modules, plan, world);
    ServerChainSolved(current, pending, Ok(Some(plan)));
    hide Rising, Solves, Chain, Replay, CurrentVersions;
    ServerRouted(current, pending, world);
    forall k | 0 <= k < |run| ensures Replay(cur, run[..k + 1]) == cur[SERVER_MODULE_NAME := pending[k].version] {
      ServerReplay(current, pending, cur, run, k);
    }
  }

  lemma ServerRouted(current: Option<string>, pending: seq<Pending>, world: World)
    ensures var plan := Chain(current, pending);
            var run := RoutedRun([GraphModule(SERVER_MODULE_NAME, current, plan)], plan, world);
            && (forall k :: 0 <= k < |run| ==> run[k] == Entry(SERVER_MODULE_NAME, plan[k]))
            && (|run| == |pending| <==> forall k :: 0 <= k < |pending| ==> pending[k].name !in world.failing)
  {
    var plan := Chain(current, pending);
    var modules := [GraphModule(SERVER_MODULE_NAME, current, plan)];
    var n := RunLength(modules, plan, world);
    forall k | 0 <= k < |plan|
      ensures RouteOf(modules, plan[k].uuid) == Some(SERVER_MODULE_NAME)
      ensures k < n ==> pending[k].name !in world.failing
      ensures k == n ==> pending[k].name in world.failing
    {
      ChainAt(current, pending, k);
      assert Lists(modules[0], plan[k].uuid) by {
        assert modules[0].migrations[k].uuid == plan[k].uuid;
      }
      RunLengthExact(modules, plan, world, k);
    }
    assert n < |plan| ==> pending[n].name in world.failing;
  }

  lemma {:induction false} ServerReplay(current: Option<string>, pending: seq<Pending>, cur: VersionMap,
                                        run: seq<Entry>, k: nat)
    requires k < |run| <= |pending|
    requires forall j :: 0 <= j < |run| ==> run[j] == Entry(SERVER_MODULE_NAME, Chain(current, pending)[j])
    ensures Replay(cur, run[..k + 1]) == cur[SERVER_MODULE_NAME := pending[k].version]
  {
    ChainAt(current, pending, k);
    assert run[..k + 1] == run[..k] + [run[k]];
    ReplayAppend(cur, run[..k], run[k]);
    if k > 0 {
      ServerReplay(current, pending, cur, run, k - 1);
    } else {
      assert run[..0] == [];
    }
  }

  // ---------------------------------------------------------------- a plan run by the wrong module

  const REUSED_UUID: Migration := Migration("u", "1", [Dependency(SERVER_MODULE_NAME, None, None)], "")

  /** A server without a version has one migration pending; an organizer that is past a migration
      with the same UUID lists it still. */
  function TwoListUuid(): seq<GraphModule> {
    [GraphModule(SERVER_MODULE_NAME, None, Chain(None, [Pending("u", "1")])),
     GraphModule("org", Some("1"), [REUSED_UUID])]
  }

  lemma TwoListCandidates()
    ensures Candidates(TwoListUuid()) == Ordered(TwoListUuid()) == [Entry(SERVER_MODULE_NAME, REUSED_UUID)]
  {
    var modules, all := TwoListUuid(), [Entry(SERVER_MODULE_NAME, REUSED_UUID)];
    ChainAt(None, [Pending("u", "1")], 0);
    assert modules[0].migrations == [REUSED_UUID] && [REUSED_UUID][1..] == [];
    assert modules[1..] == [modules[1]] && [modules[1]][1..] == [];
    assert Advancing(modules[0], modules[0].migrations) == all;
    assert Advancing(modules[1], modules[1].migrations) == [];
    hide Advancing;
    assert Candidates([modules[1]]) == [];
    assert Candidates(modules) == all;
    assert Sorted(NotNewer, all);
    SortedStays(NotNewer, all);
  }

  lemma TwoListFacts()
    ensures DistinctNames(TwoListUuid())
    ensures CurrentVersions(TwoListUuid()) == map["org" := "1"]
    ensures TargetVersions(TwoListUuid()) == map[SERVER_MODULE_NAME := "1", "org" := "1"]
    ensures RouteOf(TwoListUuid(), "u") == Some("org")
  {
    var modules := TwoListUuid();
    ChainAt(None, [Pending("u", "1")], 0);
    assert modules[0].migrations == [REUSED_UUID] && [REUSED_UUID][..0] == [];
    assert modules[..1] == [modules[0]] && [modules[0]][..0] == [];
    assert Lists(modules[1], "u") by {
      assert modules[1].migrations[0].uuid == "u";
    }
  }

  /** The planner answers with a plan, and the plan is run by the wrong module: afterwards the server
      has no version, and is not at its target. */
  lemma MisroutedPlan(world: World)
    requires world.organizerReachable && world.failing == {}
    ensures var modules := TwoListUuid();
            var cur, run := CurrentVersions(modules), RoutedRun(modules, [REUSED_UUID], world);
            && DistinctNames(modules) && Solves(modules, Ok(Some([REUSED_UUID])))
            && run == [Entry("org", REUSED_UUID)]
            && SERVER_MODULE_NAME !in Replay(cur, run) && !AtTarget(TargetVersions(modules), Replay(cur, run))
  {
    var modules := TwoListUuid();
    TwoListCandidates();
    TwoListFacts();
    hide Candidates, Ordered, Chain;
    assert Applicable(REUSED_UUID, CurrentVersions(modules));
    OnlyOnePlan(Ordered(modules), TargetVersions(modules), CurrentVersions(modules));
    assert Migrations(Ordered(modules), [0]) == [REUSED_UUID];
    assert [REUSED_UUID][1..] == [];
    assert RunLength(modules, [REUSED_UUID], world) == 1;
    var run := RoutedRun(modules, [REUSED_UUID], world);
    assert run == [Entry("org", REUSED_UUID)];
    assert run[..0] == [];
  }

  lemma OnlyOnePlan(all: seq<Entry>, target: VersionMap, cur: VersionMap)
    requires all == [Entry(SERVER_MODULE_NAME, REUSED_UUID)]
    requires cur == map["org" := "1"] && target == map[SERVER_MODULE_NAME := "1", "org" := "1"]
    ensures IsBestPlan(all, target, cur, {}, Some([0]))
  {
    EmptyPlan(all, target, cur, {});
    EmptyPlan(all, target, Apply(cur, all[0]), {} + {"u"});
    PlanUnfolds(all, target, cur, {}, 0, []);
    assert [0] + [] == [0];
    assert SERVER_MODULE_NAME in target && SERVER_MODULE_NAME !in cur;
    assert !AtTarget(target, cur);
    forall p | IsPlan(all, target, cur, {}, p) ensures NoWorse([0], p) {
      assert |p| == 0 ==> p == [];
      assert |p| == 1 ==> p == [0];
    }
  }
}
