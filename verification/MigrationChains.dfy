// The server planned together with other modules: its own chain survives in every valid plan.
module MigrationChains {
  import opened Wrappers
  import opened Versions
  import opened MigrationPlans
  import opened MigrationSolver
  import opened ServerMigrations
  import opened MigrationExecution

  /** Module `i` is the server, with its chain of pending migrations. */
  ghost predicate HasServer(modules: seq<GraphModule>, i: nat, current: Option<string>, pending: seq<Pending>) {
    && DistinctNames(modules) && i < |modules| && Rising(current, pending)
    && modules[i] == GraphModule(SERVER_MODULE_NAME, current, Chain(current, pending))
  }

  function ServerVersion(versions: VersionMap): Option<string> {
    if SERVER_MODULE_NAME in versions then Some(versions[SERVER_MODULE_NAME]) else None
  }

  /** The migrations of the server, in their order. */
  function OfServer(es: seq<Entry>): seq<Entry> {
    if es == [] then []
    else OfServer(es[..|es| - 1]) + if es[|es| - 1].owner == SERVER_MODULE_NAME then [es[|es| - 1]] else []
  }

  lemma {:induction false} OfServerHeld(es: seq<Entry>, x: Entry)
    ensures x in OfServer(es) <==> x in es && x.owner == SERVER_MODULE_NAME
  {
    if es != [] {
      OfServerHeld(es[..|es| - 1], x);
      assert es == es[..|es| - 1] + [es[|es| - 1]];
    }
  }

  lemma ServerCandidate(modules: seq<GraphModule>, i: nat, current: Option<string>, pending: seq<Pending>, k: nat)
    returns (q: nat)
    requires HasServer(modules, i, current, pending)
    requires k < |Ordered(modules)| && Ordered(modules)[k].owner == SERVER_MODULE_NAME
    ensures q < |pending| && Ordered(modules)[k] == Entry(SERVER_MODULE_NAME, Chain(current, pending)[q])
  {
    var e := Ordered(modules)[k];
    OrderedExact(modules);
    assert e in multiset(Ordered(modules));
    CandidatesExact(modules, e);
    var j :| 0 <= j < |modules| && AdvancesModule(modules[j], e);
    assert j == i;
    q :| 0 <= q < |Chain(current, pending)| && Chain(current, pending)[q] == e.mig;
  }

  /** The first `n` migrations of the plan hold the first `j` of the chain, and lead to their version. */
  ghost predicate AtStep(all: seq<Entry>, cur: VersionMap, plan: seq<nat>, n: nat, current: Option<string>,
                         pending: seq<Pending>, j: nat)
    requires InRange(all, plan) && n <= |plan|
  {
    && j <= |pending| && OfServer(Chosen(all, plan[..n])) == OwnEntries(Chain(current, pending))[..j]
    && ServerVersion(VersionsAfter(all, cur, plan[..n])) == Before(current, pending, j)
  }

  lemma ServerStep(modules: seq<GraphModule>, i: nat, cur: VersionMap, current: Option<string>, pending: seq<Pending>,
                   plan: seq<nat>, n: nat, j: nat)
    requires HasServer(modules, i, current, pending) && n < |plan|
    requires InRange(Ordered(modules), plan) && NoRepeats(Ordered(modules), {}, plan)
    requires AppliesAt(Ordered(modules), cur, plan, n) && AtStep(Ordered(modules), cur, plan, n, current, pending, j)
    requires Ordered(modules)[plan[n]].owner == SERVER_MODULE_NAME
    ensures j < |pending| && Ordered(modules)[plan[n]] == Entry(SERVER_MODULE_NAME, Chain(current, pending)[j])
  {
    var q := ServerCandidate(modules, i, current, pending, plan[n]);
    OnlyNextApplies(current, pending, VersionsAfter(Ordered(modules), cur, plan[..n]), j, q);
    if j > 0 {
      FirstUsed(Ordered(modules), cur, current, pending, plan, n, j);
    }
  }

  /** Once a migration of the chain has been used, the first one is not used again. */
  lemma FirstUsed(all: seq<Entry>, cur: VersionMap, current: Option<string>, pending: seq<Pending>,
                  plan: seq<nat>, n: nat, j: nat)
    requires InRange(all, plan) && NoRepeats(all, {}, plan) && n < |plan| && 0 < j
    requires AtStep(all, cur, plan, n, current, pending, j)
    ensures all[plan[n]].mig != Chain(current, pending)[0]
  {
    var first, used := Entry(SERVER_MODULE_NAME, Chain(current, pending)[0]), Chosen(all, plan[..n]);
    assert OwnEntries(Chain(current, pending))[..j][0] == first;
    assert first in OfServer(used);
    OfServerHeld(used, first);
    var k :| 0 <= k < n && used[k] == first;
    assert all[plan[k]].mig.uuid != all[plan[n]].mig.uuid;
  }

  lemma StepTaken(all: seq<Entry>, cur: VersionMap, plan: seq<nat>, n: nat,
                  current: Option<string>, pending: seq<Pending>, j: nat)
    requires InRange(all, plan) && n < |plan| && AtStep(all, cur, plan, n, current, pending, j)
    requires all[plan[n]].owner == SERVER_MODULE_NAME ==>
               j < |pending| && all[plan[n]] == Entry(SERVER_MODULE_NAME, Chain(current, pending)[j])
    ensures AtStep(all, cur, plan, n + 1, current, pending,
                   if all[plan[n]].owner == SERVER_MODULE_NAME then j + 1 else j)
  {
    var e, chain := all[plan[n]], Chain(current, pending);
    assert plan[..n + 1] == plan[..n] + [plan[n]];
    VersionsAfterAppend(all, cur, plan[..n], plan[n]);
    assert Chosen(all, plan[..n + 1]) == Chosen(all, plan[..n]) + [e];
    assert (Chosen(all, plan[..n]) + [e])[..n] == Chosen(all, plan[..n]);
    hide Chosen, VersionsAfter;
    if e.owner == SERVER_MODULE_NAME {
      ChainAt(current, pending, j);
      assert OwnEntries(chain)[..j + 1] == OwnEntries(chain)[..j] + [e];
    }
  }

  lemma {:induction false} ServerPrefix(modules: seq<GraphModule>, i: nat, current: Option<string>,
                                        pending: seq<Pending>, plan: seq<nat>, n: nat)
    returns (j: nat)
    requires HasServer(modules, i, current, pending) && n <= |plan|
    requires InRange(Ordered(modules), plan) && NoRepeats(Ordered(modules), {}, plan)
    requires AllApply(Ordered(modules), CurrentVersions(modules), plan)
    ensures AtStep(Ordered(modules), CurrentVersions(modules), plan, n, current, pending, j)
  {
    var all, cur := Ordered(modules), CurrentVersions(modules);
    if n == 0 {
      j := 0;
      ServerStart(modules, i, current, pending, plan);
    } else {
      assert AppliesAt(all, cur, plan, n - 1);
      hide AtStep, NoRepeats, Rising, HasServer, Applicable, AppliesAt;
      j := ServerPrefix(modules, i, current, pending, plan, n - 1);
      if all[plan[n - 1]].owner == SERVER_MODULE_NAME {
        ServerStep(modules, i, cur, current, pending, plan, n - 1, j);
      }
      StepTaken(all, cur, plan, n - 1, current, pending, j);
      j := if all[plan[n - 1]].owner == SERVER_MODULE_NAME then j + 1 else j;
    }
  }

  lemma ServerStart(modules: seq<GraphModule>, i: nat, current: Option<string>, pending: seq<Pending>, plan: seq<nat>)
    requires HasServer(modules, i, current, pending) && InRange(Ordered(modules), plan)
    ensures AtStep(Ordered(modules), CurrentVersions(modules), plan, 0, current, pending, 0)
  {
    StartAndTargetExact(modules, i);
    assert Chosen(Ordered(modules), plan[..0]) == [];
  }

  lemma ServerTarget(modules: seq<GraphModule>, i: nat, current: Option<string>, pending: seq<Pending>, j: nat)
    requires HasServer(modules, i, current, pending) && j <= |pending| && pending != []
    ensures SERVER_MODULE_NAME in TargetVersions(modules)
    ensures Before(current, pending, j) == Some(TargetVersions(modules)[SERVER_MODULE_NAME]) ==> j == |pending|
  {
    ChainStartAndTarget(current, pending);
    StartAndTargetExact(modules, i);
    var m := modules[i];
    StartAndTargetExact([m], 0);
    if 0 < j < |pending| {
      assert Lt(pending[j - 1].version, pending[|pending| - 1].version);
    }
  }

  /** Whatever other modules are planned with it, every valid plan holds the server's migrations
      exactly in the order of its chain, all of them. */
  lemma ServerChainInOrder(modules: seq<GraphModule>, i: nat, current: Option<string>, pending: seq<Pending>,
                           plan: seq<nat>)
    requires HasServer(modules, i, current, pending)
    requires IsPlan(Ordered(modules), TargetVersions(modules), CurrentVersions(modules), {}, plan)
    ensures OfServer(Chosen(Ordered(modules), plan)) == OwnEntries(Chain(current, pending))
  {
    var j := ServerPrefix(modules, i, current, pending, plan, |plan|);
    assert plan[..|plan|] == plan;
    if pending != [] {
      ServerTarget(modules, i, current, pending, j);
    }
    assert OwnEntries(Chain(current, pending))[..|pending|] == OwnEntries(Chain(current, pending));
  }

  /** In a complete run of the planner's answer for the server and others, with sound routing, the
      server runs its chain in order, and at every point it is at the version of the last migration
      of its own that has run: it passes through each pending version once, in order. */
  lemma ServerInJointRun(modules: seq<GraphModule>, i: nat, current: Option<string>, pending: seq<Pending>,
                         plan: seq<Migration>, world: World, n: nat)
    requires HasServer(modules, i, current, pending) && !UuidReusedLater(modules)
    requires Solves(modules, Ok(Some(plan))) && RunLength(modules, plan, world) == |plan| && n <= |plan|
    ensures var run := RoutedRun(modules, plan, world);
            var own := OfServer(run[..n]);
            && OfServer(run) == OwnEntries(Chain(current, pending))
            && |own| <= |pending| && own == OwnEntries(Chain(current, pending))[..|own|]
            && ServerVersion(Replay(CurrentVersions(modules), run[..n])) == Before(current, pending, |own|)
  {
    var all, run := Ordered(modules), RoutedRun(modules, plan, world);
    var best := PlanBehind(modules, Ok(Some(plan))).value;
    RunIsChosen(modules, plan, world);
    ServerInPlan(modules, i, current, pending, best, n);
    assert run[..n] == Chosen(all, best[..n]);
    ServerChainInOrder(modules, i, current, pending, best);
    hide HasServer, UuidReusedLater, IsPlan, Solves, IsBestPlan, Chain, VersionsAfter, Replay;
    ReplayIsVersionsAfter(all, CurrentVersions(modules), best[..n]);
  }

  lemma ServerInPlan(modules: seq<GraphModule>, i: nat, current: Option<string>, pending: seq<Pending>,
                     plan: seq<nat>, n: nat)
    requires HasServer(modules, i, current, pending) && n <= |plan|
    requires IsPlan(Ordered(modules), TargetVersions(modules), CurrentVersions(modules), {}, plan)
    ensures var own := OfServer(Chosen(Ordered(modules), plan[..n]));
            && |own| <= |pending| && own == OwnEntries(Chain(current, pending))[..|own|]
            && ServerVersion(VersionsAfter(Ordered(modules), CurrentVersions(modules), plan[..n])) ==
               Before(current, pending, |own|)
  {
    var j := ServerPrefix(modules, i, current, pending, plan, n);
  }
}
