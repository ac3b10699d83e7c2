// The caller of the planner: the server's own chain of pending migrations, and the execution of a
// plan against the databases.
module ServerMigrations {
  import opened Wrappers
  import opened Versions
  import opened Sorting
  import opened MigrationPlans
  import opened MigrationSolver

  const SERVER_MODULE_NAME := "clapshot.server"

  datatype Pending = Pending(name: string, version: string)

  // ---------------------------------------------------------------- the server's chain

  /** Every migration of the chain requires exactly the version its predecessor leads to. */
  function Chain(prev: Option<string>, pending: seq<Pending>): (migs: seq<Migration>)
    ensures |migs| == |pending|
    decreases pending
  {
    if pending == [] then []
    else
      var p := pending[0];
      [Migration(p.name, p.version, [Dependency(SERVER_MODULE_NAME, prev, prev)], "")]
      + Chain(Some(p.version), pending[1..])
  }

  method ServerModule(current: Option<string>, pending: seq<Pending>) returns (m: GraphModule)
    ensures m == GraphModule(SERVER_MODULE_NAME, current, Chain(current, pending))
  {
    var prevVer, migs := current, [];
    for i := 0 to |pending|
      invariant migs + Chain(prevVer, pending[i..]) == Chain(current, pending)
    {
      var p := pending[i];
      assert pending[i..][1..] == pending[i + 1..];
      migs := migs + [Migration(p.name, p.version, [Dependency(SERVER_MODULE_NAME, prevVer, prevVer)], "")];
      prevVer := Some(p.version);
    }
    return GraphModule(SERVER_MODULE_NAME, current, migs);
  }

  /** The version before the k-th migration of the chain. */
  function Before(current: Option<string>, pending: seq<Pending>, k: nat): Option<string>
    requires k <= |pending|
  {
    if k == 0 then current else Some(pending[k - 1].version)
  }

  lemma {:induction false} ChainAt(current: Option<string>, pending: seq<Pending>, k: nat)
    requires k < |pending|
    ensures var v := Before(current, pending, k);
            Chain(current, pending)[k] ==
              Migration(pending[k].name, pending[k].version, [Dependency(SERVER_MODULE_NAME, v, v)], "")
    decreases pending
  {
    if k > 0 {
      ChainAt(Some(pending[0].version), pending[1..], k - 1);
      assert Before(Some(pending[0].version), pending[1..], k - 1) == Before(current, pending, k);
    }
  }

  /** Pending migrations as the server lists them: distinct names, versions rising from the current one. */
  predicate Rising(current: Option<string>, pending: seq<Pending>) {
    && (forall j, k :: 0 <= j < k < |pending| ==> pending[j].name != pending[k].name)
    && (forall j, k :: 0 <= j < k < |pending| ==> Lt(pending[j].version, pending[k].version))
    && (current.Some? ==> forall k :: 0 <= k < |pending| ==> Lt(current.value, pending[k].version))
  }

  function OwnEntries(migs: seq<Migration>): seq<Entry> {
    seq(|migs|, k requires 0 <= k < |migs| => Entry(SERVER_MODULE_NAME, migs[k]))
  }

  lemma {:induction false} AllAdvance(m: GraphModule, migs: seq<Migration>)
    requires m.name == SERVER_MODULE_NAME
    requires m.curVersion.Some? ==> forall k :: 0 <= k < |migs| ==> Lt(m.curVersion.value, migs[k].version)
    ensures Advancing(m, migs) == OwnEntries(migs)
  {
    if migs != [] {
      AllAdvance(m, migs[1..]);
      assert OwnEntries(migs) == [Entry(SERVER_MODULE_NAME, migs[0])] + OwnEntries(migs[1..]);
    }
  }

  lemma ChainSorted(current: Option<string>, pending: seq<Pending>)
    requires Rising(current, pending)
    ensures Sorted(NotNewer, OwnEntries(Chain(current, pending))) && DistinctUuids(OwnEntries(Chain(current, pending)))
  {
    var es := OwnEntries(Chain(current, pending));
    forall j, k | 0 <= j < k < |es| ensures NotNewer(es[j], es[k]) && es[j].mig.uuid != es[k].mig.uuid {
      ChainAt(current, pending, j);
      ChainAt(current, pending, k);
      assert Lt(pending[j].version, pending[k].version);
    }
  }

  /** What the planner is given for the server's chain alone. */
  lemma ChainCandidates(current: Option<string>, pending: seq<Pending>)
    requires Rising(current, pending)
    ensures var m := GraphModule(SERVER_MODULE_NAME, current, Chain(current, pending));
            && Candidates([m]) == Ordered([m]) == OwnEntries(m.migrations)
            && DistinctUuids(Candidates([m]))
  {
    hide Sorted, DistinctUuids;
    var m := GraphModule(SERVER_MODULE_NAME, current, Chain(current, pending));
    forall k | 0 <= k < |pending| ensures m.migrations[k].version == pending[k].version {
      ChainAt(current, pending, k);
    }
    AllAdvance(m, m.migrations);
    assert [m][1..] == [];
    assert Candidates([m]) == Advancing(m, m.migrations) + Candidates([]);
    assert Candidates([m]) == OwnEntries(m.migrations);
    ChainSorted(current, pending);
    SortedStays(NotNewer, OwnEntries(m.migrations));
  }

  lemma ChainStartAndTarget(current: Option<string>, pending: seq<Pending>)
    requires Rising(current, pending)
    ensures var m := GraphModule(SERVER_MODULE_NAME, current, Chain(current, pending));
            && CurrentVersions([m]) == (if current.Some? then map[SERVER_MODULE_NAME := current.value] else map[])
            && TargetVersions([m]) == (if pending == [] then map[]
                                       else map[SERVER_MODULE_NAME := pending[|pending| - 1].version])
  {
    var m := GraphModule(SERVER_MODULE_NAME, current, Chain(current, pending));
    assert [m][..0] == [];
    if pending != [] {
      var v, last := NewestVersion(m.migrations).value, |pending| - 1;
      ChainAt(current, pending, last);
      assert Le(m.migrations[last].version, v);
      var k :| 0 <= k < |m.migrations| && m.migrations[k].version == v;
      ChainAt(current, pending, k);
      if k < last {
        assert Lt(pending[k].version, pending[last].version);
        LeAntisymmetric(v, m.migrations[last].version);
      }
    }
  }

  function Upto(n: nat): seq<nat> {
    seq(n, k => k)
  }

  /** Running the first k migrations of the chain leaves the server at the version before the next. */
  lemma {:induction false} ChainState(current: Option<string>, pending: seq<Pending>, cur: VersionMap, from: nat,
                                      n: nat)
    requires from <= n <= |pending|
    requires (if SERVER_MODULE_NAME in cur then Some(cur[SERVER_MODULE_NAME]) else None) ==
             Before(current, pending, from)
    ensures var all, plan := OwnEntries(Chain(current, pending)), seq(n - from, k => from + k);
            && InRange(all, plan)
            && var v := VersionsAfter(all, cur, plan);
               (if SERVER_MODULE_NAME in v then Some(v[SERVER_MODULE_NAME]) else None) == Before(current, pending, n)
    decreases n - from
  {
    var all, plan := OwnEntries(Chain(current, pending)), seq(n - from, k => from + k);
    if from < n {
      ChainAt(current, pending, from);
      var cur' := Apply(cur, all[from]);
      ChainState(current, pending, cur', from + 1, n);
      assert plan[1..] == seq(n - (from + 1), k => from + 1 + k);
    }
  }

  /** In the k-th state of the chain only the k-th migration is applicable, apart from an already
      used first one that has no predecessor to require. */
  lemma OnlyNextApplies(current: Option<string>, pending: seq<Pending>, cur: VersionMap, k: nat, j: nat)
    requires Rising(current, pending) && k <= |pending| && j < |pending|
    requires (if SERVER_MODULE_NAME in cur then Some(cur[SERVER_MODULE_NAME]) else None) == Before(current, pending, k)
    ensures Applicable(Chain(current, pending)[j], cur) <==> j == k || (j == 0 && current.None?)
  {
    ChainAt(current, pending, j);
    var mig, v := Chain(current, pending)[j], Before(current, pending, j);
    assert Applicable(mig, cur) <==> Satisfied(mig.dependencies[0], cur);
    var here := Before(current, pending, k);
    if v.Some? && here.Some? {
      if Le(v.value, here.value) && Le(here.value, v.value) {
        LeAntisymmetric(v.value, here.value);
      }
      LeReflexive(v.value);
      assert j != k ==> v.value != here.value by {
        if 0 < j < k { assert Lt(pending[j - 1].version, pending[k - 1].version); }
        if 0 < k < j { assert Lt(pending[k - 1].version, pending[j - 1].version); }
      }
    }
  }

  /** The chain has exactly one valid plan: all of it, in order. */
  lemma ChainPlanUnique(current: Option<string>, pending: seq<Pending>, cur: VersionMap, target: VersionMap,
                        plan: seq<nat>)
    requires Rising(current, pending)
    requires cur == if current.Some? then map[SERVER_MODULE_NAME := current.value] else map[]
    requires target == if pending == [] then map[] else map[SERVER_MODULE_NAME := pending[|pending| - 1].version]
    requires IsPlan(OwnEntries(Chain(current, pending)), target, cur, {}, plan)
    ensures plan == Upto(|pending|) || pending == []
  {
    var all := OwnEntries(Chain(current, pending));
    ChainStepsForced(current, pending, cur, plan, |plan|);
    assert plan == seq(|plan|, k => 0 + k);
    assert plan != [] ==> plan[|plan| - 1] < |all|;
    ChainState(current, pending, cur, 0, |plan|);
    if |plan| < |pending| {
      assert false;
    }
  }

  lemma {:induction false} ChainStepsForced(current: Option<string>, pending: seq<Pending>, cur: VersionMap,
                                            plan: seq<nat>, n: nat)
    requires Rising(current, pending)
    requires cur == if current.Some? then map[SERVER_MODULE_NAME := current.value] else map[]
    requires InRange(OwnEntries(Chain(current, pending)), plan)
    requires NoRepeats(OwnEntries(Chain(current, pending)), {}, plan)
    requires AllApply(OwnEntries(Chain(current, pending)), cur, plan)
    requires n <= |plan|
    ensures forall k :: 0 <= k < n ==> plan[k] == k
  {
    if n > 0 {
      ChainStepsForced(current, pending, cur, plan, n - 1);
      var all := OwnEntries(Chain(current, pending));
      assert n - 1 <= |pending| by {
        if n > 1 { assert plan[n - 2] < |all|; }
      }
      assert plan[..n - 1] == seq(n - 1, k => 0 + k);
      ChainState(current, pending, cur, 0, n - 1);
      assert AppliesAt(all, cur, plan, n - 1);
      OnlyNextApplies(current, pending, VersionsAfter(all, cur, plan[..n - 1]), n - 1, plan[n - 1]);
      if n > 1 {
        assert all[plan[0]].mig.uuid != all[plan[n - 1]].mig.uuid;
      }
    }
  }

  lemma ChainIsPlan(current: Option<string>, pending: seq<Pending>, cur: VersionMap, target: VersionMap)
    requires Rising(current, pending)
    requires cur == if current.Some? then map[SERVER_MODULE_NAME := current.value] else map[]
    requires target == if pending == [] then map[] else map[SERVER_MODULE_NAME := pending[|pending| - 1].version]
    ensures IsPlan(OwnEntries(Chain(current, pending)), target, cur, {}, Upto(|pending|))
  {
    var all, plan := OwnEntries(Chain(current, pending)), Upto(|pending|);
    assert plan == seq(|pending|, k => 0 + k);
    ChainState(current, pending, cur, 0, |pending|);
    forall k | 0 <= k < |plan|
      ensures AppliesAt(all, cur, plan, k) && all[plan[k]].mig.uuid == pending[k].name
    {
      ChainAt(current, pending, k);
      assert plan[..k] == seq(k, j => 0 + j);
      ChainState(current, pending, cur, 0, k);
      OnlyNextApplies(current, pending, VersionsAfter(all, cur, plan[..k]), k, k);
    }
  }

  lemma ChainBestPlan(current: Option<string>, pending: seq<Pending>, cur: VersionMap, target: VersionMap,
                      best: Option<seq<nat>>)
    requires Rising(current, pending)
    requires cur == if current.Some? then map[SERVER_MODULE_NAME := current.value] else map[]
    requires target == if pending == [] then map[] else map[SERVER_MODULE_NAME := pending[|pending| - 1].version]
    requires IsBestPlan(OwnEntries(Chain(current, pending)), target, cur, {}, best)
    ensures best == Some(Upto(|pending|))
  {
    ChainIsPlan(current, pending, cur, target);
    if pending == [] {
      assert best.Some? && NoWorse(best.value, Upto(0));
    } else {
      ChainPlanUnique(current, pending, cur, target, best.value);
    }
  }

  /** The planner answers the server's pending migrations with all of them, in their own order. */
  lemma ServerChainSolved(current: Option<string>, pending: seq<Pending>,
                          r: Result<Option<seq<Migration>>, SolverError>)
    requires Rising(current, pending)
    requires Solves([GraphModule(SERVER_MODULE_NAME, current, Chain(current, pending))], r)
    ensures r == Ok(Some(Chain(current, pending)))
  {
    var m := GraphModule(SERVER_MODULE_NAME, current, Chain(current, pending));
    ChainCandidates(current, pending);
    assert r.Ok?;
    ChainBehind(current, pending, r);
    UptoChosen(m.migrations);
    hide Solves, Rising, OwnEntries, Upto, Migrations, Candidates, Chain, DistinctUuids;
    assert |Chain(current, pending)| == |pending|;
  }

  lemma ChainBehind(current: Option<string>, pending: seq<Pending>, r: Result<Option<seq<Migration>>, SolverError>)
    requires Rising(current, pending) && r.Ok?
    requires Solves([GraphModule(SERVER_MODULE_NAME, current, Chain(current, pending))], r)
    ensures PlanBehind([GraphModule(SERVER_MODULE_NAME, current, Chain(current, pending))], r) == Some(Upto(|pending|))
  {
    hide IsBestPlan, Solves, Rising, Upto;
    var m := GraphModule(SERVER_MODULE_NAME, current, Chain(current, pending));
    ChainCandidates(current, pending);
    ChainStartAndTarget(current, pending);
    ChainBestPlan(current, pending, CurrentVersions([m]), TargetVersions([m]), PlanBehind([m], r));
  }

  lemma UptoChosen(migs: seq<Migration>)
    ensures InRange(OwnEntries(migs), Upto(|migs|)) && Migrations(OwnEntries(migs), Upto(|migs|)) == migs
  {
  }

  method PlanServerMigrations(current: Option<string>, pending: seq<Pending>)
    returns (r: Result<Option<seq<Migration>>, SolverError>)
    ensures Solves([GraphModule(SERVER_MODULE_NAME, current, Chain(current, pending))], r)
    ensures Rising(current, pending) ==> r == Ok(Some(Chain(current, pending)))
  {
    var m := ServerModule(current, pending);
    r := SolveMigrationGraph([m]);
    if Rising(current, pending) {
      ServerChainSolved(current, pending, r);
    }
  }
}
