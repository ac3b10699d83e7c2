// What the planner's answer means for the migrations themselves: which runs there are, said without
// the planner's own notions of a plan.
module MigrationLaws {
  import opened Wrappers
  import opened Versions
  import opened MigrationPlans
  import opened MigrationSolver
  import opened MigrationExecution

  /** The version a module is at after a run: that of its last migration in the run, or its current one. */
  function VersionIn(modules: seq<GraphModule>, run: seq<Entry>, name: string): Option<string> {
    if run != [] && run[|run| - 1].owner == name then Some(run[|run| - 1].mig.version)
    else if run != [] then VersionIn(modules, run[..|run| - 1], name)
    else CurrentOf(modules, name)
  }

  function CurrentOf(modules: seq<GraphModule>, name: string): Option<string> {
    if modules == [] then None
    else if modules[0].name == name then modules[0].curVersion
    else CurrentOf(modules[1..], name)
  }

  /** The version lies within the bounds that are given; without a version there must be no minimum. */
  predicate WithinBounds(dep: Dependency, version: Option<string>) {
    match version
    case Some(v) => (dep.minVer.Some? ==> Le(dep.minVer.value, v)) && (dep.maxVer.Some? ==> Le(v, dep.maxVer.value))
    case None => dep.minVer.None?
  }

  /** A listed migration that is newer than the current version of its module. */
  predicate IsPending(modules: seq<GraphModule>, e: Entry) {
    exists i :: 0 <= i < |modules| && e.owner == modules[i].name && e.mig in modules[i].migrations
                && (modules[i].curVersion.Some? ==> !Le(e.mig.version, modules[i].curVersion.value))
  }

  ghost predicate AtNewest(m: GraphModule, version: Option<string>) {
    && version.Some?
    && (exists k :: 0 <= k < |m.migrations| && m.migrations[k].version == version.value)
    && forall k :: 0 <= k < |m.migrations| ==> Le(m.migrations[k].version, version.value)
  }

  ghost predicate MeetsBounds(modules: seq<GraphModule>, run: seq<Entry>, k: nat)
    requires k < |run|
  {
    forall d :: 0 <= d < |run[k].mig.dependencies| ==>
      WithinBounds(run[k].mig.dependencies[d], VersionIn(modules, run[..k], run[k].mig.dependencies[d].name))
  }

  /** A run of pending migrations, none twice, each within its bounds when its turn comes, that
      brings every module that lists migrations to the newest one listed. */
  ghost predicate IsMigrationRun(modules: seq<GraphModule>, run: seq<Entry>) {
    && (forall k :: 0 <= k < |run| ==> IsPending(modules, run[k]))
    && (forall j, k :: 0 <= j < k < |run| ==> run[j].mig.uuid != run[k].mig.uuid)
    && (forall k :: 0 <= k < |run| ==> MeetsBounds(modules, run, k))
    && forall i :: 0 <= i < |modules| && modules[i].migrations != [] ==>
         AtNewest(modules[i], VersionIn(modules, run, modules[i].name))
  }

  function VersionAt(versions: VersionMap, name: string): Option<string> {
    if name in versions then Some(versions[name]) else None
  }

  // ---------------------------------------------------------------- the planner's notions, one by one

  lemma {:induction false} CurrentExact(modules: seq<GraphModule>, name: string)
    requires DistinctNames(modules)
    ensures VersionAt(CurrentVersions(modules), name) == CurrentOf(modules, name)
  {
    if i :| 0 <= i < |modules| && modules[i].name == name {
      StartAndTargetExact(modules, i);
      CurrentOfModule(modules, i);
    } else {
      OnlyNamedModules(modules, name);
      CurrentOfNone(modules, name);
    }
  }

  lemma {:induction false} CurrentOfModule(modules: seq<GraphModule>, i: nat)
    requires DistinctNames(modules) && i < |modules|
    ensures CurrentOf(modules, modules[i].name) == modules[i].curVersion
  {
    if i > 0 {
      assert modules[0].name != modules[i].name;
      assert forall j :: 0 <= j < |modules[1..]| ==> modules[1..][j] == modules[j + 1];
      CurrentOfModule(modules[1..], i - 1);
    }
  }

  lemma {:induction false} CurrentOfNone(modules: seq<GraphModule>, name: string)
    requires forall i :: 0 <= i < |modules| ==> modules[i].name != name
    ensures CurrentOf(modules, name) == None
  {
    if modules != [] {
      CurrentOfNone(modules[1..], name);
    }
  }

  lemma {:induction false} VersionExact(modules: seq<GraphModule>, run: seq<Entry>, name: string)
    requires DistinctNames(modules)
    ensures VersionAt(Replay(CurrentVersions(modules), run), name) == VersionIn(modules, run, name)
  {
    if run == [] {
      CurrentExact(modules, name);
    } else {
      VersionExact(modules, run[..|run| - 1], name);
    }
  }

  lemma PendingExact(modules: seq<GraphModule>, e: Entry)
    ensures IsPending(modules, e) <==> e in Ordered(modules)
  {
    OrderedExact(modules);
    assert e in Ordered(modules) <==> e in multiset(Ordered(modules));
    CandidatesExact(modules, e);
    if i :| 0 <= i < |modules| && AdvancesModule(modules[i], e) && modules[i].curVersion.Some? {
      NotBoth(e.mig.version, modules[i].curVersion.value);
    }
    if IsPending(modules, e) {
      var i :| 0 <= i < |modules| && e.owner == modules[i].name && e.mig in modules[i].migrations
               && (modules[i].curVersion.Some? ==> !Le(e.mig.version, modules[i].curVersion.value));
      if modules[i].curVersion.Some? {
        NotBoth(e.mig.version, modules[i].curVersion.value);
      }
      assert AdvancesModule(modules[i], e);
    }
  }

  lemma NotBoth(a: string, b: string)
    ensures !Le(a, b) <==> Lt(b, a)
  {
    LeTotal(a, b);
    LeReflexive(a);
    if Le(a, b) && Le(b, a) {
      LeAntisymmetric(a, b);
    }
  }

  lemma BoundsExact(modules: seq<GraphModule>, run: seq<Entry>, k: nat)
    requires DistinctNames(modules) && k < |run|
    ensures MeetsBounds(modules, run, k) <==> Applicable(run[k].mig, Replay(CurrentVersions(modules), run[..k]))
  {
    var v, deps := Replay(CurrentVersions(modules), run[..k]), run[k].mig.dependencies;
    forall d | 0 <= d < |deps|
      ensures WithinBounds(deps[d], VersionIn(modules, run[..k], deps[d].name)) <==> Satisfied(deps[d], v)
    {
      VersionExact(modules, run[..k], deps[d].name);
    }
  }

  lemma NewestExact(modules: seq<GraphModule>, i: nat, run: seq<Entry>)
    requires DistinctNames(modules) && i < |modules| && modules[i].migrations != []
    ensures var target, v := TargetVersions(modules), Replay(CurrentVersions(modules), run);
            && modules[i].name in target
            && (AtNewest(modules[i], VersionIn(modules, run, modules[i].name)) <==>
                modules[i].name in v && v[modules[i].name] == target[modules[i].name])
  {
    StartAndTargetExact(modules, i);
    VersionExact(modules, run, modules[i].name);
    var newest, at := NewestVersion(modules[i].migrations).value, VersionIn(modules, run, modules[i].name);
    if AtNewest(modules[i], at) {
      LeAntisymmetric(newest, at.value);
    }
  }

  lemma {:induction false} TargetNamed(modules: seq<GraphModule>, name: string)
    requires name in TargetVersions(modules)
    ensures exists i :: 0 <= i < |modules| && modules[i].name == name && modules[i].migrations != []
  {
    var front, last := modules[..|modules| - 1], modules[|modules| - 1];
    if last.name == name && last.migrations != [] {
      assert modules[|modules| - 1].name == name;
    } else {
      TargetNamed(front, name);
      var i :| 0 <= i < |front| && front[i].name == name && front[i].migrations != [];
      assert modules[i] == front[i];
    }
  }

  lemma TargetExact(modules: seq<GraphModule>, run: seq<Entry>)
    requires DistinctNames(modules)
    ensures AtTarget(TargetVersions(modules), Replay(CurrentVersions(modules), run)) <==>
            forall i :: 0 <= i < |modules| && modules[i].migrations != [] ==>
              AtNewest(modules[i], VersionIn(modules, run, modules[i].name))
  {
    var target, v := TargetVersions(modules), Replay(CurrentVersions(modules), run);
    forall i | 0 <= i < |modules| && modules[i].migrations != []
      ensures modules[i].name in target
      ensures AtNewest(modules[i], VersionIn(modules, run, modules[i].name)) <==>
              modules[i].name in v && v[modules[i].name] == target[modules[i].name]
    {
      NewestExact(modules, i, run);
    }
    if forall i :: 0 <= i < |modules| && modules[i].migrations != [] ==>
         AtNewest(modules[i], VersionIn(modules, run, modules[i].name)) {
      forall name | name in target ensures name in v && v[name] == target[name] {
        TargetNamed(modules, name);
      }
    }
  }

  // ---------------------------------------------------------------- runs are plans

  lemma StepsOfPlan(modules: seq<GraphModule>, plan: seq<nat>, k: nat)
    requires DistinctNames(modules) && InRange(Ordered(modules), plan) && k < |plan|
    ensures var run := Chosen(Ordered(modules), plan);
            && IsPending(modules, run[k])
            && (MeetsBounds(modules, run, k) <==> AppliesAt(Ordered(modules), CurrentVersions(modules), plan, k))
  {
    var all, cur, run := Ordered(modules), CurrentVersions(modules), Chosen(Ordered(modules), plan);
    PendingExact(modules, run[k]);
    BoundsExact(modules, run, k);
    assert run[..k] == Chosen(all, plan[..k]);
    ReplayIsVersionsAfter(all, cur, plan[..k]);
  }

  lemma RunOfPlan(modules: seq<GraphModule>, plan: seq<nat>)
    requires DistinctNames(modules) && InRange(Ordered(modules), plan)
    ensures IsPlan(Ordered(modules), TargetVersions(modules), CurrentVersions(modules), {}, plan) <==>
            IsMigrationRun(modules, Chosen(Ordered(modules), plan))
  {
    hide MeetsBounds, AppliesAt, AtTarget, AtNewest, IsPending, VersionIn, DistinctNames, Ordered, Replay,
      VersionsAfter;
    var all, run := Ordered(modules), Chosen(Ordered(modules), plan);
    forall k | 0 <= k < |run|
      ensures IsPending(modules, run[k])
      ensures MeetsBounds(modules, run, k) <==> AppliesAt(all, CurrentVersions(modules), plan, k)
    {
      StepsOfPlan(modules, plan, k);
    }
    ReplayIsVersionsAfter(all, CurrentVersions(modules), plan);
    TargetExact(modules, run);
    if forall k :: 0 <= k < |run| ==> MeetsBounds(modules, run, k) {
      assert AllApply(all, CurrentVersions(modules), plan);
    }
    if AllApply(all, CurrentVersions(modules), plan) {
      forall k | 0 <= k < |run| ensures MeetsBounds(modules, run, k) {
        assert AppliesAt(all, CurrentVersions(modules), plan, k);
      }
    }
    assert forall k :: 0 <= k < |run| ==> run[k] == all[plan[k]];
    if NoRepeats(all, {}, plan) {
      forall j, k | 0 <= j < k < |run| ensures run[j].mig.uuid != run[k].mig.uuid {
        assert all[plan[j]].mig.uuid != all[plan[k]].mig.uuid;
      }
    }
    if forall j, k :: 0 <= j < k < |run| ==> run[j].mig.uuid != run[k].mig.uuid {
      forall j, k | 0 <= j < k < |plan| ensures all[plan[j]].mig.uuid != all[plan[k]].mig.uuid {
        assert run[j].mig.uuid != run[k].mig.uuid;
      }
    }
  }

  lemma {:induction false} PlanOfRun(all: seq<Entry>, run: seq<Entry>) returns (plan: seq<nat>)
    requires forall k :: 0 <= k < |run| ==> run[k] in all
    ensures InRange(all, plan) && Chosen(all, plan) == run
  {
    if run == [] {
      plan := [];
    } else {
      var front, e := run[..|run| - 1], run[|run| - 1];
      var rest := PlanOfRun(all, front);
      var i: nat :| i < |all| && all[i] == e;
      plan := rest + [i];
      assert Chosen(all, plan)[..|rest|] == front;
    }
  }

  /** The planner answers with a run, and there is none that is shorter. */
  lemma AnswerIsShortestRun(modules: seq<GraphModule>, plan: seq<Migration>)
    requires DistinctNames(modules) && Solves(modules, Ok(Some(plan)))
    ensures exists run: seq<Entry> :: IsMigrationRun(modules, run) && |run| == |plan|
                          && forall k :: 0 <= k < |plan| ==> run[k].mig == plan[k]
    ensures forall run :: IsMigrationRun(modules, run) ==> |plan| <= |run|
  {
    var all := Ordered(modules);
    var r: Result<Option<seq<Migration>>, SolverError> := Ok(Some(plan));
    var best := PlanBehind(modules, r).value;
    RunOfPlan(modules, best);
    assert IsMigrationRun(modules, Chosen(all, best));
    forall run | IsMigrationRun(modules, run) ensures |plan| <= |run| {
      var p := PlanForRun(modules, run);
    }
  }

  lemma PlanForRun(modules: seq<GraphModule>, run: seq<Entry>) returns (p: seq<nat>)
    requires DistinctNames(modules) && IsMigrationRun(modules, run)
    ensures |p| == |run|
    ensures IsPlan(Ordered(modules), TargetVersions(modules), CurrentVersions(modules), {}, p)
  {
    forall k | 0 <= k < |run| ensures run[k] in Ordered(modules) {
      PendingExact(modules, run[k]);
    }
    p := PlanOfRun(Ordered(modules), run);
    RunOfPlan(modules, p);
  }

  /** The planner gives up exactly when there is no run. */
  lemma NoneExactly(modules: seq<GraphModule>, r: Result<Option<seq<Migration>>, SolverError>)
    requires DistinctNames(modules) && Solves(modules, r) && r.Ok?
    ensures r == Ok(None) <==> forall run :: !IsMigrationRun(modules, run)
  {
    if r == Ok(None) {
      forall run ensures !IsMigrationRun(modules, run) {
        if IsMigrationRun(modules, run) {
          var p := PlanForRun(modules, run);
        }
      }
    } else {
      AnswerIsShortestRun(modules, r.value.value);
    }
  }

  /** Of several shortest plans, the answer is the one that prefers earlier candidates: at the first
      place where another differs, it has the later one. */
  lemma AnswerComesFirst(modules: seq<GraphModule>, r: Result<Option<seq<Migration>>, SolverError>, p: seq<nat>)
    requires Solves(modules, r) && r.Ok?
    requires IsPlan(Ordered(modules), TargetVersions(modules), CurrentVersions(modules), {}, p)
    ensures r.value.Some?
    ensures var best := PlanBehind(modules, r).value;
            |p| == |best| && p != best ==> exists k :: 0 <= k < |p| && best[..k] == p[..k] && best[k] < p[k]
  {
    var best := PlanBehind(modules, r).value;
    if |p| == |best| {
      LexLeExact(best, p);
    }
  }

  lemma {:induction false} LexLeExact(p: seq<nat>, q: seq<nat>)
    requires |p| == |q| && LexLe(p, q)
    ensures p == q || exists k :: 0 <= k < |p| && p[..k] == q[..k] && p[k] < q[k]
  {
    if p != [] {
      if p[0] < q[0] {
        assert p[..0] == q[..0];
      } else {
        LexLeExact(p[1..], q[1..]);
        assert p == [p[0]] + p[1..] && q == [q[0]] + q[1..];
        if p[1..] != q[1..] {
          var k :| 0 <= k < |p[1..]| && p[1..][..k] == q[1..][..k] && p[1..][k] < q[1..][k];
          assert p[..k + 1] == [p[0]] + p[1..][..k] && q[..k + 1] == [q[0]] + q[1..][..k];
          assert p[k + 1] < q[k + 1];
        }
      }
    }
  }
}
