// What a migration plan is: the meaning of a plan, independent of how one is searched for.
module MigrationPlans {
  import opened Wrappers
  import opened Versions

  datatype Dependency = Dependency(name: string, minVer: Option<string>, maxVer: Option<string>)

  datatype Migration = Migration(uuid: string, version: string, dependencies: seq<Dependency>, description: string)

  datatype GraphModule = GraphModule(name: string, curVersion: Option<string>, migrations: seq<Migration>)

  /** A migration together with the name of the module it belongs to. */
  datatype Entry = Entry(owner: string, mig: Migration)

  type VersionMap = map<string, string>

  predicate Satisfied(dep: Dependency, cur: VersionMap) {
    if dep.name in cur then
      && (dep.minVer.Some? ==> Le(dep.minVer.value, cur[dep.name]))
      && (dep.maxVer.Some? ==> Le(cur[dep.name], dep.maxVer.value))
    else
      dep.minVer.None?
  }

  predicate Applicable(mig: Migration, cur: VersionMap) {
    forall d :: 0 <= d < |mig.dependencies| ==> Satisfied(mig.dependencies[d], cur)
  }

  predicate AtTarget(target: VersionMap, cur: VersionMap) {
    forall m :: m in target ==> m in cur && cur[m] == target[m]
  }

  function Apply(cur: VersionMap, e: Entry): VersionMap {
    cur[e.owner := e.mig.version]
  }

  /** A plan names migrations by their position in the candidate list. */
  predicate InRange(all: seq<Entry>, plan: seq<nat>) {
    forall k :: 0 <= k < |plan| ==> plan[k] < |all|
  }

  function VersionsAfter(all: seq<Entry>, cur: VersionMap, plan: seq<nat>): VersionMap
    requires InRange(all, plan)
    decreases plan
  {
    if plan == [] then cur else VersionsAfter(all, Apply(cur, all[plan[0]]), plan[1..])
  }

  function Migrations(all: seq<Entry>, plan: seq<nat>): seq<Migration>
    requires InRange(all, plan)
  {
    seq(|plan|, k requires 0 <= k < |plan| => all[plan[k]].mig)
  }

  /** The dependencies of the k-th migration of the plan hold at the point where it is applied. */
  predicate AppliesAt(all: seq<Entry>, cur: VersionMap, plan: seq<nat>, k: nat)
    requires InRange(all, plan) && k < |plan|
  {
    Applicable(all[plan[k]].mig, VersionsAfter(all, cur, plan[..k]))
  }

  /** No UUID occurs twice, and none of `used` occurs. */
  ghost predicate NoRepeats(all: seq<Entry>, used: set<string>, plan: seq<nat>)
    requires InRange(all, plan)
  {
    && (forall k :: 0 <= k < |plan| ==> all[plan[k]].mig.uuid !in used)
    && (forall j, k :: 0 <= j < k < |plan| ==> all[plan[j]].mig.uuid != all[plan[k]].mig.uuid)
  }

  ghost predicate AllApply(all: seq<Entry>, cur: VersionMap, plan: seq<nat>)
    requires InRange(all, plan)
  {
    forall k :: 0 <= k < |plan| ==> AppliesAt(all, cur, plan, k)
  }

  /** A valid plan that avoids the UUIDs in `used`: nothing is applied twice, every migration is
      applicable when its turn comes, and all modules end at their target. */
  ghost predicate IsPlan(all: seq<Entry>, target: VersionMap, cur: VersionMap, used: set<string>, plan: seq<nat>) {
    && InRange(all, plan)
    && NoRepeats(all, used, plan)
    && AllApply(all, cur, plan)
    && AtTarget(target, VersionsAfter(all, cur, plan))
  }

  predicate LexLe(p: seq<nat>, q: seq<nat>) {
    p == [] || (q != [] && (p[0] < q[0] || (p[0] == q[0] && LexLe(p[1..], q[1..]))))
  }

  /** The order of preference: shorter plans first, then by position in the candidate list. */
  predicate NoWorse(p: seq<nat>, q: seq<nat>) {
    |p| < |q| || (|p| == |q| && LexLe(p, q))
  }

  /** `best` is the most preferred valid plan, or `None` when there is none at all. */
  ghost predicate IsBestPlan(all: seq<Entry>, target: VersionMap, cur: VersionMap, used: set<string>,
                             best: Option<seq<nat>>)
  {
    match best
    case None => forall p :: !IsPlan(all, target, cur, used, p)
    case Some(b) =>
      && IsPlan(all, target, cur, used, b)
      && forall p :: IsPlan(all, target, cur, used, p) ==> NoWorse(b, p)
  }

  // ---------------------------------------------------------------- plans, one step at a time

  /** A non-empty plan is valid exactly when its first migration is applicable and the rest is a
      valid plan from the versions it leads to. */
  lemma PlanUnfolds(all: seq<Entry>, target: VersionMap, cur: VersionMap, used: set<string>, i: nat, rest: seq<nat>)
    requires i < |all|
    ensures IsPlan(all, target, cur, used, [i] + rest) <==>
            && all[i].mig.uuid !in used
            && Applicable(all[i].mig, cur)
            && IsPlan(all, target, Apply(cur, all[i]), used + {all[i].mig.uuid}, rest)
  {
    var p := [i] + rest;
    assert p[1..] == rest;
    assert InRange(all, p) <==> InRange(all, rest) by {
      if InRange(all, p) {
        forall k | 0 <= k < |rest| ensures rest[k] < |all| { assert p[k + 1] < |all|; }
      }
    }
    if InRange(all, rest) {
      NoRepeatsUnfolds(all, used, i, rest);
      AllApplyUnfolds(all, cur, i, rest);
    }
  }

  lemma AllApplyUnfolds(all: seq<Entry>, cur: VersionMap, i: nat, rest: seq<nat>)
    requires i < |all| && InRange(all, rest) && InRange(all, [i] + rest)
    ensures AllApply(all, cur, [i] + rest) <==>
            Applicable(all[i].mig, cur) && AllApply(all, Apply(cur, all[i]), rest)
  {
    var p, cur' := [i] + rest, Apply(cur, all[i]);
    assert p[..0] == [];
    assert AppliesAt(all, cur, p, 0) <==> Applicable(all[i].mig, cur);
    forall k | 0 <= k < |rest|
      ensures AppliesAt(all, cur, p, k + 1) <==> AppliesAt(all, cur', rest, k)
    {
      assert p[..k + 1] == [i] + rest[..k];
      assert p[..k + 1][1..] == rest[..k];
    }
    if AllApply(all, cur, p) {
      forall k | 0 <= k < |rest| ensures AppliesAt(all, cur', rest, k) {
        assert AppliesAt(all, cur, p, k + 1);
      }
    } else if Applicable(all[i].mig, cur) {
      var k :| 0 <= k < |p| && !AppliesAt(all, cur, p, k);
      assert !AppliesAt(all, cur', rest, k - 1);
    }
  }

  lemma NoRepeatsUnfolds(all: seq<Entry>, used: set<string>, i: nat, rest: seq<nat>)
    requires i < |all| && InRange(all, rest) && InRange(all, [i] + rest)
    ensures NoRepeats(all, used, [i] + rest) <==>
            all[i].mig.uuid !in used && NoRepeats(all, used + {all[i].mig.uuid}, rest)
  {
    var p := [i] + rest;
    assert p[0] == i && forall k :: 0 < k < |p| ==> p[k] == rest[k - 1];
    if NoRepeats(all, used, p) {
      forall k | 0 <= k < |rest| ensures all[rest[k]].mig.uuid !in used + {all[i].mig.uuid} {
        assert p[k + 1] == rest[k];
      }
      forall j, k | 0 <= j < k < |rest| ensures all[rest[j]].mig.uuid != all[rest[k]].mig.uuid {
        assert p[j + 1] == rest[j] && p[k + 1] == rest[k];
      }
    }
  }

  /** The empty plan is valid exactly at the target. */
  lemma EmptyPlan(all: seq<Entry>, target: VersionMap, cur: VersionMap, used: set<string>)
    ensures IsPlan(all, target, cur, used, []) <==> AtTarget(target, cur)
  {
  }
}
