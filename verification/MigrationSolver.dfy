// The migration planner: candidate list, targets, and a backtracking depth-first search that
// keeps the best plan found so far.
module MigrationSolver {
  import opened Wrappers
  import opened Versions
  import opened Sorting
  import opened MigrationPlans

  // ---------------------------------------------------------------- the search

  /** The best-so-far plan after seeing every completion of `path`, of which `o` is the best. */
  ghost function Improved(best: Option<seq<Migration>>, path: seq<Migration>, all: seq<Entry>, o: Option<seq<nat>>)
    : Option<seq<Migration>>
    requires o.Some? ==> InRange(all, o.value)
  {
    if o.Some? && (best.None? || |path| + |o.value| < |best.value|)
    then Some(path + Migrations(all, o.value))
    else best
  }

  /** `IsBestPlan` restricted to the non-empty plans that start with one of the first `n` candidates. */
  ghost predicate IsBestStarting(all: seq<Entry>, target: VersionMap, cur: VersionMap, used: set<string>,
                                 n: nat, best: Option<seq<nat>>)
  {
    match best
    case None => forall p :: IsPlan(all, target, cur, used, p) && p != [] ==> n <= p[0]
    case Some(b) =>
      && IsPlan(all, target, cur, used, b) && b != [] && b[0] < n
      && forall p :: IsPlan(all, target, cur, used, p) && p != [] && p[0] < n ==> NoWorse(b, p)
  }

  lemma {:induction false} LexLeAntisymmetric(p: seq<nat>, q: seq<nat>)
    requires LexLe(p, q) && LexLe(q, p)
    ensures p == q
  {
    if p != [] {
      LexLeAntisymmetric(p[1..], q[1..]);
      assert p == [p[0]] + p[1..] && q == [q[0]] + q[1..];
    }
  }

  lemma BestPlanUnique(all: seq<Entry>, target: VersionMap, cur: VersionMap, used: set<string>,
                       a: Option<seq<nat>>, b: Option<seq<nat>>)
    requires IsBestPlan(all, target, cur, used, a) && IsBestPlan(all, target, cur, used, b)
    ensures a == b
  {
    if a.Some? && b.Some? {
      LexLeAntisymmetric(a.value, b.value);
    }
  }

  /** The most preferred valid plan, if there is any. */
  ghost function BestPlan(all: seq<Entry>, target: VersionMap, cur: VersionMap, used: set<string>): Option<seq<nat>> {
    if exists b :: IsBestPlan(all, target, cur, used, b)
    then var b :| IsBestPlan(all, target, cur, used, b); b
    else None
  }

  lemma BestSkipsCandidate(all: seq<Entry>, target: VersionMap, cur: VersionMap, used: set<string>,
                           n: nat, best: Option<seq<nat>>)
    requires n < |all| && IsBestStarting(all, target, cur, used, n, best)
    requires all[n].mig.uuid in used || !Applicable(all[n].mig, cur)
    ensures IsBestStarting(all, target, cur, used, n + 1, best)
  {
    forall p | IsPlan(all, target, cur, used, p) && p != []
      ensures p[0] != n
    {
      if p[0] == n {
        assert p == [n] + p[1..];
        PlanUnfolds(all, target, cur, used, n, p[1..]);
        assert false;
      }
    }
  }

  ghost function Better(best: Option<seq<nat>>, n: nat, child: Option<seq<nat>>): Option<seq<nat>> {
    if child.Some? && (best.None? || 1 + |child.value| < |best.value|) then Some([n] + child.value) else best
  }

  lemma BestTakesCandidate(all: seq<Entry>, target: VersionMap, cur: VersionMap, used: set<string>,
                           n: nat, best: Option<seq<nat>>, child: Option<seq<nat>>)
    requires n < |all| && IsBestStarting(all, target, cur, used, n, best)
    requires all[n].mig.uuid !in used && Applicable(all[n].mig, cur)
    requires IsBestPlan(all, target, Apply(cur, all[n]), used + {all[n].mig.uuid}, child)
    ensures IsBestStarting(all, target, cur, used, n + 1, Better(best, n, child))
  {
    var r := Better(best, n, child);
    if child.Some? {
      PlanUnfolds(all, target, cur, used, n, child.value);
    }
    forall p | IsPlan(all, target, cur, used, p) && p != [] && p[0] < n + 1
      ensures r.Some? && NoWorse(r.value, p)
    {
      if p[0] == n {
        assert p == [n] + p[1..];
        PlanUnfolds(all, target, cur, used, n, p[1..]);
        assert child.Some? && NoWorse(child.value, p[1..]);
        assert ([n] + child.value)[1..] == child.value;
      }
    }
  }

  lemma BestOfAllCandidates(all: seq<Entry>, target: VersionMap, cur: VersionMap, used: set<string>,
                            best: Option<seq<nat>>)
    requires IsBestStarting(all, target, cur, used, |all|, best)
    requires !AtTarget(target, cur)
    ensures IsBestPlan(all, target, cur, used, best)
  {
    EmptyPlan(all, target, cur, used);
  }

  lemma ImprovedTwice(all: seq<Entry>, best: Option<seq<Migration>>, path: seq<Migration>,
                      o: Option<seq<nat>>, n: nat, child: Option<seq<nat>>)
    requires n < |all| && (o.Some? ==> InRange(all, o.value)) && (child.Some? ==> InRange(all, child.value))
    ensures var r := Better(o, n, child);
            && (r.Some? ==> InRange(all, r.value))
            && Improved(Improved(best, path, all, o), path + [all[n].mig], all, child) == Improved(best, path, all, r)
  {
    if child.Some? {
      var p := [n] + child.value;
      assert forall k :: 0 < k < |p| ==> p[k] == child.value[k - 1];
      assert path + [all[n].mig] + Migrations(all, child.value) == path + Migrations(all, p);
    }
  }

  method CanApply(mig: Migration, cur: VersionMap) returns (canApply: bool)
    ensures canApply == Applicable(mig, cur)
    ensures canApply <==>
            forall d :: 0 <= d < |mig.dependencies| ==>
              var dep := mig.dependencies[d];
              if dep.name in cur
              then (dep.minVer.Some? ==> Le(dep.minVer.value, cur[dep.name]))
                   && (dep.maxVer.Some? ==> Le(cur[dep.name], dep.maxVer.value))
              else dep.minVer.None?
  {
    canApply := true;
    for d := 0 to |mig.dependencies|
      invariant canApply == forall k :: 0 <= k < d ==> Satisfied(mig.dependencies[k], cur)
    {
      var dep := mig.dependencies[d];
      if dep.name in cur {
        var curVersion := cur[dep.name];
        if dep.minVer.Some? {
          canApply := canApply && Le(dep.minVer.value, curVersion);
        }
        if dep.maxVer.Some? {
          canApply := canApply && Le(curVersion, dep.maxVer.value);
        }
      } else {
        canApply := canApply && dep.minVer.None?;
      }
    }
  }

  ghost function Uuids(all: seq<Entry>): set<string> {
    set i | 0 <= i < |all| :: all[i].mig.uuid
  }

  /** Searches every completion of `path` that repeats no visited UUID. The best plan so far is
      replaced by the best completion when that is strictly shorter, and kept otherwise. */
  method DepthFirstSearch(all: seq<Entry>, target: VersionMap, cur: VersionMap, visited: set<string>,
                          path: seq<Migration>, best: Option<seq<Migration>>)
    returns (best': Option<seq<Migration>>)
    ensures IsBestPlan(all, target, cur, visited, BestPlan(all, target, cur, visited))
    ensures best' == Improved(best, path, all, BestPlan(all, target, cur, visited))
    decreases Uuids(all) - visited
  {
    best' := best;
    if AtTarget(target, cur) {
      if best.None? || |path| < |best.value| {
        best' := Some(path);
      }
      StopsAtTarget(all, target, cur, visited, path);
      return;
    }

    ghost var o: Option<seq<nat>> := None;
    for i := 0 to |all|
      invariant IsBestStarting(all, target, cur, visited, i, o)
      invariant best' == Improved(best, path, all, o)
    {
      var e := all[i];
      if e.mig.uuid in visited {
        BestSkipsCandidate(all, target, cur, visited, i, o);
        continue;
      }
      var canApply := CanApply(e.mig, cur);
      if canApply {
        var newPath := path + [e.mig];
        var newCur := cur[e.owner := e.mig.version];
        var newVisited := visited + {e.mig.uuid};
        assert e.mig.uuid in Uuids(all) - visited;
        best' := DepthFirstSearch(all, target, newCur, newVisited, newPath, best');
        ghost var child := BestPlan(all, target, newCur, newVisited);
        BestTakesCandidate(all, target, cur, visited, i, o, child);
        ImprovedTwice(all, best, path, o, i, child);
        o := Better(o, i, child);
      } else {
        BestSkipsCandidate(all, target, cur, visited, i, o);
      }
    }
    BestOfAllCandidates(all, target, cur, visited, o);
    BestPlanUnique(all, target, cur, visited, o, BestPlan(all, target, cur, visited));
  }

  lemma StopsAtTarget(all: seq<Entry>, target: VersionMap, cur: VersionMap, used: set<string>, path: seq<Migration>)
    requires AtTarget(target, cur)
    ensures IsBestPlan(all, target, cur, used, Some([])) && BestPlan(all, target, cur, used) == Some([])
    ensures path + Migrations(all, []) == path
  {
    EmptyPlan(all, target, cur, used);
    BestPlanUnique(all, target, cur, used, Some([]), BestPlan(all, target, cur, used));
  }

  // ---------------------------------------------------------------- the candidate list

  /** The migrations of a module that advance it past its current version, in listed order. */
  function Advancing(m: GraphModule, migs: seq<Migration>): (es: seq<Entry>)
  {
    if migs == [] then []
    else
      var mig := migs[0];
      (if m.curVersion.None? || Lt(m.curVersion.value, mig.version) then [Entry(m.name, mig)] else [])
      + Advancing(m, migs[1..])
  }

  function Candidates(modules: seq<GraphModule>): seq<Entry> {
    if modules == [] then [] else Advancing(modules[0], modules[0].migrations) + Candidates(modules[1..])
  }

  predicate IsCandidate(modules: seq<GraphModule>, e: Entry) {
    exists i :: 0 <= i < |modules| && AdvancesModule(modules[i], e)
  }

  predicate AdvancesModule(m: GraphModule, e: Entry) {
    && e.owner == m.name
    && e.mig in m.migrations
    && (m.curVersion.Some? ==> Lt(m.curVersion.value, e.mig.version))
  }

  lemma {:induction false} AdvancingExact(m: GraphModule, migs: seq<Migration>, e: Entry)
    requires forall k :: 0 <= k < |migs| ==> migs[k] in m.migrations
    ensures e in Advancing(m, migs) <==> AdvancesModule(m, e) && e.mig in migs
  {
    if migs != [] {
      AdvancingExact(m, migs[1..], e);
      assert e.mig in migs <==> e.mig == migs[0] || e.mig in migs[1..];
    }
  }

  /** The candidates are exactly the migrations that advance the current version of their module. */
  lemma {:induction false} CandidatesExact(modules: seq<GraphModule>, e: Entry)
    ensures e in Candidates(modules) <==> IsCandidate(modules, e)
  {
    if modules != [] {
      AdvancingExact(modules[0], modules[0].migrations, e);
      CandidatesExact(modules[1..], e);
      if IsCandidate(modules, e) && !AdvancesModule(modules[0], e) {
        var i :| 0 <= i < |modules| && AdvancesModule(modules[i], e);
        assert AdvancesModule(modules[1..][i - 1], e);
      }
      if IsCandidate(modules[1..], e) {
        var i :| 0 <= i < |modules[1..]| && AdvancesModule(modules[1..][i], e);
        assert AdvancesModule(modules[i + 1], e);
      }
    }
  }

  predicate DistinctUuids(es: seq<Entry>) {
    forall j, k :: 0 <= j < k < |es| ==> es[j].mig.uuid != es[k].mig.uuid
  }

  // ---------------------------------------------------------------- the version-sorted list

  predicate NotNewer(a: Entry, b: Entry) {
    Le(a.mig.version, b.mig.version)
  }

  lemma NotNewerOrders()
    ensures TotalPreorder(NotNewer)
  {
    forall a, b ensures NotNewer(a, b) || NotNewer(b, a) {
      LeTotal(a.mig.version, b.mig.version);
    }
    forall a, b, c | NotNewer(a, b) && NotNewer(b, c) ensures NotNewer(a, c) {
      LeTransitive(a.mig.version, b.mig.version, c.mig.version);
    }
  }

  /** The entries of one version, in order. */
  function OfVersion(es: seq<Entry>, v: string): seq<Entry> {
    if es == [] then []
    else OfVersion(es[..|es| - 1], v) + (if es[|es| - 1].mig.version == v then [es[|es| - 1]] else [])
  }

  lemma {:induction false} TiesAreOfVersion(es: seq<Entry>, x: Entry)
    ensures Ties(NotNewer, es, x) == OfVersion(es, x.mig.version)
  {
    if es != [] {
      TiesAreOfVersion(es[..|es| - 1], x);
      var last := es[|es| - 1];
      LeReflexive(x.mig.version);
      if NotNewer(last, x) && NotNewer(x, last) {
        LeAntisymmetric(last.mig.version, x.mig.version);
      }
    }
  }

  /** The list searched holds the candidates, oldest versions first; equal versions keep their order. */
  lemma OrderedExact(modules: seq<GraphModule>)
    ensures var es, r := Candidates(modules), Ordered(modules);
            && multiset(r) == multiset(es)
            && (forall j, k :: 0 <= j < k < |r| ==> Le(r[j].mig.version, r[k].mig.version))
            && (forall v :: OfVersion(r, v) == OfVersion(es, v))
  {
    var es, r := Candidates(modules), Ordered(modules);
    NotNewerOrders();
    SortSorts(NotNewer, es);
    forall j, k | 0 <= j < k < |r| ensures Le(r[j].mig.version, r[k].mig.version) {
      assert NotNewer(r[j], r[k]);
    }
    forall v ensures OfVersion(r, v) == OfVersion(es, v) {
      var x := Entry("", Migration("", v, [], ""));
      TiesAreOfVersion(es, x);
      TiesAreOfVersion(r, x);
    }
  }

  // ---------------------------------------------------------------- current and target versions

  function NewestVersion(migs: seq<Migration>): (v: Option<string>)
    ensures v.None? <==> migs == []
    ensures v.Some? ==> exists k :: 0 <= k < |migs| && migs[k].version == v.value
    ensures v.Some? ==> forall k :: 0 <= k < |migs| ==> Le(migs[k].version, v.value)
  {
    if migs == [] then None
    else
      var front, last := migs[..|migs| - 1], migs[|migs| - 1].version;
      LeReflexive(last);
      match NewestVersion(front)
      case None => Some(last)
      case Some(w) =>
        if Le(w, last) then
          assert forall k :: 0 <= k < |front| ==> Le(migs[k].version, last) by {
            forall k | 0 <= k < |front| ensures Le(migs[k].version, last) {
              assert front[k] == migs[k];
              LeTransitive(migs[k].version, w, last);
            }
          }
          Some(last)
        else
          LeTotal(w, last);
          assert forall k :: 0 <= k < |front| ==> front[k] == migs[k];
          Some(w)
  }

  /** Name to current version; of modules with one name, the last one listed counts. */
  function CurrentVersions(modules: seq<GraphModule>): VersionMap {
    if modules == [] then map[]
    else
      var m := modules[|modules| - 1];
      var rest := CurrentVersions(modules[..|modules| - 1]);
      if m.curVersion.Some? then rest[m.name := m.curVersion.value] else rest
  }

  function TargetVersions(modules: seq<GraphModule>): VersionMap {
    if modules == [] then map[]
    else
      var m := modules[|modules| - 1];
      var rest := TargetVersions(modules[..|modules| - 1]);
      if m.migrations != [] then rest[m.name := NewestVersion(m.migrations).value] else rest
  }

  predicate DistinctNames(modules: seq<GraphModule>) {
    forall j, k :: 0 <= j < k < |modules| ==> modules[j].name != modules[k].name
  }

  /** With distinct module names, the starting point is every module's current version and the
      target is the newest version among all of a module's migrations. */
  lemma {:induction false} StartAndTargetExact(modules: seq<GraphModule>, i: nat)
    requires DistinctNames(modules) && i < |modules|
    ensures var m, cur, target := modules[i], CurrentVersions(modules), TargetVersions(modules);
            && m.curVersion == (if m.name in cur then Some(cur[m.name]) else None)
            && NewestVersion(m.migrations) == (if m.name in target then Some(target[m.name]) else None)
  {
    var front, last := modules[..|modules| - 1], modules[|modules| - 1];
    if i < |front| {
      assert DistinctNames(front) && front[i] == modules[i] && last.name != modules[i].name;
      StartAndTargetExact(front, i);
    } else {
      OnlyNamedModules(front, last.name);
    }
  }

  lemma {:induction false} OnlyNamedModules(modules: seq<GraphModule>, name: string)
    requires forall k :: 0 <= k < |modules| ==> modules[k].name != name
    ensures name !in CurrentVersions(modules) && name !in TargetVersions(modules)
  {
    if modules != [] {
      OnlyNamedModules(modules[..|modules| - 1], name);
    }
  }

  // ---------------------------------------------------------------- the solver

  datatype SolverError = DuplicateUuid

  function Ordered(modules: seq<GraphModule>): seq<Entry> {
    Sort(NotNewer, Candidates(modules))
  }

  /** What a caller may rely on: an error exactly for duplicate candidate UUIDs, `None` exactly when
      no valid plan exists, and otherwise the shortest valid plan, the first such plan in the
      lexicographic order of the version-sorted list. */
  ghost predicate Solves(modules: seq<GraphModule>, r: Result<Option<seq<Migration>>, SolverError>) {
    var all, target, cur := Ordered(modules), TargetVersions(modules), CurrentVersions(modules);
    match r
    case Err(_) => !DistinctUuids(Candidates(modules))
    case Ok(None) => DistinctUuids(Candidates(modules)) && IsBestPlan(all, target, cur, {}, None)
    case Ok(Some(plan)) =>
      && DistinctUuids(Candidates(modules))
      && exists best :: IsBestPlan(all, target, cur, {}, Some(best)) && plan == Migrations(all, best)
  }

  lemma SearchSolves(modules: seq<GraphModule>, solution: Option<seq<Migration>>, best: Option<seq<nat>>)
    requires DistinctUuids(Candidates(modules))
    requires IsBestPlan(Ordered(modules), TargetVersions(modules), CurrentVersions(modules), {}, best)
    requires solution == Improved(None, [], Ordered(modules), best)
    ensures Solves(modules, Ok(solution))
  {
    if best.Some? {
      assert [] + Migrations(Ordered(modules), best.value) == Migrations(Ordered(modules), best.value);
    }
  }

  method UuidsUnique(all: seq<Entry>) returns (unique: bool)
    ensures unique <==> DistinctUuids(all)
  {
    var uuids: set<string> := {};
    for i := 0 to |all|
      invariant forall u :: u in uuids <==> exists k :: 0 <= k < i && all[k].mig.uuid == u
      invariant forall j, k :: 0 <= j < k < i ==> all[j].mig.uuid != all[k].mig.uuid
    {
      if all[i].mig.uuid in uuids {
        return false;
      }
      uuids := uuids + {all[i].mig.uuid};
    }
    return true;
  }

  method SolveMigrationGraph(modules: seq<GraphModule>) returns (r: Result<Option<seq<Migration>>, SolverError>)
    requires modules != []
    ensures Solves(modules, r)
  {
    var cur: VersionMap, target: VersionMap := map[], map[];
    var candidates: seq<Entry> := [];
    for i := 0 to |modules|
      invariant cur == CurrentVersions(modules[..i]) && target == TargetVersions(modules[..i])
    {
      assert modules[..i + 1][..i] == modules[..i];
      if modules[i].curVersion.Some? {
        cur := cur[modules[i].name := modules[i].curVersion.value];
      }
      var newest := NewestVersion(modules[i].migrations);
      if newest.Some? {
        target := target[modules[i].name := newest.value];
      }
    }
    assert modules[..|modules|] == modules;

    var all := Candidates(modules);
    var unique := UuidsUnique(all);
    if !unique {
      return Err(DuplicateUuid);
    }

    all := Sort(NotNewer, all);
    var solution := DepthFirstSearch(all, target, cur, {}, [], None);
    SearchSolves(modules, solution, BestPlan(all, target, cur, {}));
    return Ok(solution);
  }

  ghost function PlanBehind(modules: seq<GraphModule>, r: Result<Option<seq<Migration>>, SolverError>)
    : (best: Option<seq<nat>>)
    requires Solves(modules, r) && r.Ok?
    ensures IsBestPlan(Ordered(modules), TargetVersions(modules), CurrentVersions(modules), {}, best)
    ensures r == Ok(if best.None? then None else Some(Migrations(Ordered(modules), best.value)))
  {
    if r.value.None? then None
    else
      var best :| IsBestPlan(Ordered(modules), TargetVersions(modules), CurrentVersions(modules), {}, Some(best))
                  && r.value.value == Migrations(Ordered(modules), best);
      Some(best)
  }

  /** There is one answer: it does not depend on the order in which a hash map is walked. */
  lemma AnswerUnique(modules: seq<GraphModule>, r: Result<Option<seq<Migration>>, SolverError>,
                     s: Result<Option<seq<Migration>>, SolverError>)
    requires Solves(modules, r) && Solves(modules, s)
    ensures r == s
  {
    if r.Ok? && s.Ok? {
      BestPlanUnique(Ordered(modules), TargetVersions(modules), CurrentVersions(modules), {},
                     PlanBehind(modules, r), PlanBehind(modules, s));
    } else {
      assert r.Err? && s.Err? ==> r.error.DuplicateUuid? && s.error.DuplicateUuid?;
    }
  }

  // ---------------------------------------------------------------- modules that are too new

  lemma {:induction false} NeverAdvanced(all: seq<Entry>, cur: VersionMap, plan: seq<nat>, name: string)
    requires InRange(all, plan) && forall k :: 0 <= k < |all| ==> all[k].owner != name
    ensures var v := VersionsAfter(all, cur, plan);
            (name in v <==> name in cur) && (name in v ==> v[name] == cur[name])
    decreases plan
  {
    if plan != [] {
      NeverAdvanced(all, Apply(cur, all[plan[0]]), plan[1..], name);
    }
  }

  predicate TooNew(m: GraphModule) {
    m.curVersion.Some? && m.migrations != [] && Lt(NewestVersion(m.migrations).value, m.curVersion.value)
  }

  lemma TooOld(m: GraphModule, mig: Migration)
    requires TooNew(m) && mig in m.migrations
    ensures !Lt(m.curVersion.value, mig.version)
  {
    var n :| 0 <= n < |m.migrations| && m.migrations[n] == mig;
    LeTransitive(mig.version, NewestVersion(m.migrations).value, m.curVersion.value);
    if Le(m.curVersion.value, mig.version) {
      LeAntisymmetric(mig.version, m.curVersion.value);
    }
  }

  lemma TooNewNeverMoves(modules: seq<GraphModule>, i: nat, k: nat)
    requires DistinctNames(modules) && i < |modules| && TooNew(modules[i]) && k < |Ordered(modules)|
    ensures Ordered(modules)[k].owner != modules[i].name
  {
    var e := Ordered(modules)[k];
    OrderedExact(modules);
    assert e in multiset(Ordered(modules));
    CandidatesExact(modules, e);
    var j :| 0 <= j < |modules| && AdvancesModule(modules[j], e);
    if j == i {
      TooOld(modules[i], e.mig);
    }
  }

  lemma TooNewNoPlan(modules: seq<GraphModule>, i: nat, plan: seq<nat>)
    requires DistinctNames(modules) && i < |modules| && TooNew(modules[i])
    ensures !IsPlan(Ordered(modules), TargetVersions(modules), CurrentVersions(modules), {}, plan)
  {
    var all, cur, target := Ordered(modules), CurrentVersions(modules), TargetVersions(modules);
    if InRange(all, plan) {
      forall k | 0 <= k < |all| ensures all[k].owner != modules[i].name {
        TooNewNeverMoves(modules, i, k);
      }
      NeverAdvanced(all, cur, plan, modules[i].name);
      StartAndTargetExact(modules, i);
      assert target[modules[i].name] != VersionsAfter(all, cur, plan)[modules[i].name];
    }
  }

  /** One module that is past the newest migration it lists makes the whole set unsolvable: the
      target is the newest listed version, not the newest version reached. */
  lemma TooNewUnsolvable(modules: seq<GraphModule>, i: nat, r: Result<Option<seq<Migration>>, SolverError>)
    requires DistinctNames(modules) && i < |modules| && TooNew(modules[i])
    requires Solves(modules, r) && r.Ok?
    ensures r == Ok(None)
  {
    var best := PlanBehind(modules, r);
    if best.Some? {
      TooNewNoPlan(modules, i, best.value);
    }
  }
}
