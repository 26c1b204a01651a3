/** Source-level build order, and the staged bootstrap that breaks its cycles. */
module BuildPlan {
  import opened Options
  import opened TextOrder
  import opened Graphs
  import opened TarjanState
  import opened Tarjan

  datatype Result<T> = Ok(value: T) | ValueError

  // ── Projection to source packages ────────────────────────────────────

  /** `routed.get(binary) or source_of.get(binary)`; an empty routed name is no route. */
  function DepSource(sourceOf: map<string, Source>, routes: map<Source, map<string, Source>>, src: Source,
                     binary: string): Option<Source>
  {
    if src in routes && binary in routes[src] && routes[src][binary] != "" then Some(routes[src][binary])
    else if binary in sourceOf then Some(sourceOf[binary])
    else None
  }

  /** `src` is built here, and one of its build dependencies comes from another source built here. */
  ghost predicate DependsOn(buildDeps: map<Source, set<string>>, sourceOf: map<string, Source>,
                            buildSet: set<Source>, routes: map<Source, map<string, Source>>, src: Source, dep: Source)
  {
    && src in buildSet && dep in buildSet && dep != src && src in buildDeps
    && exists b :: b in buildDeps[src] && DepSource(sourceOf, routes, src, b) == Some(dep)
  }

  /** The dependency is routed at this source: by a route that names something. */
  predicate Routed(routes: map<Source, map<string, Source>>, src: Source, b: string) {
    src in routes && b in routes[src] && routes[src][b] != ""
  }

  /** A route at the source decides where a dependency comes from; without one, the map of binaries to sources does. */
  lemma RoutesFirst(buildDeps: map<Source, set<string>>, sourceOf: map<string, Source>, buildSet: set<Source>,
                    routes: map<Source, map<string, Source>>, src: Source, dep: Source)
    ensures DependsOn(buildDeps, sourceOf, buildSet, routes, src, dep) <==>
      && src in buildSet && dep in buildSet && dep != src && src in buildDeps
      && exists b :: b in buildDeps[src]
           && if Routed(routes, src, b) then routes[src][b] == dep else b in sourceOf && sourceOf[b] == dep
  {
    if src in buildDeps {
      forall b | b in buildDeps[src]
        ensures DepSource(sourceOf, routes, src, b) == Some(dep)
          <==> if Routed(routes, src, b) then routes[src][b] == dep else b in sourceOf && sourceOf[b] == dep
      {
      }
    }
  }

  method ProjectToSourceGraph(buildDeps: map<Source, set<string>>, sourceOf: map<string, Source>,
                              buildSet: set<Source>, routes: map<Source, map<string, Source>>)
    returns (graph: Graph<Source>)
    ensures graph.Keys == buildSet
    ensures forall src, dep :: dep in Succ(graph, src) <==>
      DependsOn(buildDeps, sourceOf, buildSet, routes, src, dep)
  {
    graph := map src | src in buildSet :: {};
    var todo := buildDeps.Keys;
    while todo != {}
      invariant todo <= buildDeps.Keys && graph.Keys == buildSet
      invariant forall src, dep :: dep in Succ(graph, src) <==>
        src !in todo && DependsOn(buildDeps, sourceOf, buildSet, routes, src, dep)
      decreases todo
    {
      var src :| src in todo;
      todo := todo - {src};
      if src !in buildSet { continue; }
      var deps := ProjectOne(buildDeps[src], sourceOf, buildSet, routes, src);
      graph := graph[src := deps];
    }
  }

  /** The inner loop: one source's dependencies. */
  method ProjectOne(bins: set<string>, sourceOf: map<string, Source>, buildSet: set<Source>,
                    routes: map<Source, map<string, Source>>, src: Source) returns (deps: set<Source>)
    ensures forall dep :: dep in deps <==>
      dep in buildSet && dep != src && exists b :: b in bins && DepSource(sourceOf, routes, src, b) == Some(dep)
  {
    deps := {};
    var todo := bins;
    while todo != {}
      invariant todo <= bins
      invariant forall dep :: dep in deps <==>
        dep in buildSet && dep != src
        && exists b :: b in bins && b !in todo && DepSource(sourceOf, routes, src, b) == Some(dep)
      decreases todo
    {
      var b :| b in todo;
      todo := todo - {b};
      var depSrc := DepSource(sourceOf, routes, src, b);
      if depSrc.Some? && depSrc.value in buildSet && depSrc.value != src {
        deps := deps + {depSrc.value};
      }
    }
  }

  // ── Cycles and topological order ─────────────────────────────────────

  predicate HasSelfLoop(g: Graph<Source>, n: Source) {
    n in Succ(g, n)
  }

  /** A component of two or more, or one node depending on itself. */
  ghost predicate Cyclic(g: Graph<Source>, comp: seq<Source>) {
    comp != [] && (|comp| > 1 || HasSelfLoop(g, comp[0]))
  }

  /** A list of disjoint components, each a whole mutual-reachability class lying on a cycle. */
  ghost predicate CyclesOf(g: Graph<Source>, cycles: seq<seq<Source>>) {
    && (forall i :: 0 <= i < |cycles| ==> cycles[i] != [] && Ascending(cycles[i]))
    && (forall i, j, x :: InComponent(cycles, i, x) && InComponent(cycles, j, x) ==> i == j)
    && (forall x :: Placed(cycles, |cycles|, x) <==> OnCycle(g, x))
    && (forall i, x, y :: InComponent(cycles, i, x) ==>
          (InComponent(cycles, i, y) <==> Reaches(g, x, y) && Reaches(g, y, x)))
  }

  lemma OnCycleIsNode(g: Graph<Source>, x: Source)
    requires OnCycle(g, x)
    ensures x in Nodes(g)
  {
  }

  /** A node lies on a cycle exactly when its component is a cyclic one. */
  lemma CyclicIffOnCycle(g: Graph<Source>, comps: seq<seq<Source>>, i: int, x: Source)
    requires SccsOf(g, comps) && InComponent(comps, i, x)
    ensures Cyclic(g, comps[i]) <==> OnCycle(g, x)
  {
    var c := comps[i];
    assert Placed(comps, |comps|, x);
    if OnCycle(g, x) {
      var m :| m in Succ(g, x) && Reaches(g, m, x);
      ReachesEdge(g, x, m);
      SameComponentIffMutual(g, comps, x, m);
      var j :| InComponent(comps, j, x) && InComponent(comps, j, m);
      assert j == i;
      if |c| == 1 { assert x == c[0] && m == c[0]; }
    } else if |c| > 1 {
      var y := if c[0] == x then c[1] else c[0];
      assert Less(c[0], c[1]);
      LessIrreflexive(c[0]);
      assert InComponent(comps, i, y) && Reaches(g, x, y) && Reaches(g, y, x);
      MutualIsOnCycle(g, x, y);
    } else if HasSelfLoop(g, c[0]) {
      ReachesSelf(g, x);
    }
  }

  lemma MutualIsOnCycle(g: Graph<Source>, x: Source, y: Source)
    requires x != y && Reaches(g, x, y) && Reaches(g, y, x)
    ensures OnCycle(g, x)
  {
    var p :| PathBetween(g, p, x, y);
    assert |p| > 1;
    var q := p[1..];
    forall i | 0 <= i < |q| - 1 ensures q[i + 1] in Succ(g, q[i]) {
      assert p[i + 1 + 1] in Succ(g, p[i + 1]);
    }
    assert PathBetween(g, q, p[1], y);
    ReachesTransitive(g, p[1], y, x);
    assert p[0 + 1] in Succ(g, p[0]);
  }

  method FindCycles(g: Graph<Source>) returns (cycles: seq<seq<Source>>)
    ensures CyclesOf(g, cycles)
  {
    var comps := StronglyConnectedComponents(g);
    cycles := [];
    ghost var from: seq<int> := [];
    for i := 0 to |comps|
      invariant |from| == |cycles|
      invariant forall k :: 0 <= k < |cycles| ==> 0 <= from[k] < i && cycles[k] == comps[from[k]]
      invariant forall k, l :: 0 <= k < l < |cycles| ==> from[k] < from[l]
      invariant forall k :: 0 <= k < i ==> (Cyclic(g, comps[k]) <==> k in from)
    {
      var comp := comps[i];
      if |comp| > 1 || HasSelfLoop(g, comp[0]) {
        cycles := cycles + [comp];
        from := from + [i];
      }
    }
    CyclicSubsequence(g, comps, cycles, from);
  }

  /** The cyclic components alone still name every node on a cycle, each with its whole class. */
  lemma CyclicSubsequence(g: Graph<Source>, comps: seq<seq<Source>>, cycles: seq<seq<Source>>, from: seq<int>)
    requires SccsOf(g, comps) && |from| == |cycles|
    requires forall k :: 0 <= k < |cycles| ==> 0 <= from[k] < |comps| && cycles[k] == comps[from[k]]
    requires forall k, l :: 0 <= k < l < |cycles| ==> from[k] < from[l]
    requires forall k :: 0 <= k < |comps| ==> (Cyclic(g, comps[k]) <==> k in from)
    ensures CyclesOf(g, cycles)
  {
    forall i, j, x | InComponent(cycles, i, x) && InComponent(cycles, j, x) ensures i == j {
      assert InComponent(comps, from[i], x) && InComponent(comps, from[j], x);
    }
    forall x ensures Placed(cycles, |cycles|, x) <==> OnCycle(g, x) {
      if Placed(cycles, |cycles|, x) {
        var i :| i < |cycles| && InComponent(cycles, i, x);
        assert InComponent(comps, from[i], x) && from[i] in from;
        CyclicIffOnCycle(g, comps, from[i], x);
      }
      if OnCycle(g, x) {
        OnCycleIsNode(g, x);
        assert Placed(comps, |comps|, x);
        var i :| i < |comps| && InComponent(comps, i, x);
        CyclicIffOnCycle(g, comps, i, x);
        var k :| 0 <= k < |from| && from[k] == i;
        assert InComponent(cycles, k, x);
      }
    }
    forall i, x, y | InComponent(cycles, i, x)
      ensures InComponent(cycles, i, y) <==> Reaches(g, x, y) && Reaches(g, y, x)
    {
      assert InComponent(comps, from[i], x);
      assert InComponent(comps, from[i], y) <==> InComponent(cycles, i, y);
      if Reaches(g, x, y) && Reaches(g, y, x) {
        EarlierComponentsClosed(g, comps, from[i], x, y);
        var j :| j < from[i] + 1 && InComponent(comps, j, y);
        EarlierComponentsClosed(g, comps, j, y, x);
        var l :| l < j + 1 && InComponent(comps, l, x);
        assert l == from[i];
      }
    }
  }

  /** Every node once, and nothing before something it depends on unless the two are in one cycle. */
  ghost predicate TopologicalOrderOf(g: Graph<Source>, order: seq<Source>) {
    && (forall n :: n in order <==> n in Nodes(g))
    && (forall i, j :: 0 <= i < j < |order| ==> order[i] != order[j])
    && (forall i, j :: 0 <= i < j < |order| && Reaches(g, order[i], order[j]) ==> Reaches(g, order[j], order[i]))
  }

  /** The first `k` components, laid end to end in `order`. */
  ghost predicate Flattens(comps: seq<seq<Source>>, k: int, order: seq<Source>, from: seq<int>) {
    && |from| == |order|
    && (forall n :: n in order <==> Placed(comps, k, n))
    && (forall i :: 0 <= i < |order| ==> from[i] < k && InComponent(comps, from[i], order[i]))
    && (forall i, j :: 0 <= i < j < |order| ==> from[i] <= from[j] && order[i] != order[j])
  }

  lemma FlattenOne(comps: seq<seq<Source>>, k: nat, order: seq<Source>, from: seq<int>)
    requires k < |comps| && Ascending(comps[k]) && Flattens(comps, k, order, from)
    requires forall i, j, x :: InComponent(comps, i, x) && InComponent(comps, j, x) ==> i == j
    ensures Flattens(comps, k + 1, order + comps[k], from + seq(|comps[k]|, _ => k))
  {
    var o, f := order + comps[k], from + seq(|comps[k]|, _ => k);
    forall n ensures n in o <==> Placed(comps, k + 1, n) {
      assert n in order <==> Placed(comps, k, n);
      if n in comps[k] { assert InComponent(comps, k, n); }
      if Placed(comps, k, n) {
        var i :| i < k && InComponent(comps, i, n);
        assert i < k + 1;
      }
    }
    forall i | 0 <= i < |o| ensures f[i] < k + 1 && InComponent(comps, f[i], o[i]) {
      if i >= |order| { assert o[i] == comps[k][i - |order|]; }
    }
    forall i, j | 0 <= i < j < |o| ensures f[i] <= f[j] && o[i] != o[j] {
      if j < |order| {
        assert order[i] != order[j];
      } else if i < |order| {
        assert InComponent(comps, f[i], o[i]) && InComponent(comps, k, o[j]);
      } else {
        assert Less(comps[k][i - |order|], comps[k][j - |order|]);
        LessIrreflexive(o[i]);
      }
    }
  }

  lemma FlattenedIsTopological(g: Graph<Source>, comps: seq<seq<Source>>, order: seq<Source>, from: seq<int>)
    requires SccsOf(g, comps) && Flattens(comps, |comps|, order, from)
    ensures TopologicalOrderOf(g, order)
  {
    forall i, j | 0 <= i < j < |order| && Reaches(g, order[i], order[j]) ensures Reaches(g, order[j], order[i]) {
      EarlierComponentsClosed(g, comps, from[i], order[i], order[j]);
      var l :| l < from[i] + 1 && InComponent(comps, l, order[j]);
      assert l == from[j];
    }
  }

  method TopologicalOrder(g: Graph<Source>) returns (order: seq<Source>)
    ensures TopologicalOrderOf(g, order)
  {
    var comps := StronglyConnectedComponents(g);
    order := [];
    ghost var from: seq<int> := [];
    for i := 0 to |comps|
      invariant Flattens(comps, i, order, from)
    {
      FlattenOne(comps, i, order, from);
      order := order + comps[i];
      from := from + seq(|comps[i]|, _ => i);
    }
    FlattenedIsTopological(g, comps, order, from);
  }

  // ── Staging ──────────────────────────────────────────────────────────

  /** What a build target is named by: a plain source, or one stage of a staged one. */
  datatype Target = Plain(source: Source) | Stage(source: Source, stage: int)

  /** Where a stage takes its in-cycle dependencies from. */
  datatype CycleDepsFrom = Seed | FromStage(stage: int)

  datatype StageRecord = StageRecord(
    source: Source,
    stage: int,
    target: Target,
    cycleDepsFrom: CycleDepsFrom,
    cycleDeps: seq<Source>,
    ships: bool)

  /** `r` is the record of pass `k` over `pkg` in a cycle with these members. */
  ghost predicate RecordOf(g: Graph<Source>, members: seq<Source>, stages: int, pkg: Source, k: int, r: StageRecord) {
    && r.source == pkg && r.stage == k && r.target == Stage(pkg, k)
    && r.cycleDepsFrom == (if k == 1 then Seed else FromStage(k - 1))
    && Ascending(r.cycleDeps) && (forall d :: d in r.cycleDeps <==> d in Succ(g, pkg) && d in members)
    && r.ships == (k == stages)
  }

  /** Exactly one record per member and pass, passes in order. */
  ghost predicate StagesOf(g: Graph<Source>, members: seq<Source>, stages: int, plan: seq<StageRecord>) {
    && (forall i :: 0 <= i < |plan| ==> plan[i].source in members && 1 <= plan[i].stage <= stages
                                        && RecordOf(g, members, stages, plan[i].source, plan[i].stage, plan[i]))
    && (forall pkg, k :: pkg in members && 1 <= k <= stages ==> Recorded(plan, pkg, k))
    && (forall i, j :: 0 <= i < j < |plan| ==> plan[i].target != plan[j].target)
    && (forall i, j :: 0 <= i < j < |plan| ==> plan[i].stage <= plan[j].stage)
  }

  ghost predicate Recorded(plan: seq<StageRecord>, pkg: Source, k: int) {
    exists i :: 0 <= i < |plan| && plan[i].target == Stage(pkg, k)
  }

  method InCycleDeps(g: Graph<Source>, members: seq<Source>, pkg: Source) returns (deps: seq<Source>)
    ensures Ascending(deps) && forall d :: d in deps <==> d in Succ(g, pkg) && d in members
  {
    deps := SortSet(set d | d in Succ(g, pkg) && d in members);
  }

  method StageCycle(component: seq<Source>, g: Graph<Source>, stages: int) returns (r: Result<seq<StageRecord>>)
    ensures r.ValueError? <==> stages < 1
    ensures r.Ok? ==> StagesOf(g, component, stages, r.value)
  {
    if stages < 1 { return ValueError; }
    var members := Sorted(component);
    SortedAscending(component);
    var plan: seq<StageRecord> := [];
    for stage := 1 to stages + 1
      invariant PassesDone(g, component, members, stages, stage, 0, plan)
    {
      for m := 0 to |members|
        invariant PassesDone(g, component, members, stages, stage, m, plan)
      {
        var deps := InCycleDeps(g, component, members[m]);
        var rec := StageRecord(members[m], stage, Stage(members[m], stage),
                               if stage == 1 then Seed else FromStage(stage - 1), deps, stage == stages);
        PassExtends(g, component, members, stages, stage, m, plan, rec);
        plan := plan + [rec];
      }
      NextPass(g, component, members, stages, stage, plan);
    }
    forall pkg, k | pkg in component && 1 <= k <= stages ensures Recorded(plan, pkg, k) {
      var m :| 0 <= m < |members| && members[m] == pkg;
      assert Recorded(plan, members[m], k);
    }
    return Ok(plan);
  }

  /** Passes before `stage` are recorded in full, and in `stage` the first `m` members. */
  ghost predicate PassesDone(g: Graph<Source>, component: seq<Source>, members: seq<Source>, stages: int, stage: int,
                             m: int, plan: seq<StageRecord>)
  {
    && (forall i :: 0 <= i < |plan| ==>
          plan[i].source in component && 1 <= plan[i].stage <= stages && plan[i].stage <= stage
          && RecordOf(g, component, stages, plan[i].source, plan[i].stage, plan[i]))
    && (forall l, k :: 0 <= l < |members| && 1 <= k && (k < stage || (k == stage && l < m)) ==>
          Recorded(plan, members[l], k))
    && (forall l :: 0 <= l < |members| && m <= l ==> !Recorded(plan, members[l], stage))
    && (forall i, j :: 0 <= i < j < |plan| ==> plan[i].target != plan[j].target)
    && (forall i, j :: 0 <= i < j < |plan| ==> plan[i].stage <= plan[j].stage)
  }

  lemma PassExtends(g: Graph<Source>, component: seq<Source>, members: seq<Source>, stages: int, stage: int, m: int,
                    plan: seq<StageRecord>, r: StageRecord)
    requires PassesDone(g, component, members, stages, stage, m, plan)
    requires 0 <= m < |members| && 1 <= stage <= stages && Ascending(members) && members[m] in component
    requires RecordOf(g, component, stages, members[m], stage, r)
    ensures PassesDone(g, component, members, stages, stage, m + 1, plan + [r])
  {
    var p := plan + [r];
    forall l, k | 0 <= l < |members| && 1 <= k && (k < stage || (k == stage && l < m + 1))
      ensures Recorded(p, members[l], k)
    {
      if k < stage || l < m {
        assert Recorded(plan, members[l], k);
        var i :| 0 <= i < |plan| && plan[i].target == Stage(members[l], k);
        assert p[i].target == Stage(members[l], k);
      } else {
        assert p[|plan|].target == Stage(members[l], k);
      }
    }
    forall l | m + 1 <= l < |members| ensures !Recorded(p, members[l], stage) {
      assert !Recorded(plan, members[l], stage);
      assert Less(members[m], members[l]);
      LessIrreflexive(members[m]);
    }
    forall i | 0 <= i < |plan| ensures plan[i].target != r.target {
      assert !Recorded(plan, members[m], stage);
    }
  }

  lemma NextPass(g: Graph<Source>, component: seq<Source>, members: seq<Source>, stages: int, stage: int,
                 plan: seq<StageRecord>)
    requires PassesDone(g, component, members, stages, stage, |members|, plan)
    ensures PassesDone(g, component, members, stages, stage + 1, 0, plan)
  {
    assert forall i :: 0 <= i < |plan| ==> plan[i].target == Stage(plan[i].source, plan[i].stage);
  }

  // ── The whole plan ───────────────────────────────────────────────────

  datatype Plan = Plan(order: seq<Source>, cycles: seq<seq<Source>>, staged: seq<StageRecord>, acyclic: bool)

  /** A plan made for `g`: the three parts agree with the graph and with each other. */
  ghost predicate PlanOf(g: Graph<Source>, stages: int, plan: Plan) {
    && CyclesOf(g, plan.cycles) && (plan.cycles != [] ==> stages >= 1)
    && (forall n :: n in plan.order <==> n in Nodes(g) && !OnCycle(g, n))
    && (forall i, j :: 0 <= i < j < |plan.order| ==>
          plan.order[i] != plan.order[j] && !Reaches(g, plan.order[i], plan.order[j]))
    && StagedOf(g, stages, plan.cycles, |plan.cycles|, plan.staged)
    && (plan.acyclic <==> forall n :: !OnCycle(g, n))
  }

  /** `staged` is the stage lists of the first `n` cycles, one after the other. */
  ghost predicate StagedOf(g: Graph<Source>, stages: int, cycles: seq<seq<Source>>, n: int, staged: seq<StageRecord>) {
    && (forall i :: 0 <= i < |staged| ==> RecordInCycle(g, stages, cycles, n, staged[i]))
    && (forall c, pkg, k :: c < n && InComponent(cycles, c, pkg) && 1 <= k <= stages ==> Recorded(staged, pkg, k))
    && (forall i, j :: 0 <= i < j < |staged| ==> staged[i].target != staged[j].target)
  }

  ghost predicate RecordInCycle(g: Graph<Source>, stages: int, cycles: seq<seq<Source>>, n: int, r: StageRecord) {
    exists c :: c < n && InComponent(cycles, c, r.source) && 1 <= r.stage <= stages
                && RecordOf(g, cycles[c], stages, r.source, r.stage, r)
  }

  lemma StagedExtends(g: Graph<Source>, stages: int, cycles: seq<seq<Source>>, n: nat, staged: seq<StageRecord>,
                      more: seq<StageRecord>)
    requires n < |cycles| && CyclesOf(g, cycles)
    requires StagedOf(g, stages, cycles, n, staged) && StagesOf(g, cycles[n], stages, more)
    ensures StagedOf(g, stages, cycles, n + 1, staged + more)
  {
    var s := staged + more;
    forall i | 0 <= i < |s| ensures RecordInCycle(g, stages, cycles, n + 1, s[i]) {
      if i < |staged| {
        assert RecordInCycle(g, stages, cycles, n, staged[i]);
      } else {
        assert s[i] == more[i - |staged|];
        assert InComponent(cycles, n, s[i].source);
      }
    }
    forall c, pkg, k | c < n + 1 && InComponent(cycles, c, pkg) && 1 <= k <= stages ensures Recorded(s, pkg, k) {
      if c < n {
        assert Recorded(staged, pkg, k);
        var i :| 0 <= i < |staged| && staged[i].target == Stage(pkg, k);
        assert s[i].target == Stage(pkg, k);
      } else {
        assert Recorded(more, pkg, k);
        var i :| 0 <= i < |more| && more[i].target == Stage(pkg, k);
        assert s[|staged| + i].target == Stage(pkg, k);
      }
    }
    forall i, j | 0 <= i < j < |s| ensures s[i].target != s[j].target {
      if i < |staged| && j >= |staged| {
        assert RecordInCycle(g, stages, cycles, n, staged[i]) && s[j] == more[j - |staged|];
        var c :| c < n && InComponent(cycles, c, staged[i].source)
                 && RecordOf(g, cycles[c], stages, staged[i].source, staged[i].stage, staged[i]);
        assert InComponent(cycles, n, s[j].source);
      } else if i >= |staged| {
        assert more[i - |staged|].target != more[j - |staged|].target;
      }
    }
  }

  /** The acyclic packages of a topological order, in that order. */
  lemma FilteredOrder(g: Graph<Source>, order: seq<Source>, kept: seq<Source>, from: seq<int>)
    requires TopologicalOrderOf(g, order) && |from| == |kept|
    requires forall i :: 0 <= i < |kept| ==> 0 <= from[i] < |order| && kept[i] == order[from[i]] && !OnCycle(g, kept[i])
    requires forall i, j :: 0 <= i < j < |kept| ==> from[i] < from[j]
    ensures forall i, j :: 0 <= i < j < |kept| ==> kept[i] != kept[j] && !Reaches(g, kept[i], kept[j])
  {
    forall i, j | 0 <= i < j < |kept| ensures kept[i] != kept[j] && !Reaches(g, kept[i], kept[j]) {
      assert order[from[i]] != order[from[j]];
      if Reaches(g, kept[i], kept[j]) {
        MutualIsOnCycle(g, kept[i], kept[j]);
      }
    }
  }

  /** `[p for p in topological_order(graph) if p not in cyclic]` */
  method AcyclicOrder(g: Graph<Source>, cycles: seq<seq<Source>>) returns (kept: seq<Source>)
    requires CyclesOf(g, cycles)
    ensures forall n :: n in kept <==> n in Nodes(g) && !OnCycle(g, n)
    ensures forall i, j :: 0 <= i < j < |kept| ==> kept[i] != kept[j] && !Reaches(g, kept[i], kept[j])
  {
    var cyclic := set comp, pkg | comp in cycles && pkg in comp :: pkg;
    forall n ensures n in cyclic <==> OnCycle(g, n) {
      assert Placed(cycles, |cycles|, n) <==> OnCycle(g, n);
      if n in cyclic {
        var i :| 0 <= i < |cycles| && n in cycles[i];
        assert InComponent(cycles, i, n);
      }
    }
    var order := TopologicalOrder(g);
    kept := [];
    ghost var from: seq<int> := [];
    for i := 0 to |order|
      invariant |from| == |kept|
      invariant forall k :: 0 <= k < |kept| ==> 0 <= from[k] < i && kept[k] == order[from[k]] && !OnCycle(g, kept[k])
      invariant forall k, l :: 0 <= k < l < |kept| ==> from[k] < from[l]
      invariant forall n :: n in order[..i] && !OnCycle(g, n) ==> n in kept
    {
      assert order[..i + 1] == order[..i] + [order[i]];
      if order[i] !in cyclic {
        kept := kept + [order[i]];
        from := from + [i];
      }
    }
    assert order[..|order|] == order;
    FilteredOrder(g, order, kept, from);
  }

  method PlanGraph(g: Graph<Source>, stages: int) returns (r: Result<Plan>)
    ensures r.ValueError? <==> stages < 1 && exists n :: OnCycle(g, n)
    ensures r.Ok? ==> PlanOf(g, stages, r.value)
  {
    var cycles := FindCycles(g);
    forall n | OnCycle(g, n) ensures cycles != [] { assert Placed(cycles, |cycles|, n); }
    if cycles != [] {
      assert InComponent(cycles, 0, cycles[0][0]) && Placed(cycles, |cycles|, cycles[0][0]);
    }
    var staged: seq<StageRecord> := [];
    for i := 0 to |cycles|
      invariant i > 0 ==> stages >= 1
      invariant StagedOf(g, stages, cycles, i, staged)
    {
      var more := StageCycle(cycles[i], g, stages);
      if more.ValueError? { return ValueError; }
      StagedExtends(g, stages, cycles, i, staged, more.value);
      staged := staged + more.value;
    }
    var order := AcyclicOrder(g, cycles);
    return Ok(Plan(order, cycles, staged, cycles == []));
  }

  method PlanBuildOrder(buildDeps: map<Source, set<string>>, sourceOf: map<string, Source>, buildSet: set<Source>,
                        stages: int, routes: map<Source, map<string, Source>>)
    returns (r: Result<Plan>, ghost graph: Graph<Source>)
    ensures forall src, dep :: dep in Succ(graph, src) <==>
      DependsOn(buildDeps, sourceOf, buildSet, routes, src, dep)
    ensures Nodes(graph) == buildSet
    ensures r.ValueError? <==> stages < 1 && exists n :: OnCycle(graph, n)
    ensures r.Ok? ==> PlanOf(graph, stages, r.value)
  {
    var g := ProjectToSourceGraph(buildDeps, sourceOf, buildSet, routes);
    graph := g;
    assert forall m, n :: m in g && n in g[m] ==> n in Succ(g, m);
    r := PlanGraph(g, stages);
  }
}
