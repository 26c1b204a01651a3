/**
 * The build graph the generated rules make out of a plan: plain sources, and
 * one target per stage of every source on a cycle.  It has no cycles.
 */
module StagedBuild {
  import opened Graphs
  import opened TarjanState
  import opened Tarjan
  import opened BuildPlan

  /** `default_variant`: the shipping stage of a staged source, or the source itself. */
  ghost predicate ShipsAs(staged: seq<StageRecord>, src: Source, t: Target) {
    || (exists i :: 0 <= i < |staged| && staged[i].source == src && staged[i].ships && staged[i].target == t)
    || (t == Plain(src) && forall i :: 0 <= i < |staged| ==> !(staged[i].source == src && staged[i].ships))
  }

  /** `_variant_map`: what stage record `r` builds `d` against, when it builds against it at all. */
  ghost predicate StageUses(staged: seq<StageRecord>, r: StageRecord, d: Source, u: Target) {
    if d in r.cycleDeps then
      r.cycleDepsFrom.FromStage?
      && exists i :: 0 <= i < |staged| && staged[i].source == d && staged[i].stage == r.cycleDepsFrom.stage
                     && staged[i].target == u
    else
      ShipsAs(staged, d, u)
  }

  /** Target `t` is built against target `u`. */
  ghost predicate BuildsAgainst(g: Graph<Source>, plan: Plan, t: Target, u: Target) {
    match t
    case Plain(src) =>
      src in plan.order && exists d :: d in Succ(g, src) && d != src && ShipsAs(plan.staged, d, u)
    case Stage(_, _) =>
      exists i, d :: 0 <= i < |plan.staged| && plan.staged[i].target == t && d in Succ(g, plan.staged[i].source)
                     && d != plan.staged[i].source && StageUses(plan.staged, plan.staged[i], d, u)
  }

  /** The targets that get built: acyclic sources, and every recorded stage. */
  ghost predicate IsTarget(plan: Plan, t: Target) {
    match t
    case Plain(src) => src in plan.order
    case Stage(src, k) => Recorded(plan.staged, src, k)
  }

  // ── Stages ───────────────────────────────────────────────────────────

  /** A recorded stage, with the cycle it belongs to. */
  lemma RecordFacts(g: Graph<Source>, stages: int, plan: Plan, i: nat) returns (c: int)
    requires PlanOf(g, stages, plan) && i < |plan.staged|
    ensures InComponent(plan.cycles, c, plan.staged[i].source) && 1 <= plan.staged[i].stage <= stages
    ensures RecordOf(g, plan.cycles[c], stages, plan.staged[i].source, plan.staged[i].stage, plan.staged[i])
  {
    assert RecordInCycle(g, stages, plan.cycles, |plan.cycles|, plan.staged[i]);
    c :| c < |plan.cycles| && InComponent(plan.cycles, c, plan.staged[i].source)
         && RecordOf(g, plan.cycles[c], stages, plan.staged[i].source, plan.staged[i].stage, plan.staged[i]);
  }

  /** A source on a cycle has one record for each pass and no other, and the last pass is the one that ships. */
  lemma StagesOfCyclicSource(g: Graph<Source>, stages: int, plan: Plan, src: Source)
    requires PlanOf(g, stages, plan) && OnCycle(g, src)
    ensures forall k :: 1 <= k <= stages ==> Recorded(plan.staged, src, k)
    ensures forall i :: 0 <= i < |plan.staged| && plan.staged[i].source == src ==>
      && 1 <= plan.staged[i].stage <= stages && plan.staged[i].target == Stage(src, plan.staged[i].stage)
      && (plan.staged[i].ships <==> plan.staged[i].stage == stages)
    ensures forall i, j :: 0 <= i < j < |plan.staged| && plan.staged[i].source == src == plan.staged[j].source ==>
      plan.staged[i].stage != plan.staged[j].stage
  {
    assert Placed(plan.cycles, |plan.cycles|, src);
    var c :| c < |plan.cycles| && InComponent(plan.cycles, c, src);
    forall i | 0 <= i < |plan.staged| && plan.staged[i].source == src
      ensures 1 <= plan.staged[i].stage <= stages && plan.staged[i].target == Stage(src, plan.staged[i].stage)
      ensures plan.staged[i].ships <==> plan.staged[i].stage == stages
    {
      var _ := RecordFacts(g, stages, plan, i);
    }
  }

  /** A source off every cycle is not staged. */
  lemma AcyclicUnstaged(g: Graph<Source>, stages: int, plan: Plan, src: Source)
    requires PlanOf(g, stages, plan) && !OnCycle(g, src)
    ensures forall i :: 0 <= i < |plan.staged| ==> plan.staged[i].source != src
  {
    forall i | 0 <= i < |plan.staged| ensures plan.staged[i].source != src {
      var c := RecordFacts(g, stages, plan, i);
      assert Placed(plan.cycles, |plan.cycles|, plan.staged[i].source);
    }
  }

  /** What a source ships as: its last stage if it is on a cycle, itself otherwise. */
  lemma ShipsAsWhat(g: Graph<Source>, stages: int, plan: Plan, src: Source, t: Target)
    requires PlanOf(g, stages, plan)
    ensures ShipsAs(plan.staged, src, t) <==> t == if OnCycle(g, src) then Stage(src, stages) else Plain(src)
  {
    if OnCycle(g, src) {
      StagesOfCyclicSource(g, stages, plan, src);
      assert Recorded(plan.staged, src, stages);
      var i :| 0 <= i < |plan.staged| && plan.staged[i].target == Stage(src, stages);
      var c := RecordFacts(g, stages, plan, i);
      assert plan.staged[i].source == src && plan.staged[i].ships;
    } else {
      AcyclicUnstaged(g, stages, plan, src);
    }
  }

  // ── No cycles ────────────────────────────────────────────────────────

  function StageOf(t: Target): int {
    match t
    case Plain(_) => 0
    case Stage(_, k) => k
  }

  /** `u` comes strictly before `t`: further down the source graph, or an earlier stage in one cycle. */
  ghost predicate Before(g: Graph<Source>, u: Target, t: Target) {
    && Reaches(g, t.source, u.source)
    && (Reaches(g, u.source, t.source) ==> StageOf(u) < StageOf(t))
  }

  lemma BeforeTransitive(g: Graph<Source>, a: Target, b: Target, c: Target)
    requires Before(g, a, b) && Before(g, b, c)
    ensures Before(g, a, c)
  {
    ReachesTransitive(g, c.source, b.source, a.source);
    if Reaches(g, a.source, c.source) {
      ReachesTransitive(g, b.source, a.source, c.source);
      ReachesTransitive(g, a.source, c.source, b.source);
    }
  }

  lemma PlainEdge(g: Graph<Source>, stages: int, plan: Plan, src: Source, u: Target)
    requires PlanOf(g, stages, plan) && BuildsAgainst(g, plan, Plain(src), u)
    ensures Before(g, u, Plain(src)) && IsTarget(plan, u)
  {
    var d :| d in Succ(g, src) && d != src && ShipsAs(plan.staged, d, u);
    ShipsAsWhat(g, stages, plan, d, u);
    ReachesEdge(g, src, d);
    assert Reaches(g, d, src) ==> OnCycle(g, src);
    ShippedIsTarget(g, stages, plan, src, d, u);
  }

  lemma ShippedIsTarget(g: Graph<Source>, stages: int, plan: Plan, src: Source, d: Source, u: Target)
    requires PlanOf(g, stages, plan) && d in Succ(g, src) && ShipsAs(plan.staged, d, u)
    ensures IsTarget(plan, u)
  {
    ShipsAsWhat(g, stages, plan, d, u);
    if OnCycle(g, d) {
      StagesOfCyclicSource(g, stages, plan, d);
    } else {
      assert src in g && d in g[src];
      assert d in Nodes(g);
    }
  }

  lemma StageEdge(g: Graph<Source>, stages: int, plan: Plan, i: nat, d: Source, u: Target)
    requires PlanOf(g, stages, plan) && i < |plan.staged|
    requires d in Succ(g, plan.staged[i].source) && StageUses(plan.staged, plan.staged[i], d, u)
    ensures Before(g, u, plan.staged[i].target) && IsTarget(plan, u)
  {
    var r := plan.staged[i];
    var c := RecordFacts(g, stages, plan, i);
    ReachesEdge(g, r.source, d);
    assert InComponent(plan.cycles, c, d) <==> Reaches(g, r.source, d) && Reaches(g, d, r.source);
    if d in r.cycleDeps {
      var j :| 0 <= j < |plan.staged| && plan.staged[j].source == d && plan.staged[j].stage == r.cycleDepsFrom.stage
               && plan.staged[j].target == u;
      var c' := RecordFacts(g, stages, plan, j);
      assert u == Stage(d, r.stage - 1);
    } else {
      ShipsAsWhat(g, stages, plan, d, u);
      ShippedIsTarget(g, stages, plan, r.source, d, u);
    }
  }

  /** Every edge goes strictly down, and to a target that exists. */
  lemma EdgeGoesDown(g: Graph<Source>, stages: int, plan: Plan, t: Target, u: Target)
    requires PlanOf(g, stages, plan) && BuildsAgainst(g, plan, t, u)
    ensures Before(g, u, t) && IsTarget(plan, u)
  {
    match t {
      case Plain(src) => PlainEdge(g, stages, plan, src, u);
      case Stage(_, _) =>
        var i, d :| 0 <= i < |plan.staged| && plan.staged[i].target == t && d in Succ(g, plan.staged[i].source)
                    && d != plan.staged[i].source && StageUses(plan.staged, plan.staged[i], d, u);
        StageEdge(g, stages, plan, i, d, u);
    }
  }

  /** Past the first pass, an in-cycle dependency always has the earlier stage to be built against. */
  lemma EarlierStageExists(g: Graph<Source>, stages: int, plan: Plan, i: nat, d: Source)
    requires PlanOf(g, stages, plan) && i < |plan.staged| && d in plan.staged[i].cycleDeps && plan.staged[i].stage > 1
    ensures StageUses(plan.staged, plan.staged[i], d, Stage(d, plan.staged[i].stage - 1))
  {
    var r := plan.staged[i];
    var c := RecordFacts(g, stages, plan, i);
    assert InComponent(plan.cycles, c, d);
    assert Recorded(plan.staged, d, r.stage - 1);
    var j :| 0 <= j < |plan.staged| && plan.staged[j].target == Stage(d, r.stage - 1);
    var c' := RecordFacts(g, stages, plan, j);
    assert plan.staged[j].source == d && plan.staged[j].stage == r.stage - 1;
  }

  ghost predicate Chain(g: Graph<Source>, plan: Plan, chain: seq<Target>) {
    forall i :: 0 <= i < |chain| - 1 ==> BuildsAgainst(g, plan, chain[i], chain[i + 1])
  }

  lemma {:induction false} ChainGoesDown(g: Graph<Source>, stages: int, plan: Plan, chain: seq<Target>)
    requires PlanOf(g, stages, plan) && |chain| > 1 && Chain(g, plan, chain)
    ensures Before(g, chain[|chain| - 1], chain[0])
  {
    var n := |chain| - 1;
    assert BuildsAgainst(g, plan, chain[n - 1], chain[n - 1 + 1]);
    EdgeGoesDown(g, stages, plan, chain[n - 1], chain[n]);
    if n > 1 {
      var rest := chain[..n];
      forall i | 0 <= i < |rest| - 1 ensures BuildsAgainst(g, plan, rest[i], rest[i + 1]) {
        assert BuildsAgainst(g, plan, chain[i], chain[i + 1]);
      }
      ChainGoesDown(g, stages, plan, rest);
      BeforeTransitive(g, chain[n], rest[n - 1], chain[0]);
    }
  }

  /** The bootstrap is a DAG: following build dependencies never returns to where it started. */
  lemma StagedBuildIsAcyclic(g: Graph<Source>, stages: int, plan: Plan, chain: seq<Target>)
    requires PlanOf(g, stages, plan) && |chain| > 1 && Chain(g, plan, chain)
    ensures chain[0] != chain[|chain| - 1]
  {
    ChainGoesDown(g, stages, plan, chain);
    ReachesSelf(g, chain[0].source);
  }
}
