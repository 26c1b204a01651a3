/** Strongly connected components, by the iterative form of Tarjan's algorithm. */
module Tarjan {
  import opened TextOrder
  import opened Graphs
  import opened TarjanState

  type Source = string

  // ── What the answer means ────────────────────────────────────────────

  /** The components partition the graph's nodes by mutual reachability, dependencies first. */
  ghost predicate SccsOf(g: Graph<Source>, comps: seq<seq<Source>>) {
    && ComponentsOk(g, comps)
    && (forall i :: 0 <= i < |comps| ==> Ascending(comps[i]))
    && (forall n :: n in Nodes(g) <==> Placed(comps, |comps|, n))
  }

  /** Nodes of the first `k` components: a set no dependency leads out of. */
  lemma EarlierComponentsClosed(g: Graph<Source>, comps: seq<seq<Source>>, i: int, x: Source, y: Source)
    requires SccsOf(g, comps) && InComponent(comps, i, x) && Reaches(g, x, y)
    ensures Placed(comps, i + 1, y)
  {
    var below := set n | n in Nodes(g) && Placed(comps, i + 1, n);
    forall a, b | a in below && b in Succ(g, a) ensures b in below {
      var j :| j < i + 1 && InComponent(comps, j, a);
      assert Placed(comps, j + 1, b);
      var l :| l < j + 1 && InComponent(comps, l, b);
      assert Placed(comps, |comps|, b) && Placed(comps, i + 1, b);
    }
    assert Placed(comps, i + 1, x) && Placed(comps, |comps|, x);
    ClosedUnderReach(g, below, x, y);
  }

  /** Two nodes share a component exactly when each reaches the other. */
  lemma SameComponentIffMutual(g: Graph<Source>, comps: seq<seq<Source>>, x: Source, y: Source)
    requires SccsOf(g, comps) && x in Nodes(g) && y in Nodes(g)
    ensures (exists i :: InComponent(comps, i, x) && InComponent(comps, i, y))
       <==> Reaches(g, x, y) && Reaches(g, y, x)
  {
    if Reaches(g, x, y) && Reaches(g, y, x) {
      assert Placed(comps, |comps|, x);
      var i :| i < |comps| && InComponent(comps, i, x);
      EarlierComponentsClosed(g, comps, i, x, y);
      var j :| j < i + 1 && InComponent(comps, j, y);
      EarlierComponentsClosed(g, comps, j, y, x);
      var l :| l < j + 1 && InComponent(comps, l, x);
      assert l == i;
    }
  }

  // ── The algorithm ────────────────────────────────────────────────────

  /** Pop the stack down to and including `node`. */
  method PopComponent(stack0: seq<Source>, onStack0: map<Source, bool>, node: Source, ghost p: nat)
    returns (stack: seq<Source>, onStack: map<Source, bool>, component: seq<Source>)
    requires p < |stack0| && stack0[p] == node && forall i :: p < i < |stack0| ==> stack0[i] != node
    requires forall x :: x in stack0 ==> x in onStack0
    ensures stack == stack0[..p]
    ensures forall x :: x in component <==> x in stack0[p..]
    ensures onStack.Keys == onStack0.Keys
    ensures forall x :: x in onStack ==> onStack[x] == (onStack0[x] && x !in stack0[p..])
  {
    stack, onStack, component := stack0, onStack0, [];
    while true
      invariant p < |stack| <= |stack0| && stack == stack0[..|stack|]
      invariant forall x :: x in component <==> x in stack0[|stack|..]
      invariant onStack.Keys == onStack0.Keys
      invariant forall x :: x in onStack ==> onStack[x] == (onStack0[x] && x !in stack0[|stack|..])
      decreases |stack|
    {
      var w := stack[|stack| - 1];
      assert stack0[|stack| - 1..] == [w] + stack0[|stack|..];
      assert w in stack0;
      stack := stack[..|stack| - 1];
      onStack := onStack[w := false];
      component := component + [w];
      if w == node { break; }
    }
  }

  /** Where a node of the stack sits, and that the part above it is the part with later indices. */
  lemma StackSplit(s: State<Source>, v: Source) returns (p: nat)
    requires StackOk(s) && On(s, v)
    ensures p < |s.stack| && s.stack[p] == v && forall i :: p < i < |s.stack| ==> s.stack[i] != v
    ensures forall x :: x in s.stack[p..] <==> x in s.stack && x in s.indexOf && s.indexOf[v] <= s.indexOf[x]
    ensures forall x :: x in s.stack[..p] <==> x in s.stack && x in s.indexOf && s.indexOf[x] < s.indexOf[v]
  {
    assert v in s.stack;
    p :| 0 <= p < |s.stack| && s.stack[p] == v;
    forall i | 0 <= i < |s.stack|
      ensures s.stack[i] in s.indexOf && (p <= i <==> s.indexOf[v] <= s.indexOf[s.stack[i]])
    {
      assert s.stack[i] in s.stack;
    }
  }

  /** Before the first root. */
  lemma FreshInv(g: Graph<Source>)
    ensures Inv(g, State(map[], map[], map[], [], [], [], 0, map[]))
  {
  }

  /** A node some key depends on stands in a component if every key does. */
  lemma NodePlaced(g: Graph<Source>, s: State<Source>, n: Source)
    requires Inv(g, s) && n in Nodes(g)
    requires forall k :: k in g ==> Placed(s.result, |s.result|, k)
    ensures Placed(s.result, |s.result|, n)
  {
    if n !in g {
      var k :| k in g && n in g[k];
      assert Placed(s.result, |s.result|, k);
      var i :| i < |s.result| && InComponent(s.result, i, k);
      assert Placed(s.result, i + 1, n);
      var j :| j < i + 1 && InComponent(s.result, j, n);
    }
  }

  /** Once every key has been visited and no work is open, the components are the answer. */
  lemma Finished(g: Graph<Source>, s: State<Source>)
    requires Inv(g, s) && s.work == [] && g.Keys <= s.indexOf.Keys
    requires forall i :: 0 <= i < |s.result| ==> Ascending(s.result[i])
    ensures SccsOf(g, s.result)
  {
    IdleStack(g, s);
    forall n | n in s.indexOf ensures Placed(s.result, |s.result|, n) {
      assert !On(s, n) && Done(s, n);
    }
    forall n | n in Nodes(g) ensures Placed(s.result, |s.result|, n) {
      NodePlaced(g, s, n);
    }
    forall n | Placed(s.result, |s.result|, n) ensures n in Nodes(g) {
      var i :| i < |s.result| && InComponent(s.result, i, n);
      assert Done(s, n);
    }
  }

  lemma ParentIsOther(g: Graph<Source>, s: State<Source>)
    requires WorkOk(g, s) && s.work != []
    ensures |s.work| > 1 ==> s.work[|s.work| - 2].node != s.work[|s.work| - 1].node
  {
    if |s.work| > 1 {
      assert FrameOk(g, s, s.work[|s.work| - 2]) && FrameOk(g, s, s.work[|s.work| - 1]);
    }
  }

  lemma LowAtMostIndex(g: Graph<Source>, s: State<Source>)
    requires LowReal(g, s) && s.work != []
    ensures var v := s.work[|s.work| - 1].node; v in s.low && v in s.indexOf && s.low[v] <= s.indexOf[v]
  {
  }

  /** Cutting the stack at a node keeps the stack and its flags in step. */
  lemma TakeStack(s: State<Source>, t: State<Source>, p: nat)
    requires StackOk(s) && p < |s.stack| && t.stack == s.stack[..p] && t.indexOf == s.indexOf
    requires t.onStack.Keys == s.onStack.Keys
    requires forall x :: x in t.onStack ==> t.onStack[x] == (s.onStack[x] && x !in s.stack[p..])
    requires forall x :: !(x in s.stack[..p] && x in s.stack[p..])
    ensures StackOk(t)
  {
    forall n ensures On(t, n) <==> n in t.stack {
      assert On(s, n) <==> n in s.stack;
      assert s.stack == s.stack[..p] + s.stack[p..];
    }
  }

  /** The loop's local variables. */
  datatype Machine = Machine(
    indexOf: map<Source, nat>,
    low: map<Source, nat>,
    onStack: map<Source, bool>,
    stack: seq<Source>,
    work: seq<Frame<Source>>,
    result: seq<seq<Source>>,
    counter: nat)

  ghost function Full(m: Machine, scanned: map<Source, set<Source>>): State<Source> {
    State(m.indexOf, m.low, m.onStack, m.stack, m.work, m.result, m.counter, scanned)
  }

  ghost predicate Ok(g: Graph<Source>, m: Machine, scanned: map<Source, set<Source>>) {
    Inv(g, Full(m, scanned)) && forall i :: 0 <= i < |m.result| ==> Ascending(m.result[i])
  }

  /** Give `c` an index, push it on the stack and open a work item for it. */
  function Enter(m: Machine, c: Source, nbrs: seq<Source>): Machine {
    Machine(m.indexOf[c := m.counter], m.low[c := m.counter], m.onStack[c := true], m.stack + [c],
            m.work + [Frame(c, nbrs, 0)], m.result, m.counter + 1)
  }

  /** Consume one neighbour of the innermost work item; `advanced` if it opened a new one. */
  method TakeNeighbour(g: Graph<Source>, m0: Machine, ghost scanned0: map<Source, set<Source>>)
    returns (m: Machine, advanced: bool, ghost scanned: map<Source, set<Source>>)
    requires Ok(g, m0, scanned0) && m0.work != []
    requires var f := m0.work[|m0.work| - 1]; f.next < |f.nbrs|
    ensures Ok(g, m, scanned) && m.work != []
    ensures advanced ==> m0.indexOf.Keys < m.indexOf.Keys
    ensures !advanced ==> m.indexOf == m0.indexOf && m.work == Advance(m0.work)
  {
    var f := m0.work[|m0.work| - 1];
    var nxt := f.nbrs[f.next];
    ghost var s := Full(m0, scanned0);
    assert FrameOk(g, s, f);
    m := m0.(work := Advance(m0.work));
    scanned := Mark(s, nxt);
    if nxt !in m.indexOf {
      var nbrs := SortSet(Succ(g, nxt));
      m := Enter(m, nxt, nbrs);
      scanned := scanned[nxt := {}];
      advanced := true;
      assert Full(m, scanned) == Open(s, Advance(s.work), Mark(s, nxt), nxt, nbrs);
      Descend(g, s, nxt, nbrs, Full(m, scanned));
    } else {
      if nxt in m.onStack && m.onStack[nxt] {
        m := m.(low := m.low[f.node := Min(m.low[f.node], m.indexOf[nxt])]);
      }
      advanced := false;
      Revisit(g, s, nxt, Full(m, scanned));
    }
  }

  /** What closing the innermost work item may rely on. */
  ghost predicate Closable(s: State<Source>) {
    && Exhausted(s) && StackOk(s)
    && (forall x :: x in s.stack ==> x in s.onStack)
    && (|s.work| > 1 ==> s.work[|s.work| - 2].node in s.low
                         && s.work[|s.work| - 2].node != s.work[|s.work| - 1].node)
    && var v := s.work[|s.work| - 1].node;
       v in s.low && v in s.indexOf && On(s, v) && s.low[v] <= s.indexOf[v]
  }

  lemma ClosingFacts(g: Graph<Source>, s: State<Source>)
    requires Inv(g, s) && Exhausted(s)
    ensures Closable(s)
  {
    ExhaustedFacts(g, s);
    ParentIsOther(g, s);
    LowAtMostIndex(g, s);
    forall x | x in s.stack ensures x in s.onStack { assert On(s, x) <==> x in s.stack; }
  }

  /** The two ways a work item closes: into its parent, or as the root of a component. */
  ghost predicate Closes(s: State<Source>, comp: seq<Source>, t: State<Source>)
    requires Closable(s)
  {
    var v := s.work[|s.work| - 1].node;
    if s.low[v] < s.indexOf[v] then
      t == s.(work := s.work[..|s.work| - 1], low := PopLow(s))
    else
      TakesComponent(s, comp, t) && StackOk(t)
  }

  lemma ClosingKeepsInv(g: Graph<Source>, s: State<Source>, comp: seq<Source>, t: State<Source>)
    requires Inv(g, s) && Closable(s) && Closes(s, comp, t)
    ensures Inv(g, t)
  {
    var v := s.work[|s.work| - 1].node;
    if s.low[v] < s.indexOf[v] {
      Retire(g, s, t);
    } else {
      Take(g, s, comp, t);
    }
  }

  /** Pop the innermost work item and fold its `low` into its parent's. */
  method PopFrame(m0: Machine) returns (m: Machine)
    requires m0.work != [] && m0.work[|m0.work| - 1].node in m0.low
    requires |m0.work| > 1 ==> m0.work[|m0.work| - 2].node in m0.low
    ensures m == m0.(work := m0.work[..|m0.work| - 1], low := PopLow(Full(m0, map[])))
  {
    var node := m0.work[|m0.work| - 1].node;
    m := m0.(work := m0.work[..|m0.work| - 1]);
    if m.work != [] {
      var parent := m.work[|m.work| - 1].node;
      m := m.(low := m.low[parent := Min(m.low[parent], m.low[node])]);
    }
  }

  /** Move the stack from `node` up into the result. */
  method CutComponent(m0: Machine, node: Source, ghost scanned: map<Source, set<Source>>)
    returns (m: Machine, ghost comp: seq<Source>)
    requires StackOk(Full(m0, scanned)) && On(Full(m0, scanned), node) && node in m0.indexOf
    ensures m == m0.(stack := m.stack, onStack := m.onStack, result := m0.result + [comp])
    ensures Ascending(comp) && node in comp
    ensures forall x :: x in comp <==>
      On(Full(m0, scanned), x) && x in m0.indexOf && m0.indexOf[node] <= m0.indexOf[x]
    ensures StackOk(Full(m, scanned)) && m.onStack.Keys == m0.onStack.Keys
    ensures forall x :: On(Full(m, scanned), x) <==>
      On(Full(m0, scanned), x) && x in m0.indexOf && m0.indexOf[x] < m0.indexOf[node]
  {
    ghost var s := Full(m0, scanned);
    ghost var p := StackSplit(s, node);
    forall x ensures x in m0.stack <==> On(s, x) { assert On(s, x) <==> x in s.stack; }
    var stack, onStack, component := PopComponent(m0.stack, m0.onStack, node, p);
    SortedAscending(component);
    m := m0.(stack := stack, onStack := onStack, result := m0.result + [Sorted(component)]);
    comp := Sorted(component);
    TakeStack(s, Full(m, scanned), p);
    forall x ensures On(Full(m, scanned), x) <==> On(s, x) && x in s.indexOf && s.indexOf[x] < s.indexOf[node] {
      assert x in m.stack <==> On(Full(m, scanned), x);
    }
  }

  /** The work item is exhausted: pop it, update its parent, and take its component if it is a root. */
  method CloseNode(m0: Machine, ghost scanned: map<Source, set<Source>>) returns (m: Machine, ghost comp: seq<Source>)
    requires Closable(Full(m0, scanned))
    ensures Closes(Full(m0, scanned), comp, Full(m, scanned))
    ensures m.indexOf == m0.indexOf && |m.work| < |m0.work|
    ensures m.result == m0.result || (Ascending(comp) && m.result == m0.result + [comp])
  {
    var node := m0.work[|m0.work| - 1].node;
    m := PopFrame(m0);
    comp := [];
    if m.low[node] == m.indexOf[node] {
      m, comp := CutComponent(m, node, scanned);
    }
  }

  /** Closing the innermost work item keeps the invariant. */
  method CloseInnermost(g: Graph<Source>, m0: Machine, ghost scanned: map<Source, set<Source>>) returns (m: Machine)
    requires Ok(g, m0, scanned) && Exhausted(Full(m0, scanned))
    ensures Ok(g, m, scanned) && m.indexOf == m0.indexOf && |m.work| < |m0.work|
  {
    ClosingFacts(g, Full(m0, scanned));
    ghost var comp;
    m, comp := CloseNode(m0, scanned);
    ClosingKeepsInv(g, Full(m0, scanned), comp, Full(m, scanned));
  }

  /** Consume neighbours of the innermost work item until one opens a new item or none is left. */
  method ScanNeighbours(g: Graph<Source>, m0: Machine, ghost scanned0: map<Source, set<Source>>)
    returns (m: Machine, advanced: bool, ghost scanned: map<Source, set<Source>>)
    requires Ok(g, m0, scanned0) && m0.work != []
    ensures Ok(g, m, scanned)
    ensures advanced ==> m0.indexOf.Keys < m.indexOf.Keys
    ensures !advanced ==> m.indexOf == m0.indexOf && |m.work| == |m0.work| && Exhausted(Full(m, scanned))
  {
    m, scanned, advanced := m0, scanned0, false;
    while !advanced && m.work[|m.work| - 1].next < |m.work[|m.work| - 1].nbrs|
      invariant Ok(g, m, scanned) && m.work != []
      invariant advanced ==> m0.indexOf.Keys < m.indexOf.Keys
      invariant !advanced ==> m.indexOf == m0.indexOf && |m.work| == |m0.work|
      decreases !advanced, |m.work[|m.work| - 1].nbrs| - m.work[|m.work| - 1].next
    {
      m, advanced, scanned := TakeNeighbour(g, m, scanned);
    }
    assert m.work != [] ==> FrameOk(g, Full(m, scanned), m.work[|m.work| - 1]);
  }

  /** The inner loop, from one root until no work is left. */
  method Search(g: Graph<Source>, m0: Machine, ghost scanned0: map<Source, set<Source>>)
    returns (m: Machine, ghost scanned: map<Source, set<Source>>)
    requires Ok(g, m0, scanned0)
    ensures Ok(g, m, scanned) && m.work == [] && m0.indexOf.Keys <= m.indexOf.Keys
  {
    m, scanned := m0, scanned0;
    while m.work != []
      invariant Ok(g, m, scanned) && m0.indexOf.Keys <= m.indexOf.Keys
      decreases Nodes(g) - m.indexOf.Keys, |m.work|
    {
      var advanced;
      m, advanced, scanned := ScanNeighbours(g, m, scanned);
      if advanced { continue; }
      m := CloseInnermost(g, m, scanned);
    }
  }

  method StronglyConnectedComponents(g: Graph<Source>) returns (result: seq<seq<Source>>)
    ensures SccsOf(g, result)
  {
    var m := Machine(map[], map[], map[], [], [], [], 0);
    ghost var scanned: map<Source, set<Source>> := map[];
    FreshInv(g);
    var roots := SortSet(g.Keys);
    for r := 0 to |roots|
      invariant Ok(g, m, scanned) && m.work == []
      invariant forall i :: 0 <= i < r ==> roots[i] in m.indexOf
    {
      var root := roots[r];
      if root in m.indexOf { continue; }
      assert root in roots;
      var nbrs := SortSet(g[root]);
      ghost var s := Full(m, scanned);
      m := Enter(m, root, nbrs);
      scanned := scanned[root := {}];
      Start(g, s, root, nbrs, Full(m, scanned));
      m, scanned := Search(g, m, scanned);
    }
    Finished(g, Full(m, scanned));
    result := m.result;
  }
}
