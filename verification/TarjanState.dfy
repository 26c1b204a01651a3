/**
 * What Tarjan's loop knows between two steps, and why each step keeps it.
 *
 * `scanned` is proof bookkeeping: which dependencies of a node the loop has
 * already looked at.  Everything else mirrors a local variable of the loop.
 */
module TarjanState {
  import opened Graphs

  /** A work item: a node and how far its sorted neighbours have been consumed. */
  datatype Frame<N> = Frame(node: N, nbrs: seq<N>, next: nat)

  datatype State<N> = State(
    indexOf: map<N, nat>,
    low: map<N, nat>,
    onStack: map<N, bool>,
    stack: seq<N>,
    work: seq<Frame<N>>,
    result: seq<seq<N>>,
    counter: nat,
    scanned: map<N, set<N>>)

  /** `on_stack.get(n)` */
  predicate On<N(!new)>(s: State<N>, n: N) {
    n in s.onStack && s.onStack[n]
  }

  /** Visited, and already put in a component. */
  predicate Done<N(!new)>(s: State<N>, n: N) {
    n in s.indexOf && !On(s, n)
  }

  // ── The invariant, in parts ──────────────────────────────────────────

  ghost predicate Maps<N(!new)>(g: Graph<N>, s: State<N>) {
    && s.low.Keys == s.onStack.Keys == s.scanned.Keys == s.indexOf.Keys
    && s.indexOf.Keys <= Nodes(g)
    && forall n :: n in s.indexOf ==> s.indexOf[n] < s.counter
  }

  /** The stack holds exactly the nodes flagged as on it, oldest first. */
  ghost predicate StackOk<N(!new)>(s: State<N>) {
    && (forall n :: n in s.stack ==> n in s.indexOf)
    && (forall n :: On(s, n) <==> n in s.stack)
    && (forall i, j :: 0 <= i < j < |s.stack| && s.stack[i] in s.indexOf && s.stack[j] in s.indexOf ==>
          s.indexOf[s.stack[i]] < s.indexOf[s.stack[j]])
  }

  ghost predicate FrameOk<N(!new)>(g: Graph<N>, s: State<N>, f: Frame<N>) {
    && On(s, f.node) && f.node in s.indexOf && f.node in s.low && f.node in s.scanned
    && f.next <= |f.nbrs|
    && (forall m :: m in f.nbrs <==> m in Succ(g, f.node))
    && (forall m :: m in f.nbrs[..f.next] <==> m in s.scanned[f.node])
  }

  ghost predicate WorkOk<N(!new)>(g: Graph<N>, s: State<N>) {
    && (forall i :: 0 <= i < |s.work| ==> FrameOk(g, s, s.work[i]))
    && (forall i, j :: 0 <= i < j < |s.work| ==>
          s.work[i].node in s.indexOf && s.work[j].node in s.indexOf
          && s.indexOf[s.work[i].node] < s.indexOf[s.work[j].node])
  }

  ghost predicate InWork<N(!new)>(s: State<N>, n: N) {
    exists i :: 0 <= i < |s.work| && s.work[i].node == n
  }

  /** Scanned edges are edges to visited nodes; only work items have unscanned ones. */
  ghost predicate ScannedOk<N(!new)>(g: Graph<N>, s: State<N>) {
    && (forall n, m {:trigger m in s.scanned[n]} :: n in s.scanned && m in s.scanned[n] ==> m in Succ(g, n) && m in s.indexOf)
    && (forall n {:trigger InWork(s, n)} :: n in s.scanned ==> InWork(s, n) || s.scanned[n] == Succ(g, n))
  }

  /** A node lower on the stack reaches every node above it. */
  ghost predicate Linked<N(!new)>(g: Graph<N>, s: State<N>) {
    forall x, y {:trigger Reaches(g, x, y)} ::
      On(s, x) && On(s, y) && x in s.indexOf && y in s.indexOf && s.indexOf[x] <= s.indexOf[y] ==> Reaches(g, x, y)
  }

  /** Every stack node reaches a work item at or below it. */
  ghost predicate AnchoredAt<N(!new)>(g: Graph<N>, s: State<N>, y: N, i: int) {
    0 <= i < |s.work| && s.work[i].node in s.indexOf && y in s.indexOf
    && s.indexOf[s.work[i].node] <= s.indexOf[y] && Reaches(g, y, s.work[i].node)
  }

  ghost predicate HasAnchor<N(!new)>(g: Graph<N>, s: State<N>, y: N) {
    exists i :: AnchoredAt(g, s, y, i)
  }

  ghost predicate Anchored<N(!new)>(g: Graph<N>, s: State<N>) {
    forall y {:trigger HasAnchor(g, s, y)} :: On(s, y) ==> HasAnchor(g, s, y)
  }

  /** `y` was pushed while work item `i` was the innermost one still open. */
  ghost predicate InRegion<N(!new)>(s: State<N>, i: int, y: N) {
    && 0 <= i < |s.work| && On(s, y) && y in s.indexOf && s.work[i].node in s.indexOf
    && s.indexOf[s.work[i].node] <= s.indexOf[y]
    && (i + 1 < |s.work| ==> s.work[i + 1].node in s.indexOf && s.indexOf[y] < s.indexOf[s.work[i + 1].node])
  }

  /** No scanned edge out of a work item's region lands on the stack below its `low`. */
  ghost predicate LowBound<N(!new)>(s: State<N>) {
    forall i, y, m {:trigger InRegion(s, i, y), m in s.scanned[y]} ::
      (InRegion(s, i, y) && y in s.scanned && m in s.scanned[y] && On(s, m)
       && s.work[i].node in s.low && m in s.indexOf) ==> s.low[s.work[i].node] <= s.indexOf[m]
  }

  ghost predicate LowAt<N(!new)>(g: Graph<N>, s: State<N>, v: N, w: N) {
    On(s, w) && w in s.indexOf && v in s.low && s.low[v] == s.indexOf[w] && Reaches(g, v, w)
  }

  /** A work item's `low` is the index of a stack node it reaches, no later than itself. */
  ghost predicate HasLow<N(!new)>(g: Graph<N>, s: State<N>, v: N) {
    exists w :: LowAt(g, s, v, w)
  }

  ghost predicate LowReal<N(!new)>(g: Graph<N>, s: State<N>) {
    forall i :: 0 <= i < |s.work| ==>
      && s.work[i].node in s.low && s.work[i].node in s.indexOf
      && s.low[s.work[i].node] <= s.indexOf[s.work[i].node]
      && HasLow(g, s, s.work[i].node)
  }

  ghost predicate InComponent<N(!new)>(result: seq<seq<N>>, i: int, n: N) {
    0 <= i < |result| && n in result[i]
  }

  /** `n` is in one of the first `k` components. */
  ghost predicate Placed<N(!new)>(result: seq<seq<N>>, k: int, n: N) {
    exists i :: i < k && InComponent(result, i, n)
  }

  /** Components found so far: sorted, strongly connected, disjoint, dependencies first. */
  ghost predicate ComponentsOk<N(!new)>(g: Graph<N>, result: seq<seq<N>>) {
    && (forall i :: 0 <= i < |result| ==> result[i] != [] )
    && (forall i, x, y :: InComponent(result, i, x) && InComponent(result, i, y) ==> Reaches(g, x, y))
    && (forall i, j, x :: InComponent(result, i, x) && InComponent(result, j, x) ==> i == j)
    && (forall i, x, m {:trigger InComponent(result, i, x), Placed(result, i + 1, m)} ::
          InComponent(result, i, x) && m in Succ(g, x) ==> Placed(result, i + 1, m))
  }

  /** The components hold exactly the nodes that are done. */
  ghost predicate ComponentsCover<N(!new)>(s: State<N>) {
    && (forall i, n :: InComponent(s.result, i, n) ==> Done(s, n))
    && (forall n {:trigger Placed(s.result, |s.result|, n)} :: Done(s, n) ==> Placed(s.result, |s.result|, n))
  }

  ghost predicate Inv<N(!new)>(g: Graph<N>, s: State<N>) {
    && Maps(g, s) && StackOk(s) && WorkOk(g, s) && ScannedOk(g, s)
    && Linked(g, s) && Anchored(g, s) && LowBound(s) && LowReal(g, s)
    && ComponentsOk(g, s.result) && ComponentsCover(s)
  }

  // ── Facts used by several steps ──────────────────────────────────────

  /** Every stack node reaches the innermost work item. */
  lemma StackReachesTop<N(!new)>(g: Graph<N>, s: State<N>, y: N)
    requires WorkOk(g, s) && Linked(g, s) && Anchored(g, s) && On(s, y) && s.work != []
    ensures Reaches(g, y, s.work[|s.work| - 1].node)
  {
    var k := |s.work| - 1;
    assert HasAnchor(g, s, y);
    var i :| AnchoredAt(g, s, y, i);
    assert FrameOk(g, s, s.work[i]) && FrameOk(g, s, s.work[k]);
    ReachesTransitive(g, y, s.work[i].node, s.work[k].node);
  }

  // ── Step: a neighbour seen for the first time ────────────────────────

  /** Open a work item for `c`, with `w` the work stack beneath it. */
  function Open<N(!new)>(s: State<N>, w: seq<Frame<N>>, scanned: map<N, set<N>>, c: N, nbrs: seq<N>): State<N> {
    s.(indexOf := s.indexOf[c := s.counter],
       low := s.low[c := s.counter],
       onStack := s.onStack[c := true],
       stack := s.stack + [c],
       work := w + [Frame(c, nbrs, 0)],
       counter := s.counter + 1,
       scanned := scanned[c := {}])
  }

  /** The next neighbour of the innermost work item is taken. */
  function Advance<N(!new)>(w: seq<Frame<N>>): seq<Frame<N>>
    requires w != []
  {
    var f := w[|w| - 1];
    w[|w| - 1 := f.(next := f.next + 1)]
  }

  function Mark<N(!new)>(s: State<N>, m: N): map<N, set<N>>
    requires s.work != [] && s.work[|s.work| - 1].node in s.scanned
  {
    var v := s.work[|s.work| - 1].node;
    s.scanned[v := s.scanned[v] + {m}]
  }

  /** `f` is the innermost work item and `c` its next neighbour. */
  ghost predicate Taking<N(!new)>(g: Graph<N>, s: State<N>, c: N) {
    && s.work != []
    && var f := s.work[|s.work| - 1];
       f.next < |f.nbrs| && f.nbrs[f.next] == c && f.node in s.scanned && f.node in s.low && f.node in s.indexOf
  }

  lemma TakingFacts<N(!new)>(g: Graph<N>, s: State<N>, c: N)
    requires WorkOk(g, s) && Taking(g, s, c)
    ensures var f := s.work[|s.work| - 1];
      c in Succ(g, f.node) && c in Nodes(g) && On(s, f.node)
  {
    var f := s.work[|s.work| - 1];
    assert FrameOk(g, s, f);
    assert c in f.nbrs;
  }

  lemma DescendBasics<N(!new)>(g: Graph<N>, s: State<N>, c: N, nbrs: seq<N>, t: State<N>)
    requires Maps(g, s) && StackOk(s) && Taking(g, s, c) && c !in s.indexOf && c in Nodes(g)
    requires t == Open(s, Advance(s.work), Mark(s, c), c, nbrs)
    ensures Maps(g, t) && StackOk(t)
  {
    forall i, j | 0 <= i < j < |t.stack| ensures t.indexOf[t.stack[i]] < t.indexOf[t.stack[j]] {
      assert t.stack[i] in s.stack;
    }
  }

  lemma DescendWork<N(!new)>(g: Graph<N>, s: State<N>, c: N, nbrs: seq<N>, t: State<N>)
    requires Maps(g, s) && WorkOk(g, s) && Taking(g, s, c) && c !in s.indexOf
    requires forall m :: m in nbrs <==> m in Succ(g, c)
    requires t == Open(s, Advance(s.work), Mark(s, c), c, nbrs)
    ensures WorkOk(g, t)
  {
    var k := |s.work| - 1;
    forall i | 0 <= i < |t.work| ensures FrameOk(g, t, t.work[i]) {
      if i < k {
        assert FrameOk(g, s, s.work[i]) && s.indexOf[s.work[i].node] < s.indexOf[s.work[k].node];
      } else if i == k {
        var f := s.work[k];
        assert FrameOk(g, s, f);
        assert f.nbrs[..f.next + 1] == f.nbrs[..f.next] + [c];
      }
    }
    forall i, j | 0 <= i < j < |t.work|
      ensures t.indexOf[t.work[i].node] < t.indexOf[t.work[j].node]
    {
      assert FrameOk(g, s, s.work[i]);
      if j <= k { assert FrameOk(g, s, s.work[j]); }
    }
  }

  lemma DescendScanned<N(!new)>(g: Graph<N>, s: State<N>, c: N, nbrs: seq<N>, t: State<N>)
    requires s.scanned.Keys == s.indexOf.Keys && ScannedOk(g, s) && Taking(g, s, c) && c !in s.indexOf
    requires c in Succ(g, s.work[|s.work| - 1].node)
    requires t == Open(s, Advance(s.work), Mark(s, c), c, nbrs)
    ensures ScannedOk(g, t)
  {
    var v := s.work[|s.work| - 1].node;
    assert t.scanned[c] == {};
    forall n, m | n in t.scanned && m in t.scanned[n] ensures m in Succ(g, n) && m in t.indexOf {
      if n == v {
        assert t.scanned[n] == s.scanned[v] + {c};
        if m != c { assert m in s.scanned[v]; }
      } else if n != c {
        assert m in s.scanned[n];
      }
    }
    forall n | n in t.scanned ensures InWork(t, n) || t.scanned[n] == Succ(g, n) {
      if n == c {
        assert t.work[|s.work|].node == n;
      } else if n == v {
        assert t.work[|s.work| - 1].node == n;
      } else if InWork(s, n) {
        var i :| 0 <= i < |s.work| && s.work[i].node == n;
        assert t.work[i].node == n;
      }
    }
  }

  lemma DescendReach<N(!new)>(g: Graph<N>, s: State<N>, c: N, nbrs: seq<N>, t: State<N>)
    requires Maps(g, s) && WorkOk(g, s) && Linked(g, s) && Anchored(g, s) && Taking(g, s, c) && c !in s.indexOf
    requires t == Open(s, Advance(s.work), Mark(s, c), c, nbrs)
    ensures Linked(g, t) && Anchored(g, t)
  {
    TakingFacts(g, s, c);
    var k := |s.work| - 1;
    ReachesSelf(g, c);
    forall x | On(t, x) ensures Reaches(g, x, c) {
      if x != c {
        StackReachesTop(g, s, x);
        ReachesEdge(g, s.work[k].node, c);
        ReachesTransitive(g, x, s.work[k].node, c);
      }
    }
    forall y | On(t, y) ensures HasAnchor(g, t, y) {
      if y == c {
        assert AnchoredAt(g, t, y, k + 1);
      } else {
        assert HasAnchor(g, s, y);
        var i :| AnchoredAt(g, s, y, i);
        assert AnchoredAt(g, t, y, i);
      }
    }
  }

  lemma DescendLowBound<N(!new)>(g: Graph<N>, s: State<N>, c: N, nbrs: seq<N>, t: State<N>)
    requires Maps(g, s) && WorkOk(g, s) && LowBound(s) && Taking(g, s, c) && c !in s.indexOf
    requires forall i :: 0 <= i < |s.work| ==> s.low[s.work[i].node] <= s.indexOf[s.work[i].node]
    requires t == Open(s, Advance(s.work), Mark(s, c), c, nbrs)
    ensures LowBound(t)
  {
    var k := |s.work| - 1;
    forall i, y, m | InRegion(t, i, y) && m in t.scanned[y] && On(t, m)
      ensures t.low[t.work[i].node] <= t.indexOf[m]
    {
      if i <= k {
        assert t.work[i].node == s.work[i].node;
        assert FrameOk(g, s, s.work[i]);
        assert y != c;
        assert InRegion(s, i, y);
        if m == c {
          assert s.low[s.work[i].node] <= s.indexOf[s.work[i].node];
        } else {
          assert m in s.scanned[y];
        }
      }
    }
  }

  lemma DescendLowReal<N(!new)>(g: Graph<N>, s: State<N>, c: N, nbrs: seq<N>, t: State<N>)
    requires Maps(g, s) && WorkOk(g, s) && LowReal(g, s) && Taking(g, s, c) && c !in s.indexOf
    requires t == Open(s, Advance(s.work), Mark(s, c), c, nbrs)
    ensures LowReal(g, t)
  {
    var k := |s.work| - 1;
    forall i | 0 <= i < |t.work|
      ensures t.work[i].node in t.low && t.work[i].node in t.indexOf
      ensures t.low[t.work[i].node] <= t.indexOf[t.work[i].node]
      ensures HasLow(g, t, t.work[i].node)
    {
      if i <= k {
        assert t.work[i].node == s.work[i].node;
        assert FrameOk(g, s, s.work[i]);
        assert HasLow(g, s, s.work[i].node);
        var w :| LowAt(g, s, s.work[i].node, w);
        assert LowAt(g, t, t.work[i].node, w);
      } else {
        ReachesSelf(g, c);
        assert LowAt(g, t, c, c);
      }
    }
  }

  /** Opening a work item leaves every finished node finished. */
  lemma OpenKeepsComponents<N(!new)>(g: Graph<N>, s: State<N>, w: seq<Frame<N>>, scanned: map<N, set<N>>, c: N,
                                     nbrs: seq<N>)
    requires StackOk(s) && ComponentsOk(g, s.result) && ComponentsCover(s) && c !in s.indexOf
    ensures ComponentsCover(Open(s, w, scanned, c, nbrs))
  {
    var t := Open(s, w, scanned, c, nbrs);
    forall n | Done(t, n) ensures Placed(t.result, |t.result|, n) {
      assert Done(s, n);
      assert Placed(s.result, |s.result|, n);
    }
    forall i, n | InComponent(t.result, i, n) ensures Done(t, n) {
      assert Done(s, n);
    }
  }

  lemma Descend<N(!new)>(g: Graph<N>, s: State<N>, c: N, nbrs: seq<N>, t: State<N>)
    requires Inv(g, s) && Taking(g, s, c) && c !in s.indexOf
    requires forall m :: m in nbrs <==> m in Succ(g, c)
    requires t == Open(s, Advance(s.work), Mark(s, c), c, nbrs)
    ensures Inv(g, t)
  {
    TakingFacts(g, s, c);
    assert Maps(g, t) && StackOk(t) by { DescendBasics(g, s, c, nbrs, t); }
    assert WorkOk(g, t) by { DescendWork(g, s, c, nbrs, t); }
    assert ScannedOk(g, t) by { DescendScanned(g, s, c, nbrs, t); }
    assert Linked(g, t) && Anchored(g, t) by { DescendReach(g, s, c, nbrs, t); }
    assert LowBound(t) by { DescendLowBound(g, s, c, nbrs, t); }
    assert LowReal(g, t) by { DescendLowReal(g, s, c, nbrs, t); }
    assert ComponentsCover(t) by { OpenKeepsComponents(g, s, Advance(s.work), Mark(s, c), c, nbrs); }
  }

  // ── Step: a root of the search ───────────────────────────────────────

  /** With no work left open the stack is empty: every component has been taken. */
  lemma IdleStack<N(!new)>(g: Graph<N>, s: State<N>)
    requires Anchored(g, s) && StackOk(s) && s.work == []
    ensures s.stack == [] && forall y :: !On(s, y)
  {
    assert s.stack == [] || s.stack[0] in s.stack;
    forall y ensures !On(s, y) {
      assert !HasAnchor(g, s, y);
    }
  }

  lemma StartShape<N(!new)>(g: Graph<N>, s: State<N>, c: N, nbrs: seq<N>, t: State<N>)
    requires Maps(g, s) && s.work == [] && s.stack == [] && c !in s.indexOf && c in Nodes(g)
    requires forall y :: !On(s, y)
    requires forall m :: m in nbrs <==> m in Succ(g, c)
    requires t == Open(s, [], s.scanned, c, nbrs)
    ensures Maps(g, t) && StackOk(t) && WorkOk(g, t) && forall y :: On(t, y) <==> y == c
  {
    forall y ensures On(t, y) <==> y == c { assert !On(s, y); }
    assert t.stack == [c];
    assert FrameOk(g, t, t.work[0]);
  }

  lemma StartScanned<N(!new)>(g: Graph<N>, s: State<N>, c: N, nbrs: seq<N>, t: State<N>)
    requires s.scanned.Keys == s.indexOf.Keys && ScannedOk(g, s) && s.work == [] && c !in s.indexOf
    requires t == Open(s, [], s.scanned, c, nbrs)
    ensures ScannedOk(g, t)
  {
    assert t.work[0].node == c;
    forall n | n in t.scanned ensures InWork(t, n) || t.scanned[n] == Succ(g, n) {
      if n != c { assert InWork(s, n) || s.scanned[n] == Succ(g, n); }
    }
  }

  lemma StartReach<N(!new)>(g: Graph<N>, s: State<N>, c: N, nbrs: seq<N>, t: State<N>)
    requires s.work == [] && forall y :: On(t, y) <==> y == c
    requires t == Open(s, [], s.scanned, c, nbrs)
    ensures Linked(g, t) && Anchored(g, t) && LowBound(t) && LowReal(g, t)
  {
    ReachesSelf(g, c);
    assert t.scanned[c] == {};
    assert LowAt(g, t, c, c) && AnchoredAt(g, t, c, 0);
  }

  lemma Start<N(!new)>(g: Graph<N>, s: State<N>, c: N, nbrs: seq<N>, t: State<N>)
    requires Inv(g, s) && s.work == [] && c !in s.indexOf && c in Nodes(g)
    requires forall m :: m in nbrs <==> m in Succ(g, c)
    requires t == Open(s, [], s.scanned, c, nbrs)
    ensures Inv(g, t)
  {
    IdleStack(g, s);
    StartShape(g, s, c, nbrs, t);
    assert ScannedOk(g, t) by { StartScanned(g, s, c, nbrs, t); }
    assert Linked(g, t) && Anchored(g, t) && LowBound(t) && LowReal(g, t) by { StartReach(g, s, c, nbrs, t); }
    assert ComponentsCover(t) by { OpenKeepsComponents(g, s, [], s.scanned, c, nbrs); }
  }

  // ── Step: a neighbour already visited ────────────────────────────────

  function Min(a: nat, b: nat): nat { if b < a then b else a }

  function Examine<N(!new)>(s: State<N>, m: N): State<N>
    requires s.work != [] && m in s.indexOf
    requires var v := s.work[|s.work| - 1].node; v in s.scanned && v in s.low
  {
    var v := s.work[|s.work| - 1].node;
    s.(work := Advance(s.work),
       scanned := Mark(s, m),
       low := if On(s, m) then s.low[v := Min(s.low[v], s.indexOf[m])] else s.low)
  }

  lemma RevisitWork<N(!new)>(g: Graph<N>, s: State<N>, m: N, t: State<N>)
    requires WorkOk(g, s) && Taking(g, s, m) && m in s.indexOf && t == Examine(s, m)
    ensures WorkOk(g, t)
  {
    var k := |s.work| - 1;
    forall i | 0 <= i < |t.work| ensures FrameOk(g, t, t.work[i]) {
      assert FrameOk(g, s, s.work[i]);
      if i < k {
        assert s.indexOf[s.work[i].node] < s.indexOf[s.work[k].node];
      } else {
        var f := s.work[k];
        assert f.nbrs[..f.next + 1] == f.nbrs[..f.next] + [m];
      }
    }
    forall i, j | 0 <= i < j < |t.work|
      ensures t.work[i].node in t.indexOf && t.work[j].node in t.indexOf
      ensures t.indexOf[t.work[i].node] < t.indexOf[t.work[j].node]
    {
      assert s.work[i].node == t.work[i].node && s.work[j].node == t.work[j].node;
    }
  }

  lemma RevisitScanned<N(!new)>(g: Graph<N>, s: State<N>, m: N, t: State<N>)
    requires ScannedOk(g, s) && Taking(g, s, m) && m in s.indexOf && t == Examine(s, m)
    requires m in Succ(g, s.work[|s.work| - 1].node)
    ensures ScannedOk(g, t)
  {
    forall n | n in t.scanned ensures InWork(t, n) || t.scanned[n] == Succ(g, n) {
      if n == s.work[|s.work| - 1].node {
        assert t.work[|s.work| - 1].node == n;
      } else if InWork(s, n) {
        var i :| 0 <= i < |s.work| && s.work[i].node == n;
        assert t.work[i].node == n;
      }
    }
  }

  lemma RevisitAnchored<N(!new)>(g: Graph<N>, s: State<N>, m: N, t: State<N>)
    requires Anchored(g, s) && Taking(g, s, m) && m in s.indexOf && t == Examine(s, m)
    ensures Anchored(g, t)
  {
    forall y | On(t, y) ensures HasAnchor(g, t, y) {
      assert On(s, y) && HasAnchor(g, s, y);
      var i :| AnchoredAt(g, s, y, i);
      assert t.work[i].node == s.work[i].node;
      assert AnchoredAt(g, t, y, i);
    }
  }

  lemma RevisitLowBound<N(!new)>(g: Graph<N>, s: State<N>, m: N, t: State<N>)
    requires WorkOk(g, s) && LowBound(s) && Taking(g, s, m) && m in s.indexOf && t == Examine(s, m)
    requires s.low.Keys == s.indexOf.Keys
    ensures LowBound(t)
  {
    var k := |s.work| - 1;
    forall i, y, w | InRegion(t, i, y) && y in t.scanned && w in t.scanned[y] && On(t, w)
      && t.work[i].node in t.low && w in t.indexOf
      ensures t.low[t.work[i].node] <= t.indexOf[w]
    {
      assert t.work[i].node == s.work[i].node;
      assert i + 1 < |s.work| ==> t.work[i + 1].node == s.work[i + 1].node;
      assert InRegion(s, i, y);
      if w in s.scanned[y] {
        assert s.low[s.work[i].node] <= s.indexOf[w];
        assert t.low[t.work[i].node] <= s.low[s.work[i].node];
      } else {
        assert y == s.work[k].node && w == m;
        assert i == k;
      }
    }
  }

  lemma RevisitLowReal<N(!new)>(g: Graph<N>, s: State<N>, m: N, t: State<N>)
    requires WorkOk(g, s) && LowReal(g, s) && Taking(g, s, m) && m in s.indexOf && t == Examine(s, m)
    requires m in Succ(g, s.work[|s.work| - 1].node)
    ensures LowReal(g, t)
  {
    var k := |s.work| - 1;
    forall i | 0 <= i < |t.work|
      ensures t.work[i].node in t.low && t.work[i].node in t.indexOf
      ensures t.low[t.work[i].node] <= t.indexOf[t.work[i].node]
      ensures HasLow(g, t, t.work[i].node)
    {
      var v := s.work[i].node;
      assert t.work[i].node == v;
      assert HasLow(g, s, v);
      var w :| LowAt(g, s, v, w);
      if i < k {
        assert s.indexOf[v] < s.indexOf[s.work[k].node];
        assert LowAt(g, t, v, w);
      } else if t.low[v] == s.low[v] {
        assert LowAt(g, t, v, w);
      } else {
        ReachesEdge(g, v, m);
        assert LowAt(g, t, v, m);
      }
    }
  }

  lemma Revisit<N(!new)>(g: Graph<N>, s: State<N>, m: N, t: State<N>)
    requires Inv(g, s) && Taking(g, s, m) && m in s.indexOf && t == Examine(s, m)
    ensures Inv(g, t)
  {
    TakingFacts(g, s, m);
    assert Maps(g, t) && StackOk(t);
    assert WorkOk(g, t) by { RevisitWork(g, s, m, t); }
    assert ScannedOk(g, t) by { RevisitScanned(g, s, m, t); }
    assert Anchored(g, t) by { RevisitAnchored(g, s, m, t); }
    assert LowBound(t) by { RevisitLowBound(g, s, m, t); }
    assert LowReal(g, t) by { RevisitLowReal(g, s, m, t); }
    assert ComponentsCover(t) by {
      forall i, n | InComponent(t.result, i, n) ensures Done(t, n) { assert Done(s, n); }
      forall n | Done(t, n) ensures Placed(t.result, |t.result|, n) { assert Done(s, n); }
    }
  }

  // ── Step: a work item with no neighbours left ────────────────────────

  ghost predicate Exhausted<N(!new)>(s: State<N>) {
    && s.work != []
    && var f := s.work[|s.work| - 1]; f.next == |f.nbrs|
  }

  /** `work.pop()`, then fold the item's `low` into its parent's. */
  function PopLow<N(!new)>(s: State<N>): map<N, nat>
    requires s.work != [] && s.work[|s.work| - 1].node in s.low
    requires |s.work| > 1 ==> s.work[|s.work| - 2].node in s.low
  {
    var k := |s.work| - 1;
    if k == 0 then s.low
    else
      var p := s.work[k - 1].node;
      s.low[p := Min(s.low[p], s.low[s.work[k].node])]
  }

  lemma ExhaustedFacts<N(!new)>(g: Graph<N>, s: State<N>)
    requires WorkOk(g, s) && Exhausted(s)
    ensures var v := s.work[|s.work| - 1].node;
      v in s.low && v in s.indexOf && v in s.scanned && On(s, v) && s.scanned[v] == Succ(g, v)
    ensures |s.work| > 1 ==> s.work[|s.work| - 2].node in s.low
  {
    var f := s.work[|s.work| - 1];
    assert FrameOk(g, s, f);
    assert f.nbrs[..f.next] == f.nbrs;
    if |s.work| > 1 { assert FrameOk(g, s, s.work[|s.work| - 2]); }
  }

  lemma PopWork<N(!new)>(g: Graph<N>, s: State<N>, t: State<N>)
    requires WorkOk(g, s) && s.work != [] && t.work == s.work[..|s.work| - 1]
    requires t.indexOf == s.indexOf && t.low.Keys == s.low.Keys && t.scanned == s.scanned
    requires forall i :: 0 <= i < |t.work| ==> On(t, t.work[i].node)
    ensures WorkOk(g, t)
  {
    forall i | 0 <= i < |t.work| ensures FrameOk(g, t, t.work[i]) {
      assert FrameOk(g, s, s.work[i]);
    }
    forall i, j | 0 <= i < j < |t.work|
      ensures t.work[i].node in t.indexOf && t.work[j].node in t.indexOf
      ensures t.indexOf[t.work[i].node] < t.indexOf[t.work[j].node]
    {
      assert t.work[i] == s.work[i] && t.work[j] == s.work[j];
    }
  }

  lemma PopScanned<N(!new)>(g: Graph<N>, s: State<N>, t: State<N>)
    requires ScannedOk(g, s) && s.work != [] && t.work == s.work[..|s.work| - 1]
    requires t.indexOf == s.indexOf && t.scanned == s.scanned
    requires var v := s.work[|s.work| - 1].node; v in s.scanned && s.scanned[v] == Succ(g, v)
    ensures ScannedOk(g, t)
  {
    forall n | n in t.scanned ensures InWork(t, n) || t.scanned[n] == Succ(g, n) {
      if InWork(s, n) {
        var i :| 0 <= i < |s.work| && s.work[i].node == n;
        if i < |s.work| - 1 { assert t.work[i].node == n; }
      }
    }
  }

  lemma RetireAnchored<N(!new)>(g: Graph<N>, s: State<N>, t: State<N>)
    requires WorkOk(g, s) && Anchored(g, s) && LowReal(g, s) && s.work != []
    requires t.onStack == s.onStack && t.indexOf == s.indexOf && t.work == s.work[..|s.work| - 1]
    requires s.low[s.work[|s.work| - 1].node] < s.indexOf[s.work[|s.work| - 1].node]
    ensures Anchored(g, t)
  {
    var k := |s.work| - 1;
    var v := s.work[k].node;
    assert HasLow(g, s, v);
    var w :| LowAt(g, s, v, w);
    assert HasAnchor(g, s, w);
    var a :| AnchoredAt(g, s, w, a);
    assert s.indexOf[s.work[a].node] < s.indexOf[v];
    forall y | On(t, y) ensures HasAnchor(g, t, y) {
      assert HasAnchor(g, s, y);
      var i :| AnchoredAt(g, s, y, i);
      if i < k {
        assert AnchoredAt(g, t, y, i);
      } else {
        ReachesTransitive(g, y, v, w);
        ReachesTransitive(g, y, w, s.work[a].node);
        assert AnchoredAt(g, t, y, a);
      }
    }
  }

  lemma RetireLowBound<N(!new)>(g: Graph<N>, s: State<N>, t: State<N>)
    requires WorkOk(g, s) && LowBound(s) && s.work != [] && s.low.Keys == s.indexOf.Keys
    requires t.onStack == s.onStack && t.indexOf == s.indexOf && t.scanned == s.scanned
    requires t.work == s.work[..|s.work| - 1] && t.low == PopLow(s)
    ensures LowBound(t)
  {
    var k := |s.work| - 1;
    forall i, y, w | InRegion(t, i, y) && y in t.scanned && w in t.scanned[y] && On(t, w)
      && t.work[i].node in t.low && w in t.indexOf
      ensures t.low[t.work[i].node] <= t.indexOf[w]
    {
      assert FrameOk(g, s, s.work[i]) && FrameOk(g, s, s.work[k]);
      assert s.indexOf[s.work[i].node] < s.indexOf[s.work[k].node];
      assert t.low[t.work[i].node] <= s.low[t.work[i].node];
      if i + 1 < k {
        assert t.work[i + 1].node == s.work[i + 1].node;
        assert InRegion(s, i, y);
      } else if s.indexOf[y] < s.indexOf[s.work[k].node] {
        assert InRegion(s, i, y);
      } else {
        assert InRegion(s, k, y);
        assert t.low[t.work[i].node] <= s.low[s.work[k].node];
      }
    }
  }

  lemma PopLowReal<N(!new)>(g: Graph<N>, s: State<N>, t: State<N>, i: nat)
    requires WorkOk(g, s) && Linked(g, s) && LowReal(g, s) && i < |s.work| - 1
    requires t.onStack == s.onStack && t.indexOf == s.indexOf && t.low == PopLow(s)
    ensures var v := s.work[i].node;
      t.low[v] <= t.indexOf[v] && HasLow(g, t, v)
  {
    var k := |s.work| - 1;
    var v, u := s.work[i].node, s.work[k].node;
    assert FrameOk(g, s, s.work[i]) && FrameOk(g, s, s.work[k]) && s.indexOf[v] < s.indexOf[u];
    assert HasLow(g, s, v) && HasLow(g, s, u);
    var w :| LowAt(g, s, v, w);
    var x :| LowAt(g, s, u, x);
    if t.low[v] == s.low[v] {
      assert LowAt(g, t, v, w);
    } else {
      assert Reaches(g, v, u);
      ReachesTransitive(g, v, u, x);
      assert LowAt(g, t, v, x);
    }
  }

  lemma Retire<N(!new)>(g: Graph<N>, s: State<N>, t: State<N>)
    requires Inv(g, s) && Exhausted(s)
    requires s.low[s.work[|s.work| - 1].node] < s.indexOf[s.work[|s.work| - 1].node]
    requires t == s.(work := s.work[..|s.work| - 1], low := PopLow(s))
    ensures Inv(g, t)
  {
    ExhaustedFacts(g, s);
    assert Maps(g, t) && StackOk(t);
    assert WorkOk(g, t) by {
      forall i | 0 <= i < |t.work| ensures On(t, t.work[i].node) { assert FrameOk(g, s, s.work[i]); }
      PopWork(g, s, t);
    }
    assert ScannedOk(g, t) by { PopScanned(g, s, t); }
    assert Anchored(g, t) by { RetireAnchored(g, s, t); }
    assert LowBound(t) by { RetireLowBound(g, s, t); }
    assert LowReal(g, t) by {
      forall i: nat | i < |t.work|
        ensures t.low[t.work[i].node] <= t.indexOf[t.work[i].node] && HasLow(g, t, t.work[i].node)
      {
        PopLowReal(g, s, t, i);
      }
    }
    assert ComponentsCover(t) by {
      forall i, n | InComponent(t.result, i, n) ensures Done(t, n) { assert Done(s, n); }
      forall n | Done(t, n) ensures Placed(t.result, |t.result|, n) { assert Done(s, n); }
    }
  }

  // ── Step: a component root ───────────────────────────────────────────

  /** `comp` is the part of the stack from `v` up, and `t` is `s` without it. */
  ghost predicate TakesComponent<N(!new)>(s: State<N>, comp: seq<N>, t: State<N>)
  {
    && s.work != [] && s.work[|s.work| - 1].node in s.low && s.work[|s.work| - 1].node in s.indexOf
    && (|s.work| > 1 ==> s.work[|s.work| - 2].node in s.low)
    && var v := s.work[|s.work| - 1].node;
       && s.low[v] == s.indexOf[v]
       && comp != []
       && (forall x :: x in comp <==> On(s, x) && x in s.indexOf && s.indexOf[v] <= s.indexOf[x])
       && t.indexOf == s.indexOf && t.scanned == s.scanned && t.counter == s.counter
       && t.work == s.work[..|s.work| - 1] && t.low == PopLow(s)
       && t.onStack.Keys == s.onStack.Keys
       && (forall x :: On(t, x) <==> On(s, x) && x in s.indexOf && s.indexOf[x] < s.indexOf[v])
       && t.result == s.result + [comp]
  }

  /** Taking a component leaves the parent's `low` as it was. */
  lemma TakeKeepsLow<N(!new)>(g: Graph<N>, s: State<N>, comp: seq<N>, t: State<N>)
    requires WorkOk(g, s) && LowReal(g, s) && TakesComponent(s, comp, t)
    ensures forall i :: 0 <= i < |t.work| ==> FrameOk(g, s, t.work[i]) && On(t, t.work[i].node)
    ensures forall x :: x in s.low ==> t.low[x] == s.low[x]
  {
    var k := |s.work| - 1;
    forall i | 0 <= i < |t.work| ensures FrameOk(g, s, t.work[i]) && On(t, t.work[i].node) {
      assert FrameOk(g, s, s.work[i]) && s.indexOf[s.work[i].node] < s.indexOf[s.work[k].node];
    }
    if k > 0 {
      assert s.low[s.work[k - 1].node] <= s.indexOf[s.work[k - 1].node];
    }
  }

  lemma TakeAnchored<N(!new)>(g: Graph<N>, s: State<N>, comp: seq<N>, t: State<N>)
    requires Anchored(g, s) && TakesComponent(s, comp, t)
    ensures Anchored(g, t)
  {
    forall y | On(t, y) ensures HasAnchor(g, t, y) {
      assert HasAnchor(g, s, y);
      var i :| AnchoredAt(g, s, y, i);
      assert AnchoredAt(g, t, y, i);
    }
  }

  lemma TakeLow<N(!new)>(g: Graph<N>, s: State<N>, comp: seq<N>, t: State<N>)
    requires WorkOk(g, s) && LowBound(s) && LowReal(g, s) && TakesComponent(s, comp, t)
    ensures LowBound(t) && LowReal(g, t)
  {
    TakeKeepsLow(g, s, comp, t);
    var k := |s.work| - 1;
    forall i, y, w | InRegion(t, i, y) && y in t.scanned && w in t.scanned[y] && On(t, w)
      && t.work[i].node in t.low && w in t.indexOf
      ensures t.low[t.work[i].node] <= t.indexOf[w]
    {
      assert i + 1 < k ==> t.work[i + 1].node == s.work[i + 1].node;
      assert FrameOk(g, s, s.work[k]);
      assert InRegion(s, i, y);
    }
    forall i | 0 <= i < |t.work|
      ensures t.work[i].node in t.low && t.work[i].node in t.indexOf
      ensures t.low[t.work[i].node] <= t.indexOf[t.work[i].node]
      ensures HasLow(g, t, t.work[i].node)
    {
      assert FrameOk(g, s, t.work[i]) && HasLow(g, s, s.work[i].node);
      var w :| LowAt(g, s, s.work[i].node, w);
      assert LowAt(g, t, t.work[i].node, w);
    }
  }

  /** From a component root, every dependency of the component is in it or already done. */
  lemma ComponentIsClosed<N(!new)>(g: Graph<N>, s: State<N>, comp: seq<N>, t: State<N>, x: N, m: N)
    requires WorkOk(g, s) && ScannedOk(g, s) && LowBound(s) && TakesComponent(s, comp, t) && Exhausted(s)
    requires s.scanned.Keys == s.indexOf.Keys && x in comp && m in Succ(g, x)
    ensures m in comp || Done(s, m)
  {
    ExhaustedFacts(g, s);
    var k := |s.work| - 1;
    assert forall i :: 0 <= i < k ==> s.indexOf[s.work[i].node] < s.indexOf[s.work[k].node];
    assert s.scanned[x] == Succ(g, x) by {
      assert InWork(s, x) || s.scanned[x] == Succ(g, x);
      if InWork(s, x) {
        var i :| 0 <= i < |s.work| && s.work[i].node == x;
        assert i == k;
      }
    }
    assert m in s.scanned[x];
    assert InRegion(s, k, x);
  }

  /** A component is strongly connected: everything in it reaches its root and is reached from it. */
  lemma ComponentConnected<N(!new)>(g: Graph<N>, s: State<N>, comp: seq<N>, t: State<N>, x: N, y: N)
    requires WorkOk(g, s) && Linked(g, s) && Anchored(g, s) && TakesComponent(s, comp, t)
    requires x in comp && y in comp
    ensures Reaches(g, x, y)
  {
    var v := s.work[|s.work| - 1].node;
    assert FrameOk(g, s, s.work[|s.work| - 1]);
    StackReachesTop(g, s, x);
    assert Reaches(g, v, y);
    ReachesTransitive(g, x, v, y);
  }

  lemma TakeComponents<N(!new)>(g: Graph<N>, s: State<N>, comp: seq<N>, t: State<N>)
    requires WorkOk(g, s) && ScannedOk(g, s) && Linked(g, s) && Anchored(g, s) && LowBound(s)
    requires s.scanned.Keys == s.indexOf.Keys && TakesComponent(s, comp, t) && Exhausted(s)
    requires ComponentsOk(g, s.result) && ComponentsCover(s)
    ensures ComponentsOk(g, t.result)
  {
    var r := |s.result|;
    assert forall i, x :: InComponent(t.result, i, x) <==> InComponent(s.result, i, x) || (i == r && x in comp);
    forall i, x, y | InComponent(t.result, i, x) && InComponent(t.result, i, y) ensures Reaches(g, x, y) {
      if i == r { ComponentConnected(g, s, comp, t, x, y); }
    }
    forall i, j, x | InComponent(t.result, i, x) && InComponent(t.result, j, x) ensures i == j {
      if i < r { assert Done(s, x); }
      if j < r { assert Done(s, x); }
    }
    forall i, x, m | InComponent(t.result, i, x) && m in Succ(g, x) ensures Placed(t.result, i + 1, m) {
      if i < r {
        assert Placed(s.result, i + 1, m);
        var j :| j < i + 1 && InComponent(s.result, j, m);
        assert InComponent(t.result, j, m);
      } else {
        ComponentIsClosed(g, s, comp, t, x, m);
        if m in comp {
          assert InComponent(t.result, r, m);
        } else {
          assert Placed(s.result, r, m);
          var j :| j < r && InComponent(s.result, j, m);
          assert InComponent(t.result, j, m);
        }
      }
    }
  }

  lemma TakeCover<N(!new)>(s: State<N>, comp: seq<N>, t: State<N>)
    requires ComponentsCover(s) && TakesComponent(s, comp, t) && s.onStack.Keys == s.indexOf.Keys
    ensures ComponentsCover(t)
  {
    var r := |s.result|;
    forall i, x | InComponent(t.result, i, x) ensures Done(t, x) {
      if i < r {
        assert InComponent(s.result, i, x);
        assert Done(s, x);
      }
    }
    forall x | Done(t, x) ensures Placed(t.result, |t.result|, x) {
      if Done(s, x) {
        assert Placed(s.result, r, x);
        var j :| j < r && InComponent(s.result, j, x);
        assert InComponent(t.result, j, x);
      } else {
        assert x in comp;
        assert InComponent(t.result, r, x);
      }
    }
  }

  lemma Take<N(!new)>(g: Graph<N>, s: State<N>, comp: seq<N>, t: State<N>)
    requires Inv(g, s) && Exhausted(s) && TakesComponent(s, comp, t) && StackOk(t)
    ensures Inv(g, t)
  {
    ExhaustedFacts(g, s);
    assert Maps(g, t);
    assert WorkOk(g, t) by { TakeKeepsLow(g, s, comp, t); PopWork(g, s, t); }
    assert ScannedOk(g, t) by { PopScanned(g, s, t); }
    assert Anchored(g, t) by { TakeAnchored(g, s, comp, t); }
    assert LowBound(t) && LowReal(g, t) by { TakeLow(g, s, comp, t); }
    assert ComponentsOk(g, t.result) by { TakeComponents(g, s, comp, t); }
    assert ComponentsCover(t) by { TakeCover(s, comp, t); }
  }
}
