/** Dependency graphs and what it means for one node to reach another. */
module Graphs {

  type Graph<N> = map<N, set<N>>

  /** `graph.get(n, ())`: a node the map does not list has no dependencies. */
  function Succ<N(!new)>(g: Graph<N>, n: N): set<N> {
    if n in g then g[n] else {}
  }

  /** Everything the graph mentions, as a key or as a neighbour. */
  function Nodes<N(!new)>(g: Graph<N>): set<N> {
    g.Keys + (set n, m | n in g && m in g[n] :: m)
  }

  ghost predicate Path<N(!new)>(g: Graph<N>, p: seq<N>) {
    p != [] && forall i :: 0 <= i < |p| - 1 ==> p[i + 1] in Succ(g, p[i])
  }

  ghost predicate PathBetween<N(!new)>(g: Graph<N>, p: seq<N>, x: N, y: N) {
    Path(g, p) && p[0] == x && p[|p| - 1] == y
  }

  ghost predicate Reaches<N(!new)>(g: Graph<N>, x: N, y: N) {
    exists p :: PathBetween(g, p, x, y)
  }

  /** On a cycle: reached from itself by at least one edge. */
  ghost predicate OnCycle<N(!new)>(g: Graph<N>, x: N) {
    exists m :: m in Succ(g, x) && Reaches(g, m, x)
  }

  lemma ReachesSelf<N(!new)>(g: Graph<N>, x: N)
    ensures Reaches(g, x, x)
  {
    assert PathBetween(g, [x], x, x);
  }

  lemma ReachesTransitive<N(!new)>(g: Graph<N>, x: N, y: N, z: N)
    requires Reaches(g, x, y) && Reaches(g, y, z)
    ensures Reaches(g, x, z)
  {
    var p :| PathBetween(g, p, x, y);
    var q :| PathBetween(g, q, y, z);
    var r := p + q[1..];
    forall i | 0 <= i < |r| - 1 ensures r[i + 1] in Succ(g, r[i]) {
      if i < |p| - 1 {
        assert r[i] == p[i] && r[i + 1] == p[i + 1];
      } else {
        assert r[i] == q[i - (|p| - 1)] && r[i + 1] == q[i + 1 - (|p| - 1)];
      }
    }
    assert PathBetween(g, r, x, z);
  }

  lemma ReachesEdge<N(!new)>(g: Graph<N>, x: N, y: N)
    requires y in Succ(g, x)
    ensures Reaches(g, x, y)
  {
    assert PathBetween(g, [x, y], x, y);
  }

  ghost predicate Closed<N(!new)>(g: Graph<N>, s: set<N>) {
    forall x, y :: x in s && y in Succ(g, x) ==> y in s
  }

  /** A set closed under dependencies cannot be left. */
  lemma ClosedUnderReach<N(!new)>(g: Graph<N>, s: set<N>, x: N, y: N)
    requires Closed(g, s) && x in s && Reaches(g, x, y)
    ensures y in s
  {
    var p :| PathBetween(g, p, x, y);
    ClosedAlongPath(g, s, p);
  }

  lemma {:induction false} ClosedAlongPath<N(!new)>(g: Graph<N>, s: set<N>, p: seq<N>)
    requires Closed(g, s) && Path(g, p) && p[0] in s
    ensures p[|p| - 1] in s
    decreases |p|
  {
    if |p| > 1 {
      var q := p[..|p| - 1];
      assert Path(g, q) by {
        forall i | 0 <= i < |q| - 1 ensures q[i + 1] in Succ(g, q[i]) {
          assert p[i + 1] in Succ(g, p[i]);
        }
      }
      ClosedAlongPath(g, s, q);
      assert p[|p| - 2 + 1] in Succ(g, p[|p| - 2]);
    }
  }
}
