/** One build per package name: which of several a name stands for. */
module Collapse {
  import opened Options
  import opened Packages

  /** The architecture built for, and the repositories that only fill gaps. */
  datatype Setting = Setting(cpu: string, fallback: set<string>)

  /** `_arch_rank`: the target first, then what runs anywhere, then foreign builds. */
  function ArchRank(arch: string, cpu: string): nat {
    if arch == cpu then 0 else if arch == "noarch" || arch == "src" then 1 else 2
  }

  predicate IsFallback(st: Setting, p: Package) {
    p.repo in st.fallback
  }

  /** Compose before fallback, then by architecture, then by version. */
  predicate Better(st: Setting, c: Package, i: Package) {
    if IsFallback(st, c) != IsFallback(st, i) then !IsFallback(st, c)
    else if ArchRank(c.arch, st.cpu) != ArchRank(i.arch, st.cpu) then ArchRank(c.arch, st.cpu) < ArchRank(i.arch, st.cpu)
    else Newer(c, i)
  }

  /** "Not better" is a total preorder, so the fold below finds a maximum. */
  lemma BetterOrder(st: Setting, a: Package, b: Package, c: Package)
    ensures !Better(st, a, a)
    ensures Better(st, a, b) ==> !Better(st, b, a)
    ensures !Better(st, a, b) && !Better(st, b, c) ==> !Better(st, a, c)
  {
    NewerOrder(a, b, c);
  }

  /** The first of the best builds of a name, as an index: which record it is matters, not just what it says. */
  function Best(st: Setting, pkgs: seq<Package>, name: string): (r: Option<nat>)
    ensures r.Some? ==> r.value < |pkgs| && pkgs[r.value].name == name
  {
    if pkgs == [] then None
    else
      var n := |pkgs| - 1;
      var b := Best(st, pkgs[..n], name);
      if pkgs[n].name == name && (b.None? || Better(st, pkgs[n], pkgs[b.value])) then Some(n) else b
  }

  lemma {:induction false} BestIsBest(st: Setting, pkgs: seq<Package>, name: string)
    ensures Best(st, pkgs, name).None? <==> forall p :: p in pkgs ==> p.name != name
    ensures Best(st, pkgs, name).Some? ==>
      forall p :: p in pkgs && p.name == name ==> !Better(st, p, pkgs[Best(st, pkgs, name).value])
  {
    if pkgs != [] {
      var n := |pkgs| - 1;
      var front, last := pkgs[..n], pkgs[n];
      assert pkgs == front + [last];
      BestIsBest(st, front, name);
      var b, r := Best(st, front, name), Best(st, pkgs, name);
      if r.Some? {
        forall p | p in pkgs && p.name == name ensures !Better(st, p, pkgs[r.value]) {
          BetterOrder(st, last, last, last);
          if b.Some? {
            assert front[b.value] == pkgs[b.value];
            BetterOrder(st, last, pkgs[b.value], last);
            BetterOrder(st, p, pkgs[b.value], last);
          }
        }
      }
    }
  }

  /** A name with a compose build stands for a compose build. */
  lemma ComposeKeepsName(st: Setting, pkgs: seq<Package>, p: Package)
    requires p in pkgs && !IsFallback(st, p)
    ensures var b := Best(st, pkgs, p.name); b.Some? && !IsFallback(st, pkgs[b.value])
  {
    BestIsBest(st, pkgs, p.name);
  }

  /** Adding fallback repositories changes no name that has a build already, if that build is a compose one. */
  lemma {:induction false} FallbackChangesNoName(st: Setting, pkgs: seq<Package>, more: seq<Package>, name: string)
    requires forall p :: p in more ==> IsFallback(st, p)
    requires Best(st, pkgs, name).Some? && !IsFallback(st, pkgs[Best(st, pkgs, name).value])
    ensures Best(st, pkgs + more, name) == Best(st, pkgs, name)
    decreases |more|
  {
    if more == [] {
      assert pkgs + more == pkgs;
    } else {
      var n := |more| - 1;
      assert (pkgs + more)[..|pkgs| + n] == pkgs + more[..n];
      FallbackChangesNoName(st, pkgs, more[..n], name);
      assert more[n] in more;
    }
  }

  /** Pick the winners. */
  method CollapseNames(st: Setting, pkgs: seq<Package>) returns (index: map<string, nat>)
    ensures forall name :: Lookup(index, name) == Best(st, pkgs, name)
  {
    index := map[];
    for i := 0 to |pkgs|
      invariant forall name :: Lookup(index, name) == Best(st, pkgs[..i], name)
    {
      var pkg := pkgs[i];
      assert pkgs[..i + 1][..i] == pkgs[..i] && pkgs[..i + 1][i] == pkg;
      assert Lookup(index, pkg.name) == Best(st, pkgs[..i], pkg.name);
      if pkg.name !in index || Better(st, pkg, pkgs[index[pkg.name]]) {
        index := index[pkg.name := i];
      }
    }
    assert pkgs[..|pkgs|] == pkgs;
  }
}
