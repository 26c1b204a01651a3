/** Which build a name stands for, said of architectures, repositories and versions as records state them. */
module UniverseMeaning {
  import opened Options
  import opened RpmVersion
  import opened Packages
  import opened Collapse
  import opened Constrained
  import opened Universe

  /** A build of the name, from a compose repository or, with `fallback`, from one that only fills gaps. */
  ghost predicate Among(st: Setting, pkgs: seq<Package>, k: string, fallback: bool, p: Package) {
    p in pkgs && p.name == k && (p.repo in st.fallback <==> fallback)
  }

  ghost predicate AnyFor(st: Setting, pkgs: seq<Package>, k: string, fallback: bool, arches: set<string>) {
    exists p :: Among(st, pkgs, k, fallback, p) && p.arch in arches
  }

  /** What `u` says the name stands for. */
  ghost predicate StandsFor(st: Setting, pkgs: seq<Package>, u: Universe, k: string, w: Package) {
    k in u.binaryIndex && u.binaryIndex[k] < |pkgs| && pkgs[u.binaryIndex[k]] == w
  }

  lemma StandingIsBest(st: Setting, pkgs: seq<Package>, u: Universe, p: Package)
    requires IsUniverse(st, pkgs, u) && p in pkgs
    ensures Best(st, pkgs, p.name).Some?
    ensures var w := pkgs[Best(st, pkgs, p.name).value];
      StandsFor(st, pkgs, u, p.name, w) && w in pkgs && w.name == p.name && !Better(st, p, w)
      && forall q :: q in pkgs && q.name == p.name ==> !Better(st, q, w)
  {
    BestIsBest(st, pkgs, p.name);
    assert Lookup(u.binaryIndex, p.name) == Standing(st, pkgs, p.name);
  }

  /** A name with a build for the architecture built for stands for such a build: a compose build, if there is one. */
  lemma CpuBuildStands(st: Setting, pkgs: seq<Package>, u: Universe, fallback: bool, p: Package)
    requires IsUniverse(st, pkgs, u) && Among(st, pkgs, p.name, fallback, p) && p.arch == st.cpu
    requires fallback ==> forall q :: !Among(st, pkgs, p.name, false, q)
    ensures exists w :: StandsFor(st, pkgs, u, p.name, w) && Among(st, pkgs, p.name, fallback, w) && w.arch == st.cpu
  {
    StandingIsBest(st, pkgs, u, p);
    var w := pkgs[Best(st, pkgs, p.name).value];
    assert Among(st, pkgs, p.name, false, w) || Among(st, pkgs, p.name, true, w);
  }

  /** One with a build that runs anywhere, and none for the architecture, does not stand for a foreign one. */
  lemma AnywhereBuildStands(st: Setting, pkgs: seq<Package>, u: Universe, fallback: bool, p: Package)
    requires IsUniverse(st, pkgs, u) && Among(st, pkgs, p.name, fallback, p) && (p.arch == "noarch" || p.arch == "src")
    requires fallback ==> forall q :: !Among(st, pkgs, p.name, false, q)
    requires !AnyFor(st, pkgs, p.name, fallback, {st.cpu})
    ensures exists w ::
      StandsFor(st, pkgs, u, p.name, w) && Among(st, pkgs, p.name, fallback, w) && (w.arch == "noarch" || w.arch == "src")
  {
    StandingIsBest(st, pkgs, u, p);
    var w := pkgs[Best(st, pkgs, p.name).value];
    assert Among(st, pkgs, p.name, false, w) || Among(st, pkgs, p.name, true, w);
    assert w.arch != st.cpu && p.arch != st.cpu;
  }

  /** A compose build of any architecture keeps the name from every fallback. */
  lemma ComposeBuildStands(st: Setting, pkgs: seq<Package>, u: Universe, p: Package)
    requires IsUniverse(st, pkgs, u) && Among(st, pkgs, p.name, false, p)
    ensures exists w :: StandsFor(st, pkgs, u, p.name, w) && Among(st, pkgs, p.name, false, w)
  {
    StandingIsBest(st, pkgs, u, p);
  }

  /** Neither, either or both of two architectures are the one built for, and so with those that run anywhere. */
  predicate SameKind(st: Setting, a: string, b: string) {
    && (a == st.cpu <==> b == st.cpu)
    && (a == "noarch" || a == "src" <==> b == "noarch" || b == "src")
  }

  /** No build of the same standing and kind of architecture is greater than the one the name stands for. */
  lemma NoneGreater(st: Setting, pkgs: seq<Package>, u: Universe, w: Package, q: Package)
    requires IsUniverse(st, pkgs, u) && w in pkgs && StandsFor(st, pkgs, u, w.name, w)
    requires q in pkgs && q.name == w.name && (q.repo in st.fallback <==> w.repo in st.fallback)
    requires SameKind(st, q.arch, w.arch)
    ensures CompareEvr(q.evr, w.evr) <= 0
  {
    StandingIsBest(st, pkgs, u, q);
  }

  /** Of builds that tie, the first listed. */
  lemma {:induction false} BestIsFirst(st: Setting, pkgs: seq<Package>, name: string, j: nat)
    requires Best(st, pkgs, name).Some? && j < Best(st, pkgs, name).value && pkgs[j].name == name
    ensures Better(st, pkgs[Best(st, pkgs, name).value], pkgs[j])
  {
    var n := |pkgs| - 1;
    var front := pkgs[..n];
    var b, c := Best(st, pkgs, name).value, Best(st, front, name);
    assert pkgs == front + [pkgs[n]] && (j < n ==> front[j] == pkgs[j]);
    if b == n {
      assert front[j] in front;
      BestIsBest(st, front, name);
      BetterOrder(st, pkgs[n], front[j], front[c.value]);
      BetterOrder(st, pkgs[n], front[j], front[c.value]);
      BetterOrder(st, front[j], front[c.value], pkgs[n]);
      BetterOrder(st, pkgs[n], front[c.value], front[j]);
    } else {
      BestIsFirst(st, front, name, j);
    }
  }

  // ── What is kept of the builds that lost ─────────────────────────────

  /** A build lost its name to another architecture; it is foreign, or of a fallback repository and not the name's build. */
  lemma DiscardedSpelled(st: Setting, pkgs: seq<Package>, u: Universe, i: nat)
    requires IsUniverse(st, pkgs, u) && i < |pkgs|
    ensures pkgs[i].name in u.binaryIndex && u.binaryIndex[pkgs[i].name] < |pkgs|
    ensures var w := u.binaryIndex[pkgs[i].name];
      Discarded(st, pkgs, i) <==>
        && pkgs[w].arch != pkgs[i].arch
        && ((pkgs[i].arch != st.cpu && pkgs[i].arch != "noarch" && pkgs[i].arch != "src") || pkgs[i].repo in st.fallback)
  {
    StandingIsBest(st, pkgs, u, pkgs[i]);
  }

  /** Under `name.arch` stands the greatest of the discarded builds of that name and architecture. */
  lemma QualifiedNameStands(st: Setting, pkgs: seq<Package>, u: Universe, i: nat)
    requires IsUniverse(st, pkgs, u) && i < |pkgs| && Discarded(st, pkgs, i)
    ensures var k := pkgs[i].name + "." + pkgs[i].arch;
      && k in u.foreignIndex && u.foreignIndex[k] < |pkgs| && Discarded(st, pkgs, u.foreignIndex[k])
      && CompareEvr(pkgs[i].evr, pkgs[u.foreignIndex[k]].evr) <= 0
  {
    var k := Qualified(pkgs[i]);
    BestDiscardedIsNewest(st, pkgs, k, |pkgs|, i);
    assert Lookup(u.foreignIndex, k) == BestDiscarded(st, pkgs, k, |pkgs|);
  }

  // ── What a name provides ─────────────────────────────────────────────

  /** A capability rpm provides for itself. */
  predicate OfRpm(cap: string) {
    "rpmlib" <= cap || "config(" <= cap
  }

  /**
   * A plain name provides itself and what its build's record lists, but for
   * rpm's own capabilities, and nothing else that plain names answer.
   */
  lemma PlainNameProvides(st: Setting, pkgs: seq<Package>, u: Universe, k: string, cap: string)
    requires IsUniverse(st, pkgs, u) && exists p :: p in pkgs && p.name == k
    ensures k in u.binaryIndex && u.binaryIndex[k] < |pkgs|
    ensures var listed := cap == k || (cap in pkgs[u.binaryIndex[k]].provided && !OfRpm(cap));
      && (listed ==> cap in u.provided && k in u.provided[cap])
      && (cap in u.provided && k in u.provided[cap] && SomeCollapsed(st, pkgs, cap) ==> listed)
  {
    var p :| p in pkgs && p.name == k;
    StandingIsBest(st, pkgs, u, p);
    assert Answers(st, pkgs, u, cap);
    assert CollapsedOffers(st, pkgs, k, cap) ==> SomeCollapsed(st, pkgs, cap);
    assert "rpmlib(" <= cap ==> "rpmlib" <= cap by {
      if "rpmlib(" <= cap { assert cap[..6] == "rpmlib("[..6] == "rpmlib"; }
    }
  }

  /** A plain name states the versions its build's record lists, but for rpm's own capabilities; other names state none. */
  lemma PlainNameStates(st: Setting, pkgs: seq<Package>, u: Universe, k: string, cap: string, e: Evr)
    requires IsUniverse(st, pkgs, u)
    ensures (exists p :: p in pkgs && p.name == k) ==> k in u.binaryIndex && u.binaryIndex[k] < |pkgs|
    ensures e in StatedIn(u.provideEvr, cap, k)
      <==> (exists p :: p in pkgs && p.name == k) && (cap, e) in pkgs[u.binaryIndex[k]].provideEvr && !OfRpm(cap)
  {
    BestIsBest(st, pkgs, k);
    if p :| p in pkgs && p.name == k {
      StandingIsBest(st, pkgs, u, p);
      StatedSpelled(pkgs[u.binaryIndex[k]].provideEvr, cap, e);
    }
  }

  lemma {:induction false} StatedSpelled(entries: seq<(string, Evr)>, cap: string, e: Evr)
    ensures e in StatedBy(entries, cap) <==> (cap, e) in entries && !OfRpm(cap)
  {
    assert "rpmlib(" <= cap ==> "rpmlib" <= cap by {
      if "rpmlib(" <= cap { assert cap[..6] == "rpmlib("[..6] == "rpmlib"; }
    }
    if entries != [] {
      var front, last := entries[..|entries| - 1], entries[|entries| - 1];
      assert entries == front + [last];
      StatedSpelled(front, cap, e);
    }
  }

  /** What a build requires, but for rpm's own capabilities, each with its first known range. */
  lemma {:induction false} AskedSpelled(needs: seq<string>, c: string)
    ensures c in Asked(needs) <==> c in needs && !OfRpm(c)
  {
    if needs != [] {
      assert needs == [needs[0]] + needs[1..];
      AskedSpelled(needs[1..], c);
      assert "rpmlib(" <= c ==> "rpmlib" <= c by {
        if "rpmlib(" <= c { assert c[..6] == "rpmlib("[..6] == "rpmlib"; }
      }
    }
  }
}
